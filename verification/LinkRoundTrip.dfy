/** A stream of frames decodes to the fragments that were framed: exactly when, and when not. */
module LinkRoundTrip {
  import opened Prelude
  import opened LinkFrame
  import opened LinkStream

  function Stream(cfg: Config, fs: seq<Fragment>): seq<byte> {
    if fs == [] then [] else Frame(cfg, fs[0]) + Stream(cfg, fs[1..])
  }

  /** The header read one byte early, behind the first of the two preamble bytes. */
  function EarlyHeader(f: Fragment): Header {
    var h := HeaderOf(f);
    Header(PREAMBLE, h.destination, h.source, h.size)
  }

  /** The header read one byte early is acceptable: the destination is not the preamble byte, the source is
      a size, and the size is the low byte of the sum that the check takes. */
  predicate Misleading(cfg: Config, f: Fragment)
    requires Usable(cfg)
  {
    && f.destination % 0x100 != 0x55
    && 1 <= f.source % 0x100 <= (cfg.maxFragmentSize - 10) % 0x100
    && |f.data| % 0x100 == (0x55 + f.destination + f.source) % 0x100
  }

  lemma EarlyHeaderIsValidExactlyWhen(cfg: Config, f: Fragment)
    requires Usable(cfg)
    ensures HeaderValid(EarlyHeader(f), SizeBound(cfg)) <==> Misleading(cfg, f)
  {
    LowSum(0x55, f.destination, f.source);
  }

  /** With `after` behind it, the frame of `f` traps the decoder at its first preamble byte: the header read
      early is acceptable, and either too few bytes follow for the length that it announces or the bytes
      that follow happen to carry the matching checksum. */
  predicate Shadowed(cfg: Config, f: Fragment, after: seq<byte>)
    requires Usable(cfg)
  {
    var n, block := f.source % 0x100 + 4, (Frame(cfg, f) + after)[1..];
    Misleading(cfg, f) && (|block| < n + 4 || cfg.crc(block[..n]) == block[n..n + 4])
  }

  predicate AllSendable(cfg: Config, fs: seq<Fragment>)
    requires Usable(cfg)
  {
    forall i :: 0 <= i < |fs| ==> Sendable(cfg, fs[i])
  }

  /** No frame of the stream is shadowed by what follows it. */
  predicate NoneShadowed(cfg: Config, fs: seq<Fragment>)
    requires Usable(cfg)
  {
    fs == [] || (!Shadowed(cfg, fs[0], Stream(cfg, fs[1..])) && NoneShadowed(cfg, fs[1..]))
  }

  /** How a preamble is decided, in terms of the header and the bytes behind it. */
  lemma TryDecides(cfg: Config, t: seq<byte>, p: nat, h: Header, block: seq<byte>)
    requires Usable(cfg) && p + HEADER_SIZE < |t| && block == t[p + 1..] && h == HeaderAt(t, p + 1)
    ensures var n := h.size + HEADER_SIZE;
            Try(cfg, t, p) ==
            if !HeaderValid(h, SizeBound(cfg)) then BadHeader
            else if |block| < n + FOOTER_SIZE then NeedMore
            else if cfg.crc(block[..n]) == block[n..n + FOOTER_SIZE]
            then Accept(Fragment(h.source, h.destination, block[HEADER_SIZE..n]))
            else BadChecksum
  {
    var n := h.size + HEADER_SIZE;
    if |block| >= n + FOOTER_SIZE {
      BlockPieces(t, p, h.size);
      SliceOfSlice(t, p + 1, |t|, 0, n);
      assert block[..n] == block[0..n] && t[p + 1..p + 1 + n] == block[..n];
      var b := t[p + 1..p + 1 + BlockSize(h.size)];
      assert b[..n] == block[..n] && b[n..] == block[n..n + FOOTER_SIZE];
      SliceOfSlice(t, p + 1, |t|, n, n + FOOTER_SIZE);
      SliceOfSlice(t, p + 1, |t|, HEADER_SIZE, n);
    }
  }

  /** Where a frame is in a history. */
  lemma FrameBytes(cfg: Config, t: seq<byte>, pre: seq<byte>, f: Fragment, after: seq<byte>, p: nat)
    requires t == pre + Frame(cfg, f) + after && |pre| == p
    ensures |t| >= p + 10 && t[p] == t[p + 1] == PREAMBLE
    ensures HeaderAt(t, p + 1) == EarlyHeader(f) && HeaderAt(t, p + 2) == HeaderOf(f)
    ensures t[p + 1..] == (Frame(cfg, f) + after)[1..]
    ensures |t| >= p + |Frame(cfg, f)| && t[p + 2..p + |Frame(cfg, f)|] == Frame(cfg, f)[2..]
  {
    var frame, rest := Frame(cfg, f), Frame(cfg, f) + after;
    Associate(pre, frame, after);
    Halves(pre, rest);
    Halves(frame, after);
    forall i | 0 <= i < 6 ensures t[p + i] == frame[i] {
      assert t[p + i] == rest[i];
    }
    SliceOfSlice(t, p, |t|, 1, |rest|);
    SliceOfSlice(t, p, |t|, 2, |frame|);
    SliceOfSlice(rest, 0, |frame|, 2, |frame|);
    assert rest[..|frame|] == rest[0..|frame|];
  }

  /** The first preamble byte of a frame is decided as `Shadowed` says. */
  lemma FirstPreamble(cfg: Config, t: seq<byte>, pre: seq<byte>, f: Fragment, after: seq<byte>, p: nat)
      returns (shadowed: bool)
    requires Usable(cfg) && Sendable(cfg, f) && t == pre + Frame(cfg, f) + after && |pre| == p
    ensures shadowed <==> Shadowed(cfg, f, after)
    ensures var v := Try(cfg, t, p);
            && (!shadowed <==> v == BadHeader || v == BadChecksum)
            && (v.Accept? ==> v.fragment != f)
  {
    shadowed := Shadowed(cfg, f, after);
    assert EarlyHeader(f).source == f.destination != f.source;
    EarlyHeaderIsValidExactlyWhen(cfg, f);
    FrameBytes(cfg, t, pre, f, after, p);
    TryDecides(cfg, t, p, EarlyHeader(f), (Frame(cfg, f) + after)[1..]);
  }

  /** A block that parses, with a valid header, is accepted where it is. */
  lemma BlockIsAccepted(cfg: Config, t: seq<byte>, p: nat, b: seq<byte>, f: Fragment)
    requires Usable(cfg) && p + 1 + |b| <= |t| && t[p + 1..p + 1 + |b|] == b && |b| >= HEADER_SIZE + FOOTER_SIZE
    requires var h := HeaderAt(t, p + 1);
             HeaderValid(h, SizeBound(cfg)) && |b| == BlockSize(h.size) && ParseBlock(cfg, b) == Some(f)
    ensures Try(cfg, t, p) == Accept(f)
  {
  }

  /** The second preamble byte of a frame leads to the fragment. */
  lemma SecondPreamble(cfg: Config, t: seq<byte>, pre: seq<byte>, f: Fragment, after: seq<byte>, p: nat)
    requires Usable(cfg) && Sendable(cfg, f) && t == pre + Frame(cfg, f) + after && |pre| == p
    ensures Try(cfg, t, p + 1) == Accept(f)
  {
    FrameBytes(cfg, t, pre, f, after, p);
    ParseInvertsFrame(cfg, f);
    BlockIsAccepted(cfg, t, p + 1, Frame(cfg, f)[2..], f);
  }

  /** Whatever is accepted is sendable. */
  lemma AcceptedIsSendable(cfg: Config, t: seq<byte>, p: nat)
    requires Usable(cfg) && p + 1 < |t| && Try(cfg, t, p).Accept?
    ensures Sendable(cfg, Try(cfg, t, p).fragment)
  {
  }

  /** The second preamble byte of a frame, whatever the fragment and whatever surrounds it, leads to the
      fragment exactly when it is sendable. */
  lemma FrameParsesExactlyWhen(cfg: Config, t: seq<byte>, pre: seq<byte>, f: Fragment, after: seq<byte>, p: nat)
    requires Usable(cfg) && t == pre + Frame(cfg, f) + after && |pre| == p
    ensures p + 2 < |t| && (Try(cfg, t, p + 1) == Accept(f) <==> Sendable(cfg, f))
  {
    FrameBytes(cfg, t, pre, f, after, p);
    if Sendable(cfg, f) {
      SecondPreamble(cfg, t, pre, f, after, p);
    } else if Try(cfg, t, p + 1).Accept? {
      AcceptedIsSendable(cfg, t, p + 1);
    }
  }

  /** No history at all decodes to a fragment that is not sendable. */
  lemma {:induction false} DecodedIsSendable(cfg: Config, t: seq<byte>, p: nat, i: nat)
    requires Usable(cfg) && i < |Decode(cfg, t, p)|
    ensures Sendable(cfg, Decode(cfg, t, p)[i].fragment)
    decreases |t| - p
  {
    if t[p] != PREAMBLE {
      DecodedIsSendable(cfg, t, p + 1, i);
    } else {
      match Try(cfg, t, p)
      case Accept(f) =>
        AcceptedIsSendable(cfg, t, p);
        if i > 0 {
          DecodedIsSendable(cfg, t, p + BlockSize(|f.data|), i - 1);
        }
      case BadHeader => DecodedIsSendable(cfg, t, p + 1, i);
      case BadChecksum => DecodedIsSendable(cfg, t, p + 1, i);
    }
  }

  /** With a largest data size of 300, 300 bytes pass the sender's check and the header passes the
      receiver's, and yet no history decodes to the fragment: the size in the header is 44. */
  lemma LongDataIsCut(cfg: Config, t: seq<byte>, p: nat)
    requires Usable(cfg) && MaxData(cfg) == 300
    ensures var f := Fragment(1, 2, Zeros(300));
            && |f.data| <= MaxData(cfg) && HeaderValid(HeaderAt(Frame(cfg, f), 2), SizeBound(cfg))
            && HeaderAt(Frame(cfg, f), 2).size == 44
            && f !in Fragments(Decode(cfg, t, p))
  {
    var f := Fragment(1, 2, Zeros(300));
    HeaderAcceptedExactlyWhen(cfg, f);
    assert HeaderAt(Frame(cfg, f), 2) == HeaderOf(f);
    if f in Fragments(Decode(cfg, t, p)) {
      var i :| 0 <= i < |Decode(cfg, t, p)| && Fragments(Decode(cfg, t, p))[i] == f;
      DecodedIsSendable(cfg, t, p, i);
    }
  }

  /** The byte before two preamble bytes, even when it looks like a preamble itself, leads on to
      them: a header whose addresses are equal is not valid. */
  lemma PreamblesArePassed(cfg: Config, t: seq<byte>, p: nat)
    requires Usable(cfg) && p + 4 < |t| && t[p + 1] == t[p + 2] == PREAMBLE
    ensures Decode(cfg, t, p) == Decode(cfg, t, p + 1)
  {
    if t[p] == PREAMBLE {
      var h := HeaderAt(t, p + 1);
      assert h.destination == h.source;
      assert Try(cfg, t, p) == BadHeader;
    }
  }

  /** Decoding from the byte before two preambles, given how the two are decided. */
  lemma FrameAt(cfg: Config, t: seq<byte>, p: nat, f: Fragment)
    requires Usable(cfg) && p + 4 < |t| && t[p + 1] == t[p + 2] == PREAMBLE
    requires Try(cfg, t, p + 2) == Accept(f)
    ensures Try(cfg, t, p + 1) == NeedMore ==> Decode(cfg, t, p) == []
    ensures Try(cfg, t, p + 1).Accept? ==>
              Decode(cfg, t, p) != [] && Decode(cfg, t, p)[0].fragment == Try(cfg, t, p + 1).fragment
    ensures Try(cfg, t, p + 1) == BadHeader || Try(cfg, t, p + 1) == BadChecksum ==>
              Decode(cfg, t, p) == [Delivery(p + 2, f)] + Decode(cfg, t, p + 2 + BlockSize(|f.data|))
  {
    PreamblesArePassed(cfg, t, p);
    assert Decode(cfg, t, p + 2) == [Delivery(p + 2, f)] + Decode(cfg, t, p + 2 + BlockSize(|f.data|));
  }

  /** Whatever follows, a frame is delivered when it is not shadowed; otherwise the decoder waits
      there or delivers something else. */
  lemma OneFrame(cfg: Config, t: seq<byte>, pre: seq<byte>, f: Fragment, after: seq<byte>, p: nat, next: nat)
      returns (shadowed: bool)
    requires Usable(cfg) && Sendable(cfg, f)
    requires t == pre + Frame(cfg, f) + after && |pre| == p + 1 && next == p + |Frame(cfg, f)|
    ensures shadowed <==> Shadowed(cfg, f, after)
    ensures !shadowed ==> Decode(cfg, t, p) == [Delivery(p + 2, f)] + Decode(cfg, t, next)
    ensures shadowed ==> Decode(cfg, t, p) == [] || Decode(cfg, t, p)[0].fragment != f
  {
    FrameBytes(cfg, t, pre, f, after, p + 1);
    shadowed := FirstPreamble(cfg, t, pre, f, after, p + 1);
    SecondPreamble(cfg, t, pre, f, after, p + 1);
    FrameAt(cfg, t, p, f);
    assert next == p + 2 + BlockSize(|f.data|);
  }

  /** What has been decoded matches exactly when the first delivery and the rest do. */
  lemma FragmentsMatch(ds: seq<Delivery>, d: Delivery, rest: seq<Delivery>, fs: seq<Fragment>, shadowed: bool)
    requires fs != [] && d.fragment == fs[0]
    requires !shadowed ==> ds == [d] + rest
    requires shadowed ==> ds == [] || ds[0].fragment != fs[0]
    ensures Fragments(ds) == fs <==> !shadowed && Fragments(rest) == fs[1..]
  {
    if shadowed {
      assert ds != [] ==> Fragments(ds)[0] == ds[0].fragment;
    } else {
      assert Fragments(ds) == [fs[0]] + Fragments(rest);
      Halves([fs[0]], Fragments(rest));
      assert fs == [fs[0]] + fs[1..];
    }
  }

  lemma StreamCons(cfg: Config, pre: seq<byte>, fs: seq<Fragment>)
    requires fs != []
    ensures pre + Stream(cfg, fs) == pre + Frame(cfg, fs[0]) + Stream(cfg, fs[1..])
  {
    Associate(pre, Frame(cfg, fs[0]), Stream(cfg, fs[1..]));
  }

  lemma {:induction false} StreamDecodes(cfg: Config, t: seq<byte>, pre: seq<byte>, fs: seq<Fragment>, p: nat)
    requires Usable(cfg) && AllSendable(cfg, fs) && t == pre + Stream(cfg, fs) && |pre| == p + 1
    ensures Fragments(Decode(cfg, t, p)) == fs <==> NoneShadowed(cfg, fs)
    decreases |fs|
  {
    if fs == [] {
      assert Decode(cfg, t, p) == [];
    } else {
      var next := p + |Frame(cfg, fs[0])|;
      StreamCons(cfg, pre, fs);
      StreamDecodes(cfg, t, pre + Frame(cfg, fs[0]), fs[1..], next);
      var shadowed := OneFrame(cfg, t, pre, fs[0], Stream(cfg, fs[1..]), p, next);
      FragmentsMatch(Decode(cfg, t, p), Delivery(p + 2, fs[0]), Decode(cfg, t, next), fs, shadowed);
    }
  }

  /** The round trip, for any fragments: a receiver that has seen nothing but the frames of `fs`
      delivers exactly `fs`, in order, if and only if every one is sendable and no frame is shadowed.
      Position 0 of a history is the zero byte that the receive buffer starts with. */
  lemma RoundTrip(cfg: Config, fs: seq<Fragment>)
    requires Usable(cfg)
    ensures Fragments(Decode(cfg, [0] + Stream(cfg, fs), 0)) == fs <==>
            AllSendable(cfg, fs) && NoneShadowed(cfg, fs)
  {
    var ds := Decode(cfg, [0] + Stream(cfg, fs), 0);
    if AllSendable(cfg, fs) {
      StreamDecodes(cfg, [0] + Stream(cfg, fs), [0], fs, 0);
    } else if Fragments(ds) == fs {
      forall i | 0 <= i < |fs| ensures Sendable(cfg, fs[i]) {
        DecodedIsSendable(cfg, [0] + Stream(cfg, fs), 0, i);
        assert Fragments(ds)[i] == ds[i].fragment;
      }
    }
  }

  /** The check a sender can make on one fragment alone: its early header is not a header. */
  predicate Unambiguous(cfg: Config, f: Fragment)
    requires Usable(cfg)
  {
    !Misleading(cfg, f)
  }

  lemma {:induction false} UnambiguousIsNeverShadowed(cfg: Config, fs: seq<Fragment>)
    requires Usable(cfg)
    requires forall i :: 0 <= i < |fs| ==> Unambiguous(cfg, fs[i])
    ensures NoneShadowed(cfg, fs)
    decreases |fs|
  {
    if fs != [] {
      assert Unambiguous(cfg, fs[0]);
      UnambiguousIsNeverShadowed(cfg, fs[1..]);
    }
  }

  /** One byte from address 20 to address 2 arrives: the header read early looks like a size of 20, but its
      check byte is wrong. */
  lemma APlainFrameArrives(cfg: Config)
    requires Usable(cfg) && 20 <= SizeBound(cfg)
    ensures var f := Fragment(20, 2, [7]);
            Fragments(Decode(cfg, [0] + Frame(cfg, f), 0)) == [f]
  {
    var f := Fragment(20, 2, [7]);
    assert Stream(cfg, [f]) == Frame(cfg, f) + Stream(cfg, []);
    assert Frame(cfg, f) + [] == Frame(cfg, f);
    assert Unambiguous(cfg, f);
    UnambiguousIsNeverShadowed(cfg, [f]);
    RoundTrip(cfg, [f]);
  }

  /** Thirty bytes from address 200 to address 1: whatever the checksum, the receiver gets the whole
      frame and delivers nothing. */
  lemma AFrameCanBeWithheld(cfg: Config)
    requires Usable(cfg) && 200 <= SizeBound(cfg)
    ensures var f := Fragment(200, 1, Zeros(30));
            Sendable(cfg, f) && Decode(cfg, [0] + Frame(cfg, f), 0) == []
  {
    var f := Fragment(200, 1, Zeros(30));
    var t := [0] + Frame(cfg, f);
    assert t == [0] + Frame(cfg, f) + [];
    FrameBytes(cfg, t, [0], f, [], 1);
    assert EarlyHeader(f) == Header(0x55, 1, 200, 30);
    assert Try(cfg, t, 1) == NeedMore;
    assert Decode(cfg, t, 0) == Decode(cfg, t, 1);
  }
}
