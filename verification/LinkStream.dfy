/** The reference decoder: what a whole stream of received bytes contains. It looks at one
    position after the other and never keeps any state but the position. */
module LinkStream {
  import opened Prelude
  import opened LinkFrame

  /** A fragment together with the position of the preamble byte it was found behind. */
  datatype Delivery = Delivery(start: nat, fragment: Fragment)

  function Last(d: Delivery): nat {
    d.start + BlockSize(|d.fragment.data|)
  }

  datatype Verdict =
    | NeedMore
    | BadHeader
    | BadChecksum
    | Accept(fragment: Fragment)

  /** Takes the preamble byte at `p` for a frame start. */
  function Try(cfg: Config, s: seq<byte>, p: nat): (v: Verdict)
    requires Usable(cfg) && p + 1 < |s|
    ensures v.Accept? ==> 1 <= |v.fragment.data| && p + BlockSize(|v.fragment.data|) < |s|
  {
    var from := p + 1;
    if |s| - from < HEADER_SIZE then NeedMore
    else
      var h := HeaderAt(s, from);
      if !HeaderValid(h, SizeBound(cfg)) then BadHeader
      else if |s| - from < BlockSize(h.size) then NeedMore
      else
        match ParseBlock(cfg, s[from..from + BlockSize(h.size)])
        case None => BadChecksum
        case Some(f) => Accept(f)
  }

  function Decode(cfg: Config, s: seq<byte>, p: nat): seq<Delivery>
    requires Usable(cfg)
    decreases |s| - p
  {
    if p + 1 >= |s| then []
    else if s[p] != PREAMBLE then Decode(cfg, s, p + 1)
    else
      match Try(cfg, s, p)
      case NeedMore => []
      case BadHeader => Decode(cfg, s, p + 1)
      case BadChecksum => Decode(cfg, s, p + 1)
      case Accept(f) => [Delivery(p, f)] + Decode(cfg, s, p + BlockSize(|f.data|))
  }

  function Fragments(ds: seq<Delivery>): (r: seq<Fragment>)
    ensures |r| == |ds|
  {
    seq(|ds|, i requires 0 <= i < |ds| => ds[i].fragment)
  }

  lemma DecodeAccepts(cfg: Config, s: seq<byte>, p: nat, f: Fragment)
    requires Usable(cfg) && p + 1 < |s| && s[p] == PREAMBLE && Try(cfg, s, p) == Accept(f)
    ensures Decode(cfg, s, p) == [Delivery(p, f)] + Decode(cfg, s, p + BlockSize(|f.data|))
  {
  }

  // --- more bytes never change what was decided ---

  lemma TryIsStable(cfg: Config, s: seq<byte>, t: seq<byte>, p: nat)
    requires Usable(cfg) && p + 1 < |s| && s <= t
    ensures Try(cfg, s, p) != NeedMore ==> Try(cfg, t, p) == Try(cfg, s, p)
  {
    var from := p + 1;
    if |s| - from >= HEADER_SIZE {
      var h := HeaderAt(s, from);
      assert HeaderAt(t, from) == h;
      if |s| - from >= BlockSize(h.size) {
        assert s[from..from + BlockSize(h.size)] == t[from..from + BlockSize(h.size)];
      }
    }
  }

  /** Decoding a longer history only adds deliveries at the end. */
  lemma {:induction false} DecodeIsMonotone(cfg: Config, s: seq<byte>, t: seq<byte>, p: nat)
    requires Usable(cfg) && s <= t
    ensures Decode(cfg, s, p) <= Decode(cfg, t, p)
    decreases |s| - p
  {
    if p + 1 < |s| {
      if s[p] != PREAMBLE {
        DecodeIsMonotone(cfg, s, t, p + 1);
      } else {
        TryIsStable(cfg, s, t, p);
        match Try(cfg, s, p)
        case NeedMore =>
        case BadHeader => DecodeIsMonotone(cfg, s, t, p + 1);
        case BadChecksum => DecodeIsMonotone(cfg, s, t, p + 1);
        case Accept(f) =>
          var next := p + BlockSize(|f.data|);
          DecodeIsMonotone(cfg, s, t, next);
          DecodeAccepts(cfg, s, p, f);
          DecodeAccepts(cfg, t, p, f);
      }
    }
  }

  /** A decoder that waits at `p` has decided once fewer than a maximal fragment's worth of
      further bytes have arrived. */
  lemma WaitingIsBounded(cfg: Config, s: seq<byte>, t: seq<byte>, p: nat)
    requires Usable(cfg) && p + 1 < |s| && s <= t
    requires |t| >= |s| + cfg.maxFragmentSize - 3
    ensures Try(cfg, t, p) != NeedMore
  {
    SizeBoundIsSmall(cfg);
  }

  lemma SizeBoundIsSmall(cfg: Config)
    requires Usable(cfg)
    ensures SizeBound(cfg) <= MaxData(cfg)
  {
  }

  // --- soundness of a delivery ---

  /** The four bytes from `p` on are a header that is acceptable: two different addresses, a size within the
      low byte of the largest data size, and the low byte of the sum of the three. */
  predicate HeaderLooksRight(cfg: Config, s: seq<byte>, p: nat)
    requires Usable(cfg) && p + 4 <= |s|
  {
    && s[p] != s[p + 1] && 1 <= s[p + 2] <= (cfg.maxFragmentSize - 10) % 0x100
    && s[p + 3] == (s[p] as int + s[p + 1] + s[p + 2]) % 0x100
  }

  /** The delivered fragment is a slice of the history: a preamble byte, an acceptable header, exactly `size`
      data bytes, and the checksum of header and data. */
  predicate Authentic(cfg: Config, s: seq<byte>, d: Delivery)
    requires Usable(cfg)
  {
    var p, n := d.start, |d.fragment.data|;
    && p + n + 8 < |s|
    && s[p] == 0x55 && HeaderLooksRight(cfg, s, p + 1) && s[p + 3] == n
    && d.fragment == Fragment(s[p + 2], s[p + 1], s[p + 5..p + 5 + n])
    && cfg.crc(s[p + 1..p + 5 + n]) == s[p + 5 + n..p + 9 + n]
  }

  /** The pieces of a block in terms of the history it was cut out of. */
  lemma BlockPieces(s: seq<byte>, p: nat, n: nat)
    requires p + BlockSize(n) < |s|
    ensures var b := s[p + 1..p + 1 + BlockSize(n)];
            && |b| == BlockSize(n) && HeaderAt(b, 0) == HeaderAt(s, p + 1)
            && b[HEADER_SIZE..n + HEADER_SIZE] == s[p + 5..p + 5 + n]
            && b[..n + HEADER_SIZE] == s[p + 1..p + 5 + n]
            && b[n + HEADER_SIZE..] == s[p + 5 + n..p + 9 + n]
  {
    var b := s[p + 1..p + 1 + BlockSize(n)];
    SliceOfSlice(s, p + 1, p + 1 + BlockSize(n), HEADER_SIZE, n + HEADER_SIZE);
    SliceOfSlice(s, p + 1, p + 1 + BlockSize(n), 0, n + HEADER_SIZE);
    SliceOfSlice(s, p + 1, p + 1 + BlockSize(n), n + HEADER_SIZE, |b|);
    assert b[n + HEADER_SIZE..] == b[n + HEADER_SIZE..|b|];
  }

  /** How a preamble byte is decided, in the bytes of the history alone. A header that is not acceptable is
      passed over at once, however many bytes it announces. */
  lemma TryInBytes(cfg: Config, s: seq<byte>, p: nat)
    requires Usable(cfg) && p + 1 < |s|
    ensures Try(cfg, s, p) ==
            if |s| < p + 5 then NeedMore
            else if !HeaderLooksRight(cfg, s, p + 1) then BadHeader
            else
              var n := s[p + 3];
              if |s| < p + 9 + n then NeedMore
              else if cfg.crc(s[p + 1..p + 5 + n]) != s[p + 5 + n..p + 9 + n] then BadChecksum
              else Accept(Fragment(s[p + 2], s[p + 1], s[p + 5..p + 5 + n]))
  {
    if p + 9 + HeaderSizeAt(s, p) <= |s| {
      BlockPieces(s, p, HeaderSizeAt(s, p));
    }
  }

  /** The size that the header behind `p` announces, if it is there. */
  function HeaderSizeAt(s: seq<byte>, p: nat): nat {
    if p + 3 < |s| then s[p + 3] else 0
  }

  /** Damage in a header costs one byte: decoding goes on behind the preamble it was found at. */
  lemma BadHeaderIsPassed(cfg: Config, s: seq<byte>, p: nat)
    requires Usable(cfg) && p + 4 < |s| && s[p + 4] != (s[p + 1] as int + s[p + 2] + s[p + 3]) % 0x100
    ensures Decode(cfg, s, p) == Decode(cfg, s, p + 1)
  {
    TryInBytes(cfg, s, p);
  }

  lemma AcceptIsAuthentic(cfg: Config, s: seq<byte>, p: nat)
    requires Usable(cfg) && p + 1 < |s| && s[p] == PREAMBLE && Try(cfg, s, p).Accept?
    ensures Authentic(cfg, s, Delivery(p, Try(cfg, s, p).fragment))
  {
    TryInBytes(cfg, s, p);
  }

  lemma AuthenticIsStable(cfg: Config, s: seq<byte>, t: seq<byte>, d: Delivery)
    requires Usable(cfg) && s <= t && Authentic(cfg, s, d)
    ensures Authentic(cfg, t, d)
  {
    var p, n := d.start, |d.fragment.data|;
    assert s[p + 5..p + 5 + n] == t[p + 5..p + 5 + n];
    assert s[p + 1..p + 5 + n] == t[p + 1..p + 5 + n];
    assert s[p + 5 + n..p + 9 + n] == t[p + 5 + n..p + 9 + n];
  }

  /** An intact frame at `q` passes every test. */
  lemma AuthenticIsAccepted(cfg: Config, s: seq<byte>, d: Delivery)
    requires Usable(cfg) && Authentic(cfg, s, d)
    ensures Try(cfg, s, d.start) == Accept(d.fragment)
  {
    TryInBytes(cfg, s, d.start);
  }

  // --- resynchronisation ---

  /** Some delivery starts before `q` and reaches past it. */
  predicate JumpedOver(ds: seq<Delivery>, q: nat) {
    exists i :: 0 <= i < |ds| && ds[i].start < q < Last(ds[i])
  }

  /** The same as a walk over the deliveries: one of them is `d`, or jumps over its start. */
  predicate Reached(ds: seq<Delivery>, d: Delivery) {
    ds != [] && (ds[0] == d || ds[0].start < d.start < Last(ds[0]) || Reached(ds[1..], d))
  }

  lemma {:induction false} ReachedMeans(ds: seq<Delivery>, d: Delivery)
    requires Reached(ds, d)
    ensures d in ds || JumpedOver(ds, d.start)
  {
    if ds[0] != d && !(ds[0].start < d.start < Last(ds[0])) {
      ReachedMeans(ds[1..], d);
      if JumpedOver(ds[1..], d.start) {
        var i :| 0 <= i < |ds[1..]| && ds[1..][i].start < d.start < Last(ds[1..][i]);
        assert ds[i + 1] == ds[1..][i];
      }
    }
  }

  /** Whatever precedes it, an intact frame is delivered unless an accepted frame jumps over its
      preamble, once a maximal fragment's worth of bytes has been received after that. */
  lemma Resynchronises(cfg: Config, s: seq<byte>, p: nat, d: Delivery)
    requires Usable(cfg) && Authentic(cfg, s, d) && p <= d.start
    requires |s| >= d.start + cfg.maxFragmentSize
    ensures d in Decode(cfg, s, p) || JumpedOver(Decode(cfg, s, p), d.start)
  {
    DecodeReaches(cfg, s, p, d);
    ReachedMeans(Decode(cfg, s, p), d);
  }

  lemma {:induction false} DecodeReaches(cfg: Config, s: seq<byte>, p: nat, d: Delivery)
    requires Usable(cfg) && Authentic(cfg, s, d) && p <= d.start
    requires |s| >= d.start + cfg.maxFragmentSize
    ensures Reached(Decode(cfg, s, p), d)
    decreases |s| - p
  {
    if p == d.start {
      AuthenticIsAccepted(cfg, s, d);
      DecodeAccepts(cfg, s, p, d.fragment);
    } else if s[p] != PREAMBLE {
      DecodeReaches(cfg, s, p + 1, d);
    } else {
      SizeBoundIsSmall(cfg);
      match Try(cfg, s, p)
      case NeedMore => assert false;
      case BadHeader => DecodeReaches(cfg, s, p + 1, d);
      case BadChecksum => DecodeReaches(cfg, s, p + 1, d);
      case Accept(f) =>
        var next := p + BlockSize(|f.data|);
        var rest := Decode(cfg, s, next);
        DecodeAccepts(cfg, s, p, f);
        assert ([Delivery(p, f)] + rest)[1..] == rest;
        if next <= d.start {
          DecodeReaches(cfg, s, next, d);
        }
    }
  }
}
