/** The receiver as a state machine over the history of all bytes ever put: what the ring buffer
    and `do_receive` do to it, and what holds over every run. */
module LinkMachine {
  import opened Prelude
  import opened LinkFrame
  import opened LinkStream
  import opened LinkRoundTrip

  /** `history[0]` is the zero that the receive buffer starts with; byte `k` of the history is the
      `k`-th byte put. `read` is the position of the saved read iterator, `polled` the newest position
      at the last call of `do_receive`, `received` the received-bytes counter. */
  datatype Link = Link(history: seq<byte>, read: nat, polled: nat, received: nat, out: seq<Delivery>)

  const INITIAL := Link([0], 0, 0, 0, [])

  /** The newest position. */
  function Newest(l: Link): int {
    |l.history| - 1
  }

  predicate WellPlaced(l: Link) {
    l.read <= Newest(l) && l.polled <= Newest(l)
  }

  /** One byte arrives in a ring of `n` slots. A writer that catches up with the read iterator makes
      the two coincide, which reads as an empty backlog. */
  function Put(n: nat, l: Link, b: byte): Link
    requires WellPlaced(l)
  {
    var w := Newest(l) + 1;
    l.(history := l.history + [b], read := if w - l.read >= n then w else l.read)
  }

  /** The loop of `do_receive`: `saved` is the read iterator it will leave behind, `p` the local one. */
  function Scan(cfg: Config, s: seq<byte>, saved: nat, p: nat): (r: (nat, Option<Delivery>))
    requires Usable(cfg)
    decreases |s| - p
  {
    if p + 1 >= |s| then (saved, None)
    else if s[p] != PREAMBLE then Scan(cfg, s, saved, p + 1)
    else
      match Try(cfg, s, p)
      case NeedMore => (p, None)
      case BadHeader => Scan(cfg, s, p + 1, p + 1)
      case BadChecksum => (p + 1, None)
      case Accept(f) => (p + BlockSize(|f.data|), Some(Delivery(p, f)))
  }

  /** The number of bytes loaded since the last call, from two values of the 32-bit byte counter. When
      the counter has wrapped this is the result of a comparison. */
  function Loaded(last: nat, count: nat, n: nat): nat {
    if last <= count then count - last
    else if UINT_RANGE - 1 - last + count >= n then 1 else 0
  }

  /** Where a call of `do_receive` starts: behind everything if the buffer has overflowed. */
  function StartOf(n: nat, l: Link): nat
    requires WellPlaced(l)
  {
    if Loaded(l.polled % UINT_RANGE, Newest(l) % UINT_RANGE, n) >= n then Newest(l) else l.read
  }

  function Poll(cfg: Config, n: nat, l: Link): Link
    requires Usable(cfg) && WellPlaced(l)
  {
    var loaded := Loaded(l.polled % UINT_RANGE, Newest(l) % UINT_RANGE, n);
    var start := StartOf(n, l);
    var (read, found) := Scan(cfg, l.history, start, start);
    Link(l.history, read, Newest(l), (l.received + loaded) % UINT64_RANGE,
         match found case None => l.out case Some(d) => l.out + [d])
  }

  /** The counter difference is the true number of bytes exactly when the 32-bit counter did not
      wrap in between. */
  lemma LoadedIsExactWithoutWrap(polled: nat, newest: nat, n: nat)
    requires polled <= newest && n > 0
    ensures Loaded(polled % UINT_RANGE, newest % UINT_RANGE, n) == newest - polled <==>
            polled / UINT_RANGE == newest / UINT_RANGE
  {
    var a, b := polled / 0x1_0000_0000, newest / 0x1_0000_0000;
    var last, count := polled % 0x1_0000_0000, newest % 0x1_0000_0000;
    assert polled == a * 0x1_0000_0000 + last && newest == b * 0x1_0000_0000 + count;
    assert a <= b;
    if a < b {
      assert newest - polled >= 0x1_0000_0000 + count - last;
    }
  }

  /** When the counter has wrapped once, what passes for the difference is a truth value: whether more bytes
      came than the ring has slots. */
  lemma LoadedAcrossWrap(polled: nat, newest: nat, n: nat)
    requires newest / 0x1_0000_0000 == polled / 0x1_0000_0000 + 1
    requires newest % 0x1_0000_0000 < polled % 0x1_0000_0000
    ensures Loaded(polled % UINT_RANGE, newest % UINT_RANGE, n) == if newest - polled > n then 1 else 0
  {
    var a, last, count := polled / 0x1_0000_0000, polled % 0x1_0000_0000, newest % 0x1_0000_0000;
    assert polled == a * 0x1_0000_0000 + last && newest == (a + 1) * 0x1_0000_0000 + count;
  }

  // --- one call ---

  lemma {:induction false} ScanStaysInside(cfg: Config, s: seq<byte>, saved: nat, p: nat)
    requires Usable(cfg) && saved <= p < |s|
    ensures saved <= Scan(cfg, s, saved, p).0 < |s|
    decreases |s| - p
  {
    if p + 1 < |s| {
      if s[p] != PREAMBLE {
        ScanStaysInside(cfg, s, saved, p + 1);
      } else if Try(cfg, s, p) == BadHeader {
        ScanStaysInside(cfg, s, p + 1, p + 1);
      }
    }
  }

  /** What a call delivers is authentic and lies between the old and the new read position. */
  lemma {:induction false} ScanIsSound(cfg: Config, s: seq<byte>, saved: nat, p: nat)
    requires Usable(cfg) && saved <= p
    ensures var (read, found) := Scan(cfg, s, saved, p);
            found.Some? ==>
              Authentic(cfg, s, found.value) && saved <= found.value.start && Last(found.value) == read
    decreases |s| - p
  {
    if p + 1 < |s| {
      if s[p] != PREAMBLE {
        ScanIsSound(cfg, s, saved, p + 1);
      } else {
        match Try(cfg, s, p)
        case BadHeader => ScanIsSound(cfg, s, p + 1, p + 1);
        case Accept(f) => AcceptIsAuthentic(cfg, s, p);
        case _ =>
      }
    }
  }

  /** Bytes that are not preambles are passed over. */
  lemma {:induction false} ScanSkips(cfg: Config, s: seq<byte>, saved: nat, p: nat, q: nat)
    requires Usable(cfg) && p <= q < |s| && forall k :: p <= k < q ==> s[k] != PREAMBLE
    ensures Scan(cfg, s, saved, p) == Scan(cfg, s, saved, q)
    decreases q - p
  {
    if p < q {
      ScanSkips(cfg, s, saved, p + 1, q);
    }
  }

  /** Where the read iterator goes once the preamble at `p` has been tried. */
  function NextRead(v: Verdict, p: nat): nat {
    match v
    case NeedMore => p
    case Accept(f) => p + BlockSize(|f.data|)
    case _ => p + 1
  }

  function Accepted(v: Verdict): Option<Fragment> {
    match v case Accept(f) => Some(f) case _ => None
  }

  function DeliveryAt(p: nat, found: Option<Fragment>): Option<Delivery> {
    match found case None => None case Some(f) => Some(Delivery(p, f))
  }

  /** A call goes on after a bad header only. */
  lemma ScanDecides(cfg: Config, s: seq<byte>, saved: nat, p: nat, v: Verdict)
    requires Usable(cfg) && p + 1 < |s| && s[p] == PREAMBLE && v == Try(cfg, s, p)
    ensures NextRead(v, p) < |s|
    ensures Scan(cfg, s, saved, p) ==
            if v.BadHeader? then Scan(cfg, s, NextRead(v, p), NextRead(v, p))
            else (NextRead(v, p), DeliveryAt(p, Accepted(v)))
  {
  }

  function Found(d: Option<Delivery>): seq<Delivery> {
    match d case None => [] case Some(x) => [x]
  }

  /** A call on the history so far agrees with decoding any longer history `t`. */
  lemma {:induction false} ScanRefinesDecode(cfg: Config, s: seq<byte>, saved: nat, p: nat, t: seq<byte>)
    requires Usable(cfg) && saved <= p && s <= t
    requires Decode(cfg, t, saved) == Decode(cfg, t, p)
    ensures var (read, found) := Scan(cfg, s, saved, p);
            Decode(cfg, t, saved) == Found(found) + Decode(cfg, t, read)
    decreases |s| - p
  {
    if p + 1 < |s| {
      if s[p] != PREAMBLE {
        ScanRefinesDecode(cfg, s, saved, p + 1, t);
      } else {
        TryIsStable(cfg, s, t, p);
        match Try(cfg, s, p)
        case NeedMore =>
          assert Found(None) + Decode(cfg, t, p) == Decode(cfg, t, p);
        case BadHeader => ScanRefinesDecode(cfg, s, p + 1, p + 1, t);
        case BadChecksum =>
          assert Found(None) + Decode(cfg, t, p + 1) == Decode(cfg, t, p + 1);
        case Accept(f) =>
      }
    }
  }

  /** A call that moves nothing has nothing left to find. */
  lemma {:induction false} QuietScanIsDone(cfg: Config, s: seq<byte>, saved: nat, p: nat)
    requires Usable(cfg) && saved <= p && Scan(cfg, s, saved, p).0 == saved
    ensures Decode(cfg, s, p) == [] && Scan(cfg, s, saved, p).1 == None
    decreases |s| - p
  {
    if p + 1 < |s| {
      if s[p] != PREAMBLE {
        QuietScanIsDone(cfg, s, saved, p + 1);
      } else if Try(cfg, s, p) == BadHeader {
        ScanStaysInside(cfg, s, p + 1, p + 1);
        assert false;
      }
    }
  }

  // --- runs ---

  datatype Event = Byte(b: byte) | Call

  function Step(cfg: Config, n: nat, l: Link, e: Event): (r: Link)
    requires Usable(cfg) && WellPlaced(l)
    ensures WellPlaced(r) && l.read <= r.read && l.history <= r.history && l.out <= r.out
  {
    match e
    case Byte(b) => Put(n, l, b)
    case Call =>
      var start := StartOf(n, l);
      ScanStaysInside(cfg, l.history, start, start);
      Poll(cfg, n, l)
  }

  function Run(cfg: Config, n: nat, l: Link, events: seq<Event>): (r: Link)
    requires Usable(cfg) && WellPlaced(l)
    ensures WellPlaced(r) && l.read <= r.read && l.history <= r.history && l.out <= r.out
    decreases |events|
  {
    if events == [] then l else Run(cfg, n, Step(cfg, n, l, events[0]), events[1..])
  }

  function BytesOf(events: seq<Event>): seq<byte>
    decreases |events|
  {
    if events == [] then []
    else (match events[0] case Byte(b) => [b] case Call => []) + BytesOf(events[1..])
  }

  lemma {:induction false} RunAppendsBytes(cfg: Config, n: nat, l: Link, events: seq<Event>)
    requires Usable(cfg) && WellPlaced(l)
    ensures Run(cfg, n, l, events).history == l.history + BytesOf(events)
    decreases |events|
  {
    if events != [] {
      var l' := Step(cfg, n, l, events[0]);
      var first := match events[0] case Byte(b) => [b] case Call => [];
      assert l'.history == l.history + first;
      RunAppendsBytes(cfg, n, l', events[1..]);
      Associate(l.history, first, BytesOf(events[1..]));
    }
  }

  // --- soundness: every run, overflow and lapping included ---

  /** Everything delivered is authentic, and the slices are disjoint, in order and already read. */
  predicate Clean(cfg: Config, l: Link)
    requires Usable(cfg)
  {
    && (forall i :: 0 <= i < |l.out| ==> Authentic(cfg, l.history, l.out[i]) && Last(l.out[i]) <= l.read)
    && (forall i, j :: 0 <= i < j < |l.out| ==> Last(l.out[i]) <= l.out[j].start)
  }

  lemma CleanIsStable(cfg: Config, l: Link, r: Link)
    requires Usable(cfg) && Clean(cfg, l)
    requires l.history <= r.history && l.read <= r.read && r.out == l.out
    ensures Clean(cfg, r)
  {
    forall i | 0 <= i < |l.out| ensures Authentic(cfg, r.history, l.out[i]) {
      AuthenticIsStable(cfg, l.history, r.history, l.out[i]);
    }
  }

  /** A further authentic delivery from behind the read position keeps the log clean. */
  lemma CleanGrows(cfg: Config, l: Link, d: Delivery)
    requires Usable(cfg) && Clean(cfg, l) && Authentic(cfg, l.history, d) && l.read <= d.start
    ensures Clean(cfg, l.(out := l.out + [d], read := Last(d)))
  {
  }

  lemma StepKeepsClean(cfg: Config, n: nat, l: Link, e: Event)
    requires Usable(cfg) && WellPlaced(l) && Clean(cfg, l)
    ensures Clean(cfg, Step(cfg, n, l, e))
  {
    match e
    case Byte(b) => CleanIsStable(cfg, l, Put(n, l, b));
    case Call =>
      var start := StartOf(n, l);
      ScanIsSound(cfg, l.history, start, start);
      var r := Poll(cfg, n, l);
      match Scan(cfg, l.history, start, start).1
      case None => CleanIsStable(cfg, l, Step(cfg, n, l, e));
      case Some(d) =>
        CleanGrows(cfg, l, d);
        CleanIsStable(cfg, l.(out := l.out + [d], read := Last(d)), r);
  }

  lemma {:induction false} EveryRunIsSound(cfg: Config, n: nat, l: Link, events: seq<Event>)
    requires Usable(cfg) && WellPlaced(l) && Clean(cfg, l)
    ensures Clean(cfg, Run(cfg, n, l, events))
    decreases |events|
  {
    if events != [] {
      StepKeepsClean(cfg, n, l, events[0]);
      EveryRunIsSound(cfg, n, Step(cfg, n, l, events[0]), events[1..]);
    }
  }

  /** An overflow that is noticed drops everything: when at least a ring full of bytes has come since the last
      call and the byte counter has not wrapped, the call delivers nothing and leaves no backlog. */
  lemma OverflowDropsEverything(cfg: Config, n: nat, l: Link)
    requires Usable(cfg) && WellPlaced(l) && n > 0
    requires Newest(l) - l.polled >= n && l.polled / UINT_RANGE == Newest(l) / UINT_RANGE
    ensures var r := Step(cfg, n, l, Call);
            r.read == Newest(r) && r.out == l.out && r.history == l.history
  {
    LoadedIsExactWithoutWrap(l.polled, Newest(l), n);
  }

  /** The received-bytes counter: as long as fewer bytes than the 32-bit counter can hold have come, it is the
      number of bytes that had come at the last call. */
  lemma {:induction false} ReceivedIsHonest(cfg: Config, n: nat, l: Link, events: seq<Event>)
    requires Usable(cfg) && WellPlaced(l) && n > 0 && l.received == l.polled
    requires Newest(Run(cfg, n, l, events)) < 0x1_0000_0000
    ensures var r := Run(cfg, n, l, events); r.received == r.polled
    decreases |events|
  {
    if events != [] {
      var l' := Step(cfg, n, l, events[0]);
      LoadedIsExactWithoutWrap(l.polled, Newest(l), n);
      ReceivedIsHonest(cfg, n, l', events[1..]);
    }
  }

  // --- refinement: as long as the writer does not lap the reader ---

  /** The unread backlog stays below the size of the ring throughout the run. */
  predicate NoLap(cfg: Config, n: nat, l: Link, events: seq<Event>)
    requires Usable(cfg) && WellPlaced(l)
    decreases |events|
  {
    events != [] ==>
      && (events[0].Byte? ==> Newest(l) + 1 - l.read < n)
      && NoLap(cfg, n, Step(cfg, n, l, events[0]), events[1..])
  }

  /** Holds between the events of a run without lapping. */
  predicate Unlapped(n: nat, l: Link) {
    WellPlaced(l) && l.read <= l.polled && Newest(l) - l.read < n
  }

  /** Without lapping the overflow test stays silent, even when the byte counter wraps. */
  lemma NoFalseOverflow(n: nat, l: Link)
    requires Unlapped(n, l) && n > 1
    ensures StartOf(n, l) == l.read
  {
  }

  lemma StepRefinesDecode(cfg: Config, n: nat, l: Link, e: Event, t: seq<byte>)
    requires Usable(cfg) && Unlapped(n, l) && n > 1
    requires e.Byte? ==> Newest(l) + 1 - l.read < n
    requires Step(cfg, n, l, e).history <= t
    ensures var r := Step(cfg, n, l, e);
            Unlapped(n, r) && r.out + Decode(cfg, t, r.read) == l.out + Decode(cfg, t, l.read)
  {
    if e.Call? {
      NoFalseOverflow(n, l);
      ScanStaysInside(cfg, l.history, l.read, l.read);
      ScanRefinesDecode(cfg, l.history, l.read, l.read, t);
      var (read, found) := Scan(cfg, l.history, l.read, l.read);
      assert l.out + (Found(found) + Decode(cfg, t, read)) == (l.out + Found(found)) + Decode(cfg, t, read);
      assert Step(cfg, n, l, e).out == l.out + Found(found);
    }
  }

  /** From any state that is not lapped, over any run without lapping and for any continuation `t` of the
      history: what has been delivered and what decoding finds from the read position on stay the same
      together. */
  lemma {:induction false} RunRefinesDecode(cfg: Config, n: nat, l: Link, events: seq<Event>, t: seq<byte>)
    requires Usable(cfg) && Unlapped(n, l) && n > 1 && NoLap(cfg, n, l, events)
    requires Run(cfg, n, l, events).history <= t
    ensures var r := Run(cfg, n, l, events);
            Unlapped(n, r) && r.out + Decode(cfg, t, r.read) == l.out + Decode(cfg, t, l.read)
    decreases |events|
  {
    if events != [] {
      var l' := Step(cfg, n, l, events[0]);
      StepRefinesDecode(cfg, n, l, events[0], t);
      RunRefinesDecode(cfg, n, l', events[1..], t);
    }
  }

  /** However the bytes are split between calls, what has been delivered at any moment is a prefix of
      what the reference decoder finds in the whole history; and it is all of it as soon as a call
      leaves the read position where it was. */
  lemma DeliveriesArePrefix(cfg: Config, n: nat, events: seq<Event>)
    requires Usable(cfg) && n > 1 && NoLap(cfg, n, INITIAL, events)
    ensures var r := Run(cfg, n, INITIAL, events);
            && r.history == [0] + BytesOf(events)
            && r.out <= Decode(cfg, r.history, 0)
            && (Step(cfg, n, r, Call).read == r.read ==> r.out == Decode(cfg, r.history, 0))
  {
    var r := Run(cfg, n, INITIAL, events);
    RunAppendsBytes(cfg, n, INITIAL, events);
    RunRefinesDecode(cfg, n, INITIAL, events, r.history);
    assert INITIAL.out + Decode(cfg, r.history, 0) == Decode(cfg, r.history, 0);
    if Step(cfg, n, r, Call).read == r.read {
      NoFalseOverflow(n, r);
      QuietScanIsDone(cfg, r.history, r.read, r.read);
    }
  }

  /** Calls with no bytes in between. */
  function Calls(k: nat): (r: seq<Event>)
    ensures |r| == k
  {
    seq(k, i => Call)
  }

  lemma {:induction false} CallsDrain(cfg: Config, n: nat, l: Link, k: nat)
    requires Usable(cfg) && Unlapped(n, l) && n > 1
    requires k >= Newest(l) - l.read || Decode(cfg, l.history, l.read) == []
    ensures NoLap(cfg, n, l, Calls(k))
    ensures Run(cfg, n, l, Calls(k)).history == l.history
    ensures Run(cfg, n, l, Calls(k)).out == l.out + Decode(cfg, l.history, l.read)
    decreases k
  {
    if k > 0 {
      var l' := Step(cfg, n, l, Call);
      StepRefinesDecode(cfg, n, l, Call, l.history);
      if l'.read == l.read {
        NoFalseOverflow(n, l);
        QuietScanIsDone(cfg, l.history, l.read, l.read);
      }
      assert Calls(k)[1..] == Calls(k - 1);
      CallsDrain(cfg, n, l', k - 1);
    }
  }

  lemma {:induction false} RunSplits(cfg: Config, n: nat, l: Link, a: seq<Event>, b: seq<Event>)
    requires Usable(cfg) && WellPlaced(l)
    ensures Run(cfg, n, l, a + b) == Run(cfg, n, Run(cfg, n, l, a), b)
    ensures NoLap(cfg, n, l, a + b) <==> NoLap(cfg, n, l, a) && NoLap(cfg, n, Run(cfg, n, l, a), b)
    decreases |a|
  {
    if a == [] {
      assert a + b == b;
    } else {
      assert (a + b)[1..] == a[1..] + b;
      RunSplits(cfg, n, Step(cfg, n, l, a[0]), a[1..], b);
    }
  }

  /** Bytes put one after the other. */
  function Puts(data: seq<byte>): (r: seq<Event>)
    ensures |r| == |data|
  {
    seq(|data|, i requires 0 <= i < |data| => Byte(data[i]))
  }

  lemma PutsSnoc(cfg: Config, n: nat, l: Link, data: seq<byte>, b: byte)
    requires Usable(cfg) && WellPlaced(l)
    ensures Run(cfg, n, l, Puts(data + [b])) == Put(n, Run(cfg, n, l, Puts(data)), b)
  {
    assert Puts(data + [b]) == Puts(data) + [Byte(b)];
    RunSplits(cfg, n, l, Puts(data), [Byte(b)]);
    assert Run(cfg, n, Step(cfg, n, Run(cfg, n, l, Puts(data)), Byte(b)), []) == Put(n, Run(cfg, n, l, Puts(data)), b);
  }

  /** After the bytes, as many calls as there were bytes deliver everything the history contains. */
  lemma EnoughCallsDeliverEverything(cfg: Config, n: nat, events: seq<Event>, k: nat)
    requires Usable(cfg) && n > 1 && NoLap(cfg, n, INITIAL, events) && k >= |BytesOf(events)|
    ensures Run(cfg, n, INITIAL, events + Calls(k)).out == Decode(cfg, [0] + BytesOf(events), 0)
  {
    var r := Run(cfg, n, INITIAL, events);
    RunAppendsBytes(cfg, n, INITIAL, events);
    RunRefinesDecode(cfg, n, INITIAL, events, r.history);
    CallsDrain(cfg, n, r, k);
    RunSplits(cfg, n, INITIAL, events, Calls(k));
  }

  /** The link's round trip, for any fragments over every schedule: those framed are those received if
      and only if all of them are sendable and no frame is shadowed. */
  lemma FramesArriveExactlyWhen(cfg: Config, n: nat, fs: seq<Fragment>, events: seq<Event>, k: nat)
    requires Usable(cfg) && n > 1 && NoLap(cfg, n, INITIAL, events) && k >= |BytesOf(events)|
    requires BytesOf(events) == Stream(cfg, fs)
    ensures Fragments(Run(cfg, n, INITIAL, events + Calls(k)).out) == fs <==>
            AllSendable(cfg, fs) && NoneShadowed(cfg, fs)
  {
    EnoughCallsDeliverEverything(cfg, n, events, k);
    RoundTrip(cfg, fs);
  }

  /** An intact frame in the history, with a maximal fragment's worth of bytes received since its
      start, has been delivered after enough calls, unless a delivered one reaches past its start. */
  lemma IntactFrameArrives(cfg: Config, n: nat, events: seq<Event>, k: nat, d: Delivery)
    requires Usable(cfg) && n > 1 && NoLap(cfg, n, INITIAL, events) && k >= |BytesOf(events)|
    requires Authentic(cfg, [0] + BytesOf(events), d)
    requires |BytesOf(events)| + 1 >= d.start + cfg.maxFragmentSize
    ensures var out := Run(cfg, n, INITIAL, events + Calls(k)).out;
            d in out || JumpedOver(out, d.start)
  {
    EnoughCallsDeliverEverything(cfg, n, events, k);
    Resynchronises(cfg, [0] + BytesOf(events), 0, d);
  }

  // --- recovery from an overflow ---

  /** The read position never falls a whole ring behind, lapped or not. */
  lemma {:induction false} ReaderStaysNear(cfg: Config, n: nat, l: Link, events: seq<Event>)
    requires Usable(cfg) && WellPlaced(l) && n > 0 && Newest(l) - l.read < n
    ensures Newest(Run(cfg, n, l, events)) - Run(cfg, n, l, events).read < n
    decreases |events|
  {
    if events != [] {
      ReaderStaysNear(cfg, n, Step(cfg, n, l, events[0]), events[1..]);
    }
  }

  /** Every call leaves a state from which refinement starts afresh, whatever happened before it. */
  lemma CallUnlaps(cfg: Config, n: nat, before: seq<Event>)
    requires Usable(cfg) && n > 0
    ensures Unlapped(n, Run(cfg, n, INITIAL, before + [Call]))
  {
    ReaderStaysNear(cfg, n, INITIAL, before);
    RunSplits(cfg, n, INITIAL, before, [Call]);
    var l := Run(cfg, n, INITIAL, before);
    assert Run(cfg, n, Step(cfg, n, l, Call), []) == Step(cfg, n, l, Call);
  }

  /** Recovery: after any run that ends with a call, lapping and overflow included, a schedule that does
      not lap delivers exactly what decoding finds from the read position on. In particular an intact
      frame that starts there or later is delivered, or a new delivery reaches past its start. */
  lemma RecoversAfterOverflow(cfg: Config, n: nat, before: seq<Event>, events: seq<Event>, k: nat, d: Delivery)
    requires Usable(cfg) && n > 1 && k >= n
    requires NoLap(cfg, n, Run(cfg, n, INITIAL, before + [Call]), events)
    ensures var l := Run(cfg, n, INITIAL, before + [Call]);
            var r := Run(cfg, n, l, events + Calls(k));
            && r.history == l.history + BytesOf(events)
            && r.out == l.out + Decode(cfg, r.history, l.read)
            && (Authentic(cfg, r.history, d) && l.read <= d.start
                && |r.history| >= d.start + cfg.maxFragmentSize ==>
                  d in Decode(cfg, r.history, l.read) || JumpedOver(Decode(cfg, r.history, l.read), d.start))
  {
    var l := Run(cfg, n, INITIAL, before + [Call]);
    CallUnlaps(cfg, n, before);
    var m := Run(cfg, n, l, events);
    RunAppendsBytes(cfg, n, l, events);
    RunRefinesDecode(cfg, n, l, events, m.history);
    CallsDrain(cfg, n, m, k);
    RunSplits(cfg, n, l, events, Calls(k));
    if Authentic(cfg, m.history, d) && l.read <= d.start && |m.history| >= d.start + cfg.maxFragmentSize {
      Resynchronises(cfg, m.history, l.read, d);
    }
  }
}
