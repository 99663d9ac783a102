/** The transmit queue of an interface as a state machine. */
module TxQueue {
  import opened Prelude
  import opened LinkFrame

  /** A frame waiting in the queue, with the object id of the fragment it was made of. */
  datatype Serialized = Serialized(data: seq<byte>, id: nat)

  /** `wire` lists what has been handed to `do_transmit`, which always succeeds. */
  datatype Tx = Tx(queue: seq<Serialized>, txed: nat, wire: seq<Serialized>)

  const IDLE := Tx([], 0, [])

  predicate IsWritable(maxQueue: nat, t: Tx) {
    |t.queue| <= maxQueue
  }

  /** `writable_count`, an unsigned difference. */
  function WritableCount(maxQueue: nat, size: nat): nat {
    (maxQueue - size) % UINT_RANGE
  }

  predicate Accepts(cfg: Config, maxQueue: nat, t: Tx, f: Fragment)
    requires Usable(cfg)
  {
    IsWritable(maxQueue, t) && f.destination != 0 && |f.data| <= MaxData(cfg) && f.data != []
  }

  /** The source address is filled in by the interface. */
  function Entry(cfg: Config, address: nat, f: Fragment, id: nat): Serialized {
    Serialized(Frame(cfg, f.(source := address)), id)
  }

  function Submit(cfg: Config, address: nat, maxQueue: nat, t: Tx, f: Fragment, id: nat): Tx
    requires Usable(cfg)
  {
    if Accepts(cfg, maxQueue, t, f) then t.(queue := t.queue + [Entry(cfg, address, f, id)]) else t
  }

  /** The transmit half of `main_task`. */
  function Pump(t: Tx, canTransmit: bool): Tx {
    if t.queue != [] && canTransmit then
      Tx(t.queue[1..], (t.txed + |t.queue[0].data|) % UINT64_RANGE, t.wire + [t.queue[0]])
    else t
  }

  datatype Event = Send(fragment: Fragment, id: nat) | Main(canTransmit: bool)

  function Step(cfg: Config, address: nat, maxQueue: nat, t: Tx, e: Event): Tx
    requires Usable(cfg)
  {
    match e
    case Send(f, id) => Submit(cfg, address, maxQueue, t, f, id)
    case Main(can) => Pump(t, can)
  }

  function Run(cfg: Config, address: nat, maxQueue: nat, t: Tx, events: seq<Event>): Tx
    requires Usable(cfg)
    decreases |events|
  {
    if events == [] then t
    else Run(cfg, address, maxQueue, Step(cfg, address, maxQueue, t, events[0]), events[1..])
  }

  // --- what a schedule of events leads to, told from the events alone ---

  /** What an interface can carry: a destination, and between one byte and all that fits around the frame. */
  predicate Fits(cfg: Config, f: Fragment) {
    f.destination != 0 && 1 <= |f.data| <= cfg.maxFragmentSize - 10
  }

  /** The frames, in order of submission, of what a run queues when it starts with `q` frames queued: every
      fragment that fits and is submitted when at most `maxQueue` are waiting. */
  function Accepted(cfg: Config, address: nat, maxQueue: nat, q: nat, events: seq<Event>): seq<Serialized>
    decreases |events|
  {
    if events == [] then []
    else
      match events[0]
      case Send(f, id) =>
        if Fits(cfg, f) && q <= maxQueue then
          [Serialized(Frame(cfg, Fragment(address, f.destination, f.data)), id)]
          + Accepted(cfg, address, maxQueue, q + 1, events[1..])
        else Accepted(cfg, address, maxQueue, q, events[1..])
      case Main(can) => Accepted(cfg, address, maxQueue, if can && q > 0 then q - 1 else q, events[1..])
  }

  /** How many frames are waiting after that. */
  function Left(cfg: Config, maxQueue: nat, q: nat, events: seq<Event>): nat
    decreases |events|
  {
    if events == [] then q
    else
      match events[0]
      case Send(f, id) => Left(cfg, maxQueue, if Fits(cfg, f) && q <= maxQueue then q + 1 else q, events[1..])
      case Main(can) => Left(cfg, maxQueue, if can && q > 0 then q - 1 else q, events[1..])
  }

  function TotalSize(entries: seq<Serialized>): nat {
    if entries == [] then 0 else |entries[0].data| + TotalSize(entries[1..])
  }

  lemma {:induction false} TotalSizeSnoc(entries: seq<Serialized>, e: Serialized)
    ensures TotalSize(entries + [e]) == TotalSize(entries) + |e.data|
  {
    if entries != [] {
      assert (entries + [e])[1..] == entries[1..] + [e];
      TotalSizeSnoc(entries[1..], e);
    }
  }

  /** The transmitted-bytes counter is the size of everything handed over, and the queue holds at most
      one entry more than its configured maximum. */
  predicate Consistent(maxQueue: nat, t: Tx) {
    t.txed == TotalSize(t.wire) % 0x1_0000_0000_0000_0000 && |t.queue| <= maxQueue + 1
  }

  lemma SubmitConserves(cfg: Config, address: nat, maxQueue: nat, t: Tx, f: Fragment, id: nat)
    requires Usable(cfg)
    ensures var r, q, e := Submit(cfg, address, maxQueue, t, f, id), |t.queue|, [Send(f, id)];
            && r.wire == t.wire && r.txed == t.txed && |r.queue| == Left(cfg, maxQueue, q, e)
            && r.queue == t.queue + Accepted(cfg, address, maxQueue, q, e)
  {
    assert [Send(f, id)][1..] == [];
  }

  lemma PumpConserves(cfg: Config, address: nat, maxQueue: nat, t: Tx, can: bool)
    requires t.txed == TotalSize(t.wire) % UINT64_RANGE
    ensures var r, q, e := Pump(t, can), |t.queue|, [Main(can)];
            && r.txed == TotalSize(r.wire) % UINT64_RANGE && |r.queue| == Left(cfg, maxQueue, q, e)
            && r.wire + r.queue == t.wire + t.queue && Accepted(cfg, address, maxQueue, q, e) == []
  {
    assert [Main(can)][1..] == [];
    if t.queue != [] && can {
      TotalSizeSnoc(t.wire, t.queue[0]);
      assert t.queue == [t.queue[0]] + t.queue[1..];
    }
  }

  lemma StepConserves(cfg: Config, address: nat, maxQueue: nat, t: Tx, e: Event)
    requires Usable(cfg) && Consistent(maxQueue, t)
    ensures var r, q := Step(cfg, address, maxQueue, t, e), |t.queue|;
            && Consistent(maxQueue, r) && |r.queue| == Left(cfg, maxQueue, q, [e])
            && r.wire + r.queue == t.wire + t.queue + Accepted(cfg, address, maxQueue, q, [e])
  {
    match e
    case Send(f, id) => SubmitConserves(cfg, address, maxQueue, t, f, id);
    case Main(can) => PumpConserves(cfg, address, maxQueue, t, can);
  }

  /** Nothing accepted is lost, duplicated or overtaken: what was handed over, followed by what is
      still queued, is what was there before, followed by what the schedule has queued. */
  lemma {:induction false} RunConserves(cfg: Config, address: nat, maxQueue: nat, t: Tx, events: seq<Event>)
    requires Usable(cfg) && Consistent(maxQueue, t)
    ensures var r, q := Run(cfg, address, maxQueue, t, events), |t.queue|;
            && Consistent(maxQueue, r) && |r.queue| == Left(cfg, maxQueue, q, events)
            && r.wire + r.queue == t.wire + t.queue + Accepted(cfg, address, maxQueue, q, events)
    decreases |events|
  {
    if events != [] {
      var t', q := Step(cfg, address, maxQueue, t, events[0]), |t.queue|;
      StepConserves(cfg, address, maxQueue, t, events[0]);
      RunConserves(cfg, address, maxQueue, t', events[1..]);
      OneAndRest(cfg, address, maxQueue, q, events);
      Associate(t.wire + t.queue, Accepted(cfg, address, maxQueue, q, [events[0]]),
                Accepted(cfg, address, maxQueue, |t'.queue|, events[1..]));
    }
  }

  lemma OneAndRest(cfg: Config, address: nat, maxQueue: nat, q: nat, events: seq<Event>)
    requires events != []
    ensures var q', rest := Left(cfg, maxQueue, q, [events[0]]), events[1..];
            && Left(cfg, maxQueue, q, events) == Left(cfg, maxQueue, q', rest)
            && Accepted(cfg, address, maxQueue, q, events) ==
               Accepted(cfg, address, maxQueue, q, [events[0]]) + Accepted(cfg, address, maxQueue, q', rest)
  {
    assert [events[0]][1..] == [];
    assert [] + Accepted(cfg, address, maxQueue, Left(cfg, maxQueue, q, [events[0]]), events[1..])
           == Accepted(cfg, address, maxQueue, Left(cfg, maxQueue, q, [events[0]]), events[1..]);
  }

  /** Submissions with nothing else in between. */
  function Sends(fs: seq<Fragment>, ids: seq<nat>): (r: seq<Event>)
    requires |ids| == |fs|
    ensures |r| == |fs|
  {
    seq(|fs|, i requires 0 <= i < |fs| => Send(fs[i], ids[i]))
  }

  /** The frames of the first `k` of them. */
  function Frames(cfg: Config, address: nat, fs: seq<Fragment>, ids: seq<nat>, k: nat): (r: seq<Serialized>)
    requires |ids| == |fs| && k <= |fs|
    ensures |r| == k
  {
    seq(k, i requires 0 <= i < k => Serialized(Frame(cfg, Fragment(address, fs[i].destination, fs[i].data)), ids[i]))
  }

  /** An idle interface takes exactly the first `maxQueue + 1` of them. */
  lemma QueueFills(cfg: Config, address: nat, maxQueue: nat, fs: seq<Fragment>, ids: seq<nat>)
    requires Usable(cfg) && |ids| == |fs| && forall i :: 0 <= i < |fs| ==> Fits(cfg, fs[i])
    ensures Run(cfg, address, maxQueue, IDLE, Sends(fs, ids)) ==
            Tx(Frames(cfg, address, fs, ids, Min(|fs|, maxQueue + 1)), 0, [])
  {
    SendsQueue(cfg, address, maxQueue, IDLE, fs, ids);
    assert [] + Frames(cfg, address, fs, ids, Min(|fs|, maxQueue + 1))
           == Frames(cfg, address, fs, ids, Min(|fs|, maxQueue + 1));
  }

  lemma {:induction false} SendsQueue(cfg: Config, address: nat, maxQueue: nat, t: Tx, fs: seq<Fragment>,
                                      ids: seq<nat>)
    requires Usable(cfg) && |ids| == |fs| && |t.queue| <= maxQueue + 1
    requires forall i :: 0 <= i < |fs| ==> Fits(cfg, fs[i])
    ensures Run(cfg, address, maxQueue, t, Sends(fs, ids)) ==
            t.(queue := t.queue + Frames(cfg, address, fs, ids, Min(|fs|, maxQueue + 1 - |t.queue|)))
    decreases |fs|
  {
    if fs == [] {
      assert t.queue + [] == t.queue;
    } else {
      var e, k := Send(fs[0], ids[0]), Min(|fs|, maxQueue + 1 - |t.queue|);
      var t' := Step(cfg, address, maxQueue, t, e);
      assert Sends(fs, ids)[0] == e && Sends(fs, ids)[1..] == Sends(fs[1..], ids[1..]);
      SendsQueue(cfg, address, maxQueue, t', fs[1..], ids[1..]);
      if k > 0 {
        var first := Serialized(Frame(cfg, Fragment(address, fs[0].destination, fs[0].data)), ids[0]);
        assert Frames(cfg, address, fs, ids, k) == [first] + Frames(cfg, address, fs[1..], ids[1..], k - 1);
        Associate(t.queue, [first], Frames(cfg, address, fs[1..], ids[1..], k - 1));
      } else {
        assert t.queue + Frames(cfg, address, fs, ids, 0) == t.queue;
      }
    }
  }

  /** In every reachable state `writable_count` promises no more room than there is exactly when the
      queue is writable; one entry later it wraps around. */
  lemma WritableCountIsHonestExactlyWhen(maxQueue: nat, size: nat)
    requires size <= maxQueue + 1 < UINT_RANGE
    ensures WritableCount(maxQueue, size) <= maxQueue + 1 - size <==> size <= maxQueue
    ensures WritableCount(maxQueue, maxQueue + 1) == UINT_RANGE - 1
  {
    if size == maxQueue + 1 {
      assert WritableCount(maxQueue, size) == UINT_RANGE - 1;
    } else {
      assert WritableCount(maxQueue, size) == maxQueue - size;
    }
  }
}
