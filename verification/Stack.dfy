/** The layers on top of each other: ports, the bypass fragmentation handler and the virtual interface,
    from one device to another. */
module Stack {
  import opened Prelude
  import opened IdFactory
  import opened LinkFrame
  import opened LinkStream
  import opened LinkRoundTrip
  import opened BytesContainer
  import opened Buffered
  import M = LinkMachine
  import P = Ports
  import T = TxQueue

  // --- the bypass handler ---

  /** What the bypass handler emits for a transfer; one that is too large is dropped. */
  function BypassSend(maxData: nat, t: P.Transfer): Option<Fragment> {
    if |t.data| > maxData then None else Some(Fragment(t.meta.source, t.meta.destination, t.data))
  }

  /** What it makes of a received fragment: a transfer of its own, with a new id. */
  function BypassReceive(mappers: seq<Mapper>, iid: InterfaceId, f: Fragment): (seq<Mapper>, P.Transfer) {
    var (mappers', id) := Issue(mappers, iid);
    (mappers', P.Transfer(P.Metadata(f.source, f.destination, iid, Low8(id), 0), f.data))
  }

  /** A transfer goes out as one fragment with its addresses and data if it fits, and is dropped otherwise; a
      fragment comes in as a transfer with its addresses and data, the interface it came from, a new id that is
      not the invalid one, and no previous id. */
  lemma BypassIs(maxData: nat, t: P.Transfer, mappers: seq<Mapper>, iid: InterfaceId, f: Fragment)
    ensures BypassSend(maxData, t) ==
            if |t.data| <= maxData then Some(Fragment(t.meta.source, t.meta.destination, t.data)) else None
    ensures var (mappers', r) := BypassReceive(mappers, iid, f);
            && mappers' == Issue(mappers, iid).0 && r.data == f.data && r.meta.iid == iid
            && r.meta.source == f.source && r.meta.destination == f.destination
            && r.meta.id == Issue(mappers, iid).1 % 0x100 != 0 && r.meta.prevId == 0
  {
    assert forall c :: IncrementId(c) % 0x100 != 0;
  }

  class BypassHandler {
    const maxData: nat
    const front: nat
    const back: nat
    const factory: Factory

    constructor (maxData: nat, front: nat, back: nat, factory: Factory)
      ensures this.maxData == maxData && this.front == front && this.back == back && this.factory == factory
    {
      this.maxData, this.front, this.back, this.factory := maxData, front, back, factory;
    }

    /** Copies the transfer into a container with the interface's margins. */
    method DoTransmit(t: P.Transfer) returns (data: Bytes?)
      ensures data == null <==> BypassSend(maxData, t) == None
      ensures data != null ==> fresh(data) && data.Valid() && data.View() == BypassSend(maxData, t).value.data
      ensures data != null ==> data.offset == front && data.CapacityBack() == back
    {
      if |t.data| > maxData {
        return null;
      }
      data := ContainerOf(front, t.data, back);
    }

    method DoReceive(iid: InterfaceId, f: Fragment) returns (t: P.Transfer)
      modifies factory
      ensures (factory.mappers, t) == BypassReceive(old(factory.mappers), iid, f)
    {
      var id := factory.NewId(iid);
      t := P.Transfer(P.Metadata(f.source, f.destination, iid, Low8(id), 0), f.data);
    }
  }

  // --- down and up ---

  /** A packet handed to the ports handler from a port. */
  datatype Submission = Submission(port: nat, packet: P.Packet)

  /** The sending device: its interface's address and the interfaces its ports handler knows. */
  datatype Sender = Sender(address: nat, maxQueue: nat, interfaces: seq<InterfaceId>)

  datatype Receiver = Receiver(address: nat, broadcast: nat, iid: InterfaceId, services: seq<nat>)

  /** The fragment that a submission becomes on its way down to the interface. */
  function Down(cfg: Config, a: Sender, s: Submission): Option<Fragment>
    requires Usable(cfg)
  {
    match P.Send(a.interfaces, s.port, s.packet)
    case None => None
    case Some(t) => BypassSend(MaxData(cfg), t)
  }

  /** The events that a receiver emits for the fragments that it gets. */
  function Emitted(b: Receiver, fs: seq<Fragment>): (es: seq<(Channel, Fragment)>)
    ensures |es| == |fs|
  {
    seq(|fs|, i requires 0 <= i < |fs| => (Route(b.address, b.broadcast, fs[i]), fs[i]))
  }

  /** Frames on a bus, over every schedule: each receiver emits every one of them, in order, as its own event
      if it is the destination, as a broadcast if it is not and the frame is to the broadcast address, and as
      neither otherwise. */
  lemma FramesAreRouted(cfg: Config, b: Receiver, fs: seq<Fragment>, n: nat, events: seq<M.Event>, k: nat)
    requires Usable(cfg) && AllSendable(cfg, fs) && NoneShadowed(cfg, fs)
    requires n > 1 && M.NoLap(cfg, n, M.INITIAL, events) && k >= |M.BytesOf(events)|
    requires M.BytesOf(events) == Stream(cfg, fs)
    ensures var es := Emitted(b, Fragments(M.Run(cfg, n, M.INITIAL, events + M.Calls(k)).out));
            && |es| == |fs|
            && forall i :: 0 <= i < |fs| ==>
                 && es[i].1 == fs[i]
                 && (es[i].0.Own? <==> fs[i].destination == b.address)
                 && (es[i].0.Broadcast? <==> fs[i].destination == b.broadcast && b.broadcast != b.address)
                 && (es[i].0.Other? <==> fs[i].destination != b.broadcast && fs[i].destination != b.address)
  {
    M.FramesArriveExactlyWhen(cfg, n, fs, events, k);
  }

  /** What the received fragments become on their way up: one event at most for each. */
  function Up(b: Receiver, mappers: seq<Mapper>, fs: seq<Fragment>): seq<(nat, P.Packet)>
    decreases |fs|
  {
    if fs == [] then []
    else if Route(b.address, b.broadcast, fs[0]) != Own then Up(b, mappers, fs[1..])
    else
      var (mappers', t) := BypassReceive(mappers, b.iid, fs[0]);
      (match P.Deliver(b.services, t) case None => [] case Some(e) => [e]) + Up(b, mappers', fs[1..])
  }

  /** The fragments that are meant for the receiver. */
  function Mine(b: Receiver, fs: seq<Fragment>): seq<Fragment> {
    if fs == [] then []
    else (if fs[0].destination == b.address then [fs[0]] else []) + Mine(b, fs[1..])
  }

  /** Nothing else leads to an event or uses up an id. */
  lemma {:induction false} OthersStayBelow(b: Receiver, mappers: seq<Mapper>, fs: seq<Fragment>)
    ensures Up(b, mappers, fs) == Up(b, mappers, Mine(b, fs))
    decreases |fs|
  {
    if fs != [] {
      var rest := Mine(b, fs[1..]);
      if fs[0].destination == b.address {
        assert ([fs[0]] + rest)[1..] == rest;
        OthersStayBelow(b, BypassReceive(mappers, b.iid, fs[0]).0, fs[1..]);
      } else {
        assert [] + rest == rest;
        OthersStayBelow(b, mappers, fs[1..]);
      }
    }
  }

  /** What a user can demand of the stack: addresses and ports that fit their bytes, an existing service,
      and data that leaves room for the ports header. */
  predicate Legal(cfg: Config, a: Sender, b: Receiver, s: Submission)
    requires Usable(cfg)
  {
    && 1 <= a.address < 0x100 && 1 <= b.address < 0x100 && a.address != b.address
    && s.packet.meta.destination == b.address && s.packet.meta.iid in a.interfaces && s.packet.meta.id != 0
    && s.packet.data != [] && |s.packet.data| + P.HEADER_SIZE <= SizeBound(cfg)
    && 1 <= s.port < 0x100 && 1 <= s.packet.destinationPort < 0x100
    && s.packet.destinationPort in b.services
  }

  predicate AllLegal(cfg: Config, a: Sender, b: Receiver, subs: seq<Submission>)
    requires Usable(cfg)
  {
    forall i :: 0 <= i < |subs| ==> Legal(cfg, a, b, subs[i])
  }

  /** The fragment of a legal submission as the interface completes it. */
  function Sent(a: Sender, s: Submission): Fragment {
    Fragment(a.address, s.packet.meta.destination,
             P.HeaderBytes(P.MakeHeader(s.packet.destinationPort, s.port)) + s.packet.data)
  }

  function SentAll(a: Sender, subs: seq<Submission>): (r: seq<Fragment>)
    ensures |r| == |subs|
  {
    seq(|subs|, i requires 0 <= i < |subs| => Sent(a, subs[i]))
  }

  lemma LegalIsSent(cfg: Config, a: Sender, b: Receiver, s: Submission)
    requires Usable(cfg) && Legal(cfg, a, b, s)
    ensures Down(cfg, a, s).Some? && Down(cfg, a, s).value.(source := a.address) == Sent(a, s)
    ensures Sendable(cfg, Sent(a, s)) && T.Fits(cfg, Down(cfg, a, s).value)
  {
    SizeBoundIsSmall(cfg);
  }

  /** What one event looks like from outside: port, source port, source address and data. */
  datatype Observation = Observation(port: nat, sourcePort: nat, source: nat, data: seq<byte>)

  function Observe(e: (nat, P.Packet)): Observation {
    Observation(e.0, e.1.sourcePort, e.1.meta.source, e.1.data)
  }

  function ObserveAll(es: seq<(nat, P.Packet)>): (r: seq<Observation>)
    ensures |r| == |es|
  {
    seq(|es|, i requires 0 <= i < |es| => Observe(es[i]))
  }

  /** What the sender meant. */
  function Meant(a: Sender, subs: seq<Submission>): (r: seq<Observation>)
    ensures |r| == |subs|
  {
    seq(|subs|, i requires 0 <= i < |subs| =>
      Observation(subs[i].packet.destinationPort, subs[i].port, a.address, subs[i].packet.data))
  }

  lemma OneGoesUp(cfg: Config, a: Sender, b: Receiver, mappers: seq<Mapper>, s: Submission)
    requires Usable(cfg) && Legal(cfg, a, b, s)
    ensures var t := BypassReceive(mappers, b.iid, Sent(a, s)).1;
            && Route(b.address, b.broadcast, Sent(a, s)) == Own
            && P.Deliver(b.services, t).Some?
            && Observe(P.Deliver(b.services, t).value)
               == Observation(s.packet.destinationPort, s.port, a.address, s.packet.data)
  {
    var t := BypassReceive(mappers, b.iid, Sent(a, s)).1;
    P.PacketArrivesExactlyWhen(a.interfaces, b.services, s.port, s.packet, t);
  }

  lemma ObserveCons(e: (nat, P.Packet), es: seq<(nat, P.Packet)>)
    ensures ObserveAll([e] + es) == [Observe(e)] + ObserveAll(es)
  {
  }

  lemma MeantCons(a: Sender, subs: seq<Submission>)
    requires subs != []
    ensures SentAll(a, subs) == [Sent(a, subs[0])] + SentAll(a, subs[1..])
    ensures SentAll(a, subs)[1..] == SentAll(a, subs[1..])
    ensures Meant(a, subs) == Meant(a, [subs[0]]) + Meant(a, subs[1..])
  {
  }

  /** Fragments that arrive as they were sent are emitted to the services they were meant for. */
  lemma {:induction false} AllGoUp(cfg: Config, a: Sender, b: Receiver, mappers: seq<Mapper>, subs: seq<Submission>)
    requires Usable(cfg) && AllLegal(cfg, a, b, subs)
    ensures ObserveAll(Up(b, mappers, SentAll(a, subs))) == Meant(a, subs)
    decreases |subs|
  {
    if subs != [] {
      assert Legal(cfg, a, b, subs[0]);
      OneGoesUp(cfg, a, b, mappers, subs[0]);
      MeantCons(a, subs);
      var (mappers', t) := BypassReceive(mappers, b.iid, Sent(a, subs[0]));
      AllGoUp(cfg, a, b, mappers', subs[1..]);
      ObserveCons(P.Deliver(b.services, t).value, Up(b, mappers', SentAll(a, subs[1..])));
      assert Meant(a, [subs[0]]) == [Observe(P.Deliver(b.services, t).value)];
    }
  }

  // --- the sender's side of the wire ---

  /** The fragments submitted to the interface in a run, and whether all of them are accepted. */
  function Submitted(events: seq<T.Event>): seq<Fragment>
    decreases |events|
  {
    if events == [] then []
    else (match events[0] case Send(f, _) => [f] case Main(_) => []) + Submitted(events[1..])
  }

  /** No fragment is submitted when more than `maxQueue` of those before it are still waiting: `q` are at first,
      and each call that can transmit takes one away. */
  predicate Paced(maxQueue: nat, q: nat, events: seq<T.Event>)
    decreases |events|
  {
    events != [] ==>
      match events[0]
      case Send(_, _) => q <= maxQueue && Paced(maxQueue, q + 1, events[1..])
      case Main(can) => Paced(maxQueue, if can && q > 0 then q - 1 else q, events[1..])
  }

  predicate AllFit(cfg: Config, fs: seq<Fragment>) {
    forall f :: f in fs ==> T.Fits(cfg, f)
  }

  function WireBytes(entries: seq<T.Serialized>): seq<byte> {
    if entries == [] then [] else entries[0].data + WireBytes(entries[1..])
  }

  /** The source address that the interface fills in. */
  function Completed(a: Sender, fs: seq<Fragment>): seq<Fragment> {
    if fs == [] then [] else [fs[0].(source := a.address)] + Completed(a, fs[1..])
  }

  lemma {:induction false} PacedIsStream(cfg: Config, a: Sender, q: nat, events: seq<T.Event>)
    requires AllFit(cfg, Submitted(events)) && Paced(a.maxQueue, q, events)
    ensures WireBytes(T.Accepted(cfg, a.address, a.maxQueue, q, events))
            == Stream(cfg, Completed(a, Submitted(events)))
    decreases |events|
  {
    if events != [] {
      var later := Submitted(events[1..]);
      match events[0]
      case Send(f, id) =>
        assert Submitted(events) == [f] + later && f in Submitted(events);
        assert ([f] + later)[1..] == later;
        PacedIsStream(cfg, a, q + 1, events[1..]);
        var entry := T.Serialized(Frame(cfg, f.(source := a.address)), id);
        var rest := T.Accepted(cfg, a.address, a.maxQueue, q + 1, events[1..]);
        assert ([entry] + rest)[1..] == rest;
        assert Completed(a, [f] + later)[1..] == Completed(a, later);
      case Main(can) =>
        assert Submitted(events) == later;
        PacedIsStream(cfg, a, if can && q > 0 then q - 1 else q, events[1..]);
    }
  }

  /** For every schedule that never submits to a full queue and ends with an empty one, the sender has put on
      the wire the frames of everything submitted, in order. */
  lemma WireIsStream(cfg: Config, a: Sender, events: seq<T.Event>)
    requires Usable(cfg) && AllFit(cfg, Submitted(events)) && Paced(a.maxQueue, 0, events)
    requires T.Left(cfg, a.maxQueue, 0, events) == 0
    ensures WireBytes(T.Run(cfg, a.address, a.maxQueue, T.IDLE, events).wire)
            == Stream(cfg, Completed(a, Submitted(events)))
  {
    T.RunConserves(cfg, a.address, a.maxQueue, T.IDLE, events);
    PacedIsStream(cfg, a, 0, events);
    var r := T.Run(cfg, a.address, a.maxQueue, T.IDLE, events);
    assert r.wire == r.wire + r.queue == T.Accepted(cfg, a.address, a.maxQueue, 0, events);
  }

  /** What the submissions hand to the interface. */
  function DownAll(cfg: Config, a: Sender, subs: seq<Submission>): seq<Fragment>
    requires Usable(cfg)
  {
    if subs == [] then []
    else (match Down(cfg, a, subs[0]) case None => [] case Some(f) => [f]) + DownAll(cfg, a, subs[1..])
  }

  lemma {:induction false} AllGoDown(cfg: Config, a: Sender, b: Receiver, subs: seq<Submission>)
    requires Usable(cfg) && AllLegal(cfg, a, b, subs)
    ensures Completed(a, DownAll(cfg, a, subs)) == SentAll(a, subs) && AllSendable(cfg, SentAll(a, subs))
    ensures AllFit(cfg, DownAll(cfg, a, subs))
  {
    if subs != [] {
      assert Legal(cfg, a, b, subs[0]);
      LegalIsSent(cfg, a, b, subs[0]);
      AllGoDown(cfg, a, b, subs[1..]);
      var f, rest := Down(cfg, a, subs[0]).value, DownAll(cfg, a, subs[1..]);
      assert DownAll(cfg, a, subs) == [f] + rest;
      assert ([f] + rest)[1..] == rest;
      assert SentAll(a, subs) == [Sent(a, subs[0])] + SentAll(a, subs[1..]);
    }
  }

  /** End to end, for any packets and any schedule on either side: when nothing was submitted to a full queue,
      the queue has run empty, the receiver's ring was never lapped and the receiver has been called often
      enough, the services of the receiver have been handed exactly the packets that were meant for them, each
      once and in order, with data, source port and source address. */
  lemma PacketsArrive(cfg: Config, a: Sender, b: Receiver, mappers: seq<Mapper>, subs: seq<Submission>,
                      txEvents: seq<T.Event>, n: nat, rxEvents: seq<M.Event>, k: nat)
    requires Usable(cfg) && AllLegal(cfg, a, b, subs) && NoneShadowed(cfg, SentAll(a, subs))
    requires Submitted(txEvents) == DownAll(cfg, a, subs) && Paced(a.maxQueue, 0, txEvents)
    requires T.Left(cfg, a.maxQueue, 0, txEvents) == 0
    requires n > 1 && M.NoLap(cfg, n, M.INITIAL, rxEvents) && k >= |M.BytesOf(rxEvents)|
    requires M.BytesOf(rxEvents) == WireBytes(T.Run(cfg, a.address, a.maxQueue, T.IDLE, txEvents).wire)
    ensures var link := M.Run(cfg, n, M.INITIAL, rxEvents + M.Calls(k));
            ObserveAll(Up(b, mappers, Fragments(link.out))) == Meant(a, subs)
  {
    AllGoDown(cfg, a, b, subs);
    WireIsStream(cfg, a, txEvents);
    M.FramesArriveExactlyWhen(cfg, n, SentAll(a, subs), rxEvents, k);
    AllGoUp(cfg, a, b, mappers, subs);
  }
}
