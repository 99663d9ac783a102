/** Ports: services behind port numbers, packets headed by the two ports. */
module Ports {
  import opened Prelude
  import opened IdFactory
  import opened BytesContainer
  import opened Buffered
  import C = Container

  const HEADER_SIZE := 3
  const FIRST_FREE_PORT := 100

  datatype Metadata = Metadata(source: nat, destination: nat, iid: InterfaceId, id: byte, prevId: byte)

  datatype Transfer = Transfer(meta: Metadata, data: seq<byte>)

  datatype Packet = Packet(meta: Metadata, sourcePort: nat, destinationPort: nat, data: seq<byte>)

  datatype Header = Header(destination: byte, source: byte, check: byte)

  /** Ports are wider than the header's fields, which take their low bytes. */
  function MakeHeader(destination: nat, source: nat): Header {
    Header(Low8(destination), Low8(source), Low8(Low8(destination) + Low8(source)))
  }

  predicate HeaderValid(h: Header) {
    h.check == Low8(h.destination + h.source) && h.destination != 0 && h.source != 0
  }

  function HeaderBytes(h: Header): seq<byte> {
    [h.destination, h.source, h.check]
  }

  function HeaderAt(s: seq<byte>): Header
    requires |s| >= HEADER_SIZE
  {
    Header(s[0], s[1], s[2])
  }

  /** The addresses, id and destination port are set, and there is data. */
  predicate TransmitReady(p: Packet) {
    p.data != [] && p.meta.destination != 0 && p.meta.id != 0 && p.destinationPort != 0
  }

  /** What `transmit` emits to the interface's transfer event. */
  function Send(interfaces: seq<InterfaceId>, source: nat, p: Packet): Option<Transfer> {
    if TransmitReady(p) && p.meta.iid in interfaces then
      Some(Transfer(p.meta, HeaderBytes(MakeHeader(p.destinationPort, source)) + p.data))
    else None
  }

  /** The service and packet that a received transfer is emitted to, if any. */
  function Deliver(services: seq<nat>, t: Transfer): Option<(nat, Packet)> {
    if |t.data| < HEADER_SIZE then None
    else
      var h := HeaderAt(t.data);
      if !HeaderValid(h) || h.destination !in services then None
      else Some((h.destination as nat, Packet(t.meta, h.source, h.destination, t.data[HEADER_SIZE..])))
  }

  /** A packet sent from one port arrives at the port it was sent to, with its data and source port,
      exactly when both ports fit a byte, the source port is a valid one and the service exists. `t` is
      what the layers below made of the transfer: they keep nothing but the data. */
  lemma PacketArrivesExactlyWhen(interfaces: seq<InterfaceId>, services: seq<nat>, source: nat, p: Packet, t: Transfer)
    requires Send(interfaces, source, p).Some? && t.data == Send(interfaces, source, p).value.data
    ensures Deliver(services, t) ==
            Some((p.destinationPort, Packet(t.meta, source, p.destinationPort, p.data)))
            <==> 1 <= source < 0x100 && p.destinationPort < 0x100 && p.destinationPort in services
  {
    assert HeaderAt(t.data) == MakeHeader(p.destinationPort, source);
    assert t.data[HEADER_SIZE..] == p.data;
  }

  /** What a received transfer leads to, in its bytes: nothing without a complete header, with a wrong check
      byte, with a port of zero or without the service; otherwise the data behind the header goes to the service
      of the first byte. */
  lemma DeliverInBytes(services: seq<nat>, t: Transfer)
    ensures var d := t.data;
            Deliver(services, t) ==
            if |d| < 3 || d[2] != (d[0] as int + d[1]) % 0x100 || d[0] == 0 || d[1] == 0 || d[0] !in services then None
            else Some((d[0], Packet(t.meta, d[1], d[0], d[3..])))
  {
  }

  /** What is handed to the interface, in bytes: the destination port, the source port, their sum and the data,
      for a packet with data, destination, id, destination port and a known interface. */
  lemma SendInBytes(interfaces: seq<InterfaceId>, source: nat, p: Packet)
    ensures var port := p.destinationPort;
            Send(interfaces, source, p) ==
            if p.data == [] || p.meta.destination == 0 || p.meta.id == 0 || port == 0 || p.meta.iid !in interfaces
            then None
            else Some(Transfer(p.meta, [port % 0x100, source % 0x100, (port + source) % 0x100] + p.data))
  {
    LowSum(p.destinationPort, source, 0);
  }

  // --- registration ---

  predicate WellKept(services: seq<nat>) {
    && (forall i :: 0 <= i < |services| ==> 0 < services[i] < UINT_RANGE)
    && (forall i, j :: 0 <= i < j < |services| ==> services[i] != services[j])
  }

  datatype Registration = Registered | InvalidPort | AlreadyRegistered

  function Outcome(services: seq<nat>, p: nat): Registration {
    if p == 0 then InvalidPort else if p in services then AlreadyRegistered else Registered
  }

  function Register(services: seq<nat>, p: nat): seq<nat> {
    if Outcome(services, p) == Registered then services + [p] else services
  }

  /** Removes the first endpoint of a port. */
  function Unregister(services: seq<nat>, p: nat): seq<nat> {
    if services == [] then []
    else if services[0] == p then services[1..]
    else [services[0]] + Unregister(services[1..], p)
  }

  /** A first element that occurs nowhere else in front of a well-kept list. */
  lemma WellKeptCons(p: nat, rest: seq<nat>)
    requires WellKept(rest) && 0 < p < UINT_RANGE && p !in rest
    ensures WellKept([p] + rest)
  {
    var s := [p] + rest;
    forall i | 0 <= i < |s| ensures 0 < s[i] < UINT_RANGE && (i > 0 ==> s[i] in rest) {}
    forall i, j | 0 <= i < j < |s| ensures s[i] != s[j] {
      assert s[j] == rest[j - 1];
    }
  }

  lemma WellKeptTail(services: seq<nat>)
    requires WellKept(services) && services != []
    ensures WellKept(services[1..]) && services[0] !in services[1..]
    ensures forall q :: q in services <==> q == services[0] || q in services[1..]
  {
    assert services == [services[0]] + services[1..];
  }

  lemma {:induction false} UnregisterRemoves(services: seq<nat>, p: nat)
    requires WellKept(services)
    ensures WellKept(Unregister(services, p))
    ensures forall q :: q in Unregister(services, p) <==> q in services && q != p
  {
    if services != [] {
      WellKeptTail(services);
      UnregisterRemoves(services[1..], p);
      if services[0] != p {
        WellKeptCons(services[0], Unregister(services[1..], p));
      }
    }
  }

  /** Removing at the first occurrence, found by walking over what is in front of it. */
  lemma UnregisterAt(services: seq<nat>, p: nat, i: nat)
    requires i <= |services| && (i < |services| ==> services[i] == p)
    requires forall k :: 0 <= k < i ==> services[k] != p
    ensures Unregister(services, p) == if i < |services| then services[..i] + services[i + 1..] else services
    decreases i
  {
    if i > 0 {
      var rest := services[1..];
      UnregisterAt(rest, p, i - 1);
      assert services == [services[0]] + rest;
      if i < |services| {
        assert services[..i] == [services[0]] + rest[..i - 1] && services[i + 1..] == rest[i..];
        Associate([services[0]], rest[..i - 1], rest[i..]);
      }
    }
  }

  datatype Request = Add(port: nat) | Remove(port: nat)

  function RunRequests(services: seq<nat>, requests: seq<Request>): seq<nat>
    decreases |requests|
  {
    if requests == [] then services
    else
      RunRequests(match requests[0]
                  case Add(p) => Register(services, p)
                  case Remove(p) => Unregister(services, p),
                  requests[1..])
  }

  /** Over every run the registered ports stay distinct and non-zero. */
  lemma {:induction false} PortsStayWellKept(services: seq<nat>, requests: seq<Request>)
    requires WellKept(services)
    requires forall i :: 0 <= i < |requests| ==> requests[i].port < UINT_RANGE
    ensures WellKept(RunRequests(services, requests))
    decreases |requests|
  {
    if requests != [] {
      UnregisterRemoves(services, requests[0].port);
      PortsStayWellKept(match requests[0]
                        case Add(p) => Register(services, p)
                        case Remove(p) => Unregister(services, p),
                        requests[1..]);
    }
  }

  /** The least unoccupied port from 100 up, or zero when all of them are taken. */
  predicate IsFreePort(services: seq<nat>, r: nat) {
    if r == 0 then forall k: nat :: FIRST_FREE_PORT <= k < UINT_RANGE ==> k in services
    else
      && FIRST_FREE_PORT <= r < UINT_RANGE && r !in services
      && forall k: nat :: FIRST_FREE_PORT <= k < r ==> k in services
  }

  lemma {:induction false} RangeSize(lo: nat, hi: nat)
    requires lo <= hi
    ensures |Range(lo, hi)| == hi - lo
    decreases hi
  {
    if lo < hi {
      RangeSize(lo, hi - 1);
    }
  }

  lemma {:induction false} SetOfIsSmall(s: seq<nat>)
    ensures |SetOf(s)| <= |s|
  {
    if s != [] {
      SetOfIsSmall(s[1..]);
      SetOfCons(s);
    } else {
      assert SetOf(s) == {};
    }
  }

  lemma SubsetIsSmaller(a: set<nat>, b: set<nat>)
    requires a <= b
    ensures |a| <= |b|
  {
    assert b == a + (b - a);
  }

  /** With `n` services registered the free port is one of the `n + 1` ports from 100 up; the search comes
      up empty only when all ports up to the largest 32-bit number are taken. */
  lemma FreePortIsNear(services: seq<nat>, r: nat)
    requires IsFreePort(services, r)
    ensures r <= FIRST_FREE_PORT + |services|
    ensures r == 0 ==> |services| >= UINT_RANGE - FIRST_FREE_PORT
  {
    var hi := if r == 0 then UINT_RANGE else r;
    RangeSize(FIRST_FREE_PORT, hi);
    SetOfIsSmall(services);
    assert Range(FIRST_FREE_PORT, hi) <= SetOf(services);
    SubsetIsSmaller(Range(FIRST_FREE_PORT, hi), SetOf(services));
  }

  /** A free port, once registered, can be reached exactly when one of the ports from 100 to 255 was still
      free. `t` is what the layers below made of a packet to it. */
  lemma FreePortIsReachedExactlyWhen(interfaces: seq<InterfaceId>, services: seq<nat>, r: nat, source: nat,
                                     p: Packet, t: Transfer)
    requires IsFreePort(services, r) && p.destinationPort == r && 1 <= source < 0x100
    requires Send(interfaces, source, p).Some? && t.data == Send(interfaces, source, p).value.data
    ensures Deliver(Register(services, r), t) ==
            Some((r, Packet(t.meta, source, r, p.data)))
            <==> exists k: nat :: FIRST_FREE_PORT <= k < 0x100 && k !in services
  {
    PacketArrivesExactlyWhen(interfaces, Register(services, r), source, p, t);
    assert r in Register(services, r);
    if r < 0x100 {
      assert FIRST_FREE_PORT <= r && r !in services;
    }
  }

  /** With 100 to 255 taken the free port is 256, and what is sent to it is dropped. */
  lemma FreePortCanBeUnreachable(interfaces: seq<InterfaceId>, source: nat, p: Packet, t: Transfer)
    requires p.destinationPort == 256
    requires Send(interfaces, source, p).Some? && t.data == Send(interfaces, source, p).value.data
    ensures var services := seq(156, i => FIRST_FREE_PORT + i);
            && WellKept(services) && IsFreePort(services, 256)
            && Deliver(Register(services, 256), t) == None
  {
    var services := seq(156, i => FIRST_FREE_PORT + i);
    forall k: nat | FIRST_FREE_PORT <= k < 256 ensures k in services {
      assert services[k - FIRST_FREE_PORT] == k;
    }
    assert HeaderAt(t.data) == MakeHeader(256, source);
  }

  class PortsHandler {
    var services: seq<nat>
    var interfaces: seq<InterfaceId>

    ghost predicate Valid()
      reads this
    {
      WellKept(services)
    }

    constructor ()
      ensures Valid() && services == [] && interfaces == []
    {
      services, interfaces := [], [];
    }

    method RegisterService(p: nat) returns (r: Registration)
      requires Valid() && p < UINT_RANGE
      modifies this`services
      ensures Valid() && services == Register(old(services), p)
      ensures r == if p == 0 then InvalidPort else if p in old(services) then AlreadyRegistered else Registered
      ensures services == if r == Registered then old(services) + [p] else old(services)
    {
      if p == 0 {
        return InvalidPort;
      }
      if p in services {
        return AlreadyRegistered;
      }
      services := services + [p];
      r := Registered;
    }

    method UnregisterService(p: nat)
      requires Valid()
      modifies this`services
      ensures Valid() && services == Unregister(old(services), p)
    {
      UnregisterRemoves(services, p);
      var i := 0;
      while i < |services| && services[i] != p
        invariant i <= |services|
        invariant forall k :: 0 <= k < i ==> services[k] != p
      {
        i := i + 1;
      }
      UnregisterAt(services, p, i);
      if i < |services| {
        services := services[..i] + services[i + 1..];
      }
    }

    /** Registers an interface; the flag tells whether it was new. */
    method RegisterInterface(iid: InterfaceId) returns (added: bool)
      modifies this`interfaces
      ensures added <==> iid !in old(interfaces)
      ensures interfaces == if added then old(interfaces) + [iid] else old(interfaces)
    {
      added := iid !in interfaces;
      if added {
        interfaces := interfaces + [iid];
      }
    }

    /** Searches upwards; the 32-bit port number may wrap around to the port that is never taken. */
    method GetFreePort() returns (ret: nat)
      requires Valid()
      ensures IsFreePort(services, ret) && ret <= FIRST_FREE_PORT + |services|
    {
      ret := FIRST_FREE_PORT;
      while ret in services
        invariant ret == 0 || FIRST_FREE_PORT <= ret < UINT_RANGE
        invariant forall k: nat :: FIRST_FREE_PORT <= k < (if ret == 0 then UINT_RANGE else ret) ==> k in services
        decreases if ret == 0 then 0 else UINT_RANGE - ret
      {
        ret := (ret + 1) % UINT_RANGE;
      }
      FreePortIsNear(services, ret);
    }

    /** Puts the header in front of a packet's data, in place when there is margin, and hands the container
        over to the packet's interface, if there is one. */
    method Transmit(source: nat, meta: Metadata, destinationPort: nat, data: Bytes)
        returns (interface: Option<InterfaceId>)
      requires data.Valid()
      modifies data, data.data
      ensures data.Valid()
      ensures var t := Send(interfaces, source, Packet(meta, source, destinationPort, old(data.View())));
              && interface == (match t case None => None case Some(x) => Some(x.meta.iid))
              && (t.Some? ==> t.value == Transfer(meta, data.View()))
      ensures C.HasMargin(old(data.Layout()), HEADER_SIZE, 0) ==> data.data == old(data.data)
    {
      if data.length == 0 || meta.destination == 0 || meta.id == 0 || destinationPort == 0 {
        return None;
      }
      data.PushFront(HeaderBytes(MakeHeader(destinationPort, source)));
      interface := if meta.iid in interfaces then Some(meta.iid) else None;
    }

    /** Hides the header of a received transfer and hands its container to the service that the header
        names; returns the service's port and the port of the sender. */
    method TransferReceiveCallback(meta: Metadata, data: Bytes) returns (event: Option<(nat, nat)>)
      requires data.Valid()
      modifies data`offset, data`length, data.data
      ensures data.Valid()
      ensures var e := Deliver(services, Transfer(meta, old(data.View())));
              && event == (match e case None => None case Some(x) => Some((x.0, x.1.sourcePort)))
              && (match e
                  case None => data.View() == old(data.View())
                  case Some(x) => x.1 == Packet(meta, x.1.sourcePort, x.0, data.View()))
    {
      if data.length < HEADER_SIZE {
        return None;
      }
      var bytes := data.Exposed(0, HEADER_SIZE);
      var h := HeaderAt(bytes);
      if !HeaderValid(h) || h.destination !in services {
        return None;
      }
      var _ := TakeFront(data, HEADER_SIZE);
      event := Some((h.destination as nat, h.source as nat));
    }
  }
}
