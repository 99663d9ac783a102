/** The protocol object: its fields are updated in place by every operation. The interface is what the
    operations return for it. */
module KissProtocols {
  import opened Prelude
  import opened BytesContainer
  import opened Kiss
  import opened Buffered

  class KissProtocol {
    const settings: Settings
    /** The margins that the interface asks for. */
    const front: nat
    const back: nat
    var packetList: seq<Packet>
    var idCounter: byte
    var defaultAddr: nat
    var lastTransmitted: nat
    var lastReceived: Option<nat>
    /** How many packets were ever created; it names the next list node and decides nothing. */
    var serials: nat

    ghost function State(): Node
      reads this
    {
      Node(packetList, idCounter, serials, defaultAddr, lastTransmitted, lastReceived)
    }

    constructor (settings: Settings, front: nat, back: nat, now: nat)
      ensures this.settings == settings && this.front == front && this.back == back
      ensures State() == Node([], 0, 0, 0, now, None)
    {
      this.settings, this.front, this.back := settings, front, back;
      packetList, idCounter, defaultAddr := [], 0, 0;
      lastTransmitted, lastReceived := now, None;
      serials := 0;
    }

    /** Erases every packet with the given id. */
    method Erase(id: byte)
      modifies this`packetList
      ensures packetList == Without(old(packetList), id)
    {
      var i := 0;
      while i < |packetList|
        invariant i <= |packetList|
        invariant packetList[..i] + Without(packetList[i..], id) == Without(old(packetList), id)
        decreases |packetList| - i
      {
        WithoutStep(packetList, i, id);
        if packetList[i].id == id {
          packetList := packetList[..i] + packetList[i + 1..];
        } else {
          i := i + 1;
        }
      }
      assert packetList[..i] + Without([], id) == packetList;
    }

    /** Handles a fragment from the interface: acknowledges it and emits it, or takes it as an
        acknowledgement. */
    method Receive(from: nat, f: Bytes, now: nat) returns (out: Option<Out>, event: Option<Event>)
      requires f.Valid()
      modifies this, f, f.data
      ensures (State(), out, event) == Kiss.Receive(old(State()), from, old(f.View()), now)
    {
      out, event := None, None;
      if f.length < 2 {
        return;
      }
      var head := TakeFront(f, 2);
      lastReceived := Some(now);
      if head[0] != ACK_TYPE {
        lastTransmitted := now;
        out := Some(Out(from, Ack(head[1])));
        if head[0] >= TYPE_OFFSET {
          var data := TakeAll(f);
          event := Some(Event(head[0] - TYPE_OFFSET, data));
        }
      } else {
        Erase(head[1]);
      }
    }

    /** Builds the fragment data of a packet in a container that has room for it and leaves the margins
        that the interface needs. */
    method TransmitPacket(p: Packet, now: nat) returns (data: Bytes)
      modifies this`lastTransmitted
      ensures State() == old(State()).(lastTransmitted := now)
      ensures fresh(data) && data.Valid() && data.View() == Wire(p)
      ensures data.offset == front && data.CapacityBack() == back
    {
      lastTransmitted := now;
      data := ContainerOf(front, [p.kind, p.id], back + |p.data|);
      data.PushBack(p.data);
    }

    /** Appends a packet to the list, transmits it and marks it as sent. */
    method Emplace(kind: byte, data: seq<byte>, now: nat) returns (out: Out)
      modifies this
      ensures (State(), Some(out)) == Create(old(State()), kind, data, now)
    {
      idCounter := Low8(idCounter + 1);
      var p := Packet(kind, idCounter, data, defaultAddr, 0, now, serials);
      serials := serials + 1;
      var data' := TransmitPacket(p, now);
      var payload := TakeAll(data');
      out := Out(p.addr, payload);
      packetList := packetList + [Resent(p, now)];
    }

    method Transmit(kind: byte, data: seq<byte>, now: nat) returns (out: Option<Out>)
      modifies this
      ensures (State(), out) == Kiss.Transmit(old(State()), kind, data, now)
    {
      if kind > 255 - TYPE_OFFSET {
        return None;
      }
      var o := Emplace(kind + TYPE_OFFSET, data, now);
      out := Some(o);
    }

    /** The loop over the pending packets. */
    method Retry(now: nat) returns (sent: Option<Packet>)
      modifies this`packetList
      ensures (packetList, sent) == Sweep(settings, old(packetList), 0, now)
    {
      var i := 0;
      while i < |packetList|
        invariant Sweep(settings, packetList, i, now) == Sweep(settings, old(packetList), 0, now)
        decreases |packetList| - i
      {
        var p := packetList[i];
        if Expired(settings, p, now) {
          if !Exhausted(settings, p) {
            packetList := packetList[i := Resent(p, now)];
            return Some(p);
          }
          packetList := packetList[..i] + packetList[i + 1..];
        }
        i := i + 1;
      }
      sent := None;
    }

    method MainTask(now: nat) returns (out: Option<Out>)
      modifies this
      ensures (State(), out) == Kiss.MainTask(settings, old(State()), now)
    {
      var sent := Retry(now);
      match sent
      case Some(p) =>
        var data := TransmitPacket(p, now);
        var payload := TakeAll(data);
        out := Some(Out(p.addr, payload));
      case None =>
        if settings.pingHoldoff != 0 && lastTransmitted + settings.pingHoldoff <= now {
          var o := Emplace(PING_TYPE, [], now);
          out := Some(o);
        } else {
          out := None;
        }
    }
  }

  /** One element of the list is erased, or kept and passed. */
  lemma WithoutStep(ps: seq<Packet>, i: nat, id: byte)
    requires i < |ps|
    ensures ps[i].id == id ==>
              var r := ps[..i] + ps[i + 1..];
              r[..i] + Without(r[i..], id) == ps[..i] + Without(ps[i..], id)
    ensures ps[i].id != id ==>
              ps[..i + 1] + Without(ps[i + 1..], id) == ps[..i] + Without(ps[i..], id)
  {
    WithoutHead(ps[i..], id);
    assert ps[i..][1..] == ps[i + 1..];
    if ps[i].id == id {
      var r := ps[..i] + ps[i + 1..];
      assert r[..i] == ps[..i] && r[i..] == ps[i + 1..];
    } else {
      Regroup(ps[..i], ps[i], Without(ps[i + 1..], id));
      assert ps[..i + 1] == ps[..i] + [ps[i]];
    }
  }

  lemma WithoutHead(ps: seq<Packet>, id: byte)
    requires ps != []
    ensures Without(ps, id) == (if ps[0].id == id then [] else [ps[0]]) + Without(ps[1..], id)
    ensures ps[0].id == id ==> Without(ps, id) == Without(ps[1..], id)
  {
  }

  lemma Regroup<T>(a: seq<T>, x: T, b: seq<T>)
    ensures (a + [x]) + b == a + ([x] + b)
  {
  }
}
