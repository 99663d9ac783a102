/** The interface whose wire is a queue of frames on one side and a byte feed on the other. */
module VirtualInterfaces {
  import opened Prelude
  import opened LinkFrame
  import opened BytesContainer
  import opened Buffered
  import LinkMachine
  import Ser = Serializer
  import T = TxQueue

  /** Serializes a fragment and takes the bytes of its frame. */
  method MakeFrame(cfg: Config, source: nat, destination: nat, data: Bytes) returns (frame: seq<byte>)
    requires data.Valid()
    modifies data, data.data
    ensures frame == Frame(cfg, Fragment(source, destination, old(data.View())))
  {
    var container := Ser.SerializeFragment(cfg, source, destination, data);
    frame := TakeAll(container);
  }

  class VirtualInterface {
    const rx: BufferedParserInterface
    const maxQueue: nat
    var txQueue: seq<T.Serialized>
    var bytesTxed: nat
    /** Frames handed over by `do_transmit` and not yet fetched. */
    var serialized: seq<seq<byte>>
    /** The state of the transmit machine, and how much of its wire has been fetched. */
    ghost var tx: T.Tx
    ghost var fetched: nat

    ghost predicate Valid()
      reads this, rx, rx.rxBuffer
    {
      && rx.Valid()
      && txQueue == tx.queue && bytesTxed == tx.txed
      && T.Consistent(maxQueue, tx)
      && fetched + |serialized| == |tx.wire|
      && forall i :: 0 <= i < |serialized| ==> serialized[i] == tx.wire[fetched + i].data
    }

    constructor (cfg: Config, address: nat, broadcast: nat, maxQueue: nat, bufferSize: nat)
      requires Usable(cfg) && cfg.maxFragmentSize <= bufferSize
      ensures Valid() && tx == T.IDLE && fetched == 0 && rx.link == LinkMachine.INITIAL
      ensures fresh(rx) && fresh(rx.rxBuffer)
      ensures rx.cfg == cfg && rx.address == address && rx.broadcast == broadcast && this.maxQueue == maxQueue
    {
      rx := new BufferedParserInterface(cfg, address, broadcast, bufferSize);
      this.maxQueue := maxQueue;
      txQueue, bytesTxed, serialized := [], 0, [];
      tx, fetched := T.IDLE, 0;
    }

    /** Serializes a fragment into the transmit queue, or drops it when it fails the sanity checks. */
    method Transmit(destination: nat, data: Bytes, id: nat)
      requires Valid() && data.Valid() && data.data != rx.rxBuffer
      modifies this`txQueue, this`tx, data, data.data
      ensures Valid() && fetched == old(fetched)
      ensures tx == T.Submit(rx.cfg, rx.address, maxQueue, old(tx), Fragment(0, destination, old(data.View())), id)
    {
      ghost var f := Fragment(0, destination, data.View());
      if |txQueue| <= maxQueue && destination != 0 && data.length <= MaxData(rx.cfg) && data.length != 0 {
        var frame := MakeFrame(rx.cfg, rx.address, destination, data);
        txQueue := txQueue + [T.Serialized(frame, id)];
      }
      T.StepConserves(rx.cfg, rx.address, maxQueue, tx, T.Send(f, id));
      tx := T.Submit(rx.cfg, rx.address, maxQueue, tx, f, id);
    }

    /** Receives, then transmits one queued frame. Returns the receive event and the id of the
        fragment whose transmission began. */
    method MainTask() returns (event: Option<(Channel, Fragment)>, began: Option<nat>)
      requires Valid()
      modifies this`txQueue, this`bytesTxed, this`serialized, this`tx
      modifies rx`readIt, rx`lastByteCount, rx`bytesRxed, rx`link
      ensures Valid() && fetched == old(fetched)
      ensures rx.link == LinkMachine.Step(rx.cfg, rx.rxBuffer.Length, old(rx.link), LinkMachine.Call)
      ensures tx == T.Pump(old(tx), true)
      ensures began == if old(tx).queue == [] then None else Some(old(tx).queue[0].id)
      ensures |rx.link.out| == |old(rx.link).out| + (if event.None? then 0 else 1)
      ensures event.Some? ==>
                var f := rx.link.out[|old(rx.link).out|].fragment;
                event.value == if f.destination == rx.address then (Own, f)
                               else if f.destination == rx.broadcast then (Broadcast, f) else (Other, f)
    {
      T.StepConserves(rx.cfg, rx.address, maxQueue, tx, T.Main(true));
      var _, received := rx.DoReceive();
      event, began := received, None;
      tx := T.Pump(tx, true);
      if txQueue != [] {
        var front := txQueue[0];
        bytesTxed := (bytesTxed + |front.data|) % UINT64_RANGE;
        serialized := serialized + [front.data];
        began := Some(front.id);
        txQueue := txQueue[1..];
      }
    }

    /** Fetches the oldest frame, or nothing. */
    method GetSerialized() returns (frame: seq<byte>)
      requires Valid()
      modifies this`serialized, this`fetched
      ensures Valid()
      ensures if old(fetched) < |tx.wire| then frame == tx.wire[old(fetched)].data && fetched == old(fetched) + 1
              else frame == [] && fetched == old(fetched)
    {
      if serialized == [] {
        return [];
      }
      frame := serialized[0];
      serialized, fetched := serialized[1..], fetched + 1;
    }

    /** Feeds raw bytes to the receiver. */
    method PutSerialized(data: seq<byte>)
      requires Valid()
      modifies rx`writeIt, rx`byteCount, rx`link, rx.rxBuffer
      ensures Valid() && rx.link == LinkMachine.Run(rx.cfg, rx.rxBuffer.Length, old(rx.link), LinkMachine.Puts(data))
    {
      ghost var start := rx.link;
      for i := 0 to |data|
        invariant Valid()
        invariant rx.link == LinkMachine.Run(rx.cfg, rx.rxBuffer.Length, start, LinkMachine.Puts(data[..i]))
      {
        LinkMachine.PutsSnoc(rx.cfg, rx.rxBuffer.Length, start, data[..i], data[i]);
        assert data[..i + 1] == data[..i] + [data[i]];
        rx.PutSingleReceived(data[i]);
      }
      assert data[..|data|] == data;
    }
  }
}
