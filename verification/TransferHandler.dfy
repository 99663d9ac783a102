/** One transfer in progress, over the container that its fragments are copied into. */
module TransferHandlers {
  import opened Prelude
  import opened IdFactory
  import opened BytesContainer
  import opened Transfers
  import C = Container

  /** Where the exposed bytes are after a copy and a shrink from the back. */
  lemma WriteThenCut(l: C.Layout, start: nat, f: seq<byte>, cut: nat)
    requires C.Sound(l) && start + |f| <= l.length && cut <= l.length
    ensures var v := C.Exposed(l)[..start] + f + C.Exposed(l)[start + |f|..];
            && C.Sound(C.Write(l, start, f)) && C.Exposed(C.Write(l, start, f)) == v
            && |v| == l.length
  {
    C.WriteShows(l, start, f);
  }

  /** `CopyIn` and the two assignments after it make a put. */
  lemma PutInPlace(t: Transfer, pos: byte, f: seq<byte>, cut: nat)
    requires WellSized(t) && pos >= 1 && Takes(t, pos, f)
    requires cut == if pos == t.total then FragmentSize(t, pos) - |f| else 0
    ensures pos <= t.total && (pos - 1) * t.maxFragmentSize >= 0
    ensures (pos - 1) * t.maxFragmentSize + |f| <= |t.data| && cut <= |t.data|
    ensures WellSized(PutFragment(t, pos, f))
    ensures PutFragment(t, pos, f) ==
            t.(data := Overwritten(t.data, (pos - 1) * t.maxFragmentSize, f, cut),
               status := t.status[pos - 1 := t.status[pos - 1] + 1], current := pos)
  {
    DataBeginFits(t, pos);
    PutKeepsWellSized(t, pos, f);
  }

  /** `v` with `f` written over it at `start` and the last `cut` bytes cut off. */
  function Overwritten(v: seq<byte>, start: nat, f: seq<byte>, cut: nat): seq<byte>
    requires start + |f| <= |v| && cut <= |v|
  {
    var written := v[..start] + f + v[start + |f|..];
    if cut == 0 then written else written[..|written| - cut]
  }

  /** Moves a container and appends `back` zeros to it. */
  method MoveAndExpand(first: Bytes, back: nat) returns (d: Bytes)
    requires first.Valid()
    modifies first
    ensures fresh(d) && d.Valid() && d.View() == old(first.View()) + Zeros(back)
    ensures d.data == null || d.data == old(first.data) || fresh(d.data)
    ensures first.data == null
  {
    ghost var v := first.View();
    d := new Bytes(0, 0, 0);
    d.MoveFrom(first);
    assert d.View() == v;
    d.Expand(0, back);
    assert Zeros(0) + v == v;
  }

  /** Moves a container. */
  method Move(payload: Bytes) returns (d: Bytes)
    requires payload.Valid()
    modifies payload
    ensures fresh(d) && d.Valid() && d.View() == old(payload.View()) && d.data == old(payload.data)
    ensures payload.data == null
  {
    d := new Bytes(0, 0, 0);
    d.MoveFrom(payload);
  }

  class TransferHandler {
    const source: nat
    const destination: nat
    const iid: InterfaceId
    const id: byte
    const prevId: byte
    const total: byte
    const purpose: Purpose
    const maxFragmentSize: nat
    const data: Bytes
    var current: byte
    var status: seq<nat>
    var phase: Phase

    /** The objects that make up the transfer. */
    ghost function Repr(): set<object>
      reads this, data
    {
      {this, data} + (if data.data == null then {} else {data.data})
    }

    ghost predicate Valid()
      reads this, data, data.data
    {
      data.Valid() && Sliceable(State()) && (purpose == Incoming ==> WellSized(State()))
    }

    /** The transfer as a value. */
    ghost function State(): Transfer
      requires data.Valid()
      reads this, data, data.data
    {
      Transfer(source, destination, iid, id, prevId, data.View(), maxFragmentSize, total, current, status,
               phase, purpose)
    }

    /** The receive constructor; it takes the data out of the first fragment. */
    constructor Receive(source: nat, destination: nat, iid: InterfaceId, h: Header, first: Bytes)
      requires h.total >= 1 && first.Valid() && first.length > 0
      modifies first
      ensures Valid() && State() == StartIncoming(source, destination, iid, h, old(first.View()))
      ensures fresh(Repr() - {old(first.data)}) && first.data == null
    {
      this.source, this.destination, this.iid := source, destination, iid;
      id, prevId, total, purpose := h.id, h.prevId, h.total, Incoming;
      current, phase := 0, Next;
      status := seq(h.total, i => 0);
      maxFragmentSize := first.length;
      ghost var v := first.View();
      StartIsWellSized(source, destination, iid, h, v);
      var d := MoveAndExpand(first, (h.total - 1) * first.length);
      data := d;
      new;
      assert State() == StartIncoming(source, destination, iid, h, v);
    }

    /** The transmit constructor. */
    constructor Transmit(source: nat, destination: nat, iid: InterfaceId, id: byte, prevId: byte, payload: Bytes,
                         maxFragmentDataSize: nat)
      requires payload.Valid() && maxFragmentDataSize > 0
      modifies payload
      ensures Valid() && State() == StartOutgoing(source, destination, iid, id, prevId, old(payload.View()),
                                                  maxFragmentDataSize)
      ensures fresh(Repr() - {old(payload.data)}) && payload.data == null
    {
      this.source, this.destination, this.iid := source, destination, iid;
      this.id, this.prevId, purpose := id, prevId, Outgoing;
      OutgoingIsSliceable(source, destination, iid, id, prevId, payload.View(), maxFragmentDataSize);
      total := OutgoingTotal(payload.length, maxFragmentDataSize);
      current, phase := 0, New;
      status := seq(OutgoingTotal(payload.length, maxFragmentDataSize), i => 0);
      maxFragmentSize := maxFragmentDataSize;
      ghost var v := payload.View();
      var d := Move(payload);
      data := d;
      new;
      assert State() == StartOutgoing(source, destination, iid, id, prevId, v, maxFragmentDataSize);
    }

    /** The size of a fragment's data, without the header. */
    method FragmentSizeOf(pos: byte) returns (size: nat)
      requires Valid() && pos >= 1
      ensures size == FragmentSize(State(), pos)
    {
      if pos > total {
        return 0;
      }
      DataBeginFits(State(), pos);
      var start := (pos - 1) * maxFragmentSize;
      size := Min(start + maxFragmentSize, data.length) - start;
    }

    /** Copies a fragment's data to its place; the last fragment settles the size of the transfer. */
    method PutFragment(pos: byte, f: seq<byte>) returns (taken: bool)
      requires Valid() && pos >= 1
      modifies this`status, this`current, data`offset, data`length, data.data
      ensures Valid()
      ensures taken == (old(State()).purpose == Incoming && Takes(old(State()), pos, f))
      ensures State() == (if taken then Transfers.PutFragment(old(State()), pos, f) else old(State()))
    {
      if purpose != Incoming {
        return false;
      }
      var cut;
      taken, cut := Fits(pos, f);
      if taken {
        PutTaken(pos, f, cut);
      }
    }

    /** A fragment that is taken. */
    method PutTaken(pos: byte, f: seq<byte>, cut: nat)
      requires Valid() && purpose == Incoming && pos >= 1 && Takes(State(), pos, f)
      requires cut == if pos == total then FragmentSize(State(), pos) - |f| else 0
      modifies this`status, this`current, data`offset, data`length, data.data
      ensures Valid() && WellSized(old(State())) && State() == Transfers.PutFragment(old(State()), pos, f)
    {
      ghost var t := State();
      PutInPlace(t, pos, f, cut);
      Place(pos, (pos - 1) * maxFragmentSize, f, cut);
      assert State() == Transfers.PutFragment(t, pos, f);
    }

    /** Whether a fragment is taken, and how many bytes it turns out that the transfer has too many. */
    method Fits(pos: byte, f: seq<byte>) returns (taken: bool, cut: nat)
      requires Valid() && pos >= 1 && purpose == Incoming
      ensures taken == Takes(State(), pos, f)
      ensures taken ==> cut == if pos == total then FragmentSize(State(), pos) - |f| else 0
    {
      var expected := FragmentSizeOf(pos);
      taken, cut := expected != 0 && |f| <= expected, 0;
      if taken && pos == total {
        cut := expected - |f|;
      }
    }

    /** Copies a fragment that fits, counts it and hides `cut` bytes at the end. */
    method Place(pos: byte, start: nat, f: seq<byte>, cut: nat)
      requires data.Valid() && 1 <= pos <= |status| && start + |f| <= data.length && cut <= data.length
      modifies this`status, this`current, data`offset, data`length, data.data
      ensures data.Valid() && data.View() == Overwritten(old(data.View()), start, f, cut)
      ensures status == old(status)[pos - 1 := old(status)[pos - 1] + 1] && current == pos
    {
      status := status[pos - 1 := status[pos - 1] + 1];
      current := pos;
      CopyIn(start, f, cut);
    }

    /** Overwrites the data from `start` on and hides the last `cut` bytes. */
    method CopyIn(start: nat, f: seq<byte>, cut: nat)
      requires data.Valid() && start + |f| <= data.length && cut <= data.length
      modifies data`offset, data`length, data.data
      ensures data.Valid()
      ensures data.View() == Overwritten(old(data.View()), start, f, cut)
    {
      WriteThenCut(data.Layout(), start, f, cut);
      data.Write(start, f);
      data.Shrink(0, cut);
    }

    /** Notes a retransmit request if it can be one, and tells whether it did. */
    method RetransmitRequest(pos: byte) returns (noted: bool)
      requires Valid()
      modifies this`phase, this`current
      ensures Valid() && Repr() == old(Repr())
      ensures noted <==> old(phase) == Sent && old(current) == total && pos <= total
      ensures State() == Transfers.RetransmitRequest(old(State()), pos)
    {
      if phase != Sent || current != total || pos > total {
        return false;
      }
      phase, current := Retry, pos;
      noted := true;
    }
  }

  lemma StartIsWellSized(source: nat, destination: nat, iid: InterfaceId, h: Header, first: seq<byte>)
    requires h.total >= 1 && first != []
    ensures WellSized(StartIncoming(source, destination, iid, h, first))
  {
    assert h.total * |first| == (h.total - 1) * |first| + |first|;
  }
}
