/** The fragmentation handler: a list of transfer objects that `do_receive` appends to, updates and
    erases from. */
module BaseHandlers {
  import opened Prelude
  import opened IdFactory
  import opened BytesContainer
  import opened Transfers
  import opened TransferHandlers
  import opened Buffered
  import F = Fragmentation

  /** A transfer none of whose objects has been touched. */
  twostate lemma StaysAsItIs(t: TransferHandler)
    requires old(t.Valid()) && unchanged(old(t.Repr()))
    ensures t.Valid() && t.Repr() == old(t.Repr()) && t.State() == old(t.State())
  {
  }

  /** Transfers that share no objects with each other and have none outside `footprint`. */
  ghost predicate Separate(ts: seq<TransferHandler>, footprint: set<object>)
    reads footprint
  {
    && (forall i :: 0 <= i < |ts| ==>
          && ts[i] in footprint && ts[i].data in footprint && ts[i].Repr() <= footprint && ts[i].Valid())
    && (forall i, j :: 0 <= i < j < |ts| ==> ts[i].Repr() !! ts[j].Repr())
  }

  ghost function StatesOf(ts: seq<TransferHandler>, footprint: set<object>): (r: seq<Transfer>)
    requires Separate(ts, footprint)
    reads footprint
    ensures |r| == |ts|
    ensures forall i :: 0 <= i < |r| ==> r[i] == ts[i].State()
  {
    seq(|ts|, i requires 0 <= i < |ts| && Separate(ts, footprint) reads footprint => ts[i].State())
  }

  ghost predicate Disjoint(rs: seq<set<object>>, footprint: set<object>) {
    && (forall i :: 0 <= i < |rs| ==> rs[i] <= footprint)
    && (forall i, j :: 0 <= i < j < |rs| ==> rs[i] !! rs[j])
  }

  /** What each transfer is made of. */
  ghost function ReprsOf(ts: seq<TransferHandler>, footprint: set<object>): (rs: seq<set<object>>)
    requires Separate(ts, footprint)
    reads footprint
    ensures |rs| == |ts| && Disjoint(rs, footprint)
    ensures forall i :: 0 <= i < |rs| ==> rs[i] == ts[i].Repr()
  {
    seq(|ts|, i requires 0 <= i < |ts| && Separate(ts, footprint) reads footprint => ts[i].Repr())
  }

  /** Only the transfer at `i` has changed, and each still consists of the same objects. */
  lemma ChangedIsSeparate(ts: seq<TransferHandler>, footprint: set<object>, rs: seq<set<object>>,
                          was: seq<Transfer>, i: nat)
    requires i < |ts| == |rs| == |was| && Disjoint(rs, footprint)
    requires forall j :: 0 <= j < |ts| ==>
               ts[j].Valid() && ts[j].Repr() == rs[j] && (j != i ==> ts[j].State() == was[j])
    ensures Separate(ts, footprint) && StatesOf(ts, footprint) == was[i := ts[i].State()]
  {
  }

  lemma ErasedIsSeparate(ts: seq<TransferHandler>, footprint: set<object>, i: nat)
    requires Separate(ts, footprint) && i < |ts|
    ensures var rest := ts[..i] + ts[i + 1..];
            && Separate(rest, footprint)
            && StatesOf(rest, footprint) == StatesOf(ts, footprint)[..i] + StatesOf(ts, footprint)[i + 1..]
  {
    ErasedAt(ts, i);
    ErasedAt(StatesOf(ts, footprint), i);
  }

  lemma ErasedAt<T>(s: seq<T>, i: nat)
    requires i < |s|
    ensures var r := s[..i] + s[i + 1..];
            |r| == |s| - 1 && forall k :: 0 <= k < |r| ==> r[k] == s[if k < i then k else k + 1]
  {
  }

  lemma AppendedIsSeparate(ts: seq<TransferHandler>, footprint: set<object>, t: TransferHandler)
    requires Separate(ts, footprint) && t.Valid() && t.Repr() !! footprint
    ensures Separate(ts + [t], footprint + t.Repr())
    ensures StatesOf(ts + [t], footprint + t.Repr()) == StatesOf(ts, footprint) + [t.State()]
  {
    var r := ts + [t];
    forall k | 0 <= k < |r| ensures r[k] == if k < |ts| then ts[k] else t {}
    forall k | 0 <= k < |ts| ensures r[k].Repr() !! t.Repr() {}
  }

  /** Puts a fragment, whether or not it is taken. */
  method PutAt(t: TransferHandler, pos: byte, f: seq<byte>)
    requires t.Valid() && t.purpose == Incoming && pos >= 1
    modifies t`status, t`current, t.data`offset, t.data`length, t.data.data
    ensures t.Valid() && t.Repr() == old(t.Repr())
    ensures WellSized(old(t.State())) && t.State() == PutFragment(old(t.State()), pos, f)
  {
    var _ := t.PutFragment(pos, f);
  }

  class BaseFragmentationHandler {
    var transfers: seq<TransferHandler>
    /** Everything the transfers are made of. */
    ghost var footprint: set<object>

    ghost predicate Owned()
      reads this, footprint
    {
      this !in footprint && Separate(transfers, footprint)
    }

    /** The list as a value. */
    ghost function States(): (r: seq<Transfer>)
      requires Owned()
      reads this, footprint
      ensures |r| == |transfers|
    {
      StatesOf(transfers, footprint)
    }

    ghost predicate Valid()
      reads this, footprint
    {
      Owned() && F.Orderly(States())
    }

    constructor ()
      ensures Valid() && States() == [] && footprint == {}
    {
      transfers := [];
      footprint := {};
    }

    /** Finds the incoming transfer that a data fragment is part of. */
    method FindPart(k: F.Key) returns (i: nat)
      requires Owned()
      ensures i == F.First(States(), k)
    {
      i := 0;
      while i < |transfers| && !IsPartOf(transfers[i], k)
        invariant i <= |transfers|
        invariant forall j :: 0 <= j < i ==> !F.IsFor(States()[j], k)
      {
        i := i + 1;
      }
      F.FirstIs(States(), k, i);
    }

    predicate IsPartOf(t: TransferHandler, k: F.Key) {
      t.purpose == Incoming && t.source == k.source && t.iid == k.iid && t.id == k.id && t.total == k.total
    }

    /** Finds the outgoing transfer that a request or acknowledgement is about. */
    method FindRequested(k: F.Key, fragment: byte, ghost a: F.Arrival) returns (i: nat)
      requires Owned() && F.Readable(a) && F.KeyOf(a) == k && F.HeaderIn(a).fragment == fragment
      ensures i == F.FirstRequested(States(), a)
    {
      i := 0;
      while i < |transfers| && !IsRequested(transfers[i], k, fragment)
        invariant i <= |transfers|
        invariant forall j :: 0 <= j < i ==> !F.IsRequestOf(States()[j], a)
      {
        i := i + 1;
      }
      F.FirstRequestedIs(States(), a, i);
    }

    predicate IsRequested(t: TransferHandler, k: F.Key, fragment: byte) {
      && t.purpose == Outgoing && t.destination == k.source && t.iid == k.iid && t.id == k.id
      && t.total == k.total && t.total >= fragment
    }

    /** Puts a data fragment into the transfer at `i`. */
    method PutInto(i: nat, pos: byte, f: seq<byte>)
      requires Owned() && i < |transfers| && transfers[i].purpose == Incoming && pos >= 1
      modifies footprint
      ensures Owned() && unchanged(this)
      ensures WellSized(old(States())[i])
      ensures States() == old(States())[i := PutFragment(old(States())[i], pos, f)]
    {
      ghost var was, rs := States(), ReprsOf(transfers, footprint);
      assert was[i] == transfers[i].State() && WellSized(was[i]);
      PutAt(transfers[i], pos, f);
      assert transfers[i].State() == PutFragment(was[i], pos, f);
      forall j | 0 <= j < |transfers|
        ensures transfers[j].Valid() && transfers[j].Repr() == rs[j] && (j != i ==> transfers[j].State() == was[j])
      {
        if j != i {
          assert rs[j] !! rs[i];
          StaysAsItIs(transfers[j]);
        }
      }
      ChangedIsSeparate(transfers, footprint, rs, was, i);
    }

    /** Records a retransmit request for the transfer at `i`. */
    method RequestOf(i: nat, pos: byte)
      requires Owned() && i < |transfers| && transfers[i].purpose == Outgoing
      modifies footprint
      ensures Owned() && unchanged(this)
      ensures States() == old(States())[i := RetransmitRequest(old(States())[i], pos)]
    {
      ghost var was, rs := States(), ReprsOf(transfers, footprint);
      var _ := transfers[i].RetransmitRequest(pos);
      forall j | 0 <= j < |transfers|
        ensures transfers[j].Valid() && transfers[j].Repr() == rs[j] && (j != i ==> transfers[j].State() == was[j])
      {
        if j != i {
          assert rs[j] !! rs[i];
          StaysAsItIs(transfers[j]);
        }
      }
      ChangedIsSeparate(transfers, footprint, rs, was, i);
    }

    /** Appends a new transfer. */
    method Append(t: TransferHandler)
      requires Owned() && t.Valid() && t.Repr() !! footprint && this !in t.Repr()
      modifies this
      ensures Owned() && States() == old(States()) + [t.State()]
      ensures footprint == old(footprint) + t.Repr()
    {
      AppendedIsSeparate(transfers, footprint, t);
      footprint := footprint + t.Repr();
      transfers := transfers + [t];
    }

    /** Destroys the transfer at `i`. */
    method Erase(i: nat)
      requires Owned() && i < |transfers|
      modifies this`transfers
      ensures Owned() && States() == old(States())[..i] + old(States())[i + 1..]
    {
      ErasedIsSeparate(transfers, footprint, i);
      transfers := transfers[..i] + transfers[i + 1..];
    }

    /** Starts a transfer from its first fragment. */
    method StartNew(source: nat, destination: nat, iid: InterfaceId, h: Header, payload: Bytes)
      requires Owned() && payload.Valid() && payload.length > 0 && h.total >= 1
      requires Apart(payload)
      modifies this, payload
      ensures Owned() && States() == old(States()) + [StartIncoming(source, destination, iid, h, old(payload.View()))]
      ensures fresh(footprint - old(footprint) - {old(payload.data)})
    {
      ghost var was := States();
      var t := new TransferHandler.Receive(source, destination, iid, h, payload);
      assert Owned() && States() == was;
      assert t.Repr() !! footprint;
      Append(t);
    }

    /** A container that is no part of the handler. */
    ghost predicate Apart(data: Bytes)
      reads this, data
    {
      data !in footprint && (data.data != null ==> data.data !in footprint)
    }

    /** A data fragment of the transfer at `i`. */
    method OnKnown(i: nat, pos: byte, payload: Bytes, ghost a: F.Arrival)
      requires Valid() && payload.Valid() && Apart(payload) && F.Readable(a)
      requires i == F.First(States(), F.KeyOf(a)) && i < |transfers|
      requires pos == F.HeaderIn(a).fragment && payload.View() == F.Payload(a)
      modifies footprint
      ensures Owned() && States() == F.OnData(old(States()), a) && unchanged(this)
    {
      var f := TakeAll(payload);
      PutInto(i, pos, f);
    }

    /** A data fragment, its header already taken off. */
    method OnData(source: nat, destination: nat, iid: InterfaceId, h: Header, payload: Bytes, ghost a: F.Arrival)
      requires Valid() && payload.Valid() && payload.length > 0 && Apart(payload)
      requires a.source == source && a.destination == destination && a.iid == iid
      requires F.Readable(a) && h == F.HeaderIn(a) && payload.View() == F.Payload(a)
      modifies this, footprint, payload
      ensures Owned() && States() == F.OnData(old(States()), a)
      ensures fresh(footprint - old(footprint) - {old(payload.data)})
    {
      var i := FindPart(F.Key(source, iid, h.id, h.total));
      if i < |transfers| {
        OnKnown(i, h.fragment, payload, a);
      } else if h.fragment == 1 {
        StartNew(source, destination, iid, h, payload);
      }
    }

    /** A retransmit request. */
    method OnRequest(k: F.Key, fragment: byte, ghost a: F.Arrival)
      requires Owned() && F.Readable(a) && F.KeyOf(a) == k && F.HeaderIn(a).fragment == fragment
      modifies footprint
      ensures Owned() && States() == F.OnRequest(old(States()), a) && unchanged(this)
    {
      var i := FindRequested(k, fragment, a);
      if i < |transfers| {
        RequestOf(i, fragment);
      }
    }

    /** An acknowledgement. */
    method OnAck(k: F.Key, fragment: byte, ghost a: F.Arrival) returns (done: Option<byte>)
      requires Owned() && F.Readable(a) && F.KeyOf(a) == k && F.HeaderIn(a).fragment == fragment
      modifies this`transfers
      ensures Owned() && States() == F.OnAck(old(States()), a)
      ensures done == (if |States()| < |old(States())| then Some(k.id) else None)
    {
      var i := FindRequested(k, fragment, a);
      done := None;
      if i < |transfers| {
        ghost var was := States();
        done := Some(transfers[i].id);
        assert was[i].id == transfers[i].id && F.IsRequestOf(was[i], a);
        Erase(i);
        assert |States()| == |was| - 1;
      }
    }

    /** A request or an acknowledgement. */
    method OnResponse(k: F.Key, kind: byte, fragment: byte, ghost a: F.Arrival) returns (done: Option<byte>)
      requires Owned() && F.Readable(a) && F.KeyOf(a) == k && F.HeaderIn(a).fragment == fragment
      requires kind == FRAGMENT_REQ || kind == FRAGMENT_ACK
      modifies this`transfers, footprint
      ensures Owned()
      ensures States() == if kind == FRAGMENT_REQ then F.OnRequest(old(States()), a) else F.OnAck(old(States()), a)
      ensures done == (if kind == FRAGMENT_ACK && |States()| < |old(States())| then Some(k.id) else None)
    {
      done := None;
      if kind == FRAGMENT_REQ {
        OnRequest(k, fragment, a);
      } else {
        done := OnAck(k, fragment, a);
      }
    }

    /** What follows once the header has been read and taken off. */
    method Dispatch(source: nat, destination: nat, iid: InterfaceId, h: Header, payload: Bytes, ghost a: F.Arrival)
        returns (done: Option<byte>)
      requires Valid() && payload.Valid() && Apart(payload)
      requires a.source == source && a.destination == destination && a.iid == iid
      requires F.Readable(a) && h == F.HeaderIn(a) && payload.View() == F.Payload(a)
      modifies this, footprint, payload
      ensures Owned() && States() == F.Receive(old(States()), a)
      ensures fresh(footprint - old(footprint) - {old(payload.data)})
    {
      done := None;
      if h.kind == FRAGMENT {
        if payload.length > 0 {
          OnData(source, destination, iid, h, payload, a);
        }
      } else if h.kind == FRAGMENT_REQ || h.kind == FRAGMENT_ACK {
        done := OnResponse(F.Key(source, iid, h.id, h.total), h.kind, h.fragment, a);
      }
    }

    /** Handles a fragment coming up from an interface, which hands over its container. Returns the id
        of the outgoing transfer that an acknowledgement completed, if any. */
    method DoReceive(source: nat, destination: nat, iid: InterfaceId, data: Bytes) returns (done: Option<byte>)
      requires Valid() && data.Valid() && Apart(data)
      modifies this, footprint, data, data.data
      ensures Valid()
      ensures States() == F.Receive(old(States()), F.Arrival(source, destination, iid, old(data.View())))
      ensures fresh(footprint - old(footprint) - {old(data.data)})
    {
      ghost var a, was := F.Arrival(source, destination, iid, data.View()), States();
      F.ReceiveKeepsOrderly(was, a);
      var h := ReadHeader(source, destination, iid, data);
      assert Owned() && States() == was;
      done := None;
      if h.Some? {
        done := Dispatch(source, destination, iid, h.value, data, a);
      }
    }

    /** Queues a transfer for sending. */
    method DoTransmit(source: nat, destination: nat, iid: InterfaceId, id: byte, prevId: byte, data: Bytes,
                      maxFragmentDataSize: nat)
      requires Valid() && data.Valid() && Apart(data) && maxFragmentDataSize > 0
      modifies this, data
      ensures Valid()
      ensures States() == old(States()) + [StartOutgoing(source, destination, iid, id, prevId, old(data.View()),
                                                         maxFragmentDataSize)]
      ensures fresh(footprint - old(footprint) - {old(data.data)})
    {
      ghost var was := States();
      var t := new TransferHandler.Transmit(source, destination, iid, id, prevId, data, maxFragmentDataSize);
      assert Owned() && States() == was;
      assert t.Repr() !! footprint;
      F.OutgoingKeepsOrderly(was, t.State());
      Append(t);
    }
  }

  /** Reads the header off the front of a fragment's data, if there is a valid one. */
  method ReadHeader(source: nat, destination: nat, iid: InterfaceId, data: Bytes) returns (h: Option<Header>)
    requires data.Valid()
    modifies data`offset, data`length, data.data
    ensures var a := F.Arrival(source, destination, iid, old(data.View()));
            && data.Valid()
            && (h.Some? <==> F.Readable(a))
            && (h.Some? ==> h.value == F.HeaderIn(a) && data.View() == F.Payload(a))
  {
    if destination == 0 || data.length < HEADER_SIZE {
      return None;
    }
    var bytes := data.Exposed(0, HEADER_SIZE);
    var header := HeaderAt(bytes);
    if !HeaderValid(header) {
      return None;
    }
    var _ := TakeFront(data, HEADER_SIZE);
    h := Some(header);
  }
}
