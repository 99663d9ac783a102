/** What the fragmentation handler does with the fragments it receives: the list of transfers in
    progress as a value, and what holds over every run. */
module Fragmentation {
  import opened Prelude
  import opened IdFactory
  import opened Transfers
  import opened Reassembly

  /** A fragment coming up from an interface, its data still headed by the fragmentation header. */
  datatype Arrival = Arrival(source: nat, destination: nat, iid: InterfaceId, data: seq<byte>)

  predicate Readable(a: Arrival) {
    a.destination != 0 && |a.data| >= HEADER_SIZE && HeaderValid(HeaderAt(a.data))
  }

  function HeaderIn(a: Arrival): Header
    requires Readable(a)
  {
    HeaderAt(a.data)
  }

  function Payload(a: Arrival): seq<byte>
    requires Readable(a)
  {
    a.data[HEADER_SIZE..]
  }

  /** What tells incoming transfers apart. */
  datatype Key = Key(source: nat, iid: InterfaceId, id: byte, total: byte)

  function KeyOf(a: Arrival): Key
    requires Readable(a)
  {
    Key(a.source, a.iid, HeaderIn(a).id, HeaderIn(a).total)
  }

  /** `is_incoming` and `is_part_of`. */
  predicate IsFor(t: Transfer, k: Key) {
    t.purpose == Incoming && Key(t.source, t.iid, t.id, t.total) == k
  }

  /** `is_outgoing` and `is_request_of`, which is also `is_ack_of`. */
  predicate IsRequestOf(t: Transfer, a: Arrival)
    requires Readable(a)
  {
    && t.purpose == Outgoing
    && Key(t.destination, t.iid, t.id, t.total) == KeyOf(a) && t.total >= HeaderIn(a).fragment
  }

  function First(ts: seq<Transfer>, k: Key): (i: nat)
    ensures i <= |ts| && (i < |ts| ==> IsFor(ts[i], k))
    ensures forall j :: 0 <= j < i ==> !IsFor(ts[j], k)
  {
    if ts == [] || IsFor(ts[0], k) then 0 else 1 + First(ts[1..], k)
  }

  function FirstRequested(ts: seq<Transfer>, a: Arrival): (i: nat)
    requires Readable(a)
    ensures i <= |ts| && (i < |ts| ==> IsRequestOf(ts[i], a))
    ensures forall j :: 0 <= j < i ==> !IsRequestOf(ts[j], a)
  {
    if ts == [] || IsRequestOf(ts[0], a) then 0 else 1 + FirstRequested(ts[1..], a)
  }

  /** Incoming transfers are well sized, and no two have the same key. */
  predicate Orderly(ts: seq<Transfer>) {
    && (forall i :: 0 <= i < |ts| && ts[i].purpose == Incoming ==> WellSized(ts[i]))
    && (forall i, j :: 0 <= i < j < |ts| && ts[i].purpose == Incoming && ts[j].purpose == Incoming ==>
          Key(ts[i].source, ts[i].iid, ts[i].id, ts[i].total) != Key(ts[j].source, ts[j].iid, ts[j].id, ts[j].total))
  }

  function OnData(ts: seq<Transfer>, a: Arrival): seq<Transfer>
    requires Orderly(ts) && Readable(a)
  {
    var h, i := HeaderIn(a), First(ts, KeyOf(a));
    if i < |ts| then ts[i := PutFragment(ts[i], h.fragment, Payload(a))]
    else if h.fragment == 1 then ts + [StartIncoming(a.source, a.destination, a.iid, h, Payload(a))]
    else ts
  }

  function OnRequest(ts: seq<Transfer>, a: Arrival): seq<Transfer>
    requires Readable(a)
  {
    var i := FirstRequested(ts, a);
    if i < |ts| then ts[i := RetransmitRequest(ts[i], HeaderIn(a).fragment)] else ts
  }

  function OnAck(ts: seq<Transfer>, a: Arrival): seq<Transfer>
    requires Readable(a)
  {
    var i := FirstRequested(ts, a);
    if i < |ts| then ts[..i] + ts[i + 1..] else ts
  }

  /** One call of `do_receive`. */
  function Receive(ts: seq<Transfer>, a: Arrival): seq<Transfer>
    requires Orderly(ts)
  {
    if !Readable(a) then ts
    else
      var kind := HeaderIn(a).kind;
      if kind == FRAGMENT then (if Payload(a) != [] then OnData(ts, a) else ts)
      else if kind == FRAGMENT_REQ then OnRequest(ts, a)
      else if kind == FRAGMENT_ACK then OnAck(ts, a)
      else ts
  }

  lemma FirstIs(ts: seq<Transfer>, k: Key, i: nat)
    requires i <= |ts| && (i < |ts| ==> IsFor(ts[i], k))
    requires forall j :: 0 <= j < i ==> !IsFor(ts[j], k)
    ensures First(ts, k) == i
  {
    var f := First(ts, k);
    assert !(f < i) && !(i < f);
  }

  function Lookup(ts: seq<Transfer>, k: Key): Option<Transfer> {
    var i := First(ts, k);
    if i < |ts| then Some(ts[i]) else None
  }

  // --- what one call does, in the fields of the fragment and of the transfers ---

  /** A fragment is looked at when it has a destination and a complete header: check byte, number and total in
      range, and an id. Anything else, and any other message type, changes nothing. */
  lemma UnreadableIsIgnored(ts: seq<Transfer>, a: Arrival)
    requires Orderly(ts)
    requires var d := a.data;
             || a.destination == 0 || |d| < 7 || d[6] != (d[0] as int + d[1] + d[2] + d[3] + d[4] + d[5]) % 0x100
             || d[1] == 0 || d[1] > d[2] || d[3] == 0 || d[0] !in [1, 2, 3]
    ensures Receive(ts, a) == ts
  {
  }

  /** The header of a fragment that is looked at. */
  predicate LooksRight(a: Arrival) {
    var d := a.data;
    && a.destination != 0 && |d| >= 7 && d[6] == (d[0] as int + d[1] + d[2] + d[3] + d[4] + d[5]) % 0x100
    && 1 <= d[1] <= d[2] && d[3] != 0
  }

  /** A data fragment goes to the first incoming transfer with its source, interface, id and total; without
      one, fragment one starts a transfer at the end of the list. */
  lemma DataGoesToItsTransfer(ts: seq<Transfer>, a: Arrival, i: nat)
    requires Orderly(ts) && LooksRight(a) && a.data[0] == 1 && i <= |ts|
    requires i < |ts| ==> ts[i].purpose == Incoming && ts[i].source == a.source && ts[i].iid == a.iid
                          && ts[i].id == a.data[3] && ts[i].total == a.data[2]
    requires forall j :: 0 <= j < i ==>
               !(ts[j].purpose == Incoming && ts[j].source == a.source && ts[j].iid == a.iid
                 && ts[j].id == a.data[3] && ts[j].total == a.data[2])
    ensures |a.data| == 7 ==> Receive(ts, a) == ts
    ensures |a.data| > 7 && i < |ts| ==>
              WellSized(ts[i]) && Receive(ts, a) == ts[i := PutFragment(ts[i], a.data[1], a.data[7..])]
    ensures |a.data| > 7 && i == |ts| && a.data[1] > 1 ==> Receive(ts, a) == ts
    ensures |a.data| > 7 && i == |ts| && a.data[1] == 1 ==>
              var first, n := a.data[7..], a.data[2];
              Receive(ts, a) == ts + [Transfer(a.source, a.destination, a.iid, a.data[3], a.data[4],
                                               first + Zeros((n - 1) * |first|), |first|, n, 0, seq(n, k => 0),
                                               Next, Incoming)]
  {
    FirstIs(ts, KeyOf(a), i);
  }

  lemma FirstRequestedIs(ts: seq<Transfer>, a: Arrival, i: nat)
    requires Readable(a) && i <= |ts| && (i < |ts| ==> IsRequestOf(ts[i], a))
    requires forall j :: 0 <= j < i ==> !IsRequestOf(ts[j], a)
    ensures FirstRequested(ts, a) == i
  {
    var f := FirstRequested(ts, a);
    assert !(f < i) && !(i < f);
  }

  /** An acknowledgement or a request is about the first outgoing transfer whose destination is where it comes
      from, with its interface, id and total. An acknowledgement erases that transfer and keeps the others
      in order; a request marks it for the requested fragment if its last fragment was the last one sent;
      without such a transfer nothing changes. */
  lemma ResponseGoesToItsTransfer(ts: seq<Transfer>, a: Arrival, i: nat)
    requires Orderly(ts) && LooksRight(a) && (a.data[0] == 2 || a.data[0] == 3) && i <= |ts|
    requires i < |ts| ==> ts[i].purpose == Outgoing && ts[i].destination == a.source && ts[i].iid == a.iid
                          && ts[i].id == a.data[3] && ts[i].total == a.data[2]
    requires forall j :: 0 <= j < i ==>
               !(ts[j].purpose == Outgoing && ts[j].destination == a.source && ts[j].iid == a.iid
                 && ts[j].id == a.data[3] && ts[j].total == a.data[2])
    ensures i == |ts| ==> Receive(ts, a) == ts
    ensures i < |ts| && a.data[0] == 2 ==> Receive(ts, a) == ts[..i] + ts[i + 1..]
    ensures i < |ts| && a.data[0] == 3 ==>
              Receive(ts, a) == if ts[i].phase == Sent && ts[i].current == ts[i].total
                                then ts[i := ts[i].(phase := Retry, current := a.data[1])] else ts
  {
    FirstRequestedIs(ts, a, i);
    if i < |ts| {
      assert ts[i := ts[i]] == ts;
    }
  }

  /** The acknowledgement that its destination sends for any fragment completes an outgoing transfer, unless
      another one to the same destination has the same interface, id and total. */
  lemma AckCompletes(ts: seq<Transfer>, source: nat, destination: nat, iid: InterfaceId, id: byte, prevId: byte,
                     data: seq<byte>, m: nat, pos: byte, to: nat)
    requires Orderly(ts) && m > 0 && id != 0 && to != 0 && 1 <= pos <= FragmentCount(|data|, m) % 0x100
    requires forall i :: 0 <= i < |ts| ==>
               !(ts[i].purpose == Outgoing && ts[i].destination == destination && ts[i].iid == iid
                 && ts[i].id == id && ts[i].total == FragmentCount(|data|, m) % 0x100)
    ensures var t := StartOutgoing(source, destination, iid, id, prevId, data, m);
            var ack := Arrival(destination, to, iid, HeaderBytes(MakeHeader(FRAGMENT_ACK, pos, t.total, id, prevId)));
            Orderly(ts + [t]) && Receive(ts + [t], ack) == ts
  {
    var t := StartOutgoing(source, destination, iid, id, prevId, data, m);
    var d := HeaderBytes(MakeHeader(FRAGMENT_ACK, pos, t.total, id, prevId));
    var ack := Arrival(destination, to, iid, d);
    OutgoingKeepsOrderly(ts, t);
    HeaderRoundTrip(FRAGMENT_ACK, pos, t.total, id, prevId, []);
    assert d + [] == d;
    assert forall j :: 0 <= j < |ts| ==> (ts + [t])[j] == ts[j];
    ResponseGoesToItsTransfer(ts + [t], ack, |ts|);
    assert (ts + [t])[..|ts|] + (ts + [t])[|ts| + 1..] == ts;
  }

  // --- one transfer per key ---

  lemma OnDataKeepsOrderly(ts: seq<Transfer>, a: Arrival)
    requires Orderly(ts) && Readable(a) && Payload(a) != []
    ensures Orderly(OnData(ts, a))
  {
    var h, i := HeaderIn(a), First(ts, KeyOf(a));
    if i < |ts| {
      PutKeepsWellSized(ts[i], h.fragment, Payload(a));
    } else if h.fragment == 1 {
      var n := |Payload(a)|;
      assert h.total * n == (h.total - 1) * n + n;
      forall j | 0 <= j < |ts| ensures !IsFor(ts[j], KeyOf(a)) {}
    }
  }

  /** Every call keeps at most one incoming transfer per key. */
  lemma ReceiveKeepsOrderly(ts: seq<Transfer>, a: Arrival)
    requires Orderly(ts)
    ensures Orderly(Receive(ts, a))
  {
    if Readable(a) && HeaderIn(a).kind == FRAGMENT && Payload(a) != [] {
      OnDataKeepsOrderly(ts, a);
    }
  }

  lemma OutgoingKeepsOrderly(ts: seq<Transfer>, t: Transfer)
    requires Orderly(ts) && t.purpose == Outgoing
    ensures Orderly(ts + [t])
  {
  }

  function Run(ts: seq<Transfer>, arrivals: seq<Arrival>): (r: seq<Transfer>)
    requires Orderly(ts)
    ensures Orderly(r)
    decreases |arrivals|
  {
    if arrivals == [] then ts
    else
      ReceiveKeepsOrderly(ts, arrivals[0]);
      Run(Receive(ts, arrivals[0]), arrivals[1..])
  }

  // --- transfers do not mix ---

  /** Data fragments that carry the key `k`. */
  predicate Relevant(a: Arrival, k: Key) {
    Readable(a) && HeaderIn(a).kind == FRAGMENT && Payload(a) != [] && KeyOf(a) == k
  }

  predicate Healthy(cur: Option<Transfer>) {
    cur.Some? ==> WellSized(cur.value)
  }

  /** What a data fragment does to the one transfer it belongs to. */
  function Advance(cur: Option<Transfer>, a: Arrival): (r: Option<Transfer>)
    requires Readable(a) && Healthy(cur)
  {
    var h := HeaderIn(a);
    match cur
    case Some(t) => Some(PutFragment(t, h.fragment, Payload(a)))
    case None => if h.fragment == 1 then Some(StartIncoming(a.source, a.destination, a.iid, h, Payload(a))) else None
  }

  lemma UpdateKeepsFirst(ts: seq<Transfer>, i: nat, t: Transfer, k: Key)
    requires i < |ts| && (IsFor(t, k) <==> IsFor(ts[i], k))
    ensures First(ts[i := t], k) == First(ts, k)
  {
    FirstIs(ts[i := t], k, First(ts, k));
  }

  lemma EraseKeepsLookup(ts: seq<Transfer>, i: nat, k: Key)
    requires i < |ts| && !IsFor(ts[i], k)
    ensures Lookup(ts[..i] + ts[i + 1..], k) == Lookup(ts, k)
  {
    var f := First(ts, k);
    FirstIs(ts[..i] + ts[i + 1..], k, if f < i then f else f - 1);
  }

  lemma OnDataIsLocal(ts: seq<Transfer>, a: Arrival, k: Key)
    requires Orderly(ts) && Readable(a)
    ensures Healthy(Lookup(ts, k))
    ensures Lookup(OnData(ts, a), k) == if KeyOf(a) == k then Advance(Lookup(ts, k), a) else Lookup(ts, k)
  {
    var h, i := HeaderIn(a), First(ts, KeyOf(a));
    if i < |ts| {
      UpdateKeepsFirst(ts, i, PutFragment(ts[i], h.fragment, Payload(a)), k);
    } else if h.fragment == 1 {
      var ts' := OnData(ts, a);
      FirstIs(ts', k, if KeyOf(a) == k then |ts| else if First(ts, k) < |ts| then First(ts, k) else |ts'|);
    }
  }

  /** A received fragment changes the incoming transfer of its own key and no other. */
  lemma ReceiveIsLocal(ts: seq<Transfer>, a: Arrival, k: Key)
    requires Orderly(ts)
    ensures Healthy(Lookup(ts, k))
    ensures Lookup(Receive(ts, a), k) == if Relevant(a, k) then Advance(Lookup(ts, k), a) else Lookup(ts, k)
  {
    if Readable(a) {
      var kind := HeaderIn(a).kind;
      if kind == FRAGMENT {
        OnDataIsLocal(ts, a, k);
      } else {
        var i := FirstRequested(ts, a);
        if i < |ts| {
          UpdateKeepsFirst(ts, i, RetransmitRequest(ts[i], HeaderIn(a).fragment), k);
          EraseKeepsLookup(ts, i, k);
        }
      }
    }
  }

  /** The fragments of a run that carry the key `k`. */
  function Only(arrivals: seq<Arrival>, k: Key): seq<Arrival> {
    if arrivals == [] then []
    else (if Relevant(arrivals[0], k) then [arrivals[0]] else []) + Only(arrivals[1..], k)
  }

  /** Whatever is interleaved, each incoming transfer ends up as if the fragments with its own key had
      been received alone, by a handler that knew no other transfer. */
  lemma {:induction false} TransfersDoNotMix(ts: seq<Transfer>, alone: seq<Transfer>, arrivals: seq<Arrival>, k: Key)
    requires Orderly(ts) && Orderly(alone) && Lookup(ts, k) == Lookup(alone, k)
    ensures Lookup(Run(ts, arrivals), k) == Lookup(Run(alone, Only(arrivals, k)), k)
    decreases |arrivals|
  {
    if arrivals != [] {
      var a := arrivals[0];
      ReceiveIsLocal(ts, a, k);
      ReceiveIsLocal(alone, a, k);
      ReceiveKeepsOrderly(ts, a);
      if Relevant(a, k) {
        ReceiveKeepsOrderly(alone, a);
        TransfersDoNotMix(Receive(ts, a), Receive(alone, a), arrivals[1..], k);
        assert Only(arrivals, k)[0] == a && Only(arrivals, k)[1..] == Only(arrivals[1..], k);
      } else {
        TransfersDoNotMix(Receive(ts, a), alone, arrivals[1..], k);
        assert Only(arrivals, k) == Only(arrivals[1..], k);
      }
    }
  }

  // --- interleaved reassembly ---

  /** Every fragment with the key `k` carries the piece that its number says. */
  predicate CarriesPieces(arrivals: seq<Arrival>, k: Key, parts: seq<seq<byte>>) {
    |parts| == k.total && forall j :: 0 <= j < |arrivals| && Relevant(arrivals[j], k) ==>
      Payload(arrivals[j]) == parts[HeaderIn(arrivals[j]).fragment - 1]
  }

  /** The pieces with the key `k` in the order in which they arrive, by their indices. */
  function Pieces(arrivals: seq<Arrival>, k: Key): (r: seq<nat>)
    ensures forall j :: 0 <= j < |r| ==> r[j] < k.total
  {
    if arrivals == [] then []
    else (if Relevant(arrivals[0], k) then [HeaderIn(arrivals[0]).fragment - 1] else []) + Pieces(arrivals[1..], k)
  }

  /** What counts for a new transfer: nothing before its first piece. */
  function SinceFirst(puts: seq<nat>): (r: seq<nat>)
    ensures r != [] ==> r[0] == 0
    ensures forall j :: 0 <= j < |r| ==> r[j] in puts
  {
    if puts == [] || puts[0] == 0 then puts else SinceFirst(puts[1..])
  }

  /** All pieces are there. */
  predicate Complete(puts: seq<nat>, total: byte) {
    forall i: nat :: i < total ==> i in puts
  }

  lemma PiecesAreWithin(arrivals: seq<Arrival>, k: Key, parts: seq<seq<byte>>)
    requires CarriesPieces(arrivals, k, parts)
    ensures Within(parts, Pieces(arrivals, k)) && Within(parts, SinceFirst(Pieces(arrivals, k)))
  {
    var puts := Pieces(arrivals, k);
    forall j | 0 <= j < |SinceFirst(puts)| ensures SinceFirst(puts)[j] < |parts| {
      assert SinceFirst(puts)[j] in puts;
    }
  }

  lemma CarriesTail(arrivals: seq<Arrival>, k: Key, parts: seq<seq<byte>>)
    requires arrivals != [] && CarriesPieces(arrivals, k, parts)
    ensures CarriesPieces(arrivals[1..], k, parts)
    ensures var a, rest := arrivals[0], Pieces(arrivals[1..], k);
            if Relevant(a, k) then
              var i := HeaderIn(a).fragment - 1;
              i < |parts| && Payload(a) == parts[i] && Pieces(arrivals, k) == [i] + rest
            else Pieces(arrivals, k) == rest
  {
    assert [] + Pieces(arrivals[1..], k) == Pieces(arrivals[1..], k);
  }

  /** A transfer in progress ends up as the puts of its own pieces make it. */
  lemma {:induction false} RunIsPutAll(ts: seq<Transfer>, arrivals: seq<Arrival>, k: Key, parts: seq<seq<byte>>,
                                       t: Transfer)
    requires Orderly(ts) && CarriesPieces(arrivals, k, parts) && Lookup(ts, k) == Some(t)
    ensures WellSized(t) && Within(parts, Pieces(arrivals, k))
    ensures Lookup(Run(ts, arrivals), k) == Some(PutAll(t, parts, Pieces(arrivals, k)))
    decreases |arrivals|
  {
    PiecesAreWithin(arrivals, k, parts);
    if arrivals != [] {
      var a := arrivals[0];
      ReceiveIsLocal(ts, a, k);
      ReceiveKeepsOrderly(ts, a);
      CarriesTail(arrivals, k, parts);
      if Relevant(a, k) {
        var i := HeaderIn(a).fragment - 1;
        RunIsPutAll(Receive(ts, a), arrivals[1..], k, parts, PutFragment(t, i + 1, parts[i]));
        PutAllCons(t, parts, i, Pieces(arrivals[1..], k));
      } else {
        RunIsPutAll(Receive(ts, a), arrivals[1..], k, parts, t);
      }
    }
  }

  /** A key that is not in use: the transfer starts with its first piece, if that ever arrives. */
  lemma {:induction false} RunStarts(ts: seq<Transfer>, arrivals: seq<Arrival>, k: Key, parts: seq<seq<byte>>)
      returns (t: Transfer, a: Arrival)
    requires Orderly(ts) && CarriesPieces(arrivals, k, parts) && Lookup(ts, k) == None
    ensures Within(parts, SinceFirst(Pieces(arrivals, k)))
    ensures SinceFirst(Pieces(arrivals, k)) == [] ==> Lookup(Run(ts, arrivals), k) == None
    ensures SinceFirst(Pieces(arrivals, k)) != [] ==>
              && a in arrivals && Relevant(a, k) && HeaderIn(a).fragment == 1
              && k.total == |parts| && t == StartIncoming(a.source, a.destination, a.iid, HeaderIn(a), parts[0])
              && WellSized(t)
              && Lookup(Run(ts, arrivals), k) == Some(PutAll(t, parts, SinceFirst(Pieces(arrivals, k))[1..]))
    decreases |arrivals|
  {
    PiecesAreWithin(arrivals, k, parts);
    a := Arrival(k.source, 0, k.iid, []);
    t := StartIncoming(k.source, 0, k.iid, Header(0, 0, 1, 0, 0, 0, 0), []);
    if arrivals != [] {
      a := arrivals[0];
      ReceiveIsLocal(ts, a, k);
      ReceiveKeepsOrderly(ts, a);
      CarriesTail(arrivals, k, parts);
      var rest := Pieces(arrivals[1..], k);
      if Relevant(a, k) && HeaderIn(a).fragment == 1 {
        assert ([0] + rest)[1..] == rest;
        t := StartIncoming(a.source, a.destination, a.iid, HeaderIn(a), parts[0]);
        RunIsPutAll(Receive(ts, a), arrivals[1..], k, parts, t);
      } else {
        assert Relevant(a, k) ==> ([HeaderIn(a).fragment - 1] + rest)[1..] == rest;
        t, a := RunStarts(Receive(ts, a), arrivals[1..], k, parts);
      }
    }
  }

  /** A transfer has the addresses, the interface, the ids and the total of a fragment. */
  predicate IsMadeOf(t: Transfer, a: Arrival)
    requires Readable(a)
  {
    && t.source == a.source && t.destination == a.destination && t.iid == a.iid
    && t.id == a.data[3] && t.prevId == a.data[4] && t.total == a.data[2]
  }

  /** Any interleaving of the fragments of any number of transfers, in any order and with duplicates, under
      a key that is not in use: nothing is there before the first piece; after that the transfer has been
      put together again exactly when each piece that has not arrived since consists of zeros only. */
  lemma InterleavedTransfersReassemble(ts: seq<Transfer>, arrivals: seq<Arrival>, k: Key, data: seq<byte>, m: nat)
    requires Orderly(ts) && Lookup(ts, k) == None && data != [] && m > 0
    requires CarriesPieces(arrivals, k, Chop(data, m))
    ensures var parts, since := Chop(data, m), SinceFirst(Pieces(arrivals, k));
            var t := Lookup(Run(ts, arrivals), k);
            && (t == None <==> since == [])
            && (t.Some? ==>
                  && (t.value.data == data <==>
                       forall i: nat :: i < k.total && i !in SetOf(since) ==> parts[i] == Zeros(|parts[0]|))
                  && exists a :: a in arrivals && Relevant(a, k) && HeaderIn(a).fragment == 1
                                 && IsMadeOf(t.value, a))
  {
    var parts, since := Chop(data, m), SinceFirst(Pieces(arrivals, k));
    ChopTiles(data, m);
    SliceIsPiece(data, m, 1);
    var t, a := RunStarts(ts, arrivals, k, parts);
    if since != [] {
      SetOfCons(since);
      ReassemblesExactlyWhen(t, HeaderIn(a), data, m, since[1..]);
      PutAllKeepsFields(t, parts, since[1..]);
    }
  }

  /** The same under a key that an old transfer still has. Whatever has arrived, the transfer holds the new
      data exactly when the old transfer and the pieces that have arrived make it up; once all have arrived,
      that is when the old transfer lets it survive. */
  lemma StaleTransferIsOverwritten(ts: seq<Transfer>, arrivals: seq<Arrival>, k: Key, data: seq<byte>, m: nat)
    requires Orderly(ts) && Lookup(ts, k).Some? && data != [] && m > 0
    requires CarriesPieces(arrivals, k, Chop(data, m))
    ensures var was, t := Lookup(ts, k).value, Lookup(Run(ts, arrivals), k);
            && WellSized(was) && k.total >= 1 && t.Some?
            && (t.value.data == data <==> MakesUp(was, Chop(data, m), SetOf(Pieces(arrivals, k)), data))
            && (Complete(Pieces(arrivals, k), k.total) ==> (t.value.data == data <==> Survives(was, data, m)))
  {
    var parts, puts, was := Chop(data, m), Pieces(arrivals, k), Lookup(ts, k).value;
    RunIsPutAll(ts, arrivals, k, parts, was);
    ChopTiles(data, m);
    PutsMakeExactlyWhen(was, parts, puts, data);
    if Complete(puts, k.total) {
      CompleteIsRange(puts, k.total);
      OverwrittenExactlyWhen(was, data, m, puts);
    }
  }

  lemma CompleteIsRange(puts: seq<nat>, total: byte)
    requires Complete(puts, total) && forall j :: 0 <= j < |puts| ==> puts[j] < total
    ensures SetOf(puts) == Range(0, total)
  {
  }

  /** Both cases, all pieces having arrived. */
  lemma CompleteTransferReassembles(ts: seq<Transfer>, arrivals: seq<Arrival>, k: Key, data: seq<byte>, m: nat)
    requires Orderly(ts) && data != [] && m > 0 && CarriesPieces(arrivals, k, Chop(data, m))
    requires var puts := Pieces(arrivals, k);
             Complete(if Lookup(ts, k) == None then SinceFirst(puts) else puts, k.total)
    ensures Healthy(Lookup(ts, k))
    ensures var was, r := Lookup(ts, k), Lookup(Run(ts, arrivals), k);
            && r.Some? && (r.value.data == data <==> was == None || Survives(was.value, data, m))
            && (was == None ==> exists a :: a in arrivals && Relevant(a, k) && HeaderIn(a).fragment == 1
                                            && IsMadeOf(r.value, a))
  {
    ChopTiles(data, m);
    if Lookup(ts, k) == None {
      assert 0 in SinceFirst(Pieces(arrivals, k));
      InterleavedTransfersReassemble(ts, arrivals, k, data, m);
    } else {
      StaleTransferIsOverwritten(ts, arrivals, k, data, m);
    }
  }

  // --- from one handler to another ---

  /** Fragment `pos` of an outgoing transfer as it arrives at the peer from address `source`. */
  function FragmentOf(t: Transfer, pos: byte, source: nat, iid: InterfaceId): Arrival
    requires t.maxFragmentSize > 0 && 1 <= pos && (pos - 1) * t.maxFragmentSize <= |t.data|
  {
    Arrival(source, t.destination, iid,
            HeaderBytes(MakeHeader(FRAGMENT, pos, t.total, t.id, t.prevId)) + Slice(t.data, t.maxFragmentSize, pos))
  }

  /** What the sender cuts off is what the receiver takes for that piece. */
  lemma FragmentIsPiece(t: Transfer, pos: byte, source: nat, iid: InterfaceId)
    requires t.maxFragmentSize > 0 && t.total == |Chop(t.data, t.maxFragmentSize)| && 1 <= pos <= t.total
    requires t.destination != 0 && t.id != 0
    ensures (pos - 1) * t.maxFragmentSize <= |t.data|
    ensures var a := FragmentOf(t, pos, source, iid);
            && Relevant(a, Key(source, iid, t.id, t.total)) && HeaderIn(a).fragment == pos
            && Payload(a) == Chop(t.data, t.maxFragmentSize)[pos - 1]
  {
    SliceIsPiece(t.data, t.maxFragmentSize, pos);
    ChopTiles(t.data, t.maxFragmentSize);
    HeaderRoundTrip(FRAGMENT, pos, t.total, t.id, t.prevId, Slice(t.data, t.maxFragmentSize, pos));
  }

  /** Every data fragment with the key `k` is a fragment of the outgoing transfer `t`. */
  predicate SentBy(arrivals: seq<Arrival>, k: Key, t: Transfer)
    requires t.maxFragmentSize > 0
  {
    forall j :: 0 <= j < |arrivals| && Relevant(arrivals[j], k) ==>
      var pos := HeaderIn(arrivals[j]).fragment;
      (pos - 1) * t.maxFragmentSize <= |t.data| && arrivals[j] == FragmentOf(t, pos, k.source, k.iid)
  }

  lemma SentByCarriesPieces(arrivals: seq<Arrival>, k: Key, t: Transfer)
    requires t.maxFragmentSize > 0 && t.total == |Chop(t.data, t.maxFragmentSize)|
    requires t.destination != 0 && t.id != 0 && k.id == t.id && k.total == t.total
    requires SentBy(arrivals, k, t)
    ensures CarriesPieces(arrivals, k, Chop(t.data, t.maxFragmentSize))
  {
    var parts := Chop(t.data, t.maxFragmentSize);
    forall j | 0 <= j < |arrivals| && Relevant(arrivals[j], k)
      ensures Payload(arrivals[j]) == parts[HeaderIn(arrivals[j]).fragment - 1]
    {
      FragmentIsPiece(t, HeaderIn(arrivals[j]).fragment, k.source, k.iid);
    }
  }

  lemma CountIsTotal(t: Transfer)
    requires t.maxFragmentSize > 0 && FragmentCount(|t.data|, t.maxFragmentSize) < 0x100
    requires t.total == OutgoingTotal(|t.data|, t.maxFragmentSize)
    ensures t.total == |Chop(t.data, t.maxFragmentSize)|
  {
    ChopTiles(t.data, t.maxFragmentSize);
  }

  /** A transfer cut up by one handler and put together by another, whatever else arrives in between, in
      whatever order and however often its fragments arrive: all of them, from the first one on, under a key
      that is not in use; all of them, exactly when an old transfer with the same key lets them survive. A new
      transfer has the destination and the ids of the one sent. */
  lemma TransfersCross(ts: seq<Transfer>, arrivals: seq<Arrival>, k: Key, source: nat, destination: nat,
                       iid: InterfaceId, id: byte, prevId: byte, data: seq<byte>, m: nat)
    requires Orderly(ts) && data != [] && m > 0 && FragmentCount(|data|, m) < 0x100
    requires destination != 0 && id != 0 && k.id == id && k.total == FragmentCount(|data|, m)
    requires SentBy(arrivals, k, StartOutgoing(source, destination, iid, id, prevId, data, m))
    requires var puts := Pieces(arrivals, k);
             Complete(if Lookup(ts, k) == None then SinceFirst(puts) else puts, k.total)
    ensures Healthy(Lookup(ts, k))
    ensures var was, r := Lookup(ts, k), Lookup(Run(ts, arrivals), k);
            && r.Some? && (r.value.data == data <==> was == None || Survives(was.value, data, m))
            && (was == None ==>
                  && r.value.source == k.source && r.value.destination == destination && r.value.iid == k.iid
                  && r.value.id == id && r.value.prevId == prevId)
  {
    var t := StartOutgoing(source, destination, iid, id, prevId, data, m);
    CountIsTotal(t);
    SentByCarriesPieces(arrivals, k, t);
    CompleteTransferReassembles(ts, arrivals, k, data, m);
    var r := Lookup(Run(ts, arrivals), k);
    if Lookup(ts, k) == None {
      var a :| a in arrivals && Relevant(a, k) && HeaderIn(a).fragment == 1 && IsMadeOf(r.value, a);
      var j :| 0 <= j < |arrivals| && arrivals[j] == a;
      HeaderRoundTrip(FRAGMENT, 1, t.total, id, prevId, Slice(data, m, 1));
    }
  }
}
