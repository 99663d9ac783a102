/** Transfers that are cut into fragments and put together again, as values. */
module Transfers {
  import opened Prelude
  import opened IdFactory

  datatype Purpose = Outgoing | Incoming

  datatype Phase = New | Sent | Next | Waiting | Retry

  /** `maxFragmentSize` and `total` are the largest fragment data size and the number of fragments;
      `status[i]` counts how often fragment `i + 1` was put. */
  datatype Transfer = Transfer(
    source: nat, destination: nat, iid: InterfaceId, id: byte, prevId: byte,
    data: seq<byte>, maxFragmentSize: nat, total: byte, current: byte, status: seq<nat>,
    phase: Phase, purpose: Purpose)

  /** The fragmentation header. */
  datatype Header = Header(kind: byte, fragment: byte, total: byte, id: byte, prevId: byte, status: byte, check: byte)

  const HEADER_SIZE := 7
  const FRAGMENT: byte := 1
  const FRAGMENT_ACK: byte := 2
  const FRAGMENT_REQ: byte := 3

  function Sum(h: Header): byte {
    Low8(h.kind + h.fragment + h.total + h.id + h.prevId + h.status)
  }

  predicate HeaderValid(h: Header) {
    h.check == Sum(h) && h.fragment != 0 && h.total != 0 && h.fragment <= h.total && h.id != 0
  }

  function HeaderAt(s: seq<byte>): Header
    requires |s| >= HEADER_SIZE
  {
    Header(s[0], s[1], s[2], s[3], s[4], s[5], s[6])
  }

  function MakeHeader(kind: byte, fragment: byte, total: byte, id: byte, prevId: byte): Header {
    Header(kind, fragment, total, id, prevId, 0, Low8(kind + fragment + total + id + prevId))
  }

  /** A header made for a fragment of a transfer is read back as it was made, and is valid exactly when
      the fragment number is in range and the id is set. */
  lemma HeaderRoundTrip(kind: byte, fragment: byte, total: byte, id: byte, prevId: byte, rest: seq<byte>)
    ensures var h := MakeHeader(kind, fragment, total, id, prevId);
            && HeaderAt(HeaderBytes(h) + rest) == h && (HeaderBytes(h) + rest)[HEADER_SIZE..] == rest
            && (HeaderValid(h) <==> 1 <= fragment <= total && id != 0)
  {
    var h := MakeHeader(kind, fragment, total, id, prevId);
    assert (HeaderBytes(h) + rest)[HEADER_SIZE..] == rest;
  }

  function HeaderBytes(h: Header): (r: seq<byte>)
    ensures |r| == HEADER_SIZE
  {
    [h.kind, h.fragment, h.total, h.id, h.prevId, h.status, h.check]
  }

  // --- receiving ---

  /** The receive constructor: assumes the largest size that the first fragment allows. */
  function StartIncoming(source: nat, destination: nat, iid: InterfaceId, h: Header, first: seq<byte>): Transfer
    requires h.total >= 1
  {
    Transfer(source, destination, iid, h.id, h.prevId, first + Zeros((h.total - 1) * |first|), |first|,
             h.total, 0, seq(h.total, i => 0), Next, Incoming)
  }

  /** The data is long enough for all fragments but the last, and no longer than all of them. */
  predicate WellSized(t: Transfer) {
    && t.maxFragmentSize > 0 && |t.status| == t.total
    && t.total >= 1 && (t.total - 1) * t.maxFragmentSize <= |t.data| <= t.total * t.maxFragmentSize
  }

  /** All that `fragment_size` needs: no fragment but the last can reach behind the data. */
  predicate Sliceable(t: Transfer) {
    t.total >= 1 ==> (t.total - 1) * t.maxFragmentSize <= |t.data|
  }

  function DataBegin(t: Transfer, pos: byte): nat
    requires pos >= 1
  {
    (pos - 1) * t.maxFragmentSize
  }

  /** `b` pieces are `a` pieces and the rest. */
  lemma Scale(a: nat, b: nat, m: nat)
    requires a <= b
    ensures b * m == a * m + (b - a) * m && a * m <= b * m
  {
  }

  lemma DataBeginFits(t: Transfer, pos: byte)
    requires Sliceable(t) && 1 <= pos <= t.total
    ensures DataBegin(t, pos) <= |t.data|
    ensures pos < t.total ==> DataBegin(t, pos) + t.maxFragmentSize <= |t.data|
  {
    var m := t.maxFragmentSize;
    Scale(pos - 1, t.total - 1, m);
    if pos < t.total {
      Scale(pos - 1, pos, m);
      Scale(pos, t.total - 1, m);
    }
  }

  lemma LastEndsData(t: Transfer)
    requires WellSized(t)
    ensures |t.data| <= DataBegin(t, t.total) + t.maxFragmentSize
  {
    Scale(t.total - 1, t.total, t.maxFragmentSize);
  }

  function FragmentSize(t: Transfer, pos: byte): nat
    requires Sliceable(t) && pos >= 1
  {
    if pos > t.total then 0
    else
      DataBeginFits(t, pos);
      var start := DataBegin(t, pos);
      Min(start + t.maxFragmentSize, |t.data|) - start
  }

  /** Whether `put_fragment` takes the fragment. */
  predicate Takes(t: Transfer, pos: byte, f: seq<byte>)
    requires WellSized(t) && pos >= 1
  {
    t.purpose == Incoming && FragmentSize(t, pos) != 0 && |f| <= FragmentSize(t, pos)
  }

  function PutFragment(t: Transfer, pos: byte, f: seq<byte>): Transfer
    requires WellSized(t) && pos >= 1
  {
    if !Takes(t, pos, f) then t
    else
      DataBeginFits(t, pos);
      var start, size := DataBegin(t, pos), FragmentSize(t, pos);
      var written := t.data[..start] + f + t.data[start + |f|..];
      t.(data := if pos == t.total then written[..|written| - (size - |f|)] else written,
         status := t.status[pos - 1 := t.status[pos - 1] + 1],
         current := pos)
  }

  /** The size bounds are kept by every put, whatever its size and position. */
  lemma PutKeepsWellSized(t: Transfer, pos: byte, f: seq<byte>)
    requires WellSized(t) && pos >= 1
    ensures WellSized(PutFragment(t, pos, f))
    ensures t.purpose == Outgoing ==> PutFragment(t, pos, f) == t
  {
    if Takes(t, pos, f) {
      DataBeginFits(t, pos);
      LastEndsData(t);
    }
  }

  // --- sending ---

  /** The number of fragments before it is truncated to a byte. */
  function FragmentCount(size: nat, m: nat): nat
    requires m > 0
  {
    size / m + (if size % m == 0 then 0 else 1)
  }

  function OutgoingTotal(size: nat, m: nat): byte
    requires m > 0
  {
    Low8(FragmentCount(size, m))
  }

  lemma CountIsSliceable(size: nat, m: nat)
    requires m > 0
    ensures var total := OutgoingTotal(size, m); total >= 1 ==> (total - 1) * m <= size
  {
    var count := FragmentCount(size, m);
    assert size == size / m * m + size % m;
    if Low8(count) >= 1 {
      Scale(Low8(count) - 1, count - 1, m);
      if size % m == 0 {
        Scale(count - 1, count, m);
      }
    }
  }

  /** The transmit constructor. */
  function StartOutgoing(source: nat, destination: nat, iid: InterfaceId, id: byte, prevId: byte,
                         data: seq<byte>, m: nat): Transfer
    requires m > 0
  {
    var total := OutgoingTotal(|data|, m);
    Transfer(source, destination, iid, id, prevId, data, m, total, 0, seq(total, i => 0), New, Outgoing)
  }

  /** However its number of fragments is truncated, an outgoing transfer can be sliced. */
  lemma OutgoingIsSliceable(source: nat, destination: nat, iid: InterfaceId, id: byte, prevId: byte,
                            data: seq<byte>, m: nat)
    requires m > 0
    ensures Sliceable(StartOutgoing(source, destination, iid, id, prevId, data, m))
  {
    CountIsSliceable(|data|, m);
  }

  /** What an outgoing transfer starts with: what it was given, the low byte of the number of fragments that it
      takes, and nothing sent. */
  lemma OutgoingStarts(source: nat, destination: nat, iid: InterfaceId, id: byte, prevId: byte,
                       data: seq<byte>, m: nat)
    requires m > 0
    ensures var t := StartOutgoing(source, destination, iid, id, prevId, data, m);
            && t.source == source && t.destination == destination && t.iid == iid && t.id == id && t.prevId == prevId
            && t.data == data && t.maxFragmentSize == m && t.purpose == Outgoing && t.phase == New && t.current == 0
            && t.total == (if |data| % m == 0 then |data| / m else |data| / m + 1) % 0x100
            && |t.status| == t.total && (forall i :: 0 <= i < |t.status| ==> t.status[i] == 0)
            && forall pos: byte :: RetransmitRequest(t, pos) == t
  {
  }

  /** Records a retransmit request, which makes sense only after the last fragment was sent. */
  function RetransmitRequest(t: Transfer, pos: byte): Transfer {
    if t.phase != Sent || t.current != t.total || pos > t.total then t
    else t.(phase := Retry, current := pos)
  }
}
