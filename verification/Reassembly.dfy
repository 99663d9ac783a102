/** Cutting data into fragments and putting them together in any order. */
module Reassembly {
  import opened Prelude
  import opened Transfers

  /** The data in pieces of `m` bytes, the last of which may be shorter. */
  function Chop(data: seq<byte>, m: nat): (r: seq<seq<byte>>)
    requires m > 0
    ensures data != [] ==> |r| > 0
    decreases |data|
  {
    if data == [] then []
    else if |data| <= m then [data]
    else [data[..m]] + Chop(data[m..], m)
  }

  /** All pieces but the last have `m` bytes; the last has at least one and at most `m`. */
  predicate Evenly(parts: seq<seq<byte>>, m: nat) {
    && (forall i :: 0 <= i < |parts| - 1 ==> |parts[i]| == m)
    && (parts != [] ==> 1 <= |parts[|parts| - 1]| <= m)
  }

  lemma {:induction false} ChopTiles(data: seq<byte>, m: nat)
    requires m > 0
    ensures Concat(Chop(data, m)) == data && Evenly(Chop(data, m), m)
    ensures |Chop(data, m)| == FragmentCount(|data|, m)
    decreases |data|
  {
    if |data| > m {
      ChopTiles(data[m..], m);
      assert Chop(data, m)[1..] == Chop(data[m..], m);
      CountStep(|data|, m);
    } else if data != [] {
      assert [data][1..] == [];
      CountOne(|data|, m);
    } else {
      CountZero(m);
    }
  }

  lemma CountZero(m: nat)
    requires m > 0
    ensures FragmentCount(0, m) == 0
  {
  }

  lemma CountOne(size: nat, m: nat)
    requires 0 < size <= m
    ensures FragmentCount(size, m) == 1
  {
    if size == m {
      DivIs(size, m, 1, 0);
    } else {
      DivIs(size, m, 0, size);
    }
  }

  lemma CountStep(size: nat, m: nat)
    requires 0 < m < size
    ensures FragmentCount(size, m) == FragmentCount(size - m, m) + 1
  {
    var q, r := (size - m) / m, (size - m) % m;
    assert size == (q + 1) * m + r;
    DivIs(size, m, q + 1, r);
  }

  lemma QuotientIsUnique(m: nat, q: nat, r: nat, q': nat, r': nat)
    requires q * m + r == q' * m + r' && r < m && r' < m
    ensures q == q'
  {
    if q' < q {
      assert q * m == q' * m + (q - q') * m;
      ProductAtLeast(q - q', m);
    } else if q < q' {
      assert q' * m == q * m + (q' - q) * m;
      ProductAtLeast(q' - q, m);
    }
  }

  lemma ProductAtLeast(k: nat, m: nat)
    requires k > 0
    ensures k * m >= m
  {
    assert k * m == m + (k - 1) * m;
  }

  lemma DivIs(a: nat, m: nat, q: nat, r: nat)
    requires m > 0 && a == q * m + r && r < m
    ensures a / m == q && a % m == r
  {
    assert a == a / m * m + a % m;
    QuotientIsUnique(m, q, r, a / m, a % m);
  }

  lemma {:induction false} EvenSize(parts: seq<seq<byte>>, m: nat)
    requires forall i :: 0 <= i < |parts| ==> |parts[i]| == m
    ensures |Concat(parts)| == |parts| * m
  {
    if parts != [] {
      EvenSize(parts[1..], m);
      assert |parts| * m == |parts[1..]| * m + m;
    }
  }

  lemma ConcatAround<T>(parts: seq<seq<T>>, i: nat)
    requires i < |parts|
    ensures Concat(parts) == Concat(parts[..i]) + parts[i] + Concat(parts[i + 1..])
  {
    var rest := parts[i..];
    assert parts == parts[..i] + rest;
    ConcatAppend(parts[..i], rest);
    assert rest[0] == parts[i] && rest[1..] == parts[i + 1..];
    Associate(Concat(parts[..i]), parts[i], Concat(parts[i + 1..]));
  }

  // --- the sending side ---

  /** The data of fragment `pos` as `get_fragment` copies it. */
  function Slice(data: seq<byte>, m: nat, pos: nat): (r: seq<byte>)
    requires m > 0 && 1 <= pos && (pos - 1) * m <= |data|
  {
    var start := (pos - 1) * m;
    data[start..Min(start + m, |data|)]
  }

  /** The slices that the sender computes by multiplication are the pieces that tile the data. */
  lemma SliceIsPiece(data: seq<byte>, m: nat, pos: nat)
    requires m > 0 && 1 <= pos <= |Chop(data, m)|
    ensures (pos - 1) * m <= |data| && Slice(data, m, pos) == Chop(data, m)[pos - 1]
  {
    ChopTiles(data, m);
    var parts := Chop(data, m);
    EvenSize(parts[..pos - 1], m);
    ConcatAround(parts, pos - 1);
    if pos == |parts| {
      assert parts[pos..] == [];
      assert Concat(parts[pos..]) == [];
    }
  }

  /** For every outgoing transfer, also one whose number of fragments was truncated to a byte,
      `fragment_size` is the size of the slice with that number: the full size for all but the last, which
      has at least one byte, and nothing behind it. */
  lemma OutgoingSizes(t: Transfer, m: nat, pos: byte)
    requires m > 0 && pos >= 1
    requires t == StartOutgoing(t.source, t.destination, t.iid, t.id, t.prevId, t.data, m)
    ensures Sliceable(t) && (t.data != [] && FragmentCount(|t.data|, m) < 0x100 ==> WellSized(t))
    ensures pos > t.total ==> FragmentSize(t, pos) == 0
    ensures pos <= t.total ==> (pos - 1) * m <= |t.data| && FragmentSize(t, pos) == |Slice(t.data, m, pos)|
    ensures pos < t.total ==> FragmentSize(t, pos) == m
    ensures pos == t.total ==> 1 <= FragmentSize(t, pos) <= m
  {
    OutgoingIsSized(t, m);
    if pos <= t.total {
      PieceSizes(t.data, m, pos);
      Scale(pos - 1, pos, m);
    }
  }

  lemma OutgoingIsSized(t: Transfer, m: nat)
    requires m > 0 && t == StartOutgoing(t.source, t.destination, t.iid, t.id, t.prevId, t.data, m)
    ensures Sliceable(t) && t.total <= |Chop(t.data, m)|
    ensures t.data != [] && FragmentCount(|t.data|, m) < 0x100 ==> WellSized(t)
  {
    CountIsSliceable(|t.data|, m);
    ChopTiles(t.data, m);
    if t.data != [] {
      var k := |Chop(t.data, m)| - 1;
      PieceBounds(Chop(t.data, m), m, k);
      OneMore(k, m);
    }
  }

  /** The slice with a number in range: a full one unless it is the last. */
  lemma PieceSizes(data: seq<byte>, m: nat, pos: nat)
    requires m > 0 && 1 <= pos <= |Chop(data, m)|
    ensures (pos - 1) * m <= |data| && 1 <= |Slice(data, m, pos)| <= m
    ensures pos < |Chop(data, m)| ==> |Slice(data, m, pos)| == m
  {
    SliceIsPiece(data, m, pos);
    ChopTiles(data, m);
  }

  /** An outgoing transfer covers its data, that is to say its fragments tile the data, exactly when
      the number of fragments fits a byte. */
  lemma OutgoingCoversExactlyWhen(t: Transfer, m: nat)
    requires m > 0 && t == StartOutgoing(t.source, t.destination, t.iid, t.id, t.prevId, t.data, m)
    ensures t.total <= |Chop(t.data, m)|
    ensures Concat(Chop(t.data, m)[..t.total]) == t.data <==> FragmentCount(|t.data|, m) < 0x100
    ensures t.maxFragmentSize * t.total >= |t.data| <==> FragmentCount(|t.data|, m) < 0x100
  {
    ChopTiles(t.data, m);
    CoverageOf(Chop(t.data, m), m, t.total);
  }

  /** The first `k` pieces cover everything, in bytes and in size, exactly when they are all there are. */
  lemma CoverageOf(parts: seq<seq<byte>>, m: nat, k: nat)
    requires m > 0 && Evenly(parts, m) && k == |parts| % 0x100
    ensures k <= |parts|
    ensures Concat(parts[..k]) == Concat(parts) <==> |parts| < 0x100
    ensures m * k >= |Concat(parts)| <==> |parts| < 0x100
  {
    if k == |parts| {
      assert parts[..k] == parts;
      CoversAll(parts, m);
    } else {
      CoversLess(parts, m, k);
    }
  }

  lemma CoversLess(parts: seq<seq<byte>>, m: nat, k: nat)
    requires Evenly(parts, m) && m > 0 && k < |parts|
    ensures m * k == |Concat(parts[..k])| < |Concat(parts)|
  {
    var a, b := parts[..k], parts[k..];
    assert parts == a + b;
    ConcatAppend(a, b);
    EvenSize(a, m);
    Commute(m, k);
    ConcatNonEmpty(b, m);
  }

  lemma Commute(m: nat, k: nat)
    ensures m * k == k * m
  {
  }

  lemma CoversAll(parts: seq<seq<byte>>, m: nat)
    requires Evenly(parts, m)
    ensures m * |parts| >= |Concat(parts)|
  {
    if parts != [] {
      var k := |parts| - 1;
      ConcatAround(parts, k);
      EvenSize(parts[..k], m);
      assert parts[k + 1..] == [];
      assert m * |parts| == k * m + m;
    }
  }

  lemma ConcatNonEmpty(parts: seq<seq<byte>>, m: nat)
    requires Evenly(parts, m) && m > 0 && parts != []
    ensures |Concat(parts)| > 0
  {
    assert |parts[0]| > 0;
  }

  // --- the receiving side ---

  /** The receiver's data in pieces: what arrived, and what was there before for the rest. */
  function Received(parts: seq<seq<byte>>, base: seq<seq<byte>>, arrived: set<nat>): (r: seq<seq<byte>>)
    requires |base| == |parts|
    ensures |r| == |parts|
  {
    seq(|parts|, i requires 0 <= i < |parts| => if i in arrived then parts[i] else base[i])
  }

  /** Pieces that can take the place of others: the same size, and a last one that is no longer. */
  predicate Replaces(parts: seq<seq<byte>>, base: seq<seq<byte>>, m: nat) {
    && |parts| == |base| && Evenly(parts, m) && Evenly(base, m)
    && (parts != [] ==> |parts[|parts| - 1]| <= |base[|base| - 1]|)
  }

  /** Between puts: the receiver holds exactly what has arrived, over what it held at first. */
  predicate Holds(t: Transfer, parts: seq<seq<byte>>, base: seq<seq<byte>>, arrived: set<nat>) {
    && t.purpose == Incoming && t.maxFragmentSize > 0
    && Replaces(parts, base, t.maxFragmentSize) && t.total == |parts| >= 1 && |t.status| == t.total
    && t.data == Concat(Received(parts, base, arrived))
  }

  lemma ReceivedIsEven(parts: seq<seq<byte>>, base: seq<seq<byte>>, m: nat, arrived: set<nat>)
    requires m > 0 && Replaces(parts, base, m)
    ensures Evenly(Received(parts, base, arrived), m)
  {
  }

  /** The size of everything before piece `i`, and of everything from it on. */
  lemma PieceBounds(parts: seq<seq<byte>>, m: nat, i: nat)
    requires Evenly(parts, m) && i < |parts|
    ensures |Concat(parts[..i])| == i * m
    ensures Concat(parts) == Concat(parts[..i]) + parts[i] + Concat(parts[i + 1..])
    ensures i == |parts| - 1 ==> |Concat(parts)| == i * m + |parts[i]|
    ensures i < |parts| - 1 ==> |Concat(parts)| >= i * m + m
  {
    ConcatAround(parts, i);
    EvenSize(parts[..i], m);
    if i == |parts| - 1 {
      assert parts[i + 1..] == [];
    }
  }

  lemma HoldsIsWellSized(t: Transfer, parts: seq<seq<byte>>, base: seq<seq<byte>>, arrived: set<nat>)
    requires Holds(t, parts, base, arrived)
    ensures WellSized(t)
  {
    var m, k := t.maxFragmentSize, |parts| - 1;
    var r := Received(parts, base, arrived);
    ReceivedIsEven(parts, base, m, arrived);
    PieceBounds(r, m, k);
    OneMore(k, m);
  }

  lemma OneMore(k: nat, m: nat)
    ensures (k + 1) * m == k * m + m
  {
  }

  lemma ReceivedAfter(parts: seq<seq<byte>>, base: seq<seq<byte>>, arrived: set<nat>, i: nat)
    requires i < |parts| == |base|
    ensures Received(parts, base, arrived + {i}) == Received(parts, base, arrived)[i := parts[i]]
  {
  }

  lemma ConcatUpdate<T>(parts: seq<seq<T>>, i: nat, s: seq<T>)
    requires i < |parts|
    ensures Concat(parts[i := s]) == Concat(parts[..i]) + s + Concat(parts[i + 1..])
  {
    ConcatAround(parts[i := s], i);
    assert parts[i := s][..i] == parts[..i];
    assert parts[i := s][i + 1..] == parts[i + 1..];
  }

  /** Putting piece `i`, for the first time or again, early or late, adds exactly that piece. */
  lemma PutAddsPiece(t: Transfer, parts: seq<seq<byte>>, base: seq<seq<byte>>, arrived: set<nat>, i: nat)
    requires Holds(t, parts, base, arrived) && i < |parts|
    ensures WellSized(t) && Takes(t, i + 1, parts[i])
    ensures Holds(PutFragment(t, i + 1, parts[i]), parts, base, arrived + {i})
  {
    HoldsIsWellSized(t, parts, base, arrived);
    var m := t.maxFragmentSize;
    var r := Received(parts, base, arrived);
    ReceivedIsEven(parts, base, m, arrived);
    PieceBounds(r, m, i);
    ReceivedAfter(parts, base, arrived, i);
    ConcatUpdate(r, i, parts[i]);
    var before, after := Concat(r[..i]), Concat(r[i + 1..]);
    assert t.data == before + r[i] + after;
    assert DataBegin(t, i + 1) == |before|;
    if i == |parts| - 1 {
      assert r[i + 1..] == [];
      assert after == [];
      PutLast(t, before, r[i], parts[i]);
    } else {
      PutMiddle(t, before, r[i], after, parts[i], i + 1);
    }
  }

  lemma PutMiddle(t: Transfer, before: seq<byte>, was: seq<byte>, after: seq<byte>, f: seq<byte>, pos: byte)
    requires WellSized(t) && t.purpose == Incoming && 1 <= pos < t.total
    requires t.data == before + was + after && DataBegin(t, pos) == |before|
    requires |was| == |f| == t.maxFragmentSize
    ensures Takes(t, pos, f) && PutFragment(t, pos, f).data == before + f + after
  {
    DataBeginFits(t, pos);
    assert t.data[..|before|] == before && t.data[|before| + |f|..] == after;
  }

  lemma PutLast(t: Transfer, before: seq<byte>, was: seq<byte>, f: seq<byte>)
    requires WellSized(t) && t.purpose == Incoming
    requires t.data == before + was && DataBegin(t, t.total) == |before|
    requires 1 <= |f| <= |was| <= t.maxFragmentSize
    ensures Takes(t, t.total, f) && PutFragment(t, t.total, f).data == before + f
  {
    DataBeginFits(t, t.total);
    LastEndsData(t);
    assert t.data[..|before|] == before;
  }

  predicate Within(parts: seq<seq<byte>>, puts: seq<nat>) {
    |parts| < 0x100 && forall i :: 0 <= i < |puts| ==> puts[i] < |parts|
  }

  function PutAll(t: Transfer, parts: seq<seq<byte>>, puts: seq<nat>): Transfer
    requires WellSized(t) && Within(parts, puts)
    decreases |puts|
  {
    if puts == [] then t
    else
      PutKeepsWellSized(t, puts[0] + 1, parts[puts[0]]);
      PutAll(PutFragment(t, puts[0] + 1, parts[puts[0]]), parts, puts[1..])
  }

  lemma PutAllCons(t: Transfer, parts: seq<seq<byte>>, i: nat, rest: seq<nat>)
    requires WellSized(t) && Within(parts, [i] + rest)
    ensures Within(parts, rest) && i < |parts| < 0x100 && WellSized(PutFragment(t, i + 1, parts[i]))
    ensures PutAll(t, parts, [i] + rest) == PutAll(PutFragment(t, i + 1, parts[i]), parts, rest)
  {
    var puts := [i] + rest;
    assert puts[0] == i && puts[1..] == rest;
    forall j | 0 <= j < |rest| ensures rest[j] < |parts| {
      assert rest[j] == puts[j + 1];
    }
    PutKeepsWellSized(t, i + 1, parts[i]);
  }

  lemma {:induction false} PutsAddPieces(t: Transfer, parts: seq<seq<byte>>, base: seq<seq<byte>>,
                                         arrived: set<nat>, puts: seq<nat>)
    requires Holds(t, parts, base, arrived) && Within(parts, puts)
    ensures WellSized(t) && Holds(PutAll(t, parts, puts), parts, base, arrived + SetOf(puts))
    decreases |puts|
  {
    HoldsIsWellSized(t, parts, base, arrived);
    if puts == [] {
      assert arrived + SetOf(puts) == arrived;
    } else {
      PutAddsPiece(t, parts, base, arrived, puts[0]);
      PutsAddPieces(PutFragment(t, puts[0] + 1, parts[puts[0]]), parts, base, arrived + {puts[0]}, puts[1..]);
      SetOfCons(puts);
      assert arrived + {puts[0]} + SetOf(puts[1..]) == arrived + SetOf(puts);
    }
  }

  /** What a receiver assumes before anything has arrived. */
  function Blank(n: nat, m: nat): (r: seq<seq<byte>>)
    ensures |r| == n
  {
    seq(n, i => Zeros(m))
  }

  /** A receiver built from the first piece holds just that piece. */
  lemma StartHoldsFirst(t: Transfer, h: Header, parts: seq<seq<byte>>, m: nat)
    requires 1 <= |parts| == h.total && m > 0 && Evenly(parts, m)
    requires t == StartIncoming(t.source, t.destination, t.iid, h, parts[0])
    ensures Holds(t, parts, Blank(|parts|, |parts[0]|), {0})
  {
    var first := |parts[0]|;
    var r := Received(parts, Blank(|parts|, first), {0});
    var rest := r[1..];
    forall i | 0 <= i < |rest| ensures rest[i] == Zeros(first) {}
    ZerosConcat(rest, first);
    assert r[0] == parts[0];
    assert Evenly(parts, first);
  }

  lemma {:induction false} ZerosConcat(parts: seq<seq<byte>>, m: nat)
    requires forall i :: 0 <= i < |parts| ==> parts[i] == Zeros(m)
    ensures Concat(parts) == Zeros(|parts| * m)
  {
    if parts != [] {
      ZerosConcat(parts[1..], m);
      assert |parts| * m == m + |parts[1..]| * m;
    }
  }

  lemma EqualHeads(a: seq<seq<byte>>, b: seq<seq<byte>>)
    requires a != [] && b != [] && |a[0]| == |b[0]| && Concat(a) == Concat(b)
    ensures a[0] == b[0] && Concat(a[1..]) == Concat(b[1..])
  {
    Halves(a[0], Concat(a[1..]));
    Halves(b[0], Concat(b[1..]));
  }

  /** Pieces of one size are determined by what they make up. */
  lemma {:induction false} EqualPieces(a: seq<seq<byte>>, b: seq<seq<byte>>, m: nat)
    requires |a| == |b| && Evenly(a, m) && Evenly(b, m) && Concat(a) == Concat(b)
    ensures a == b
    decreases |a|
  {
    if |a| == 1 {
      ConcatOne(a);
      ConcatOne(b);
    } else if |a| > 1 {
      EvenTail(a, m);
      EvenTail(b, m);
      EqualHeads(a, b);
      EqualPieces(a[1..], b[1..], m);
      assert a == [a[0]] + a[1..] && b == [b[0]] + b[1..];
    }
  }

  lemma ConcatOne(a: seq<seq<byte>>)
    requires |a| == 1
    ensures Concat(a) == a[0]
  {
    assert a[1..] == [];
  }

  lemma EvenTail(a: seq<seq<byte>>, m: nat)
    requires |a| > 1 && Evenly(a, m)
    ensures Evenly(a[1..], m) && |a[0]| == m
  {
  }

  /** What the pieces received so far have in common with those sent. */
  lemma ReceivedIsAllExactlyWhen(parts: seq<seq<byte>>, base: seq<seq<byte>>, m: nat, arrived: set<nat>)
    requires m > 0 && Replaces(parts, base, m)
    ensures Concat(Received(parts, base, arrived)) == Concat(parts) <==>
            forall i :: 0 <= i < |parts| && i !in arrived ==> parts[i] == base[i]
  {
    var r := Received(parts, base, arrived);
    ReceivedIsEven(parts, base, m, arrived);
    if Concat(r) == Concat(parts) {
      EqualPieces(r, parts, m);
      forall i | 0 <= i < |parts| && i !in arrived ensures parts[i] == base[i] {
        assert r[i] == base[i];
      }
    } else {
      assert r != parts;
    }
  }

  /** Reassembly, for every data, fragment size, order and duplication: after any puts the receiver
      holds the original data exactly when each piece that has not arrived consists of as many zeros
      as the receiver assumed for it; in particular when every piece has arrived. */
  lemma ReassemblesExactlyWhen(t: Transfer, h: Header, data: seq<byte>, m: nat, puts: seq<nat>)
    requires data != [] && m > 0 && h.total == FragmentCount(|data|, m)
    requires t == StartIncoming(t.source, t.destination, t.iid, h, Slice(data, m, 1))
    requires forall i :: 0 <= i < |puts| ==> puts[i] < h.total
    ensures |Chop(data, m)| == h.total && Within(Chop(data, m), puts) && WellSized(t)
    ensures PutAll(t, Chop(data, m), puts).data == data <==>
            forall i: nat :: i < h.total && i !in {0} + SetOf(puts) ==> Chop(data, m)[i] == Zeros(|Slice(data, m, 1)|)
  {
    ChopTiles(data, m);
    var parts := Chop(data, m);
    SliceIsPiece(data, m, 1);
    StartHoldsFirst(t, h, parts, m);
    var base, arrived := Blank(|parts|, |parts[0]|), {0} + SetOf(puts);
    PutsAddPieces(t, parts, base, {0}, puts);
    PutAllKeepsSize(t, parts, puts);
    ReceivedIsAllExactlyWhen(parts, base, t.maxFragmentSize, arrived);
  }

  // --- over an old transfer ---

  /** What an incoming transfer holds, in pieces, if it holds anything of the last one. */
  lemma OldPieces(t: Transfer)
    requires WellSized(t) && FragmentSize(t, t.total) > 0
    ensures var base := Chop(t.data, t.maxFragmentSize);
            && |base| == t.total && Evenly(base, t.maxFragmentSize) && Concat(base) == t.data
            && |base[t.total - 1]| == FragmentSize(t, t.total)
  {
    var m, n, last := t.maxFragmentSize, t.total, FragmentSize(t, t.total);
    var base := Chop(t.data, m);
    DataBeginFits(t, n);
    LastEndsData(t);
    ChopTiles(t.data, m);
    if last == m {
      Scale(n - 1, n, m);
      DivIs(|t.data|, m, n, 0);
    } else {
      DivIs(|t.data|, m, n - 1, last);
    }
    PieceBounds(base, m, n - 1);
  }

  /** When the pieces have the old size and the last one fits into the old one, new data put over an old
      transfer replaces it piece by piece: the new data is there exactly when each piece that has not
      arrived is what the old transfer held in its place. */
  lemma OverwritesExactlyWhen(t: Transfer, parts: seq<seq<byte>>, m: nat, puts: seq<nat>)
    requires t.purpose == Incoming && WellSized(t) && t.total == |parts| && Evenly(parts, m) && Within(parts, puts)
    requires |parts| == 1 || m == t.maxFragmentSize
    requires |parts[|parts| - 1]| <= FragmentSize(t, t.total)
    ensures |Chop(t.data, t.maxFragmentSize)| == |parts|
    ensures PutAll(t, parts, puts).data == Concat(parts) <==>
            forall i :: 0 <= i < |parts| && i !in SetOf(puts) ==> parts[i] == Chop(t.data, t.maxFragmentSize)[i]
  {
    var base := Chop(t.data, t.maxFragmentSize);
    OldPieces(t);
    assert Received(parts, base, {}) == base;
    PutsAddPieces(t, parts, base, {}, puts);
    PutAllKeepsSize(t, parts, puts);
    assert {} + SetOf(puts) == SetOf(puts);
    ReceivedIsAllExactlyWhen(parts, base, t.maxFragmentSize, SetOf(puts));
  }

  /** The size after any puts: it is the last piece alone that can change it, and only if it fits. */
  lemma {:induction false} PutAllSize(t: Transfer, parts: seq<seq<byte>>, puts: seq<nat>)
    requires t.purpose == Incoming && WellSized(t) && t.total == |parts| && Within(parts, puts)
    requires forall i :: 0 <= i < |parts| ==> parts[i] != []
    ensures var k, room := t.total - 1, FragmentSize(t, t.total);
            |PutAll(t, parts, puts).data| ==
            |t.data| + if k in puts && |parts[k]| <= room then |parts[k]| - room else 0
    decreases |puts|
  {
    if puts != [] {
      var i, rest := puts[0], puts[1..];
      assert puts == [i] + rest;
      assert t.total - 1 in puts <==> i == t.total - 1 || t.total - 1 in rest;
      PutSize(t, i + 1, parts[i]);
      PutAllCons(t, parts, i, rest);
      PutAllSize(PutFragment(t, i + 1, parts[i]), parts, rest);
    }
  }

  lemma PutSize(t: Transfer, pos: byte, f: seq<byte>)
    requires t.purpose == Incoming && WellSized(t) && 1 <= pos <= t.total && f != []
    ensures var r := PutFragment(t, pos, f);
            && WellSized(r) && r.purpose == Incoming && r.total == t.total && r.maxFragmentSize == t.maxFragmentSize
            && var room := FragmentSize(t, t.total);
            && |r.data| == |t.data| + (if pos == t.total && |f| <= room then |f| - room else 0)
            && FragmentSize(r, t.total) == room + |r.data| - |t.data|
            && room == |t.data| - DataBegin(t, t.total)
  {
    PutKeepsWellSized(t, pos, f);
    DataBeginFits(t, pos);
    DataBeginFits(t, t.total);
    LastEndsData(t);
    LastEndsData(PutFragment(t, pos, f));
  }

  /** Byte `j` after puts of the pieces in `arrived` into an incoming transfer that held `was`, with room for
      `m` bytes in each piece but the last and for `room` bytes in that one: from the piece that lies there if
      it has arrived, fits and is long enough, and the old byte otherwise. */
  function ByteAfter(was: seq<byte>, m: nat, room: nat, parts: seq<seq<byte>>, arrived: set<nat>, j: nat): byte
    requires m > 0 && j < |was|
  {
    var i, k := j / m, j % m;
    if i in arrived && i < |parts| && |parts[i]| <= (if i == |parts| - 1 then room else m) && k < |parts[i]|
    then parts[i][k]
    else was[j]
  }

  /** What lies in piece `i`. */
  lemma InPiece(j: nat, i: nat, m: nat, n: nat)
    requires m > 0 && n <= m
    ensures i * m <= j < i * m + n <==> j / m == i && j % m < n
    ensures j / m == i ==> j == i * m + j % m
  {
    assert j == j / m * m + j % m;
    if i * m <= j < i * m + n {
      DivIs(j, m, i, j - i * m);
    }
  }

  /** One put, byte by byte. */
  lemma PutByte(t: Transfer, parts: seq<seq<byte>>, i: nat, j: nat)
    requires t.purpose == Incoming && WellSized(t) && t.total == |parts| && i < |parts| && parts[i] != []
    requires j < |PutFragment(t, i + 1, parts[i]).data|
    ensures j < |t.data| && PutFragment(t, i + 1, parts[i]).data[j] ==
            ByteAfter(t.data, t.maxFragmentSize, FragmentSize(t, t.total), parts, {i}, j)
  {
    var pos, f, m := i + 1, parts[i], t.maxFragmentSize;
    PutSize(t, pos, f);
    DataBeginFits(t, pos);
    LastEndsData(t);
    InPiece(j, i, m, Min(|f|, m));
    if Takes(t, pos, f) {
      var start := DataBegin(t, pos);
      assert start == i * m;
      var written := t.data[..start] + f + t.data[start + |f|..];
      assert |written| == |t.data|;
      assert PutFragment(t, pos, f).data[j] == written[j];
    }
  }

  /** Later puts see the same room for the pieces, or exactly as much as the last piece needs. */
  lemma LaterPuts(t: Transfer, r: Transfer, parts: seq<seq<byte>>, i: nat, rest: set<nat>, j: nat)
    requires WellSized(t) && WellSized(r) && t.total == r.total == |parts| && i < |parts|
    requires t.maxFragmentSize == r.maxFragmentSize && j < |r.data| && j < |t.data|
    requires var room, last := FragmentSize(t, t.total), |parts[|parts| - 1]|;
             FragmentSize(r, t.total) == if i == |parts| - 1 && last <= room then last else room
    requires r.data[j] == ByteAfter(t.data, t.maxFragmentSize, FragmentSize(t, t.total), parts, {i}, j)
    ensures ByteAfter(r.data, t.maxFragmentSize, FragmentSize(r, t.total), parts, rest, j) ==
            ByteAfter(t.data, t.maxFragmentSize, FragmentSize(t, t.total), parts, {i} + rest, j)
  {
  }

  /** Any puts into an incoming transfer, byte by byte, whatever the sizes of the pieces. */
  lemma {:induction false} PutAllBytes(t: Transfer, parts: seq<seq<byte>>, puts: seq<nat>, j: nat)
    requires t.purpose == Incoming && WellSized(t) && t.total == |parts| && Within(parts, puts)
    requires forall i :: 0 <= i < |parts| ==> parts[i] != []
    requires j < |PutAll(t, parts, puts).data|
    ensures j < |t.data| && PutAll(t, parts, puts).data[j] ==
            ByteAfter(t.data, t.maxFragmentSize, FragmentSize(t, t.total), parts, SetOf(puts), j)
    decreases |puts|
  {
    if puts != [] {
      var i, rest := puts[0], puts[1..];
      var r := PutFragment(t, i + 1, parts[i]);
      assert puts == [i] + rest;
      PutSize(t, i + 1, parts[i]);
      PutAllCons(t, parts, i, rest);
      PutAllBytes(r, parts, rest, j);
      PutByte(t, parts, i, j);
      SetOfCons(puts);
      LaterPuts(t, r, parts, i, SetOf(rest), j);
    }
  }

  /** How long the data is after that. */
  function SizeAfter(size: nat, room: nat, parts: seq<seq<byte>>, arrived: set<nat>): int
    requires parts != []
  {
    var k := |parts| - 1;
    size + if k in arrived && |parts[k]| <= room then |parts[k]| - room else 0
  }

  /** The incoming transfer `t` and the pieces that have arrived make up `data`, byte for byte. */
  predicate MakesUp(t: Transfer, parts: seq<seq<byte>>, arrived: set<nat>, data: seq<byte>)
    requires WellSized(t) && parts != []
  {
    var room := FragmentSize(t, t.total);
    && |data| == SizeAfter(|t.data|, room, parts, arrived)
    && forall j :: 0 <= j < |data| ==>
         j < |t.data| && ByteAfter(t.data, t.maxFragmentSize, room, parts, arrived, j) == data[j]
  }

  /** What any puts make of an incoming transfer, for pieces of any sizes: `data` exactly when what the
      transfer held and the pieces that have arrived make it up. */
  lemma PutsMakeExactlyWhen(t: Transfer, parts: seq<seq<byte>>, puts: seq<nat>, data: seq<byte>)
    requires t.purpose == Incoming && WellSized(t) && t.total == |parts| && Within(parts, puts)
    requires forall i :: 0 <= i < |parts| ==> parts[i] != []
    ensures PutAll(t, parts, puts).data == data <==> MakesUp(t, parts, SetOf(puts), data)
  {
    PutsMakeUp(t, parts, puts);
    if MakesUp(t, parts, SetOf(puts), data) {
      OnlyOneIsMadeUp(t, parts, SetOf(puts), PutAll(t, parts, puts).data, data);
    }
  }

  lemma PutsMakeUp(t: Transfer, parts: seq<seq<byte>>, puts: seq<nat>)
    requires t.purpose == Incoming && WellSized(t) && t.total == |parts| && Within(parts, puts)
    requires forall i :: 0 <= i < |parts| ==> parts[i] != []
    ensures MakesUp(t, parts, SetOf(puts), PutAll(t, parts, puts).data)
  {
    var r, room := PutAll(t, parts, puts).data, FragmentSize(t, t.total);
    PutAllSize(t, parts, puts);
    forall j | 0 <= j < |r|
      ensures j < |t.data| && ByteAfter(t.data, t.maxFragmentSize, room, parts, SetOf(puts), j) == r[j]
    {
      PutAllBytes(t, parts, puts, j);
    }
  }

  lemma OnlyOneIsMadeUp(t: Transfer, parts: seq<seq<byte>>, arrived: set<nat>, a: seq<byte>, b: seq<byte>)
    requires WellSized(t) && parts != [] && MakesUp(t, parts, arrived, a) && MakesUp(t, parts, arrived, b)
    ensures a == b
  {
  }

  lemma LastPieceSize(data: seq<byte>, m: nat, n: nat)
    requires data != [] && m > 0 && n == |Chop(data, m)|
    ensures n > 0 && |Chop(data, m)[n - 1]| == |data| - (n - 1) * m
  {
    ChopTiles(data, m);
    PieceBounds(Chop(data, m), m, n - 1);
  }

  /** When the pieces have another size, or the last one does not fit, but not both, new data is never put
      together over an old transfer; if the last one fits, that takes it to have arrived. */
  lemma NeverOverwrites(t: Transfer, parts: seq<seq<byte>>, m: nat, puts: seq<nat>)
    requires t.purpose == Incoming && WellSized(t) && t.total == |parts| && Evenly(parts, m) && Within(parts, puts)
    requires var fits := |parts[|parts| - 1]| <= FragmentSize(t, t.total);
             m > 0 && (|parts| == 1 || m == t.maxFragmentSize) != fits && (fits ==> |parts| - 1 in puts)
    ensures PutAll(t, parts, puts).data != Concat(parts)
  {
    var k := |parts| - 1;
    PutAllSize(t, parts, puts);
    PieceBounds(parts, m, k);
    PutSize(t, t.total, parts[k]);
    if |parts| > 1 && m != t.maxFragmentSize {
      SizesDiffer(k, m, t.maxFragmentSize);
    }
  }

  /** Whether new data comes out right once all its pieces of `m` bytes have been put over the old transfer
      `t`. If the last piece fits into the old end, the pieces must have the old size. If it does not, the old
      data must have been as long, and with the pieces that are taken it must make up the new by accident. */
  predicate Survives(t: Transfer, data: seq<byte>, m: nat)
    requires WellSized(t) && data != [] && m > 0
  {
    if |data| - (t.total - 1) * m <= FragmentSize(t, t.total) then t.total == 1 || m == t.maxFragmentSize
    else MakesUp(t, Chop(data, m), Range(0, t.total), data)
  }

  /** In the second case the sizes agree, and the pieces have another size. */
  lemma AccidentNeedsOtherSize(t: Transfer, data: seq<byte>, m: nat)
    requires WellSized(t) && data != [] && m > 0 && t.total == |Chop(data, m)|
    requires |data| - (t.total - 1) * m > FragmentSize(t, t.total) && Survives(t, data, m)
    ensures |t.data| == |data| && t.total > 1 && m != t.maxFragmentSize
  {
    var parts := Chop(data, m);
    ChopTiles(data, m);
    PieceBounds(parts, m, t.total - 1);
    DataBeginFits(t, t.total);
    LastEndsData(t);
  }

  /** The exact condition, for every old transfer, data and piece size, all pieces having been put. */
  lemma OverwrittenExactlyWhen(t: Transfer, data: seq<byte>, m: nat, puts: seq<nat>)
    requires t.purpose == Incoming && WellSized(t) && data != [] && m > 0 && t.total == |Chop(data, m)|
    requires Within(Chop(data, m), puts) && SetOf(puts) == Range(0, t.total)
    ensures PutAll(t, Chop(data, m), puts).data == data <==> Survives(t, data, m)
  {
    var parts, k := Chop(data, m), t.total - 1;
    ChopTiles(data, m);
    LastPieceSize(data, m, t.total);
    assert k in SetOf(puts);
    if |parts[k]| > FragmentSize(t, t.total) {
      PutsMakeExactlyWhen(t, parts, puts, data);
    } else if t.total == 1 || m == t.maxFragmentSize {
      OverwritesExactlyWhen(t, parts, m, puts);
    } else {
      NeverOverwrites(t, parts, m, puts);
    }
  }

  lemma SizesDiffer(k: nat, a: nat, b: nat)
    requires k > 0 && a != b
    ensures k * a != k * b
  {
    if a < b {
      assert k * b == k * a + k * (b - a);
      ProductAtLeast(k, b - a);
    } else {
      assert k * a == k * b + k * (a - b);
      ProductAtLeast(k, a - b);
    }
  }

  /** Puts change the data, the counters and the current fragment only. */
  lemma {:induction false} PutAllKeepsFields(t: Transfer, parts: seq<seq<byte>>, puts: seq<nat>)
    requires WellSized(t) && Within(parts, puts)
    ensures var r := PutAll(t, parts, puts);
            r == t.(data := r.data, status := r.status, current := r.current)
    decreases |puts|
  {
    if puts != [] {
      PutKeepsWellSized(t, puts[0] + 1, parts[puts[0]]);
      PutAllKeepsFields(PutFragment(t, puts[0] + 1, parts[puts[0]]), parts, puts[1..]);
    }
  }

  lemma {:induction false} PutAllKeepsSize(t: Transfer, parts: seq<seq<byte>>, puts: seq<nat>)
    requires WellSized(t) && Within(parts, puts)
    ensures PutAll(t, parts, puts).maxFragmentSize == t.maxFragmentSize
    decreases |puts|
  {
    if puts != [] {
      PutKeepsWellSized(t, puts[0] + 1, parts[puts[0]]);
      PutAllKeepsSize(PutFragment(t, puts[0] + 1, parts[puts[0]]), parts, puts[1..]);
    }
  }
}
