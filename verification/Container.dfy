/** The over-allocating byte container. A `Layout` is the container's memory as a value:
    the whole allocation, where the exposed bytes start and how many there are. Each method
    of `Bytes` is specified by the function on layouts that it computes; what the container
    promises its callers is proved about those functions. */
module Container {
  import opened Prelude

  datatype Layout = Layout(alloc: seq<byte>, offset: nat, length: nat)

  predicate Fits(l: Layout) {
    l.offset + l.length <= |l.alloc|
  }

  function CapacityBack(l: Layout): nat
    requires Fits(l)
  {
    |l.alloc| - l.offset - l.length
  }

  /** The bytes a user of the container sees. */
  function Exposed(l: Layout): seq<byte>
    requires Fits(l)
  {
    l.alloc[l.offset..l.offset + l.length]
  }

  /** Every allocated byte that is not exposed is zero. */
  predicate HiddenZero(l: Layout)
    requires Fits(l)
  {
    && (forall i :: 0 <= i < l.offset ==> l.alloc[i] == 0)
    && (forall i :: l.offset + l.length <= i < |l.alloc| ==> l.alloc[i] == 0)
  }

  predicate Sound(l: Layout) {
    Fits(l) && HiddenZero(l)
  }

  predicate HasMargin(l: Layout, front: nat, back: nat)
    requires Fits(l)
  {
    l.offset >= front && CapacityBack(l) >= back
  }

  function Fresh(front: nat, length: nat, back: nat): Layout {
    Layout(Zeros(front + length + back), front, length)
  }

  function Reserve(l: Layout, front: nat, back: nat): Layout
    requires Fits(l)
  {
    if HasMargin(l, front, back) then l
    else Layout(Zeros(front) + Exposed(l) + Zeros(back), front, l.length)
  }

  function Expand(l: Layout, front: nat, back: nat): Layout
    requires Fits(l)
  {
    var r := Reserve(l, front, back);
    Layout(r.alloc, r.offset - front, r.length + front + back)
  }

  /** Writes `value` to the positions `from..to` of `s`. */
  function Fill(s: seq<byte>, from: nat, to: nat, value: byte): (r: seq<byte>)
    requires from <= to <= |s|
    ensures |r| == |s|
  {
    seq(|s|, i requires 0 <= i < |s| => if from <= i < to then value else s[i])
  }

  /** The exposed positions that `Set(start, count, _)` reaches before the range check stops it. */
  function SetEnd(length: nat, start: nat, count: nat): (e: nat) {
    if start >= length then start else Min(start + count, length)
  }

  function Set(l: Layout, start: nat, count: nat, value: byte): Layout
    requires Fits(l)
  {
    if start >= l.length then l
    else l.(alloc := Fill(l.alloc, l.offset + start, l.offset + SetEnd(l.length, start, count), value))
  }

  /** Zeroes the last `n` exposed bytes, then hides them. */
  function HideBack(l: Layout, n: nat): Layout
    requires Fits(l) && n <= l.length
  {
    Set(l, l.length - n, n, 0).(length := l.length - n)
  }

  /** Zeroes the first `n` exposed bytes, then hides them. */
  function HideFront(l: Layout, n: nat): Layout
    requires Fits(l) && n <= l.length
  {
    Layout(Set(l, 0, n, 0).alloc, l.offset + n, l.length - n)
  }

  function Shrink(l: Layout, front: nat, back: nat): Layout
    requires Fits(l)
  {
    if l.length < front + back then Set(l, 0, l.length, 0).(length := 0)
    else HideFront(HideBack(l, back), front)
  }

  /** Writes `s` over the positions of `a` from `from` on. */
  function Overwrite(a: seq<byte>, from: nat, s: seq<byte>): (r: seq<byte>)
    requires from + |s| <= |a|
    ensures |r| == |a|
  {
    seq(|a|, i requires 0 <= i < |a| => if from <= i < from + |s| then s[i - from] else a[i])
  }

  /** Overwrites the exposed bytes from `start` on with `s`. */
  function Write(l: Layout, start: nat, s: seq<byte>): Layout
    requires Fits(l) && start + |s| <= l.length
  {
    l.(alloc := Overwrite(l.alloc, l.offset + start, s))
  }

  function PushFront(l: Layout, s: seq<byte>): Layout
    requires Fits(l)
  {
    Write(Expand(l, |s|, 0), 0, s)
  }

  function PushBack(l: Layout, s: seq<byte>): Layout
    requires Fits(l)
  {
    Write(Expand(l, 0, |s|), l.length, s)
  }

  // --- what the operations mean for the exposed bytes ---

  lemma ReserveKeeps(l: Layout, front: nat, back: nat)
    requires Sound(l)
    ensures Sound(Reserve(l, front, back))
    ensures Exposed(Reserve(l, front, back)) == Exposed(l)
    ensures HasMargin(Reserve(l, front, back), front, back)
    ensures var r := Reserve(l, front, back);
            if l.offset >= front && |l.alloc| - l.offset - l.length >= back then r == l
            else r.offset == front && |r.alloc| == front + l.length + back
  {
    var r := Reserve(l, front, back);
    if !HasMargin(l, front, back) {
      assert r.alloc[front..front + l.length] == Exposed(l);
    }
  }

  lemma ExpandShowsZeros(l: Layout, front: nat, back: nat)
    requires Sound(l)
    ensures Sound(Expand(l, front, back))
    ensures Exposed(Expand(l, front, back)) == Zeros(front) + Exposed(l) + Zeros(back)
    ensures HasMargin(l, front, back) ==> Expand(l, front, back).alloc == l.alloc
  {
    ReserveKeeps(l, front, back);
    ShowMargins(Reserve(l, front, back), front, back);
  }

  /** Moving the bounds of the exposed part outwards shows the zeros that were hidden there. */
  lemma ShowMargins(r: Layout, front: nat, back: nat)
    requires Sound(r) && HasMargin(r, front, back)
    ensures var e := Layout(r.alloc, r.offset - front, r.length + front + back);
            Sound(e) && Exposed(e) == Zeros(front) + Exposed(r) + Zeros(back)
  {
    var e := Layout(r.alloc, r.offset - front, r.length + front + back);
    var want := Zeros(front) + Exposed(r) + Zeros(back);
    forall i | 0 <= i < |want| ensures Exposed(e)[i] == want[i] {
      assert Exposed(e)[i] == r.alloc[r.offset - front + i];
    }
  }

  lemma SetShows(l: Layout, start: nat, count: nat, value: byte)
    requires Sound(l)
    ensures Sound(Set(l, start, count, value)) && |Set(l, start, count, value).alloc| == |l.alloc|
    ensures Exposed(Set(l, start, count, value)) ==
            (if start >= l.length then Exposed(l)
             else Fill(Exposed(l), start, SetEnd(l.length, start, count), value))
  {
    if start < l.length {
      var end := SetEnd(l.length, start, count);
      FillInside(l, start, end, value);
    }
  }

  /** Filling a part of the exposed bytes, seen from outside. */
  lemma FillInside(l: Layout, start: nat, end: nat, value: byte)
    requires Sound(l) && start <= end <= l.length
    ensures var r := l.(alloc := Fill(l.alloc, l.offset + start, l.offset + end, value));
            Sound(r) && Exposed(r) == Fill(Exposed(l), start, end, value)
  {
    var r := l.(alloc := Fill(l.alloc, l.offset + start, l.offset + end, value));
    var want := Fill(Exposed(l), start, end, value);
    forall i | 0 <= i < |r.alloc|
      ensures r.alloc[i] == if l.offset + start <= i < l.offset + end then value else l.alloc[i]
    {}
    forall i | 0 <= i < l.length ensures Exposed(r)[i] == want[i] {
      assert Exposed(r)[i] == r.alloc[l.offset + i];
    }
  }

  lemma HideBackShows(l: Layout, n: nat)
    requires Sound(l) && n <= l.length
    ensures Sound(HideBack(l, n)) && |HideBack(l, n).alloc| == |l.alloc|
    ensures Exposed(HideBack(l, n)) == Exposed(l)[..l.length - n]
    ensures n == 0 ==> HideBack(l, n) == l
  {
    SetShows(l, l.length - n, n, 0);
    var z, r := Set(l, l.length - n, n, 0), HideBack(l, n);
    forall i | r.offset + r.length <= i < |r.alloc| ensures r.alloc[i] == 0 {
      if i < l.offset + l.length {
        assert r.alloc[i] == Exposed(z)[i - l.offset];
      }
    }
    assert Exposed(r) == Exposed(z)[..l.length - n];
  }

  lemma HideFrontShows(l: Layout, n: nat)
    requires Sound(l) && n <= l.length
    ensures Sound(HideFront(l, n)) && |HideFront(l, n).alloc| == |l.alloc|
    ensures Exposed(HideFront(l, n)) == Exposed(l)[n..]
    ensures n == 0 ==> HideFront(l, n) == l
  {
    SetShows(l, 0, n, 0);
    var z, r := Set(l, 0, n, 0), HideFront(l, n);
    forall i | 0 <= i < r.offset ensures r.alloc[i] == 0 {
      if l.offset <= i {
        assert r.alloc[i] == Exposed(z)[i - l.offset];
      }
    }
    assert Exposed(r) == Exposed(z)[n..];
    if n == 0 && l.length > 0 {
      assert Fill(l.alloc, l.offset, l.offset, 0) == l.alloc;
    }
  }

  lemma ShrinkShows(l: Layout, front: nat, back: nat)
    requires Sound(l)
    ensures Sound(Shrink(l, front, back))
    ensures Exposed(Shrink(l, front, back)) ==
            (if l.length < front + back then [] else Exposed(l)[front..l.length - back])
    ensures |Shrink(l, front, back).alloc| == |l.alloc|
    ensures Shrink(l, front, back).offset == (if l.length < front + back then l.offset else l.offset + front)
    ensures front == 0 && back == 0 ==> Shrink(l, front, back) == l
  {
    if front + back <= l.length {
      HideBackShows(l, back);
      HideFrontShows(HideBack(l, back), front);
      assert Exposed(l)[..l.length - back][front..] == Exposed(l)[front..l.length - back];
    }
  }

  lemma WriteShows(l: Layout, start: nat, s: seq<byte>)
    requires Sound(l) && start + |s| <= l.length
    ensures Sound(Write(l, start, s))
    ensures Exposed(Write(l, start, s)) == Exposed(l)[..start] + s + Exposed(l)[start + |s|..]
  {
    var w := Write(l, start, s);
    var from := l.offset + start;
    forall i | 0 <= i < |l.alloc|
      ensures w.alloc[i] == if from <= i < from + |s| then s[i - from] else l.alloc[i]
    {}
    var want := Exposed(l)[..start] + s + Exposed(l)[start + |s|..];
    assert |Exposed(w)| == |want|;
    forall i | 0 <= i < |want| ensures Exposed(w)[i] == want[i] {
      assert Exposed(w)[i] == w.alloc[l.offset + i];
    }
  }

  lemma WriteFrontShows(l: Layout, s: seq<byte>, rest: seq<byte>)
    requires Sound(l) && Exposed(l) == Zeros(|s|) + rest
    ensures |s| <= l.length && Sound(Write(l, 0, s)) && Exposed(Write(l, 0, s)) == s + rest
  {
    assert l.length == |Exposed(l)|;
    WriteShows(l, 0, s);
  }

  lemma PushFrontShows(l: Layout, s: seq<byte>)
    requires Sound(l)
    ensures Sound(PushFront(l, s))
    ensures Exposed(PushFront(l, s)) == s + Exposed(l)
    ensures HasMargin(l, |s|, 0) ==>
              |PushFront(l, s).alloc| == |l.alloc| && PushFront(l, s).offset == l.offset - |s|
  {
    ExpandShowsZeros(l, |s|, 0);
    assert Exposed(Expand(l, |s|, 0)) == Zeros(|s|) + Exposed(l);
    WriteFrontShows(Expand(l, |s|, 0), s, Exposed(l));
  }

  lemma PushBackShows(l: Layout, s: seq<byte>)
    requires Sound(l)
    ensures Sound(PushBack(l, s))
    ensures Exposed(PushBack(l, s)) == Exposed(l) + s
    ensures HasMargin(l, 0, |s|) ==> |PushBack(l, s).alloc| == |l.alloc| && PushBack(l, s).offset == l.offset
  {
    ExpandShowsZeros(l, 0, |s|);
    var e := Expand(l, 0, |s|);
    WriteShows(e, l.length, s);
    assert Exposed(e)[..l.length] == Exposed(l);
    assert Exposed(e)[l.length + |s|..] == [];
  }

  // --- every run ---

  datatype Op =
    | OpReserve(front: nat, back: nat)
    | OpExpand(front: nat, back: nat)
    | OpShrink(front: nat, back: nat)
    | OpSet(start: nat, count: nat, value: byte)
    | OpPushFront(s: seq<byte>)
    | OpPushBack(s: seq<byte>)

  function Apply(l: Layout, op: Op): Layout
    requires Fits(l)
  {
    match op
    case OpReserve(front, back) => Reserve(l, front, back)
    case OpExpand(front, back) => Expand(l, front, back)
    case OpShrink(front, back) => Shrink(l, front, back)
    case OpSet(start, count, value) => Set(l, start, count, value)
    case OpPushFront(s) => PushFront(l, s)
    case OpPushBack(s) => PushBack(l, s)
  }

  /** The same operation on a plain sequence of bytes. */
  function ApplyPlain(s: seq<byte>, op: Op): seq<byte> {
    match op
    case OpReserve(front, back) => s
    case OpExpand(front, back) => Zeros(front) + s + Zeros(back)
    case OpShrink(front, back) => if |s| < front + back then [] else s[front..|s| - back]
    case OpSet(start, count, value) =>
      seq(|s|, i requires 0 <= i < |s| => if start <= i < start + count then value else s[i])
    case OpPushFront(t) => t + s
    case OpPushBack(t) => s + t
  }

  lemma ApplyRefines(l: Layout, op: Op)
    requires Sound(l)
    ensures Sound(Apply(l, op)) && Exposed(Apply(l, op)) == ApplyPlain(Exposed(l), op)
  {
    match op
    case OpReserve(front, back) => ReserveKeeps(l, front, back);
    case OpExpand(front, back) => ExpandShowsZeros(l, front, back);
    case OpShrink(front, back) => ShrinkShows(l, front, back);
    case OpSet(start, count, value) => SetShows(l, start, count, value);
    case OpPushFront(s) => PushFrontShows(l, s);
    case OpPushBack(s) => PushBackShows(l, s);
  }

  function Run(l: Layout, ops: seq<Op>): Option<Layout>
    decreases ops
  {
    if !Fits(l) then None
    else if ops == [] then Some(l)
    else Run(Apply(l, ops[0]), ops[1..])
  }

  function RunPlain(s: seq<byte>, ops: seq<Op>): seq<byte>
    decreases ops
  {
    if ops == [] then s else RunPlain(ApplyPlain(s, ops[0]), ops[1..])
  }

  /** After any run the container shows what the same run makes of a plain sequence, never leaves
      its allocation, and still hides nothing but zeros. */
  lemma {:induction false} RunRefinesPlain(l: Layout, ops: seq<Op>)
    requires Sound(l)
    ensures Run(l, ops).Some?
    ensures Sound(Run(l, ops).value)
    ensures Exposed(Run(l, ops).value) == RunPlain(Exposed(l), ops)
    decreases ops
  {
    if ops != [] {
      ApplyRefines(l, ops[0]);
      RunRefinesPlain(Apply(l, ops[0]), ops[1..]);
    }
  }

  /** Assignment from a container that exposes `s`. When the sizes differ the target gets a fresh
      allocation; otherwise the old allocation and the old length are kept. */
  function Assign(l: Layout, s: seq<byte>): Layout
    requires Fits(l)
  {
    if |s| != |l.alloc| then Layout(s, 0, |s|)
    else Layout(Overwrite(l.alloc, 0, s[..l.length]), 0, l.length)
  }

  /** Assignment copies its source exactly when the target's capacity differs from the source's
      size or the target exposes its whole allocation. */
  lemma AssignCopiesExactlyWhen(l: Layout, s: seq<byte>)
    requires Sound(l)
    ensures Fits(Assign(l, s))
    ensures Exposed(Assign(l, s)) == s <==> |l.alloc| != |s| || l.length == |l.alloc|
    ensures Exposed(Assign(l, s)) == s ==> Sound(Assign(l, s))
  {
    if |l.alloc| == |s| {
      assert |Exposed(Assign(l, s))| == l.length;
      assert Exposed(Assign(l, s)) == s[..l.length];
    }
  }

  /** Two front bytes of margin and three exposed bytes: assigning five bytes keeps three of them
      and leaves an old byte behind the exposed ones. */
  lemma AssignCanTruncate(s: seq<byte>)
    requires |s| == 5
    ensures var l := Layout([0, 0, 7, 8, 9], 2, 3);
            Sound(l) && Exposed(Assign(l, s)) == s[..3] && !HiddenZero(Assign(l, s))
  {
    var l := Layout([0, 0, 7, 8, 9], 2, 3);
    assert Assign(l, s).alloc[3] == 8;
  }
}
