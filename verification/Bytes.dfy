/** The container itself: a heap buffer whose fields every operation updates in place. */
module BytesContainer {
  import opened Prelude
  import L = Container

  lemma BetweenZeros(s: seq<byte>, front: nat, v: seq<byte>)
    requires front + |v| <= |s|
    requires forall k :: 0 <= k < |s| ==> s[k] == if front <= k < front + |v| then v[k - front] else 0
    ensures s == Zeros(front) + v + Zeros(|s| - front - |v|)
  {
  }

  class Bytes {
    var data: array?<byte>
    var capacity: nat
    var offset: nat
    var length: nat

    ghost predicate Valid()
      reads this, data
    {
      |Allocation()| == capacity && L.Sound(Memory())
    }

    ghost function Allocation(): seq<byte>
      reads this, data
    {
      if data == null then [] else data[..]
    }

    ghost function Memory(): L.Layout
      reads this, data
    {
      L.Layout(Allocation(), offset, length)
    }

    /** The whole memory of the container. */
    ghost function Layout(): (l: L.Layout)
      requires Valid()
      reads this, data
      ensures L.Sound(l)
    {
      Memory()
    }

    /** The exposed bytes. */
    ghost function View(): (v: seq<byte>)
      requires Valid()
      reads this, data
      ensures |v| == length
    {
      L.Exposed(Layout())
    }

    function CapacityBack(): (n: int)
      reads this
    {
      capacity - offset - length
    }

    constructor (front: nat, length: nat, back: nat)
      ensures Valid() && Layout() == L.Fresh(front, length, back)
      ensures View() == Zeros(length)
      ensures data == null || fresh(data)
    {
      capacity := front + length + back;
      offset := front;
      this.length := length;
      new;
      data := Alloc(capacity);
      assert Allocation() == Zeros(capacity);
    }

    /** A zeroed buffer, or none at all for length zero. */
    static method Alloc(length: nat) returns (a: array?<byte>)
      ensures length == 0 ==> a == null
      ensures length > 0 ==> a != null && fresh(a) && a.Length == length && a[..] == Zeros(length)
    {
      if length > 0 {
        var fill: nat -> byte := i => 0;
        a := new byte[length](fill);
      } else {
        a := null;
      }
    }

    method Reserve(front: nat, back: nat)
      requires Valid()
      modifies this
      ensures Valid() && Layout() == L.Reserve(old(Layout()), front, back)
      ensures View() == old(View()) && L.HasMargin(Layout(), front, back)
      ensures data == old(data) || (data != null && fresh(data))
      ensures L.HasMargin(old(Layout()), front, back) ==> data == old(data)
    {
      L.ReserveKeeps(Layout(), front, back);
      if offset >= front && CapacityBack() >= back {
        return;
      }
      Reallocate(front, back);
    }

    /** Moves the exposed bytes to a new buffer with exactly the given margins. */
    method Reallocate(front: nat, back: nat)
      requires Valid() && front + length + back > 0
      modifies this`data, this`capacity, this`offset
      ensures |Allocation()| == capacity && length == old(length) && data != null && fresh(data)
      ensures Memory() == L.Layout(Zeros(front) + old(View()) + Zeros(back), front, length)
    {
      ghost var v := View();
      var a := Alloc(front + length + back);
      if data != null {
        CopyInto(a, front);
      } else {
        assert a[..] == Zeros(front) + v + Zeros(back);
      }
      data, capacity, offset := a, front + length + back, front;
    }

    /** Copies the exposed bytes into the zeroed buffer `a`, from position `front` on. */
    method CopyInto(a: array<byte>, front: nat)
      requires Valid() && data != null && a != data && front + length <= a.Length
      requires forall k :: 0 <= k < a.Length ==> a[k] == 0
      modifies a
      ensures a[..] == Zeros(front) + View() + Zeros(a.Length - front - length)
    {
      for i := 0 to length
        invariant forall k :: 0 <= k < a.Length ==>
          a[k] == if front <= k < front + i then data[offset + (k - front)] else 0
      {
        a[i + front] := data[i + offset];
      }
      forall i | 0 <= i < length ensures View()[i] == data[offset + i] {}
      BetweenZeros(a[..], front, View());
    }

    method Expand(front: nat, back: nat)
      requires Valid()
      modifies this
      ensures Valid() && Layout() == L.Expand(old(Layout()), front, back)
      ensures View() == Zeros(front) + old(View()) + Zeros(back)
      ensures data == old(data) || (data != null && fresh(data))
      ensures L.HasMargin(old(Layout()), front, back) ==> data == old(data)
    {
      ghost var l := Layout();
      L.ExpandShowsZeros(l, front, back);
      Reserve(front, back);
      assert Memory() == L.Reserve(l, front, back);
      offset := offset - front;
      length := length + front + back;
      assert Memory() == L.Expand(l, front, back);
    }

    /** Sets exposed bytes one by one; the range check stops it at the first position outside. */
    method Set(start: nat, count: nat, value: byte) returns (inRange: bool)
      requires Valid()
      modifies data
      ensures Valid() && Layout() == L.Set(old(Layout()), start, count, value)
      ensures inRange <==> count == 0 || start + count <= length
    {
      L.SetShows(Layout(), start, count, value);
      if start < length {
        FillRange(offset + start, offset + L.SetEnd(length, start, count), value);
      }
      inRange := count == 0 || start + count <= length;
    }

    method FillRange(from: nat, to: nat, value: byte)
      requires |Allocation()| == capacity && from <= to <= capacity
      modifies data
      ensures Allocation() == L.Fill(old(Allocation()), from, to, value)
    {
      ghost var was := Allocation();
      for i := from to to
        invariant |Allocation()| == capacity
        invariant forall k :: 0 <= k < capacity ==> Allocation()[k] == if from <= k < i then value else was[k]
      {
        data[i] := value;
      }
    }

    method Shrink(front: nat, back: nat)
      requires Valid()
      modifies this`offset, this`length, data
      ensures Valid() && Layout() == L.Shrink(old(Layout()), front, back)
      ensures View() == (if old(length) < front + back then [] else old(View())[front..old(length) - back])
    {
      L.ShrinkShows(Layout(), front, back);
      if front == 0 && back == 0 {
        return;
      }
      if length < front + back {
        HideAll();
      } else {
        HideBack(back);
        HideFront(front);
      }
    }

    /** What a shrink does when there is too little to hide. */
    method HideAll()
      requires Valid()
      modifies this`length, data
      ensures Valid() && Layout() == L.Set(old(Layout()), 0, old(length), 0).(length := 0)
    {
      L.HideBackShows(Layout(), length);
      var _ := Set(0, length, 0);
      length := 0;
    }

    /** The back half of a shrink: zero, then shorten. */
    method HideBack(n: nat)
      requires Valid() && n <= length
      modifies this`length, data
      ensures Valid() && Layout() == L.HideBack(old(Layout()), n)
    {
      L.HideBackShows(Layout(), n);
      if n > 0 {
        var _ := Set(length - n, n, 0);
        length := length - n;
      }
    }

    /** The front half of a shrink: zero, then move the start. */
    method HideFront(n: nat)
      requires Valid() && n <= length
      modifies this`offset, this`length, data
      ensures Valid() && Layout() == L.HideFront(old(Layout()), n)
    {
      L.HideFrontShows(Layout(), n);
      if n > 0 {
        var _ := Set(0, n, 0);
        offset := offset + n;
        length := length - n;
      }
    }

    /** Copies `s` over the exposed bytes from `start` on. */
    method Write(start: nat, s: seq<byte>)
      requires Valid() && start + |s| <= length
      modifies data
      ensures Valid() && Layout() == L.Write(old(Layout()), start, s)
    {
      ghost var l := Layout();
      L.WriteShows(l, start, s);
      Overwrite(offset + start, s);
      assert Memory() == L.Write(l, start, s);
    }

    /** Copies `s` over the allocation from `from` on. */
    method Overwrite(from: nat, s: seq<byte>)
      requires |Allocation()| == capacity && from + |s| <= capacity
      modifies data
      ensures Allocation() == L.Overwrite(old(Allocation()), from, s)
    {
      ghost var was := Allocation();
      for i := 0 to |s|
        invariant |Allocation()| == capacity
        invariant forall k :: 0 <= k < capacity ==>
          Allocation()[k] == if from <= k < from + i then s[k - from] else was[k]
      {
        data[from + i] := s[i];
      }
      assert Allocation() == L.Overwrite(was, from, s);
    }

    /** Expands the container in front and copies `s` into that space. */
    method Prepend(s: seq<byte>)
      requires Valid()
      modifies this, data
      ensures Valid() && Layout() == L.PushFront(old(Layout()), s)
      ensures data == old(data) || (data != null && fresh(data))
      ensures L.HasMargin(old(Layout()), |s|, 0) ==>
                data == old(data) && offset == old(offset) - |s| && CapacityBack() == old(CapacityBack())
    {
      Expand(|s|, 0);
      Write(0, s);
    }

    /** Expands the container at the back and copies `s` into that space. */
    method Append(s: seq<byte>)
      requires Valid()
      modifies this, data
      ensures Valid() && Layout() == L.PushBack(old(Layout()), s)
      ensures data == old(data) || (data != null && fresh(data))
      ensures L.HasMargin(old(Layout()), 0, |s|) ==>
                data == old(data) && offset == old(offset) && CapacityBack() == old(CapacityBack()) - |s|
    {
      ghost var l := Layout();
      var end := length;
      Expand(0, |s|);
      assert Layout() == L.Expand(l, 0, |s|);
      Write(end, s);
    }

    method PushFront(s: seq<byte>)
      requires Valid()
      modifies this, data
      ensures Valid() && Layout() == L.PushFront(old(Layout()), s)
      ensures View() == s + old(View())
      ensures data == old(data) || (data != null && fresh(data))
      ensures L.HasMargin(old(Layout()), |s|, 0) ==>
                data == old(data) && offset == old(offset) - |s| && CapacityBack() == old(CapacityBack())
    {
      L.PushFrontShows(Layout(), s);
      Prepend(s);
    }

    method PushBack(s: seq<byte>)
      requires Valid()
      modifies this, data
      ensures Valid() && Layout() == L.PushBack(old(Layout()), s)
      ensures View() == old(View()) + s
      ensures data == old(data) || (data != null && fresh(data))
      ensures L.HasMargin(old(Layout()), 0, |s|) ==>
                data == old(data) && offset == old(offset) && CapacityBack() == old(CapacityBack()) - |s|
    {
      L.PushBackShows(Layout(), s);
      Append(s);
    }

    method At(i: nat) returns (r: Option<byte>)
      requires Valid()
      ensures r == if i < length then Some(View()[i]) else None
    {
      r := if i < length then Some(data[offset + i]) else None;
    }

    /** The `count` exposed bytes from `start` on, as a value. */
    method Exposed(start: nat, count: nat) returns (s: seq<byte>)
      requires Valid() && start + count <= length
      ensures s == View()[start..start + count]
    {
      s := if data == null then [] else data[offset + start..offset + start + count];
    }

    /** Copy assignment from a container, not this one, that exposes `s`. */
    method Assign(s: seq<byte>)
      requires Valid()
      modifies this, data
      ensures |Allocation()| == capacity && Memory() == L.Assign(old(Layout()), s)
      ensures L.Exposed(Memory()) == s <==> old(capacity) != |s| || old(length) == old(capacity)
    {
      ghost var l := Layout();
      L.AssignCopiesExactlyWhen(l, s);
      offset := 0;
      if |s| != capacity {
        data := Alloc(|s|);
        capacity, length := |s|, |s|;
      }
      Overwrite(0, s[..length]);
      assert Memory() == L.Assign(l, s);
    }

    /** Takes over the allocation of `other` and leaves it empty. */
    method MoveFrom(other: Bytes)
      requires Valid() && other.Valid() && other != this
      modifies this, other
      ensures Valid() && Layout() == old(other.Layout()) && data == old(other.data)
      ensures other.Valid() && other.Layout() == L.Fresh(0, 0, 0) && other.data == null
    {
      data, capacity, offset, length := other.data, other.capacity, other.offset, other.length;
      other.data, other.capacity, other.offset, other.length := null, 0, 0, 0;
    }
  }
}
