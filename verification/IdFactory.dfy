/** Transfer ids: one counter per interface, of which the wire carries the low byte. */
module IdFactory {
  import opened Prelude

  datatype InterfaceId = InterfaceId(kind: byte, instance: byte)

  datatype Mapper = Mapper(interfaceId: InterfaceId, idCount: nat)

  /** Increments a 32-bit counter, passing over values whose low byte is the invalid id. */
  function IncrementId(counter: nat): nat {
    var next := (counter + 1) % UINT_RANGE;
    if Low8(next) == 0 then (next + 1) % UINT_RANGE else next
  }

  /** The position of the first mapper of an interface, or the length of the list. */
  function Find(mappers: seq<Mapper>, iid: InterfaceId): (i: nat)
    ensures i <= |mappers|
    ensures i < |mappers| ==> mappers[i].interfaceId == iid
    ensures forall k :: 0 <= k < i ==> mappers[k].interfaceId != iid
  {
    if mappers == [] || mappers[0].interfaceId == iid then 0 else 1 + Find(mappers[1..], iid)
  }

  function CountOf(mappers: seq<Mapper>, iid: InterfaceId): nat {
    var i := Find(mappers, iid);
    if i < |mappers| then mappers[i].idCount else 0
  }

  function Issue(mappers: seq<Mapper>, iid: InterfaceId): (r: (seq<Mapper>, nat)) {
    var i := Find(mappers, iid);
    if i < |mappers| then
      var id := IncrementId(mappers[i].idCount);
      (mappers[i := Mapper(iid, id)], id)
    else
      var id := IncrementId(0);
      (mappers + [Mapper(iid, id)], id)
  }

  class Factory {
    var mappers: seq<Mapper>

    constructor ()
      ensures mappers == []
    {
      mappers := [];
    }

    method NewId(iid: InterfaceId) returns (id: nat)
      modifies this
      ensures (mappers, id) == Issue(old(mappers), iid)
    {
      var i := 0;
      while i < |mappers| && mappers[i].interfaceId != iid
        invariant i <= |mappers| && mappers == old(mappers)
        invariant forall k :: 0 <= k < i ==> mappers[k].interfaceId != iid
      {
        i := i + 1;
      }
      FindIs(mappers, iid, i);
      if i == |mappers| {
        id := IncrementId(0);
        mappers := mappers + [Mapper(iid, id)];
      } else {
        id := IncrementId(mappers[i].idCount);
        mappers := mappers[i := Mapper(iid, id)];
      }
    }
  }

  lemma FindIs(mappers: seq<Mapper>, iid: InterfaceId, i: nat)
    requires i <= |mappers| && (i < |mappers| ==> mappers[i].interfaceId == iid)
    requires forall k :: 0 <= k < i ==> mappers[k].interfaceId != iid
    ensures Find(mappers, iid) == i
  {
    var j := Find(mappers, iid);
    assert !(j < i) && !(i < j);
  }

  /** A call for one interface advances that interface's counter and no other. */
  lemma NewIdIsPerInterface(mappers: seq<Mapper>, iid: InterfaceId, other: InterfaceId)
    ensures var (mappers', id) := Issue(mappers, iid);
            && id == IncrementId(CountOf(mappers, iid))
            && CountOf(mappers', other) == if other == iid then id else CountOf(mappers, other)
  {
    var (mappers', id) := Issue(mappers, iid);
    var i, j := Find(mappers, iid), Find(mappers, other);
    if other == iid {
      FindIs(mappers', iid, i);
    } else if j < |mappers| {
      FindIs(mappers', other, j);
    } else {
      FindIs(mappers', other, |mappers'|);
    }
  }

  /** The value of the counter after `n` increments from zero, were it not limited to 32 bits: every
      255 increments pass over one value. */
  function Unwrapped(n: nat): nat {
    if n == 0 then 0 else n + (n - 1) / 255
  }

  function Nth(n: nat): nat {
    Unwrapped(n) % UINT_RANGE
  }

  lemma LowByteOf(q: nat, r: nat)
    requires r < 0x100
    ensures (q * 0x100 + r) % 0x100 == r
  {
  }

  lemma LowWordOf(q: nat, r: nat)
    requires r < UINT_RANGE
    ensures (q * UINT_RANGE + r) % UINT_RANGE == r
    ensures (q * UINT_RANGE + r) % 0x100 == r % 0x100
  {
    assert q * 0x1_0000_0000 + r == (q * 0x100_0000 + r / 0x100) * 0x100 + r % 0x100;
    LowByteOf(q * 0x100_0000 + r / 0x100, r % 0x100);
  }

  lemma UnwrappedLowByte(n: nat)
    ensures Unwrapped(n + 1) % 0x100 == n % 255 + 1
  {
    var q, r := n / 255, n % 255;
    assert n == q * 255 + r;
    assert Unwrapped(n + 1) == q * 0x100 + (r + 1);
    LowByteOf(q, r + 1);
  }

  lemma UnwrappedIncrements(n: nat)
    ensures Unwrapped(n + 1) == Unwrapped(n) + (if (Unwrapped(n) + 1) % 0x100 == 0 then 2 else 1)
  {
    if n > 0 {
      var q, r := (n - 1) / 255, (n - 1) % 255;
      assert n == q * 255 + (r + 1);
      assert Unwrapped(n) == q * 0x100 + (r + 1);
      if r == 254 {
        assert n == (q + 1) * 255;
        assert Unwrapped(n) + 1 == (q + 1) * 0x100 + 0;
        LowByteOf(q + 1, 0);
      } else {
        assert n / 255 == q;
        LowByteOf(q, r + 2);
      }
    }
  }

  lemma IncrementWraps(u: nat)
    ensures IncrementId(u % UINT_RANGE) == (u + (if (u + 1) % 0x100 == 0 then 2 else 1)) % UINT_RANGE
  {
    var q, r := u / UINT_RANGE, u % UINT_RANGE;
    assert u == q * UINT_RANGE + r;
    if r + 1 == UINT_RANGE {
      assert u + 1 == (q + 1) * UINT_RANGE + 0 && u + 2 == (q + 1) * UINT_RANGE + 1;
      LowWordOf(q + 1, 0);
      LowWordOf(q + 1, 1);
    } else {
      LowWordOf(q, r + 1);
      if r + 2 < UINT_RANGE {
        LowWordOf(q, r + 2);
      } else {
        assert r + 1 == 0xFFFF_FFFF;
      }
    }
  }

  lemma NthIncrements(n: nat)
    ensures IncrementId(Nth(n)) == Nth(n + 1)
    ensures Low8(Nth(n + 1)) == n % 255 + 1
  {
    UnwrappedIncrements(n);
    UnwrappedLowByte(n);
    IncrementWraps(Unwrapped(n));
    var u := Unwrapped(n + 1);
    LowWordOf(u / UINT_RANGE, u % UINT_RANGE);
    assert u == u / UINT_RANGE * UINT_RANGE + u % UINT_RANGE;
  }

  /** The ids returned by a sequence of calls. */
  function Ids(mappers: seq<Mapper>, calls: seq<InterfaceId>): (r: seq<nat>)
    ensures |r| == |calls|
    decreases |calls|
  {
    if calls == [] then []
    else
      var (mappers', id) := Issue(mappers, calls[0]);
      [id] + Ids(mappers', calls[1..])
  }

  function Times(calls: seq<InterfaceId>, iid: InterfaceId): nat {
    if calls == [] then 0 else (if calls[0] == iid then 1 else 0) + Times(calls[1..], iid)
  }

  lemma {:induction false} IdsFrom(mappers: seq<Mapper>, calls: seq<InterfaceId>, done: nat, j: nat)
    requires j < |calls| && CountOf(mappers, calls[j]) == Nth(done)
    ensures Low8(Ids(mappers, calls)[j]) == (done + Times(calls[..j], calls[j])) % 255 + 1
    decreases |calls|
  {
    NewIdIsPerInterface(mappers, calls[0], calls[j]);
    NthIncrements(done);
    var mappers' := Issue(mappers, calls[0]).0;
    if j > 0 {
      assert calls[..j][1..] == calls[1..][..j - 1];
      IdsFrom(mappers', calls[1..], done + (if calls[0] == calls[j] then 1 else 0), j - 1);
    }
  }

  /** Whatever is asked for other interfaces in between, the ids that an interface gets run through
      1 to 255 in their low byte, over and over, also when the 32-bit counter wraps. */
  lemma IdsCycle(calls: seq<InterfaceId>, j: nat)
    requires j < |calls|
    ensures Low8(Ids([], calls)[j]) == Times(calls[..j], calls[j]) % 255 + 1
  {
    IdsFrom([], calls, 0, j);
  }

  lemma {:induction false} TimesSplits(a: seq<InterfaceId>, b: seq<InterfaceId>, iid: InterfaceId)
    ensures Times(a + b, iid) == Times(a, iid) + Times(b, iid)
  {
    if a == [] {
      assert a + b == b;
    } else {
      assert (a + b)[1..] == a[1..] + b;
      TimesSplits(a[1..], b, iid);
    }
  }

  /** Two ids of one interface share their low byte exactly when a multiple of 255 calls for that
      interface separates them. */
  lemma IdsCollideExactlyWhen(calls: seq<InterfaceId>, i: nat, j: nat)
    requires i < j < |calls| && calls[i] == calls[j]
    ensures Low8(Ids([], calls)[i]) == Low8(Ids([], calls)[j]) <==> Times(calls[i..j], calls[i]) % 255 == 0
  {
    IdsCycle(calls, i);
    IdsCycle(calls, j);
    assert calls[..j] == calls[..i] + calls[i..j];
    TimesSplits(calls[..i], calls[i..j], calls[i]);
  }
}
