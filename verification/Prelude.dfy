/** Bytes, options and the few sequence facts shared by every layer. */
module Prelude {

  /** The library's byte: an unsigned 8-bit integer. */
  type byte = x: int | 0 <= x < 0x100

  /** One past the largest value of the library's 32-bit unsigned counters. */
  const UINT_RANGE := 0x1_0000_0000

  /** One past the largest value of the library's 64-bit unsigned counters. */
  const UINT64_RANGE := 0x1_0000_0000_0000_0000

  datatype Option<+T> = None | Some(value: T)

  /** The cast to an 8-bit unsigned integer. */
  function Low8(x: int): byte {
    x % 0x100
  }

  /** Sums of low bytes have the low byte of the sum. */
  lemma LowSum(a: nat, b: nat, c: nat)
    ensures Low8(a + Low8(b) + Low8(c)) == (a + b + c) % 0x100
    ensures Low8(Low8(a) + Low8(b) + Low8(c)) == (a + b + c) % 0x100
  {
    LowShift(a + Low8(b) + Low8(c), b / 0x100 + c / 0x100);
    LowShift(Low8(a) + Low8(b) + Low8(c), a / 0x100 + b / 0x100 + c / 0x100);
  }

  lemma LowShift(x: nat, k: nat)
    ensures (x + k * 0x100) % 0x100 == x % 0x100
  {
  }

  function Zeros(n: nat): (r: seq<byte>)
    ensures |r| == n
  {
    seq(n, i => 0)
  }

  function Min(a: nat, b: nat): nat {
    if a <= b then a else b
  }

  function Concat<T>(parts: seq<seq<T>>): seq<T> {
    if parts == [] then [] else parts[0] + Concat(parts[1..])
  }

  function SetOf(s: seq<nat>): set<nat> {
    set x | x in s
  }

  function Range(lo: nat, hi: nat): (r: set<nat>)
    ensures forall k :: k in r <==> lo <= k < hi
    decreases hi
  {
    if hi <= lo then {} else Range(lo, hi - 1) + {hi - 1}
  }

  lemma SetOfCons(s: seq<nat>)
    requires s != []
    ensures SetOf(s) == {s[0]} + SetOf(s[1..])
  {
    assert s == [s[0]] + s[1..];
  }

  lemma SliceOfSlice<T>(s: seq<T>, a: nat, b: nat, i: nat, j: nat)
    requires a <= b <= |s| && i <= j <= b - a
    ensures s[a..b][i..j] == s[a + i..a + j]
  {
    var l, r := s[a..b][i..j], s[a + i..a + j];
    assert |l| == |r|;
    forall k | 0 <= k < |l| ensures l[k] == r[k] {
      assert l[k] == s[a..b][i + k] == s[a + i + k];
    }
  }

  lemma Halves<T>(a: seq<T>, b: seq<T>)
    ensures (a + b)[..|a|] == a && (a + b)[|a|..] == b
  {
    assert |(a + b)[|a|..]| == |b|;
    forall k | 0 <= k < |b| ensures (a + b)[|a|..][k] == b[k] {
      assert (a + b)[|a|..][k] == (a + b)[|a| + k];
    }
  }

  lemma Associate<T>(a: seq<T>, b: seq<T>, c: seq<T>)
    ensures a + b + c == a + (b + c)
  {
    var l, r := a + b + c, a + (b + c);
    assert |l| == |r|;
    forall k | 0 <= k < |l| ensures l[k] == r[k] {}
  }

  lemma {:induction false} ConcatAppend<T>(a: seq<seq<T>>, b: seq<seq<T>>)
    ensures Concat(a + b) == Concat(a) + Concat(b)
  {
    if a == [] {
      assert a + b == b;
    } else {
      assert (a + b)[1..] == a[1..] + b;
      ConcatAppend(a[1..], b);
    }
  }
}
