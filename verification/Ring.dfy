/** Positions in a ring of `n` slots: the circular iterator's arithmetic, and what it means for
    positions in an unbounded history. */
module Ring {
  import opened Prelude

  /** The slot of history position `k`. */
  function Slot(k: nat, n: nat): (s: nat)
    requires n > 0
    ensures s < n
  {
    if k < n then k else Slot(k - n, n)
  }

  /** The circular iterator's `+=`, which wraps at most once. */
  function Shift(it: nat, d: nat, n: nat): (r: nat)
    requires it < n && d <= n
    ensures r < n
  {
    if it + d >= n then it + d - n else it + d
  }

  function Distance(lagging: nat, leading: nat, n: nat): (d: nat)
    requires lagging < n && leading < n
    ensures d < n
  {
    if leading >= lagging then leading - lagging else leading - lagging + n
  }

  lemma {:induction false} SlotShift(k: nat, d: nat, n: nat)
    requires n > 0 && d <= n
    ensures Slot(k + d, n) == Shift(Slot(k, n), d, n)
    decreases k
  {
    if k >= n {
      SlotShift(k - n, d, n);
    } else if k + d >= n {
      assert Slot(k + d, n) == Slot(k + d - n, n);
    }
  }

  /** Within one turn of the ring, iterator distance is the difference of positions; in particular
      two positions share a slot only when they are equal. */
  lemma DistanceIsDifference(lo: nat, hi: nat, n: nat)
    requires n > 0 && lo <= hi < lo + n
    ensures Distance(Slot(lo, n), Slot(hi, n), n) == hi - lo
    ensures Slot(lo, n) == Slot(hi, n) <==> lo == hi
  {
    SlotShift(lo, hi - lo, n);
  }

  /** Each of the newest `n` positions of the history is in its slot. */
  predicate Mirrors(buffer: seq<byte>, history: seq<byte>)
    requires |buffer| > 0
  {
    forall k {:trigger history[k]} :: 0 <= k < |history| <= k + |buffer| ==> buffer[Slot(k, |buffer|)] == history[k]
  }

  lemma MirrorsAfterPut(buffer: seq<byte>, history: seq<byte>, b: byte)
    requires |buffer| > 0 && Mirrors(buffer, history)
    ensures Mirrors(buffer[Slot(|history|, |buffer|) := b], history + [b])
  {
    var n := |buffer|;
    var buffer' := buffer[Slot(|history|, n) := b];
    var history' := history + [b];
    forall k | 0 <= k < |history'| <= k + n ensures buffer'[Slot(k, n)] == history'[k] {
      DistanceIsDifference(k, |history|, n);
    }
  }

  lemma MirrorsStart(n: nat)
    requires n > 0
    ensures Mirrors(Zeros(n), [0])
  {
  }
}
