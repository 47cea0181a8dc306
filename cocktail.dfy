/**
  `Cocktail(begin, end)`: a bidirectional exchange sort of a range, in place.

  Each round carries the value that ranks last up to the end of the unsorted window
  (a forward pass), then the value that ranks first down to its start (a backward
  pass), and shrinks the window by one slot on each side. A pass that makes no swap
  proves the window already sorted and ends the sort. A range whose end does not lie
  after its begin, and a range of one value, are left as they are.

  Positions of the whole array are used throughout, so the facts about the settled
  prefix `[lo, l)` and settled suffix `[r, hi)` never slice the array.
*/
module CocktailSort {
  import opened Orders

  /** The values at positions `[i, j)` of `w` are in comparator order. */
  predicate SortedWithin(c: Compare, w: seq<int>, i: int, j: int)
    requires 0 <= i <= j <= |w|
  {
    forall p, q :: i <= p < q < j ==> c.Ranks(w[p], w[q])
  }

  /**
    The state between two rounds: the prefix `[lo, l)` and the suffix `[r, hi)` are
    sorted, the prefix ranks before everything after it, and everything before the
    suffix ranks before the suffix.
  */
  predicate Settled(c: Compare, w: seq<int>, lo: int, l: int, r: int, hi: int) {
    && 0 <= lo <= l <= r <= hi <= |w|
    && SortedWithin(c, w, lo, l)
    && SortedWithin(c, w, r, hi)
    && (forall p, q :: lo <= p < l <= q < hi ==> c.Ranks(w[p], w[q]))
    && (forall p, q :: lo <= p < r <= q < hi ==> c.Ranks(w[p], w[q]))
  }

  /** `SortedWithin` over positions is `Sorted` over the slice. */
  lemma SortedWithinSlice(c: Compare, w: seq<int>, i: int, j: int)
    requires 0 <= i <= j <= |w|
    ensures SortedWithin(c, w, i, j) <==> Sorted(c, w[i..j])
  {
    if SortedWithin(c, w, i, j) {
      forall p, q | 0 <= p < q < j - i ensures c.Ranks(w[i..j][p], w[i..j][q]) {
        assert w[i..j][p] == w[i + p] && w[i..j][q] == w[i + q];
      }
    }
    if Sorted(c, w[i..j]) {
      forall p, q | i <= p < q < j ensures c.Ranks(w[p], w[q]) {
        assert w[p] == w[i..j][p - i] && w[q] == w[i..j][q - i];
      }
    }
  }

  /** A value of the permuted window `w'[l..r)` sits somewhere in the window of `w`. */
  lemma Source(w: seq<int>, w': seq<int>, l: int, r: int, k: int) returns (k': int)
    requires 0 <= l <= k < r <= |w| && r <= |w'|
    requires multiset(w'[l..r]) == multiset(w[l..r])
    ensures l <= k' < r && w[k'] == w'[k]
  {
    assert w'[k] == w'[l..r][k - l];
    assert w'[k] in multiset(w[l..r]);
    var i :| 0 <= i < r - l && w[l..r][i] == w'[k];
    k' := l + i;
  }

  /** `w` with the values at positions `i` and `j` exchanged. */
  function Swap(w: seq<int>, i: int, j: int): (v: seq<int>)
    requires 0 <= i < |w| && 0 <= j < |w|
    ensures |v| == |w| && v[i] == w[j] && v[j] == w[i]
    ensures forall k :: 0 <= k < |w| && k != i && k != j ==> v[k] == w[k]
  {
    w[i := w[j]][j := w[i]]
  }

  /** What a pass over `[l, r)` has kept so far, relative to the window `o` it started from. */
  predicate PassKeeps(o: seq<int>, w: seq<int>, l: int, r: int) {
    && 0 <= l < r <= |w| == |o|
    && w[..l] == o[..l] && w[r..] == o[r..]
    && multiset(w[l..r]) == multiset(o[l..r])
  }

  /** An exchange inside the window keeps what a pass promises to keep. */
  lemma SwapKeeps(o: seq<int>, w: seq<int>, l: int, r: int, i: int, j: int)
    requires PassKeeps(o, w, l, r) && l <= i < r && l <= j < r
    ensures PassKeeps(o, Swap(w, i, j), l, r)
  {
    var v := Swap(w, i, j);
    assert v[..l] == w[..l];
    assert v[r..] == w[r..];
    assert v[l..r] == w[l..r][i - l := w[j]][j - l := w[i]];
  }

  /** The forward pass loop invariant at position `i`. */
  predicate ForwardInvariant(c: Compare, o: seq<int>, w: seq<int>, l: int, r: int, i: int, swapped: bool) {
    && PassKeeps(o, w, l, r) && l <= i < r
    && (forall k :: l <= k <= i ==> c.Ranks(w[k], w[i]))
    && (!swapped ==> w == o && SortedWithin(c, w, l, i + 1))
  }

  /** One step of the forward pass: exchange `i` and `i + 1` when `Compare()(w[i + 1], w[i])` holds. */
  lemma ForwardStep(c: Compare, o: seq<int>, w: seq<int>, l: int, r: int, i: int, swapped: bool)
    requires ForwardInvariant(c, o, w, l, r, i, swapped) && i < r - 1
    ensures c.Holds(w[i + 1], w[i]) ==> ForwardInvariant(c, o, Swap(w, i, i + 1), l, r, i + 1, true)
    ensures !c.Holds(w[i + 1], w[i]) ==> ForwardInvariant(c, o, w, l, r, i + 1, swapped)
  {
    HoldsRanks(c, w[i + 1], w[i]);
    if c.Holds(w[i + 1], w[i]) {
      ForwardSwap(c, o, w, l, r, i);
    } else if !swapped {
      forall p, q | l <= p < q < i + 2 ensures c.Ranks(w[p], w[q]) {
        if q == i + 1 {
          assert c.Ranks(w[p], w[i]);
        }
      }
    }
  }

  lemma ForwardSwap(c: Compare, o: seq<int>, w: seq<int>, l: int, r: int, i: int)
    requires PassKeeps(o, w, l, r) && l <= i < r - 1
    requires forall k :: l <= k <= i ==> c.Ranks(w[k], w[i])
    requires c.Ranks(w[i + 1], w[i])
    ensures ForwardInvariant(c, o, Swap(w, i, i + 1), l, r, i + 1, true)
  {
    var v := Swap(w, i, i + 1);
    SwapKeeps(o, w, l, r, i, i + 1);
    forall k | l <= k <= i + 1 ensures c.Ranks(v[k], v[i + 1]) {
      if k < i {
        assert v[k] == w[k];
      }
    }
  }

  /** The backward pass loop invariant at position `i`. */
  predicate BackwardInvariant(c: Compare, o: seq<int>, w: seq<int>, l: int, r: int, i: int, swapped: bool) {
    && PassKeeps(o, w, l, r) && l <= i < r
    && (forall k :: i <= k < r ==> c.Ranks(w[i], w[k]))
    && (!swapped ==> w == o && SortedWithin(c, w, i, r))
  }

  /** One step of the backward pass: exchange `i - 1` and `i` when `Compare()(w[i], w[i - 1])` holds. */
  lemma BackwardStep(c: Compare, o: seq<int>, w: seq<int>, l: int, r: int, i: int, swapped: bool)
    requires BackwardInvariant(c, o, w, l, r, i, swapped) && l < i
    ensures c.Holds(w[i], w[i - 1]) ==> BackwardInvariant(c, o, Swap(w, i - 1, i), l, r, i - 1, true)
    ensures !c.Holds(w[i], w[i - 1]) ==> BackwardInvariant(c, o, w, l, r, i - 1, swapped)
  {
    HoldsRanks(c, w[i], w[i - 1]);
    if c.Holds(w[i], w[i - 1]) {
      BackwardSwap(c, o, w, l, r, i);
    } else if !swapped {
      forall p, q | i - 1 <= p < q < r ensures c.Ranks(w[p], w[q]) {
        if p == i - 1 {
          assert c.Ranks(w[i], w[q]);
        }
      }
    }
  }

  lemma BackwardSwap(c: Compare, o: seq<int>, w: seq<int>, l: int, r: int, i: int)
    requires PassKeeps(o, w, l, r) && l < i < r
    requires forall k :: i <= k < r ==> c.Ranks(w[i], w[k])
    requires c.Ranks(w[i], w[i - 1])
    ensures BackwardInvariant(c, o, Swap(w, i - 1, i), l, r, i - 1, true)
  {
    var v := Swap(w, i - 1, i);
    SwapKeeps(o, w, l, r, i - 1, i);
    forall k | i - 1 <= k < r ensures c.Ranks(v[i - 1], v[k]) {
      if k > i {
        assert v[k] == w[k];
      }
    }
  }

  /**
    One forward pass over the window `[l, r)`: each adjacent pair is exchanged when
    `Compare()(later, earlier)` holds. Afterwards the last slot holds a value that ranks
    after the whole window; a pass without a swap changed nothing and found the window sorted.
  */
  method ForwardPass(a: array<int>, l: int, r: int, c: Compare) returns (swapped: bool)
    requires 0 <= l < r <= a.Length
    modifies a
    ensures PassKeeps(old(a[..]), a[..], l, r)
    ensures forall k :: l <= k < r ==> c.Ranks(a[k], a[r - 1])
    ensures !swapped ==> a[..] == old(a[..]) && SortedWithin(c, a[..], l, r)
  {
    swapped := false;
    var i := l;
    while i < r - 1
      invariant ForwardInvariant(c, old(a[..]), a[..], l, r, i, swapped)
    {
      ForwardStep(c, old(a[..]), a[..], l, r, i, swapped);
      if c.Holds(a[i + 1], a[i]) {
        ghost var w := a[..];
        a[i], a[i + 1] := a[i + 1], a[i];
        assert a[..] == Swap(w, i, i + 1);
        swapped := true;
      }
      i := i + 1;
    }
  }

  /**
    One backward pass over the window `[l, r)`, from its end down to its start, with the
    same exchange rule. Afterwards the first slot holds a value that ranks before the
    whole window.
  */
  method BackwardPass(a: array<int>, l: int, r: int, c: Compare) returns (swapped: bool)
    requires 0 <= l < r <= a.Length
    modifies a
    ensures PassKeeps(old(a[..]), a[..], l, r)
    ensures forall k :: l <= k < r ==> c.Ranks(a[l], a[k])
    ensures !swapped ==> a[..] == old(a[..]) && SortedWithin(c, a[..], l, r)
  {
    swapped := false;
    var i := r - 1;
    while i > l
      invariant BackwardInvariant(c, old(a[..]), a[..], l, r, i, swapped)
    {
      BackwardStep(c, old(a[..]), a[..], l, r, i, swapped);
      if c.Holds(a[i], a[i - 1]) {
        ghost var w := a[..];
        a[i - 1], a[i] := a[i], a[i - 1];
        assert a[..] == Swap(w, i - 1, i);
        swapped := true;
      }
      i := i - 1;
    }
  }

  /** A pass permutes its window only, so the whole range `[lo, hi)` keeps its multiset. */
  lemma WindowPermutes(w: seq<int>, w': seq<int>, lo: int, l: int, r: int, hi: int)
    requires 0 <= lo <= l <= r <= hi <= |w| == |w'|
    requires w'[..l] == w[..l] && w'[r..] == w[r..]
    requires multiset(w'[l..r]) == multiset(w[l..r])
    ensures multiset(w'[lo..hi]) == multiset(w[lo..hi])
    ensures w'[..lo] == w[..lo] && w'[hi..] == w[hi..]
  {
    assert w[lo..hi] == w[lo..l] + w[l..r] + w[r..hi];
    assert w'[lo..hi] == w'[lo..l] + w'[l..r] + w'[r..hi];
    assert w'[lo..l] == w'[..l][lo..] == w[..l][lo..] == w[lo..l];
    assert w'[r..hi] == w'[r..][..hi - r] == w[r..][..hi - r] == w[r..hi];
    assert w'[..lo] == w'[..l][..lo];
    assert w'[hi..] == w'[r..][hi - r..];
  }

  /** After a forward pass over `[l, r)` the suffix grows by the slot `r - 1`. */
  lemma AfterForward(c: Compare, w: seq<int>, w': seq<int>, lo: int, l: int, r: int, hi: int)
    requires Settled(c, w, lo, l, r, hi) && l < r && |w'| == |w|
    requires w'[..l] == w[..l] && w'[r..] == w[r..]
    requires multiset(w'[l..r]) == multiset(w[l..r])
    requires forall k :: l <= k < r ==> c.Ranks(w'[k], w'[r - 1])
    ensures Settled(c, w', lo, l, r - 1, hi)
  {
    assert forall k :: 0 <= k < l ==> w'[k] == w[k] by {
      forall k | 0 <= k < l ensures w'[k] == w[k] {
        assert w'[k] == w'[..l][k];
      }
    }
    assert forall k :: r <= k < |w| ==> w'[k] == w[k] by {
      forall k | r <= k < |w| ensures w'[k] == w[k] {
        assert w'[k] == w'[r..][k - r];
      }
    }
    var last := Source(w, w', l, r, r - 1);
    forall p, q | lo <= p < l <= q < hi ensures c.Ranks(w'[p], w'[q]) {
      if q < r {
        var q' := Source(w, w', l, r, q);
      }
    }
    forall p, q | lo <= p < r - 1 <= q < hi ensures c.Ranks(w'[p], w'[q]) {
      if q == r - 1 {
        if p < l {
          assert c.Ranks(w[p], w[last]);
        }
      } else if l <= p {
        var p' := Source(w, w', l, r, p);
      }
    }
    forall p, q | r - 1 <= p < q < hi ensures c.Ranks(w'[p], w'[q]) {
      if p == r - 1 {
        assert c.Ranks(w[last], w[q]);
      }
    }
  }

  /** After a backward pass over `[l, r)` the prefix grows by the slot `l`. */
  lemma AfterBackward(c: Compare, w: seq<int>, w': seq<int>, lo: int, l: int, r: int, hi: int)
    requires Settled(c, w, lo, l, r, hi) && l < r && |w'| == |w|
    requires w'[..l] == w[..l] && w'[r..] == w[r..]
    requires multiset(w'[l..r]) == multiset(w[l..r])
    requires forall k :: l <= k < r ==> c.Ranks(w'[l], w'[k])
    ensures Settled(c, w', lo, l + 1, r, hi)
  {
    assert forall k :: 0 <= k < l ==> w'[k] == w[k] by {
      forall k | 0 <= k < l ensures w'[k] == w[k] {
        assert w'[k] == w'[..l][k];
      }
    }
    assert forall k :: r <= k < |w| ==> w'[k] == w[k] by {
      forall k | r <= k < |w| ensures w'[k] == w[k] {
        assert w'[k] == w'[r..][k - r];
      }
    }
    var first := Source(w, w', l, r, l);
    forall p, q | lo <= p < l + 1 <= q < hi ensures c.Ranks(w'[p], w'[q]) {
      if p == l {
        if r <= q {
          assert c.Ranks(w[first], w[q]);
        }
      } else if q < r {
        var q' := Source(w, w', l, r, q);
      }
    }
    forall p, q | lo <= p < r <= q < hi ensures c.Ranks(w'[p], w'[q]) {
      if l <= p {
        var p' := Source(w, w', l, r, p);
      }
    }
    forall p, q | lo <= p < q < l + 1 ensures c.Ranks(w'[p], w'[q]) {
      if q == l {
        assert c.Ranks(w[p], w[first]);
      }
    }
  }

  /** A settled state whose window is sorted is a sorted range. */
  lemma SettledSorted(c: Compare, w: seq<int>, lo: int, l: int, r: int, hi: int, s: seq<int>)
    requires Settled(c, w, lo, l, r, hi) && SortedWithin(c, w, l, r)
    requires multiset(w[lo..hi]) == multiset(s)
    ensures w[lo..hi] == Sort(c, s)
  {
    forall p, q | lo <= p < q < hi ensures c.Ranks(w[p], w[q]) {
    }
    SortedWithinSlice(c, w, lo, hi);
    SortedUnique(c, w[lo..hi], Sort(c, s));
  }

  /** The sort's state between rounds, relative to the array `o` it started from. */
  predicate RoundInvariant(c: Compare, o: seq<int>, w: seq<int>, lo: int, l: int, r: int, hi: int, swapped: bool) {
    && |w| == |o| && Settled(c, w, lo, l, r, hi)
    && w[..lo] == o[..lo] && w[hi..] == o[hi..]
    && multiset(w[lo..hi]) == multiset(o[lo..hi])
    && (!swapped ==> SortedWithin(c, w, l, r))
  }

  /** A forward pass from `w` to `w'` ends a round's first half: the window loses its last slot. */
  lemma ForwardRound(c: Compare, o: seq<int>, w: seq<int>, w': seq<int>, lo: int, l: int, r: int, hi: int, swapped: bool)
    requires RoundInvariant(c, o, w, lo, l, r, hi, true) && l < r
    requires PassKeeps(w, w', l, r)
    requires forall k :: l <= k < r ==> c.Ranks(w'[k], w'[r - 1])
    requires !swapped ==> SortedWithin(c, w', l, r)
    ensures RoundInvariant(c, o, w', lo, l, r - 1, hi, swapped)
  {
    WindowPermutes(w, w', lo, l, r, hi);
    AfterForward(c, w, w', lo, l, r, hi);
  }

  /** A backward pass from `w` to `w'` ends a round: the window loses its first slot. */
  lemma BackwardRound(c: Compare, o: seq<int>, w: seq<int>, w': seq<int>, lo: int, l: int, r: int, hi: int, swapped: bool)
    requires RoundInvariant(c, o, w, lo, l, r, hi, true) && l < r
    requires PassKeeps(w, w', l, r)
    requires forall k :: l <= k < r ==> c.Ranks(w'[l], w'[k])
    requires !swapped ==> SortedWithin(c, w', l, r)
    ensures RoundInvariant(c, o, w', lo, l + 1, r, hi, swapped)
  {
    WindowPermutes(w, w', lo, l, r, hi);
    AfterBackward(c, w, w', lo, l, r, hi);
  }

  /**
    One round on the window `[l, r)`: a forward pass, then, if it swapped anything, a
    backward pass. Returns the shrunk window and whether the last pass swapped.
  */
  method Round(a: array<int>, lo: int, l: int, r: int, hi: int, c: Compare, ghost o: seq<int>)
    returns (l': int, r': int, swapped: bool)
    requires RoundInvariant(c, o, a[..], lo, l, r, hi, true) && r - l >= 2
    modifies a
    ensures l <= l' <= r' < r
    ensures RoundInvariant(c, o, a[..], lo, l', r', hi, swapped)
  {
    l', r' := l, r;
    ghost var w := a[..];
    swapped := ForwardPass(a, l', r', c);
    ForwardRound(c, o, w, a[..], lo, l', r', hi, swapped);
    r' := r' - 1;
    if swapped {
      w := a[..];
      swapped := BackwardPass(a, l', r', c);
      BackwardRound(c, o, w, a[..], lo, l', r', hi, swapped);
      l' := l' + 1;
    }
  }

  /**
    `Cocktail(begin, end)` on positions `[lo, hi)` of `a`: the range ends as its own
    values in comparator order, nothing outside it changes, and a range whose end does
    not lie after its begin is left alone.
  */
  method Cocktail(a: array<int>, lo: int, hi: int, c: Compare)
    requires 0 <= lo <= a.Length && 0 <= hi <= a.Length
    modifies a
    ensures hi <= lo ==> a[..] == old(a[..])
    ensures lo <= hi ==> a[..lo] == old(a[..lo]) && a[hi..] == old(a[hi..])
    ensures lo <= hi ==> a[lo..hi] == Sort(c, old(a[lo..hi]))
  {
    if hi - lo < 2 {
      if lo <= hi {
        assert Sorted(c, a[lo..hi]);
        SortOfSorted(c, a[lo..hi]);
      }
      return;
    }
    ghost var o := a[..];
    var l, r := lo, hi;
    var swapped := true;
    while swapped && r - l >= 2
      invariant lo <= l <= r <= hi
      invariant RoundInvariant(c, o, a[..], lo, l, r, hi, swapped)
      decreases r - l
    {
      l, r, swapped := Round(a, lo, l, r, hi, c, o);
    }
    SettledSorted(c, a[..], lo, l, r, hi, o[lo..hi]);
  }
}
