/**
  Comparators and sortedness shared by the bounded selection and the cocktail sort.

  Both algorithms are templates over a comparator functor. The functors they are
  used with are the four standard ones; `Holds` is the functor call itself and
  `Ranks` is the non-strict order that a range sorted by that functor follows
  (non-increasing for `greater`/`greater_equal`, non-decreasing for `less`/`less_equal`).
  Elements are integers, so `Ranks` is a total order: two values that rank both
  ways are equal, which makes a sorted permutation unique (`SortedUnique`).
*/
module Orders {

  /** The standard comparator functors. */
  datatype Compare = GreaterEqual | Greater | LessEqual | Less {

    /** `Compare()(x, y)`. */
    predicate Holds(x: int, y: int) {
      match this
      case GreaterEqual => x >= y
      case Greater => x > y
      case LessEqual => x <= y
      case Less => x < y
    }

    /** True for the comparators that put larger values first. */
    predicate Descending() {
      this == GreaterEqual || this == Greater
    }

    /** `x` may stand before `y` in a range sorted by this comparator. */
    predicate Ranks(x: int, y: int) {
      if Descending() then x >= y else x <= y
    }
  }

  /** Every earlier element ranks before every later one. */
  predicate Sorted(c: Compare, s: seq<int>) {
    forall i, j :: 0 <= i < j < |s| ==> c.Ranks(s[i], s[j])
  }

  /** Every element of `s` ranks before every element of `t`. */
  predicate AllBefore(c: Compare, s: seq<int>, t: seq<int>) {
    forall i, j :: 0 <= i < |s| && 0 <= j < |t| ==> c.Ranks(s[i], t[j])
  }

  /** The comparator call implies the order it sorts by, and its failure implies the converse. */
  lemma HoldsRanks(c: Compare, x: int, y: int)
    ensures c.Holds(x, y) ==> c.Ranks(x, y)
    ensures !c.Holds(x, y) ==> c.Ranks(y, x)
    ensures c.Ranks(x, y) && c.Ranks(y, x) ==> x == y
  {
  }

  lemma SortedCons(c: Compare, y: int, s: seq<int>)
    requires Sorted(c, s)
    requires |s| > 0 ==> c.Ranks(y, s[0])
    ensures Sorted(c, [y] + s)
  {
    var t := [y] + s;
    forall i, j | 0 <= i < j < |t| ensures c.Ranks(t[i], t[j]) {
      if i == 0 && j > 1 {
        assert c.Ranks(s[0], s[j - 1]);
      }
    }
  }

  lemma SortedSlice(c: Compare, s: seq<int>, i: nat, j: nat)
    requires Sorted(c, s) && i <= j <= |s|
    ensures Sorted(c, s[i..j])
  {
    forall k, l | 0 <= k < l < j - i ensures c.Ranks(s[i..j][k], s[i..j][l]) {
      assert s[i..j][k] == s[i + k] && s[i..j][l] == s[i + l];
    }
  }

  /** Two sorted ranges, the first ranking before the second, make a sorted range. */
  lemma SortedAppend(c: Compare, s: seq<int>, t: seq<int>)
    requires Sorted(c, s) && Sorted(c, t) && AllBefore(c, s, t)
    ensures Sorted(c, s + t)
  {
    var u := s + t;
    forall i, j | 0 <= i < j < |u| ensures c.Ranks(u[i], u[j]) {
      if j < |s| {
        assert u[i] == s[i] && u[j] == s[j];
      } else if i >= |s| {
        assert u[i] == t[i - |s|] && u[j] == t[j - |s|];
      } else {
        assert u[i] == s[i] && u[j] == t[j - |s|];
      }
    }
  }

  /** `AllBefore` only depends on the multisets of its two sides. */
  lemma AllBeforePermuted(c: Compare, s: seq<int>, t: seq<int>, s': seq<int>, t': seq<int>)
    requires AllBefore(c, s, t)
    requires multiset(s) == multiset(s') && multiset(t) == multiset(t')
    ensures AllBefore(c, s', t')
  {
    forall i, j | 0 <= i < |s'| && 0 <= j < |t'| ensures c.Ranks(s'[i], t'[j]) {
      assert s'[i] in multiset(s');
      assert t'[j] in multiset(t');
      var i' :| 0 <= i' < |s| && s[i'] == s'[i];
      var j' :| 0 <= j' < |t| && t[j'] == t'[j];
    }
  }

  /** Dropping the head of a range drops one copy of it from the multiset. */
  lemma MultisetTail(s: seq<int>)
    requires |s| > 0
    ensures multiset(s[1..]) == multiset(s) - multiset{s[0]}
  {
    assert s == [s[0]] + s[1..];
  }

  /** In a sorted range the head ranks before every element. */
  lemma HeadRanksFirst(c: Compare, s: seq<int>, x: int)
    requires Sorted(c, s) && x in multiset(s)
    ensures c.Ranks(s[0], x)
  {
    var i :| 0 <= i < |s| && s[i] == x;
    assert i == 0 || c.Ranks(s[0], s[i]);
  }

  /** Sorted permutations of one multiset are equal. */
  lemma {:induction false} SortedUnique(c: Compare, s: seq<int>, t: seq<int>)
    requires Sorted(c, s) && Sorted(c, t)
    requires multiset(s) == multiset(t)
    ensures s == t
  {
    if s == [] {
      assert |multiset(t)| == 0;
    } else {
      assert |t| == |multiset(t)| == |multiset(s)| == |s|;
      HeadRanksFirst(c, t, s[0]);
      HeadRanksFirst(c, s, t[0]);
      HoldsRanks(c, s[0], t[0]);
      MultisetTail(s);
      MultisetTail(t);
      SortedUnique(c, s[1..], t[1..]);
      assert s == [s[0]] + s[1..] && t == [t[0]] + t[1..];
    }
  }

  /** Insertion of `x` into a sorted range: the reference for one insertion step. */
  function Insert(c: Compare, t: seq<int>, x: int): (r: seq<int>)
    requires Sorted(c, t)
    ensures Sorted(c, r)
    ensures multiset(r) == multiset(t) + multiset{x}
    ensures |r| == |t| + 1
    ensures r[0] == x || (|t| > 0 && r[0] == t[0])
  {
    if t == [] then [x]
    else if c.Ranks(x, t[0]) then
      SortedCons(c, x, t);
      [x] + t
    else
      var r' := Insert(c, t[1..], x);
      HoldsRanks(c, x, t[0]);
      SortedCons(c, t[0], r');
      assert t == [t[0]] + t[1..];
      [t[0]] + r'
  }

  /** `x` goes in front of a head it ranks before. */
  lemma InsertFront(c: Compare, t: seq<int>, x: int)
    requires Sorted(c, t) && |t| > 0 && c.Ranks(x, t[0])
    ensures Insert(c, t, x) == [x] + t
  {
  }

  /** Otherwise the head stays and `x` is inserted into the rest. */
  lemma InsertBehind(c: Compare, t: seq<int>, x: int)
    requires Sorted(c, t) && |t| > 0 && !c.Ranks(x, t[0])
    ensures Sorted(c, t[1..])
    ensures Insert(c, t, x) == [t[0]] + Insert(c, t[1..], x)
  {
    SortedSlice(c, t, 1, |t|);
  }

  /** The reference sort: insert the elements one after the other, in input order. */
  function Sort(c: Compare, s: seq<int>): (r: seq<int>)
    ensures Sorted(c, r)
    ensures multiset(r) == multiset(s)
    ensures |r| == |s|
  {
    if s == [] then []
    else
      assert s == s[..|s| - 1] + [s[|s| - 1]];
      Insert(c, Sort(c, s[..|s| - 1]), s[|s| - 1])
  }

  /** Sorting an already sorted range changes nothing. */
  lemma SortOfSorted(c: Compare, s: seq<int>)
    requires Sorted(c, s)
    ensures Sort(c, s) == s
  {
    SortedUnique(c, Sort(c, s), s);
  }

  /** `s` back to front. */
  function Reverse(s: seq<int>): (r: seq<int>)
    ensures |r| == |s|
    ensures forall i :: 0 <= i < |s| ==> r[i] == s[|s| - 1 - i]
  {
    seq(|s|, i requires 0 <= i < |s| => s[|s| - 1 - i])
  }

  lemma {:induction false} ReversePermutes(s: seq<int>)
    ensures multiset(Reverse(s)) == multiset(s)
  {
    if s != [] {
      ReversePermutes(s[1..]);
      assert Reverse(s) == Reverse(s[1..]) + [s[0]];
      assert s == [s[0]] + s[1..];
    }
  }

  /** A range sorted by `less` is, back to front, sorted by `greater`. */
  lemma ReverseSorted(s: seq<int>)
    requires Sorted(Less, s)
    ensures Sorted(Greater, Reverse(s))
  {
    var r := Reverse(s);
    forall i, j | 0 <= i < j < |r| ensures Greater.Ranks(r[i], r[j]) {
      assert r[i] == s[|s| - 1 - i] && r[j] == s[|s| - 1 - j];
    }
  }

  /** Sorting with `greater` gives the sort with `less`, back to front. */
  lemma DescendingIsReversed(s: seq<int>)
    ensures Sort(Greater, s) == Reverse(Sort(Less, s))
  {
    var t := Sort(Less, s);
    ReverseSorted(t);
    ReversePermutes(t);
    SortedUnique(Greater, Sort(Greater, s), Reverse(t));
  }

  /** A range is sorted exactly when each value ranks before its successor. */
  lemma {:induction false} SortedAdjacent(c: Compare, s: seq<int>)
    ensures Sorted(c, s) <==> forall i :: 0 <= i < |s| - 1 ==> c.Ranks(s[i], s[i + 1])
  {
    if |s| > 1 && forall i :: 0 <= i < |s| - 1 ==> c.Ranks(s[i], s[i + 1]) {
      SortedAdjacent(c, s[1..]);
      assert forall i :: 0 <= i < |s[1..]| - 1 ==> c.Ranks(s[1..][i], s[1..][i + 1]) by {
        forall i | 0 <= i < |s[1..]| - 1 ensures c.Ranks(s[1..][i], s[1..][i + 1]) {
          assert s[1..][i] == s[i + 1] && s[1..][i + 1] == s[i + 2];
        }
      }
      SortedCons(c, s[0], s[1..]);
      assert s == [s[0]] + s[1..];
    }
  }
}
