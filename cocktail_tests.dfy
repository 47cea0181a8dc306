/**
  The cocktail sort's test scenarios: the shared inputs of the test file, sorted with
  the default `less` comparator and with `greater`, with the adjacent-pair checks the
  tests make stated as postconditions. A `std::string` is modelled by its character codes.
*/
module CocktailTests {
  import opened Orders
  import opened CocktailSort

  /** `ArraySort`: sorted, with negative values. */
  const ArraySort: seq<int> := [-3, -2, 0, 2, 8, 15, 36, 212, 366]
  /** `ArrayRand`: unsorted, with negative values and repeats. */
  const ArrayRand: seq<int> := [4, 3, 5, 2, -18, 3, 2, 3, 4, 5, -5]
  /** `StrRand`. */
  const StrRand: string := "xacvgeze"

  /** The character codes of a string. */
  function Codes(s: string): (r: seq<int>)
    ensures |r| == |s| && forall i :: 0 <= i < |s| ==> r[i] == s[i] as int
  {
    seq(|s|, i requires 0 <= i < |s| => s[i] as int)
  }

  /** Each value is at most its successor: the check of `EXPECT_LE(*it, *(it + 1))`. */
  predicate NonDecreasing(s: seq<int>) {
    forall i :: 0 <= i < |s| - 1 ==> s[i] <= s[i + 1]
  }

  /** Each value is at least its successor: the check of `EXPECT_GE(*it, *(it + 1))`. */
  predicate NonIncreasing(s: seq<int>) {
    forall i :: 0 <= i < |s| - 1 ==> s[i] >= s[i + 1]
  }

  /** A fresh container holding `s`. */
  method Container(s: seq<int>) returns (a: array<int>)
    ensures fresh(a) && a[..] == s
  {
    a := new int[|s|](i requires 0 <= i < |s| => s[i]);
  }

  /** Sorts all of `s` with the comparator `c`, as `Cocktail<IT, Compare>(v.begin(), v.end())`. */
  method SortAll(s: seq<int>, c: Compare) returns (r: seq<int>)
    ensures r == Sort(c, s)
  {
    var a := Container(s);
    assert a[0..a.Length] == s;
    Cocktail(a, 0, a.Length, c);
    assert a[..] == a[0..a.Length];
    r := a[..];
  }

  /** What the tests check of a sorted result: each value ranks before its successor. */
  lemma SortAdjacent(c: Compare, s: seq<int>)
    ensures multiset(Sort(c, s)) == multiset(s)
    ensures forall i :: 0 <= i < |s| - 1 ==> c.Ranks(Sort(c, s)[i], Sort(c, s)[i + 1])
  {
    SortedAdjacent(c, Sort(c, s));
  }

  /** `ArraySort` is sorted by `less`, checked pair by pair. */
  lemma ArraySortSorted()
    ensures Sort(Less, ArraySort) == ArraySort
  {
    SortedAdjacent(Less, ArraySort);
    SortOfSorted(Less, ArraySort);
  }

  /** Sorted by `greater`, `ArraySort` comes out back to front. */
  lemma ArraySortReversed()
    ensures Sort(Greater, ArraySort) == [366, 212, 36, 15, 8, 2, 0, -2, -3]
  {
    ArraySortSorted();
    DescendingIsReversed(ArraySort);
    ReverseOfArraySort(ArraySort);
  }

  lemma ReverseOfArraySort(s: seq<int>)
    requires s == ArraySort
    ensures Reverse(s) == [366, 212, 36, 15, 8, 2, 0, -2, -3]
  {
    var r := Reverse(s);
    assert r[0] == s[8] && r[1] == s[7] && r[2] == s[6] && r[3] == s[5] && r[4] == s[4];
    assert r[5] == s[3] && r[6] == s[2] && r[7] == s[1] && r[8] == s[0];
  }

  /** Normal run: the random array ends non-decreasing, holding the same values. */
  method SortsRandomArray() returns (r: seq<int>)
    ensures NonDecreasing(r) && multiset(r) == multiset(ArrayRand)
  {
    r := SortAll(ArrayRand, Less);
    SortAdjacent(Less, ArrayRand);
  }

  /**
    The already-sorted scenario as written: the local is initialised from itself, so the
    container sorted holds unspecified values `held`, not `ArraySort`. Whatever it holds,
    the check of the scenario passes, and the result equals `ArraySort` only when `held`
    is a permutation of it: the scenario never exercises `ArraySort`.
  */
  method SortsSelfCopy(held: seq<int>) returns (r: seq<int>)
    ensures NonDecreasing(r) && multiset(r) == multiset(held)
    ensures r == ArraySort ==> multiset(held) == multiset(ArraySort)
  {
    r := SortAll(held, Less);
    SortAdjacent(Less, held);
  }

  /** The intended scenario: the global `ArraySort`, already sorted, is left as it is. */
  method KeepsSortedArray() returns (r: seq<int>)
    ensures r == ArraySort && NonDecreasing(r)
  {
    r := SortAll(ArraySort, Less);
    ArraySortSorted();
    SortAdjacent(Less, ArraySort);
  }

  /** Inverted bounds, `Cocktail(v.end(), v.begin())`: the array is left exactly as it was. */
  method InvertedRange() returns (r: seq<int>)
    ensures r == ArrayRand
  {
    var a := Container(ArrayRand);
    Cocktail(a, a.Length, 0, Less);
    r := a[..];
  }

  /** An empty container is accepted and stays empty. */
  method EmptyRange() returns (r: seq<int>)
    ensures r == []
  {
    var a := Container([]);
    Cocktail(a, 0, a.Length, Less);
    r := a[..];
  }

  /** A container of one value keeps it. */
  method UniqueValue() returns (r: seq<int>)
    ensures r == [511]
  {
    var a := Container([511]);
    Cocktail(a, 0, a.Length, Less);
    r := a[..];
    assert r == Sort(Less, [511]);
  }

  /** The string, sorted with `less<char>`, ends non-decreasing. */
  method SortsString() returns (r: seq<int>)
    ensures NonDecreasing(r) && multiset(r) == multiset(Codes(StrRand))
  {
    r := SortAll(Codes(StrRand), Less);
    SortAdjacent(Less, Codes(StrRand));
  }

  /** The random array, sorted with `greater`, ends non-increasing. */
  method SortsRandomArrayDescending() returns (r: seq<int>)
    ensures NonIncreasing(r) && multiset(r) == multiset(ArrayRand)
  {
    r := SortAll(ArrayRand, Greater);
    SortAdjacent(Greater, ArrayRand);
  }

  /** The sorted array, sorted with `greater`, ends non-increasing: it is reversed. */
  method ReversesSortedArray() returns (r: seq<int>)
    ensures NonIncreasing(r) && r == [366, 212, 36, 15, 8, 2, 0, -2, -3]
  {
    r := SortAll(ArraySort, Greater);
    ArraySortReversed();
  }

  /** The string, sorted with `greater<char>`, ends non-increasing. */
  method SortsStringDescending() returns (r: seq<int>)
    ensures NonIncreasing(r) && multiset(r) == multiset(Codes(StrRand))
  {
    r := SortAll(Codes(StrRand), Greater);
    SortAdjacent(Greater, Codes(StrRand));
  }
}
