/**
  `MaxMElements`: the m extreme values of a range, in comparator order.

  A buffer of m slots is filled with a sentinel; every input value is then carried
  through all m slots, and at each slot it trades places with the slot's value
  whenever `Compare()(carried, slot)` holds. The value carried out of the last slot
  is dropped. This is one pass of insertion sort bounded to depth m, so the buffer
  ends as the first m values of the sorted input (`SelectIsTopM`).
*/
module MaxMElements {
  import opened Orders

  /** The representable range of the element type (`numeric_limits<T>::lowest()` and `max()`). */
  datatype Limits = Limits(lowest: int, max: int) {
    /** The sentinel probe compares against 0, so 0 must be representable. */
    predicate Valid() {
      lowest <= 0 < max
    }

    predicate Contains(x: int) {
      lowest <= x <= max
    }
  }

  const Int32 := Limits(-0x8000_0000, 0x7fff_ffff)
  const UInt32 := Limits(0, 0xffff_ffff)

  predicate AllIn(ty: Limits, s: seq<int>) {
    forall i :: 0 <= i < |s| ==> ty.Contains(s[i])
  }

  /** m copies of `v`: the buffer after `resize(m, limitValue)`. */
  function Fill(v: int, m: nat): (r: seq<int>)
    ensures |r| == m && forall i :: 0 <= i < m ==> r[i] == v
  {
    seq(m, _ => v)
  }

  /** The sentinel as the source chooses it: probe the comparator with 0 against `lowest`. */
  function ProbedLimit(c: Compare, ty: Limits): (v: int)
    ensures v == ty.lowest || v == ty.max
  {
    if c.Holds(0, ty.lowest) then ty.lowest else ty.max
  }

  /**
    The sentinel as intended: the representable extreme that ranks after every value,
    found by probing the comparator with `max` against `lowest`, which differ for any type.
  */
  function Limit(c: Compare, ty: Limits): (v: int)
    requires ty.Valid()
    ensures ty.Contains(v)
    ensures forall x :: ty.Contains(x) ==> c.Ranks(x, v)
  {
    if c.Holds(ty.max, ty.lowest) then ty.lowest else ty.max
  }

  /**
    One inner pass: carry `x` through the buffer `b`, swapping at each slot where
    `Compare()(carried, slot)` holds. Returns the new buffer and the value carried out.
  */
  function Pass(c: Compare, b: seq<int>, x: int): (r: (seq<int>, int))
    ensures |r.0| == |b|
  {
    if b == [] then ([], x)
    else if c.Holds(x, b[0]) then
      var p := Pass(c, b[1..], b[0]);
      ([x] + p.0, p.1)
    else
      var p := Pass(c, b[1..], x);
      ([b[0]] + p.0, p.1)
  }

  /** A pass loses no value: the new buffer and the carried-out value are the old buffer and `x`. */
  lemma {:induction false} PassPermutes(c: Compare, b: seq<int>, x: int)
    ensures multiset(Pass(c, b, x).0) + multiset{Pass(c, b, x).1} == multiset(b) + multiset{x}
  {
    if b != [] {
      var y, z := if c.Holds(x, b[0]) then x else b[0], if c.Holds(x, b[0]) then b[0] else x;
      PassPermutes(c, b[1..], z);
      PassCons(c, b, x, y, z);
    }
  }

  /** The multiset bookkeeping of one slot: `y` stays, `z` is carried on. */
  lemma PassCons(c: Compare, b: seq<int>, x: int, y: int, z: int)
    requires b != []
    requires y == (if c.Holds(x, b[0]) then x else b[0]) && z == (if c.Holds(x, b[0]) then b[0] else x)
    requires multiset(Pass(c, b[1..], z).0) + multiset{Pass(c, b[1..], z).1} == multiset(b[1..]) + multiset{z}
    ensures multiset(Pass(c, b, x).0) + multiset{Pass(c, b, x).1} == multiset(b) + multiset{x}
  {
    var p := Pass(c, b[1..], z);
    var r := Pass(c, b, x);
    assert r.0 == [y] + p.0 && r.1 == p.1;
    MultisetCons(y, p.0);
    MultisetCons(b[0], b[1..]);
    assert b == [b[0]] + b[1..];
    SwapOne(x, b[0], y, z, multiset(p.0), multiset{p.1}, multiset(b[1..]));
  }

  /** Multiset algebra for one slot of a pass. */
  lemma SwapOne(x: int, b0: int, y: int, z: int, p: multiset<int>, q: multiset<int>, rest: multiset<int>)
    requires (y == x && z == b0) || (y == b0 && z == x)
    requires p + q == rest + multiset{z}
    ensures (multiset{y} + p) + q == (multiset{b0} + rest) + multiset{x}
  {
    calc {
      (multiset{y} + p) + q;
      multiset{y} + (p + q);
      multiset{y} + (rest + multiset{z});
      (multiset{y} + multiset{z}) + rest;
      (multiset{x} + multiset{b0}) + rest;
      (multiset{b0} + rest) + multiset{x};
    }
  }

  lemma MultisetCons(y: int, s: seq<int>)
    ensures multiset([y] + s) == multiset{y} + multiset(s)
  {
  }

  /** The buffer after the outer loop has passed every value of `s`, in order. */
  function Scan(c: Compare, b: seq<int>, s: seq<int>): (r: seq<int>)
    ensures |r| == |b|
  {
    if s == [] then b else Pass(c, Scan(c, b, s[..|s| - 1]), s[|s| - 1]).0
  }

  /** The whole selection: the guard on m, then the scan over a sentinel-filled buffer. */
  function Select(c: Compare, ty: Limits, s: seq<int>, m: int): (r: seq<int>)
    requires ty.Valid()
    ensures m < 1 || m > |s| ==> r == []
    ensures 1 <= m <= |s| ==> |r| == m
  {
    if m < 1 || m > |s| then [] else Scan(c, Fill(Limit(c, ty), m), s)
  }

  /** The same selection with the sentinel the source's probe picks. */
  function SelectProbed(c: Compare, ty: Limits, s: seq<int>, m: int): (r: seq<int>)
    ensures m < 1 || m > |s| ==> r == []
    ensures 1 <= m <= |s| ==> |r| == m
  {
    if m < 1 || m > |s| then [] else Scan(c, Fill(ProbedLimit(c, ty), m), s)
  }

  /** A pass through a sorted buffer is an ordered insertion whose last value falls out. */
  lemma {:induction false} PassInserts(c: Compare, b: seq<int>, x: int)
    requires Sorted(c, b)
    ensures Pass(c, b, x).0 + [Pass(c, b, x).1] == Insert(c, b, x)
  {
    PassSorted(c, b, x);
    PassPermutes(c, b, x);
    var p := Pass(c, b, x);
    SortedUnique(c, p.0 + [p.1], Insert(c, b, x));
  }

  /** A pass keeps the buffer sorted, and the carried-out value ranks after all of it. */
  lemma {:induction false} PassSorted(c: Compare, b: seq<int>, x: int)
    requires Sorted(c, b)
    ensures Sorted(c, Pass(c, b, x).0 + [Pass(c, b, x).1])
  {
    if b != [] {
      var y, z := if c.Holds(x, b[0]) then x else b[0], if c.Holds(x, b[0]) then b[0] else x;
      HoldsRanks(c, x, b[0]);
      SortedSlice(c, b, 1, |b|);
      PassSorted(c, b[1..], z);
      var p := Pass(c, b[1..], z);
      var q := p.0 + [p.1];
      assert Pass(c, b, x).0 + [Pass(c, b, x).1] == [y] + q;
      assert q[0] == z || (|b| > 1 && q[0] == b[1]);
      if |b| > 1 {
        assert c.Ranks(b[0], b[1]);
      }
      SortedCons(c, y, q);
    }
  }

  /** Inserting into a sorted range and keeping the first m is the same as inserting into its first m. */
  lemma {:induction false} InsertPrefix(c: Compare, t: seq<int>, x: int, m: nat)
    requires Sorted(c, t) && m <= |t|
    ensures Sorted(c, t[..m])
    ensures Insert(c, t, x)[..m] == Insert(c, t[..m], x)[..m]
  {
    SortedSlice(c, t, 0, m);
    if m > 0 {
      if c.Ranks(x, t[0]) {
        InsertFront(c, t, x);
        InsertFront(c, t[..m], x);
        assert ([x] + t)[..m] == [x] + t[..m - 1] == ([x] + t[..m])[..m];
      } else {
        SortedSlice(c, t, 1, |t|);
        InsertPrefix(c, t[1..], x, m - 1);
        InsertPrefixStep(c, t, x, m);
      }
    }
  }

  /** The step of `InsertPrefix` past a head that ranks before `x`. */
  lemma InsertPrefixStep(c: Compare, t: seq<int>, x: int, m: nat)
    requires Sorted(c, t) && 0 < m <= |t| && !c.Ranks(x, t[0])
    requires Sorted(c, t[1..]) && Sorted(c, t[..m])
    requires Insert(c, t[1..], x)[..m - 1] == Insert(c, t[1..][..m - 1], x)[..m - 1]
    ensures Insert(c, t, x)[..m] == Insert(c, t[..m], x)[..m]
  {
    assert t[..m][1..] == t[1..][..m - 1];
    assert t[..m][0] == t[0];
    var r, r' := Insert(c, t[1..], x), Insert(c, t[..m][1..], x);
    InsertBehind(c, t, x);
    InsertBehind(c, t[..m], x);
    assert ([t[0]] + r)[..m] == [t[0]] + r[..m - 1];
    assert ([t[0]] + r')[..m] == [t[0]] + r'[..m - 1];
  }

  /** The buffer is the first m values of the sorted sequence of sentinels followed by the input. */
  lemma {:induction false} ScanIsSortPrefix(c: Compare, w: int, m: nat, s: seq<int>)
    ensures Scan(c, Fill(w, m), s) == Sort(c, Fill(w, m) + s)[..m]
  {
    var f := Fill(w, m);
    if s == [] {
      assert f + s == f;
      SortOfSorted(c, f);
    } else {
      var s', x := s[..|s| - 1], s[|s| - 1];
      ScanIsSortPrefix(c, w, m, s');
      var t := Sort(c, f + s');
      PassInserts(c, t[..m], x);
      InsertPrefix(c, t, x, m);
      assert (f + s)[..|f + s| - 1] == f + s';
    }
  }

  /** Values that rank after every value of `s` can be sorted in last. */
  lemma SortWithWorst(c: Compare, w: int, m: nat, s: seq<int>)
    requires forall i :: 0 <= i < |s| ==> c.Ranks(s[i], w)
    ensures Sort(c, Fill(w, m) + s) == Sort(c, s) + Fill(w, m)
  {
    var t, f := Sort(c, s), Fill(w, m);
    forall i, j | 0 <= i < |t| && 0 <= j < |f| ensures c.Ranks(t[i], f[j]) {
      assert t[i] in multiset(s);
    }
    SortedAppend(c, t, f);
    assert multiset(f + s) == multiset(t + f);
    SortedUnique(c, Sort(c, f + s), t + f);
  }

  /** For a valid m the selection is the first m values of the sorted input. */
  lemma SelectIsTopM(c: Compare, ty: Limits, s: seq<int>, m: int)
    requires ty.Valid() && AllIn(ty, s)
    requires 1 <= m <= |s|
    ensures Select(c, ty, s, m) == Sort(c, s)[..m]
  {
    ScanIsSortPrefix(c, Limit(c, ty), m, s);
    SentinelsSortLast(c, ty, s, m);
  }

  /** The sentinels sort in after every value of the input, so the first m are the input's. */
  lemma SentinelsSortLast(c: Compare, ty: Limits, s: seq<int>, m: nat)
    requires ty.Valid() && AllIn(ty, s) && m <= |s|
    ensures Sort(c, Fill(Limit(c, ty), m) + s)[..m] == Sort(c, s)[..m]
  {
    var t, f := Sort(c, s), Fill(Limit(c, ty), m);
    LimitRanksLast(c, ty, s);
    SortWithWorst(c, Limit(c, ty), m, s);
    assert (t + f)[..m] == t[..m];
  }

  /** Every value of a range of the element type ranks before the intended sentinel. */
  lemma LimitRanksLast(c: Compare, ty: Limits, s: seq<int>)
    requires ty.Valid() && AllIn(ty, s)
    ensures forall i :: 0 <= i < |s| ==> c.Ranks(s[i], Limit(c, ty))
  {
    forall i | 0 <= i < |s| ensures c.Ranks(s[i], Limit(c, ty)) {
      assert ty.Contains(s[i]);
    }
  }

  lemma SeqAssoc(s: seq<int>, x: int, t: seq<int>)
    ensures s + ([x] + t) == (s + [x]) + t
  {
  }

  /** One step of the inner loop at slot `i`: the pass over `b[i..]` unfolded once. */
  lemma PassAt(c: Compare, b: seq<int>, i: nat, x: int)
    requires i < |b|
    ensures Pass(c, b[i..], x) ==
      if c.Holds(x, b[i]) then ([x] + Pass(c, b[i + 1..], b[i]).0, Pass(c, b[i + 1..], b[i]).1)
      else ([b[i]] + Pass(c, b[i + 1..], x).0, Pass(c, b[i + 1..], x).1)
  {
    assert b[i..][0] == b[i] && b[i..][1..] == b[i + 1..];
  }

  /**
    One step of the outer loop keeps its invariant: the buffer stays sorted, and the buffer
    together with the values dropped so far is, as a multiset, the sentinels and the values seen.
  */
  lemma ScanStep(c: Compare, f: seq<int>, s: seq<int>, x: int, dropped: seq<int>)
    requires Sorted(c, Scan(c, f, s))
    requires multiset(Scan(c, f, s)) + multiset(dropped) == multiset(f) + multiset(s)
    ensures Scan(c, f, s + [x]) == Pass(c, Scan(c, f, s), x).0
    ensures Sorted(c, Scan(c, f, s + [x]))
    ensures multiset(Scan(c, f, s + [x])) + multiset(dropped + [Pass(c, Scan(c, f, s), x).1])
         == multiset(f) + multiset(s + [x])
  {
    var b := Scan(c, f, s);
    var p := Pass(c, b, x);
    assert (s + [x])[..|s + [x]| - 1] == s;
    PassSorted(c, b, x);
    PassPermutes(c, b, x);
    SortedSlice(c, p.0 + [p.1], 0, |b|);
    assert (p.0 + [p.1])[..|b|] == p.0;
    assert multiset(dropped + [p.1]) == multiset(dropped) + multiset{p.1};
    assert multiset(s + [x]) == multiset(s) + multiset{x};
    calc {
      multiset(p.0) + multiset(dropped + [p.1]);
      (multiset(p.0) + multiset{p.1}) + multiset(dropped);
      (multiset(b) + multiset{x}) + multiset(dropped);
      (multiset(b) + multiset(dropped)) + multiset{x};
      (multiset(f) + multiset(s)) + multiset{x};
      multiset(f) + multiset(s + [x]);
    }
  }

  /** With m equal to the length of the range, the selection sorts the whole range. */
  lemma FullSelectionSorts(c: Compare, ty: Limits, s: seq<int>)
    requires ty.Valid() && AllIn(ty, s)
    ensures Select(c, ty, s, |s|) == Sort(c, s)
    ensures Sorted(c, Select(c, ty, s, |s|))
    ensures multiset(Select(c, ty, s, |s|)) == multiset(s)
  {
    if |s| > 0 {
      SelectIsTopM(c, ty, s, |s|);
      assert Sort(c, s)[..|s|] == Sort(c, s);
    }
  }

  /**
    The selection holds m values of the input, in comparator order; the first ranks
    before every input value and every value left out ranks after the last one kept.
  */
  lemma SelectKeepsExtremes(c: Compare, ty: Limits, s: seq<int>, m: int)
    requires ty.Valid() && AllIn(ty, s)
    requires 1 <= m <= |s|
    ensures |Select(c, ty, s, m)| == m
    ensures Sorted(c, Select(c, ty, s, m))
    ensures multiset(Select(c, ty, s, m)) <= multiset(s)
    ensures forall i :: 0 <= i < |s| ==> c.Ranks(Select(c, ty, s, m)[0], s[i])
    ensures forall x :: x in multiset(s) - multiset(Select(c, ty, s, m)) ==> c.Ranks(Select(c, ty, s, m)[m - 1], x)
  {
    SelectIsTopM(c, ty, s, m);
    PrefixKeepsExtremes(c, Sort(c, s), s, m);
  }

  /** The same facts for the first m values of any sorted permutation of `s`. */
  lemma PrefixKeepsExtremes(c: Compare, t: seq<int>, s: seq<int>, m: nat)
    requires Sorted(c, t) && multiset(t) == multiset(s)
    requires 1 <= m <= |t|
    ensures Sorted(c, t[..m])
    ensures multiset(t[..m]) <= multiset(s)
    ensures forall i :: 0 <= i < |s| ==> c.Ranks(t[..m][0], s[i])
    ensures forall x :: x in multiset(s) - multiset(t[..m]) ==> c.Ranks(t[..m][m - 1], x)
  {
    var r, rest := t[..m], t[m..];
    assert t == r + rest;
    SortedSlice(c, t, 0, m);
    assert multiset(s) == multiset(r) + multiset(rest);
    forall i | 0 <= i < |s| ensures c.Ranks(r[0], s[i]) {
      HeadRanksFirst(c, t, s[i]);
    }
    forall x | x in multiset(s) - multiset(r) ensures c.Ranks(r[m - 1], x) {
      assert x in multiset(rest);
      var k :| 0 <= k < |rest| && rest[k] == x;
      assert t[m - 1] == r[m - 1] && t[m + k] == x;
    }
  }

  /** On a signed type the source's probe picks the intended sentinel. */
  lemma ProbeAgreesOnSignedTypes(c: Compare, ty: Limits)
    requires ty.Valid() && ty.lowest < 0
    ensures ProbedLimit(c, ty) == Limit(c, ty)
    ensures ProbedLimit(c, ty) == if c.Descending() then ty.lowest else ty.max
  {
  }

  /** On a signed type the selection as written is the first m values of the sorted input. */
  lemma SelectProbedIsTopM(c: Compare, ty: Limits, s: seq<int>, m: int)
    requires ty.Valid() && ty.lowest < 0 && AllIn(ty, s)
    requires 1 <= m <= |s|
    ensures SelectProbed(c, ty, s, m) == Sort(c, s)[..m]
  {
    ProbeAgreesOnSignedTypes(c, ty);
    SelectIsTopM(c, ty, s, m);
  }

  /** A value that never displaces the sentinel passes straight through a sentinel-filled buffer. */
  lemma {:induction false} PassUnbeaten(c: Compare, w: int, k: nat, x: int)
    requires !c.Holds(x, w)
    ensures Pass(c, Fill(w, k), x) == (Fill(w, k), x)
  {
    if k > 0 {
      assert Fill(w, k)[1..] == Fill(w, k - 1);
      PassUnbeaten(c, w, k - 1, x);
      assert Fill(w, k) == [w] + Fill(w, k - 1);
    }
  }

  /** If no input value displaces the sentinel, the buffer ends as it started. */
  lemma {:induction false} ScanUnbeaten(c: Compare, w: int, m: nat, s: seq<int>)
    requires forall i :: 0 <= i < |s| ==> !c.Holds(s[i], w)
    ensures Scan(c, Fill(w, m), s) == Fill(w, m)
  {
    if s != [] {
      ScanUnbeaten(c, w, m, s[..|s| - 1]);
      PassUnbeaten(c, w, m, s[|s| - 1]);
    }
  }

  /**
    On an unsigned type (`lowest` is 0) the probe `Compare()(0, 0)` answers wrongly for
    `greater`: the buffer keeps the sentinel `max` and the real values never enter, where
    the intended sentinel 0 lets the largest value through.
  */
  lemma ProbeFailsForGreater(s: seq<int>)
    requires s == [1, 2, 3]
    ensures ProbedLimit(Greater, UInt32) == UInt32.max
    ensures SelectProbed(Greater, UInt32, s, 1) == [0xffff_ffff]
    ensures Select(Greater, UInt32, s, 1) == [3]
  {
    ScanUnbeaten(Greater, 0xffff_ffff, 1, s);
    var f := Fill(0, 1);
    assert f == [0] && s[..0] == [];
    ScanAt(Greater, f, s, 1, 1, [0], [1]);
    ScanAt(Greater, f, s, 2, 2, [1], [2]);
    ScanAt(Greater, f, s, 3, 3, [2], [3]);
    assert s[..3] == s;
  }

  /** The same for `less_equal`: the probe picks 0, which no value displaces, instead of `max`. */
  lemma ProbeFailsForLessEqual(s: seq<int>)
    requires s == [1, 2, 3]
    ensures ProbedLimit(LessEqual, UInt32) == UInt32.lowest
    ensures SelectProbed(LessEqual, UInt32, s, 1) == [0]
    ensures Select(LessEqual, UInt32, s, 1) == [1]
  {
    ScanUnbeaten(LessEqual, 0, 1, s);
    var f := Fill(0xffff_ffff, 1);
    assert f == [0xffff_ffff] && s[..0] == [];
    ScanAt(LessEqual, f, s, 1, 1, [0xffff_ffff], [1]);
    ScanAt(LessEqual, f, s, 2, 2, [1], [1]);
    ScanAt(LessEqual, f, s, 3, 3, [1], [1]);
    assert s[..3] == s;
  }

  /**
    The top three of the tests' random array under `greater_equal`, traced buffer by
    buffer through the scan.
  */
  lemma TopThreeOfRandomArray(s: seq<int>)
    requires s == [4, 3, 5, 2, -18, 3, 2, 3, 4, 5, -5]
    ensures Select(GreaterEqual, Int32, s, 3) == [5, 5, 4]
  {
    var f := Fill(-0x8000_0000, 3);
    TopThreeOfRandomArrayTrace(s);
    ScanAt(GreaterEqual, f, s, 9, 4, [5, 4, 3], [5, 4, 4]);
    ScanAt(GreaterEqual, f, s, 10, 5, [5, 4, 4], [5, 5, 4]);
    ScanAt(GreaterEqual, f, s, 11, -5, [5, 5, 4], [5, 5, 4]);
    assert s[..11] == s;
  }

  /** The buffer after the first eight values. */
  lemma TopThreeOfRandomArrayTrace(s: seq<int>)
    requires s == [4, 3, 5, 2, -18, 3, 2, 3, 4, 5, -5]
    ensures Scan(GreaterEqual, Fill(-0x8000_0000, 3), s[..8]) == [5, 4, 3]
  {
    var f := Fill(-0x8000_0000, 3);
    TopThreeOfRandomArrayStart(s);
    ScanAt(GreaterEqual, f, s, 5, -18, [5, 4, 3], [5, 4, 3]);
    ScanAt(GreaterEqual, f, s, 6, 3, [5, 4, 3], [5, 4, 3]);
    ScanAt(GreaterEqual, f, s, 7, 2, [5, 4, 3], [5, 4, 3]);
    ScanAt(GreaterEqual, f, s, 8, 3, [5, 4, 3], [5, 4, 3]);
  }

  /** The buffer after the first four values. */
  lemma TopThreeOfRandomArrayStart(s: seq<int>)
    requires s == [4, 3, 5, 2, -18, 3, 2, 3, 4, 5, -5]
    ensures Scan(GreaterEqual, Fill(-0x8000_0000, 3), s[..4]) == [5, 4, 3]
  {
    var f := Fill(-0x8000_0000, 3);
    assert f == [-0x8000_0000, -0x8000_0000, -0x8000_0000];
    assert s[..0] == [];
    ScanAt(GreaterEqual, f, s, 1, 4, [-0x8000_0000, -0x8000_0000, -0x8000_0000], [4, -0x8000_0000, -0x8000_0000]);
    ScanAt(GreaterEqual, f, s, 2, 3, [4, -0x8000_0000, -0x8000_0000], [4, 3, -0x8000_0000]);
    ScanAt(GreaterEqual, f, s, 3, 5, [4, 3, -0x8000_0000], [5, 4, 3]);
    ScanAt(GreaterEqual, f, s, 4, 2, [5, 4, 3], [5, 4, 3]);
  }

  /** The bottom three of the tests' random array under `less`, traced the same way. */
  lemma BottomThreeOfRandomArray(s: seq<int>)
    requires s == [4, 3, 5, 2, -18, 3, 2, 3, 4, 5, -5]
    ensures Select(Less, Int32, s, 3) == [-18, -5, 2]
  {
    var f := Fill(0x7fff_ffff, 3);
    BottomThreeOfRandomArrayTrace(s);
    ScanAt(Less, f, s, 9, 4, [-18, 2, 2], [-18, 2, 2]);
    ScanAt(Less, f, s, 10, 5, [-18, 2, 2], [-18, 2, 2]);
    ScanAt(Less, f, s, 11, -5, [-18, 2, 2], [-18, -5, 2]);
    assert s[..11] == s;
  }

  /** The buffer after the first eight values. */
  lemma BottomThreeOfRandomArrayTrace(s: seq<int>)
    requires s == [4, 3, 5, 2, -18, 3, 2, 3, 4, 5, -5]
    ensures Scan(Less, Fill(0x7fff_ffff, 3), s[..8]) == [-18, 2, 2]
  {
    var f := Fill(0x7fff_ffff, 3);
    BottomThreeOfRandomArrayStart(s);
    ScanAt(Less, f, s, 5, -18, [2, 3, 4], [-18, 2, 3]);
    ScanAt(Less, f, s, 6, 3, [-18, 2, 3], [-18, 2, 3]);
    ScanAt(Less, f, s, 7, 2, [-18, 2, 3], [-18, 2, 2]);
    ScanAt(Less, f, s, 8, 3, [-18, 2, 2], [-18, 2, 2]);
  }

  /** The buffer after the first four values. */
  lemma BottomThreeOfRandomArrayStart(s: seq<int>)
    requires s == [4, 3, 5, 2, -18, 3, 2, 3, 4, 5, -5]
    ensures Scan(Less, Fill(0x7fff_ffff, 3), s[..4]) == [2, 3, 4]
  {
    var f := Fill(0x7fff_ffff, 3);
    assert f == [0x7fff_ffff, 0x7fff_ffff, 0x7fff_ffff];
    assert s[..0] == [];
    ScanAt(Less, f, s, 1, 4, [0x7fff_ffff, 0x7fff_ffff, 0x7fff_ffff], [4, 0x7fff_ffff, 0x7fff_ffff]);
    ScanAt(Less, f, s, 2, 3, [4, 0x7fff_ffff, 0x7fff_ffff], [3, 4, 0x7fff_ffff]);
    ScanAt(Less, f, s, 3, 5, [3, 4, 0x7fff_ffff], [3, 4, 5]);
    ScanAt(Less, f, s, 4, 2, [3, 4, 5], [2, 3, 4]);
  }

  /** One outer step of a traced scan: the buffer after `s[..k]` from the buffer after `s[..k - 1]`. */
  lemma ScanAt(c: Compare, f: seq<int>, s: seq<int>, k: nat, x: int, before: seq<int>, after: seq<int>)
    requires 0 < k <= |s| && s[k - 1] == x
    requires Scan(c, f, s[..k - 1]) == before
    requires Pass(c, before, x).0 == after
    ensures Scan(c, f, s[..k]) == after
  {
    assert s[..k][..k - 1] == s[..k - 1];
  }

  /**
    The inner loop: carry `x` through every slot of the buffer, trading places with the
    slot whenever `Compare()(carried, slot)` holds; no early exit. Returns the value
    carried out of the last slot. `compares` counts the iterations, each of which makes
    exactly one comparator call.
  */
  method Bubble(buffer: array<int>, x: int, c: Compare) returns (tmpVal: int, ghost compares: nat)
    modifies buffer
    ensures buffer[..] == Pass(c, old(buffer[..]), x).0
    ensures tmpVal == Pass(c, old(buffer[..]), x).1
    ensures compares == buffer.Length
  {
    ghost var before := buffer[..];
    var index := 0;
    tmpVal := x;
    compares := 0;
    assert before[0..] == before && buffer[..0] == [];
    while index < buffer.Length
      invariant 0 <= index <= buffer.Length
      invariant buffer[index..] == before[index..]
      invariant Pass(c, before, x).0 == buffer[..index] + Pass(c, before[index..], tmpVal).0
      invariant Pass(c, before, x).1 == Pass(c, before[index..], tmpVal).1
      invariant compares == index
    {
      ghost var done, rest := buffer[..index], Pass(c, before[index..], tmpVal);
      PassAt(c, before, index, tmpVal);
      if c.Holds(tmpVal, buffer[index]) {
        buffer[index], tmpVal := tmpVal, buffer[index];
      }
      ghost var next := Pass(c, before[index + 1..], tmpVal);
      assert rest == ([buffer[index]] + next.0, next.1);
      assert buffer[..index + 1] == done + [buffer[index]];
      SeqAssoc(done, buffer[index], next.0);
      compares := compares + 1;
      index := index + 1;
    }
    assert buffer[..] == buffer[..index] && before[index..] == [];
  }

  /**
    `MaxMElements(begin, end, m)`: an empty result when m is below 1 or above the length of
    the range; otherwise the buffer after scanning `a[begin..end]`, filled with the sentinel
    the source's probe picks. Whenever that sentinel is the intended one (on every signed
    type) the result is the m extreme values of the range in comparator order. The range is
    only read.
  */
  method MaxMElements(a: array<int>, begin: int, end: int, m: int, c: Compare, ty: Limits)
    returns (r: seq<int>)
    requires 0 <= begin <= a.Length && 0 <= end <= a.Length
    requires ty.Valid() && forall i :: begin <= i < end ==> ty.Contains(a[i])
    ensures m < 1 || m > end - begin ==> r == []
    ensures 1 <= m <= end - begin ==> r == SelectProbed(c, ty, a[begin..end], m)
    ensures 1 <= m <= end - begin && ProbedLimit(c, ty) == Limit(c, ty) ==> r == Sort(c, a[begin..end])[..m]
    ensures 1 <= m <= end - begin && ty.lowest < 0 ==> r == Sort(c, a[begin..end])[..m]
  {
    if m < 1 || m > end - begin {
      return [];
    }
    var limitValue := ProbedLimit(c, ty);
    var buffer := new int[m](_ => limitValue);
    ghost var sentinels := Fill(limitValue, m);
    assert buffer[..] == sentinels;
    ghost var seen: seq<int> := [];
    ghost var dropped: seq<int> := [];
    var it := begin;
    while it != end
      invariant begin <= it <= end
      invariant buffer.Length == m
      invariant seen == a[begin..it]
      invariant buffer[..] == Scan(c, sentinels, seen)
      invariant Sorted(c, buffer[..])
      invariant multiset(buffer[..]) + multiset(dropped) == multiset(sentinels) + multiset(seen)
    {
      ScanStep(c, sentinels, seen, a[it], dropped);
      var carried, _ := Bubble(buffer, a[it], c);
      assert a[begin..it + 1] == seen + [a[it]];
      dropped := dropped + [carried];
      seen := seen + [a[it]];
      it := it + 1;
    }
    r := buffer[..];
    if ty.lowest < 0 {
      ProbeAgreesOnSignedTypes(c, ty);
    }
    if ProbedLimit(c, ty) == Limit(c, ty) {
      SelectIsTopM(c, ty, seen, m);
    }
  }
}
