# Hurna-Core: bounded selection and cocktail sort, modelled in Dafny

This project models two algorithms from Hurna-Core (namespaces `SHA_Search` and `huc::sort`).

- **`MaxMElements<Container, Iterator, Compare>(begin, end, m)`** returns the m extreme values of a range, in comparator order.
  - It returns an empty container when `m < 1` or `m` exceeds the length of the range.
  - Otherwise it picks a sentinel by probing the comparator once, with `Compare()(0, lowest())`, and fills an m-slot buffer with it. On unsigned types this probe can pick the wrong sentinel (see "## Findings"); the method models the probe as written, and the corrected selection `Select` is proved alongside it.
  - It then carries every input value through all m slots. At each slot the carried value swaps with the slot whenever `Compare()(carried, slot)` holds. The value carried out of the last slot is dropped.
- **`Cocktail<IT, Compare>(begin, end)`** is an in-place bidirectional exchange sort. Its behaviour is fixed by its test file, whose scenarios are modelled one by one.

Files:
- `orders.dfy` (module `Orders`):
  - The four standard comparator functors. `Holds` is the functor call. `Ranks` is the order a range sorted by that functor follows.
  - Sortedness, a reference insertion sort `Sort`, and the uniqueness of sorted permutations.
- `max_m_elements.dfy` (module `MaxMElements`):
  - The element type's bounds `Limits`.
  - The specification functions `Pass` (one inner loop), `Scan` (the outer loop), `SelectProbed` (the whole call with the source's sentinel) and `Select` (the whole call with the intended sentinel).
  - The method `MaxMElements` over an array, and its inner loop `Bubble`, both proved against those functions.
  - The lemmas relating `Select` to `Sort`.
- `cocktail.dfy` (module `CocktailSort`): the in-place sort over positions `[lo, hi)` of an array, with its forward and backward passes.
- `cocktail_tests.dfy` (module `CocktailTests`): the test scenarios as methods, each with the checks the test makes as postconditions.

Elements are mathematical integers. For `MaxMElements`, the element type's `lowest()` and `max()` are explicit (`Int32`, `UInt32`), and the input values are required to lie within them.

## Model

| member | source | states |
|---|---|---|
| MaxMElements.MaxMElements | Modules/Search/max_m_elements.hxx:31-57 | The result is empty when m < 1 or m > end - begin. Otherwise it is the selection as written, `SelectProbed`, over `a[begin..end]`, with the sentinel of the probe at line 39. Whenever that sentinel is the intended one, and in particular on every signed type, the result is the first m values of the range sorted by the comparator. There is no `modifies` clause, so the input array is only read. |
| MaxMElements.Bubble | Modules/Search/max_m_elements.hxx:49-53 | The inner loop leaves the buffer as `Pass(old buffer, x).0` and returns the carried-out value `Pass(old buffer, x).1`. It runs one iteration per slot, with no early exit, and each iteration makes one comparator call. |
| MaxMElements.ProbedLimit | Modules/Search/max_m_elements.hxx:38-41 | The sentinel as the source picks it is one of the type's two extremes. Which one, and when it is right, is stated by `ProbeAgreesOnSignedTypes` and the two `ProbeFails` lemmas. |
| MaxMElements.Limit | Modules/Search/max_m_elements.hxx:38-41 | The intended sentinel is representable, and every representable value ranks before it under the comparator. |
| MaxMElements.Pass | Modules/Search/max_m_elements.hxx:49-53 | One inner loop keeps the buffer's length. `PassPermutes`, `PassSorted` and `PassInserts` state that it is an ordered insertion whose last value falls out. |
| MaxMElements.Scan | Modules/Search/max_m_elements.hxx:46-54 | The outer loop keeps the buffer's length. `ScanStep` and `ScanIsSortPrefix` state its invariant and its final buffer. |
| MaxMElements.SelectProbed | Modules/Search/max_m_elements.hxx:34-54 | The whole call as written is empty when m < 1 or m > length, and otherwise holds m values. `SelectProbedIsTopM` gives its value on signed types, and the `ProbeFails` lemmas show where it goes wrong. |
| MaxMElements.Select | Modules/Search/max_m_elements.hxx:34-54 | The whole call with the intended sentinel is empty when m < 1 or m > length, and otherwise holds m values. `SelectIsTopM` and `SelectKeepsExtremes` state that these are the m extreme values. |
| MaxMElements.SelectProbedIsTopM | Modules/Search/max_m_elements.hxx:29-41 | On a signed type, for 1 <= m <= length, the selection as written is the first m values of the input sorted by the comparator. |
| MaxMElements.ProbeAgreesOnSignedTypes | Modules/Search/max_m_elements.hxx:38-41 | On a signed type, the probe `Compare()(0, lowest)` picks the intended sentinel: `lowest` for `greater`/`greater_equal` and `max` for `less`/`less_equal`. |
| MaxMElements.ProbeFailsForGreater | Modules/Search/max_m_elements.hxx:38-41 | On `unsigned int` with `greater`, the probe picks `max`. The selection of 1 from [1, 2, 3] then returns [4294967295], while the intended sentinel gives [3]. |
| MaxMElements.ProbeFailsForLessEqual | Modules/Search/max_m_elements.hxx:38-41 | On `unsigned int` with `less_equal`, the probe picks 0. The selection of 1 from [1, 2, 3] then returns [0], while the intended sentinel gives [1]. |
| MaxMElements.PassPermutes | Modules/Search/max_m_elements.hxx:51-53 | A pass only exchanges values. The new buffer plus the carried-out value equals, as a multiset, the old buffer plus the inserted value. |
| MaxMElements.PassSorted | Modules/Search/max_m_elements.hxx:48-53 | A pass through a sorted buffer keeps it sorted, and the carried-out value ranks after every value kept. |
| MaxMElements.PassInserts | Modules/Search/max_m_elements.hxx:48-53 | A pass through a sorted buffer is an ordered insertion whose last value falls out. |
| MaxMElements.ScanStep | Modules/Search/max_m_elements.hxx:46-54 | One outer iteration keeps the loop invariant. The buffer stays sorted, and the buffer plus every dropped value equals, as a multiset, the sentinels plus the values read so far. |
| MaxMElements.ScanIsSortPrefix | Modules/Search/max_m_elements.hxx:44-54 | After the outer loop, the buffer is the first m values of the sorted sequence made of the m sentinels and the input. |
| MaxMElements.SelectIsTopM | Modules/Search/max_m_elements.hxx:29-30 | For 1 <= m <= length, the selection is the first m values of the input sorted by the comparator. |
| MaxMElements.SelectKeepsExtremes | Modules/Search/max_m_elements.hxx:10-11 | The selection holds m input values in comparator order. Its first value ranks before every input value, and every value left out ranks after its last value. |
| MaxMElements.FullSelectionSorts | Modules/Search/max_m_elements.hxx:13-14 | With m equal to the length of the range, the selection is the sorted input: a sorted permutation of it. |
| MaxMElements.TopThreeOfRandomArray | Modules/Search/max_m_elements.hxx:10-11 | On [4, 3, 5, 2, -18, 3, 2, 3, 4, 5, -5] with `greater_equal` and m = 3 on `int`, the result is [5, 5, 4]. |
| MaxMElements.BottomThreeOfRandomArray | Modules/Search/max_m_elements.hxx:10-11 | On the same array with `less` and m = 3, the result is [-18, -5, 2]. |
| CocktailSort.Cocktail | Modules/Sort/Testing/TestCocktail.cxx:44-96 | Positions outside `[lo, hi)` keep their values. The range ends as the sorted permutation of its old values. A range whose end does not lie after its begin is left unchanged. |
| CocktailSort.ForwardPass | Modules/Sort/Testing/TestCocktail.cxx:49 | A helper of `CocktailSort.Cocktail`, not claimed to match the source's passes. A forward pass permutes its window only, and its last slot then holds a value that ranks after the whole window. A pass without a swap changed nothing and found the window sorted. |
| CocktailSort.BackwardPass | Modules/Sort/Testing/TestCocktail.cxx:49 | A helper of `CocktailSort.Cocktail`, not claimed to match the source's passes. A backward pass permutes its window only, and its first slot then holds a value that ranks before the whole window. A pass without a swap found the window sorted. |
| CocktailTests.SortAll | Modules/Sort/Testing/TestCocktail.cxx:48-49 | Sorting a whole container yields the reference sort of its values. |
| Orders.SortedAdjacent | Modules/Sort/Testing/TestCocktail.cxx:52-53 | A range is sorted exactly when each value ranks before its successor, which is what the tests check. Both directions are proved. |
| CocktailTests.SortsRandomArray | Modules/Sort/Testing/TestCocktail.cxx:47-54 | With the default `less`, `ArrayRand` ends non-decreasing and holds the same values. |
| CocktailTests.SortsSelfCopy | Modules/Sort/Testing/TestCocktail.cxx:56-64 | The scenario as written sorts a container of unspecified values. Its check passes whatever those values are, and the result equals `ArraySort` only if they are a permutation of it. |
| CocktailTests.KeepsSortedArray | Modules/Sort/Testing/TestCocktail.cxx:56-64 | The scenario as intended by the comment at line 56, on a copy of the global `ArraySort`: sorting it leaves it exactly as it was. |
| Orders.SortOfSorted | Modules/Sort/Testing/TestCocktail.cxx:56-63 | Sorting a sorted range changes nothing. |
| CocktailTests.InvertedRange | Modules/Sort/Testing/TestCocktail.cxx:66-74 | Called with `(end, begin)`, the array is left exactly as `ArrayRand`. |
| CocktailTests.EmptyRange | Modules/Sort/Testing/TestCocktail.cxx:76-80 | An empty container is accepted and stays empty. |
| CocktailTests.UniqueValue | Modules/Sort/Testing/TestCocktail.cxx:82-87 | A container holding only 511 still holds only 511. |
| CocktailTests.SortsString | Modules/Sort/Testing/TestCocktail.cxx:89-95 | The codes of "xacvgeze", sorted with `less<char>`, end non-decreasing and are a permutation of the input. |
| CocktailTests.SortsRandomArrayDescending | Modules/Sort/Testing/TestCocktail.cxx:101-109 | With `greater`, `ArrayRand` ends non-increasing and holds the same values. |
| CocktailTests.ReversesSortedArray | Modules/Sort/Testing/TestCocktail.cxx:111-119 | With `greater`, the ascending `ArraySort` ends non-increasing, exactly reversed. |
| Orders.DescendingIsReversed | Modules/Sort/Testing/TestCocktail.cxx:111-119 | Sorting with `greater` gives the `less` sort back to front. |
| CocktailTests.SortsStringDescending | Modules/Sort/Testing/TestCocktail.cxx:121-129 | The codes of "xacvgeze", sorted with `greater<char>`, end non-increasing and are a permutation of the input. |

## Left out

- Templates: the generic `Container` (`resize`, iterators) and the iterator categories are not modelled. The input range is a run of positions of an `array<int>`, and the result is a `seq<int>`.
- Comparators: only the four standard functors `greater_equal`, `greater`, `less_equal` and `less` over integers are modelled. Floating-point element types and their NaN orderings are not.
- Ties: values are integers, so two equal values cannot be told apart. Which of two equal inputs ends up in the buffer, or ahead in the sorted range, is not observable in the model.
- MaxMElements.Bubble: the inner loop is a method of its own, called from the outer loop. It works on the same buffer array, so only the code's layout differs.
- MaxMElements.Bubble: the ghost count `compares` counts loop iterations, one comparator call each, and is not carried into `MaxMElements`'s contract. The overall O(N·m) bound and other complexity claims are not stated.
- MaxMElements.MaxMElements: it states the first m sorted values only when the probed sentinel is the intended one (every signed type, and unsigned types with `greater_equal` or `less`). For the other cases the contract gives the as-written `SelectProbed`, which the Findings show is wrong.
- CocktailTests.SortsSelfCopy: the self-initialised copy at line 58 is undefined behaviour in C++. Its contents are modelled as an arbitrary sequence, which says nothing about what a compiler actually produces.
- `cocktail.hxx` is not part of this model. `CocktailSort.Cocktail` is a standard shaker sort:
  - forward and backward passes over a window that shrinks by one slot at each end;
  - a stop once a pass makes no swap.

  Only the properties its tests assert, plus the permutation property, are tied to the source. The pass structure, the early stop and the helper method `CocktailSort.Round` are not claimed to match it.
- Strings are sorted as sequences of character codes (`CocktailTests.Codes`).
- CocktailTests.SortsString: as in the test, only the order and the permutation are stated. The concrete sorted string is not.
- The test harness (`TEST`, `EXPECT_*`) is not modelled. Each expectation is a postcondition of the scenario method instead.
- Compile-level defects of the header have no behavioural content and are not modelled: the missing `typename`, the `#endif()` and the commented-out default comparator.

## Findings

| source | as written | input that shows it | evidently intended | confidence | as-written member | corrected member |
|---|---|---|---|---|---|---|
| Modules/Search/max_m_elements.hxx:38-41 | sentinel chosen by `Compare()(0, lowest())` | `unsigned int`, `std::greater`, range [1, 2, 3], m = 1: `lowest()` is 0, `0 > 0` fails, so the sentinel is `max()`, which no value displaces; the result is [4294967295] instead of [3] | a probe on two distinct representable values, such as `Compare()(max(), lowest())`, so that the sentinel ranks after every value | not executed | MaxMElements.ProbeFailsForGreater | MaxMElements.Limit |
| Modules/Search/max_m_elements.hxx:38-41 | sentinel chosen by `Compare()(0, lowest())` | `unsigned int`, `std::less_equal`, range [1, 2, 3], m = 1: `0 <= 0` holds, so the sentinel is 0, which no value displaces; the result is [0] instead of [1] | as above | not executed | MaxMElements.ProbeFailsForLessEqual | MaxMElements.Limit |
| Modules/Sort/Testing/TestCocktail.cxx:58 | `Container ArraySort(ArraySort);` initialises the new local from itself (undefined behaviour), so the scenario never sorts the global `ArraySort` | any build: the local shadows the global in its own initializer, so the check runs on unspecified contents and passes whatever they are | a copy of the global, as the comment at line 56 says, e.g. `Container sortedArray(ArraySort);` | not executed | CocktailTests.SortsSelfCopy | CocktailTests.KeepsSortedArray |
