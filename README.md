# BinarySearcher in Dafny

A model of `BinarySearcher`, a small Java class that searches a caller-supplied
`long[]` by binary search. The class

- is constructed over an array and refuses a `null` one with `InvalidArray`;
- offers `validate()`, an opt-in scan that throws `OutOfOrderArray` at the
  first adjacent pair out of order;
- computes midpoints as `l + (r - l) / 2`, a form that cannot overflow on
  non-negative bounds;
- finds the lower bound of an element (the first index whose value is at least
  the element, or the length when there is none) by recursing on the
  half-open range `[l, r)`;
- answers membership as "the lower bound is inside the array and holds the
  element".

Files:

- `java_int.dfy`, module `JavaInt`: Java's 32-bit `int` as the newtype `int32`,
  with two's-complement wrap-around (`Wrap`, `Add`, `Sub`) and Java's `/ 2`,
  which rounds toward zero (`Half`). Division by 2 is the only division the
  source performs.
- `binary_search.dfy`, module `BinarySearch`: the two exceptions as the values
  of `Error`, returned through `Outcome` (for `void` methods) and `Result` (for
  construction). It holds the order predicates, `FindMidpoint`, the recursive
  search `LowerBoundIn`, the comparison count `ComparesIn`, and the class
  `BinarySearcher` with a constructor, `Validate`, `FindLowerBound` and `Find`.
  It also holds the factory `NewSearcher`, which models the constructor's null
  check, and the lemmas.
- `search_clients.dfy`, module `SearchClients`: callers that build the unit
  tests' arrays for `validate` and `find` (every array of
  BinarySearchTest.java:31, 40 and 79-84). They show that each expected
  outcome of those tests follows from the contracts alone. The exception is
  the zero-length array of BinarySearchTest.java:24-27: `Construction` shows
  the code accepts it, which the test does not expect (see "## Findings").

Each piece takes the form the Java code has:

- The class keeps the caller's array as a `const data: array<int>`. It borrows
  the reference and never writes through it.
- `Validate` is a method with the same `while` loop and early exit as the Java
  code. It has no `modifies` clause, so it is read-only by construction.
- `FindMidpoint`, the recursion and `Find` are pure functions.
- The recursion runs on `data[..]`, the contents of the array, which do not
  change during a search.
- Array lengths are bounded by `INT32_MAX`, as Java's are
  (`BinarySearcher.Valid`). Under that bound the search's `int` index
  arithmetic is proved never to overflow.

## Model

| member | source | states |
|---|---|---|
| `BinarySearch.NewSearcher` | src/binarySearch/BinarySearcher.java:6-10 | construction fails, with `InvalidArray`, exactly when the array is null; otherwise it yields a fresh searcher that holds the caller's array itself (no copy) |
| `BinarySearch.CheckArray` | src/binarySearch/BinarySearcher.java:8-9 | the constructor's guard passes exactly the non-null arrays and otherwise fails with `InvalidArray` |
| `BinarySearch.ZeroSizedArrayAccepted` | src/binarySearch/BinarySearcher.java:8 | as written, a zero-length array passes the guard |
| `BinarySearch.CheckArrayNonEmpty` | src/binarySearch/BinarySearchTest.java:19-27 | the guard the tests expect: passes exactly the non-null, non-empty arrays, otherwise `InvalidArray` |
| `BinarySearch.CheckArrayNonEmptyRefinesCheckArray` | src/binarySearch/BinarySearcher.java:8-9 | the two guards agree on every array except the zero-length ones, where they differ |
| `BinarySearch.BinarySearcher.constructor` | src/binarySearch/BinarySearcher.java:6-7 | the searcher stores the given array reference |
| `BinarySearch.BinarySearcher.Validate` | src/binarySearch/BinarySearcher.java:12-16 | returns normally exactly when the array is sorted (every element at most every later one); the only failure is `OutOfOrderArray`; arrays of length 0 or 1 pass; nothing is written |
| `BinarySearch.AdjacentInOrderIsSorted` | src/binarySearch/BinarySearcher.java:13-14 | checking only adjacent pairs, as the loop does, is equivalent to the array being sorted |
| `BinarySearch.FindMidpoint` | src/binarySearch/BinarySearcher.java:18-20 | in Java int arithmetic, whenever `r - l` does not overflow, the result is the midpoint of `l` and `r` rounded toward `l` (for `l <= r` and for `l > r`) |
| `BinarySearch.MidpointNoOverflow` | src/binarySearch/BinarySearcher.java:19 | for `0 <= l <= r` nothing overflows: `r - l` fits in an int, the result equals the exact `l + (r - l) / 2`, lies in `[l, r]`, and is below `r` when `l < r` |
| `BinarySearch.MidpointExamples` | src/binarySearch/BinarySearchTest.java:59-63 | the expected midpoints next to `Integer.MAX_VALUE`, for example `findMidpoint(1, MAX) = MAX/2 + 1` |
| `BinarySearch.MidpointOfZeroAndZero` | src/binarySearch/BinarySearchTest.java:55 | `findMidpoint(0, 0) = 0` |
| `BinarySearch.MidpointOfZeroAndOne` | src/binarySearch/BinarySearchTest.java:56 | `findMidpoint(0, 1) = 0`: an even split rounds toward `l` |
| `BinarySearch.MidpointOfZeroAndTwo` | src/binarySearch/BinarySearchTest.java:57 | `findMidpoint(0, 2) = 1` |
| `BinarySearch.MidpointOfZeroAndThree` | src/binarySearch/BinarySearchTest.java:58 | `findMidpoint(0, 3) = 1` |
| `BinarySearch.LowerBoundIn` | src/binarySearch/BinarySearcher.java:31-39 | terminates (measure `r - l`), reads only in-range indices and returns an index in `[l, r]` on any array; on a sorted array everything in `[l, i)` is below the element and everything in `[i, r)` is at least it |
| `BinarySearch.LowerBoundInReadsOnlyRange` | src/binarySearch/BinarySearcher.java:31-39 | the result depends only on the elements in `[l, r)` |
| `BinarySearch.BinarySearcher.FindLowerBound` | src/binarySearch/BinarySearcher.java:27-29 | returns an index in `[0, n]` on any array; on a sorted array that index is the insertion point (all elements before it are below the element, all from it on are at least it) |
| `BinarySearch.InsertionPointUnique` | src/binarySearch/BinarySearcher.java:27-29 | there is at most one insertion point, so the lower bound is fully determined |
| `BinarySearch.LowerBoundIsFirstAtLeast` | src/binarySearch/BinarySearcher.java:27-39 | on a sorted array the binary search returns the same index as a left-to-right scan for the first element at least the target (the leftmost position) |
| `BinarySearch.BinarySearcher.Find` | src/binarySearch/BinarySearcher.java:22-25 | a true answer always means the element occurs, even on an unsorted array; on a sorted array the answer is true exactly when the element occurs; the read of `array[lowerBound]` stays in bounds because of the `lowerBound < array.length` short-circuit |
| `BinarySearch.ComparesStep` | src/binarySearch/BinarySearcher.java:34-38 | one level of recursion makes one element comparison and continues on a sub-range of `[l, r)` with at most `floor((r - l) / 2)` elements |
| `BinarySearch.ComparesLogarithmic` | src/binarySearch/BinarySearcher.java:31-39 | a search over `n >= 1` elements makes at least 1 and at most `floor(log2 n) + 1` element comparisons |
| `BinarySearch.ComparesWhenAllAtLeast` | src/binarySearch/BinarySearcher.java:31-39 | when every element of the range is at least the target, the search makes exactly `floor(log2 n) + 1` comparisons, so the bound is tight |
| `BinarySearch.ComparesOnTestArrays` | src/binarySearch/BinarySearchTest.java:87-107 | the lower-bound recursion under `find(0)` on the test's arrays `0..n-1` makes 1, 6 and 17 comparisons `element > array[midpoint]` for `n` = 1, 32 and 65536; `find` itself then makes one more, `array[lowerBound] == element`, since the lower bound 0 is inside the array |

## Left out

- Java exceptions are modelled as return values (`Outcome`, `Result`), not as
  control flow. The exception classes themselves (BinarySearcher.java:41-45)
  are the two constructors of `Error`.
- Elements are mathematical integers. The `long` elements and the `int`
  target, with the target widened to `long` in `element > array[midpoint]`,
  compare exactly like mathematical integers, so no width is modelled for
  them. Only the midpoint, which is `int` arithmetic that could overflow, is
  modelled with 32-bit wrap-around.
- `midpoint + 1` is modelled on unbounded integers. It cannot overflow because
  `midpoint < r <= INT32_MAX` (`MidpointNoOverflow`).
- Aliasing and concurrent mutation of the caller's array are not modelled. The
  searcher borrows the reference, and the search functions read the array's
  contents at one point in time.
- The test class and its `BinarySearcherSpy` (BinarySearchTest.java:110-121)
  are not modelled. The spy overrides `find(int l, int r, int element)` and
  calls `super.find(l, r, element)` (BinarySearchTest.java:119), which
  `BinarySearcher` does not declare. BinarySearchTest.java therefore does not
  compile against this class, so none of its tests, `zeroSizedArrayThrowsException`
  included, can have run against this code; that is consistent with the
  zero-length finding below. The spy's comparison count is modelled as
  `ComparesIn`, which counts the comparisons `element > array[midpoint]` of the
  existing recursion.
- The test's bounds of at most 5 comparisons for 32 elements and at most 16
  for 65536 (BinarySearchTest.java:105-106) do not hold for this recursion.
  `ComparesOnTestArrays` shows 6 and 17 comparisons in the recursion alone
  for the test's own arrays, and `find(0)` adds one more. The bound that holds
  for the recursion is `floor(log2 n) + 1` (`ComparesLogarithmic`).
- `FindMidpoint` on bounds where `r - l` overflows (for example a negative `l`
  and a large `r`) returns Java's wrapped value, and its contract says nothing
  about that case. The search never calls it with such bounds.

## Findings

| source | as written | input that shows it | evidently intended | confidence | as-written member | corrected member |
|---|---|---|---|---|---|---|
| src/binarySearch/BinarySearcher.java:8 | only a `null` array is refused | `new BinarySearcher(new long[0])` constructs normally, while BinarySearchTest.java:24-27 expects `InvalidArray` | a zero-length array is refused with `InvalidArray` as well | medium (the test and the code disagree; not executed) | `BinarySearch.ZeroSizedArrayAccepted` | `BinarySearch.CheckArrayNonEmpty` |

The search functions need no change for the corrected guard. On an empty
array `FindLowerBound` returns 0 and `Find` returns false, so both guards give
the same search behaviour. `NewSearcher` follows the code as written.
