/**
 * A binary searcher over a caller-supplied array of integers: construction
 * (which rejects a missing array), an opt-in check that the array is in
 * non-decreasing order, the overflow-safe midpoint, the lower-bound search
 * over the half-open range [l, r), and membership derived from the lower
 * bound.
 */
module BinarySearch {
  import opened JavaInt

  /** The two exceptions the searcher throws, as values. */
  datatype Error = InvalidArray | OutOfOrderArray

  /** Normal return of a `void` operation, or the exception it throws. */
  datatype Outcome = Pass | Fail(error: Error)

  /** Normal return of a value, or the exception thrown instead. */
  datatype Result<T> = Ok(value: T) | Err(error: Error)

  // ---------------------------------------------------------------------------
  // Order of the array
  // ---------------------------------------------------------------------------

  /** Every element is at most every later element. */
  ghost predicate Sorted(s: seq<int>) {
    forall i, j :: 0 <= i < j < |s| ==> s[i] <= s[j]
  }

  /** Every adjacent pair is in order: what the validation scan inspects. */
  ghost predicate AdjacentInOrder(s: seq<int>) {
    forall i :: 0 <= i < |s| - 1 ==> s[i] <= s[i + 1]
  }

  /** Checking adjacent pairs is enough to establish the whole order. */
  lemma {:induction false} AdjacentInOrderIsSorted(s: seq<int>)
    ensures AdjacentInOrder(s) <==> Sorted(s)
  {
    if AdjacentInOrder(s) && |s| > 1 {
      var t := s[1..];
      assert AdjacentInOrder(t) by {
        forall i | 0 <= i < |t| - 1 ensures t[i] <= t[i + 1] {
          assert t[i] == s[i + 1] && t[i + 1] == s[i + 2];
        }
      }
      AdjacentInOrderIsSorted(t);
      forall i, j | 0 <= i < j < |s| ensures s[i] <= s[j] {
        if i > 0 {
          assert s[i] == t[i - 1] && s[j] == t[j - 1];
        } else if j > 1 {
          assert s[1] == t[0] && s[j] == t[j - 1];
        }
      }
    }
  }

  // ---------------------------------------------------------------------------
  // Midpoint
  // ---------------------------------------------------------------------------

  /**
   * `l + (r - l) / 2` in Java int arithmetic. Whenever `r - l` does not
   * overflow, the result is the midpoint of l and r rounded toward l.
   */
  function FindMidpoint(l: int32, r: int32): (m: int32)
    ensures l <= r && InRange(r as int - l as int) ==>
              2 * (m as int - l as int) <= r as int - l as int <= 2 * (m as int - l as int) + 1
    ensures r <= l && InRange(r as int - l as int) ==>
              r as int - l as int <= 2 * (m as int - l as int) <= r as int - l as int + 1
  {
    Add(l, Half(Sub(r, l)))
  }

  /**
   * On non-negative bounds nothing overflows: the Java result is the exact
   * value of `l + (r - l) / 2`, lies in [l, r], and is below r when the
   * range is not empty.
   */
  lemma MidpointNoOverflow(l: int32, r: int32)
    requires 0 <= l <= r
    ensures InRange(r as int - l as int)
    ensures FindMidpoint(l, r) as int == l as int + (r as int - l as int) / 2
    ensures l <= FindMidpoint(l, r) <= r
    ensures l < r ==> FindMidpoint(l, r) < r
  {
  }

  /** The values the unit tests expect at the top of the int range. */
  lemma MidpointExamples()
    ensures FindMidpoint(0, INT32_MAX as int32) as int == INT32_MAX / 2
    ensures FindMidpoint(1, INT32_MAX as int32) as int == INT32_MAX / 2 + 1
    ensures FindMidpoint(2, INT32_MAX as int32) as int == INT32_MAX / 2 + 1
    ensures FindMidpoint(3, INT32_MAX as int32) as int == INT32_MAX / 2 + 2
    ensures FindMidpoint(1, (INT32_MAX - 2) as int32) as int == INT32_MAX / 2
  {
  }

  /*
   * The values the unit tests expect for small bounds, one lemma each: the
   * solver handles one literal division at a time.
   */

  lemma MidpointOfZeroAndZero()
    ensures FindMidpoint(0, 0) == 0
  {
    var l: int32, r: int32 := 0, 0;
    MidpointNoOverflow(l, r);
  }

  lemma MidpointOfZeroAndOne()
    ensures FindMidpoint(0, 1) == 0
  {
    var l: int32, r: int32 := 0, 1;
    MidpointNoOverflow(l, r);
    assert (r as int - l as int) / 2 == 0;
  }

  lemma MidpointOfZeroAndTwo()
    ensures FindMidpoint(0, 2) == 1
  {
    var l: int32, r: int32 := 0, 2;
    MidpointNoOverflow(l, r);
    assert (r as int - l as int) / 2 == 1;
  }

  lemma MidpointOfZeroAndThree()
    ensures FindMidpoint(0, 3) == 1
  {
    var l: int32, r: int32 := 0, 3;
    MidpointNoOverflow(l, r);
    assert (r as int - l as int) / 2 == 1;
  }

  // ---------------------------------------------------------------------------
  // Lower bound
  // ---------------------------------------------------------------------------

  /** Every element before i is below e and every element from i on is at least e. */
  ghost predicate IsInsertionPoint(s: seq<int>, e: int, i: int) {
    && 0 <= i <= |s|
    && (forall k :: 0 <= k < i ==> s[k] < e)
    && (forall k :: i <= k < |s| ==> e <= s[k])
  }

  /**
   * The recursive search over the half-open range [l, r) of the array's
   * contents s. It stays inside [l, r] on any array; on a sorted array it
   * splits [l, r) into the elements below e and those at least e.
   */
  function LowerBoundIn(s: seq<int>, l: int, r: int, e: int): (i: int)
    requires |s| <= INT32_MAX
    requires 0 <= l <= r <= |s|
    ensures l <= i <= r
    ensures Sorted(s) ==> (forall k :: l <= k < i ==> s[k] < e)
    ensures Sorted(s) ==> (forall k :: i <= k < r ==> e <= s[k])
    decreases r - l
  {
    if l == r then
      l
    else
      MidpointNoOverflow(l as int32, r as int32);
      var midpoint := FindMidpoint(l as int32, r as int32) as int;
      if e > s[midpoint] then
        LowerBoundIn(s, midpoint + 1, r, e)
      else
        LowerBoundIn(s, l, midpoint, e)
  }

  /** The search inspects only the elements of [l, r). */
  lemma {:induction false} LowerBoundInReadsOnlyRange(s: seq<int>, t: seq<int>, l: int, r: int, e: int)
    requires |s| <= INT32_MAX && |t| <= INT32_MAX
    requires 0 <= l <= r <= |s| && r <= |t|
    requires forall k :: l <= k < r ==> s[k] == t[k]
    ensures LowerBoundIn(s, l, r, e) == LowerBoundIn(t, l, r, e)
    decreases r - l
  {
    if l != r {
      MidpointNoOverflow(l as int32, r as int32);
      var midpoint := FindMidpoint(l as int32, r as int32) as int;
      if e > s[midpoint] {
        LowerBoundInReadsOnlyRange(s, t, midpoint + 1, r, e);
      } else {
        LowerBoundInReadsOnlyRange(s, t, l, midpoint, e);
      }
    }
  }

  /** Reference definition: a left-to-right scan for the first element at least e. */
  function FirstAtLeast(s: seq<int>, e: int): (i: nat)
    ensures i <= |s|
    ensures forall k :: 0 <= k < i ==> s[k] < e
    ensures i < |s| ==> e <= s[i]
  {
    if s == [] then 0
    else if e <= s[0] then 0
    else 1 + FirstAtLeast(s[1..], e)
  }

  /** On a sorted sequence the scan's answer is an insertion point. */
  lemma FirstAtLeastIsInsertionPoint(s: seq<int>, e: int)
    requires Sorted(s)
    ensures IsInsertionPoint(s, e, FirstAtLeast(s, e))
  {
  }

  /** An insertion point is not before any index whose prefix is all below e. */
  lemma InsertionPointAtLeast(s: seq<int>, e: int, i: int, j: int)
    requires IsInsertionPoint(s, e, i)
    requires 0 <= j <= |s| && forall k :: 0 <= k < j ==> s[k] < e
    ensures j <= i
  {
    if j > 0 {
      assert s[j - 1] < e;
    }
  }

  /** There is at most one insertion point. */
  lemma InsertionPointUnique(s: seq<int>, e: int, i: int, j: int)
    requires IsInsertionPoint(s, e, i) && IsInsertionPoint(s, e, j)
    ensures i == j
  {
    InsertionPointAtLeast(s, e, i, j);
    InsertionPointAtLeast(s, e, j, i);
  }

  /**
   * On a sorted sequence the binary search over [0, n) returns exactly what
   * the linear scan returns: the leftmost insertion point.
   */
  lemma LowerBoundIsFirstAtLeast(s: seq<int>, e: int)
    requires |s| <= INT32_MAX && Sorted(s)
    ensures LowerBoundIn(s, 0, |s|, e) == FirstAtLeast(s, e)
  {
    FirstAtLeastIsInsertionPoint(s, e);
    InsertionPointUnique(s, e, LowerBoundIn(s, 0, |s|, e), FirstAtLeast(s, e));
  }

  // ---------------------------------------------------------------------------
  // Cost of the search
  // ---------------------------------------------------------------------------

  /** floor(log2 n). */
  function Log2(n: nat): (k: nat)
    requires n >= 1
  {
    if n == 1 then 0 else 1 + Log2(n / 2)
  }

  /**
   * The number of element comparisons `e > s[midpoint]` that LowerBoundIn
   * makes: one per level of recursion on a non-empty range.
   */
  ghost function ComparesIn(s: seq<int>, l: int, r: int, e: int): nat
    requires |s| <= INT32_MAX
    requires 0 <= l <= r <= |s|
    decreases r - l
  {
    if l == r then
      0
    else
      MidpointNoOverflow(l as int32, r as int32);
      var midpoint := FindMidpoint(l as int32, r as int32) as int;
      if e > s[midpoint] then
        1 + ComparesIn(s, midpoint + 1, r, e)
      else
        1 + ComparesIn(s, l, midpoint, e)
  }

  /**
   * One level of the search: one comparison, then a range of at most half
   * the size, rounded down.
   */
  lemma ComparesStep(s: seq<int>, l: int, r: int, e: int) returns (l': int, r': int)
    requires |s| <= INT32_MAX
    requires 0 <= l < r <= |s|
    ensures l <= l' <= r' <= r && r' - l' <= (r - l) / 2
    ensures ComparesIn(s, l, r, e) == 1 + ComparesIn(s, l', r', e)
  {
    MidpointNoOverflow(l as int32, r as int32);
    var midpoint := FindMidpoint(l as int32, r as int32) as int;
    if e > s[midpoint] {
      l', r' := midpoint + 1, r;
    } else {
      l', r' := l, midpoint;
    }
  }

  /** A search over n >= 1 elements makes between 1 and floor(log2 n) + 1 comparisons. */
  lemma {:induction false} ComparesLogarithmic(s: seq<int>, l: int, r: int, e: int)
    requires |s| <= INT32_MAX
    requires 0 <= l < r <= |s|
    ensures 1 <= ComparesIn(s, l, r, e) <= Log2(r - l) + 1
    decreases r - l
  {
    var l', r' := ComparesStep(s, l, r, e);
    if l' < r' {
      ComparesLogarithmic(s, l', r', e);
      Log2Monotonic(r' - l', (r - l) / 2);
    }
  }

  /**
   * When every element of [l, r) is at least e the search always keeps the
   * left half, and the bound floor(log2 n) + 1 is reached exactly.
   */
  lemma {:induction false} ComparesWhenAllAtLeast(s: seq<int>, l: int, r: int, e: int)
    requires |s| <= INT32_MAX
    requires 0 <= l < r <= |s|
    requires forall k :: l <= k < r ==> e <= s[k]
    ensures ComparesIn(s, l, r, e) == Log2(r - l) + 1
    decreases r - l
  {
    MidpointNoOverflow(l as int32, r as int32);
    var midpoint := FindMidpoint(l as int32, r as int32) as int;
    assert e <= s[midpoint];
    assert ComparesIn(s, l, r, e) == 1 + ComparesIn(s, l, midpoint, e);
    if l < midpoint {
      ComparesWhenAllAtLeast(s, l, midpoint, e);
      assert midpoint - l == (r - l) / 2;
    }
  }

  /** The sizes the comparison-count test uses. */
  lemma Log2Examples()
    ensures Log2(1) == 0 && Log2(32) == 5 && Log2(65536) == 16
  {
  }

  /**
   * Searching for 0 in the arrays 0, 1, ..., n - 1 that the comparison-count
   * test builds takes 1, 6 and 17 comparisons for n = 1, 32 and 65536.
   */
  lemma ComparesOnTestArrays()
    ensures ComparesIn(seq(1, i => i), 0, 1, 0) == 1
    ensures ComparesIn(seq(32, i => i), 0, 32, 0) == 6
    ensures ComparesIn(seq(65536, i => i), 0, 65536, 0) == 17
  {
    Log2Examples();
    ComparesWhenAllAtLeast(seq(1, i => i), 0, 1, 0);
    ComparesWhenAllAtLeast(seq(32, i => i), 0, 32, 0);
    ComparesWhenAllAtLeast(seq(65536, i => i), 0, 65536, 0);
  }

  /** floor(log2 n) is monotonic. */
  lemma {:induction false} Log2Monotonic(a: nat, b: nat)
    requires 1 <= a <= b
    ensures Log2(a) <= Log2(b)
    decreases b
  {
    if a > 1 {
      Log2Monotonic(a / 2, b / 2);
    }
  }

  // ---------------------------------------------------------------------------
  // The searcher object
  // ---------------------------------------------------------------------------

  /**
   * The searcher borrows the caller's array: it keeps the reference and
   * never writes to the array.
   */
  class BinarySearcher {
    const data: array<int>

    /** A Java array is indexed by int, so its length fits in an int. */
    ghost predicate Valid() {
      data.Length <= INT32_MAX
    }

    constructor (a: array<int>)
      requires a.Length <= INT32_MAX
      ensures data == a && Valid()
    {
      data := a;
    }

    /**
     * Scans adjacent pairs front to back and fails at the first inversion:
     * returns normally exactly when the array is sorted.
     */
    method Validate() returns (r: Outcome)
      ensures r == Pass || r == Fail(OutOfOrderArray)
      ensures r == Pass <==> Sorted(data[..])
    {
      var i := 0;
      while i < data.Length - 1
        invariant 0 <= i <= if data.Length == 0 then 0 else data.Length - 1
        invariant forall k :: 0 <= k < i ==> data[k] <= data[k + 1]
      {
        if data[i] > data[i + 1] {
          assert !Sorted(data[..]) by {
            assert data[..][i] > data[..][i + 1];
          }
          return Fail(OutOfOrderArray);
        }
        i := i + 1;
      }
      AdjacentInOrderIsSorted(data[..]);
      return Pass;
    }

    /**
     * The index of the first element at least `element`, or the length of
     * the array when there is none; on any array an index in [0, n].
     */
    function FindLowerBound(element: int): (i: int)
      reads data
      requires Valid()
      ensures 0 <= i <= data.Length
      ensures Sorted(data[..]) ==> IsInsertionPoint(data[..], element, i)
    {
      LowerBoundIn(data[..], 0, data.Length, element)
    }

    /**
     * Membership through the lower bound. A true answer always means the
     * element occurs; on a sorted array it occurs exactly when the answer is
     * true.
     */
    function Find(element: int): (found: bool)
      reads data
      requires Valid()
      ensures found ==> element in data[..]
      ensures Sorted(data[..]) ==> (found <==> element in data[..])
    {
      var lowerBound := FindLowerBound(element);
      lowerBound < data.Length && data[lowerBound] == element
    }
  }

  // ---------------------------------------------------------------------------
  // Construction
  // ---------------------------------------------------------------------------

  /** The constructor's guard: only a missing array is refused. */
  function CheckArray(a: array?<int>): (r: Outcome)
    ensures r == Pass || r == Fail(InvalidArray)
    ensures r == Pass <==> a != null
  {
    if a == null then Fail(InvalidArray) else Pass
  }

  /** Construction fails with InvalidArray exactly when the array is missing. */
  method NewSearcher(a: array?<int>) returns (r: Result<BinarySearcher>)
    requires a != null ==> a.Length <= INT32_MAX
    ensures r.Err? <==> a == null
    ensures r.Err? ==> r.error == InvalidArray
    ensures r.Ok? ==> fresh(r.value) && r.value.data == a && r.value.Valid()
  {
    var check := CheckArray(a);
    if check.Fail? {
      return Err(check.error);
    }
    var searcher := new BinarySearcher(a);
    return Ok(searcher);
  }

  /** As written, the guard lets a zero-length array through. */
  lemma ZeroSizedArrayAccepted(a: array<int>)
    requires a.Length == 0
    ensures CheckArray(a) == Pass
  {
  }

  /** The guard the tests expect: a missing or a zero-length array is refused. */
  function CheckArrayNonEmpty(a: array?<int>): (r: Outcome)
    ensures r == Pass || r == Fail(InvalidArray)
    ensures r == Pass <==> a != null && a.Length > 0
  {
    if a == null || a.Length == 0 then Fail(InvalidArray) else Pass
  }

  /** The two guards differ only on zero-length arrays. */
  lemma CheckArrayNonEmptyRefinesCheckArray(a: array?<int>)
    ensures a == null || a.Length > 0 ==> CheckArrayNonEmpty(a) == CheckArray(a)
    ensures a != null && a.Length == 0 ==> CheckArrayNonEmpty(a) != CheckArray(a)
  {
  }
}
