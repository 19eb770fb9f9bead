/**
 * Callers of the searcher, on the arrays of the repository's unit tests.
 * Every outcome asserted here follows from the searcher's contracts alone.
 * Construction of a zero-length array is asserted as the code behaves, which
 * is not what the tests expect.
 */
module SearchClients {
  import opened BinarySearch

  /**
   * A missing array is refused. An array of zero length is accepted: the
   * constructor's guard only refuses a missing array.
   */
  method Construction() {
    var r := NewSearcher(null);
    assert r == Err(InvalidArray);
    var empty := new int[0];
    r := NewSearcher(empty);
    assert r.Ok?;
  }

  /** Arrays in non-decreasing order pass validation. */
  method CheckInOrder() {
    var a := new int[] [0];
    var searcher := new BinarySearcher(a);
    var r := searcher.Validate();
    assert r == Pass;

    a := new int[] [0, 1];
    searcher := new BinarySearcher(a);
    assert Sorted(a[..]);
    r := searcher.Validate();
    assert r == Pass;

    a := new int[] [0, 1, 2, 3];
    searcher := new BinarySearcher(a);
    assert Sorted(a[..]);
    r := searcher.Validate();
    assert r == Pass;
  }

  /** Arrays with an inversion fail validation with OutOfOrderArray. */
  method OutOfOrder() {
    var a := new int[] [1, 0];
    var searcher := new BinarySearcher(a);
    assert a[..][0] > a[..][1];
    var r := searcher.Validate();
    assert r == Fail(OutOfOrderArray);

    a := new int[] [1, 0, 2];
    searcher := new BinarySearcher(a);
    assert a[..][0] > a[..][1];
    r := searcher.Validate();
    assert r == Fail(OutOfOrderArray);

    a := new int[] [0, 2, 1];
    searcher := new BinarySearcher(a);
    assert a[..][1] > a[..][2];
    r := searcher.Validate();
    assert r == Fail(OutOfOrderArray);

    a := new int[] [0, 1, 2, 4, 3];
    searcher := new BinarySearcher(a);
    assert a[..][3] > a[..][4];
    r := searcher.Validate();
    assert r == Fail(OutOfOrderArray);
  }

  /** Membership in a one-element array. */
  method FindInSingleElement() {
    var a := new int[] [0];
    var searcher := new BinarySearcher(a);
    assert a[..] == [0];
    assert searcher.Find(0) by { assert a[..][0] == 0; }
    assert !searcher.Find(1);
  }

  /** Elements that occur in a sorted array are found. */
  method SimpleFinds() {
    var a := new int[] [0, 1, 5, 7];
    var searcher := new BinarySearcher(a);
    assert a[..] == [0, 1, 5, 7];
    assert Sorted(a[..]);
    assert searcher.Find(5) by { assert a[..][2] == 5; }
    assert searcher.Find(7) by { assert a[..][3] == 7; }
  }

  /** An element missing from a sorted array is not found. */
  method SimpleMiss() {
    var a := new int[] [1, 2, 5, 7, 9];
    var searcher := new BinarySearcher(a);
    assert a[..] == [1, 2, 5, 7, 9];
    assert Sorted(a[..]);
    assert !searcher.Find(6);
  }
}
