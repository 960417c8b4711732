/** The range copy as written, run on a scaled-down configuration of four
    elements per chunk, where ranges cross chunk boundaries. */
module RangeCopyExamples {
  import opened Exceptions
  import opened Strategies
  import opened ChunkLayout
  import opened ExaArray1D
  import opened Factories

  /** Four elements per chunk; the element limit sits between cap^2 and
      cap * (cap + 1), as both real limits do. */
  const Small: Limits := Limits(4, 17)

  /** A source of three chunks x, y, z under the small limits. */
  function Three<T>(x: seq<T>, y: seq<T>, z: seq<T>): Array1D<T>
    requires |x| == |y| == 4 && |z| <= 4
  {
    Array1D(MaxPerformance, Small, |x| + |y| + |z|, [Some(x), Some(y), Some(z)])
  }

  /** Three allocated chunks flatten to their concatenation. */
  lemma FlattenThree<T>(x: seq<T>, y: seq<T>, z: seq<T>)
    ensures Flatten([Some(x), Some(y), Some(z)]) == x + y + z
  {
    FlattenSnoc([], Some(x));
    assert [] + [Some(x)] == [Some(x)];
    FlattenSnoc([Some(x)], Some(y));
    assert [Some(x)] + [Some(y)] == [Some(x), Some(y)];
    FlattenSnoc([Some(x), Some(y)], Some(z));
    assert [Some(x), Some(y)] + [Some(z)] == [Some(x), Some(y), Some(z)];
  }

  lemma ThreeValid<T>(x: seq<T>, y: seq<T>, z: seq<T>)
    requires |x| == |y| == 4 && 0 < |z| <= 4
    ensures Valid(Three(x, y, z)) && Elements(Three(x, y, z)) == x + y + z
  {
    FlattenThree(x, y, z);
    assert AllFull(Three(x, y, z).chunks[..2], 4);
  }

  // Each lemma below is one turn of the copy loop on the range [2, 9] or
  // the range [2, 6].

  lemma Turn1<T>(x: seq<T>, y: seq<T>, z: seq<T>, dflt: T)
    requires |x| == |y| == 4 && |z| <= 4
    ensures Step(Three(x, y, z), Plan(4, 0, 2, 2, 1), Cursor(0, 0, 2, 0, 8, [None, None]), dflt)
            == Ok(Cursor(1, 0, 0, 2, 6, [Some(x[2..]), None]))
  {
    var g := Defaults(2, dflt);
    assert g[..0] + x[2..4] + g[2..] == x[2..];
    assert [None, None][0 := Some(x[2..])] == [Some(x[2..]), None];
  }

  lemma Turn2<T>(x: seq<T>, y: seq<T>, z: seq<T>, dflt: T)
    requires |x| == |y| == 4 && |z| <= 4
    ensures Step(Three(x, y, z), Plan(4, 0, 2, 2, 1), Cursor(1, 0, 0, 2, 6, [Some(x[2..]), None]), dflt)
            == Ok(Cursor(2, 1, 0, 0, 4, [Some(x[2..] + y[..2]), None]))
  {
    var g := x[2..] + Defaults(2, dflt);
    assert g[..2] + y[0..2] + g[4..] == x[2..] + y[..2];
    assert [Some(x[2..]), None][0 := Some(x[2..] + y[..2])] == [Some(x[2..] + y[..2]), None];
  }

  lemma Turn3<T>(x: seq<T>, y: seq<T>, z: seq<T>, dflt: T)
    requires |x| == |y| == |z| == 4
    ensures Step(Three(x, y, z), Plan(4, 0, 2, 2, 1), Cursor(2, 1, 0, 0, 4, [Some(x[2..] + y[..2]), None]), dflt)
            == Ok(Cursor(3, 2, 0, 0, 0, [Some(x[2..] + y[..2]), Some(z)]))
  {
    var g := Defaults(4, dflt);
    assert g[..0] + z[0..4] + g[4..] == z;
    assert [Some(x[2..] + y[..2]), None][1 := Some(z)] == [Some(x[2..] + y[..2]), Some(z)];
  }

  /** A range starting inside chunk 0 and crossing two boundaries: after
      filling the first destination chunk with x[2..] + y[..2], the copy
      resumes at the start of z instead of at y[2], so the second
      destination chunk is z where y[2..] + z[..2] is due. */
  lemma MisalignedRangeSkips<T>(x: seq<T>, y: seq<T>, z: seq<T>, dflt: T)
    requires |x| == |y| == |z| == 4
    ensures CreateFromRange(Three(x, y, z), 2, 9, dflt)
            == Ok(Array1D(MaxPerformance, Small, 8, [Some(x[2..] + y[..2]), Some(z)]))
  {
    assert PlanOf(4, 2, 9) == Plan(4, 0, 2, 2, 1);
    assert NullChunks<T>(2) == [None, None];
    SkipsFrom0(x, y, z, dflt);
  }

  lemma SkipsFrom0<T>(x: seq<T>, y: seq<T>, z: seq<T>, dflt: T)
    requires |x| == |y| == |z| == 4
    ensures Run(Three(x, y, z), Plan(4, 0, 2, 2, 1), Cursor(0, 0, 2, 0, 8, [None, None]), dflt)
            == Ok([Some(x[2..] + y[..2]), Some(z)])
  {
    Turn1(x, y, z, dflt);
    RunTurn(Three(x, y, z), Plan(4, 0, 2, 2, 1), Cursor(0, 0, 2, 0, 8, [None, None]), dflt,
            Ok(Cursor(1, 0, 0, 2, 6, [Some(x[2..]), None])));
    SkipsFrom1(x, y, z, dflt);
  }

  lemma SkipsFrom1<T>(x: seq<T>, y: seq<T>, z: seq<T>, dflt: T)
    requires |x| == |y| == |z| == 4
    ensures Run(Three(x, y, z), Plan(4, 0, 2, 2, 1), Cursor(1, 0, 0, 2, 6, [Some(x[2..]), None]), dflt)
            == Ok([Some(x[2..] + y[..2]), Some(z)])
  {
    Turn2(x, y, z, dflt);
    RunTurn(Three(x, y, z), Plan(4, 0, 2, 2, 1), Cursor(1, 0, 0, 2, 6, [Some(x[2..]), None]), dflt,
            Ok(Cursor(2, 1, 0, 0, 4, [Some(x[2..] + y[..2]), None])));
    SkipsFrom2(x, y, z, dflt);
  }

  lemma SkipsFrom2<T>(x: seq<T>, y: seq<T>, z: seq<T>, dflt: T)
    requires |x| == |y| == |z| == 4
    ensures Run(Three(x, y, z), Plan(4, 0, 2, 2, 1), Cursor(2, 1, 0, 0, 4, [Some(x[2..] + y[..2]), None]), dflt)
            == Ok([Some(x[2..] + y[..2]), Some(z)])
  {
    Turn3(x, y, z, dflt);
    RunTurn(Three(x, y, z), Plan(4, 0, 2, 2, 1), Cursor(2, 1, 0, 0, 4, [Some(x[2..] + y[..2]), None]), dflt,
            Ok(Cursor(3, 2, 0, 0, 0, [Some(x[2..] + y[..2]), Some(z)])));
  }

  /** What that copy should hold: the source is valid and its elements 2
      to 9 are x[2..], y and z[..2]. */
  lemma MisalignedRangeDue<T>(x: seq<T>, y: seq<T>, z: seq<T>)
    requires |x| == |y| == |z| == 4
    ensures Valid(Three(x, y, z))
    ensures Elements(Three(x, y, z))[2..10] == x[2..] + y + z[..2]
  {
    ThreeValid(x, y, z);
    assert (x + y + z)[2..10] == x[2..] + y + z[..2];
  }

  /** So that copy disagrees with its source wherever y[2] and z[0]
      differ, as they do for the values 0 .. 11: element 6 of the source is
      y[2], element 4 of the copy (which should be the same element) is z[0]. */
  lemma MisalignedRangeWrongElement<T>(x: seq<T>, y: seq<T>, z: seq<T>)
    requires |x| == |y| == |z| == 4
    ensures Get(Three(x, y, z), 2 + 4) == Ok(y[2])
    ensures Get(Array1D(MaxPerformance, Small, 8, [Some(x[2..] + y[..2]), Some(z)]), 4) == Ok(z[0])
  {
    assert Split(6, 4) == (1, 2) by { SplitCompose(1, 2, 4); }
    assert Split(4, 4) == (1, 0) by { SplitCompose(1, 0, 4); }
  }

  lemma Turn1Short<T>(x: seq<T>, y: seq<T>, z: seq<T>, dflt: T)
    requires |x| == |y| == 4 && |z| <= 4
    ensures Step(Three(x, y, z), Plan(4, 0, 2, 1, 2), Cursor(0, 0, 2, 0, 5, [None, None]), dflt)
            == Ok(Cursor(1, 0, 0, 2, 3, [Some(x[2..]), None]))
  {
    var g := Defaults(2, dflt);
    assert g[..0] + x[2..4] + g[2..] == x[2..];
    assert [None, None][0 := Some(x[2..])] == [Some(x[2..]), None];
  }

  lemma Turn2Short<T>(x: seq<T>, y: seq<T>, z: seq<T>, dflt: T)
    requires |x| == |y| == 4 && |z| <= 4
    ensures Step(Three(x, y, z), Plan(4, 0, 2, 1, 2), Cursor(1, 0, 0, 2, 3, [Some(x[2..]), None]), dflt)
            == Ok(Cursor(2, 0, 0, 3, 0, [Some(x[2..] + y[..3]), None]))
  {
    var g := x[2..] + Defaults(3, dflt);
    assert g[..2] + y[0..3] + g[5..] == x[2..] + y[..3];
    assert [Some(x[2..]), None][0 := Some(x[2..] + y[..3])] == [Some(x[2..] + y[..3]), None];
  }

  /** A range of five elements starting inside chunk 0: the last step
      appends all three remaining elements to the first destination chunk,
      which grows to five elements, past the capacity, and the second
      destination chunk stays null. */
  lemma MisalignedRangeOverfills<T>(x: seq<T>, y: seq<T>, z: seq<T>, dflt: T)
    requires |x| == |y| == |z| == 4
    ensures CreateFromRange(Three(x, y, z), 2, 6, dflt)
            == Ok(Array1D(MaxPerformance, Small, 5, [Some(x[2..] + y[..3]), None]))
  {
    assert PlanOf(4, 2, 6) == Plan(4, 0, 2, 1, 2);
    assert NullChunks<T>(2) == [None, None];
    OverfillsFrom0(x, y, z, dflt);
  }

  lemma OverfillsFrom0<T>(x: seq<T>, y: seq<T>, z: seq<T>, dflt: T)
    requires |x| == |y| == |z| == 4
    ensures Run(Three(x, y, z), Plan(4, 0, 2, 1, 2), Cursor(0, 0, 2, 0, 5, [None, None]), dflt)
            == Ok([Some(x[2..] + y[..3]), None])
  {
    Turn1Short(x, y, z, dflt);
    RunTurn(Three(x, y, z), Plan(4, 0, 2, 1, 2), Cursor(0, 0, 2, 0, 5, [None, None]), dflt,
            Ok(Cursor(1, 0, 0, 2, 3, [Some(x[2..]), None])));
    OverfillsFrom1(x, y, z, dflt);
  }

  lemma OverfillsFrom1<T>(x: seq<T>, y: seq<T>, z: seq<T>, dflt: T)
    requires |x| == |y| == |z| == 4
    ensures Run(Three(x, y, z), Plan(4, 0, 2, 1, 2), Cursor(1, 0, 0, 2, 3, [Some(x[2..]), None]), dflt)
            == Ok([Some(x[2..] + y[..3]), None])
  {
    Turn2Short(x, y, z, dflt);
    RunTurn(Three(x, y, z), Plan(4, 0, 2, 1, 2), Cursor(1, 0, 0, 2, 3, [Some(x[2..]), None]), dflt,
            Ok(Cursor(2, 0, 0, 3, 0, [Some(x[2..] + y[..3]), None])));
  }

  /** That copy breaks the shape invariant, and reading its element 4
      raises NullReference where the source holds y[2]. */
  lemma MisalignedRangeNullChunk<T>(x: seq<T>, y: seq<T>)
    requires |x| == |y| == 4
    ensures !Valid(Array1D(MaxPerformance, Small, 5, [Some(x[2..] + y[..3]), None]))
    ensures Get(Array1D(MaxPerformance, Small, 5, [Some(x[2..] + y[..3]), None]), 4) == Fail(NullReference)
  {
    assert Split(4, 4) == (1, 0) by { SplitCompose(1, 0, 4); }
  }

  lemma Turn3Short<T>(x: seq<T>, y: seq<T>, z: seq<T>, dflt: T)
    requires |x| == |y| == 4 && |z| == 2
    ensures Step(Three(x, y, z), Plan(4, 0, 2, 2, 1), Cursor(2, 1, 0, 0, 4, [Some(x[2..] + y[..2]), None]), dflt)
            == Fail(ArgumentInvalid)
  {
  }

  /** With a last source chunk of two elements (length 10), the range
      [2, 9] makes the third step ask Array.Copy for four elements of that
      chunk, which raises an ArgumentException. */
  lemma MisalignedRangeOverreads<T>(x: seq<T>, y: seq<T>, z: seq<T>, dflt: T)
    requires |x| == |y| == 4 && |z| == 2
    ensures Valid(Three(x, y, z))
    ensures CreateFromRange(Three(x, y, z), 2, 9, dflt) == Fail(ArgumentInvalid)
  {
    ThreeValid(x, y, z);
    assert PlanOf(4, 2, 9) == Plan(4, 0, 2, 2, 1);
    assert NullChunks<T>(2) == [None, None];
    OverreadsFrom0(x, y, z, dflt);
  }

  lemma OverreadsFrom0<T>(x: seq<T>, y: seq<T>, z: seq<T>, dflt: T)
    requires |x| == |y| == 4 && |z| == 2
    ensures Run(Three(x, y, z), Plan(4, 0, 2, 2, 1), Cursor(0, 0, 2, 0, 8, [None, None]), dflt)
            == Fail(ArgumentInvalid)
  {
    Turn1(x, y, z, dflt);
    RunTurn(Three(x, y, z), Plan(4, 0, 2, 2, 1), Cursor(0, 0, 2, 0, 8, [None, None]), dflt,
            Ok(Cursor(1, 0, 0, 2, 6, [Some(x[2..]), None])));
    OverreadsFrom1(x, y, z, dflt);
  }

  lemma OverreadsFrom1<T>(x: seq<T>, y: seq<T>, z: seq<T>, dflt: T)
    requires |x| == |y| == 4 && |z| == 2
    ensures Run(Three(x, y, z), Plan(4, 0, 2, 2, 1), Cursor(1, 0, 0, 2, 6, [Some(x[2..]), None]), dflt)
            == Fail(ArgumentInvalid)
  {
    Turn2(x, y, z, dflt);
    RunTurn(Three(x, y, z), Plan(4, 0, 2, 2, 1), Cursor(1, 0, 0, 2, 6, [Some(x[2..]), None]), dflt,
            Ok(Cursor(2, 1, 0, 0, 4, [Some(x[2..] + y[..2]), None])));
    Turn3Short(x, y, z, dflt);
    RunTurn(Three(x, y, z), Plan(4, 0, 2, 2, 1), Cursor(2, 1, 0, 0, 4, [Some(x[2..] + y[..2]), None]), dflt,
            Fail(ArgumentInvalid));
  }
}
