/** The two-dimensional array's own test scenarios, as lemmas about the
    model: the running total and the values read back after each write. */
module ExaArray2DScenarios {
  import opened Exceptions
  import opened Strategies
  import opened ChunkLayout
  import opened ExaArray2D

  /** One successful write, summarised for the scenarios below: the total,
      the outer length, the row's length and what the row reads. */
  lemma WriteStep<T>(a: Array2D<T>, row: ulong, col: ulong, value: T, dflt: T)
    requires Valid2D(a) && row + 1 < ROW_MAX && col + 1 < ROW_MAX
    requires Need(View(a), row, col) <= ULONG_MAX - a.total
    ensures Set2D(a, row, col, value, dflt).Returned?
    ensures var b := Set2D(a, row, col, value, dflt).state;
      var len := |Contents(Pad(View(a), row)[row])|;
      && Valid2D(b) && b.total == a.total + Need(View(a), row, col)
      && |View(b)| == (if row < |View(a)| then |View(a)| else row + 1)
      && View(b)[row].Some? && |View(b)[row].value| == (if col < len then len else col + 1)
      && Get2D(b, row, col, dflt) == Ok(value)
      && (forall c: ulong :: c != col && row < |View(a)| && View(a)[row].Some? ==>
            Get2D(b, row, c, dflt) == Get2D(a, row, c, dflt))
  {
    Set2DSucceeds(a, row, col, value, dflt);
    Set2DWrites(a, row, col, value, dflt);
    Set2DThenGet(a, row, col, value, dflt);
    Set2DExtends(a, row, col, value, dflt);
  }

  /** The shape the normal-size scenario keeps after its first write: 501
      slots, of which slot 500 holds a row of `len` elements. */
  ghost predicate Row500(a: Array2D<int>, total: nat, len: nat) {
    Valid2D(a) && a.total == total && |View(a)| == 501 && View(a)[500].Some? && |View(a)[500].value| == len
  }

  lemma FirstWrite(a0: Array2D<int>)
    requires a0 == New2D<int>()
    ensures Set2D(a0, 500, 500, 4_756, 0).Returned?
    ensures Row500(Set2D(a0, 500, 500, 4_756, 0).state, 501, 501)
    ensures Get2D(Set2D(a0, 500, 500, 4_756, 0).state, 500, 500, 0) == Ok(4_756)
  {
    New2DEmpty<int>(0, 0, 0);
    assert Need(View(a0), 500, 500) == 501;
    WriteStep(a0, 500, 500, 4_756, 0);
  }

  lemma SecondWrite(a: Array2D<int>)
    requires Row500(a, 501, 501)
    ensures Set2D(a, 500, 500, 100, 0).Returned?
    ensures Row500(Set2D(a, 500, 500, 100, 0).state, 501, 501)
    ensures Get2D(Set2D(a, 500, 500, 100, 0).state, 500, 500, 0) == Ok(100)
  {
    assert Need(View(a), 500, 500) == 0;
    WriteStep(a, 500, 500, 100, 0);
  }

  lemma ThirdWrite(a: Array2D<int>)
    requires Row500(a, 501, 501) && Get2D(a, 500, 500, 0) == Ok(100)
    ensures Set2D(a, 500, 499, 499, 0).Returned?
    ensures Row500(Set2D(a, 500, 499, 499, 0).state, 501, 501)
    ensures Get2D(Set2D(a, 500, 499, 499, 0).state, 500, 499, 0) == Ok(499)
    ensures Get2D(Set2D(a, 500, 499, 499, 0).state, 500, 500, 0) == Ok(100)
  {
    assert Need(View(a), 500, 499) == 0;
    WriteStep(a, 500, 499, 499, 0);
  }

  lemma FourthWrite(a: Array2D<int>)
    requires Row500(a, 501, 501) && Get2D(a, 500, 499, 0) == Ok(499) && Get2D(a, 500, 500, 0) == Ok(100)
    ensures Set2D(a, 500, 1_000, 6, 0).Returned?
    ensures Row500(Set2D(a, 500, 1_000, 6, 0).state, 1_001, 1_001)
    ensures Get2D(Set2D(a, 500, 1_000, 6, 0).state, 500, 499, 0) == Ok(499)
    ensures Get2D(Set2D(a, 500, 1_000, 6, 0).state, 500, 500, 0) == Ok(100)
    ensures Get2D(Set2D(a, 500, 1_000, 6, 0).state, 500, 1_000, 0) == Ok(6)
  {
    assert Need(View(a), 500, 1_000) == 500;
    WriteStep(a, 500, 1_000, 6, 0);
  }

  /** The normal-size scenario, from the empty array `a0`: it reads the
      default everywhere with total 0; the write at (500, 500) makes 500
      null rows and one row of 501 elements; overwriting that cell and
      writing (500, 499) keep the total at 501; writing (500, 1000) grows
      the row and the total to 1001; every write reads back, and so do the
      earlier ones. */
  lemma NormalSizeScenario(a0: Array2D<int>)
    requires a0 == New2D<int>()
    ensures a0.total == 0 && Get2D(a0, 0, 0, 0) == Ok(0) && Get2D(a0, 1_000_000, 1_000_000, 0) == Ok(0)
    ensures var s1 := Set2D(a0, 500, 500, 4_756, 0);
      && s1.Returned? && s1.state.total == 501 && Get2D(s1.state, 500, 500, 0) == Ok(4_756)
      && var s2 := Set2D(s1.state, 500, 500, 100, 0);
      && s2.Returned? && s2.state.total == 501 && Get2D(s2.state, 500, 500, 0) == Ok(100)
      && var s3 := Set2D(s2.state, 500, 499, 499, 0);
      && s3.Returned? && s3.state.total == 501
      && Get2D(s3.state, 500, 499, 0) == Ok(499) && Get2D(s3.state, 500, 500, 0) == Ok(100)
      && var s4 := Set2D(s3.state, 500, 1_000, 6, 0);
      && s4.Returned? && s4.state.total == 1_001
      && Get2D(s4.state, 500, 499, 0) == Ok(499) && Get2D(s4.state, 500, 500, 0) == Ok(100)
      && Get2D(s4.state, 500, 1_000, 0) == Ok(6)
  {
    New2DEmpty<int>(0, 0, 0);
    New2DEmpty<int>(1_000_000, 1_000_000, 0);
    FirstWrite(a0);
    var a1 := Set2D(a0, 500, 500, 4_756, 0).state;
    SecondWrite(a1);
    var a2 := Set2D(a1, 500, 500, 100, 0).state;
    ThirdWrite(a2);
    var a3 := Set2D(a2, 500, 499, 499, 0).state;
    FourthWrite(a3);
  }

  /** The huge-size scenario, from the empty array `a0`: after a row of a
      million and one elements, a write whose row would need 2^64 - 1
      elements throws ArgumentOutOfRange, before any row grows. */
  lemma HugeSizeScenario(a0: Array2D<int>)
    requires a0 == New2D<int>()
    ensures var s1 := Set2D(a0, 0, 1_000_000, 47, 0);
      && s1.Returned?
      && Set2D(s1.state, 1, ULONG_MAX - 1, 6, 0).Threw?
      && Set2D(s1.state, 1, ULONG_MAX - 1, 6, 0).error == ArgumentOutOfRange
  {
    New2DEmpty<int>(0, 0, 0);
    assert Need(View(a0), 0, 1_000_000) == 1_000_001;
    WriteStep(a0, 0, 1_000_000, 47, 0);
    var a1 := Set2D(a0, 0, 1_000_000, 47, 0).state;
    assert Need(View(a1), 1, ULONG_MAX - 1) == ULONG_MAX;
    Set2DOverflow(a1, 1, ULONG_MAX - 1, 6, 0);
  }

  /** After a single write to row 1, row 0 is a null slot inside the outer
      array: the getter as written throws NullReference there, where its
      documentation promises the default. */
  lemma NullRowRead(a0: Array2D<int>)
    requires a0 == New2D<int>()
    ensures Set2D(a0, 1, 0, 7, 0).Returned?
    ensures Get2D(Set2D(a0, 1, 0, 7, 0).state, 0, 0, 0) == Fail(NullReference)
    ensures Get2DFixed(Set2D(a0, 1, 0, 7, 0).state, 0, 0, 0) == Ok(0)
  {
    New2DEmpty<int>(0, 0, 0);
    assert Need(View(a0), 1, 0) == 1;
    WriteStep(a0, 1, 0, 7, 0);
    Set2DExtends(a0, 1, 0, 7, 0);
    var b := Set2D(a0, 1, 0, 7, 0).state;
    Get2DNullRow(b, 0, 0, 0);
    Get2DFixedReads(b, 0, 0, 0);
  }
}
