/** The two-dimensional sparse array: an outer 1-D array of row slots, each
    null until the first write to that row creates a 1-D row, and a running
    total of the rows' lengths. */
module ExaArray2D {
  import opened Exceptions
  import opened Strategies
  import opened ChunkLayout
  import opened ExaArray1D

  /** A row slot of the outer array; None stands for a null row reference. */
  type Row<T> = Option<Array1D<T>>

  /** `total` is the 2-D Length, `sumLengthOrdinates`; `rows` is the outer
      array. Both the outer array and every row use MaxPerformance. */
  datatype Array2D<T> = Array2D(total: ulong, rows: Array1D<Row<T>>)

  function New2D<T>(): Array2D<T> {
    Array2D(0, New(MaxPerformance))
  }

  /** Element limit of the outer array and of every row. */
  const ROW_MAX: ulong := LimitsOf(MaxPerformance).maxElements

  // ------------------------------------------------- What the array holds

  /** The contents of the row slots: None for a null slot, otherwise the
      row's elements. */
  function ViewOf<T>(rs: seq<Row<T>>): (v: seq<Option<seq<T>>>)
    ensures |v| == |rs|
    ensures forall j :: 0 <= j < |rs| ==> v[j].Some? == rs[j].Some?
  {
    seq(|rs|, j requires 0 <= j < |rs| => if rs[j].Some? then Some(Elements(rs[j].value)) else None)
  }

  function View<T>(a: Array2D<T>): seq<Option<seq<T>>> {
    ViewOf(Elements(a.rows))
  }

  /** The sum of the lengths of the instantiated rows. */
  function Total<T>(v: seq<Option<seq<T>>>): nat {
    if |v| == 0 then 0 else Total(v[..|v| - 1]) + |Contents(v[|v| - 1])|
  }

  /** A cell as the getter's documentation describes it: the stored element,
      or the default where no memory is allocated. */
  function CellOf<T>(v: seq<Option<seq<T>>>, row: nat, col: nat, dflt: T): T {
    if row < |v| && col < |Contents(v[row])| then Contents(v[row])[col] else dflt
  }

  /** The row slots once the outer array reaches `row`: null slots appended. */
  function Pad<T>(v: seq<Option<seq<T>>>, row: nat): (w: seq<Option<seq<T>>>)
    ensures row < |w| && |v| <= |w| && w[..|v|] == v
    ensures forall j :: |v| <= j < |w| ==> w[j] == None
    ensures row >= |v| ==> |w| == row + 1
    ensures row < |v| ==> w == v
  {
    if row < |v| then v else v + Defaults(row - |v| + 1, None)
  }

  /** A row after writing `value` at `col`: extended with defaults through
      `col` when it is shorter. */
  function WriteRow<T>(s: seq<T>, col: nat, value: T, dflt: T): (t: seq<T>)
    ensures |t| == if col < |s| then |s| else col + 1
  {
    (if col < |s| then s else s + Defaults(col - |s| + 1, dflt))[col := value]
  }

  /** The intended effect of a successful write of `value` at (row, col). */
  function Written<T>(v: seq<Option<seq<T>>>, row: nat, col: nat, value: T, dflt: T): seq<Option<seq<T>>> {
    var w := Pad(v, row);
    w[row := Some(WriteRow(Contents(w[row]), col, value, dflt))]
  }

  /** What a write leaves behind when it throws after growing the outer
      array and instantiating the row. */
  function Touched<T>(v: seq<Option<seq<T>>>, row: nat): seq<Option<seq<T>>> {
    var w := Pad(v, row);
    w[row := Some(Contents(w[row]))]
  }

  /** How many elements a write at (row, col) adds to the row. */
  function Need<T>(v: seq<Option<seq<T>>>, row: nat, col: nat): nat {
    var len := |Contents(Pad(v, row)[row])|;
    if col < len then 0 else col - len + 1
  }

  predicate RowValid<T>(r: Array1D<T>) {
    r.strategy == MaxPerformance && r.limits == LimitsOf(MaxPerformance) && Valid(r)
  }

  predicate RowsValid<T>(rs: seq<Row<T>>) {
    forall j :: 0 <= j < |rs| && rs[j].Some? ==> RowValid(rs[j].value)
  }

  /** The invariant: valid outer array and rows, and `total` is the sum of
      the row lengths. */
  predicate Valid2D<T>(a: Array2D<T>) {
    RowValid(a.rows) && RowsValid(Elements(a.rows)) && a.total == Total(View(a))
  }

  // ---------------------------------------------------------------- Getter

  /** The getter as written: a null slot inside the outer array makes
      `?.Length` null, the comparison false, and the row is dereferenced. */
  function Get2D<T>(a: Array2D<T>, row: ulong, col: ulong, dflt: T): Result<T> {
    if a.rows.length == 0 || row >= a.rows.length then
      Ok(dflt)
    else
      match Get(a.rows, row)
      case Fail(e) => Fail(e)
      case Ok(slot) =>
        if slot.None? then Fail(NullReference)
        else if col >= slot.value.length then Ok(dflt)
        else Get(slot.value, col)
  }

  /** The getter as documented: a null row reads as the default. */
  function Get2DFixed<T>(a: Array2D<T>, row: ulong, col: ulong, dflt: T): Result<T> {
    if a.rows.length == 0 || row >= a.rows.length then
      Ok(dflt)
    else
      match Get(a.rows, row)
      case Fail(e) => Fail(e)
      case Ok(slot) =>
        if slot.None? then Ok(dflt)
        else if col >= slot.value.length then Ok(dflt)
        else Get(slot.value, col)
  }

  // ---------------------------------------------------------------- Setter

  /** Growing the outer array: grow it by `row - Length + 1` (in ulong
      arithmetic) when `row` is outside it. */
  function GrowRows<T>(rows: Array1D<Row<T>>, row: ulong): Call<Array1D<Row<T>>> {
    if rows.length == 0 || row >= rows.length then
      Extend(rows, WrapAdd(WrapSub(row, rows.length), 1), None)
    else
      Returned(rows)
  }

  /** Instantiating the row: the row at `row`, created and stored if the slot is null. */
  function Instantiate<T>(rows: Array1D<Row<T>>, row: ulong): (r: Result<(Array1D<Row<T>>, Array1D<T>)>)
    ensures r.Ok? ==> Get(r.value.0, row) == Ok(Some(r.value.1))
  {
    match Get(rows, row)
    case Fail(e) => Fail(e)
    case Ok(slot) =>
      if slot.Some? then
        Ok((rows, slot.value))
      else
        var r := New<T>(MaxPerformance);
        match Set(rows, row, Some(r))
        case Fail(e) => Fail(e)
        case Ok(rows') =>
          SetThenGet(rows, row, Some(r), row);
          Ok((rows', r))
  }

  /** Growing the row: when `col` is at or past the row's last element, extend
      the row by `col - Length + 1` (in ulong arithmetic) after checking it
      against what is left of the total, and add it to the total. */
  function GrowRow<T>(total: ulong, r: Array1D<T>, col: ulong, dflt: T): Call<(ulong, Array1D<T>)> {
    if r.length == 0 || col >= r.length - 1 then
      var extendBy := WrapAdd(WrapSub(col, r.length), 1);
      if extendBy > ULONG_MAX - total then
        Threw((total, r), ArgumentOutOfRange)
      else
        match Extend(r, extendBy, dflt)
        case Threw(r', e) => Threw((total, r'), e)
        case Returned(r') => Returned((total + extendBy, r'))
    else
      Returned((total, r))
  }

  /** The row object at `row` after it was changed in place. */
  function PutRow<T>(rows: Array1D<Row<T>>, row: ulong, r: Array1D<T>): Array1D<Row<T>>
    requires Get(rows, row).Ok?
  {
    SetFailsLikeGet(rows, row, Some(r));
    Set(rows, row, Some(r)).value
  }

  /** The setter. What it did before an exception stays done. */
  function Set2D<T>(a: Array2D<T>, row: ulong, col: ulong, value: T, dflt: T): Call<Array2D<T>> {
    var g := GrowRows(a.rows, row);
    if g.Threw? then
      Threw(a.(rows := g.state), g.error)
    else
      var i := Instantiate(g.state, row);
      if i.Fail? then
        Threw(a.(rows := g.state), i.error)
      else
        var (rows, r) := i.value;
        var e := GrowRow(a.total, r, col, dflt);
        var (total, r') := e.state;
        if e.Threw? then
          Threw(Array2D(total, PutRow(rows, row, r')), e.error)
        else
          match Set(r', col, value)
          case Fail(err) => Threw(Array2D(total, PutRow(rows, row, r')), err)
          case Ok(r'') => Returned(Array2D(total, PutRow(rows, row, r'')))
  }

  // ------------------------------------------------------ The view's algebra

  lemma ViewAppendNones<T>(rs: seq<Row<T>>, k: nat)
    ensures ViewOf(rs + Defaults(k, None)) == ViewOf(rs) + Defaults(k, None)
  {
    assert forall j :: 0 <= j < |rs| + k ==> (rs + Defaults(k, None))[j] == if j < |rs| then rs[j] else None;
  }

  lemma ViewUpdate<T>(rs: seq<Row<T>>, i: nat, r: Array1D<T>)
    requires i < |rs|
    ensures ViewOf(rs[i := Some(r)]) == ViewOf(rs)[i := Some(Elements(r))]
  {
  }

  lemma TotalSnoc<T>(v: seq<Option<seq<T>>>, x: Option<seq<T>>)
    ensures Total(v + [x]) == Total(v) + |Contents(x)|
  {
    assert (v + [x])[..|v|] == v;
  }

  /** Null slots add nothing to the total. */
  lemma {:induction false} TotalAppendNones<T>(v: seq<Option<seq<T>>>, k: nat)
    ensures Total(v + Defaults(k, None)) == Total(v)
  {
    if k > 0 {
      TotalAppendNones(v, k - 1);
      assert v + Defaults(k, None) == (v + Defaults(k - 1, None)) + [None];
      TotalSnoc(v + Defaults(k - 1, None), None);
    } else {
      assert v + Defaults(k, None) == v;
    }
  }

  /** Replacing one slot changes the total by the difference of the two
      slots' lengths. */
  lemma {:induction false} TotalUpdate<T>(v: seq<Option<seq<T>>>, i: nat, x: Option<seq<T>>)
    requires i < |v|
    ensures Total(v[i := x]) + |Contents(v[i])| == Total(v) + |Contents(x)|
  {
    var last := |v| - 1;
    if i == last {
      assert v[i := x][..last] == v[..last];
    } else {
      TotalUpdate(v[..last], i, x);
      assert v[i := x][..last] == v[..last][i := x];
    }
  }

  /** A successful write adds exactly Need to the total. */
  lemma WrittenTotal<T>(v: seq<Option<seq<T>>>, row: nat, col: nat, value: T, dflt: T)
    ensures Total(Written(v, row, col, value, dflt)) == Total(v) + Need(v, row, col)
  {
    var w := Pad(v, row);
    if row >= |v| {
      TotalAppendNones(v, row - |v| + 1);
    }
    TotalUpdate(w, row, Some(WriteRow(Contents(w[row]), col, value, dflt)));
  }

  /** A write that throws leaves the total as it was. */
  lemma TouchedTotal<T>(v: seq<Option<seq<T>>>, row: nat)
    ensures Total(Touched(v, row)) == Total(v)
  {
    var w := Pad(v, row);
    if row >= |v| {
      TotalAppendNones(v, row - |v| + 1);
    }
    TotalUpdate(w, row, Some(Contents(w[row])));
  }

  /** After a write, the written cell holds the value and every other cell
      reads as before. */
  lemma WrittenCells<T>(v: seq<Option<seq<T>>>, row: nat, col: nat, value: T, dflt: T, r: nat, c: nat)
    ensures CellOf(Written(v, row, col, value, dflt), r, c, dflt)
            == if r == row && c == col then value else CellOf(v, r, c, dflt)
  {
  }

  /** Growing the outer array and instantiating a row changes no cell. */
  lemma TouchedCells<T>(v: seq<Option<seq<T>>>, row: nat, r: nat, c: nat, dflt: T)
    ensures CellOf(Touched(v, row), r, c, dflt) == CellOf(v, r, c, dflt)
  {
  }

  // ---------------------------------------------------------- Reading cells

  /** Under the invariant the documented getter reads the cell. */
  lemma Get2DFixedReads<T>(a: Array2D<T>, row: ulong, col: ulong, dflt: T)
    requires Valid2D(a)
    ensures Get2DFixed(a, row, col, dflt) == Ok(CellOf(View(a), row, col, dflt))
  {
    var rs := Elements(a.rows);
    GetReadsElements(a.rows, row);
    if row < a.rows.length && rs[row].Some? {
      GetReadsElements(rs[row].value, col);
    }
  }

  /** The getter as written differs from the documented one exactly on
      null slots inside the outer array, where it throws NullReference. */
  lemma Get2DNullRow<T>(a: Array2D<T>, row: ulong, col: ulong, dflt: T)
    requires Valid2D(a)
    ensures Get2D(a, row, col, dflt) != Get2DFixed(a, row, col, dflt)
            <==> row < a.rows.length && View(a)[row] == None
    ensures row < a.rows.length && View(a)[row] == None ==> Get2D(a, row, col, dflt) == Fail(NullReference)
  {
    GetReadsElements(a.rows, row);
  }

  /** A new 2-D array is valid, empty, and every read returns the default. */
  lemma New2DEmpty<T>(row: ulong, col: ulong, dflt: T)
    ensures Valid2D(New2D<T>()) && New2D<T>().total == 0 && View(New2D<T>()) == []
    ensures Get2D(New2D<T>(), row, col, dflt) == Ok(dflt)
  {
    NewIsEmpty<Row<T>>(MaxPerformance, 0);
  }

  // --------------------------------------------------- The setter's stages

  /** Growing the outer array: nothing to do inside it; past it, null slots
      through `row` when the outer limit allows; otherwise the slots stay as
      they are. */
  lemma GrowRowsSpec<T>(rows: Array1D<Row<T>>, row: ulong)
    requires RowValid(rows)
    ensures RowValid(GrowRows(rows, row).state)
    ensures row < rows.length ==> GrowRows(rows, row) == Returned(rows)
    ensures rows.length <= row && row + 1 < ROW_MAX ==>
      GrowRows(rows, row).Returned? &&
      Elements(GrowRows(rows, row).state) == Elements(rows) + Defaults(row - rows.length + 1, None)
    ensures ROW_MAX <= row + 1 ==>
      Elements(GrowRows(rows, row).state) == Elements(rows) &&
      GrowRows(rows, row).state.length == rows.length &&
      (GrowRows(rows, row).Threw? ==> GrowRows(rows, row).error == ArgumentOutOfRange)
  {
    if row < rows.length {
    } else if row + 1 < ROW_MAX {
      GrowRowsPast(rows, row);
    } else {
      GrowRowsBeyond(rows, row);
    }
  }

  lemma GrowRowsPast<T>(rows: Array1D<Row<T>>, row: ulong)
    requires RowValid(rows) && rows.length <= row && row + 1 < ROW_MAX
    ensures GrowRows(rows, row).Returned? && RowValid(GrowRows(rows, row).state)
    ensures Elements(GrowRows(rows, row).state) == Elements(rows) + Defaults(row - rows.length + 1, None)
  {
    var n: ulong := row - rows.length + 1;
    assert WrapAdd(WrapSub(row, rows.length), 1) == n;
    assert rows.length + n < rows.limits.maxElements;
    assert GrowRows(rows, row) == Extend(rows, n, None);
    ExtendGrows(rows, n, None);
  }

  lemma GrowRowsBeyond<T>(rows: Array1D<Row<T>>, row: ulong)
    requires RowValid(rows) && ROW_MAX <= row + 1
    ensures RowValid(GrowRows(rows, row).state)
    ensures Elements(GrowRows(rows, row).state) == Elements(rows)
    ensures GrowRows(rows, row).state.length == rows.length
    ensures GrowRows(rows, row).Threw? ==> GrowRows(rows, row).error == ArgumentOutOfRange
  {
    if rows.length == 0 && row == ULONG_MAX {
      assert WrapAdd(WrapSub(row, rows.length), 1) == 0;
      ExtendGrows(rows, 0, None);
      assert Elements(rows) + Defaults(0, None) == Elements(rows);
    } else {
      ExtendBoundary(rows, row - rows.length + 1, None);
    }
  }

  /** Instantiating the row: inside the outer array the slot ends up holding
      its row, a new empty one if it was null. */
  lemma InstantiateSpec<T>(rows: Array1D<Row<T>>, row: ulong)
    requires RowValid(rows) && RowsValid(Elements(rows))
    ensures row >= rows.length ==> Instantiate(rows, row) == Fail(IndexOutOfRange)
    ensures row < rows.length ==>
      var i := Instantiate(rows, row);
      && i.Ok? && RowValid(i.value.0) && RowValid(i.value.1) && RowsValid(Elements(i.value.0))
      && Elements(i.value.0) == Elements(rows)[row := Some(i.value.1)]
      && Elements(i.value.1) == Contents(ViewOf(Elements(rows))[row])
  {
    GetReadsElements(rows, row);
    if row < rows.length {
      var rs := Elements(rows);
      if rs[row].None? {
        var r := New<T>(MaxPerformance);
        NewIsEmpty<T>(MaxPerformance, 0);
        SetKeepsValid(rows, row, Some(r));
        assert RowsValid(rs[row := Some(r)]);
      } else {
        assert rs[row := rs[row]] == rs;
      }
    }
  }

  /** Growing the row: nothing when `col` lies before its last element; the
      missing elements when the limits and the total allow; otherwise the
      row and the total stay as they are. */
  lemma GrowRowSpec<T>(total: ulong, r: Array1D<T>, col: ulong, dflt: T)
    requires RowValid(r)
    ensures RowValid(GrowRow(total, r, col, dflt).state.1)
    ensures GrowRow(total, r, col, dflt).Threw? ==> GrowRow(total, r, col, dflt).error == ArgumentOutOfRange
    ensures col < r.length ==>
      GrowRow(total, r, col, dflt).Returned? && GrowRow(total, r, col, dflt).state.0 == total &&
      Elements(GrowRow(total, r, col, dflt).state.1) == Elements(r)
    ensures r.length <= col && col + 1 < ROW_MAX && col - r.length + 1 <= ULONG_MAX - total ==>
      GrowRow(total, r, col, dflt).Returned? &&
      GrowRow(total, r, col, dflt).state.0 == total + (col - r.length + 1) &&
      Elements(GrowRow(total, r, col, dflt).state.1) == Elements(r) + Defaults(col - r.length + 1, dflt)
    ensures r.length <= col < ULONG_MAX && col - r.length + 1 > ULONG_MAX - total ==>
      GrowRow(total, r, col, dflt) == Threw((total, r), ArgumentOutOfRange)
    ensures r.length <= col && ROW_MAX <= col + 1 ==>
      GrowRow(total, r, col, dflt).state.0 == total &&
      Elements(GrowRow(total, r, col, dflt).state.1) == Elements(r) &&
      GrowRow(total, r, col, dflt).state.1.length == r.length
  {
    if col + 1 < r.length {
    } else if col + 1 == r.length {
      GrowRowAtEnd(total, r, col, dflt);
    } else if col + 1 < ROW_MAX {
      if col - r.length + 1 <= ULONG_MAX - total {
        GrowRowFits(total, r, col, dflt);
      } else {
        GrowRowOverflows(total, r, col, dflt);
      }
    } else {
      GrowRowBeyond(total, r, col, dflt);
    }
  }

  lemma GrowRowAtEnd<T>(total: ulong, r: Array1D<T>, col: ulong, dflt: T)
    requires RowValid(r) && col + 1 == r.length
    ensures GrowRow(total, r, col, dflt).Returned? && GrowRow(total, r, col, dflt).state.0 == total
    ensures RowValid(GrowRow(total, r, col, dflt).state.1)
    ensures Elements(GrowRow(total, r, col, dflt).state.1) == Elements(r)
  {
    assert WrapAdd(WrapSub(col, r.length), 1) == 0;
    ExtendGrows(r, 0, dflt);
    assert Elements(r) + Defaults(0, dflt) == Elements(r);
  }

  lemma GrowRowFits<T>(total: ulong, r: Array1D<T>, col: ulong, dflt: T)
    requires RowValid(r) && r.length <= col && col + 1 < ROW_MAX
    requires col - r.length + 1 <= ULONG_MAX - total
    ensures GrowRow(total, r, col, dflt).Returned?
    ensures RowValid(GrowRow(total, r, col, dflt).state.1)
    ensures GrowRow(total, r, col, dflt).state.0 == total + (col - r.length + 1)
    ensures Elements(GrowRow(total, r, col, dflt).state.1) == Elements(r) + Defaults(col - r.length + 1, dflt)
  {
    var n: ulong := col - r.length + 1;
    assert WrapAdd(WrapSub(col, r.length), 1) == n;
    assert r.length + n < r.limits.maxElements;
    assert GrowRow(total, r, col, dflt) == match Extend(r, n, dflt)
      case Threw(r', e) => Threw((total, r'), e)
      case Returned(r') => Returned((total + n, r'));
    ExtendGrows(r, n, dflt);
  }

  lemma GrowRowOverflows<T>(total: ulong, r: Array1D<T>, col: ulong, dflt: T)
    requires r.length <= col && ULONG_MAX - total < col - r.length + 1 <= ULONG_MAX
    ensures GrowRow(total, r, col, dflt) == Threw((total, r), ArgumentOutOfRange)
  {
    assert WrapAdd(WrapSub(col, r.length), 1) == col - r.length + 1;
  }

  lemma GrowRowBeyond<T>(total: ulong, r: Array1D<T>, col: ulong, dflt: T)
    requires RowValid(r) && r.length <= col && ROW_MAX <= col + 1
    ensures RowValid(GrowRow(total, r, col, dflt).state.1)
    ensures GrowRow(total, r, col, dflt).Threw? ==> GrowRow(total, r, col, dflt).error == ArgumentOutOfRange
    ensures GrowRow(total, r, col, dflt).state.0 == total
    ensures Elements(GrowRow(total, r, col, dflt).state.1) == Elements(r)
    ensures GrowRow(total, r, col, dflt).state.1.length == r.length
    ensures col < ULONG_MAX && col - r.length + 1 > ULONG_MAX - total ==>
      GrowRow(total, r, col, dflt) == Threw((total, r), ArgumentOutOfRange)
  {
    if r.length == 0 && col == ULONG_MAX {
      assert WrapAdd(WrapSub(col, r.length), 1) == 0;
      ExtendGrows(r, 0, dflt);
      assert Elements(r) + Defaults(0, dflt) == Elements(r);
    } else {
      var n: ulong := col - r.length + 1;
      assert WrapAdd(WrapSub(col, r.length), 1) == n;
      if n <= ULONG_MAX - total {
        ExtendBoundary(r, n, dflt);
      } else {
        GrowRowOverflows(total, r, col, dflt);
      }
    }
  }

  /** Storing a changed row back into its slot. */
  lemma PutRowSpec<T>(rows: Array1D<Row<T>>, row: ulong, r: Array1D<T>)
    requires RowValid(rows) && RowsValid(Elements(rows)) && RowValid(r) && row < rows.length
    ensures Get(rows, row).Ok?
    ensures RowValid(PutRow(rows, row, r)) && RowsValid(Elements(PutRow(rows, row, r)))
    ensures Elements(PutRow(rows, row, r)) == Elements(rows)[row := Some(r)]
  {
    GetReadsElements(rows, row);
    SetKeepsValid(rows, row, Some(r));
  }

  // ------------------------------------------------------- The setter's cases

  /** Within the outer limit, the first two stages succeed: the outer array
      reaches `row` and the slot holds a valid row, new and empty if the
      slot was null. */
  lemma Prepared<T>(a: Array2D<T>, row: ulong)
    requires Valid2D(a) && row + 1 < ROW_MAX
    ensures GrowRows(a.rows, row).Returned? && Instantiate(GrowRows(a.rows, row).state, row).Ok?
    ensures var i := Instantiate(GrowRows(a.rows, row).state, row).value;
      && RowValid(i.0) && RowsValid(Elements(i.0)) && RowValid(i.1) && row < i.0.length
      && Elements(i.1) == Contents(Pad(View(a), row)[row])
      && ViewOf(Elements(i.0)) == Touched(View(a), row)
  {
    var rows := GrowRows(a.rows, row).state;
    GrowRowsSpec(a.rows, row);
    if a.rows.length <= row {
      ViewAppendNones(Elements(a.rows), row - a.rows.length + 1);
    }
    assert ViewOf(Elements(rows)) == Pad(View(a), row);
    assert RowsValid(Elements(rows)) by {
      forall j | 0 <= j < |Elements(rows)| && Elements(rows)[j].Some?
        ensures RowValid(Elements(rows)[j].value)
      {
        assert j < |Elements(a.rows)| && Elements(rows)[j] == Elements(a.rows)[j];
      }
    }
    InstantiateSpec(rows, row);
    var i := Instantiate(rows, row).value;
    ViewUpdate(Elements(rows), row, i.1);
  }

  /** Storing a valid row back into the prepared slot: the rows array
      `rows` views as Touched(v, row), and afterwards the slot shows `r`. */
  lemma Stored<T>(v: seq<Option<seq<T>>>, rows: Array1D<Row<T>>, row: ulong, r: Array1D<T>)
    requires RowValid(rows) && RowsValid(Elements(rows)) && row < rows.length && RowValid(r)
    requires ViewOf(Elements(rows)) == Touched(v, row)
    ensures Get(rows, row).Ok?
    ensures RowValid(PutRow(rows, row, r)) && RowsValid(Elements(PutRow(rows, row, r)))
    ensures ViewOf(Elements(PutRow(rows, row, r))) == Pad(v, row)[row := Some(Elements(r))]
  {
    PutRowSpec(rows, row, r);
    ViewUpdate(Elements(rows), row, r);
    assert Touched(v, row)[row := Some(Elements(r))] == Pad(v, row)[row := Some(Elements(r))];
  }

  /** A write within the limits and the total succeeds, performs Written,
      and adds Need to the total. */
  lemma Set2DSuccess<T>(a: Array2D<T>, row: ulong, col: ulong, value: T, dflt: T)
    requires Valid2D(a) && row + 1 < ROW_MAX && col + 1 < ROW_MAX
    requires Need(View(a), row, col) <= ULONG_MAX - a.total
    ensures Set2D(a, row, col, value, dflt).Returned?
    ensures View(Set2D(a, row, col, value, dflt).state) == Written(View(a), row, col, value, dflt)
    ensures Set2D(a, row, col, value, dflt).state.total == a.total + Need(View(a), row, col)
    ensures Valid2D(Set2D(a, row, col, value, dflt).state)
  {
    Prepared(a, row);
    var i := Instantiate(GrowRows(a.rows, row).state, row).value;
    var r := i.1;
    GrowRowSpec(a.total, r, col, dflt);
    var r' := GrowRow(a.total, r, col, dflt).state.1;
    SetKeepsValid(r', col, value);
    var r'' := Set(r', col, value).value;
    assert Elements(r'') == WriteRow(Contents(Pad(View(a), row)[row]), col, value, dflt);
    Stored(View(a), i.0, row, r'');
    WrittenTotal(View(a), row, col, value, dflt);
  }

  /** A write within the limits that needs more than is left of the total
      throws ArgumentOutOfRange, after growing the outer array and
      instantiating the row. */
  lemma Set2DOverflow<T>(a: Array2D<T>, row: ulong, col: ulong, value: T, dflt: T)
    requires Valid2D(a) && row + 1 < ROW_MAX && col < ULONG_MAX
    requires Need(View(a), row, col) > ULONG_MAX - a.total
    ensures Set2D(a, row, col, value, dflt).Threw?
    ensures Set2D(a, row, col, value, dflt).error == ArgumentOutOfRange
    ensures Set2D(a, row, col, value, dflt).state.total == a.total
    ensures View(Set2D(a, row, col, value, dflt).state) == Touched(View(a), row)
    ensures Valid2D(Set2D(a, row, col, value, dflt).state)
  {
    Prepared(a, row);
    var i := Instantiate(GrowRows(a.rows, row).state, row).value;
    var r := i.1;
    assert r.length <= col && col - r.length + 1 == Need(View(a), row, col);
    GrowRowSpec(a.total, r, col, dflt);
    Stored(View(a), i.0, row, r);
    TouchedTotal(View(a), row);
  }

  /** A write to a column at or past the row limit throws, with the outer
      array grown and the row instantiated. */
  lemma Set2DColumnBeyond<T>(a: Array2D<T>, row: ulong, col: ulong, value: T, dflt: T)
    requires Valid2D(a) && row + 1 < ROW_MAX && ROW_MAX <= col + 1
    ensures Set2D(a, row, col, value, dflt).Threw?
    ensures Set2D(a, row, col, value, dflt).error in {ArgumentOutOfRange, IndexOutOfRange}
    ensures Set2D(a, row, col, value, dflt).state.total == a.total
    ensures View(Set2D(a, row, col, value, dflt).state) == Touched(View(a), row)
    ensures Valid2D(Set2D(a, row, col, value, dflt).state)
  {
    Prepared(a, row);
    var i := Instantiate(GrowRows(a.rows, row).state, row).value;
    var r := i.1;
    GrowRowSpec(a.total, r, col, dflt);
    var r' := GrowRow(a.total, r, col, dflt).state.1;
    GetReadsElements(r', col);
    SetFailsLikeGet(r', col, value);
    Stored(View(a), i.0, row, r');
    TouchedTotal(View(a), row);
  }

  /** A write to a row at or past the outer limit throws and changes no
      slot. */
  lemma Set2DRowBeyond<T>(a: Array2D<T>, row: ulong, col: ulong, value: T, dflt: T)
    requires Valid2D(a) && ROW_MAX <= row + 1
    ensures Set2D(a, row, col, value, dflt).Threw?
    ensures Set2D(a, row, col, value, dflt).error in {ArgumentOutOfRange, IndexOutOfRange}
    ensures Set2D(a, row, col, value, dflt).state.total == a.total
    ensures View(Set2D(a, row, col, value, dflt).state) == View(a)
    ensures Valid2D(Set2D(a, row, col, value, dflt).state)
  {
    GrowRowsSpec(a.rows, row);
    var rows := GrowRows(a.rows, row).state;
    if GrowRows(a.rows, row).Returned? {
      InstantiateSpec(rows, row);
    }
  }

  // ------------------------------------------------------ The setter's contract

  /** A write succeeds exactly when the row and the column are below the
      row limit and what it adds fits in what is left of the total. */
  lemma Set2DSucceeds<T>(a: Array2D<T>, row: ulong, col: ulong, value: T, dflt: T)
    requires Valid2D(a)
    ensures Set2D(a, row, col, value, dflt).Returned?
            <==> row + 1 < ROW_MAX && col + 1 < ROW_MAX && Need(View(a), row, col) <= ULONG_MAX - a.total
  {
    if ROW_MAX <= row + 1 {
      Set2DRowBeyond(a, row, col, value, dflt);
    } else if ROW_MAX <= col + 1 {
      Set2DColumnBeyond(a, row, col, value, dflt);
    } else if Need(View(a), row, col) > ULONG_MAX - a.total {
      Set2DOverflow(a, row, col, value, dflt);
    } else {
      Set2DSuccess(a, row, col, value, dflt);
    }
  }

  /** A successful write keeps the invariant, performs Written and adds
      Need to the total, so the total never decreases. */
  lemma Set2DWrites<T>(a: Array2D<T>, row: ulong, col: ulong, value: T, dflt: T)
    requires Valid2D(a) && Set2D(a, row, col, value, dflt).Returned?
    ensures Valid2D(Set2D(a, row, col, value, dflt).state)
    ensures View(Set2D(a, row, col, value, dflt).state) == Written(View(a), row, col, value, dflt)
    ensures Set2D(a, row, col, value, dflt).state.total == a.total + Need(View(a), row, col)
  {
    Set2DSucceeds(a, row, col, value, dflt);
    Set2DSuccess(a, row, col, value, dflt);
  }

  /** A write that throws keeps the invariant and the total, and every cell
      reads as before; at most the outer array has grown and the row been
      instantiated. */
  lemma Set2DThrows<T>(a: Array2D<T>, row: ulong, col: ulong, value: T, dflt: T)
    requires Valid2D(a) && Set2D(a, row, col, value, dflt).Threw?
    ensures var b := Set2D(a, row, col, value, dflt).state;
      && Valid2D(b) && b.total == a.total
      && (View(b) == View(a) || View(b) == Touched(View(a), row))
      && (forall r: ulong, c: ulong :: Get2DFixed(b, r, c, dflt) == Get2DFixed(a, r, c, dflt))
    ensures Set2D(a, row, col, value, dflt).error in {ArgumentOutOfRange, IndexOutOfRange}
  {
    Set2DSucceeds(a, row, col, value, dflt);
    if ROW_MAX <= row + 1 {
      Set2DRowBeyond(a, row, col, value, dflt);
    } else if ROW_MAX <= col + 1 {
      Set2DColumnBeyond(a, row, col, value, dflt);
    } else {
      Set2DOverflow(a, row, col, value, dflt);
    }
    var b := Set2D(a, row, col, value, dflt).state;
    forall r: ulong, c: ulong
      ensures Get2DFixed(b, r, c, dflt) == Get2DFixed(a, r, c, dflt)
    {
      Get2DFixedReads(a, r, c, dflt);
      Get2DFixedReads(b, r, c, dflt);
      TouchedCells(View(a), row, r, c, dflt);
    }
  }

  /** After a successful write the cell reads the value, through either
      getter, and every other cell reads as before. */
  lemma Set2DThenGet<T>(a: Array2D<T>, row: ulong, col: ulong, value: T, dflt: T)
    requires Valid2D(a) && Set2D(a, row, col, value, dflt).Returned?
    ensures Get2D(Set2D(a, row, col, value, dflt).state, row, col, dflt) == Ok(value)
    ensures forall r: ulong, c: ulong :: r != row || c != col ==>
      Get2DFixed(Set2D(a, row, col, value, dflt).state, r, c, dflt) == Get2DFixed(a, r, c, dflt)
    ensures forall r: ulong, c: ulong :: (r != row || c != col) && r < a.rows.length && View(a)[r].Some? ==>
      Get2D(Set2D(a, row, col, value, dflt).state, r, c, dflt) == Get2D(a, r, c, dflt)
  {
    Set2DWrites(a, row, col, value, dflt);
    var b := Set2D(a, row, col, value, dflt).state;
    Get2DFixedReads(b, row, col, dflt);
    WrittenCells(View(a), row, col, value, dflt, row, col);
    Get2DNullRow(b, row, col, dflt);
    forall r: ulong, c: ulong | r != row || c != col
      ensures Get2DFixed(b, r, c, dflt) == Get2DFixed(a, r, c, dflt)
      ensures r < a.rows.length && View(a)[r].Some? ==> Get2D(b, r, c, dflt) == Get2D(a, r, c, dflt)
    {
      Get2DFixedReads(a, r, c, dflt);
      Get2DFixedReads(b, r, c, dflt);
      WrittenCells(View(a), row, col, value, dflt, r, c);
      Get2DNullRow(a, r, c, dflt);
      Get2DNullRow(b, r, c, dflt);
    }
  }

  /** A successful write grows the outer array to include `row`, with null
      slots in between, leaves the other rows alone and grows the row to
      include `col`. */
  lemma Set2DExtends<T>(a: Array2D<T>, row: ulong, col: ulong, value: T, dflt: T)
    requires Valid2D(a) && Set2D(a, row, col, value, dflt).Returned?
    ensures var v := View(a);
      var w := View(Set2D(a, row, col, value, dflt).state);
      var len := |Contents(Pad(v, row)[row])|;
      && |w| == (if row < |v| then |v| else row + 1)
      && (forall j :: |v| <= j < |w| && j != row ==> w[j] == None)
      && (forall j :: 0 <= j < |v| && j != row ==> w[j] == v[j])
      && w[row].Some?
      && |w[row].value| == (if col < len then len else col + 1)
  {
    Set2DWrites(a, row, col, value, dflt);
  }
}
