/** The one-dimensional chunked array: a logical sequence of up to
    `maxElements` values stored as chunks of at most `cap` values each. */
module ExaArray1D {
  import opened Exceptions
  import opened Strategies
  import opened ChunkLayout

  /** `chunks[j] == None` stands for a null inner array. */
  datatype Array1D<T> = Array1D(strategy: Strategy, limits: Limits, length: ulong, chunks: seq<Option<seq<T>>>)

  /** An empty array with the given strategy and limits: length 0 and one
      empty chunk. */
  function Empty<T>(s: Strategy, l: Limits): Array1D<T> {
    Array1D(s, l, 0, [Some([])])
  }

  /** The constructor: limits derived from the strategy. */
  function New<T>(s: Strategy): Array1D<T> {
    Empty(s, LimitsOf(s))
  }

  /** The invariant every array built by the constructor, Extend and Set keeps. */
  predicate Valid<T>(a: Array1D<T>) {
    && ValidLimits(a.limits)
    && a.length < a.limits.maxElements
    && Shaped(a.chunks, a.limits.cap)
    && |Flatten(a.chunks)| == a.length
  }

  /** The logical contents of an array whose chunks are all allocated. */
  function Elements<T>(a: Array1D<T>): seq<T> {
    Flatten(a.chunks)
  }

  // ---------------------------------------------------------------- Extend

  /** `n` copies of the element type's default value, as a fresh C# array holds. */
  function Defaults<T>(n: nat, dflt: T): (r: seq<T>)
    ensures |r| == n && forall i :: 0 <= i < n ==> r[i] == dflt
  {
    seq(n, _ => dflt)
  }

  /** Defaults for m then n elements are the defaults for m + n. */
  lemma DefaultsAdd<T>(m: nat, n: nat, dflt: T)
    ensures Defaults(m, dflt) + Defaults(n, dflt) == Defaults(m + n, dflt)
  {
  }

  /** The chunks the growth loop appends for `leftOver` new elements: none
      when nothing is left over, otherwise full chunks while at least `cap`
      remain, then one chunk for the rest. */
  function FreshChunks<T>(leftOver: nat, cap: pos, dflt: T): (cs: seq<Option<seq<T>>>)
    ensures leftOver == 0 ==> cs == []
    ensures leftOver > 0 ==> Layered(cs, cap) && 0 < |cs[|cs| - 1].value| <= cap
    ensures Flatten(cs) == Defaults(leftOver, dflt)
    decreases leftOver
  {
    if leftOver == 0 then
      []
    else
      var allocating := if leftOver >= cap then cap else leftOver;
      var tail := FreshChunks(leftOver - allocating, cap, dflt);
      var chunk := Some(Defaults(allocating, dflt));
      FlattenCons(chunk, tail);
      DefaultsAdd(allocating, leftOver - allocating, dflt);
      if tail == [] then
        assert [chunk] + tail == [chunk];
        [chunk] + tail
      else
        LayeredAppend([chunk], tail, cap);
        [chunk] + tail
  }

  /** Extends the array by `extendBy` elements, each `dflt`. The request is
      refused, before anything changes, when `extendBy` exceeds the element
      limit or the new length would reach it. */
  function Extend<T>(a: Array1D<T>, extendBy: ulong, dflt: T): (r: Call<Array1D<T>>)
    ensures r.state.strategy == a.strategy && r.state.limits == a.limits
  {
    var max := a.limits.maxElements;
    if extendBy > max || WrapAdd(a.length, extendBy) >= max then
      Threw(a, ArgumentOutOfRange)
    else
      Grow(a, extendBy, dflt)
  }

  /** The growth part of Extend, after its bound check: raises the length,
      fills the last chunk, then appends full chunks, then a chunk for the
      remainder. */
  function Grow<T>(a: Array1D<T>, extendBy: ulong, dflt: T): (r: Call<Array1D<T>>)
    ensures r.state.strategy == a.strategy && r.state.limits == a.limits
  {
    var grown := a.(length := WrapAdd(a.length, extendBy));
    if |a.chunks| == 0 then
      Threw(grown, IndexOutOfRange)
    else
      match a.chunks[|a.chunks| - 1]
      case None =>
        // `this.chunks[^1].Length`, an argument of the Array.Copy call
        Threw(grown, NullReference)
      case Some(last) =>
        var cap := a.limits.cap;
        var init := a.chunks[..|a.chunks| - 1];
        var available := WrapSub(cap, |last|);
        if extendBy >= available then
          if |last| > cap then
            // Array.Copy into the shorter full-size chunk
            Threw(grown, ArgumentInvalid)
          else
            var full := last + Defaults(cap - |last|, dflt);
            Returned(grown.(chunks := init + [Some(full)] + FreshChunks(extendBy - available, cap, dflt)))
        else
          Returned(grown.(chunks := init + [Some(last + Defaults(extendBy, dflt))]))
  }

  // ------------------------------------------------------------ Get / Set

  /** The indexer's getter. */
  function Get<T>(a: Array1D<T>, index: ulong): Result<T> {
    if index >= a.limits.maxElements then
      Fail(IndexOutOfRange)
    else
      var (c, o) := Split(index, a.limits.cap);
      if c >= |a.chunks| then
        Fail(IndexOutOfRange)
      else
        match a.chunks[c]
        case None => Fail(NullReference)
        case Some(chunk) =>
          if o >= |chunk| then Fail(IndexOutOfRange) else Ok(chunk[o])
  }

  /** The indexer's setter. */
  function Set<T>(a: Array1D<T>, index: ulong, value: T): (r: Result<Array1D<T>>)
    ensures r.Ok? ==> r.value.strategy == a.strategy && r.value.limits == a.limits
    ensures r.Ok? ==> r.value.length == a.length && |r.value.chunks| == |a.chunks|
  {
    if index >= a.limits.maxElements then
      Fail(IndexOutOfRange)
    else
      var (c, o) := Split(index, a.limits.cap);
      if c >= |a.chunks| then
        Fail(IndexOutOfRange)
      else
        match a.chunks[c]
        case None => Fail(NullReference)
        case Some(chunk) =>
          if o >= |chunk| then Fail(IndexOutOfRange)
          else Ok(a.(chunks := a.chunks[c := Some(chunk[o := value])]))
  }

  // ------------------------------------------------------------------ Items

  /** The enumeration `Items()` collected: `Get(0) .. Get(length - 1)` in
      order; the first read that throws ends it with that exception. */
  function Items<T>(a: Array1D<T>): (r: Result<seq<T>>)
    ensures r.Ok? ==> |r.value| == a.length
    ensures r.Ok? ==> forall n: ulong :: n < a.length ==> Get(a, n) == Ok(r.value[n])
    ensures r.Fail? ==> exists n: ulong :: n < a.length && Get(a, n) == Fail(r.error)
  {
    ItemsFrom(a, 0)
  }

  function ItemsFrom<T>(a: Array1D<T>, from: ulong): (r: Result<seq<T>>)
    requires from <= a.length
    ensures r.Ok? ==> |r.value| == a.length - from
    ensures r.Ok? ==> forall n: ulong :: from <= n < a.length ==> Get(a, n) == Ok(r.value[n - from])
    ensures r.Fail? ==> exists n: ulong :: from <= n < a.length && Get(a, n) == Fail(r.error)
    decreases a.length - from
  {
    if from == a.length then
      Ok([])
    else
      match Get(a, from)
      case Fail(e) => Fail(e)
      case Ok(x) =>
        match ItemsFrom(a, from + 1)
        case Fail(e) => Fail(e)
        case Ok(xs) => Ok([x] + xs)
  }

  // ----------------------------------------------------------------- Lemmas

  /** A new array is valid, has length 0 and one empty chunk, enumerates
      nothing and refuses every read. */
  lemma NewIsEmpty<T>(s: Strategy, i: ulong)
    ensures Valid(New<T>(s))
    ensures New<T>(s).length == 0 && |New<T>(s).chunks| == 1 && Elements(New<T>(s)) == []
    ensures Items(New<T>(s)) == Ok([])
    ensures Get(New<T>(s), i) == Fail(IndexOutOfRange)
  {
    var a := New<T>(s);
    assert Flatten(a.chunks) == Flatten(a.chunks[..0]);
    GetReadsElements(a, i);
  }

  /** Under the invariant, a read succeeds exactly below the length, and
      then yields the element at that logical index; every other read
      raises IndexOutOfRange. */
  lemma GetReadsElements<T>(a: Array1D<T>, i: ulong)
    requires Valid(a)
    ensures i < a.length ==> Get(a, i) == Ok(Elements(a)[i])
    ensures i >= a.length ==> Get(a, i) == Fail(IndexOutOfRange)
  {
    LocateIndex(a.chunks, a.limits.cap, i);
  }

  /** The enumeration of a valid array is its contents. */
  lemma ItemsOfValid<T>(a: Array1D<T>)
    requires Valid(a)
    ensures Items(a) == Ok(Elements(a))
  {
    var r := Items(a);
    if r.Fail? {
      var n: ulong :| n < a.length && Get(a, n) == Fail(r.error);
      GetReadsElements(a, n);
    } else {
      forall n: nat | n < |r.value|
        ensures r.value[n] == Elements(a)[n]
      {
        GetReadsElements(a, n);
      }
      assert r.value == Elements(a);
    }
  }

  /** Extend refuses exactly when `extendBy` exceeds the limit or the new
      length would reach it, and a refused call changes nothing. */
  lemma ExtendBoundary<T>(a: Array1D<T>, extendBy: ulong, dflt: T)
    requires Valid(a)
    ensures Extend(a, extendBy, dflt).Threw?
            <==> extendBy > a.limits.maxElements || a.length + extendBy >= a.limits.maxElements
    ensures Extend(a, extendBy, dflt).Threw? ==> Extend(a, extendBy, dflt) == Threw(a, ArgumentOutOfRange)
  {
    if extendBy <= a.limits.maxElements && a.length + extendBy < a.limits.maxElements {
      ExtendGrows(a, extendBy, dflt);
    }
  }

  /** A successful Extend raises the length by exactly `extendBy`, keeps the
      shape invariant, keeps every stored value at its index and appends
      `extendBy` default values. */
  lemma ExtendGrows<T>(a: Array1D<T>, extendBy: ulong, dflt: T)
    requires Valid(a)
    requires a.length + extendBy < a.limits.maxElements
    ensures Extend(a, extendBy, dflt).Returned?
    ensures Valid(Extend(a, extendBy, dflt).state)
    ensures Extend(a, extendBy, dflt).state.length == a.length + extendBy
    ensures Elements(Extend(a, extendBy, dflt).state) == Elements(a) + Defaults(extendBy, dflt)
  {
    GrowShape(a, extendBy, dflt);
  }

  lemma GrowShape<T>(a: Array1D<T>, extendBy: nat, dflt: T)
    requires Valid(a)
    requires a.length + extendBy < a.limits.maxElements
    ensures Grow(a, extendBy, dflt).Returned?
    ensures Valid(Grow(a, extendBy, dflt).state)
    ensures Grow(a, extendBy, dflt).state.length == a.length + extendBy
    ensures Elements(Grow(a, extendBy, dflt).state) == Elements(a) + Defaults(extendBy, dflt)
  {
    var k := |a.chunks| - 1;
    assert Flatten(a.chunks) == Flatten(a.chunks[..k]) + a.chunks[k].value;
    if extendBy >= a.limits.cap - |a.chunks[k].value| {
      GrowFillsLast(a, extendBy, dflt);
    } else {
      GrowWithinLast(a, extendBy, dflt);
    }
  }

  /** Growth that fits in the last chunk. */
  lemma GrowWithinLast<T>(a: Array1D<T>, extendBy: nat, dflt: T)
    requires Valid(a)
    requires a.length + extendBy < a.limits.maxElements
    requires extendBy < a.limits.cap - |a.chunks[|a.chunks| - 1].value|
    ensures var r := Grow(a, extendBy, dflt);
      && r.Returned? && r.state.length == a.length + extendBy
      && r.state.chunks == a.chunks[..|a.chunks| - 1] + [Some(a.chunks[|a.chunks| - 1].value + Defaults(extendBy, dflt))]
      && Valid(r.state)
      && Elements(r.state) == Elements(a) + Defaults(extendBy, dflt)
  {
    var k := |a.chunks| - 1;
    var init := a.chunks[..k];
    var grown := a.chunks[k].value + Defaults(extendBy, dflt);
    assert Flatten(a.chunks) == Flatten(init) + a.chunks[k].value;
    FlattenSnoc(init, Some(grown));
    assert (init + [Some(grown)])[..k] == init;
  }

  /** Growth that fills the last chunk and possibly appends more. */
  lemma GrowFillsLast<T>(a: Array1D<T>, extendBy: nat, dflt: T)
    requires Valid(a)
    requires a.length + extendBy < a.limits.maxElements
    requires extendBy >= a.limits.cap - |a.chunks[|a.chunks| - 1].value|
    ensures var r := Grow(a, extendBy, dflt);
      && r.Returned? && r.state.length == a.length + extendBy
      && Valid(r.state)
      && Elements(r.state) == Elements(a) + Defaults(extendBy, dflt)
  {
    var cap := a.limits.cap;
    var k := |a.chunks| - 1;
    var last := a.chunks[k].value;
    var head := FilledHead(a, dflt);
    var leftOver := extendBy - (cap - |last|);
    GrowFillChunks(a, extendBy, dflt);
    if leftOver == 0 {
      assert head + [] == head;
      ShapedFull(head, cap);
    } else {
      AppendAppended(head, leftOver, cap, dflt);
      DefaultsAdd(cap - |last|, leftOver, dflt);
    }
  }

  /** What Grow builds when the request fills the last chunk. */
  lemma GrowFillChunks<T>(a: Array1D<T>, extendBy: nat, dflt: T)
    requires Valid(a)
    requires a.length + extendBy < a.limits.maxElements
    requires extendBy >= a.limits.cap - |a.chunks[|a.chunks| - 1].value|
    ensures var leftOver := extendBy - (a.limits.cap - |a.chunks[|a.chunks| - 1].value|);
      Grow(a, extendBy, dflt).Returned? &&
      Grow(a, extendBy, dflt).state.length == a.length + extendBy &&
      Grow(a, extendBy, dflt).state.chunks == FilledHead(a, dflt) + FreshChunks(leftOver, a.limits.cap, dflt)
  {
    var last := a.chunks[|a.chunks| - 1].value;
    assert |last| <= a.limits.cap;
    assert WrapSub(a.limits.cap, |last|) == a.limits.cap - |last|;
  }

  /** The chunks with the last one padded to full capacity. */
  function FilledHead<T>(a: Array1D<T>, dflt: T): (head: seq<Option<seq<T>>>)
    requires Valid(a)
    ensures AllFull(head, a.limits.cap)
    ensures Flatten(head) == Elements(a) + Defaults(a.limits.cap - |a.chunks[|a.chunks| - 1].value|, dflt)
  {
    var k := |a.chunks| - 1;
    var init := a.chunks[..k];
    var last := a.chunks[k].value;
    var full := last + Defaults(a.limits.cap - |last|, dflt);
    assert Flatten(a.chunks) == Flatten(init) + last;
    FlattenSnoc(init, Some(full));
    init + [Some(full)]
  }

  /** Full chunks followed by the growth loop's chunks form a shaped layout. */
  lemma AppendAppended<T>(head: seq<Option<seq<T>>>, leftOver: nat, cap: pos, dflt: T)
    requires AllFull(head, cap) && leftOver > 0
    ensures var cs := head + FreshChunks(leftOver, cap, dflt);
      && Flatten(cs) == Flatten(head) + Defaults(leftOver, dflt)
      && Shaped(cs, cap)
  {
    var appended := FreshChunks(leftOver, cap, dflt);
    FlattenAppend(head, appended);
    LayeredAppend(head, appended, cap);
  }

  /** After a successful Extend every index below the old length reads as
      before, the new indices read the default, and nothing beyond reads. */
  lemma ExtendKeepsValues<T>(a: Array1D<T>, extendBy: ulong, dflt: T, i: ulong)
    requires Valid(a)
    requires a.length + extendBy < a.limits.maxElements
    ensures var b := Extend(a, extendBy, dflt).state;
      && (i < a.length ==> Get(b, i) == Get(a, i))
      && (a.length <= i < b.length ==> Get(b, i) == Ok(dflt))
      && (i >= b.length ==> Get(b, i) == Fail(IndexOutOfRange))
  {
    ExtendGrows(a, extendBy, dflt);
    var b := Extend(a, extendBy, dflt).state;
    GetReadsElements(a, i);
    GetReadsElements(b, i);
  }

  /** Distinct indices have distinct slots. */
  lemma SplitInjective(i: nat, j: nat, cap: pos)
    requires i != j
    ensures Split(i, cap) != Split(j, cap)
  {
  }

  /** Set succeeds exactly where Get does, with the same exception. */
  lemma SetFailsLikeGet<T>(a: Array1D<T>, i: ulong, v: T)
    ensures Set(a, i, v).Ok? <==> Get(a, i).Ok?
    ensures Set(a, i, v).Fail? ==> Set(a, i, v).error == Get(a, i).error
  {
  }

  /** After a successful Set the index reads the stored value and every
      other index reads as before. */
  lemma SetThenGet<T>(a: Array1D<T>, i: ulong, v: T, j: ulong)
    requires Set(a, i, v).Ok?
    ensures Get(Set(a, i, v).value, i) == Ok(v)
    ensures j != i ==> Get(Set(a, i, v).value, j) == Get(a, j)
  {
    if j != i {
      SplitInjective(i, j, a.limits.cap);
    }
  }

  /** Setting a stored index keeps the invariant and replaces exactly that
      element of the contents. */
  lemma SetKeepsValid<T>(a: Array1D<T>, i: ulong, v: T)
    requires Valid(a) && i < a.length
    ensures Set(a, i, v).Ok?
    ensures Valid(Set(a, i, v).value)
    ensures Elements(Set(a, i, v).value) == Elements(a)[i := v]
  {
    GetReadsElements(a, i);
    var b := Set(a, i, v).value;
    var cap := a.limits.cap;
    assert Shaped(b.chunks, cap) by {
      assert b.chunks[..|b.chunks| - 1] == a.chunks[..|a.chunks| - 1] || Split(i, cap).0 < |a.chunks| - 1;
    }
    ShapedLength(a.chunks, cap);
    ShapedLength(b.chunks, cap);
    forall n: ulong | n < a.length
      ensures Elements(b)[n] == Elements(a)[i := v][n]
    {
      GetReadsElements(a, n);
      GetReadsElements(b, n);
      SetThenGet(a, i, v, n);
    }
  }

  /** The bound is exclusive: no Extend can bring the length to exactly the
      element limit, even when `extendBy` itself is within it. */
  lemma ExtendRejectsExactMax<T>(a: Array1D<T>, dflt: T)
    requires Valid(a)
    ensures Extend(a, a.limits.maxElements - a.length, dflt) == Threw(a, ArgumentOutOfRange)
  {
  }

  /** Every index below the element limit of either strategy maps to a chunk
      number of at most `cap`, which fits a C# `int`. */
  lemma ChunkIndexFitsInt(s: Strategy, index: ulong)
    requires index < LimitsOf(s).maxElements
    ensures Split(index, LimitsOf(s).cap).0 <= LimitsOf(s).cap <= INT_MAX
  {
    var l := LimitsOf(s);
    var (c, o) := Split(index, l.cap);
    MulGap(l.cap, c, l.cap);
  }

  /** Both strategies admit lengths that need `cap + 1` chunks: the length
      cap * cap + 1 is below the element limit and a shaped layout of it has
      cap + 1 chunks, one more than the chunk capacity. */
  lemma ChunksCanExceedCap<T>(s: Strategy, cs: seq<Option<seq<T>>>)
    requires Shaped(cs, LimitsOf(s).cap)
    requires |Flatten(cs)| == LimitsOf(s).cap * LimitsOf(s).cap + 1
    ensures |Flatten(cs)| < LimitsOf(s).maxElements
    ensures |cs| == LimitsOf(s).cap + 1
  {
    var cap := LimitsOf(s).cap;
    ShapedChunkCount(cs, cap);
    DivUnique(cap * cap, cap, cap, 0);
  }

  /** In a valid array, `n` elements from offset `o` of chunk `c` that lie
      within one chunk and below the length are stored in that chunk, and
      are the contents from logical index c * cap + o on. */
  lemma ChunkRun<T>(a: Array1D<T>, c: nat, o: nat, n: nat)
    requires Valid(a) && 0 < n && o + n <= a.limits.cap
    requires c * a.limits.cap + o + n <= a.length
    ensures c < |a.chunks| && a.chunks[c].Some? && o + n <= |a.chunks[c].value|
    ensures a.chunks[c].value[o..o + n]
            == Elements(a)[c * a.limits.cap + o..c * a.limits.cap + o + n]
  {
    var cap := a.limits.cap;
    SplitCompose(c, o + n - 1, cap);
    LocateIndex(a.chunks, cap, c * cap + o + n - 1);
    ChunkSlice(a.chunks, cap, c, o, n);
  }
}
