/** The two factories of the 1-D array: the structural clone and the
    inclusive range copy, the latter as written, cursor loop and all. */
module Factories {
  import opened Exceptions
  import opened Strategies
  import opened ChunkLayout
  import opened ExaArray1D

  // ------------------------------------------------------------------ Clone

  /** CreateFrom(other): a new array with the same strategy and length whose
      chunks are copies of `other`'s, chunk by chunk. Reading the length of
      a null chunk raises NullReference. Elements are values, so a copied
      chunk equals its original. */
  method Clone<T>(other: Array1D<T>) returns (r: Result<Array1D<T>>)
    ensures r.Ok? <==> forall j :: 0 <= j < |other.chunks| ==> other.chunks[j].Some?
    ensures r.Fail? ==> r.error == NullReference
    ensures r.Ok? ==> r.value == other
  {
    var chunks: seq<Option<seq<T>>> := [];
    var n := 0;
    while n < |other.chunks|
      invariant 0 <= n <= |other.chunks|
      invariant chunks == other.chunks[..n]
      invariant forall j :: 0 <= j < n ==> other.chunks[j].Some?
    {
      match other.chunks[n]
      case None =>
        return Fail(NullReference);
      case Some(c) =>
        chunks := chunks + [Some(c)];
      n := n + 1;
    }
    assert chunks == other.chunks;
    r := Ok(Array1D(other.strategy, other.limits, other.length, chunks));
  }

  // ------------------------------------------------------------- Range copy

  /** C# `(uint)` conversion of an integer: keeps the low 32 bits. */
  function ToUInt(x: int): (r: nat)
    ensures 0 <= x < 0x1_0000_0000 ==> r == x
  {
    x % 0x1_0000_0000
  }

  /** The values the range copy fixes before its loop: the capacity shared
      by source and destination, and the (chunk, offset) of both ends. */
  datatype Plan = Plan(cap: pos, fromChunk: nat, fromElem: nat, toChunk: nat, toElem: nat)

  /** The loop's variables: source and destination (chunk, element)
      cursors, the number of elements still to copy, and the destination
      chunks built so far. */
  datatype Cursor<T> = Cursor(srcChunk: nat, destChunk: nat, srcElem: nat, destElem: nat,
                              leftOver: nat, dest: seq<Option<seq<T>>>)

  /** `numberToCopy`: the first of the five cases whose condition holds.
      The fifth case's condition `leftOver < cap` is the only one left when
      the four before it fail. */
  function NumberToCopy<T>(p: Plan, c: Cursor<T>): nat
    requires c.destChunk < |c.dest|
  {
    if p.fromChunk == p.toChunk then
      ToUInt(p.toElem - p.fromElem + 1)
    else if c.srcElem > 0 then
      ToUInt(p.cap - c.srcElem)
    else if c.dest[c.destChunk].None? && c.leftOver >= p.cap then
      p.cap
    else if c.dest[c.destChunk].Some? && c.leftOver >= p.cap then
      ToUInt(p.cap - |c.dest[c.destChunk].value|)
    else
      c.leftOver
  }

  /** What holds at the top of every iteration that runs. It is just enough
      for each step to copy at least one and at most `leftOver` elements. */
  predicate Inv<T>(p: Plan, c: Cursor<T>) {
    && p.cap <= INT_MAX && p.toElem < p.cap && c.srcElem < p.cap
    && (p.fromChunk == p.toChunk ==> c.leftOver == p.toElem - p.fromElem + 1)
    && (c.srcElem > 0 && p.fromChunk != p.toChunk ==>
          c.leftOver > p.cap - c.srcElem && (c.destChunk < |c.dest| ==> c.dest[c.destChunk].None?))
    && (c.destChunk < |c.dest| && c.dest[c.destChunk].Some? ==> |c.dest[c.destChunk].value| < p.cap)
    && (forall j :: c.destChunk < j < |c.dest| ==> c.dest[j].None?)
  }

  /** One iteration of the copy loop: size the step, allocate or grow the
      destination chunk, copy with Array.Copy's checks, advance the cursors.
      The source cursor always moves to the start of the next source chunk. */
  function Step<T>(other: Array1D<T>, p: Plan, c: Cursor<T>, dflt: T): (r: Result<Cursor<T>>)
    requires c.leftOver > 0 && Inv(p, c)
    ensures r.Ok? ==> r.value.leftOver < c.leftOver && |r.value.dest| == |c.dest|
    ensures r.Ok? && r.value.leftOver > 0 ==> Inv(p, r.value)
  {
    if c.destChunk >= |c.dest| then
      Fail(IndexOutOfRange)
    else
      var n := NumberToCopy(p, c);
      var slot := c.dest[c.destChunk];
      var grown := if slot.None? then Defaults(n, dflt) else slot.value + Defaults(n, dflt);
      if c.srcChunk >= |other.chunks| then
        Fail(IndexOutOfRange)
      else
        match other.chunks[c.srcChunk]
        case None => Fail(ArgumentNull)
        case Some(src) =>
          if c.srcElem + n > |src| || c.destElem + n > |grown| then
            Fail(ArgumentInvalid)
          else
            var written := grown[..c.destElem] + src[c.srcElem..c.srcElem + n] + grown[c.destElem + n..];
            var needNewChunk := |written| == p.cap;
            StepCopiesSome(p, c);
            Ok(Cursor(c.srcChunk + 1,
                      if needNewChunk then c.destChunk + 1 else c.destChunk,
                      0,
                      if needNewChunk then 0 else n,
                      WrapSub(c.leftOver, n),
                      c.dest[c.destChunk := Some(written)]))
  }

  /** Each step copies between 1 and `leftOver` elements; when the loop goes
      on, the destination chunk it wrote is either full or was fresh and
      stays short of `cap`. */
  lemma StepCopiesSome<T>(p: Plan, c: Cursor<T>)
    requires c.leftOver > 0 && Inv(p, c) && c.destChunk < |c.dest|
    ensures 1 <= NumberToCopy(p, c) <= c.leftOver
    ensures NumberToCopy(p, c) < c.leftOver ==>
      p.fromChunk != p.toChunk &&
      ((c.srcElem > 0 && c.dest[c.destChunk].None? && NumberToCopy(p, c) == p.cap - c.srcElem)
       || (c.srcElem == 0 && c.dest[c.destChunk].None? && NumberToCopy(p, c) == p.cap)
       || (c.srcElem == 0 && c.dest[c.destChunk].Some? &&
           |c.dest[c.destChunk].value| + NumberToCopy(p, c) == p.cap))
  {
  }

  /** The copy loop: a `do … while (leftOver > 0)`. */
  function Run<T>(other: Array1D<T>, p: Plan, c: Cursor<T>, dflt: T): (r: Result<seq<Option<seq<T>>>>)
    requires c.leftOver > 0 && Inv(p, c)
    ensures r.Ok? ==> |r.value| == |c.dest|
    decreases c.leftOver
  {
    match Step(other, p, c, dflt)
    case Fail(e) => Fail(e)
    case Ok(c') => if c'.leftOver == 0 then Ok(c'.dest) else Run(other, p, c', dflt)
  }

  /** One turn of the loop, seen from Run: a step that leaves elements to
      copy hands over to the next turn, a step that copies the last ones
      ends the loop with its destination chunks, and a step that throws
      ends it with that exception. */
  lemma RunTurn<T>(other: Array1D<T>, p: Plan, c: Cursor<T>, dflt: T, r: Result<Cursor<T>>)
    requires c.leftOver > 0 && Inv(p, c)
    requires Step(other, p, c, dflt) == r
    ensures r.Ok? && r.value.leftOver > 0 ==> Run(other, p, c, dflt) == Run(other, p, r.value, dflt)
    ensures r.Ok? && r.value.leftOver == 0 ==> Run(other, p, c, dflt) == Ok(r.value.dest)
    ensures r.Fail? ==> Run(other, p, c, dflt) == Fail(r.error)
  {
  }

  /** `n` null chunk slots, as `new T[n][]` holds. */
  function NullChunks<T>(n: nat): (r: seq<Option<seq<T>>>)
    ensures |r| == n && forall j :: 0 <= j < n ==> r[j].None?
  {
    seq(n, _ => None)
  }

  /** CreateFrom(other, indexFrom, indexTo): the inclusive range as a new
      array of `other`'s strategy, built by the copy loop. */
  function CreateFromRange<T>(other: Array1D<T>, indexFrom: ulong, indexTo: ulong, dflt: T): (r: Result<Array1D<T>>)
    requires ValidLimits(other.limits)
    ensures indexTo < indexFrom || indexTo >= other.length || indexFrom >= other.length
            ==> r == Fail(IndexOutOfRange)
    ensures r.Ok? ==> r.value.strategy == other.strategy && r.value.limits == other.limits
    ensures r.Ok? ==> r.value.length == indexTo - indexFrom + 1
    ensures r.Ok? ==> |r.value.chunks| == ChunkCount(indexTo - indexFrom + 1, other.limits.cap)
  {
    if indexTo < indexFrom then
      Fail(IndexOutOfRange)
    else if indexTo >= other.length || indexFrom >= other.length then
      Fail(IndexOutOfRange)
    else
      var p := PlanOf(other.limits.cap, indexFrom, indexTo);
      var newRange := indexTo - indexFrom + 1;
      var start := Start<T>(other.limits.cap, indexFrom, indexTo);
      PlanStarts<T>(other.limits.cap, indexFrom, indexTo);
      match Run(other, p, start, dflt)
      case Fail(e) => Fail(e)
      case Ok(chunks) => Ok(Array1D(other.strategy, other.limits, newRange, chunks))
  }

  /** The (chunk, offset) pairs of both ends of the range. */
  function PlanOf(cap: pos, indexFrom: nat, indexTo: nat): (p: Plan)
    ensures p.cap == cap && p.fromElem < cap && p.toElem < cap
  {
    var (fc, fe) := Split(indexFrom, cap);
    var (tc, te) := Split(indexTo, cap);
    Plan(cap, fc, fe, tc, te)
  }

  /** The loop's first cursor: at the first element of the range in the
      source, at the start of the first of `ChunkCount(range)` null slots. */
  function Start<T>(cap: pos, indexFrom: nat, indexTo: nat): Cursor<T>
    requires indexFrom <= indexTo
  {
    var p := PlanOf(cap, indexFrom, indexTo);
    var range := indexTo - indexFrom + 1;
    Cursor(p.fromChunk, 0, p.fromElem, 0, range, NullChunks(ChunkCount(range, cap)))
  }

  /** The loop's first iteration meets the invariant. */
  lemma PlanStarts<T>(cap: pos, indexFrom: nat, indexTo: nat)
    requires cap <= INT_MAX && indexFrom <= indexTo
    ensures Start<T>(cap, indexFrom, indexTo).leftOver > 0
    ensures Inv(PlanOf(cap, indexFrom, indexTo), Start<T>(cap, indexFrom, indexTo))
  {
    SplitOrder(indexFrom, indexTo, cap);
  }

  // ------------------------------------------- Range copy: where it is right

  /** A turn of a copy that started at the beginning of a source chunk:
      the source cursor is at the start of chunk `srcChunk`, whose first
      element has logical index `at`; the destination cursor is at the
      start of a fresh slot, with just enough null slots after it for the
      `leftOver` elements that end at `to`. */
  predicate Aligned<T>(other: Array1D<T>, p: Plan, c: Cursor<T>, at: nat, to: nat) {
    && Valid(other) && p.cap == other.limits.cap && p.fromChunk != p.toChunk && p.toElem < p.cap
    && c.srcElem == 0 && c.destElem == 0 && c.leftOver > 0
    && at == c.srcChunk * p.cap && at + c.leftOver == to + 1 && to < other.length
    && c.destChunk + ChunkCount(c.leftOver, p.cap) == |c.dest|
    && (forall j :: c.destChunk <= j < |c.dest| ==> c.dest[j].None?)
  }

  /** An aligned turn copies min(cap, leftOver) elements from the start of
      the source chunk into the fresh slot. */
  lemma StepAligned<T>(other: Array1D<T>, p: Plan, c: Cursor<T>, dflt: T, at: nat, to: nat)
    requires Aligned(other, p, c, at, to)
    ensures Inv(p, c)
    ensures var n := if c.leftOver >= p.cap then p.cap else c.leftOver;
            Step(other, p, c, dflt)
            == Ok(Cursor(c.srcChunk + 1, if n == p.cap then c.destChunk + 1 else c.destChunk, 0,
                         if n == p.cap then 0 else n, c.leftOver - n,
                         c.dest[c.destChunk := Some(Elements(other)[at..at + n])]))
  {
    var n := if c.leftOver >= p.cap then p.cap else c.leftOver;
    ChunkRun(other, c.srcChunk, 0, n);
    var src := other.chunks[c.srcChunk].value;
    var g := Defaults(n, dflt);
    assert g[..0] + src[0..n] + g[n..] == src[0..n];
    assert NumberToCopy(p, c) == n;
  }

  /** The cursor after an aligned turn that filled a whole chunk. */
  function AlignedNext<T>(other: Array1D<T>, p: Plan, c: Cursor<T>, at: nat, to: nat): Cursor<T>
    requires Aligned(other, p, c, at, to) && c.leftOver > p.cap
  {
    Cursor(c.srcChunk + 1, c.destChunk + 1, 0, 0, c.leftOver - p.cap,
           c.dest[c.destChunk := Some(Elements(other)[at..at + p.cap])])
  }

  /** A full aligned turn leads to another aligned turn one chunk further
      on, and the loop goes on from there. */
  lemma AlignedAdvance<T>(other: Array1D<T>, p: Plan, c: Cursor<T>, dflt: T, at: nat, to: nat)
    requires Aligned(other, p, c, at, to) && c.leftOver > p.cap
    ensures Aligned(other, p, AlignedNext(other, p, c, at, to), at + p.cap, to)
    ensures Inv(p, c) && Inv(p, AlignedNext(other, p, c, at, to))
    ensures Run(other, p, c, dflt) == Run(other, p, AlignedNext(other, p, c, at, to), dflt)
  {
    StepAligned(other, p, c, dflt, at, to);
    ChunkCountStep(c.leftOver, p.cap);
    MulSucc(c.srcChunk, p.cap);
    RunTurn(other, p, c, dflt, Ok(AlignedNext(other, p, c, at, to)));
  }

  /** From any aligned turn the loop fills the fresh slot and the ones after
      it with the shaped layout of the rest of the range. */
  lemma {:induction false} RunAligned<T>(other: Array1D<T>, p: Plan, c: Cursor<T>, dflt: T, at: nat, to: nat)
    requires Aligned(other, p, c, at, to)
    ensures Inv(p, c)
    ensures Run(other, p, c, dflt) == Ok(c.dest[..c.destChunk] + Rechunk(Elements(other)[at..to + 1], p.cap))
    decreases c.leftOver
  {
    if c.leftOver <= p.cap {
      RunAlignedOnce(other, p, c, dflt, at, to);
    } else {
      AlignedAdvance(other, p, c, dflt, at, to);
      RunAligned(other, p, AlignedNext(other, p, c, at, to), dflt, at + p.cap, to);
      AlignedJoin(other, p, c, at, to, Run(other, p, c, dflt), Run(other, p, AlignedNext(other, p, c, at, to), dflt));
    }
  }

  /** The base case of RunAligned: the rest of the range fits one chunk. */
  lemma RunAlignedOnce<T>(other: Array1D<T>, p: Plan, c: Cursor<T>, dflt: T, at: nat, to: nat)
    requires Aligned(other, p, c, at, to) && c.leftOver <= p.cap
    ensures Inv(p, c)
    ensures Run(other, p, c, dflt) == Ok(c.dest[..c.destChunk] + Rechunk(Elements(other)[at..to + 1], p.cap))
  {
    StepAligned(other, p, c, dflt, at, to);
    ChunkCountOne(c.leftOver, p.cap);
    RunAlignedLast(other, p, c, dflt, at, to);
  }

  /** The inductive step of RunAligned: one full chunk in front of the
      layout the rest of the loop produces; `r` is the loop's result from `c`,
      `r'` its result from the next turn. */
  lemma AlignedJoin<T>(other: Array1D<T>, p: Plan, c: Cursor<T>, at: nat, to: nat,
                       r: Result<seq<Option<seq<T>>>>, r': Result<seq<Option<seq<T>>>>)
    requires Aligned(other, p, c, at, to) && c.leftOver > p.cap
    requires r == r'
    requires r' == Ok(AlignedNext(other, p, c, at, to).dest[..AlignedNext(other, p, c, at, to).destChunk]
                      + Rechunk(Elements(other)[at + p.cap..to + 1], p.cap))
    ensures r == Ok(c.dest[..c.destChunk] + Rechunk(Elements(other)[at..to + 1], p.cap))
  {
    var c' := AlignedNext(other, p, c, at, to);
    JoinLayout(r', c', c.dest, c.destChunk, Elements(other), at, to + 1, p.cap);
  }

  /** RechunkBehind, for the result of the loop from the next turn `c'`,
      which has written s[at..at + cap] into slot `d`. */
  lemma JoinLayout<T>(r: Result<seq<Option<seq<T>>>>, c': Cursor<T>, dest: seq<Option<seq<T>>>, d: nat,
                      s: seq<T>, at: nat, end: nat, cap: pos)
    requires d < |dest| && at + cap < end <= |s|
    requires c'.dest == dest[d := Some(s[at..at + cap])] && c'.destChunk == d + 1
    requires r == Ok(c'.dest[..c'.destChunk] + Rechunk(s[at + cap..end], cap))
    ensures r == Ok(dest[..d] + Rechunk(s[at..end], cap))
  {
    RechunkBehind(dest, d, s, at, end, cap);
  }

  /** The last turn of an aligned copy writes the rest of the range into the
      last destination slot. */
  lemma RunAlignedLast<T>(other: Array1D<T>, p: Plan, c: Cursor<T>, dflt: T, at: nat, to: nat)
    requires 0 < c.leftOver <= p.cap && at + c.leftOver == to + 1 && to < |Elements(other)|
    requires c.destChunk + 1 == |c.dest|
    requires Inv(p, c)
    requires Step(other, p, c, dflt)
             == Ok(Cursor(c.srcChunk + 1, if c.leftOver == p.cap then c.destChunk + 1 else c.destChunk, 0,
                          if c.leftOver == p.cap then 0 else c.leftOver, 0,
                          c.dest[c.destChunk := Some(Elements(other)[at..to + 1])]))
    ensures Run(other, p, c, dflt) == Ok(c.dest[..c.destChunk] + Rechunk(Elements(other)[at..to + 1], p.cap))
  {
    var w := Elements(other)[at..to + 1];
    RunTurn(other, p, c, dflt, Step(other, p, c, dflt));
    assert c.dest[c.destChunk := Some(w)] == c.dest[..c.destChunk] + [Some(w)];
  }

  /** A range inside one source chunk is copied in one turn into a single
      destination chunk. */
  lemma StepSameChunk<T>(other: Array1D<T>, p: Plan, c: Cursor<T>, dflt: T)
    requires Valid(other) && p.cap == other.limits.cap && p.fromChunk == p.toChunk
    requires p.fromElem <= p.toElem < p.cap && c.srcElem == p.fromElem && c.srcChunk == p.fromChunk
    requires c.destChunk == c.destElem == 0 && |c.dest| == 1 && c.dest[0].None?
    requires c.leftOver == p.toElem - p.fromElem + 1
    requires p.fromChunk * p.cap + p.toElem < other.length
    ensures Inv(p, c)
    ensures var w := Elements(other)[p.fromChunk * p.cap + p.fromElem..p.fromChunk * p.cap + p.toElem + 1];
            Step(other, p, c, dflt)
            == Ok(Cursor(c.srcChunk + 1, if c.leftOver == p.cap then 1 else 0, 0,
                         if c.leftOver == p.cap then 0 else c.leftOver, 0, [Some(w)]))
  {
    var n := c.leftOver;
    ChunkRun(other, c.srcChunk, c.srcElem, n);
    var src := other.chunks[c.srcChunk].value;
    var g := Defaults(n, dflt);
    assert g[..0] + src[c.srcElem..c.srcElem + n] + g[n..] == src[c.srcElem..c.srcElem + n];
    assert NumberToCopy(p, c) == n;
    assert c.dest[0 := Some(src[c.srcElem..c.srcElem + n])] == [Some(src[c.srcElem..c.srcElem + n])];
  }

  /** The range copy is right when the range lies in one source chunk or
      starts at the beginning of one: the copy holds exactly the elements
      `indexFrom` to `indexTo` of `other`, in the shaped layout, so it is a
      valid array. */
  lemma RangeCopyWhenAligned<T>(other: Array1D<T>, indexFrom: ulong, indexTo: ulong, dflt: T)
    requires Valid(other) && indexFrom <= indexTo < other.length
    requires Split(indexFrom, other.limits.cap).1 == 0
             || Split(indexFrom, other.limits.cap).0 == Split(indexTo, other.limits.cap).0
    ensures CreateFromRange(other, indexFrom, indexTo, dflt)
            == Ok(Array1D(other.strategy, other.limits, indexTo - indexFrom + 1,
                          Rechunk(Elements(other)[indexFrom..indexTo + 1], other.limits.cap)))
    ensures Valid(CreateFromRange(other, indexFrom, indexTo, dflt).value)
    ensures Elements(CreateFromRange(other, indexFrom, indexTo, dflt).value)
            == Elements(other)[indexFrom..indexTo + 1]
  {
    RunFromStart(other, indexFrom, indexTo, dflt);
    SliceCopyValid(other, indexFrom, indexTo);
  }

  /** The whole loop, from its first cursor, on an aligned or one-chunk range. */
  lemma RunFromStart<T>(other: Array1D<T>, indexFrom: nat, indexTo: nat, dflt: T)
    requires Valid(other) && indexFrom <= indexTo < other.length
    requires Split(indexFrom, other.limits.cap).1 == 0
             || Split(indexFrom, other.limits.cap).0 == Split(indexTo, other.limits.cap).0
    ensures Start<T>(other.limits.cap, indexFrom, indexTo).leftOver > 0
    ensures Inv(PlanOf(other.limits.cap, indexFrom, indexTo), Start<T>(other.limits.cap, indexFrom, indexTo))
    ensures Run(other, PlanOf(other.limits.cap, indexFrom, indexTo), Start(other.limits.cap, indexFrom, indexTo), dflt)
            == Ok(Rechunk(Elements(other)[indexFrom..indexTo + 1], other.limits.cap))
  {
    var cap := other.limits.cap;
    var p := PlanOf(cap, indexFrom, indexTo);
    var start := Start<T>(cap, indexFrom, indexTo);
    PlanStarts<T>(cap, indexFrom, indexTo);
    SplitOrder(indexFrom, indexTo, cap);
    if p.fromChunk == p.toChunk {
      RunSameChunk(other, p, start, dflt, indexFrom, indexTo);
    } else {
      StartAligned<T>(other, indexFrom, indexTo);
      RunAligned(other, p, start, dflt, indexFrom, indexTo);
      NothingInFront(Run(other, p, start, dflt), start.dest, Rechunk(Elements(other)[indexFrom..indexTo + 1], cap));
    }
  }

  /** A range over several source chunks that starts at the beginning of
      one starts the loop on an aligned turn. */
  lemma StartAligned<T>(other: Array1D<T>, indexFrom: nat, indexTo: nat)
    requires Valid(other) && indexFrom <= indexTo < other.length
    requires Split(indexFrom, other.limits.cap).1 == 0
    requires Split(indexFrom, other.limits.cap).0 != Split(indexTo, other.limits.cap).0
    ensures Aligned(other, PlanOf(other.limits.cap, indexFrom, indexTo),
                    Start<T>(other.limits.cap, indexFrom, indexTo), indexFrom, indexTo)
  {
  }

  lemma NothingInFront<T>(r: Result<seq<Option<seq<T>>>>, dest: seq<Option<seq<T>>>, rest: seq<Option<seq<T>>>)
    requires r == Ok(dest[..0] + rest)
    ensures r == Ok(rest)
  {
    assert dest[..0] + rest == rest;
  }

  /** The loop on a range inside one source chunk. */
  lemma RunSameChunk<T>(other: Array1D<T>, p: Plan, c: Cursor<T>, dflt: T, indexFrom: nat, indexTo: nat)
    requires Valid(other) && indexFrom <= indexTo < other.length
    requires p == PlanOf(other.limits.cap, indexFrom, indexTo) && p.fromChunk == p.toChunk
    requires c == Start<T>(other.limits.cap, indexFrom, indexTo)
    ensures Inv(p, c)
    ensures Run(other, p, c, dflt) == Ok(Rechunk(Elements(other)[indexFrom..indexTo + 1], p.cap))
  {
    ChunkCountOne(c.leftOver, p.cap);
    StepSameChunk(other, p, c, dflt);
    RunTurn(other, p, c, dflt, Step(other, p, c, dflt));
  }

  /** The shaped layout of a range of a valid array makes a valid array. */
  lemma SliceCopyValid<T>(other: Array1D<T>, indexFrom: nat, indexTo: nat)
    requires Valid(other) && indexFrom <= indexTo < other.length
    ensures var copy := Array1D(other.strategy, other.limits, indexTo - indexFrom + 1,
                                Rechunk(Elements(other)[indexFrom..indexTo + 1], other.limits.cap));
            Valid(copy) && Elements(copy) == Elements(other)[indexFrom..indexTo + 1]
  {
    RechunkLayout(Elements(other)[indexFrom..indexTo + 1], other.limits.cap);
  }
}
