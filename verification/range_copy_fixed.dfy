/** The range copy as its comments describe it: the elements `indexFrom` to
    `indexTo` of the source, in order, packed into fresh chunks of `cap`
    values each. Unlike the loop as written, a turn here copies only as much
    as fits in both the current source chunk and the current destination
    chunk, and the source cursor leaves a chunk only once it is used up. */
module RangeCopyFixed {
  import opened Exceptions
  import opened Strategies
  import opened ChunkLayout
  import opened ExaArray1D
  import opened Factories

  /** The destination chunks once the loop ends: the full chunks, then the
      partly filled one unless it is empty. */
  function Close<T>(done: seq<Option<seq<T>>>, part: seq<T>): seq<Option<seq<T>>> {
    if |part| > 0 then done + [Some(part)] else done
  }

  /** Closing full chunks and a shorter last one gives the shaped layout of
      their contents. */
  lemma CloseLayout<T>(done: seq<Option<seq<T>>>, part: seq<T>, cap: pos)
    requires AllFull(done, cap) && |part| < cap && (|part| > 0 || |done| > 0)
    ensures Shaped(Close(done, part), cap)
    ensures Flatten(Close(done, part)) == Flatten(done) + part
  {
    if |part| > 0 {
      CloseOpen(done, part, cap);
    } else {
      ShapedFull(done, cap);
      assert Flatten(done) + part == Flatten(done);
    }
  }

  lemma CloseOpen<T>(done: seq<Option<seq<T>>>, part: seq<T>, cap: pos)
    requires AllFull(done, cap) && 0 < |part| < cap
    ensures Shaped(done + [Some(part)], cap)
    ensures Flatten(done + [Some(part)]) == Flatten(done) + part
  {
    FlattenSnoc(done, Some(part));
    assert (done + [Some(part)])[..|done|] == done;
  }

  /** Copying the next `n` source elements onto the partly filled chunk
      extends the copied prefix by those elements. */
  lemma CopyOn<T>(done: seq<Option<seq<T>>>, part: seq<T>, piece: seq<T>, s: seq<T>, from: nat, mid: nat, n: nat)
    requires from <= mid && mid + n <= |s| && piece == s[mid..mid + n]
    requires Flatten(done) + part == s[from..mid]
    ensures Flatten(done) + (part + piece) == s[from..mid + n]
  {
    assert s[from..mid + n] == s[from..mid] + s[mid..mid + n];
  }

  /** The loop's chunks, once closed, are the shaped layout of what it
      copied. */
  lemma CloseIsRechunk<T>(done: seq<Option<seq<T>>>, part: seq<T>, copied: seq<T>, cap: pos)
    requires AllFull(done, cap) && |part| < cap && |copied| > 0
    requires Flatten(done) + part == copied
    ensures Close(done, part) == Rechunk(copied, cap)
  {
    if |done| == 0 {
      assert Flatten(done) == [];
    }
    CloseLayout(done, part, cap);
    ShapedUnique(Close(done, part), cap);
  }

  /** ChunkRun with the chunk's first logical index `at` given. */
  lemma SourceRun<T>(a: Array1D<T>, c: nat, at: nat, o: nat, n: nat)
    requires Valid(a) && at == c * a.limits.cap
    requires 0 < n && o + n <= a.limits.cap && at + o + n <= a.length
    ensures c < |a.chunks| && a.chunks[c].Some? && o + n <= |a.chunks[c].value|
    ensures a.chunks[c].value[o..o + n] == Elements(a)[at + o..at + o + n]
  {
    ChunkRun(a, c, o, n);
  }

  /** Moving a full chunk from `part` to `done` keeps the copied prefix. */
  lemma ChunkDone<T>(done: seq<Option<seq<T>>>, part: seq<T>)
    ensures Flatten(done + [Some(part)]) == Flatten(done) + part
  {
    FlattenSnoc(done, Some(part));
  }

  /** The loop's variables: the source cursor at offset `srcElem` of chunk
      `srcChunk`, whose first element has logical index `at`; the number of
      elements still to copy; the full destination chunks and the partly
      filled one. */
  datatype CopyState<T> = CopyState(srcChunk: nat, srcElem: nat, at: nat, leftOver: nat,
                                    done: seq<Option<seq<T>>>, part: seq<T>)

  /** What holds at the top of every turn: `done` and `part` hold the
      elements of `s` from `indexFrom` up to the source cursor, and the
      cursor plus what is left reaches just past `indexTo`. */
  ghost predicate Copied<T>(s: seq<T>, cap: pos, indexFrom: nat, indexTo: nat, st: CopyState<T>) {
    && indexTo < |s|
    && st.at == st.srcChunk * cap && st.srcElem < cap
    && indexFrom <= st.at + st.srcElem && st.at + st.srcElem + st.leftOver == indexTo + 1
    && AllFull(st.done, cap) && |st.part| < cap
    && Flatten(st.done) + st.part == s[indexFrom..st.at + st.srcElem]
  }

  /** How many elements a turn copies: as many as are left in the source
      chunk, fit in the destination chunk and remain to be copied. */
  function TurnSize<T>(cap: pos, st: CopyState<T>): (n: nat)
    requires st.srcElem < cap && |st.part| < cap && st.leftOver > 0
    ensures 0 < n <= st.leftOver && st.srcElem + n <= cap && |st.part| + n <= cap
    ensures n == st.leftOver || st.srcElem + n == cap || |st.part| + n == cap
  {
    var n := cap - st.srcElem;
    var n := if cap - |st.part| < n then cap - |st.part| else n;
    if st.leftOver < n then st.leftOver else n
  }

  /** The destination chunks after appending to the partly filled one: a
      chunk that has become full joins the full ones. */
  function Fill<T>(cap: pos, done: seq<Option<seq<T>>>, part: seq<T>): (seq<Option<seq<T>>>, seq<T>) {
    if |part| == cap then (done + [Some(part)], []) else (done, part)
  }

  /** One turn, given the `piece` it reads from the source: append it to
      the partly filled chunk, close that chunk once full, and step the
      source cursor past a used-up chunk. */
  function Turn<T>(cap: pos, st: CopyState<T>, piece: seq<T>): CopyState<T>
    requires |piece| <= st.leftOver
  {
    var filled := Fill(cap, st.done, st.part + piece);
    if st.srcElem + |piece| == cap then
      CopyState(st.srcChunk + 1, 0, st.at + cap, st.leftOver - |piece|, filled.0, filled.1)
    else
      CopyState(st.srcChunk, st.srcElem + |piece|, st.at, st.leftOver - |piece|, filled.0, filled.1)
  }

  /** Closing a full chunk keeps the copied elements and the layout. */
  lemma FillKeeps<T>(cap: pos, done: seq<Option<seq<T>>>, part: seq<T>, copied: seq<T>)
    requires AllFull(done, cap) && |part| <= cap && Flatten(done) + part == copied
    ensures AllFull(Fill(cap, done, part).0, cap) && |Fill(cap, done, part).1| < cap
    ensures Flatten(Fill(cap, done, part).0) + Fill(cap, done, part).1 == copied
  {
    if |part| == cap {
      ChunkDone(done, part);
      AllFullAppend(done, [Some(part)], cap);
    }
  }

  /** A turn keeps the invariant and copies at least one element. */
  lemma TurnKeeps<T>(s: seq<T>, cap: pos, indexFrom: nat, indexTo: nat, st: CopyState<T>, piece: seq<T>)
    requires Copied(s, cap, indexFrom, indexTo, st) && st.leftOver > 0
    requires piece == s[st.at + st.srcElem..st.at + st.srcElem + TurnSize(cap, st)]
    ensures Copied(s, cap, indexFrom, indexTo, Turn(cap, st, piece))
    ensures Turn(cap, st, piece).leftOver < st.leftOver
  {
    var n := TurnSize(cap, st);
    var mid := st.at + st.srcElem;
    CopyOn(st.done, st.part, piece, s, indexFrom, mid, n);
    FillKeeps(cap, st.done, st.part + piece, s[indexFrom..mid + n]);
    if st.srcElem + n == cap {
      MulSucc(st.srcChunk, cap);
    }
  }

  /** CreateFrom(other, indexFrom, indexTo) with the copy loop corrected:
      the same range checks and exceptions, and the copy is the range of
      `other` in the shaped layout. */
  method CreateFromRangeFixed<T>(other: Array1D<T>, indexFrom: ulong, indexTo: ulong) returns (r: Result<Array1D<T>>)
    requires Valid(other)
    ensures indexTo < indexFrom || indexTo >= other.length ==> r == Fail(IndexOutOfRange)
    ensures indexFrom <= indexTo < other.length ==>
      r == Ok(Array1D(other.strategy, other.limits, indexTo - indexFrom + 1,
                      Rechunk(Elements(other)[indexFrom..indexTo + 1], other.limits.cap)))
    ensures r.Ok? ==> Valid(r.value) && Elements(r.value) == Elements(other)[indexFrom..indexTo + 1]
  {
    if indexTo < indexFrom || indexTo >= other.length || indexFrom >= other.length {
      return Fail(IndexOutOfRange);
    }
    var cap := other.limits.cap;
    var first := Split(indexFrom, cap);
    var st: CopyState<T> := CopyState(first.0, first.1, first.0 * cap, indexTo - indexFrom + 1, [], []);
    assert Flatten(st.done) + st.part == Elements(other)[indexFrom..st.at + st.srcElem];
    while st.leftOver > 0
      invariant Copied(Elements(other), cap, indexFrom, indexTo, st)
      decreases st.leftOver
    {
      var n := TurnSize(cap, st);
      SourceRun(other, st.srcChunk, st.at, st.srcElem, n);
      var piece := other.chunks[st.srcChunk].value[st.srcElem..st.srcElem + n];
      TurnKeeps(Elements(other), cap, indexFrom, indexTo, st, piece);
      st := Turn(cap, st, piece);
    }
    CloseIsRechunk(st.done, st.part, Elements(other)[indexFrom..indexTo + 1], cap);
    SliceCopyValid(other, indexFrom, indexTo);
    return Ok(Array1D(other.strategy, other.limits, indexTo - indexFrom + 1, Close(st.done, st.part)));
  }
}
