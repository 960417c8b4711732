/** The layout of a chunked array: how a logical index maps to a
    (chunk, offset) pair, and the shape the chunks keep. */
module ChunkLayout {
  import opened Exceptions
  import opened Strategies

  /** Maps a logical index to (chunk, offset) the way the indexer does:
      chunk = index / cap, offset = index - chunk * cap. */
  function Split(index: nat, cap: pos): (r: (nat, nat))
    ensures r.0 * cap + r.1 == index
    ensures r.1 < cap
  {
    var c := index / cap;
    (c, index - c * cap)
  }

  /** Division has exactly one quotient/remainder pair. */
  lemma DivUnique(n: nat, d: pos, q: nat, r: nat)
    requires n == q * d + r && r < d
    ensures n / d == q
  {
    var q' := n / d;
    var r' := n - q' * d;
    assert 0 <= r' < d;
    MulGap(q', q, d);
    MulGap(q, q', d);
  }

  lemma MulSucc(a: nat, d: nat)
    ensures (a + 1) * d == a * d + d
  {
  }

  /** A larger factor is at least one multiple further on. */
  lemma MulGap(a: nat, b: nat, d: nat)
    ensures a < b ==> a * d + d <= b * d
  {
    if a < b {
      MulLe(a + 1, b, d);
    }
  }

  lemma MulLe(a: nat, b: nat, d: nat)
    requires a <= b
    ensures a * d <= b * d
  {
  }

  /** Split inverts the composition chunk * cap + offset. */
  lemma {:induction false} SplitCompose(c: nat, o: nat, cap: pos)
    requires o < cap
    ensures Split(c * cap + o, cap) == (c, o)
  {
    DivUnique(c * cap + o, cap, c, o);
  }

  /** What a chunk slot holds; a null slot holds nothing. */
  function Contents<T>(c: Option<seq<T>>): seq<T> {
    if c.Some? then c.value else []
  }

  /** The contents of the chunks, concatenated in order. */
  function Flatten<T>(cs: seq<Option<seq<T>>>): seq<T> {
    if |cs| == 0 then [] else Flatten(cs[..|cs| - 1]) + Contents(cs[|cs| - 1])
  }

  /** Appending one slot appends its contents. */
  lemma FlattenSnoc<T>(cs: seq<Option<seq<T>>>, c: Option<seq<T>>)
    ensures Flatten(cs + [c]) == Flatten(cs) + Contents(c)
  {
    assert (cs + [c])[..|cs|] == cs;
  }

  /** Split is monotone in the chunk number, and a later chunk starts at
      least a chunk's remainder further on. */
  lemma SplitOrder(i: nat, j: nat, cap: pos)
    requires i <= j
    ensures Split(i, cap).0 <= Split(j, cap).0
    ensures Split(i, cap).0 < Split(j, cap).0 ==> j - i >= cap - Split(i, cap).1
  {
    var (a, x) := Split(i, cap);
    var (b, y) := Split(j, cap);
    MulGap(b, a, cap);
    MulGap(a, b, cap);
  }

  /** Every chunk is allocated and holds exactly `cap` elements. */
  predicate AllFull<T>(cs: seq<Option<seq<T>>>, cap: pos) {
    forall j :: 0 <= j < |cs| ==> cs[j].Some? && |cs[j].value| == cap
  }

  /** At least one chunk, all but the last full, the last allocated. */
  predicate Layered<T>(cs: seq<Option<seq<T>>>, cap: pos) {
    |cs| >= 1 && AllFull(cs[..|cs| - 1], cap) && cs[|cs| - 1].Some?
  }

  /** The shape the chunks of a well-formed array keep: all allocated, all
      but the last full, the last at most full and empty only when it is
      the only chunk. */
  predicate Shaped<T>(cs: seq<Option<seq<T>>>, cap: pos) {
    && Layered(cs, cap)
    && |cs[|cs| - 1].value| <= cap
    && (|cs| > 1 ==> |cs[|cs| - 1].value| > 0)
  }

  /** Full chunks, at least one, are a shaped layout. */
  lemma ShapedFull<T>(cs: seq<Option<seq<T>>>, cap: pos)
    requires AllFull(cs, cap) && |cs| > 0
    ensures Shaped(cs, cap)
  {
    var last := |cs| - 1;
    assert cs[last].Some? && |cs[last].value| == cap;
    assert AllFull(cs[..last], cap) by {
      forall j | 0 <= j < last ensures cs[..last][j].Some? && |cs[..last][j].value| == cap {
        assert cs[..last][j] == cs[j];
      }
    }
  }

  /** Number of chunks a shaped layout of `n` elements has. */
  function ChunkCount(n: nat, cap: pos): pos {
    if n == 0 then 1 else (n - 1) / cap + 1
  }

  /** Prepending one slot prepends its contents. */
  lemma {:induction false} FlattenCons<T>(c: Option<seq<T>>, cs: seq<Option<seq<T>>>)
    ensures Flatten([c] + cs) == Contents(c) + Flatten(cs)
    decreases |cs|
  {
    if |cs| == 0 {
      assert [c] + cs == [] + [c];
      FlattenSnoc([], c);
    } else {
      var init := cs[..|cs| - 1];
      var x := cs[|cs| - 1];
      assert [c] + cs == ([c] + init) + [x];
      FlattenSnoc([c] + init, x);
      FlattenCons(c, init);
      assert cs == init + [x];
      FlattenSnoc(init, x);
    }
  }

  lemma {:induction false} FlattenAppend<T>(xs: seq<Option<seq<T>>>, ys: seq<Option<seq<T>>>)
    ensures Flatten(xs + ys) == Flatten(xs) + Flatten(ys)
    decreases |ys|
  {
    if |ys| == 0 {
      assert xs + ys == xs;
    } else {
      var ys' := ys[..|ys| - 1];
      var y := ys[|ys| - 1];
      calc {
        Flatten(xs + ys);
        { assert xs + ys == (xs + ys') + [y]; FlattenSnoc(xs + ys', y); }
        Flatten(xs + ys') + Contents(y);
        { FlattenAppend(xs, ys'); }
        Flatten(xs) + Flatten(ys') + Contents(y);
        { assert ys == ys' + [y]; FlattenSnoc(ys', y); }
        Flatten(xs) + Flatten(ys);
      }
    }
  }

  /** Full chunks followed by a layered run form a layered run. */
  lemma {:induction false} LayeredAppend<T>(head: seq<Option<seq<T>>>, tail: seq<Option<seq<T>>>, cap: pos)
    requires AllFull(head, cap) && Layered(tail, cap)
    ensures Layered(head + tail, cap)
    ensures (head + tail)[|head + tail| - 1] == tail[|tail| - 1]
  {
    var cs := head + tail;
    assert cs[..|cs| - 1] == head + tail[..|tail| - 1];
    AllFullAppend(head, tail[..|tail| - 1], cap);
  }

  lemma AllFullAppend<T>(xs: seq<Option<seq<T>>>, ys: seq<Option<seq<T>>>, cap: pos)
    requires AllFull(xs, cap) && AllFull(ys, cap)
    ensures AllFull(xs + ys, cap)
  {
    forall j | 0 <= j < |xs + ys|
      ensures (xs + ys)[j].Some? && |(xs + ys)[j].value| == cap
    {
      if j < |xs| { assert (xs + ys)[j] == xs[j]; } else { assert (xs + ys)[j] == ys[j - |xs|]; }
    }
  }

  lemma {:induction false} FlattenFullLength<T>(cs: seq<Option<seq<T>>>, cap: pos)
    requires AllFull(cs, cap)
    ensures |Flatten(cs)| == |cs| * cap
    decreases |cs|
  {
    if |cs| > 0 {
      FlattenFullLength(cs[..|cs| - 1], cap);
    }
  }

  /** Length of a shaped layout. */
  lemma {:induction false} ShapedLength<T>(cs: seq<Option<seq<T>>>, cap: pos)
    requires Shaped(cs, cap)
    ensures |Flatten(cs)| == (|cs| - 1) * cap + |cs[|cs| - 1].value|
  {
    FlattenFullLength(cs[..|cs| - 1], cap);
  }

  /** A shaped layout of n elements has ChunkCount(n, cap) chunks. */
  lemma {:induction false} ShapedChunkCount<T>(cs: seq<Option<seq<T>>>, cap: pos)
    requires Shaped(cs, cap)
    ensures |cs| == ChunkCount(|Flatten(cs)|, cap)
  {
    ShapedLength(cs, cap);
    var n := |Flatten(cs)|;
    var k := |cs| - 1;
    var last := |cs[k].value|;
    if n > 0 {
      if k == 0 {
        DivUnique(n - 1, cap, 0, n - 1);
      } else {
        DivUnique(n - 1, cap, k, last - 1);
      }
    }
  }

  /** The element at (c, o) sits at logical index c * cap + o. */
  lemma {:induction false} Locate<T>(cs: seq<Option<seq<T>>>, cap: pos, c: nat, o: nat)
    requires Layered(cs, cap)
    requires c < |cs| && o < |cs[c].value|
    ensures c * cap + o < |Flatten(cs)|
    ensures Flatten(cs)[c * cap + o] == cs[c].value[o]
    decreases |cs|
  {
    var k := |cs| - 1;
    var init := cs[..k];
    FlattenFullLength(init, cap);
    assert Flatten(cs) == Flatten(init) + cs[k].value;
    if c < k {
      assert AllFull(init[..|init| - 1], cap);
      Locate(init, cap, c, o);
    } else {
      assert c * cap == |Flatten(init)|;
    }
  }

  /** In a shaped layout, Split finds an allocated slot exactly for the
      indices below the length, and that slot holds the indexed element. */
  lemma {:induction false} LocateIndex<T>(cs: seq<Option<seq<T>>>, cap: pos, i: nat)
    requires Shaped(cs, cap)
    ensures Split(i, cap).0 < |cs| && Split(i, cap).1 < |cs[Split(i, cap).0].value|
            <==> i < |Flatten(cs)|
    ensures i < |Flatten(cs)| ==> Flatten(cs)[i] == cs[Split(i, cap).0].value[Split(i, cap).1]
  {
    var (c, o) := Split(i, cap);
    if c < |cs| && o < |cs[c].value| {
      Locate(cs, cap, c, o);
    } else {
      SplitBeyond(cs, cap, i);
    }
  }

  /** An index whose slot is missing or past its chunk's end is past the
      contents of a shaped layout. */
  lemma SplitBeyond<T>(cs: seq<Option<seq<T>>>, cap: pos, i: nat)
    requires Shaped(cs, cap)
    requires !(Split(i, cap).0 < |cs| && Split(i, cap).1 < |cs[Split(i, cap).0].value|)
    ensures i >= |Flatten(cs)|
  {
    var (c, o) := Split(i, cap);
    var k := |cs| - 1;
    ShapedLength(cs, cap);
    if c > k {
      MulLe(k + 1, c, cap);
    }
  }

  /** A run inside one chunk is a contiguous run of the flattened contents. */
  lemma {:induction false} ChunkSlice<T>(cs: seq<Option<seq<T>>>, cap: pos, c: nat, o: nat, n: nat)
    requires Layered(cs, cap)
    requires 0 < n && c < |cs| && o + n <= |cs[c].value|
    ensures c * cap + o + n <= |Flatten(cs)|
    ensures cs[c].value[o..o + n] == Flatten(cs)[c * cap + o..c * cap + o + n]
  {
    Locate(cs, cap, c, o + n - 1);
    var run := cs[c].value[o..o + n];
    var flat := Flatten(cs)[c * cap + o..c * cap + o + n];
    forall m | 0 <= m < n
      ensures run[m] == flat[m]
    {
      Locate(cs, cap, c, o + m);
    }
  }

  /** The shaped layout of a sequence: full chunks of `cap` from the front,
      the rest in the last chunk. RechunkLayout states what it is. */
  function Rechunk<T>(s: seq<T>, cap: pos): seq<Option<seq<T>>>
    decreases |s|
  {
    if |s| <= cap then [Some(s)] else [Some(s[..cap])] + Rechunk(s[cap..], cap)
  }

  /** Rechunk lays a sequence out in the shape of a valid array, and its
      contents are that sequence. */
  lemma {:induction false} RechunkLayout<T>(s: seq<T>, cap: pos)
    ensures Shaped(Rechunk(s, cap), cap) && Flatten(Rechunk(s, cap)) == s
    decreases |s|
  {
    if |s| <= cap {
      FlattenSnoc([], Some(s));
      assert [] + [Some(s)] == [Some(s)];
    } else {
      RechunkLayout(s[cap..], cap);
      RechunkCons(s, cap, Rechunk(s[cap..], cap));
    }
  }

  /** A full first chunk in front of a shaped layout of the rest. */
  lemma RechunkCons<T>(s: seq<T>, cap: pos, tail: seq<Option<seq<T>>>)
    requires |s| > cap && Shaped(tail, cap) && Flatten(tail) == s[cap..]
    ensures Shaped([Some(s[..cap])] + tail, cap) && Flatten([Some(s[..cap])] + tail) == s
  {
    FlattenCons(Some(s[..cap]), tail);
    assert s[..cap] + s[cap..] == s;
    LayeredAppend([Some(s[..cap])], tail, cap);
    if |tail| == 1 {
      assert Flatten(tail) == Flatten(tail[..0]) + tail[0].value;
    }
  }

  /** Dropping the first chunk of a shaped layout of several chunks leaves a
      shaped layout; the dropped chunk is full. */
  lemma ShapedRest<T>(cs: seq<Option<seq<T>>>, cap: pos)
    requires Shaped(cs, cap) && |cs| > 1
    ensures cs[0].Some? && |cs[0].value| == cap
    ensures Shaped(cs[1..], cap) && cs == [cs[0]] + cs[1..]
  {
    assert cs[1..][..|cs| - 2] == cs[1..|cs| - 1];
    assert cs[..|cs| - 1][0] == cs[0];
  }

  /** The shape fixes the chunks: a shaped layout is the Rechunk of its
      contents. */
  lemma {:induction false} ShapedUnique<T>(cs: seq<Option<seq<T>>>, cap: pos)
    requires Shaped(cs, cap)
    ensures cs == Rechunk(Flatten(cs), cap)
    decreases |cs|
  {
    if |cs| == 1 {
      assert cs == [] + [cs[0]];
      FlattenSnoc([], cs[0]);
      assert Flatten(cs) == cs[0].value;
      assert Rechunk(cs[0].value, cap) == [Some(cs[0].value)];
    } else {
      ShapedRest(cs, cap);
      var rest := cs[1..];
      FlattenCons(cs[0], rest);
      ShapedLength(rest, cap);
      ShapedUnique(rest, cap);
      RechunkLayout(Flatten(rest), cap);
      var s := Flatten(cs);
      assert s[..cap] == cs[0].value && s[cap..] == Flatten(rest);
    }
  }

  /** A count of at most one chunk's worth needs one chunk. */
  lemma ChunkCountOne(m: nat, cap: pos)
    requires 0 < m <= cap
    ensures ChunkCount(m, cap) == 1
  {
    DivUnique(m - 1, cap, 0, m - 1);
  }

  /** Taking one full chunk's worth off a count of more than a chunk takes
      one chunk off. */
  lemma ChunkCountStep(m: nat, cap: pos)
    requires m > cap
    ensures ChunkCount(m, cap) == ChunkCount(m - cap, cap) + 1
  {
    var (q, r) := Split(m - cap - 1, cap);
    assert (q + 1) * cap + r == m - 1;
    DivUnique(m - 1, cap, q + 1, r);
    DivUnique(m - cap - 1, cap, q, r);
  }

  /** The shaped layout of a run of more than `cap` elements starts with a
      full chunk of its first `cap`. */
  lemma RechunkFront<T>(s: seq<T>, at: nat, end: nat, cap: pos)
    requires at + cap < end <= |s|
    ensures Rechunk(s[at..end], cap) == [Some(s[at..at + cap])] + Rechunk(s[at + cap..end], cap)
  {
    assert s[at..end][..cap] == s[at..at + cap];
    assert s[at..end][cap..] == s[at + cap..end];
  }

  /** Writing the first full chunk of a run into slot `d` and laying out the
      rest behind it lays out the whole run from slot `d` on. */
  lemma RechunkBehind<T>(dest: seq<Option<seq<T>>>, d: nat, s: seq<T>, at: nat, end: nat, cap: pos)
    requires d < |dest| && at + cap < end <= |s|
    ensures dest[d := Some(s[at..at + cap])][..d + 1] + Rechunk(s[at + cap..end], cap)
            == dest[..d] + Rechunk(s[at..end], cap)
  {
    RechunkFront(s, at, end, cap);
    var w := Some(s[at..at + cap]);
    assert dest[d := w][..d + 1] == dest[..d] + [w];
    var rest := Rechunk(s[at + cap..end], cap);
    assert dest[..d] + [w] + rest == dest[..d] + ([w] + rest);
  }
}
