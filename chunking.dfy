/** `create_chunks`: the threshold is the 95th percentile of the distances;
    the breakpoints are the indices whose distance is strictly above it; the
    sentences are cut into spans ending at each breakpoint and at N, each
    span's texts joined by single spaces.

    A breakpoint `i` ends a chunk BEFORE sentence `i`
    (`range(start_index, end_index)`), so a breakpoint at 0 gives an empty
    first chunk; the model keeps this behaviour. */
module Chunking {
  import opened Wrappers
  import opened Text
  import opened Sentences
  import opened Percentiles

  /** `breakpoint_percentile_threshold`. */
  const BREAKPOINT_PERCENTILE: real := 95.0

  /** Why `create_chunks` fails. */
  datatype Error =
    | PercentileOfEmpty   // numpy's IndexError: fewer than two sentences, no distances

  /** The threshold `np.percentile(distances, 95)`. */
  function Threshold(distances: seq<real>): (t: real)
    requires distances != []
    ensures exists i :: 0 <= i < |distances| && distances[i] <= t
    ensures exists j :: 0 <= j < |distances| && t <= distances[j]
  {
    PercentileInRange(distances, BREAKPOINT_PERCENTILE);
    Percentile(distances, BREAKPOINT_PERCENTILE).value
  }

  predicate StrictlyAscending(s: seq<nat>) {
    forall i, j :: 0 <= i < j < |s| ==> s[i] < s[j]
  }

  /** The indices `k >= i` with `distances[k] > threshold`, ascending. */
  function BreakpointsFrom(distances: seq<real>, threshold: real, i: nat): (bps: seq<nat>)
    requires i <= |distances|
    ensures StrictlyAscending(bps)
    ensures forall k :: 0 <= k < |bps| ==> i <= bps[k] < |distances| && distances[bps[k]] > threshold
    ensures forall k :: i <= k < |distances| && distances[k] > threshold ==> k in bps
    decreases |distances| - i
  {
    if i == |distances| then []
    else
      var rest := BreakpointsFrom(distances, threshold, i + 1);
      if distances[i] > threshold then [i] + rest else rest
  }

  /** `[i for i, x in enumerate(distances) if x > threshold]`: ascending,
      and holding exactly the indices whose distance is strictly above the
      threshold. */
  function Breakpoints(distances: seq<real>, threshold: real): (bps: seq<nat>)
    ensures StrictlyAscending(bps)
    ensures forall k :: 0 <= k < |bps| ==> bps[k] < |distances|
    ensures forall i :: 0 <= i < |distances| ==> (i in bps <==> distances[i] > threshold)
  {
    BreakpointsFrom(distances, threshold, 0)
  }

  lemma {:induction false} BreakpointsFromCount(distances: seq<real>, threshold: real, i: nat)
    requires i <= |distances|
    ensures |BreakpointsFrom(distances, threshold, i)| == CountAbove(distances[i..], threshold)
    decreases |distances| - i
  {
    if i < |distances| {
      BreakpointsFromCount(distances, threshold, i + 1);
      assert distances[i..][1..] == distances[i + 1..];
    }
  }

  /** With the 95th-percentile threshold, at most
      `n - 1 - floor(0.95 * (n - 1))` of the `n` distances become
      breakpoints: one for up to 21 distances. */
  lemma BreakpointsAreFew(distances: seq<real>)
    requires distances != []
    ensures var t := Percentile(distances, BREAKPOINT_PERCENTILE).value;
      |Breakpoints(distances, t)| <= |distances| - 1 - VirtualIndex(|distances|, BREAKPOINT_PERCENTILE).Floor
  {
    var t := Percentile(distances, BREAKPOINT_PERCENTILE).value;
    BreakpointsFromCount(distances, t, 0);
    assert distances[0..] == distances;
    PercentileSelectsTop(distances, BREAKPOINT_PERCENTILE);
  }

  lemma {:induction false} BreakpointsFromMap(f: real -> real, distances: seq<real>, t: real, i: nat)
    requires i <= |distances| && OrderPreserving(f)
    ensures BreakpointsFrom(MapValues(f, distances), f(t), i) == BreakpointsFrom(distances, t, i)
    decreases |distances| - i
  {
    if i < |distances| {
      BreakpointsFromMap(f, distances, t, i + 1);
      var mapped := MapValues(f, distances);
      assert mapped[i] == f(distances[i]);
      assert mapped[i] > f(t) <==> distances[i] > t;
    }
  }

  /** Scaling every distance by a positive constant leaves the breakpoints
      unchanged: the threshold scales with them. */
  lemma BreakpointsScaleInvariant(distances: seq<real>, c: real)
    requires distances != [] && c > 0.0
    ensures Breakpoints(Scale(distances, c), Threshold(Scale(distances, c)))
         == Breakpoints(distances, Threshold(distances))
  {
    PositiveScaleMonotone(c);
    TimesCommutesWithLerp(c);
    PercentileMap(Times(c), distances, BREAKPOINT_PERCENTILE);
    BreakpointsFromMap(Times(c), distances, Threshold(distances), 0);
  }

  /** Breakpoints usable as chunk ends for `n` sentences. */
  predicate ValidBreakpoints(bps: seq<nat>, n: nat) {
    StrictlyAscending(bps) && forall k :: 0 <= k < |bps| ==> bps[k] < n
  }

  /** Start of chunk `k`: 0, then the previous chunk's end. */
  function SpanStart(bps: seq<nat>, k: nat): nat
    requires k <= |bps|
  {
    if k == 0 then 0 else bps[k - 1]
  }

  /** End (exclusive) of chunk `k`: the `k`-th entry of `breakpoints + [n]`. */
  function SpanEnd(bps: seq<nat>, n: nat, k: nat): nat
    requires k <= |bps|
  {
    if k < |bps| then bps[k] else n
  }

  lemma SpanOrdered(bps: seq<nat>, n: nat, k: nat)
    requires ValidBreakpoints(bps, n) && k <= |bps|
    ensures SpanStart(bps, k) <= SpanEnd(bps, n, k) <= n
    ensures 0 < k ==> SpanStart(bps, k) < SpanEnd(bps, n, k)
  {
  }

  /** The sentence texts of chunk `k`. */
  function Span(texts: seq<string>, bps: seq<nat>, k: nat): seq<string>
    requires ValidBreakpoints(bps, |texts|) && k <= |bps|
  {
    SpanOrdered(bps, |texts|, k);
    texts[SpanStart(bps, k)..SpanEnd(bps, |texts|, k)]
  }

  /** The chunk texts `create_chunks` returns for these breakpoints. */
  function Chunks(texts: seq<string>, bps: seq<nat>): (cs: seq<string>)
    requires ValidBreakpoints(bps, |texts|)
    ensures |cs| == |bps| + 1
  {
    JoinEach(Spans(texts, bps, |bps| + 1))
  }

  /** The spans cover `[0, n)` in order: the first starts at 0, each starts
      where the previous one ended, the last ends at `n`, and only the first
      can be empty. */
  lemma SpansTile(bps: seq<nat>, n: nat)
    requires ValidBreakpoints(bps, n)
    ensures SpanStart(bps, 0) == 0 && SpanEnd(bps, n, |bps|) == n
    ensures forall k :: 0 <= k < |bps| ==> SpanStart(bps, k + 1) == SpanEnd(bps, n, k)
    ensures forall k :: 0 < k <= |bps| ==> SpanStart(bps, k) < SpanEnd(bps, n, k)
  {
  }

  /** The concatenation of a list of lists. */
  function Flatten(xss: seq<seq<string>>): seq<string> {
    if xss == [] then [] else Flatten(xss[..|xss| - 1]) + xss[|xss| - 1]
  }

  /** The spans of chunks `0..k-1`. */
  function Spans(texts: seq<string>, bps: seq<nat>, k: nat): (ss: seq<seq<string>>)
    requires ValidBreakpoints(bps, |texts|) && k <= |bps| + 1
    ensures |ss| == k
  {
    seq(k, j requires 0 <= j < k => Span(texts, bps, j))
  }

  lemma {:induction false} SpansPrefix(texts: seq<string>, bps: seq<nat>, k: nat)
    requires ValidBreakpoints(bps, |texts|) && 0 < k <= |bps| + 1
    ensures Flatten(Spans(texts, bps, k)) == texts[..SpanEnd(bps, |texts|, k - 1)]
  {
    var ss := Spans(texts, bps, k);
    assert ss[..k - 1] == Spans(texts, bps, k - 1);
    SpanOrdered(bps, |texts|, k - 1);
    if k == 1 {
      assert Spans(texts, bps, 0) == [];
    } else {
      SpansPrefix(texts, bps, k - 1);
      var mid := SpanEnd(bps, |texts|, k - 2);
      assert texts[..SpanEnd(bps, |texts|, k - 1)] == texts[..mid] + texts[mid..SpanEnd(bps, |texts|, k - 1)];
    }
  }

  /** Every sentence lands in exactly one chunk, in order: the spans of all
      chunks, concatenated, are the sentence list. */
  lemma SpansPartition(texts: seq<string>, bps: seq<nat>)
    requires ValidBreakpoints(bps, |texts|)
    ensures Flatten(Spans(texts, bps, |bps| + 1)) == texts
  {
    SpansPrefix(texts, bps, |bps| + 1);
  }

  /** No breakpoints: one chunk, the space-join of every sentence. */
  lemma NoBreakpointsOneChunk(texts: seq<string>)
    ensures ValidBreakpoints([], |texts|)
    ensures Chunks(texts, []) == [JoinSpace(texts)]
  {
    assert texts[0..|texts|] == texts;
  }

  /** A breakpoint at 0 makes the first chunk empty: the chunk ends before
      the sentence the breakpoint names. */
  lemma BreakpointAtZeroGivesEmptyFirstChunk(texts: seq<string>, bps: seq<nat>)
    requires ValidBreakpoints(bps, |texts|) && bps != [] && bps[0] == 0
    ensures Chunks(texts, bps)[0] == ""
  {
  }

  /** The space-join of each list. */
  function JoinEach(ss: seq<seq<string>>): (js: seq<string>)
    ensures |js| == |ss| && forall k :: 0 <= k < |ss| ==> js[k] == JoinSpace(ss[k])
  {
    if ss == [] then [] else JoinEach(ss[..|ss| - 1]) + [JoinSpace(ss[|ss| - 1])]
  }

  /** Joining the joins of non-empty lists is joining their concatenation. */
  lemma {:induction false} JoinFlatten(ss: seq<seq<string>>)
    requires forall k :: 0 <= k < |ss| ==> ss[k] != []
    ensures JoinSpace(JoinEach(ss)) == JoinSpace(Flatten(ss))
  {
    if |ss| > 1 {
      var init := ss[..|ss| - 1];
      var last := ss[|ss| - 1];
      JoinFlatten(init);
      JoinSpaceAppend(JoinEach(init), [JoinSpace(last)]);
      FlattenNonEmpty(init);
      JoinSpaceAppend(Flatten(init), last);
    } else if |ss| == 1 {
      assert ss[..0] == [];
      assert Flatten(ss) == ss[0];
    }
  }

  lemma {:induction false} FlattenNonEmpty(ss: seq<seq<string>>)
    requires ss != [] && forall k :: 0 <= k < |ss| ==> ss[k] != []
    ensures Flatten(ss) != []
  {
  }

  lemma SpansNonEmpty(texts: seq<string>, bps: seq<nat>)
    requires ValidBreakpoints(bps, |texts|) && texts != []
    requires bps == [] || bps[0] > 0
    ensures forall k :: 0 <= k <= |bps| ==> Span(texts, bps, k) != []
  {
    forall k | 0 <= k <= |bps| ensures Span(texts, bps, k) != [] {
      SpanOrdered(bps, |texts|, k);
    }
  }

  /** When no chunk is empty (no breakpoint at 0), joining the chunks with
      single spaces gives back the space-join of all sentences: no text is
      lost, duplicated or reordered. */
  lemma ChunksRejoin(texts: seq<string>, bps: seq<nat>)
    requires ValidBreakpoints(bps, |texts|) && texts != []
    requires bps == [] || bps[0] > 0
    ensures JoinSpace(Chunks(texts, bps)) == JoinSpace(texts)
  {
    var ss := Spans(texts, bps, |bps| + 1);
    SpansNonEmpty(texts, bps);
    JoinFlatten(ss);
    SpansPartition(texts, bps);
  }

  /** Five one-word sentences whose only large distance is the first gap:
      the threshold is 0.85, the single breakpoint is index 0, and because a
      chunk ends before its breakpoint the first chunk is empty and the
      second holds all five sentences, not a break after the first
      sentence. */
  lemma FirstGapOutlier()
    ensures var d := [1.0, 0.0, 0.0, 0.0];
      && Threshold(d) == 0.85
      && Breakpoints(d, Threshold(d)) == [0]
      && Chunks(["A.", "B.", "C.", "D.", "E."], [0]) == ["", JoinSpace(["A.", "B.", "C.", "D.", "E."])]
  {
    FirstGapThreshold();
    var d := [1.0, 0.0, 0.0, 0.0];
    assert Breakpoints(d, 0.85) == [0] by {
      assert BreakpointsFrom(d, 0.85, 4) == [];
      assert BreakpointsFrom(d, 0.85, 1) == [];
    }
    FirstGapChunks();
  }

  lemma FirstGapThreshold()
    ensures Threshold([1.0, 0.0, 0.0, 0.0]) == 0.85
  {
    var d := [1.0, 0.0, 0.0, 0.0];
    assert Sort(d) == [0.0, 0.0, 0.0, 1.0] by {
      assert d[1..] == [0.0, 0.0, 0.0];
      assert d[1..][1..] == [0.0, 0.0];
      assert d[1..][1..][1..] == [0.0];
      assert Sort([0.0]) == [0.0];
      assert Sort([0.0, 0.0]) == [0.0, 0.0];
      assert Sort([0.0, 0.0, 0.0]) == [0.0, 0.0, 0.0];
    }
    assert VirtualIndex(4, BREAKPOINT_PERCENTILE) == 2.85;
    assert (2.85).Floor == 2;
  }

  lemma FirstGapChunks()
    ensures var texts := ["A.", "B.", "C.", "D.", "E."];
      Chunks(texts, [0]) == ["", JoinSpace(texts)]
  {
    var texts := ["A.", "B.", "C.", "D.", "E."];
    assert Span(texts, [0], 0) == [];
    assert Span(texts, [0], 1) == texts;
  }

  /** A list holding the join of each span, in order, is the chunk list. */
  lemma ChunksBySpan(texts: seq<string>, bps: seq<nat>, chunks: seq<string>)
    requires ValidBreakpoints(bps, |texts|) && |chunks| == |bps| + 1
    requires forall k :: 0 <= k <= |bps| ==> chunks[k] == JoinSpace(Span(texts, bps, k))
    ensures chunks == Chunks(texts, bps)
  {
  }

  /** The loop of `create_chunks`: for each end in `breakpoints + [N]`,
      join the texts from the previous end up to it. */
  method AssembleChunks(texts: seq<string>, breakpoints: seq<nat>) returns (chunks: seq<string>)
    requires ValidBreakpoints(breakpoints, |texts|)
    ensures chunks == Chunks(texts, breakpoints)
  {
    var n := |texts|;
    chunks := [];
    var start := 0;
    var i := 0;
    while i <= |breakpoints|
      invariant 0 <= i <= |breakpoints| + 1
      invariant |chunks| == i
      invariant i <= |breakpoints| ==> start == SpanStart(breakpoints, i)
      invariant forall k :: 0 <= k < i ==> chunks[k] == JoinSpace(Span(texts, breakpoints, k))
    {
      var end := if i < |breakpoints| then breakpoints[i] else n;
      SpanOrdered(breakpoints, n, i);
      assert texts[start..end] == Span(texts, breakpoints, i);
      chunks := chunks + [JoinSpace(texts[start..end])];
      start := end;
      i := i + 1;
    }
    ChunksBySpan(texts, breakpoints, chunks);
  }

  /** `create_chunks(distances, sentences)`. Fails when there are no
      distances, as `np.percentile` does on an empty list. */
  method CreateChunks(distances: seq<real>, sentences: seq<Record>)
    returns (r: Result<seq<string>, Error>)
    requires |distances| <= |sentences|
    ensures r.Failure? <==> distances == []
    ensures r.Failure? ==> r.error == PercentileOfEmpty
    ensures r.Success? ==>
      var bps := Breakpoints(distances, Threshold(distances));
      ValidBreakpoints(bps, |sentences|) && r.value == Chunks(Texts(sentences), bps)
  {
    if distances == [] {
      return Failure(PercentileOfEmpty);
    }
    var threshold := Threshold(distances);
    var breakpoints := Breakpoints(distances, threshold);
    var chunks := AssembleChunks(Texts(sentences), breakpoints);
    return Success(chunks);
  }
}
