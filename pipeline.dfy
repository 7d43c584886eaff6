/** `SemanticChunker.process_file` without its file reading, printing and
    saving: segment the text, build the context windows, embed them in one
    batch, score adjacent distances, cut the chunks and lay out the Markdown
    body. The embedding provider and the cosine distance are parameters. */
module SemanticChunker {
  import opened Wrappers
  import opened Sentences
  import opened Segmenter
  import opened ContextWindow
  import opened Distances
  import opened Chunking
  import opened Markdown

  /** What one document yields: the embedding matrix, the diagnostic data
      (distances, threshold, breakpoints), the chunks and the Markdown
      body. */
  datatype Outcome = Outcome(
    embeddings: seq<Vector>,
    distances: seq<real>,
    threshold: real,
    breakpoints: seq<nat>,
    chunks: seq<string>,
    markdown: string)

  /** Why the processing of one document stops. */
  datatype ProcessError =
    | TooFewEmbeddings            // the provider returned fewer vectors than sentences
    | ChunkingFailed(cause: Error) // `create_chunks` failed

  /** `for i, sentence in enumerate(sentences):
      sentence['combined_sentence_embedding'] = embeddings[i]`. */
  method AttachEmbeddings(a: array<Record>, embeddings: seq<Vector>)
    requires a.Length <= |embeddings|
    modifies a
    ensures forall k :: 0 <= k < a.Length ==> a[k] == old(a[k]).(embedding := Some(embeddings[k]))
  {
    for i := 0 to a.Length
      invariant forall k :: 0 <= k < i ==> a[k] == old(a[k]).(embedding := Some(embeddings[k]))
      invariant forall k :: i <= k < a.Length ==> a[k] == old(a[k])
    {
      a[i] := a[i].(embedding := Some(embeddings[i]));
    }
  }

  /** The batch of combined sentences sent to the embedding provider. */
  function ContextTexts(texts: seq<string>, bufferSize: int): (cs: seq<string>)
    ensures |cs| == |texts|
  {
    seq(|texts|, k requires 0 <= k < |texts| => Window(texts, k, bufferSize))
  }

  /** The chunking of one document. It fails when the provider returns fewer
      vectors than there are sentences (Python's `IndexError` when attaching
      them) and when the text is a single sentence (no distances, numpy's
      `IndexError` in the percentile). On success the chunks are those of
      the breakpoints of the 95th-percentile threshold of the adjacent
      distances of the embeddings of the context windows. */
  method ProcessText(text: string, embed: seq<string> -> seq<Vector>, dist: (Vector, Vector) -> real)
    returns (r: Result<Outcome, ProcessError>)
    ensures var texts := Fragments(text);
      var embeddings := embed(ContextTexts(texts, DEFAULT_BUFFER_SIZE));
      && (r.Failure? <==> |embeddings| < |texts| || |texts| < 2)
      && (r.Failure? ==> r.error == if |embeddings| < |texts| then TooFewEmbeddings else ChunkingFailed(PercentileOfEmpty))
      && (r.Success? ==>
        && r.value.embeddings == embeddings
        && r.value.distances == AdjacentDistances(embeddings[..|texts|], dist)
        && r.value.threshold == Threshold(r.value.distances)
        && r.value.breakpoints == Breakpoints(r.value.distances, r.value.threshold)
        && ValidBreakpoints(r.value.breakpoints, |texts|)
        && r.value.chunks == Chunks(texts, r.value.breakpoints)
        && r.value.markdown == Render(r.value.chunks))
  {
    ghost var texts := Fragments(text);
    var rs := Segment(text);
    var a := new Record[|rs|](k requires 0 <= k < |rs| => rs[k]);
    assert a[..] == rs;
    CombineSentences(a, DEFAULT_BUFFER_SIZE);
    CombinedStage(rs, DEFAULT_BUFFER_SIZE);
    ghost var combined := a[..];
    var batch := CombinedTexts(a[..]);
    var embeddings := embed(batch);
    if |embeddings| < a.Length {
      return Failure(TooFewEmbeddings);
    }
    AttachEmbeddings(a, embeddings);
    ghost var embedded := a[..];
    EmbeddedStage(combined, embedded, embeddings);
    var distances := CalculateCosineDistances(a, dist);
    DistanceStage(embedded, a[..], distances);
    var chunked := CreateChunks(distances, a[..]);
    if chunked.Failure? {
      return Failure(ChunkingFailed(chunked.error));
    }
    var markdown := WriteMarkdown(chunked.value);
    var threshold := Threshold(distances);
    r := Success(Outcome(embeddings, distances, threshold, Breakpoints(distances, threshold), chunked.value, markdown));
  }

  /** After `combine_sentences` every record holds its window, the texts
      are untouched and the batch is the window of each sentence. */
  lemma CombinedStage(rs: seq<Record>, b: int)
    ensures AllCombined(Combined(rs, b))
    ensures Texts(Combined(rs, b)) == Texts(rs)
    ensures CombinedTexts(Combined(rs, b)) == ContextTexts(Texts(rs), b)
  {
    CombinedKeepsSentences(rs, b);
  }

  /** Attaching the embeddings keeps the texts and makes the embedding
      column the first `|rs|` vectors. */
  lemma EmbeddedStage(rs: seq<Record>, after: seq<Record>, embeddings: seq<Vector>)
    requires |rs| <= |embeddings| && |after| == |rs|
    requires forall k :: 0 <= k < |rs| ==> after[k] == rs[k].(embedding := Some(embeddings[k]))
    ensures Texts(after) == Texts(rs)
    ensures AllEmbedded(after)
    ensures Embeddings(after) == embeddings[..|rs|]
  {
  }

  /** Recording the distances keeps the texts. */
  lemma DistanceStage(rs: seq<Record>, after: seq<Record>, distances: seq<real>)
    requires |after| == |rs| && |distances| == if |rs| == 0 then 0 else |rs| - 1
    requires forall k :: 0 <= k < |distances| ==> after[k] == rs[k].(distanceToNext := Some(distances[k]))
    requires |rs| > 0 ==> after[|rs| - 1] == rs[|rs| - 1]
    ensures Texts(after) == Texts(rs)
  {
  }
}
