/** The per-sentence dictionary the chunker threads through its stages:
    `{'sentence', 'index'}` from segmentation, then `combined_sentence`,
    `combined_sentence_embedding` and `distance_to_next` as later stages
    add them. A key that has not been set yet is `None`. */
module Sentences {
  import opened Wrappers

  /** An embedding vector, opaque to the chunker apart from the distance
      function applied to two of them. */
  type Vector = seq<real>

  datatype Record = Record(
    sentence: string,
    index: nat,
    combined: Option<string>,
    embedding: Option<Vector>,
    distanceToNext: Option<real>)

  /** The `'sentence'` field of every record, in order. */
  function Texts(rs: seq<Record>): (ts: seq<string>)
    ensures |ts| == |rs|
    ensures forall k :: 0 <= k < |rs| ==> ts[k] == rs[k].sentence
  {
    seq(|rs|, k requires 0 <= k < |rs| => rs[k].sentence)
  }

  predicate AllCombined(rs: seq<Record>) {
    forall k :: 0 <= k < |rs| ==> rs[k].combined.Some?
  }

  /** `[x['combined_sentence'] for x in sentences]`, the batch sent to the
      embedding provider. */
  function CombinedTexts(rs: seq<Record>): (ts: seq<string>)
    requires AllCombined(rs)
    ensures |ts| == |rs|
    ensures forall k :: 0 <= k < |rs| ==> ts[k] == rs[k].combined.value
  {
    seq(|rs|, k requires 0 <= k < |rs| => rs[k].combined.value)
  }

  predicate AllEmbedded(rs: seq<Record>) {
    forall k :: 0 <= k < |rs| ==> rs[k].embedding.Some?
  }
}
