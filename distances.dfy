/** `calculate_cosine_distances`: one distance per adjacent pair of
    sentences, appended to the result list and stored on the first sentence
    of the pair as `distance_to_next`. The cosine distance itself
    (`1 - cosine_similarity`, floating point in a foreign library) is the
    caller-supplied function `dist`. */
module Distances {
  import opened Wrappers
  import opened Sentences

  /** The embedding of every record, in order. */
  function Embeddings(rs: seq<Record>): (vs: seq<Vector>)
    requires AllEmbedded(rs)
    ensures |vs| == |rs|
    ensures forall k :: 0 <= k < |rs| ==> vs[k] == rs[k].embedding.value
  {
    seq(|rs|, k requires 0 <= k < |rs| => rs[k].embedding.value)
  }

  /** `distances`: the distance of each vector to the next one. */
  function AdjacentDistances(vs: seq<Vector>, dist: (Vector, Vector) -> real): (ds: seq<real>)
    ensures |ds| == if |vs| == 0 then 0 else |vs| - 1
    ensures forall k :: 0 <= k < |ds| ==> ds[k] == dist(vs[k], vs[k + 1])
  {
    if |vs| <= 1 then [] else seq(|vs| - 1, k requires 0 <= k < |vs| - 1 => dist(vs[k], vs[k + 1]))
  }

  /** `calculate_cosine_distances(sentences)`: returns `max(N - 1, 0)`
      distances; sentence `k < N - 1` gets `distance_to_next ==
      distances[k]`, the last sentence and every other field stay as they
      were. */
  method CalculateCosineDistances(a: array<Record>, dist: (Vector, Vector) -> real)
    returns (distances: seq<real>)
    requires AllEmbedded(a[..])
    modifies a
    ensures distances == AdjacentDistances(Embeddings(old(a[..])), dist)
    ensures forall k :: 0 <= k < |distances| ==> a[k] == old(a[k]).(distanceToNext := Some(distances[k]))
    ensures a.Length > 0 ==> a[a.Length - 1] == old(a[a.Length - 1])
  {
    ghost var vs := Embeddings(a[..]);
    distances := [];
    var i := 0;
    while i < a.Length - 1
      invariant 0 <= i <= if a.Length == 0 then 0 else a.Length - 1
      invariant |distances| == i
      invariant forall k :: 0 <= k < i ==> distances[k] == dist(vs[k], vs[k + 1])
      invariant forall k :: 0 <= k < i ==> a[k] == old(a[k]).(distanceToNext := Some(distances[k]))
      invariant forall k :: i <= k < a.Length ==> a[k] == old(a[k])
    {
      var distance := dist(a[i].embedding.value, a[i + 1].embedding.value);
      distances := distances + [distance];
      a[i] := a[i].(distanceToNext := Some(distance));
      i := i + 1;
    }
  }
}
