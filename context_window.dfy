/** `combine_sentences`: every record gets, as `combined_sentence`, the
    stripped space-join of the texts of the sentences within `buffer_size`
    positions of it. The list of records is updated in place. */
module ContextWindow {
  import opened Wrappers
  import opened Text
  import opened Sentences

  /** The default `buffer_size` of `combine_sentences`. */
  const DEFAULT_BUFFER_SIZE: int := 60

  function Max(a: int, b: int): int { if a < b then b else a }
  function Min(a: int, b: int): int { if a < b then a else b }

  /** First index of the window of sentence `i`: `max(0, i - b)`. */
  function WindowStart(i: int, b: int): int { Max(0, i - b) }

  /** End (exclusive) of the window of sentence `i`: `min(n, i + b + 1)`. */
  function WindowEnd(n: int, i: int, b: int): int { Min(n, i + b + 1) }

  /** The combined sentence of sentence `i`: strip of the space-join of the
      texts in `range(max(0, i - b), min(n, i + b + 1))`; an empty range (a
      negative buffer size) gives the empty string. */
  function Window(texts: seq<string>, i: nat, b: int): string
    requires i < |texts|
  {
    var lo := WindowStart(i, b);
    var hi := WindowEnd(|texts|, i, b);
    if lo < hi then Trim(JoinSpace(texts[lo..hi])) else ""
  }

  /** The records after `combine_sentences`: each keeps its text, index,
      embedding and distance, and gets its window as combined sentence. */
  function Combined(rs: seq<Record>, b: int): seq<Record> {
    seq(|rs|, k requires 0 <= k < |rs| => rs[k].(combined := Some(Window(Texts(rs), k, b))))
  }

  /** The list length and every `sentence` and `index` field are unchanged;
      entry `k` gets the stripped join of its window. */
  lemma CombinedKeepsSentences(rs: seq<Record>, b: int)
    ensures |Combined(rs, b)| == |rs|
    ensures forall k :: 0 <= k < |rs| ==>
      && Combined(rs, b)[k].sentence == rs[k].sentence
      && Combined(rs, b)[k].index == rs[k].index
      && Combined(rs, b)[k].combined == Some(Window(Texts(rs), k, b))
  {
  }

  /** With `buffer_size = 0` a combined sentence is its own text, stripped. */
  lemma {:induction false} WindowOfZeroBuffer(texts: seq<string>, i: nat)
    requires i < |texts|
    ensures Window(texts, i, 0) == Trim(texts[i])
  {
    assert texts[i..i + 1] == [texts[i]];
  }

  /** A buffer at least as long as the document makes every combined
      sentence the whole document, stripped. */
  lemma {:induction false} WindowOfLargeBuffer(texts: seq<string>, i: nat, b: int)
    requires i < |texts| && b >= |texts|
    ensures Window(texts, i, b) == Trim(JoinSpace(texts))
  {
    assert texts[0..|texts|] == texts;
  }

  /** With a non-negative buffer the window holds sentence `i` itself: the
      join of the window is the join of the sentences before it in the
      window, then `i`'s text, then the join of those after it. */
  lemma {:induction false} WindowHoldsOwnSentence(texts: seq<string>, i: nat, b: nat)
    requires i < |texts|
    ensures var lo := WindowStart(i, b);
      var hi := WindowEnd(|texts|, i, b);
      && lo <= i < hi
      && JoinSpace(texts[lo..hi]) ==
         (if lo < i then JoinSpace(texts[lo..i]) + " " else "") + texts[i] +
         (if i + 1 < hi then " " + JoinSpace(texts[i + 1..hi]) else "")
  {
    var lo := WindowStart(i, b);
    var hi := WindowEnd(|texts|, i, b);
    var before, after := texts[lo..i], texts[i + 1..hi];
    assert texts[lo..hi] == before + [texts[i]] + after;
    if before != [] {
      JoinSpaceAppend(before, [texts[i]]);
      if after != [] {
        JoinSpaceAppend(before + [texts[i]], after);
      } else {
        assert before + [texts[i]] + after == before + [texts[i]];
      }
    } else if after != [] {
      JoinSpaceAppend([texts[i]], after);
    }
  }

  /** One more pass of the inner loop appends the next text and a space. */
  lemma AccumulatedStep(texts: seq<string>, lo: nat, j: nat)
    requires lo <= j < |texts|
    ensures Accumulated(texts[lo..j + 1]) == Accumulated(texts[lo..j]) + texts[j] + " "
  {
    assert texts[lo..j + 1][..j - lo] == texts[lo..j];
  }

  /** The inner loop of `combine_sentences`: every text of the window of
      sentence `i`, each followed by one space, then stripped. */
  method CombineWindow(a: array<Record>, i: nat, bufferSize: int) returns (combined: string)
    requires i < a.Length
    ensures combined == Window(Texts(a[..]), i, bufferSize)
  {
    ghost var texts := Texts(a[..]);
    var acc := "";
    var lo := WindowStart(i, bufferSize);
    var hi := WindowEnd(a.Length, i, bufferSize);
    if lo < hi {
      var j := lo;
      while j < hi
        invariant lo <= j <= hi
        invariant acc == Accumulated(texts[lo..j])
      {
        AccumulatedStep(texts, lo, j);
        acc := acc + a[j].sentence + " ";
        j := j + 1;
      }
      AccumulatedTrim(texts[lo..hi]);
    }
    combined := Trim(acc);
  }

  /** `combine_sentences(sentences, buffer_size)`, in place. */
  method CombineSentences(a: array<Record>, bufferSize: int)
    modifies a
    ensures a[..] == Combined(old(a[..]), bufferSize)
  {
    ghost var texts := Texts(a[..]);
    var n := a.Length;
    for i := 0 to n
      invariant forall k :: 0 <= k < i ==> a[k] == old(a[k]).(combined := Some(Window(texts, k, bufferSize)))
      invariant forall k :: i <= k < n ==> a[k] == old(a[k])
    {
      assert Texts(a[..]) == texts;
      var combined := CombineWindow(a, i, bufferSize);
      a[i] := a[i].(combined := Some(combined));
    }
  }
}
