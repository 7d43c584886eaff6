/** Sentence segmentation: `re.split(r'(?<=[.?!])\s+|\n+', essay)` followed
    by numbering the fragments with `enumerate`.

    The regular expression is scanned left to right. At each position the
    first alternative matches the longest run of whitespace when the
    character before it is `.`, `?` or `!` (the look-behind may look before
    the previous match); otherwise the second alternative matches the longest
    run of `\n`. Neither alternative matches the empty string, so every
    separator is non-empty, and empty fragments (at the ends of the text)
    are kept. */
module Segmenter {
  import opened Wrappers
  import opened Text
  import opened Sentences

  predicate IsTerminal(c: char) {
    c == '.' || c == '?' || c == '!'
  }

  lemma TerminalNotSpace(c: char)
    requires IsTerminal(c)
    ensures !IsSpace(c)
  {
    if IsSpace(c) {
      SpaceFromRange(c, 0);
    }
  }

  /** Length of the longest run of whitespace starting at `p`. */
  function SpaceRun(t: string, p: nat): (n: nat)
    requires p <= |t|
    ensures p + n <= |t|
    decreases |t| - p
  {
    if p < |t| && IsSpace(t[p]) then 1 + SpaceRun(t, p + 1) else 0
  }

  /** The whitespace run is all whitespace and cannot be extended. */
  lemma {:induction false} SpaceRunFacts(t: string, p: nat)
    requires p <= |t|
    ensures var n := SpaceRun(t, p);
      AllSpace(t[p..p + n]) && (p + n < |t| ==> !IsSpace(t[p + n]))
    decreases |t| - p
  {
    if p < |t| && IsSpace(t[p]) {
      SpaceRunFacts(t, p + 1);
      var n := SpaceRun(t, p);
      assert t[p..p + n] == [t[p]] + t[p + 1..p + n];
    }
  }

  /** Length of the longest run of `\n` starting at `p`. */
  function NewlineRun(t: string, p: nat): (n: nat)
    requires p <= |t|
    ensures p + n <= |t|
    decreases |t| - p
  {
    if p < |t| && t[p] == '\n' then 1 + NewlineRun(t, p + 1) else 0
  }

  /** The newline run holds only newlines and cannot be extended. */
  lemma {:induction false} NewlineRunFacts(t: string, p: nat)
    requires p <= |t|
    ensures forall k :: p <= k < p + NewlineRun(t, p) ==> t[k] == '\n'
    ensures p + NewlineRun(t, p) < |t| ==> t[p + NewlineRun(t, p)] != '\n'
    decreases |t| - p
  {
    if p < |t| && t[p] == '\n' {
      NewlineRunFacts(t, p + 1);
    }
  }

  /** Length of the match of the pattern at position `p`, 0 when it does
      not match there. */
  function MatchLength(t: string, p: nat): (m: nat)
    requires p <= |t|
    ensures p + m <= |t|
  {
    if 0 < p < |t| && IsTerminal(t[p - 1]) && IsSpace(t[p]) then SpaceRun(t, p)
    else if p < |t| && t[p] == '\n' then NewlineRun(t, p)
    else 0
  }

  /** The pattern matches at `p` exactly when `p` holds a newline or holds
      whitespace right after `.`, `?` or `!`, and what it matches is
      whitespace. */
  lemma MatchFacts(t: string, p: nat)
    requires p <= |t|
    ensures var m := MatchLength(t, p);
      && AllSpace(t[p..p + m])
      && (m > 0 <==> p < |t| && (t[p] == '\n' || (0 < p && IsTerminal(t[p - 1]) && IsSpace(t[p]))))
  {
    var m := MatchLength(t, p);
    if 0 < p < |t| && IsTerminal(t[p - 1]) && IsSpace(t[p]) {
      SpaceRunFacts(t, p);
    } else if p < |t| && t[p] == '\n' {
      NewlineRunFacts(t, p);
      var run := t[p..p + m];
      forall k | 0 <= k < |run| ensures IsSpace(run[k]) {
        assert run[k] == t[p + k] == '\n';
      }
    }
  }

  /** The fragments and the separators between them. */
  datatype Split = Split(fragments: seq<string>, separators: seq<string>)

  /** `re.split` from position `p`, the current fragment having begun at
      `start`. */
  function ScanFrom(t: string, start: nat, p: nat): (r: Split)
    requires start <= p <= |t|
    ensures |r.fragments| == |r.separators| + 1
    decreases |t| - p
  {
    if p == |t| then Split([t[start..]], [])
    else
      var m := MatchLength(t, p);
      if m > 0 then
        var rest := ScanFrom(t, p + m, p + m);
        Split([t[start..p]] + rest.fragments, [t[p..p + m]] + rest.separators)
      else ScanFrom(t, start, p + 1)
  }

  /** `re.split(r'(?<=[.?!])\s+|\n+', t)`. */
  function Fragments(t: string): (fs: seq<string>)
    ensures fs != []
  {
    ScanFrom(t, 0, 0).fragments
  }

  /** The inverse of splitting: the fragments with the separators put back. */
  function Rejoin(fragments: seq<string>, separators: seq<string>): string
    requires |fragments| == |separators| + 1
  {
    if separators == [] then fragments[0]
    else fragments[0] + separators[0] + Rejoin(fragments[1..], separators[1..])
  }

  /** No position inside `f` is a sentence end followed by whitespace. */
  predicate Unbroken(f: string) {
    forall q :: 1 <= q < |f| ==> !(IsTerminal(f[q - 1]) && IsSpace(f[q]))
  }

  /** The fragments and separators put back together give the text, and
      every separator is a non-empty run of whitespace. */
  predicate Reassembles(t: string, sp: Split) {
    && |sp.fragments| == |sp.separators| + 1
    && Rejoin(sp.fragments, sp.separators) == t
    && SeparatorsAreSpace(sp.separators)
  }

  /** Every separator is a non-empty run of whitespace. */
  predicate SeparatorsAreSpace(seps: seq<string>) {
    forall k :: 0 <= k < |seps| ==> seps[k] != [] && AllSpace(seps[k])
  }

  /** No fragment holds a newline or a sentence end followed by whitespace. */
  predicate FragmentsUnbroken(sp: Split) {
    forall k :: 0 <= k < |sp.fragments| ==> Clean(sp.fragments[k])
  }

  /** Every separator is the whole match of the pattern at its offset in
      `t`, the first fragment starting at `p`. */
  predicate SeparatorsMatch(t: string, p: nat, fragments: seq<string>, separators: seq<string>)
    requires |fragments| == |separators| + 1
    decreases |separators|
  {
    separators != [] ==>
      var q := p + |fragments[0]|;
      && q <= |t|
      && separators[0] == t[q..q + MatchLength(t, q)]
      && SeparatorsMatch(t, q + |separators[0]|, fragments[1..], separators[1..])
  }

  /** What `re.split` returns: the pieces reassemble the text, every
      separator is the pattern's whole match where it stands, and no
      fragment holds a place where the pattern matches. */
  predicate WellSplit(t: string, sp: Split) {
    && Reassembles(t, sp)
    && SeparatorsMatch(t, 0, sp.fragments, sp.separators)
    && FragmentsUnbroken(sp)
  }

  lemma {:induction false} ScanFromReassembles(t: string, start: nat, p: nat)
    requires start <= p <= |t|
    ensures Reassembles(t[start..], ScanFrom(t, start, p))
  {
    ScanFromRejoins(t, start, p);
    ScanFromSeparators(t, start, p);
  }

  /** One step of the scan: a match at `p` closes the current fragment. */
  lemma ScanFromMatch(t: string, start: nat, p: nat)
    requires start <= p < |t| && MatchLength(t, p) > 0
    ensures var m := MatchLength(t, p);
      ScanFrom(t, start, p) ==
        Split([t[start..p]] + ScanFrom(t, p + m, p + m).fragments,
              [t[p..p + m]] + ScanFrom(t, p + m, p + m).separators)
  {
  }

  /** One step of the scan: no match at `p` moves on to `p + 1`. */
  lemma ScanFromSkip(t: string, start: nat, p: nat)
    requires start <= p < |t| && MatchLength(t, p) == 0
    ensures ScanFrom(t, start, p) == ScanFrom(t, start, p + 1)
  {
  }

  lemma RejoinCons(f: string, fs: seq<string>, sep: string, seps: seq<string>)
    requires |fs| == |seps| + 1
    ensures Rejoin([f] + fs, [sep] + seps) == f + sep + Rejoin(fs, seps)
  {
    assert ([f] + fs)[1..] == fs && ([sep] + seps)[1..] == seps;
  }

  lemma SliceThree(t: string, a: nat, b: nat, c: nat)
    requires a <= b <= c <= |t|
    ensures t[a..] == t[a..b] + t[b..c] + t[c..]
  {
  }

  /** Putting the separators back between the fragments gives the text
      from `start` on. */
  lemma {:induction false} ScanFromRejoins(t: string, start: nat, p: nat)
    requires start <= p <= |t|
    ensures Rejoin(ScanFrom(t, start, p).fragments, ScanFrom(t, start, p).separators) == t[start..]
    decreases |t| - p
  {
    if p < |t| {
      var m := MatchLength(t, p);
      if m > 0 {
        var rest := ScanFrom(t, p + m, p + m);
        calc {
          Rejoin(ScanFrom(t, start, p).fragments, ScanFrom(t, start, p).separators);
          { ScanFromMatch(t, start, p); }
          Rejoin([t[start..p]] + rest.fragments, [t[p..p + m]] + rest.separators);
          { RejoinCons(t[start..p], rest.fragments, t[p..p + m], rest.separators); }
          t[start..p] + t[p..p + m] + Rejoin(rest.fragments, rest.separators);
          { ScanFromRejoins(t, p + m, p + m); }
          t[start..p] + t[p..p + m] + t[p + m..];
          { SliceThree(t, start, p, p + m); }
          t[start..];
        }
      } else {
        ScanFromSkip(t, start, p);
        ScanFromRejoins(t, start, p + 1);
      }
    }
  }

  /** Every separator is a non-empty run of whitespace. */
  lemma {:induction false} ScanFromSeparators(t: string, start: nat, p: nat)
    requires start <= p <= |t|
    ensures SeparatorsAreSpace(ScanFrom(t, start, p).separators)
    decreases |t| - p
  {
    if p < |t| {
      var m := MatchLength(t, p);
      if m > 0 {
        ScanFromSeparators(t, p + m, p + m);
        var rest := ScanFrom(t, p + m, p + m);
        MatchFacts(t, p);
        var seps := [t[p..p + m]] + rest.separators;
        ScanFromMatch(t, start, p);
        forall k | 0 <= k < |seps| ensures seps[k] != [] && AllSpace(seps[k]) {
          if k > 0 { assert seps[k] == rest.separators[k - 1]; }
        }
      } else {
        ScanFromSkip(t, start, p);
        ScanFromSeparators(t, start, p + 1);
      }
    }
  }

  /** Putting a fragment and the match after it in front of a split whose
      separators are whole matches. */
  lemma SeparatorsMatchCons(t: string, p: nat, q: nat, m: nat, rest: Split, whole: Split)
    requires p <= q && q + m <= |t| && m == MatchLength(t, q)
    requires |rest.fragments| == |rest.separators| + 1
    requires SeparatorsMatch(t, q + m, rest.fragments, rest.separators)
    requires whole == Split([t[p..q]] + rest.fragments, [t[q..q + m]] + rest.separators)
    ensures SeparatorsMatch(t, p, whole.fragments, whole.separators)
  {
    var fs, seps := whole.fragments, whole.separators;
    assert p + |fs[0]| == q && q + |seps[0]| == q + m;
    assert fs[1..] == rest.fragments && seps[1..] == rest.separators;
  }

  /** Every separator the scan produces is the whole match at its offset. */
  lemma {:induction false} ScanFromMatches(t: string, start: nat, p: nat)
    requires start <= p <= |t|
    ensures SeparatorsMatch(t, start, ScanFrom(t, start, p).fragments, ScanFrom(t, start, p).separators)
    decreases |t| - p
  {
    if p < |t| {
      var m := MatchLength(t, p);
      if m > 0 {
        ScanFromMatches(t, p + m, p + m);
        ScanFromMatch(t, start, p);
        SeparatorsMatchCons(t, start, p, m, ScanFrom(t, p + m, p + m), ScanFrom(t, start, p));
      } else {
        ScanFromSkip(t, start, p);
        ScanFromMatches(t, start, p + 1);
      }
    }
  }

  /** A fragment-to-be: no newline and no sentence end followed by
      whitespace. */
  predicate Clean(f: string) {
    '\n' !in f && Unbroken(f)
  }

  /** A clean slice stays clean when the pattern does not match at its
      next position. */
  lemma ExtendClean(t: string, start: nat, p: nat)
    requires start <= p < |t| && Clean(t[start..p])
    requires t[p] != '\n' && !(start < p && IsTerminal(t[p - 1]) && IsSpace(t[p]))
    ensures Clean(t[start..p + 1])
  {
    var f := t[start..p + 1];
    assert f == t[start..p] + [t[p]];
    forall q | 1 <= q < |f| ensures !(IsTerminal(f[q - 1]) && IsSpace(f[q])) {
      if q < |f| - 1 {
        assert f[q - 1] == t[start..p][q - 1] && f[q] == t[start..p][q];
      } else {
        assert f[q - 1] == t[p - 1] && f[q] == t[p];
      }
    }
  }

  lemma NoMatchExtendsClean(t: string, start: nat, p: nat)
    requires start <= p < |t| && Clean(t[start..p]) && MatchLength(t, p) == 0
    ensures Clean(t[start..p + 1])
  {
    MatchFacts(t, p);
    ExtendClean(t, start, p);
  }

  lemma {:induction false} ScanFromUnbroken(t: string, start: nat, p: nat)
    requires start <= p <= |t| && Clean(t[start..p])
    ensures FragmentsUnbroken(ScanFrom(t, start, p))
    decreases |t| - p
  {
    if p == |t| {
      assert t[start..] == t[start..p];
    } else {
      var m := MatchLength(t, p);
      if m > 0 {
        assert t[p + m..p + m] == [];
        ScanFromUnbroken(t, p + m, p + m);
        var rest := ScanFrom(t, p + m, p + m);
        var fs := [t[start..p]] + rest.fragments;
        ScanFromMatch(t, start, p);
        forall k | 0 <= k < |fs| ensures Clean(fs[k]) {
          if k > 0 { assert fs[k] == rest.fragments[k - 1]; }
        }
      } else {
        NoMatchExtendsClean(t, start, p);
        ScanFromSkip(t, start, p);
        ScanFromUnbroken(t, start, p + 1);
      }
    }
  }

  /** What `re.split` guarantees here: putting the separators back gives
      the text, every separator is the pattern's whole match at its offset
      (a non-empty run of whitespace), and no fragment holds a newline or a
      sentence end followed by whitespace. */
  lemma SplitFacts(t: string)
    ensures WellSplit(t, ScanFrom(t, 0, 0))
  {
    ScanFromReassembles(t, 0, 0);
    assert t[0..0] == [];
    ScanFromUnbroken(t, 0, 0);
    ScanFromMatches(t, 0, 0);
    assert t[0..] == t;
  }

  /** Inside a clean fragment that does not follow a sentence end, the
      pattern matches nowhere. */
  lemma NoMatchInClean(t: string, start: nat, q: nat, x: nat)
    requires start <= x < q <= |t| && Clean(t[start..q])
    requires start == 0 || !IsTerminal(t[start - 1])
    ensures MatchLength(t, x) == 0
  {
    var f := t[start..q];
    MatchFacts(t, x);
    assert t[x] == f[x - start];
    if start < x {
      assert t[x - 1] == f[x - start - 1];
    }
  }

  /** The pieces of `t[start..] == f + sep + rest` sit at their offsets. */
  lemma SliceCut(t: string, start: nat, f: string, sep: string, rest: string)
    requires start <= |t| && t[start..] == f + sep + rest
    ensures start + |f| + |sep| <= |t|
    ensures t[start..start + |f|] == f
    ensures t[start + |f|..start + |f| + |sep|] == sep
    ensures t[start + |f| + |sep|..] == rest
  {
    var u := f + sep + rest;
    assert u[..|f|] == f && u[|f|..|f| + |sep|] == sep && u[|f| + |sep|..] == rest;
  }

  /** Dropping the first fragment and separator keeps the properties. */
  lemma SplitTail(fs: seq<string>, seps: seq<string>)
    requires |fs| == |seps| + 1 && seps != []
    requires SeparatorsAreSpace(seps) && FragmentsUnbroken(Split(fs, seps))
    ensures SeparatorsAreSpace(seps[1..]) && FragmentsUnbroken(Split(fs[1..], seps[1..]))
  {
    forall k | 0 <= k < |seps| - 1 ensures seps[1..][k] != [] && AllSpace(seps[1..][k]) {
      assert seps[1..][k] == seps[k + 1];
    }
    forall k | 0 <= k < |fs| - 1 ensures Clean(fs[1..][k]) {
      assert fs[1..][k] == fs[k + 1];
    }
  }

  /** A separator ends in whitespace, so what follows it is not preceded
      by a sentence end. */
  lemma AfterSeparator(t: string, q: nat, sep: string)
    requires sep != [] && AllSpace(sep) && q + |sep| <= |t| && t[q..q + |sep|] == sep
    ensures !IsTerminal(t[q + |sep| - 1])
  {
    assert t[q + |sep| - 1] == sep[|sep| - 1];
    if IsTerminal(t[q + |sep| - 1]) {
      TerminalNotSpace(t[q + |sep| - 1]);
    }
  }

  /** The properties of `WellSplit` for the pieces from `start` on. */
  predicate SplitsFrom(t: string, start: nat, fs: seq<string>, seps: seq<string>) {
    && start <= |t| && |fs| == |seps| + 1
    && Rejoin(fs, seps) == t[start..] && SeparatorsAreSpace(seps)
    && SeparatorsMatch(t, start, fs, seps)
    && FragmentsUnbroken(Split(fs, seps))
    && (start == 0 || !IsTerminal(t[start - 1]))
  }

  /** The first fragment of such a split is a slice of the text, the
      pattern matches nowhere inside it, and it ends where the text ends
      or where the pattern matches. */
  lemma SplitsFromFirst(t: string, start: nat, fs: seq<string>, seps: seq<string>)
    requires SplitsFrom(t, start, fs, seps)
    ensures start + |fs[0]| <= |t| && t[start..start + |fs[0]|] == fs[0]
    ensures seps == [] ==> start + |fs[0]| == |t|
    ensures seps != [] ==> MatchLength(t, start + |fs[0]|) > 0
    ensures Clean(t[start..start + |fs[0]|])
  {
    var f := fs[0];
    if seps == [] {
      assert t[start..] == f;
    } else {
      SplitsFromNext(t, start, fs, seps);
      SliceCut(t, start, f, seps[0], Rejoin(fs[1..], seps[1..]));
    }
    assert Clean(f);
  }

  /** After the first fragment comes the first separator, which is the
      whole match there, and the rest is again such a split. */
  lemma SplitsFromNext(t: string, start: nat, fs: seq<string>, seps: seq<string>)
    requires SplitsFrom(t, start, fs, seps) && seps != []
    ensures start + |fs[0]| + |seps[0]| <= |t|
    ensures |seps[0]| == MatchLength(t, start + |fs[0]|) > 0
    ensures t[start + |fs[0]|..start + |fs[0]| + |seps[0]|] == seps[0]
    ensures SplitsFrom(t, start + |fs[0]| + |seps[0]|, fs[1..], seps[1..])
  {
    var f, sep, rest := fs[0], seps[0], Rejoin(fs[1..], seps[1..]);
    var q := start + |f|;
    SliceCut(t, start, f, sep, rest);
    var m := MatchLength(t, q);
    assert sep == t[q..q + m] && sep != [];
    AfterSeparator(t, q, sep);
    SplitTail(fs, seps);
  }

  /** The scan passes over a clean stretch without cutting. */
  lemma {:induction false} ScanOverClean(t: string, start: nat, p: nat, q: nat)
    requires start <= p <= q <= |t| && Clean(t[start..q])
    requires start == 0 || !IsTerminal(t[start - 1])
    ensures ScanFrom(t, start, p) == ScanFrom(t, start, q)
    decreases q - p
  {
    if p < q {
      NoMatchInClean(t, start, q, p);
      ScanFromSkip(t, start, p);
      ScanOverClean(t, start, p + 1, q);
    }
  }

  /** A clean stretch from `start` to `q` followed by a match of length
      `m`: the scan's first fragment is the stretch and its first separator
      the match. */
  lemma ScanFromCutAt(t: string, start: nat, q: nat, m: nat)
    requires start <= q && q + m <= |t| && Clean(t[start..q])
    requires start == 0 || !IsTerminal(t[start - 1])
    requires m == MatchLength(t, q) > 0
    ensures ScanFrom(t, start, start) ==
      Split([t[start..q]] + ScanFrom(t, q + m, q + m).fragments,
            [t[q..q + m]] + ScanFrom(t, q + m, q + m).separators)
  {
    ScanOverClean(t, start, start, q);
    ScanFromMatch(t, start, q);
  }

  /** A clean stretch to the end of the text is the scan's last fragment. */
  lemma ScanFromCleanEnd(t: string, start: nat)
    requires start <= |t| && Clean(t[start..])
    requires start == 0 || !IsTerminal(t[start - 1])
    ensures ScanFrom(t, start, start) == Split([t[start..]], [])
  {
    assert t[start..|t|] == t[start..];
    ScanOverClean(t, start, start, |t|);
  }

  /** A split whose first fragment and separator are known and whose rest is
      known is known. */
  lemma Assemble(whole: Split, rest: Split, fs: seq<string>, seps: seq<string>, f: string, sep: string)
    requires fs != [] && seps != [] && f == fs[0] && sep == seps[0]
    requires whole == Split([f] + rest.fragments, [sep] + rest.separators)
    requires rest == Split(fs[1..], seps[1..])
    ensures whole == Split(fs, seps)
  {
    assert fs == [fs[0]] + fs[1..] && seps == [seps[0]] + seps[1..];
  }

  /** The scan from `start` is a known split once its first fragment and
      separator are found in the text and the scan after them is known. */
  lemma ScanFromFirstCut(t: string, start: nat, fs: seq<string>, seps: seq<string>)
    requires |fs| == |seps| + 1 && seps != []
    requires start + |fs[0]| + |seps[0]| <= |t|
    requires t[start..start + |fs[0]|] == fs[0]
    requires t[start + |fs[0]|..start + |fs[0]| + |seps[0]|] == seps[0]
    requires Clean(t[start..start + |fs[0]|]) && (start == 0 || !IsTerminal(t[start - 1]))
    requires |seps[0]| == MatchLength(t, start + |fs[0]|) > 0
    requires ScanFrom(t, start + |fs[0]| + |seps[0]|, start + |fs[0]| + |seps[0]|) == Split(fs[1..], seps[1..])
    ensures ScanFrom(t, start, start) == Split(fs, seps)
  {
    ScanFromCutAt(t, start, start + |fs[0]|, |seps[0]|);
    Assemble(ScanFrom(t, start, start), ScanFrom(t, start + |fs[0]| + |seps[0]|, start + |fs[0]| + |seps[0]|),
             fs, seps, t[start..start + |fs[0]|], t[start + |fs[0]|..start + |fs[0]| + |seps[0]|]);
  }

  /** A split of the text from `start` with the properties of `WellSplit`
      is the scan's: each fragment must end at the first place the pattern
      matches, and each separator is the whole match there. */
  lemma {:induction false} ScanFromUnique(t: string, start: nat, fs: seq<string>, seps: seq<string>)
    requires SplitsFrom(t, start, fs, seps)
    ensures ScanFrom(t, start, start) == Split(fs, seps)
    decreases |seps|
  {
    SplitsFromFirst(t, start, fs, seps);
    if seps == [] {
      ScanFromCleanEnd(t, start);
      assert fs == [t[start..]];
    } else {
      SplitsFromNext(t, start, fs, seps);
      ScanFromUnique(t, start + |fs[0]| + |seps[0]|, fs[1..], seps[1..]);
      ScanFromFirstCut(t, start, fs, seps);
    }
  }

  /** `re.split`'s result is the only split with the properties of
      `WellSplit`: they pin the fragments and separators down. */
  lemma SplitUnique(t: string, sp: Split)
    requires WellSplit(t, sp)
    ensures sp == ScanFrom(t, 0, 0)
  {
    assert t[0..] == t;
    ScanFromUnique(t, 0, sp.fragments, sp.separators);
  }

  /** `[{'sentence': x, 'index': i} for i, x in enumerate(fragments)]`:
      one record per fragment, numbered 0..N-1 in order, at least one, none
      holding a newline. */
  function Segment(t: string): (rs: seq<Record>)
    ensures |rs| == |Fragments(t)| >= 1
    ensures Texts(rs) == Fragments(t)
    ensures forall i :: 0 <= i < |rs| ==> rs[i].index == i && '\n' !in rs[i].sentence
    ensures forall i :: 0 <= i < |rs| ==>
      rs[i].combined.None? && rs[i].embedding.None? && rs[i].distanceToNext.None?
  {
    SplitFacts(t);
    var fs := Fragments(t);
    seq(|fs|, i requires 0 <= i < |fs| => Record(fs[i], i, None, None, None))
  }

  /** The last fragment is what follows the last separator. */
  lemma {:induction false} RejoinEndsWithLast(fragments: seq<string>, separators: seq<string>)
    requires |fragments| == |separators| + 1
    ensures var r := Rejoin(fragments, separators);
      var last := fragments[|fragments| - 1];
      |last| <= |r| && r[|r| - |last|..] == last
  {
    if separators != [] {
      RejoinEndsWithLast(fragments[1..], separators[1..]);
    }
  }

  /** Empty fragments are kept: text ending in a newline yields an empty
      last sentence. */
  lemma TrailingNewlineGivesEmptyLast(t: string)
    requires |t| > 0 && t[|t| - 1] == '\n'
    ensures var fs := Fragments(t); fs[|fs| - 1] == ""
  {
    var sp := ScanFrom(t, 0, 0);
    SplitFacts(t);
    RejoinEndsWithLast(sp.fragments, sp.separators);
  }

  /** Empty fragments are kept: text starting with a newline yields an empty
      first sentence. */
  lemma LeadingNewlineGivesEmptyFirst(t: string)
    requires |t| > 0 && t[0] == '\n'
    ensures Fragments(t)[0] == ""
  {
    assert MatchLength(t, 0) > 0;
  }

  /** Empty text is one empty sentence, not none. */
  lemma EmptyTextIsOneEmptySentence()
    ensures Fragments("") == [""]
  {
  }
}
