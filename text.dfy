/** Python string primitives used by the chunker: `str.isspace` (the `\s`
    class of a `str` regular expression), `str.strip()`, `" ".join(...)`
    and the decimal rendering of a natural number by an f-string. */
module Text {

  /** Python's `str.isspace`, which is also what `\s` matches in a `str`
      pattern: the ASCII controls 9-13 and 28-31, the space, NEL, NBSP and
      the Unicode space separators. */
  predicate IsSpace(c: char) {
    SpaceFrom(c, 0)
  }

  /** `c` is one of the whitespace characters listed from position `k` on. */
  predicate SpaceFrom(c: char, k: nat)
    decreases |SPACE_CHARS| - k
  {
    k < |SPACE_CHARS| && (SPACE_CHARS[k] == c || SpaceFrom(c, k + 1))
  }

  const SPACE_CHARS: seq<char> :=
    [' ', '\n', '\t', '\U{000B}', '\U{000C}', '\r', '\U{001C}', '\U{001D}',
     '\U{001E}', '\U{001F}', '\U{0085}', '\U{00A0}', '\U{1680}', '\U{2000}', '\U{2001}', '\U{2002}',
     '\U{2003}', '\U{2004}', '\U{2005}', '\U{2006}', '\U{2007}', '\U{2008}', '\U{2009}', '\U{200A}',
     '\U{2028}', '\U{2029}', '\U{202F}', '\U{205F}', '\U{3000}']

  /** Every whitespace character is at most the space or at least NEL, so
      no printable ASCII character other than the space is whitespace. */
  lemma {:induction false} SpaceFromRange(c: char, k: nat)
    requires SpaceFrom(c, k)
    ensures c <= ' ' || '\U{0085}' <= c
    decreases |SPACE_CHARS| - k
  {
    if SPACE_CHARS[k] != c {
      SpaceFromRange(c, k + 1);
    }
  }

  predicate AllSpace(s: string) {
    forall i :: 0 <= i < |s| ==> IsSpace(s[i])
  }

  /** `str.lstrip()`: `s` without its leading whitespace. */
  function TrimStart(s: string): (r: string)
    ensures |r| <= |s|
  {
    if s != [] && IsSpace(s[0]) then TrimStart(s[1..]) else s
  }

  /** `str.rstrip()`: `s` without its trailing whitespace. */
  function TrimEnd(s: string): (r: string)
    ensures |r| <= |s|
  {
    if s != [] && IsSpace(s[|s| - 1]) then TrimEnd(s[..|s| - 1]) else s
  }

  /** `str.strip()`. */
  function Trim(s: string): (r: string)
    ensures |r| <= |s|
  {
    TrimEnd(TrimStart(s))
  }

  /** `lstrip` keeps a suffix, drops only whitespace, and stops at the first
      character that is not whitespace. */
  lemma {:induction false} TrimStartShape(s: string)
    ensures var n := |s| - |TrimStart(s)|;
      && TrimStart(s) == s[n..] && AllSpace(s[..n]) && (n < |s| ==> !IsSpace(s[n]))
  {
    if s != [] && IsSpace(s[0]) {
      TrimStartShape(s[1..]);
      var n := |s| - |TrimStart(s)|;
      assert s[1..][n - 1..] == s[n..];
      forall k | 0 <= k < n ensures IsSpace(s[..n][k]) {
        if k > 0 { assert s[..n][k] == s[1..][..n - 1][k - 1]; }
      }
    }
  }

  /** `rstrip` keeps a prefix, drops only whitespace, and stops at the last
      character that is not whitespace. */
  lemma {:induction false} TrimEndShape(s: string)
    ensures var n := |TrimEnd(s)|;
      && TrimEnd(s) == s[..n] && AllSpace(s[n..]) && (0 < n ==> !IsSpace(s[n - 1]))
  {
    if s != [] && IsSpace(s[|s| - 1]) {
      var u := s[..|s| - 1];
      TrimEndShape(u);
      var n := |TrimEnd(s)|;
      assert u[..n] == s[..n];
      forall k | n <= k < |s| ensures IsSpace(s[k]) {
        if k < |s| - 1 { assert s[k] == u[n..][k - n]; }
      }
      assert forall k :: 0 <= k < |s[n..]| ==> s[n..][k] == s[n + k];
    }
  }

  /** `str.strip()` gives the empty string exactly when `s` is all
      whitespace, and otherwise a string that neither starts nor ends with
      whitespace. */
  lemma TrimEnds(s: string)
    ensures Trim(s) == [] <==> AllSpace(s)
    ensures Trim(s) != [] ==> !IsSpace(Trim(s)[0]) && !IsSpace(Trim(s)[|Trim(s)| - 1])
  {
    var u := TrimStart(s);
    var r := TrimEnd(u);
    var i := |s| - |u|;
    TrimStartShape(s);
    TrimEndShape(u);
    if r == [] {
      assert s[..i] == s;
    } else {
      assert r[0] == u[0] == s[i];
      assert !AllSpace(s) by { assert s[i] == u[0]; }
    }
  }

  /** `str.strip()` cuts its result out of `s` between two all-whitespace
      margins. */
  lemma TrimInfix(s: string)
    ensures var i, r := |s| - |TrimStart(s)|, Trim(s);
      i + |r| <= |s| && r == s[i..i + |r|] && AllSpace(s[..i]) && AllSpace(s[i + |r|..])
  {
    var u := TrimStart(s);
    var r := TrimEnd(u);
    var i := |s| - |u|;
    TrimStartShape(s);
    TrimEndShape(u);
    assert r == s[i..i + |r|] by {
      assert r == u[..|r|] && u == s[i..];
    }
    assert s[i + |r|..] == u[|r|..];
  }

  /** Whitespace at the front does not change whether the rest is all
      whitespace. */
  lemma AllSpaceTail(s: string)
    requires s != [] && IsSpace(s[0])
    ensures AllSpace(s) <==> AllSpace(s[1..])
  {
    if AllSpace(s[1..]) {
      forall k | 0 <= k < |s| ensures IsSpace(s[k]) {
        if k > 0 { assert s[k] == s[1..][k - 1]; }
      }
    }
  }

  /** Stripping the leading whitespace of a concatenation: the left part
      disappears entirely when it is all whitespace, else the right part is
      untouched. */
  lemma {:induction false} TrimStartAppend(s: string, t: string)
    ensures TrimStart(s + t) == if AllSpace(s) then TrimStart(t) else TrimStart(s) + t
  {
    if s == [] {
      assert s + t == t;
    } else if IsSpace(s[0]) {
      assert (s + t)[1..] == s[1..] + t;
      TrimStartAppend(s[1..], t);
      AllSpaceTail(s);
    } else {
      assert (s + t)[0] == s[0];
    }
  }

  /** A trailing space added before stripping changes nothing: this is why
      the accumulate-then-strip loop of the context builder equals a strip of
      the space-join. */
  lemma TrimTrailingSpace(s: string)
    ensures Trim(s + " ") == Trim(s)
  {
    TrimStartAppend(s, " ");
    if AllSpace(s) {
      assert TrimStart(" ") == "";
      TrimStartShape(s);
    } else {
      var v := TrimStart(s);
      assert (v + " ")[..|v + " "| - 1] == v;
    }
  }

  /** Python's `" ".join(xs)`. */
  function JoinSpace(xs: seq<string>): (r: string)
    ensures |r| == TotalLength(xs) + (if xs == [] then 0 else |xs| - 1)
  {
    if |xs| == 0 then ""
    else if |xs| == 1 then xs[0]
    else xs[0] + " " + JoinSpace(xs[1..])
  }

  function TotalLength(xs: seq<string>): nat {
    if xs == [] then 0 else |xs[0]| + TotalLength(xs[1..])
  }

  /** Joining two non-empty lists equals joining each and putting one space
      between the results. */
  lemma {:induction false} JoinSpaceAppend(a: seq<string>, b: seq<string>)
    requires a != [] && b != []
    ensures JoinSpace(a + b) == JoinSpace(a) + " " + JoinSpace(b)
  {
    if |a| == 1 {
      assert (a + b)[1..] == b;
    } else {
      assert (a + b)[1..] == a[1..] + b;
      JoinSpaceAppend(a[1..], b);
    }
  }

  /** The string built by appending each text followed by one space, as the
      loop of `combine_sentences` does. */
  function Accumulated(xs: seq<string>): string {
    if xs == [] then "" else Accumulated(xs[..|xs| - 1]) + xs[|xs| - 1] + " "
  }

  lemma {:induction false} AccumulatedIsJoin(xs: seq<string>)
    requires xs != []
    ensures Accumulated(xs) == JoinSpace(xs) + " "
  {
    var init := xs[..|xs| - 1];
    if init == [] {
      assert xs == [xs[0]];
    } else {
      AccumulatedIsJoin(init);
      assert xs == init + [xs[|xs| - 1]];
      JoinSpaceAppend(init, [xs[|xs| - 1]]);
    }
  }

  /** Stripping the accumulated string gives the stripped space-join. */
  lemma {:induction false} AccumulatedTrim(xs: seq<string>)
    ensures Trim(Accumulated(xs)) == Trim(JoinSpace(xs))
  {
    if xs != [] {
      AccumulatedIsJoin(xs);
      TrimTrailingSpace(JoinSpace(xs));
    }
  }

  predicate IsDigit(c: char) {
    '0' <= c <= '9'
  }

  predicate AllDigits(s: string) {
    forall i :: 0 <= i < |s| ==> IsDigit(s[i])
  }

  function DigitChar(d: nat): (c: char)
    requires d < 10
    ensures IsDigit(c) && c as int - '0' as int == d
  {
    ('0' as int + d) as char
  }

  /** `str(n)` / `f"{n}"` for a natural number: decimal digits, no leading
      zero. */
  function Decimal(n: nat): (r: string)
    ensures r != [] && AllDigits(r)
    ensures r[0] == '0' ==> n == 0
  {
    if n < 10 then [DigitChar(n)] else Decimal(n / 10) + [DigitChar(n % 10)]
  }

  /** Python's `int(s)` on a string of decimal digits. */
  function ParseDecimal(s: string): nat
    requires AllDigits(s)
  {
    if s == [] then 0
    else ParseDecimal(s[..|s| - 1]) * 10 + (s[|s| - 1] as int - '0' as int)
  }

  /** The label written for a chunk reads back as the chunk's number. */
  lemma {:induction false} DecimalRoundTrip(n: nat)
    ensures ParseDecimal(Decimal(n)) == n
  {
    var r := Decimal(n);
    if n >= 10 {
      DecimalRoundTrip(n / 10);
      assert r[..|r| - 1] == Decimal(n / 10);
    } else {
      assert r[..|r| - 1] == [];
    }
  }
}
