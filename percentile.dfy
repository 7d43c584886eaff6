/** `np.percentile(distances, q)` with numpy's default `linear` method: on
    the sorted values `s` of length `n`, the virtual index is
    `h = (n - 1) * q / 100`; the result interpolates linearly between
    `s[floor(h)]` and the next value, or is the last value when `floor(h)`
    is the last index. An empty input raises `IndexError` in numpy; here it
    is `None`. Arithmetic is exact over `real`. */
module Percentiles {
  import opened Wrappers

  predicate Ascending(s: seq<real>) {
    forall i, j :: 0 <= i < j < |s| ==> s[i] <= s[j]
  }

  /** `x` put into `s` before the first value not smaller than it. */
  function Insert(x: real, s: seq<real>): seq<real> {
    if s == [] || x <= s[0] then [x] + s else [s[0]] + Insert(x, s[1..])
  }

  /** Insertion sort: the sorted copy of `xs`. */
  function Sort(xs: seq<real>): seq<real> {
    if xs == [] then [] else Insert(xs[0], Sort(xs[1..]))
  }

  lemma {:induction false} InsertPermutes(x: real, s: seq<real>)
    ensures multiset(Insert(x, s)) == multiset(s) + multiset{x}
  {
    if s != [] && x > s[0] {
      InsertPermutes(x, s[1..]);
      assert s == [s[0]] + s[1..];
    }
  }

  /** A lower bound of `x` and of every value of `s` bounds `Insert(x, s)`. */
  lemma {:induction false} InsertLowerBound(x: real, s: seq<real>, b: real)
    requires b <= x && forall k :: 0 <= k < |s| ==> b <= s[k]
    ensures forall k :: 0 <= k < |Insert(x, s)| ==> b <= Insert(x, s)[k]
  {
    if s != [] && x > s[0] {
      InsertLowerBound(x, s[1..], b);
    }
  }

  lemma {:induction false} InsertAscending(x: real, s: seq<real>)
    requires Ascending(s)
    ensures Ascending(Insert(x, s))
  {
    if s != [] && x > s[0] {
      InsertAscending(x, s[1..]);
      InsertLowerBound(x, s[1..], s[0]);
    }
  }

  /** The sorted copy is ascending and a permutation of the input. */
  lemma {:induction false} SortSorts(xs: seq<real>)
    ensures multiset(Sort(xs)) == multiset(xs) && Ascending(Sort(xs))
  {
    if xs != [] {
      SortSorts(xs[1..]);
      InsertPermutes(xs[0], Sort(xs[1..]));
      InsertAscending(xs[0], Sort(xs[1..]));
      assert xs == [xs[0]] + xs[1..];
    }
  }

  lemma {:induction false} SortLength(xs: seq<real>)
    ensures |Sort(xs)| == |xs|
  {
    SortSorts(xs);
    assert |multiset(Sort(xs))| == |multiset(xs)|;
  }

  /** The virtual index `(n - 1) * q / 100` of numpy's linear method. */
  function VirtualIndex(n: nat, q: real): real {
    (n - 1) as real * q / 100.0
  }

  lemma VirtualIndexBounds(n: nat, q: real)
    requires n > 0 && 0.0 <= q <= 100.0
    ensures 0.0 <= VirtualIndex(n, q) <= (n - 1) as real
    ensures 0 <= VirtualIndex(n, q).Floor < n
  {
    var a := (n - 1) as real;
    assert a * q >= 0.0 by { NonNegativeProduct(a, q); }
    assert a * 100.0 - a * q == a * (100.0 - q);
    assert a * (100.0 - q) >= 0.0 by { NonNegativeProduct(a, 100.0 - q); }
  }

  lemma NonNegativeProduct(a: real, b: real)
    requires a >= 0.0 && b >= 0.0
    ensures a * b >= 0.0
  {
  }

  /** The fractional part of the virtual index. */
  function Fraction(h: real): (f: real)
    requires h >= 0.0
    ensures 0.0 <= f < 1.0
  {
    h - h.Floor as real
  }

  /** `a + f * (b - a)`: the linear interpolation between `a` and `b`. */
  function Lerp(a: real, b: real, f: real): real {
    a + f * (b - a)
  }

  /** numpy's `linear` method on the sorted values `s`, given the integer
      part `lo` and the fractional part `f` of the virtual index: interpolate
      towards the next value, or take the last value when `lo` is the last
      index. */
  function Interpolate(s: seq<real>, lo: nat, f: real): real
    requires lo < |s|
  {
    if lo + 1 < |s| then Lerp(s[lo], s[lo + 1], f) else s[lo]
  }

  /** `np.percentile(xs, q)`; `None` for an empty `xs`. */
  function Percentile(xs: seq<real>, q: real): (r: Option<real>)
    requires 0.0 <= q <= 100.0
    ensures r.None? <==> xs == []
  {
    if xs == [] then None
    else
      SortLength(xs);
      var h := VirtualIndex(|xs|, q);
      VirtualIndexBounds(|xs|, q);
      Some(Interpolate(Sort(xs), h.Floor, Fraction(h)))
  }

  /** Number of values strictly greater than `t`. */
  function CountAbove(xs: seq<real>, t: real): nat {
    if xs == [] then 0 else (if xs[0] > t then 1 else 0) + CountAbove(xs[1..], t)
  }

  /** On ascending values the interpolation lies between `s[lo]` and the
      last value. */
  lemma InterpolateBounds(s: seq<real>, lo: nat, f: real)
    requires lo < |s| && 0.0 <= f <= 1.0 && Ascending(s)
    ensures s[lo] <= Interpolate(s, lo, f) <= s[|s| - 1]
  {
    var last := s[|s| - 1];
    if lo + 1 < |s| {
      var a, b := s[lo], s[lo + 1];
      assert a <= b <= last;
      LerpBetween(a, b, f);
    } else {
      assert Interpolate(s, lo, f) == last;
    }
  }

  /** Interpolating between `a <= b` stays between them. */
  lemma LerpBetween(a: real, b: real, f: real)
    requires a <= b && 0.0 <= f <= 1.0
    ensures a <= Lerp(a, b, f) <= b
  {
    var d := b - a;
    NonNegativeProduct(f, d);
    NonNegativeProduct(1.0 - f, d);
    assert d - f * d == (1.0 - f) * d;
  }

  /** The percentile lies within the range of the data: some value is at
      most it and some value is at least it. */
  lemma PercentileInRange(xs: seq<real>, q: real)
    requires xs != [] && 0.0 <= q <= 100.0
    ensures var r := Percentile(xs, q).value;
      (exists i :: 0 <= i < |xs| && xs[i] <= r) && (exists j :: 0 <= j < |xs| && r <= xs[j])
  {
    var s := Sort(xs);
    SortSorts(xs);
    SortLength(xs);
    var h := VirtualIndex(|xs|, q);
    VirtualIndexBounds(|xs|, q);
    var lo := h.Floor;
    InterpolateBounds(s, lo, Fraction(h));
    assert s[lo] in multiset(s) && s[|s| - 1] in multiset(s);
  }

  lemma {:induction false} CountAboveInsert(x: real, s: seq<real>, t: real)
    ensures CountAbove(Insert(x, s), t) == CountAbove(s, t) + (if x > t then 1 else 0)
  {
    if s != [] && x > s[0] {
      CountAboveInsert(x, s[1..], t);
      assert ([s[0]] + Insert(x, s[1..]))[1..] == Insert(x, s[1..]);
    } else {
      assert ([x] + s)[1..] == s;
    }
  }

  /** Sorting does not change how many values exceed a bound. */
  lemma {:induction false} CountAboveSort(xs: seq<real>, t: real)
    ensures CountAbove(Sort(xs), t) == CountAbove(xs, t)
  {
    if xs != [] {
      assert Sort(xs) == Insert(xs[0], Sort(xs[1..]));
      CountAboveSort(xs[1..], t);
      CountAboveInsert(xs[0], Sort(xs[1..]), t);
    }
  }

  /** In ascending values whose entry `lo` is at most `t`, only the entries
      after `lo` can exceed `t`. */
  lemma {:induction false} CountAboveAscending(s: seq<real>, lo: nat, t: real)
    requires Ascending(s) && lo < |s| && s[lo] <= t
    ensures CountAbove(s, t) <= |s| - 1 - lo
  {
    if lo > 0 {
      assert s[0] <= t;
      CountAboveAscending(s[1..], lo - 1, t);
    } else {
      CountAboveAtMost(s[1..], t);
    }
  }

  lemma {:induction false} CountAboveAtMost(s: seq<real>, t: real)
    ensures CountAbove(s, t) <= |s|
  {
    if s != [] { CountAboveAtMost(s[1..], t); }
  }

  /** At most `n - 1 - floor((n - 1) * q / 100)` of the `n` values lie
      strictly above their `q`-th percentile: for `q = 95`, only the top
      five per cent or so. */
  lemma PercentileSelectsTop(xs: seq<real>, q: real)
    requires xs != [] && 0.0 <= q <= 100.0
    ensures CountAbove(xs, Percentile(xs, q).value) <= |xs| - 1 - VirtualIndex(|xs|, q).Floor
  {
    var s := Sort(xs);
    var r := Percentile(xs, q).value;
    SortSorts(xs);
    SortLength(xs);
    var h := VirtualIndex(|xs|, q);
    VirtualIndexBounds(|xs|, q);
    InterpolateBounds(s, h.Floor, Fraction(h));
    CountAboveAscending(s, h.Floor, r);
    CountAboveSort(xs, r);
  }

  /** `f` keeps the order of any two values. */
  ghost predicate OrderPreserving(f: real -> real) {
    forall x, y :: x <= y <==> f(x) <= f(y)
  }

  /** `f` applied to every value. */
  function MapValues(f: real -> real, xs: seq<real>): (ys: seq<real>)
    ensures |ys| == |xs| && forall k :: 0 <= k < |xs| ==> ys[k] == f(xs[k])
  {
    if xs == [] then [] else [f(xs[0])] + MapValues(f, xs[1..])
  }

  lemma {:induction false} InsertMap(f: real -> real, x: real, s: seq<real>)
    requires OrderPreserving(f)
    ensures Insert(f(x), MapValues(f, s)) == MapValues(f, Insert(x, s))
  {
    if s != [] {
      assert MapValues(f, s)[1..] == MapValues(f, s[1..]);
      if x > s[0] {
        InsertMap(f, x, s[1..]);
        var r := Insert(x, s[1..]);
        assert ([s[0]] + r)[1..] == r;
      } else {
        assert ([x] + s)[1..] == s;
      }
    } else {
      assert [x][1..] == [];
    }
  }

  /** Sorting commutes with an order-preserving map. */
  lemma {:induction false} SortMap(f: real -> real, xs: seq<real>)
    requires OrderPreserving(f)
    ensures Sort(MapValues(f, xs)) == MapValues(f, Sort(xs))
  {
    if xs != [] {
      assert MapValues(f, xs)[1..] == MapValues(f, xs[1..]);
      SortMap(f, xs[1..]);
      InsertMap(f, xs[0], Sort(xs[1..]));
    }
  }

  /** `f` is affine: it commutes with linear interpolation. */
  ghost predicate CommutesWithLerp(f: real -> real) {
    forall a, b, t :: f(Lerp(a, b, t)) == Lerp(f(a), f(b), t)
  }

  lemma InterpolateMap(f: real -> real, s: seq<real>, lo: nat, t: real)
    requires lo < |s| && CommutesWithLerp(f)
    ensures Interpolate(MapValues(f, s), lo, t) == f(Interpolate(s, lo, t))
  {
  }

  /** An order-preserving affine map of the values maps their percentile
      the same way. */
  lemma PercentileMap(f: real -> real, xs: seq<real>, q: real)
    requires xs != [] && 0.0 <= q <= 100.0
    requires OrderPreserving(f) && CommutesWithLerp(f)
    ensures Percentile(MapValues(f, xs), q).value == f(Percentile(xs, q).value)
  {
    SortMap(f, xs);
    SortLength(xs);
    var h := VirtualIndex(|xs|, q);
    VirtualIndexBounds(|xs|, q);
    InterpolateMap(f, Sort(xs), h.Floor, Fraction(h));
  }

  function Times(c: real): real -> real {
    x => c * x
  }

  /** Every value multiplied by `c`. */
  function Scale(xs: seq<real>, c: real): (ys: seq<real>)
    ensures |ys| == |xs|
  {
    MapValues(Times(c), xs)
  }

  /** Multiplying by a positive constant keeps the order of two values. */
  lemma ScaleMonotone(c: real, x: real, y: real)
    requires c > 0.0
    ensures x <= y <==> c * x <= c * y
  {
    assert c * y - c * x == c * (y - x);
    if x <= y {
      NonNegativeProduct(c, y - x);
    } else {
      NonNegativeProduct(c, x - y);
      assert c * (x - y) != 0.0;
    }
  }

  /** Multiplying by a positive constant keeps the order of values. */
  lemma PositiveScaleMonotone(c: real)
    requires c > 0.0
    ensures OrderPreserving(Times(c))
  {
    var f := Times(c);
    forall x: real, y: real ensures x <= y <==> f(x) <= f(y) {
      ScaleMonotone(c, x, y);
    }
  }

  lemma LerpScale(a: real, b: real, t: real, c: real)
    ensures Lerp(c * a, c * b, t) == c * Lerp(a, b, t)
  {
    assert t * (c * b - c * a) == c * (t * (b - a));
  }

  lemma TimesCommutesWithLerp(c: real)
    ensures CommutesWithLerp(Times(c))
  {
    var f := Times(c);
    forall a: real, b: real, t: real ensures f(Lerp(a, b, t)) == Lerp(f(a), f(b), t) {
      LerpScale(a, b, t, c);
      assert f(a) == c * a && f(b) == c * b && f(Lerp(a, b, t)) == c * Lerp(a, b, t);
    }
  }

  /** Scaling every value by a positive constant scales the percentile by
      the same constant. */
  lemma PercentileScale(xs: seq<real>, q: real, c: real)
    requires xs != [] && 0.0 <= q <= 100.0 && c > 0.0
    ensures Percentile(Scale(xs, c), q).value == c * Percentile(xs, q).value
  {
    PositiveScaleMonotone(c);
    TimesCommutesWithLerp(c);
    PercentileMap(Times(c), xs, q);
    var f := Times(c);
    assert f(Percentile(xs, q).value) == c * Percentile(xs, q).value;
  }
}
