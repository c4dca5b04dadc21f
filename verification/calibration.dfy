/**
 * Calibration tables of lls/exporter.go: remapping configured raw readings
 * onto 1..4094, arranging them by raw value, validating them, and the
 * piecewise-linear interpolation from a raw level to liters.
 */
module Calibration {
  import opened Wrappers

  /** Remapped raw values run from `LowestRaw` (empty tank) to `HighestRaw` (full tank). */
  const LowestRaw: int := 1
  const HighestRaw: int := 4094

  /** Default raw-range bounds of a sensor configuration (`SensorConfig.UnmarshalYAML`). */
  const DefaultMinRaw: int := 1
  const DefaultMaxRaw: int := 4094

  /** One calibration point, `sensorLevel`: a raw reading and the liters it stands for. */
  datatype Level = Level(raw: int, liters: real)

  /** The four configuration errors of a sensor's table, in the order they are checked. */
  datatype TableError =
    | TooFewLevels     // fewer than two calibration points
    | NotIncreasing    // liters do not strictly increase along the sorted points
    | LowestNotEmpty   // the lowest point is not at raw 1 (empty tank)
    | HighestNotFull   // the highest point is not at raw 4094 (full tank)

  /** The magnitude of an integer. */
  function Abs(x: int): nat
  {
    if x < 0 then -x else x
  }

  // ---------------------------------------------------------------------------
  // Go integer division and the remap

  /** Negation moves out of a product. */
  lemma NegMul(x: int, y: int)
    ensures (-x) * y == -(x * y)
    ensures x * (-y) == -(x * y)
  {
  }

  /** The magnitude of a product is the product of the magnitudes. */
  lemma MulAbs(a: int, b: int)
    ensures Abs(a * b) == Abs(a) * Abs(b)
  {
    NegMul(a, b);
    NegMul(-a, b);
  }

  /** A positive factor can be cancelled from both sides of `<=`. */
  lemma MulCancel(x: int, y: int, d: int)
    requires d > 0 && x * d <= y * d
    ensures x <= y
  {
    assert (y - x) * d == y * d - x * d;
  }

  /** Go's `/` on integers: the quotient truncated toward zero. */
  function TruncDiv(a: int, b: int): (q: int)
    requires b != 0
    // the remainder is smaller than the divisor and has the sign of the dividend
    ensures Abs(a - q * b) < Abs(b)
    ensures a - q * b == 0 || ((a - q * b < 0) <==> (a < 0))
    ensures Abs(q) == Abs(a) / Abs(b)
    ensures (a < 0) == (b < 0) ==> q >= 0
  {
    var m := Abs(a) / Abs(b);
    var q := if (a < 0) == (b < 0) then m else -m;
    TruncatedRemainder(a, b, q);
    q
  }

  /** The facts `TruncDiv` promises, for the quotient it computes. */
  lemma TruncatedRemainder(a: int, b: int, q: int)
    requires b != 0
    requires q == if (a < 0) == (b < 0) then Abs(a) / Abs(b) else -(Abs(a) / Abs(b))
    ensures Abs(a - q * b) < Abs(b)
    ensures a - q * b == 0 || ((a - q * b < 0) <==> (a < 0))
    ensures Abs(q) == Abs(a) / Abs(b)
    ensures (a < 0) == (b < 0) ==> q >= 0
  {
    var A := Abs(a);
    var B := Abs(b);
    DivMod(A, B);
    var m: int := A / B;
    var r: int := A % B;
    RemainderBySign(a, b, m, r, q);
    assert Abs(q) == m;
  }

  /** Euclidean division of naturals. */
  lemma DivMod(n: nat, d: nat)
    requires d > 0
    ensures n == (n / d) * d + n % d && 0 <= n % d < d && n / d >= 0
  {
  }

  /** The remainder left by a quotient of `m` with the sign Go gives it. */
  lemma RemainderBySign(a: int, b: int, m: int, r: int, q: int)
    requires b != 0 && m >= 0 && r >= 0 && Abs(a) == m * Abs(b) + r && r < Abs(b)
    requires q == if (a < 0) == (b < 0) then m else -m
    ensures a - q * b == if a < 0 then -r else r
  {
    NegMul(m, b);
    if b > 0 {
      assert Abs(b) == b;
    } else {
      NegMul(m, -b);
      assert Abs(b) == -b;
    }
  }

  /** `n / d <= k` whenever `n <= k * d`. */
  lemma DivBelow(n: nat, d: nat, k: nat)
    requires d > 0 && n <= k * d
    ensures n / d <= k
  {
    var q := n / d;
    assert q * d + n % d == n;
    MulCancel(q, k, d);
  }

  /** A non-zero integer factor does not shrink an absolute value. */
  lemma MulAtLeast(x: int, y: int)
    requires x != 0
    ensures Abs(x * y) >= Abs(y)
  {
    MulAbs(x, y);
    var u: nat := Abs(x) - 1;
    var v: nat := Abs(y);
    MulNonneg(u, v);
    assert Abs(x) * v == u * v + v;
  }

  /** A product of naturals is not negative. */
  lemma MulNonneg(u: nat, v: nat)
    ensures u * v >= 0
  {
  }

  /** `raw` lies between the two bounds, whichever is larger. */
  predicate Between(raw: int, minRaw: int, maxRaw: int)
  {
    (minRaw <= raw <= maxRaw) || (maxRaw <= raw <= minRaw)
  }

  /**
   * The remap of a configured raw value onto 1..4094:
   * `(raw - minRaw) * 4093 / (maxRaw - minRaw) + 1` with truncating division.
   */
  function Remap(raw: int, minRaw: int, maxRaw: int): (r: int)
    requires minRaw != maxRaw
    ensures raw == minRaw ==> r == LowestRaw
    ensures raw == maxRaw ==> r == HighestRaw
    ensures Between(raw, minRaw, maxRaw) ==> LowestRaw <= r <= HighestRaw
  {
    var q := TruncDiv((raw - minRaw) * (HighestRaw - LowestRaw), maxRaw - minRaw);
    if raw == maxRaw then
      RemapAtMax(minRaw, maxRaw);
      q + 1
    else if Between(raw, minRaw, maxRaw) then
      RemapBetween(raw, minRaw, maxRaw);
      q + 1
    else
      q + 1
  }

  /** The upper bound remaps onto exactly 4093 before the `+ 1`. */
  lemma RemapAtMax(minRaw: int, maxRaw: int)
    requires minRaw != maxRaw
    ensures TruncDiv((maxRaw - minRaw) * 4093, maxRaw - minRaw) == 4093
  {
    var d := maxRaw - minRaw;
    var n := d * 4093;
    var q := TruncDiv(n, d);
    assert n - q * d == (4093 - q) * d;
    if q != 4093 {
      MulAtLeast(4093 - q, d);
    }
  }

  /** A value between the bounds remaps into 0..4093 before the `+ 1`. */
  lemma RemapBetween(raw: int, minRaw: int, maxRaw: int)
    requires minRaw != maxRaw && Between(raw, minRaw, maxRaw)
    ensures 0 <= TruncDiv((raw - minRaw) * 4093, maxRaw - minRaw) <= 4093
  {
    var n := (raw - minRaw) * 4093;
    var d := maxRaw - minRaw;
    MulAbs(raw - minRaw, 4093);
    assert Abs(n) <= 4093 * Abs(d) by {
      assert Abs(raw - minRaw) <= Abs(d);
    }
    DivBelow(Abs(n), Abs(d), 4093);
  }

  /** Every configured point with its raw value remapped; liters are kept. */
  function RemapLevels(levels: seq<Level>, minRaw: int, maxRaw: int): (r: seq<Level>)
    requires minRaw != maxRaw
    ensures |r| == |levels|
    ensures forall i :: 0 <= i < |r| ==> r[i].liters == levels[i].liters
    ensures forall i :: 0 <= i < |r| && levels[i].raw == minRaw ==> r[i].raw == LowestRaw
    ensures forall i :: 0 <= i < |r| && levels[i].raw == maxRaw ==> r[i].raw == HighestRaw
    ensures forall i :: 0 <= i < |r| && Between(levels[i].raw, minRaw, maxRaw) ==> LowestRaw <= r[i].raw <= HighestRaw
  {
    seq(|levels|, i requires 0 <= i < |levels| => Level(Remap(levels[i].raw, minRaw, maxRaw), levels[i].liters))
  }

  // ---------------------------------------------------------------------------
  // Arranging points by raw value

  /** Raw values never decrease along the sequence. */
  predicate SortedByRaw(s: seq<Level>)
  {
    forall i, j :: 0 <= i < j < |s| ==> s[i].raw <= s[j].raw
  }

  /**
   * `p` is a possible result of `sort.Slice(levels, raw less-than)` on `s`.
   * The Go sort is not stable, so any permutation sorted by raw qualifies.
   */
  predicate IsArrangement(p: seq<Level>, s: seq<Level>)
  {
    |p| == |s| && SortedByRaw(p) && multiset(p) == multiset(s)
  }

  /** Insertion of one point in front of the first point with a raw value at least its own. */
  function Insert(x: Level, s: seq<Level>): (r: seq<Level>)
    ensures |r| == |s| + 1
    ensures multiset(r) == multiset(s) + multiset{x}
  {
    if |s| == 0 then [x]
    else if x.raw <= s[0].raw then [x] + s
    else
      assert s == [s[0]] + s[1..];
      [s[0]] + Insert(x, s[1..])
  }

  /** Every point of `s` has a raw value of at least `v`. */
  predicate RawsAtLeast(s: seq<Level>, v: int)
  {
    forall k :: 0 <= k < |s| ==> v <= s[k].raw
  }

  /** Insertion keeps a lower bound on the raw values. */
  lemma {:induction false} InsertAtLeast(x: Level, s: seq<Level>, v: int)
    requires RawsAtLeast(s, v) && v <= x.raw
    ensures RawsAtLeast(Insert(x, s), v)
    decreases |s|
  {
    if |s| > 0 && x.raw > s[0].raw {
      InsertAtLeast(x, s[1..], v);
    }
  }

  /** Insertion keeps a sequence sorted by raw value. */
  lemma {:induction false} InsertSorted(x: Level, s: seq<Level>)
    requires SortedByRaw(s)
    ensures SortedByRaw(Insert(x, s))
    decreases |s|
  {
    if |s| > 0 && x.raw > s[0].raw {
      InsertSorted(x, s[1..]);
      InsertAtLeast(x, s[1..], s[0].raw);
    }
  }

  /** One arrangement: insertion sort by raw value (stable, one of the orders `sort.Slice` may yield). */
  function SortByRaw(s: seq<Level>): (r: seq<Level>)
    ensures IsArrangement(r, s)
    ensures |r| == |s|
  {
    if |s| == 0 then []
    else
      assert s == [s[0]] + s[1..];
      InsertSorted(s[0], SortByRaw(s[1..]));
      Insert(s[0], SortByRaw(s[1..]))
  }

  // ---------------------------------------------------------------------------
  // Validation

  /** Liters strictly increase along the table. */
  predicate LitersIncreasing(t: seq<Level>)
  {
    forall i, j :: 0 <= i < j < |t| ==> t[i].liters < t[j].liters
  }

  /** The invariant every accepted table satisfies, and interpolation relies on. */
  predicate ValidTable(t: seq<Level>)
  {
    && |t| >= 2
    && SortedByRaw(t)
    && LitersIncreasing(t)
    && t[0].raw == LowestRaw
    && t[|t| - 1].raw == HighestRaw
  }

  /**
   * The first check that the arranged table of `count` configured points
   * fails, in the order the source checks them; `None` when all pass.
   */
  function TableViolation(count: nat, arranged: seq<Level>): (r: Option<TableError>)
    requires count >= 2 ==> |arranged| == count && SortedByRaw(arranged)
    ensures r == None <==> count >= 2 && ValidTable(arranged)
  {
    if count < 2 then Some(TooFewLevels)
    else if !LitersIncreasing(arranged) then Some(NotIncreasing)
    else if arranged[0].raw != LowestRaw then Some(LowestNotEmpty)
    else if arranged[|arranged| - 1].raw != HighestRaw then Some(HighestNotFull)
    else None
  }

  /**
   * Table construction for one sensor: the count check, then (on `arranged`,
   * the remapped points as `sort.Slice` left them) the adjacent-liters loop
   * and the two boundary checks.
   */
  method BuildTable(levels: seq<Level>, minRaw: int, maxRaw: int, arranged: seq<Level>)
    returns (r: Result<seq<Level>, TableError>)
    requires |levels| >= 2 ==> minRaw != maxRaw && IsArrangement(arranged, RemapLevels(levels, minRaw, maxRaw))
    ensures r.Success? <==> TableViolation(|levels|, arranged) == None
    ensures r.Success? ==> r.value == arranged && ValidTable(r.value)
    ensures r.Failure? ==> TableViolation(|levels|, arranged) == Some(r.error)
  {
    if |levels| < 2 {
      return Failure(TooFewLevels);
    }
    var i := 0;
    while i < |arranged| - 1
      invariant 0 <= i <= |arranged| - 1
      invariant forall j, k :: 0 <= j < k <= i ==> arranged[j].liters < arranged[k].liters
    {
      if arranged[i].liters >= arranged[i + 1].liters {
        return Failure(NotIncreasing);
      }
      i := i + 1;
    }
    if arranged[0].raw != LowestRaw {
      return Failure(LowestNotEmpty);
    }
    if arranged[|arranged| - 1].raw != HighestRaw {
      return Failure(HighestNotFull);
    }
    return Success(arranged);
  }

  // ---------------------------------------------------------------------------
  // Interpolation

  /** The last calibration point at or below raw level `x`. */
  function LastAtOrBelow(t: seq<Level>, x: int): (k: nat)
    requires |t| > 0 && t[0].raw <= x
    ensures k < |t| && t[k].raw <= x
    ensures forall j :: k < j < |t| ==> t[j].raw > x
    decreases |t|
  {
    if t[|t| - 1].raw <= x then |t| - 1 else LastAtOrBelow(t[..|t| - 1], x)
  }

  /** A sorted table has exactly one index that is last at or below `x`. */
  lemma LastAtOrBelowUnique(t: seq<Level>, x: int, k: nat)
    requires |t| > 0 && t[0].raw <= x && SortedByRaw(t)
    requires k < |t| && t[k].raw <= x
    requires k == |t| - 1 || t[k + 1].raw > x
    ensures LastAtOrBelow(t, x) == k
  {
  }

  /** The straight line through two calibration points, evaluated at `x`, as the Go code computes it. */
  function Lerp(p: Level, q: Level, x: int): (r: real)
    requires p.raw < q.raw
    ensures x == p.raw ==> r == p.liters
    ensures x == q.raw ==> r == q.liters
  {
    (x - p.raw) as real * (q.liters - p.liters) / (q.raw - p.raw) as real + p.liters
  }

  /** On the half-open segment from `p` to `q` the line stays in `[p.liters, q.liters)`. */
  lemma LerpBounds(p: Level, q: Level, x: int)
    requires p.raw <= x < q.raw && p.liters < q.liters
    ensures p.liters <= Lerp(p, q, x) < q.liters
    ensures x == p.raw ==> Lerp(p, q, x) == p.liters
  {
    var a := (x - p.raw) as real;
    var d := (q.raw - p.raw) as real;
    var h := q.liters - p.liters;
    assert 0.0 <= a < d && h > 0.0;
    assert a * h < d * h;
    assert a * h / d < h;
  }

  /** The line through `p` and `q` rises strictly with `x`. */
  lemma LerpIncreasing(p: Level, q: Level, x: int, y: int)
    requires p.raw < q.raw && p.liters < q.liters && x < y
    ensures Lerp(p, q, x) < Lerp(p, q, y)
  {
    var d := (q.raw - p.raw) as real;
    var h := q.liters - p.liters;
    assert (x - p.raw) as real * h < (y - p.raw) as real * h;
    DivMonotone((x - p.raw) as real * h, (y - p.raw) as real * h, d);
  }

  /** Dividing by a positive number keeps the order. */
  lemma DivMonotone(u: real, v: real, d: real)
    requires u < v && d > 0.0
    ensures u / d < v / d
  {
    assert v / d - u / d == (v - u) / d;
  }

  /**
   * The liters a valid table gives for a raw level in 1..4094: the value of
   * the point when `x` is the raw value of the last point, otherwise the
   * line between the last point at or below `x` and the next one.
   */
  function LevelAt(t: seq<Level>, x: int): (r: real)
    requires ValidTable(t) && LowestRaw <= x <= HighestRaw
    ensures t[0].liters <= r <= t[|t| - 1].liters
  {
    var k := LastAtOrBelow(t, x);
    if k == |t| - 1 then
      t[k].liters
    else
      LerpBounds(t[k], t[k + 1], x);
      Lerp(t[k], t[k + 1], x)
  }

  /** Between two neighbouring points the liters lie from the lower point's up to, not including, the upper's. */
  lemma LevelAtWithinSegment(t: seq<Level>, x: int, k: nat)
    requires ValidTable(t) && LowestRaw <= x <= HighestRaw
    requires k + 1 < |t| && t[k].raw <= x < t[k + 1].raw
    ensures t[k].liters <= LevelAt(t, x) < t[k + 1].liters
    ensures LevelAt(t, x) == Lerp(t[k], t[k + 1], x)
  {
    LastAtOrBelowUnique(t, x, k);
    LerpBounds(t[k], t[k + 1], x);
  }

  /** At a calibration point, the last one with its raw value, the liters are exactly the point's. */
  lemma LevelAtPoint(t: seq<Level>, k: nat)
    requires ValidTable(t) && k < |t|
    requires k == |t| - 1 || t[k].raw < t[k + 1].raw
    ensures LowestRaw <= t[k].raw <= HighestRaw
    ensures LevelAt(t, t[k].raw) == t[k].liters
  {
    var x := t[k].raw;
    LastAtOrBelowUnique(t, x, k);
    if k < |t| - 1 {
      LerpBounds(t[k], t[k + 1], x);
    }
  }

  /** Raw values strictly increasing along the table. */
  predicate StrictlySortedByRaw(t: seq<Level>)
  {
    forall i, j :: 0 <= i < j < |t| ==> t[i].raw < t[j].raw
  }

  /** With distinct raw values, every calibration point is reproduced exactly. */
  lemma LevelAtPoints(t: seq<Level>)
    requires ValidTable(t) && StrictlySortedByRaw(t)
    ensures forall k :: 0 <= k < |t| ==> LevelAt(t, t[k].raw) == t[k].liters
  {
  }

  /** A higher raw level always reads as more liters. */
  lemma LevelAtIncreasing(t: seq<Level>, x: int, y: int)
    requires ValidTable(t) && LowestRaw <= x < y <= HighestRaw
    ensures LevelAt(t, x) < LevelAt(t, y)
  {
    var kx := LastAtOrBelow(t, x);
    var ky := LastAtOrBelow(t, y);
    assert kx < |t| - 1;
    LerpBounds(t[kx], t[kx + 1], x);
    if kx == ky {
      LerpIncreasing(t[kx], t[kx + 1], x, y);
    } else {
      assert kx + 1 <= ky;
      assert t[kx + 1].liters <= t[ky].liters;
      if ky < |t| - 1 {
        LerpBounds(t[ky], t[ky + 1], y);
      }
    }
  }

  /**
   * The interpolation loop of the reader: walk the points in order, take a
   * point's liters on an exact match, and on the first point above `x`
   * interpolate from its predecessor and stop.
   */
  method Interpolate(t: seq<Level>, x: int) returns (level: real)
    requires ValidTable(t) && LowestRaw <= x <= HighestRaw
    ensures level == LevelAt(t, x)
  {
    level := 0.0;
    var i := 0;
    while i < |t|
      invariant 0 <= i <= |t|
      invariant forall j :: 0 <= j < i ==> t[j].raw <= x
      invariant 0 < i && t[i - 1].raw == x ==> level == t[i - 1].liters
    {
      var l := t[i];
      if x == l.raw {
        level := l.liters;
      } else if x < l.raw {
        // the first point is raw 1 <= x, so a predecessor exists
        var pl := t[i - 1];
        level := Lerp(pl, l, x);
        LastAtOrBelowUnique(t, x, i - 1);
        return;
      }
      i := i + 1;
    }
    LastAtOrBelowUnique(t, x, |t| - 1);
  }

  /** Two arrangements of the same points with distinct raw values are the same sequence. */
  lemma StrictArrangementUnique(p: seq<Level>, q: seq<Level>, s: seq<Level>)
    requires IsArrangement(p, s) && IsArrangement(q, s)
    requires StrictlySortedByRaw(p) && StrictlySortedByRaw(q)
    ensures p == q
  {
    StrictSortedPermutationEqual(p, q);
  }

  /** Two strictly sorted sequences holding the same points are equal. */
  lemma {:induction false} StrictSortedPermutationEqual(p: seq<Level>, q: seq<Level>)
    requires multiset(p) == multiset(q)
    requires StrictlySortedByRaw(p) && StrictlySortedByRaw(q)
    ensures p == q
    decreases |p|
  {
    assert |p| == |multiset(p)| == |q|;
    if |p| > 0 {
      SameHead(p, q);
      MultisetTail(p);
      MultisetTail(q);
      StrictTail(p);
      StrictTail(q);
      StrictSortedPermutationEqual(p[1..], q[1..]);
      HeadTailEqual(p, q);
    }
  }

  /** Two non-empty strictly sorted sequences holding the same points start with the same point. */
  lemma SameHead(p: seq<Level>, q: seq<Level>)
    requires |p| > 0 && |q| > 0 && multiset(p) == multiset(q)
    requires StrictlySortedByRaw(p) && StrictlySortedByRaw(q)
    ensures p[0] == q[0]
  {
    assert p[0] in multiset(q) && q[0] in multiset(p) by {
      assert p[0] in multiset(p) && q[0] in multiset(q);
    }
    var i :| 0 <= i < |q| && q[i] == p[0];
    var j :| 0 <= j < |p| && p[j] == q[0];
    assert p[0].raw <= p[j].raw == q[0].raw <= q[i].raw == p[0].raw;
    assert i == 0;
  }

  /** The tail of a strictly sorted sequence is strictly sorted. */
  lemma StrictTail(p: seq<Level>)
    requires |p| > 0 && StrictlySortedByRaw(p)
    ensures StrictlySortedByRaw(p[1..])
  {
  }

  /** Sequences with the same head and the same tail are equal. */
  lemma HeadTailEqual(p: seq<Level>, q: seq<Level>)
    requires |p| > 0 && |q| > 0 && p[0] == q[0] && p[1..] == q[1..]
    ensures p == q
  {
    assert p == [p[0]] + p[1..] && q == [q[0]] + q[1..];
  }

  /** Dropping the head removes one copy of it from the multiset. */
  lemma MultisetTail(p: seq<Level>)
    requires |p| > 0
    ensures multiset(p[1..]) == multiset(p) - multiset{p[0]}
  {
    assert p == [p[0]] + p[1..];
  }

  /**
   * With two points remapped to the same raw value the outcome depends on the
   * order the sort leaves them in: one arrangement is a valid table, the other
   * fails the liters check. The tie comes from the truncating remap alone:
   * configured raw values 0 and 1 both land on 1.
   */
  lemma TiedRawsOrderMatters()
    ensures RemapLevels([Level(0, 0.0), Level(1, 5.0), Level(10000, 10.0)], 0, 10000)
      == [Level(1, 0.0), Level(1, 5.0), Level(4094, 10.0)]
    ensures var s := [Level(1, 0.0), Level(1, 5.0), Level(4094, 10.0)];
      var swapped := [Level(1, 5.0), Level(1, 0.0), Level(4094, 10.0)];
      && IsArrangement(s, s) && IsArrangement(swapped, s)
      && TableViolation(3, s) == None
      && TableViolation(3, swapped) == Some(NotIncreasing)
  {
    var s := [Level(1, 0.0), Level(1, 5.0), Level(4094, 10.0)];
    var swapped := [Level(1, 5.0), Level(1, 0.0), Level(4094, 10.0)];
    TiedRawsRemap();
    TiedRawsSorted(s, swapped);
    assert ValidTable(s);
    assert !LitersIncreasing(swapped) by {
      assert swapped[0].liters >= swapped[1].liters;
    }
  }

  /** Raw values 0 and 1 on the scale 0..10000 both remap onto 1. */
  lemma TiedRawsRemap()
    ensures RemapLevels([Level(0, 0.0), Level(1, 5.0), Level(10000, 10.0)], 0, 10000)
      == [Level(1, 0.0), Level(1, 5.0), Level(4094, 10.0)]
  {
    var r := RemapLevels([Level(0, 0.0), Level(1, 5.0), Level(10000, 10.0)], 0, 10000);
    assert r[1].raw == 1;
  }

  /** Both orders of the tied example are possible results of the sort. */
  lemma TiedRawsSorted(s: seq<Level>, swapped: seq<Level>)
    requires s == [Level(1, 0.0), Level(1, 5.0), Level(4094, 10.0)]
    requires swapped == [Level(1, 5.0), Level(1, 0.0), Level(4094, 10.0)]
    ensures IsArrangement(s, s) && IsArrangement(swapped, s)
  {
    assert swapped == [s[1], s[0], s[2]];
    assert multiset(swapped) == multiset(s);
  }
}
