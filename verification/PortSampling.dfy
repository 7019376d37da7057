/**
  The ports the soak preflight probes (scripts/soak/preflight_udp.py): an even
  grid over the ephemeral range, rounded half-even, with duplicates removed,
  and the `gap` the preflight reports for it.
 */
module PortSampling {
  import opened Arithmetic

  const STRIDE_TARGET_PORTS := 300
  const MIN_SAMPLES := 32
  const MAX_SAMPLES := 256

  /** `p / q` to the nearest integer, a tie to the even one. */
  function RoundHalfEven(p: nat, q: nat): nat
    requires q > 0
  {
    var floor, rest := p / q, p % q;
    if 2 * rest < q then floor
    else if 2 * rest > q then floor + 1
    else if floor % 2 == 0 then floor
    else floor + 1
  }

  function Span(lo: int, hi: int): int { hi - lo + 1 }

  /** How many grid points a range of `span` ports gets. */
  function Count(span: int): (n: nat)
    ensures MIN_SAMPLES <= n <= MAX_SAMPLES
  {
    var n := CeilDiv(span, STRIDE_TARGET_PORTS) + 1;
    if n < MIN_SAMPLES then MIN_SAMPLES else if n > MAX_SAMPLES then MAX_SAMPLES else n
  }

  /** Grid point `i`, counted from the low end: `m` ports cut into `q` strides. */
  function Grid(m: nat, q: nat, i: nat): nat
    requires q > 0
  {
    RoundHalfEven(i * m, q)
  }

  function GridSet(lo: int, m: nat, q: nat): set<int>
    requires q > 0
  {
    set i | 0 <= i <= q :: lo + Grid(m, q, i)
  }

  predicate Least(m: int, s: set<int>) { m in s && forall x | x in s :: m <= x }

  lemma HasLeast(s: set<int>) returns (m: int)
    requires s != {}
    ensures Least(m, s)
  {
    if forall x :: x !in s {
      assert false;
    }
    var any :| any in s;
    var rest := s - {any};
    assert forall x | x in s :: x == any || x in rest;
    m := any;
    if rest != {} {
      var least := HasLeast(rest);
      m := if any < least then any else least;
    }
  }

  predicate Increasing(s: seq<int>) { forall i, j | 0 <= i < j < |s| :: s[i] < s[j] }

  function Sorted(s: set<int>): (r: seq<int>)
    ensures Increasing(r) && |r| == |s|
    ensures forall x :: x in r <==> x in s
  {
    if s == {} then []
    else
      assert exists m :: Least(m, s) by { var m := HasLeast(s); }
      var m :| Least(m, s);
      [m] + Sorted(s - {m})
  }

  function SamplePorts(lo: int, hi: int): seq<int> {
    var span := Span(lo, hi);
    if span <= 1 then [lo] else Sorted(GridSet(lo, span - 1, Count(span) - 1))
  }

  /** The gap the preflight reports. */
  function Gap(lo: int, hi: int): int {
    var ports := SamplePorts(lo, hi);
    if |ports| > 1 then CeilDiv(Span(lo, hi), |ports| - 1) else Span(lo, hi)
  }

  // ---- Rounded-up quotients ----

  lemma CeilDivMonotone(a: int, a': int, b: nat, b': nat)
    requires 0 <= a <= a' && 0 < b' <= b
    ensures CeilDiv(a, b) <= CeilDiv(a', b')
  {
    var k := CeilDiv(a', b');
    CeilDivIsLeast(a', b', k);
    CeilDivIsLeast(a', b', -1);
    CeilDivIsLeast(a, b, k);
    assert k >= 0;
    MulMonotone(b', b, k);
  }

  // ---- One grid point to the next ----

  /** `r` is nearest to `p / q`, and even if another integer is as near. */
  predicate NearestEven(p: nat, q: nat, r: int) {
    var twice := 2 * (q * r - p);
    -(q as int) <= twice <= q && (twice == q || twice == -(q as int) ==> r % 2 == 0)
  }

  lemma RoundIsNearestEven(p: nat, q: nat, r: int)
    requires q > 0
    ensures NearestEven(p, q, r) <==> r == RoundHalfEven(p, q)
  {
    var floor, rest, e := p / q, p % q, r - p / q;
    assert p == q * floor + rest;
    assert q * r == q * floor + q * e;
    if e >= 2 {
      MulMonotone(2, e, q);
    } else if e <= -1 {
      MulMonotone(e, -1, q);
    }
  }

  lemma Near(p: nat, q: nat)
    requires q > 0
    ensures 0 - q <= 2 * (q * RoundHalfEven(p, q) - p) <= q
  {
    RoundIsNearestEven(p, q, RoundHalfEven(p, q));
  }

  lemma Whole(k: nat, q: nat)
    requires q > 0
    ensures RoundHalfEven(k * q, q) == k
  {
    DivUnique(k * q, k, q);
  }

  /** Where a stride is a whole number of ports, no point is rounded. */
  lemma WholeStride(k: nat, q: nat, i: nat)
    requires q > 0
    ensures Grid(k * q, q, i) == i * k
  {
    hide RoundHalfEven;
    assert i * (k * q) == (i * k) * q;
    Whole(i * k, q);
  }

  /** Two neighbours on the grid are at most one rounded-up stride apart. */
  lemma Stride(m: nat, q: nat, i: nat)
    requires q > 0
    ensures Grid(m, q, i + 1) - Grid(m, q, i) <= CeilDiv(m, q)
    ensures if m >= q then Grid(m, q, i) < Grid(m, q, i + 1) else Grid(m, q, i) <= Grid(m, q, i + 1)
  {
    hide Grid, CeilDiv;
    var k := m / q;
    if m == k * q {
      WholeStride(k, q, i);
      WholeStride(k, q, i + 1);
      assert (i + 1) * k == i * k + k;
      CeilDivIsLeast(m, q, k - 1);
      assert (k - 1) * q == m - q;
    } else {
      var d := Grid(m, q, i + 1) - Grid(m, q, i);
      StrideBounds(m, q, i, d);
      NotWhole(m, q, d);
    }
  }

  lemma StrideBounds(m: nat, q: nat, i: nat, d: int)
    requires q > 0 && d == Grid(m, q, i + 1) - Grid(m, q, i)
    ensures m - q <= q * d <= m + q
  {
    hide RoundHalfEven;
    Near(i * m, q);
    Near((i + 1) * m, q);
    Between(m, q, i, Grid(m, q, i), Grid(m, q, i + 1));
  }

  lemma Between(m: nat, q: nat, i: nat, g: int, g': int)
    requires 0 - q <= 2 * (q * g - i * m) <= q && 0 - q <= 2 * (q * g' - (i + 1) * m) <= q
    ensures m - q <= q * (g' - g) <= m + q
  {
    assert (i + 1) * m == i * m + m;
    assert q * (g' - g) == q * g' - q * g;
  }

  lemma NotWhole(m: nat, q: nat, d: int)
    requires q > 0 && m % q != 0 && m - q <= q * d <= m + q
    ensures d <= CeilDiv(m, q) && (if m >= q then d > 0 else d >= 0)
  {
    hide CeilDiv;
    NotMultiple(m, q, d - 1);
    assert (d - 1) * q == q * d - q;
    CeilDivIsLeast(m, q, d - 1);
    NotMultiple(m, q, 1);
    NotBelow(m - q, q, d);
  }

  lemma NotMultiple(m: nat, q: nat, k: int)
    requires q > 0 && m % q != 0
    ensures k * q != m
  {
    if k * q == m {
      DivUnique(m, k, q);
      assert false;
    }
  }

  lemma NotBelow(low: int, q: nat, d: int)
    requires q > 0 && low <= q * d
    ensures (low > 0 ==> d > 0) && (low > -(q as int) ==> d >= 0)
  {
    if d <= 0 {
      MulMonotone(d, 0, q);
    }
    if d < 0 {
      MulMonotone(d, -1, q);
    }
  }

  lemma Ends(m: nat, q: nat)
    requires q > 0
    ensures Grid(m, q, 0) == 0 && Grid(m, q, q) == m
  {
    Whole(0, q);
    Whole(m, q);
    assert q * m == m * q;
  }

  /** Walking up the grid from `i`, the first point at or past `a`. */
  lemma {:induction false} FirstAtOrPast(m: nat, q: nat, i: nat, a: int) returns (j: nat)
    requires q > 0 && i < q && Grid(m, q, i) < a <= Grid(m, q, q)
    ensures i < j <= q && a <= Grid(m, q, j) < a + CeilDiv(m, q)
    decreases q - i
  {
    hide RoundHalfEven, Grid, CeilDiv, Count;
    Stride(m, q, i);
    j := i + 1;
    if Grid(m, q, j) < a {
      j := FirstAtOrPast(m, q, j, a);
    }
  }

  /** Every window of a stride's width inside the range has a grid point. */
  lemma WindowHit(lo: int, m: nat, q: nat, a: int, width: int)
    requires q > 0 && CeilDiv(m, q) <= width
    requires lo <= a && a + width - 1 <= lo + m && width > 0
    ensures exists p | a <= p < a + width :: p in GridSet(lo, m, q)
  {
    hide RoundHalfEven, Grid, CeilDiv, Count;
    Ends(m, q);
    if a == lo {
      assert lo + Grid(m, q, 0) in GridSet(lo, m, q);
    } else {
      var j := FirstAtOrPast(m, q, 0, a - lo);
      assert lo + Grid(m, q, j) in GridSet(lo, m, q);
    }
  }

  // ---- How many samples ----

  function Upto(lo: int, m: nat, q: nat, k: nat): set<int>
    requires q > 0
  {
    set i | 0 <= i < k :: lo + Grid(m, q, i)
  }

  lemma {:induction false} GridIncreases(m: nat, q: nat, i: nat, j: nat)
    requires q > 0 && m >= q && i < j
    ensures Grid(m, q, i) < Grid(m, q, j)
    decreases j
  {
    Stride(m, q, j - 1);
    if i < j - 1 {
      GridIncreases(m, q, i, j - 1);
    }
  }

  lemma UptoStep(lo: int, m: nat, q: nat, k: nat)
    requires q > 0
    ensures Upto(lo, m, q, k + 1) == Upto(lo, m, q, k) + {lo + Grid(m, q, k)}
    ensures m >= q ==> lo + Grid(m, q, k) !in Upto(lo, m, q, k)
  {
    hide RoundHalfEven, Grid;
    if m >= q {
      forall i | 0 <= i < k ensures Grid(m, q, i) < Grid(m, q, k) {
        GridIncreases(m, q, i, k);
      }
    }
  }

  lemma {:induction false} UptoSize(lo: int, m: nat, q: nat, k: nat)
    requires q > 0
    ensures if m >= q then |Upto(lo, m, q, k)| == k else |Upto(lo, m, q, k)| <= k
  {
    if k > 0 {
      hide Upto, Grid;
      UptoSize(lo, m, q, k - 1);
      UptoStep(lo, m, q, k - 1);
    }
  }

  function Interval(lo: int, n: nat): (r: set<int>)
    ensures |r| == n && forall p :: p in r <==> lo <= p < lo + n
  {
    if n == 0 then {} else Interval(lo, n - 1) + {lo + n - 1}
  }

  lemma {:induction false} GridWithin(m: nat, q: nat, i: nat)
    requires q > 0 && i <= q
    ensures Grid(m, q, i) <= m
  {
    hide RoundHalfEven;
    Near(i * m, q);
    MulMonotone(i, q, m);
    if Grid(m, q, i) > m {
      MulMonotone(m + 1, Grid(m, q, i), q);
      assert false;
    }
  }

  /** On a range no wider than the grid every port is sampled. */
  lemma SmallRangeIsWhole(lo: int, m: nat, q: nat)
    requires 0 < m <= q
    ensures GridSet(lo, m, q) == Interval(lo, m + 1)
  {
    hide RoundHalfEven, Grid, CeilDiv, Count;
    forall p | lo <= p < lo + (m + 1) ensures p in GridSet(lo, m, q) {
      CeilDivIsLeast(m, q, 1);
      WindowHit(lo, m, q, p, 1);
    }
    forall i | 0 <= i <= q ensures Grid(m, q, i) <= m {
      GridWithin(m, q, i);
    }
  }

  lemma GridSize(lo: int, m: nat, q: nat)
    requires m > 0 && q > 0
    ensures |GridSet(lo, m, q)| == if m < q then m + 1 else q + 1
  {
    hide RoundHalfEven, Grid;
    if m >= q {
      UptoSize(lo, m, q, q + 1);
      assert GridSet(lo, m, q) == Upto(lo, m, q, q + 1);
    } else {
      SmallRangeIsWhole(lo, m, q);
    }
  }

  // ---- What the preflight promises ----

  /** A range of at most one port is its low end. */
  lemma TinyRange(lo: int, hi: int)
    requires hi <= lo
    ensures SamplePorts(lo, hi) == [lo] && Gap(lo, hi) == hi - lo + 1
  {
  }

  /** The number of strides between the probed ports of `span` ports. */
  function Strides(span: int): int { (if span < Count(span) then span else Count(span)) - 1 }

  /** One port for each grid point, or every port of a small range. */
  lemma SampleCount(lo: int, hi: int)
    requires lo < hi
    ensures |SamplePorts(lo, hi)| == Strides(Span(lo, hi)) + 1
    ensures Strides(Span(lo, hi)) > 0
  {
    hide GridSet, Count, Sorted;
    GridSize(lo, Span(lo, hi) - 1, Count(Span(lo, hi)) - 1);
  }

  lemma GapOf(lo: int, hi: int)
    requires lo < hi && Strides(Span(lo, hi)) > 0
    ensures Gap(lo, hi) == CeilDiv(Span(lo, hi), Strides(Span(lo, hi)))
  {
    hide SamplePorts, Strides, CeilDiv;
    SampleCount(lo, hi);
  }

  /** The gap covers a stride: the ports left never have more strides than the grid. */
  lemma GapCoversStride(lo: int, hi: int)
    requires lo < hi
    ensures var span := Span(lo, hi);
            && CeilDiv(span - 1, Count(span) - 1) <= Gap(lo, hi)
            && Gap(lo, hi) > 0
  {
    hide SamplePorts, Gap, CeilDiv, Count;
    SampleCount(lo, hi);
    GapOf(lo, hi);
    var span := Span(lo, hi);
    CeilDivMonotone(span - 1, span, Count(span) - 1, Strides(span));
    CeilDivIsLeast(span, Strides(span), 0);
  }

  lemma FirstAndLast(s: seq<int>, lo: int, hi: int)
    requires Increasing(s) && lo in s && hi in s && lo < hi
    requires forall p | p in s :: lo <= p <= hi
    ensures |s| >= 2 && s[0] == lo && s[|s| - 1] == hi
  {
    var i :| 0 <= i < |s| && s[i] == lo;
    var j :| 0 <= j < |s| && s[j] == hi;
    assert s[0] in s && s[|s| - 1] in s;
  }

  lemma Within(lo: int, m: nat, q: nat)
    requires q > 0
    ensures var grid := GridSet(lo, m, q);
            lo in grid && lo + m in grid && forall p | p in grid :: lo <= p <= lo + m
  {
    hide RoundHalfEven, Grid;
    Ends(m, q);
    assert lo + Grid(m, q, 0) in GridSet(lo, m, q) && lo + Grid(m, q, q) in GridSet(lo, m, q);
    forall i | 0 <= i <= q ensures Grid(m, q, i) <= m {
      GridWithin(m, q, i);
    }
  }

  /** Both ends of the range are probed, and nothing outside it. */
  lemma EndsProbed(lo: int, hi: int)
    requires lo < hi
    ensures var ports := SamplePorts(lo, hi);
            && |ports| >= 2 && ports[0] == lo && ports[|ports| - 1] == hi
            && Increasing(ports) && (forall p | p in ports :: lo <= p <= hi)
  {
    hide GridSet, Increasing, Count, Sorted;
    Within(lo, Span(lo, hi) - 1, Count(Span(lo, hi)) - 1);
    FirstAndLast(SamplePorts(lo, hi), lo, hi);
  }

  /** Every run of at least `gap` consecutive ports inside the range holds a probed port. */
  lemma NoRunMissed(lo: int, hi: int, first: int, last: int)
    requires lo < hi && lo <= first && last <= hi && last - first + 1 >= Gap(lo, hi)
    ensures exists p | first <= p <= last :: p in SamplePorts(lo, hi)
  {
    hide RoundHalfEven, Grid, CeilDiv, Count;
    GapCoversStride(lo, hi);
    var m, q := Span(lo, hi) - 1, Count(Span(lo, hi)) - 1;
    WindowHit(lo, m, q, first, last - first + 1);
    var p :| first <= p < first + (last - first + 1) && p in GridSet(lo, m, q);
    assert p in SamplePorts(lo, hi);
  }

  /** Two neighbouring probed ports are at most `gap` apart. */
  lemma NeighboursWithinGap(lo: int, hi: int, k: nat)
    requires lo < hi && k + 1 < |SamplePorts(lo, hi)|
    ensures SamplePorts(lo, hi)[k + 1] - SamplePorts(lo, hi)[k] <= Gap(lo, hi)
  {
    hide RoundHalfEven, Grid, CeilDiv, Count;
    var ports := SamplePorts(lo, hi);
    EndsProbed(lo, hi);
    assert ports[k] in ports && ports[k + 1] in ports;
    NoneBetween(ports, k);
    if ports[k + 1] - ports[k] > Gap(lo, hi) {
      NoRunMissed(lo, hi, ports[k] + 1, ports[k + 1] - 1);
      assert false;
    }
  }

  lemma NoneBetween(s: seq<int>, k: nat)
    requires Increasing(s) && k + 1 < |s|
    ensures forall p | p in s :: p <= s[k] || s[k + 1] <= p
  {
  }

  /** No port of the run is probed. */
  predicate Missed(lo: int, hi: int, first: int, width: nat) {
    forall p | first <= p < first + width :: p !in SamplePorts(lo, hi)
  }

  lemma {:induction false} GridMonotone(m: nat, q: nat, i: nat, j: nat)
    requires q > 0 && i <= j
    ensures Grid(m, q, i) <= Grid(m, q, j)
    decreases j
  {
    hide Grid, CeilDiv;
    if i < j {
      Stride(m, q, j - 1);
      GridMonotone(m, q, i, j - 1);
    }
  }

  /** If the first `k` strides are all narrower than `c`, they do not get far. */
  lemma {:induction false} NarrowStrides(m: nat, q: nat, c: int, k: nat)
    requires q > 0 && forall i: nat | i < k :: Grid(m, q, i + 1) - Grid(m, q, i) < c
    ensures Grid(m, q, k) <= k * (c - 1)
  {
    hide Grid;
    Ends(m, q);
    if k > 0 {
      NarrowStrides(m, q, c, k - 1);
      assert k * (c - 1) == (k - 1) * (c - 1) + (c - 1);
    }
  }

  /** Some stride has the full width. */
  lemma WidestStride(m: nat, q: nat) returns (i: nat)
    requires q > 0
    ensures i < q && Grid(m, q, i + 1) - Grid(m, q, i) == CeilDiv(m, q)
  {
    hide Grid, CeilDiv;
    var c := CeilDiv(m, q);
    if forall i: nat | i < q :: Grid(m, q, i + 1) - Grid(m, q, i) < c {
      NarrowStrides(m, q, c, q);
      Ends(m, q);
      CeilDivIsLeast(m, q, c - 1);
      assert false;
    }
    i :| i < q && Grid(m, q, i + 1) - Grid(m, q, i) >= c;
    Stride(m, q, i);
  }

  /** Between two neighbouring grid points there is none. */
  lemma StrideIsBare(lo: int, m: nat, q: nat, i: nat, p: int)
    requires q > 0 && Grid(m, q, i) < p - lo < Grid(m, q, i + 1)
    ensures p !in GridSet(lo, m, q)
  {
    hide Grid;
    forall j | 0 <= j <= q ensures p != lo + Grid(m, q, j) {
      if j <= i {
        GridMonotone(m, q, j, i);
      } else {
        GridMonotone(m, q, i + 1, j);
      }
    }
  }

  /** The width from which on no run is missed. */
  function Threshold(lo: int, hi: int): int
    requires lo < hi
  {
    CeilDiv(Span(lo, hi) - 1, Count(Span(lo, hi)) - 1)
  }

  /** A run of any smaller width that is missed. */
  lemma MissedRun(lo: int, hi: int, width: nat) returns (first: int)
    requires lo < hi && 0 < width < Threshold(lo, hi)
    ensures lo <= first && first + width - 1 <= hi && Missed(lo, hi, first, width)
  {
    hide Grid, GridSet, CeilDiv, Count, Sorted;
    var m, q := Span(lo, hi) - 1, Count(Span(lo, hi)) - 1;
    var i := WidestStride(m, q);
    GridWithin(m, q, i + 1);
    first := lo + Grid(m, q, i) + 1;
    forall p | first <= p < first + width ensures p !in SamplePorts(lo, hi) {
      StrideIsBare(lo, m, q, i, p);
    }
  }

  /**
    The exact law: every run of `width` ports holds a probed one exactly when
    the width reaches the threshold.
   */
  lemma NoRunMissedExactlyWhen(lo: int, hi: int, width: nat)
    requires lo < hi && 0 < width <= Span(lo, hi)
    ensures (forall first | lo <= first && first + width - 1 <= hi :: !Missed(lo, hi, first, width))
            <==> Threshold(lo, hi) <= width
  {
    hide GridSet, CeilDiv, Count, Sorted;
    if Threshold(lo, hi) <= width {
      forall first | lo <= first && first + width - 1 <= hi ensures !Missed(lo, hi, first, width) {
        var m, q := Span(lo, hi) - 1, Count(Span(lo, hi)) - 1;
        WindowHit(lo, m, q, first, width);
        var p :| first <= p < first + width && p in GridSet(lo, m, q);
        assert p in SamplePorts(lo, hi);
      }
    } else {
      var first := MissedRun(lo, hi, width);
    }
  }

  lemma OneMorePort(a: int, b: nat)
    requires b > 0
    ensures CeilDiv(a + 1, b) <= CeilDiv(a, b) + 1
  {
    hide CeilDiv;
    var k := CeilDiv(a, b);
    CeilDivIsLeast(a, b, k);
    CeilDivIsLeast(a + 1, b, k + 1);
    assert (k + 1) * b == k * b + b;
  }

  /** The reported gap is the threshold or one more, and never less than two. */
  lemma GapIsThresholdOrOneMore(lo: int, hi: int)
    requires lo < hi
    ensures Threshold(lo, hi) <= Gap(lo, hi) <= Threshold(lo, hi) + 1
    ensures Gap(lo, hi) >= 2
  {
    hide CeilDiv, Count, Gap, SamplePorts;
    var span := Span(lo, hi);
    SampleCount(lo, hi);
    GapOf(lo, hi);
    GapCoversStride(lo, hi);
    CeilDivIsLeast(span, Strides(span), 1);
    if span < Count(span) {
      CeilDivIsLeast(span, span - 1, 2);
      CeilDivIsLeast(span - 1, Count(span) - 1, 0);
    } else {
      OneMorePort(span - 1, Count(span) - 1);
    }
  }

  /** So a run narrower than the gap by two or more can be missed. */
  lemma NarrowRunMissed(lo: int, hi: int, width: nat) returns (first: int)
    requires lo < hi && 0 < width && width + 1 < Gap(lo, hi)
    ensures lo <= first && first + width - 1 <= hi && Missed(lo, hi, first, width)
  {
    hide Gap, Threshold;
    GapIsThresholdOrOneMore(lo, hi);
    first := MissedRun(lo, hi, width);
  }

  lemma ThresholdOfOne(span: int)
    requires span > 1
    ensures CeilDiv(span - 1, Count(span) - 1) <= 1 <==> span <= MIN_SAMPLES
  {
    hide CeilDiv;
    CeilDivIsLeast(span - 1, Count(span) - 1, 1);
    CeilDivIsLeast(span, STRIDE_TARGET_PORTS, span - 2);
  }

  /** No single port is missed exactly on ranges of at most 32 ports. */
  lemma EveryPortProbedExactlyWhen(lo: int, hi: int)
    requires lo < hi
    ensures (forall p | lo <= p <= hi :: p in SamplePorts(lo, hi)) <==> Span(lo, hi) <= 32
  {
    hide SamplePorts, CeilDiv, Count;
    ThresholdOfOne(Span(lo, hi));
    NoRunMissedExactlyWhen(lo, hi, 1);
    forall p ensures Missed(lo, hi, p, 1) <==> p !in SamplePorts(lo, hi) {
    }
  }

  /**
    When a blocked run of `width` ports is certain to be found, for widths from
    the target stride on: exactly up to 255 times as many ports.
   */
  lemma GapWithin(lo: int, hi: int, width: nat)
    requires lo < hi && width >= 300
    ensures Gap(lo, hi) <= width <==> Span(lo, hi) <= width * 255
  {
    hide Gap, SamplePorts, CeilDiv;
    SampleCount(lo, hi);
    GapOf(lo, hi);
    CeilDivIsLeast(Span(lo, hi), Strides(Span(lo, hi)), width);
    StridesReach(Span(lo, hi), width);
  }

  lemma StridesReach(span: int, width: nat)
    requires span > 1 && width >= STRIDE_TARGET_PORTS
    ensures span <= width * Strides(span) <==> span <= width * (MAX_SAMPLES - 1)
  {
    hide CeilDiv;
    var k := Strides(span);
    CeilDivIsLeast(span, STRIDE_TARGET_PORTS, Count(span) - 1);
    if k < MAX_SAMPLES - 1 {
      MulMonotone(STRIDE_TARGET_PORTS, width, k);
      MulMonotone(k, MAX_SAMPLES - 1, width);
    }
  }

  /** Ports end at 65535, so no real range reaches the sample ceiling's weaker promise. */
  lemma RealRangesAreCertain(lo: int, hi: int)
    requires 0 < lo < hi <= 65535
    ensures Gap(lo, hi) <= 300
  {
    GapWithin(lo, hi, STRIDE_TARGET_PORTS);
  }
}
