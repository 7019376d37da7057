/**
  The nightly performance judge (xtask/src/perf.rs): a point is compared with
  the medians of the newest seven points that had no delay injected, then put
  into a history of at most 365 points.
 */
module PerfTrend {
  import opened Medians
  import opened Options

  const RETENTION_POINTS := 365
  const BASELINE_POINTS := 7
  const THROUGHPUT_FLOOR := 0.80
  const ECHO_CEILING := 1.50
  const SCREEN_CAT_RATIO_FLOOR := 0.50

  datatype Point = Point(throughput: real, echo: real, injected: bool, screenCatRatio: Option<real>)

  datatype Reason =
    | SlowThroughput(value: real, median: real)
    | SlowEcho(value: real, median: real)
    | SlowScreenCat(ratio: real)

  datatype Verdict =
    | Recorded(baselinePoints: nat)
    | Green(throughputRatio: real, echoRatio: Option<real>)
    | Red(reasons: seq<Reason>)

  /** The newest `n` points without injection, newest first. */
  function Baseline(history: seq<Point>, n: nat): (r: seq<Point>)
    ensures |r| <= n
  {
    if history == [] || n == 0 then []
    else
      var rest, last := history[..|history| - 1], history[|history| - 1];
      if last.injected then Baseline(rest, n) else [last] + Baseline(rest, n - 1)
  }

  function Throughputs(points: seq<Point>): seq<real> {
    seq(|points|, i requires 0 <= i < |points| => points[i].throughput)
  }

  function Echoes(points: seq<Point>): seq<real> {
    seq(|points|, i requires 0 <= i < |points| => points[i].echo)
  }

  /** The verdict on `point`, given the medians it is held against. */
  function Compare(point: Point, throughput: real, echo: real): Verdict {
    var slow := if throughput > 0.0 && point.throughput <= throughput * THROUGHPUT_FLOOR
                then [SlowThroughput(point.throughput, throughput)] else [];
    var late := if echo > 0.0 && point.echo >= echo * ECHO_CEILING
                then [SlowEcho(point.echo, echo)] else [];
    if slow + late != [] then Red(slow + late)
    else
      Green(if throughput > 0.0 then point.throughput / throughput else 1.0,
            if echo > 0.0 then Some(point.echo / echo) else None)
  }

  predicate ScreenSlow(point: Point) {
    point.screenCatRatio.Some? && point.screenCatRatio.value < SCREEN_CAT_RATIO_FLOOR
  }

  function JudgeTrend(history: seq<Point>, point: Point): Verdict {
    var baseline := Baseline(history, BASELINE_POINTS);
    if |baseline| < BASELINE_POINTS then Recorded(|baseline|)
    else Compare(point, Median(Throughputs(baseline)), Median(Echoes(baseline)))
  }

  function Judge(history: seq<Point>, point: Point): Verdict {
    var trend := JudgeTrend(history, point);
    match point.screenCatRatio
    case Some(r) =>
      if r >= SCREEN_CAT_RATIO_FLOOR then trend
      else if trend.Red? then Red(trend.reasons + [SlowScreenCat(r)])
      else Red([SlowScreenCat(r)])
    case None => trend
  }

  function Trim(history: seq<Point>): (r: seq<Point>)
    ensures |r| <= RETENTION_POINTS
  {
    if |history| > RETENTION_POINTS then history[|history| - RETENTION_POINTS..] else history
  }

  /** Trimming leaves the newest 365 points, or all there are. */
  lemma TrimExactly(history: seq<Point>)
    ensures |Trim(history)| == (if |history| < 365 then |history| else 365)
    ensures Trim(history) == history[|history| - |Trim(history)|..]
  {
  }

  // ---- Injected points ----

  function Clean(history: seq<Point>): seq<Point> {
    if history == [] then []
    else
      var rest, last := Clean(history[..|history| - 1]), history[|history| - 1];
      if last.injected then rest else rest + [last]
  }

  /** The last `n` of `clean`, read backwards. */
  function Newest(clean: seq<Point>, n: nat): seq<Point> {
    seq(if |clean| < n then |clean| else n, i requires 0 <= i < |clean| => clean[|clean| - 1 - i])
  }

  lemma {:induction false} BaselineIsNewest(history: seq<Point>, n: nat)
    ensures Baseline(history, n) == Newest(Clean(history), n)
  {
    if history != [] && n > 0 {
      var rest, last := history[..|history| - 1], history[|history| - 1];
      if last.injected {
        BaselineIsNewest(rest, n);
      } else {
        BaselineIsNewest(rest, n - 1);
        assert Newest(Clean(rest) + [last], n) == [last] + Newest(Clean(rest), n - 1);
      }
    }
  }

  /** Only the newest seven clean points enter a verdict. */
  lemma OnlyNewestCleanMatter(h: seq<Point>, h': seq<Point>, point: Point)
    requires Baseline(h, BASELINE_POINTS) == Baseline(h', BASELINE_POINTS)
    ensures Judge(h, point) == Judge(h', point)
  {
  }

  lemma SameCleanSameVerdict(h: seq<Point>, h': seq<Point>, point: Point)
    requires Clean(h) == Clean(h')
    ensures Judge(h, point) == Judge(h', point)
  {
    BaselineIsNewest(h, BASELINE_POINTS);
    BaselineIsNewest(h', BASELINE_POINTS);
  }

  lemma {:induction false} CleanAppend(a: seq<Point>, b: seq<Point>)
    ensures Clean(a + b) == Clean(a) + Clean(b)
  {
    if b == [] {
      assert a + b == a;
    } else {
      assert (a + b)[..|a + b| - 1] == a + b[..|b| - 1];
      CleanAppend(a, b[..|b| - 1]);
    }
  }

  lemma {:induction false} CleanOfInjected(flood: seq<Point>)
    requires forall i | 0 <= i < |flood| :: flood[i].injected
    ensures Clean(flood) == []
  {
    if flood != [] {
      CleanOfInjected(flood[..|flood| - 1]);
    }
  }

  /** Injected points put in (or taken out) anywhere change no verdict. */
  lemma InjectedPointsInvisible(before: seq<Point>, flood: seq<Point>, after: seq<Point>, point: Point)
    requires forall i | 0 <= i < |flood| :: flood[i].injected
    ensures Judge(before + flood + after, point) == Judge(before + after, point)
  {
    CleanOfInjected(flood);
    CleanAppend(before + flood, after);
    CleanAppend(before, flood);
    CleanAppend(before, after);
    assert Clean(before) + [] + Clean(after) == Clean(before) + Clean(after);
    SameCleanSameVerdict(before + flood + after, before + after, point);
  }

  // ---- Trimming ----

  /** Trimming leaves enough: seven clean points, or all there were. */
  predicate Enough(history: seq<Point>) {
    || |Clean(Trim(history))| >= BASELINE_POINTS
    || |Clean(Trim(history))| == |Clean(history)|
  }

  lemma NewestOfEnd(clean: seq<Point>, from: nat, n: nat)
    requires from <= |clean|
    ensures var end := clean[from..];
            if |end| >= n || from == 0 then Newest(end, n) == Newest(clean, n)
            else |Newest(end, n)| < |Newest(clean, n)|
  {
  }

  lemma TrimKeepsBaseline(history: seq<Point>)
    ensures var kept, full := Baseline(Trim(history), BASELINE_POINTS), Baseline(history, BASELINE_POINTS);
            if Enough(history) then kept == full else |kept| < |full|
  {
    var from := |history| - |Trim(history)|;
    CleanAppend(history[..from], Trim(history));
    assert history == history[..from] + Trim(history);
    NewestOfEnd(Clean(history), |Clean(history[..from])|, BASELINE_POINTS);
    BaselineIsNewest(history, BASELINE_POINTS);
    BaselineIsNewest(Trim(history), BASELINE_POINTS);
  }

  /**
    Trimming changes no verdict of the trend exactly when it leaves enough. It
    changes no verdict of the judge exactly then, or when a low screen ratio
    is all there is to report anyway.
   */
  lemma TrimKeepsVerdict(history: seq<Point>, point: Point)
    ensures JudgeTrend(Trim(history), point) == JudgeTrend(history, point) <==> Enough(history)
    ensures Judge(Trim(history), point) == Judge(history, point) <==>
            Enough(history) || (ScreenSlow(point) && !JudgeTrend(history, point).Red?)
  {
    hide Baseline, Enough;
    TrimKeepsBaseline(history);
  }

  // ---- Whole runs ----

  /** The history file after judging `points`, one run each. */
  function Stored(history: seq<Point>, points: seq<Point>): seq<Point> {
    if points == [] then history
    else Trim(Stored(history, points[..|points| - 1]) + [points[|points| - 1]])
  }

  lemma {:induction false} StoredIsNewest(history: seq<Point>, points: seq<Point>)
    requires points != []
    ensures Stored(history, points) == Trim(history + points)
  {
    var front, last := points[..|points| - 1], points[|points| - 1];
    assert history + points == (history + front) + [last];
    if front != [] {
      StoredIsNewest(history, front);
      TrimOnceMore(history + front, last);
    } else {
      assert history + front == history;
    }
  }

  lemma TrimOnceMore(history: seq<Point>, point: Point)
    ensures Trim(Trim(history) + [point]) == Trim(history + [point])
  {
  }

  /** The verdict of run `k`. */
  function VerdictAt(history: seq<Point>, points: seq<Point>, k: nat): Verdict
    requires k < |points|
  {
    Judge(Stored(history, points[..k]), points[k])
  }

  /** Every run judges as if nothing had ever been trimmed, while trimming leaves enough. */
  lemma RunsJudgeFullRecord(history: seq<Point>, points: seq<Point>, k: nat)
    requires k < |points| && Enough(history + points[..k])
    ensures VerdictAt(history, points, k) == Judge(history + points[..k], points[k])
    ensures k > 0 ==> |Stored(history, points[..k])| <= RETENTION_POINTS
  {
    if k == 0 {
      assert history + points[..k] == history;
    } else {
      StoredIsNewest(history, points[..k]);
      TrimKeepsVerdict(history + points[..k], points[k]);
    }
  }

  /** Injected runs in between change no later verdict, while trimming leaves enough. */
  lemma InjectedRunsInvisible(history: seq<Point>, points: seq<Point>, k: nat, others: seq<Point>, j: nat)
    requires k < |points| && j < |others| && points[k] == others[j]
    requires Clean(points[..k]) == Clean(others[..j])
    requires Enough(history + points[..k]) && Enough(history + others[..j])
    ensures VerdictAt(history, points, k) == VerdictAt(history, others, j)
  {
    RunsJudgeFullRecord(history, points, k);
    RunsJudgeFullRecord(history, others, j);
    CleanAppend(history, points[..k]);
    CleanAppend(history, others[..j]);
    SameCleanSameVerdict(history + points[..k], history + others[..j], points[k]);
  }

  /** Enough injected runs push the baseline out of the file, and the judge stops judging. */
  lemma InjectedRunsCrowdOut(clean: seq<Point>, flood: seq<Point>, point: Point)
    requires |clean| == BASELINE_POINTS && forall i | 0 <= i < |clean| :: !clean[i].injected
    requires |flood| > RETENTION_POINTS - BASELINE_POINTS && forall i | 0 <= i < |flood| :: flood[i].injected
    ensures !JudgeTrend(clean + flood, point).Recorded?
    ensures JudgeTrend(Stored(clean, flood), point).Recorded?
  {
    CleanOfInjected(flood);
    CleanOfClean(clean);
    CleanAppend(clean, flood);
    StoredIsNewest(clean, flood);
    BaselineIsNewest(clean + flood, BASELINE_POINTS);
    CrowdedWindow(clean, flood);
    BaselineIsNewest(Trim(clean + flood), BASELINE_POINTS);
  }

  lemma {:induction false} CleanOfClean(points: seq<Point>)
    requires forall i | 0 <= i < |points| :: !points[i].injected
    ensures Clean(points) == points
  {
    if points != [] {
      CleanOfClean(points[..|points| - 1]);
    }
  }

  lemma CrowdedWindow(clean: seq<Point>, flood: seq<Point>)
    requires |clean| == BASELINE_POINTS && forall i | 0 <= i < |clean| :: !clean[i].injected
    requires |flood| > RETENTION_POINTS - BASELINE_POINTS && forall i | 0 <= i < |flood| :: flood[i].injected
    ensures |Clean(Trim(clean + flood))| < BASELINE_POINTS
  {
    hide Clean, Trim;
    var cut := |clean| + |flood| - RETENTION_POINTS;
    TrimOfTwo(clean, flood);
    if cut >= |clean| {
      CleanOfInjected(flood[cut - |clean|..]);
    } else {
      CleanAppend(clean[cut..], flood);
      CleanOfClean(clean[cut..]);
      CleanOfInjected(flood);
    }
  }

  lemma TrimOfTwo(a: seq<Point>, b: seq<Point>)
    requires |a| + |b| > RETENTION_POINTS
    ensures var cut := |a| + |b| - RETENTION_POINTS;
            Trim(a + b) == if cut >= |a| then b[cut - |a|..] else a[cut..] + b
  {
  }

  // ---- What red means ----

  /** How many of the points vote yes. */
  ghost function Votes(points: seq<Point>, vote: Point -> bool): nat {
    if points == [] then 0 else Votes(points[..|points| - 1], vote) + Bit(vote(points[|points| - 1]))
  }

  ghost predicate Majority(points: seq<Point>, vote: Point -> bool) { 2 * Votes(points, vote) > |points| }

  lemma {:induction false} CountThroughputs(points: seq<Point>, vote: real -> bool, of: Point -> bool)
    requires forall p :: of(p) == vote(p.throughput)
    ensures Count(Throughputs(points), vote) == Votes(points, of)
  {
    if points != [] {
      assert Throughputs(points)[..|points| - 1] == Throughputs(points[..|points| - 1]);
      CountThroughputs(points[..|points| - 1], vote, of);
    }
  }

  lemma {:induction false} CountEchoes(points: seq<Point>, vote: real -> bool, of: Point -> bool)
    requires forall p :: of(p) == vote(p.echo)
    ensures Count(Echoes(points), vote) == Votes(points, of)
  {
    if points != [] {
      assert Echoes(points)[..|points| - 1] == Echoes(points[..|points| - 1]);
      CountEchoes(points[..|points| - 1], vote, of);
    }
  }

  /** Most of the baseline makes the point slow. */
  ghost predicate SlowAgainst(point: Point, baseline: seq<Point>) {
    Majority(baseline, (p: Point) => p.throughput > 0.0 && point.throughput <= p.throughput * 0.80)
  }

  /** Most echoes of the baseline are positive, and most are low enough to make the point late; not always the same ones. */
  ghost predicate LateAgainst(point: Point, baseline: seq<Point>) {
    Majority(baseline, (p: Point) => p.echo > 0.0) && !Majority(baseline, (p: Point) => p.echo * 1.50 > point.echo)
  }

  lemma SlowMeans(point: Point, baseline: seq<Point>)
    requires |baseline| == BASELINE_POINTS
    ensures var m := Median(Throughputs(baseline));
            SlowAgainst(point, baseline) <==> m > 0.0 && point.throughput <= m * THROUGHPUT_FLOOR
  {
    var vote := (x: real) => x > 0.0 && point.throughput <= x * 0.80;
    MajorityRules(Throughputs(baseline), vote);
    CountThroughputs(baseline, vote, (p: Point) => p.throughput > 0.0 && point.throughput <= p.throughput * 0.80);
  }

  lemma LateMeans(point: Point, baseline: seq<Point>)
    requires |baseline| == BASELINE_POINTS
    ensures var m := Median(Echoes(baseline));
            LateAgainst(point, baseline) <==> m > 0.0 && point.echo >= m * ECHO_CEILING
  {
    var positive, above := (x: real) => x > 0.0, (x: real) => x * 1.50 > point.echo;
    MajorityRules(Echoes(baseline), positive);
    MajorityRules(Echoes(baseline), above);
    CountEchoes(baseline, positive, (p: Point) => p.echo > 0.0);
    CountEchoes(baseline, above, (p: Point) => p.echo * 1.50 > point.echo);
  }

  /** More than half of the points are at least `m`, and more than half at most: `m` is in the middle. */
  ghost predicate MiddleThroughput(points: seq<Point>, m: real) {
    Majority(points, (p: Point) => m <= p.throughput) && !Majority(points, (p: Point) => m < p.throughput)
  }

  ghost predicate MiddleEcho(points: seq<Point>, m: real) {
    Majority(points, (p: Point) => m <= p.echo) && !Majority(points, (p: Point) => m < p.echo)
  }

  lemma MediansAreMiddles(points: seq<Point>)
    requires |points| % 2 == 1
    ensures MiddleThroughput(points, Median(Throughputs(points))) && MiddleEcho(points, Median(Echoes(points)))
  {
    var t, e := Median(Throughputs(points)), Median(Echoes(points));
    MajorityRules(Throughputs(points), x => t <= x);
    MajorityRules(Throughputs(points), x => t < x);
    CountThroughputs(points, x => t <= x, (p: Point) => t <= p.throughput);
    CountThroughputs(points, x => t < x, (p: Point) => t < p.throughput);
    MajorityRules(Echoes(points), x => e <= x);
    MajorityRules(Echoes(points), x => e < x);
    CountEchoes(points, x => e <= x, (p: Point) => e <= p.echo);
    CountEchoes(points, x => e < x, (p: Point) => e < p.echo);
  }

  /**
    A point is red exactly when its screen ratio is below one half, or at least
    four of the seven newest clean points make it slow, or at least four have a
    positive echo and at least four an echo low enough to make it late; each
    cause is one reason, in a fixed order. Without seven clean points it is
    only recorded, with their number.
   */
  lemma RedExactlyWhen(history: seq<Point>, point: Point)
    ensures var baseline := Newest(Clean(history), 7);
            var judged := |Clean(history)| >= 7;
            var screen := point.screenCatRatio.Some? && point.screenCatRatio.value < 0.50;
            var slow, late := judged && SlowAgainst(point, baseline), judged && LateAgainst(point, baseline);
            var verdict := Judge(history, point);
            && (verdict.Red? <==> screen || slow || late)
            && (verdict.Recorded? <==> !screen && !judged)
            && (verdict.Recorded? ==> verdict.baselinePoints == |Clean(history)|)
            && (verdict.Red? ==>
                  && |verdict.reasons| == Bit(slow) + Bit(late) + Bit(screen)
                  && (slow ==> verdict.reasons[0].SlowThroughput?)
                  && (late ==> verdict.reasons[Bit(slow)].SlowEcho?)
                  && (screen ==> verdict.reasons[Bit(slow) + Bit(late)] == SlowScreenCat(point.screenCatRatio.value)))
  {
    BaselineIsNewest(history, BASELINE_POINTS);
    var baseline := Baseline(history, BASELINE_POINTS);
    if |baseline| == BASELINE_POINTS {
      SlowMeans(point, baseline);
      LateMeans(point, baseline);
    }
    hide SlowAgainst, LateAgainst, Clean, Baseline;
  }

  /** The numbers a judged point is reported with: its own, and those in the middle of the seven. */
  lemma ReportedNumbers(history: seq<Point>, point: Point) returns (m: real, e: real)
    requires |Clean(history)| >= 7
    ensures MiddleThroughput(Newest(Clean(history), 7), m) && MiddleEcho(Newest(Clean(history), 7), e)
    ensures var verdict := Judge(history, point);
            && (verdict.Green? ==>
                  && verdict.throughputRatio == (if m > 0.0 then point.throughput / m else 1.0)
                  && verdict.echoRatio == (if e > 0.0 then Some(point.echo / e) else None))
            && (verdict.Red? ==> forall r | r in verdict.reasons ::
                  && (r.SlowThroughput? ==> r == SlowThroughput(point.throughput, m))
                  && (r.SlowEcho? ==> r == SlowEcho(point.echo, e)))
  {
    BaselineIsNewest(history, BASELINE_POINTS);
    var baseline := Baseline(history, BASELINE_POINTS);
    MediansAreMiddles(baseline);
    m, e := Median(Throughputs(baseline)), Median(Echoes(baseline));
    hide MiddleThroughput, MiddleEcho, Median, Clean, Baseline;
  }

  function Bit(b: bool): nat { if b then 1 else 0 }

  /** The order of the seven does not matter. */
  lemma BaselineOrderIrrelevant(h: seq<Point>, h': seq<Point>, point: Point)
    requires |Baseline(h, BASELINE_POINTS)| == |Baseline(h', BASELINE_POINTS)|
    requires multiset(Throughputs(Baseline(h, BASELINE_POINTS))) == multiset(Throughputs(Baseline(h', BASELINE_POINTS)))
    requires multiset(Echoes(Baseline(h, BASELINE_POINTS))) == multiset(Echoes(Baseline(h', BASELINE_POINTS)))
    ensures Judge(h, point) == Judge(h', point)
  {
    var b, b' := Baseline(h, BASELINE_POINTS), Baseline(h', BASELINE_POINTS);
    if |b| == BASELINE_POINTS {
      MedianOfAnyOrder(Throughputs(b), Throughputs(b'));
      MedianOfAnyOrder(Echoes(b), Echoes(b'));
    }
  }

  // ---- The history file ----

  method MedianOf(values: seq<real>) returns (m: real)
    requires values != []
    ensures m == Median(values)
  {
    var a := new real[|values|](i requires 0 <= i < |values| => values[i]);
    assert a[..] == values;
    m := MedianInPlace(a);
  }

  class History {
    var points: seq<Point>

    constructor (stored: seq<Point>)
      ensures points == stored
    {
      points := stored;
    }

    method JudgePoint(point: Point) returns (v: Verdict)
      ensures v == JudgeTrend(points, point)
    {
      var baseline := Baseline(points, BASELINE_POINTS);
      if |baseline| < BASELINE_POINTS {
        return Recorded(|baseline|);
      }
      var throughput := MedianOf(Throughputs(baseline));
      var echo := MedianOf(Echoes(baseline));
      var reasons: seq<Reason> := [];
      var ratio := if throughput > 0.0 then point.throughput / throughput else 1.0;
      if throughput > 0.0 && point.throughput <= throughput * THROUGHPUT_FLOOR {
        reasons := reasons + [SlowThroughput(point.throughput, throughput)];
      }
      var echoRatio := if echo > 0.0 then Some(point.echo / echo) else None;
      if echo > 0.0 && point.echo >= echo * ECHO_CEILING {
        reasons := reasons + [SlowEcho(point.echo, echo)];
      }
      v := if reasons == [] then Green(ratio, echoRatio) else Red(reasons);
    }

    method TrimPoints()
      modifies this
      ensures points == Trim(old(points))
    {
      if |points| > RETENTION_POINTS {
        var excess := |points| - RETENTION_POINTS;
        points := points[excess..];
      }
    }

    /** One run: judge against the stored points, then store the new one. */
    method Run(point: Point) returns (v: Verdict)
      modifies this
      ensures v == Judge(old(points), point)
      ensures points == Trim(old(points) + [point])
    {
      v := JudgePoint(point);
      if ScreenSlow(point) {
        var reason := SlowScreenCat(point.screenCatRatio.value);
        v := Red((if v.Red? then v.reasons else []) + [reason]);
      }
      points := points + [point];
      TrimPoints();
    }
  }
}
