/**
  The per-source limiter over whole runs: what the sketch's verdicts add up to
  when one source, among any other traffic and under any hash functions, keeps
  attempting (crates/qsh-core/src/admission.rs, `rate_exceeded`).
 */
module RateLimit {
  import opened Arithmetic
  import opened SourceKeys
  import opened SketchModel

  /** Seconds in an epoch. */
  const EPOCH_SECS := 2

  /** One rate check: the source's key and the ticks since the gate's origin. */
  datatype Attempt = Attempt(key: SourceKey, at: nat)

  /** The epoch a tick falls in, and how far into it. */
  function EpochOf(len: nat, at: nat): nat
    requires len > 0
  {
    at / len
  }

  function PosOf(len: nat, at: nat): (pos: nat)
    requires len > 0
    ensures pos < len
  {
    at % len
  }

  function BurstLimit(rate: nat): nat { Min(rate * EPOCH_SECS, U32 - 1) }

  function Last<T>(s: seq<T>): T
    requires s != []
  {
    s[|s| - 1]
  }

  function Front<T>(s: seq<T>): seq<T>
    requires s != []
  {
    s[..|s| - 1]
  }

  /** The sketch after a run of checks, with epochs of `len` ticks. */
  function History(len: nat, run: seq<Attempt>): (m: Model)
    requires len > 0
  {
    if run == [] then EMPTY
    else Record(History(len, Front(run)), Last(run).key, EpochOf(len, Last(run).at))
  }

  /** What the last check of `run` reads. */
  function Reading(h: Hashes, len: nat, run: seq<Attempt>): nat
    requires len > 0 && run != []
  {
    var a := Last(run);
    Estimate(h, History(len, run), a.key, EpochOf(len, a.at), PosOf(len, a.at), len)
  }

  /** The last check of `run` lets its source pass. */
  predicate Passes(h: Hashes, len: nat, rate: nat, run: seq<Attempt>)
    requires len > 0 && run != []
  {
    Reading(h, len, run) <= BurstLimit(rate)
  }

  predicate NonDecreasing(run: seq<Attempt>) {
    forall i, j | 0 <= i < j < |run| :: run[i].at <= run[j].at
  }

  /** How often `key` attempted in `epoch`. */
  function Tries(len: nat, run: seq<Attempt>, key: SourceKey, epoch: int): nat
    requires len > 0
  {
    if run == [] then 0
    else Tries(len, Front(run), key, epoch)
         + if Last(run).key == key && EpochOf(len, Last(run).at) == epoch then 1 else 0
  }

  /** How often `key` passed in `epoch`. */
  function PassCount(h: Hashes, len: nat, rate: nat, run: seq<Attempt>, key: SourceKey, epoch: int): nat
    requires len > 0
  {
    if run == [] then 0
    else PassCount(h, len, rate, Front(run), key, epoch)
         + if Last(run).key == key && EpochOf(len, Last(run).at) == epoch && Passes(h, len, rate, run) then 1 else 0
  }

  // ---- With nondecreasing time the history is the run ----

  lemma {:induction false} HistoryIndex(len: nat, run: seq<Attempt>)
    requires len > 0 && NonDecreasing(run)
    ensures History(len, run).index == if run == [] then 0 else EpochOf(len, Last(run).at)
  {
    if run != [] {
      HistoryIndex(len, Front(run));
      if Front(run) != [] {
        DivMonotone(Last(Front(run)).at, Last(run).at, len);
      }
    }
  }

  lemma {:induction false} HistoryCounts(len: nat, run: seq<Attempt>, key: SourceKey, epoch: int)
    requires len > 0 && NonDecreasing(run)
    ensures KeyCount(History(len, run).log, key, epoch) == Tries(len, run, key, epoch)
  {
    if run != [] {
      var front, a := History(len, Front(run)), Last(run);
      var e := EpochOf(len, a.at);
      HistoryCounts(len, Front(run), key, epoch);
      HistoryIndex(len, run);
      assert Max(front.index, e) == e;
      KeyCountAppend(front.log, Hit(a.key, e), key, epoch);
    }
  }

  /** The key's plain sliding window at the last check of a run. */
  function Window(len: nat, run: seq<Attempt>): nat
    requires len > 0 && run != []
  {
    var a := Last(run);
    Tries(len, run, a.key, EpochOf(len, a.at)) + Weighted(Tries(len, run, a.key, EpochOf(len, a.at) - 1), PosOf(len, a.at), len)
  }

  lemma WindowIsKeyWindow(len: nat, run: seq<Attempt>)
    requires len > 0 && run != [] && NonDecreasing(run)
    ensures var a := Last(run);
            EpochOf(len, a.at) <= History(len, run).index &&
            Window(len, run) == KeyWindow(History(len, run), a.key, EpochOf(len, a.at), PosOf(len, a.at), len)
  {
    var a := Last(run);
    HistoryIndex(len, run);
    HistoryCounts(len, run, a.key, EpochOf(len, a.at));
    HistoryCounts(len, run, a.key, EpochOf(len, a.at) - 1);
  }

  lemma ReadingCoversWindow(h: Hashes, len: nat, run: seq<Attempt>)
    requires len > 0 && run != [] && NonDecreasing(run) && NoWrap(h, History(len, run).log)
    ensures Reading(h, len, run) >= Min(Window(len, run), U32 - 1)
  {
    var a := Last(run);
    WindowIsKeyWindow(len, run);
    NeverUnderestimates(h, History(len, run), a.key, EpochOf(len, a.at), PosOf(len, a.at), len);
  }

  /** At its last check the source shares its column with nobody in some row, in this epoch and the one before. */
  ghost predicate IsolatedAtEnd(h: Hashes, len: nat, run: seq<Attempt>)
    requires len > 0 && run != []
  {
    Isolated(h, History(len, run), Last(run).key, EpochOf(len, Last(run).at))
  }

  /** An isolated source is judged by its own attempts alone. */
  lemma IsolatedVerdict(h: Hashes, len: nat, rate: nat, run: seq<Attempt>)
    requires len > 0 && run != [] && NonDecreasing(run)
    requires IsolatedAtEnd(h, len, run)
    ensures Window(len, run) <= BurstLimit(rate) ==> Passes(h, len, rate, run)
    ensures NoWrap(h, History(len, run).log) ==>
              Reading(h, len, run) == Min(Window(len, run), U32 - 1)
  {
    var a := Last(run);
    WindowIsKeyWindow(len, run);
    NeverOverestimatesIsolated(h, History(len, run), a.key, EpochOf(len, a.at), PosOf(len, a.at), len);
    if NoWrap(h, History(len, run).log) {
      ExactWhenIsolated(h, History(len, run), a.key, EpochOf(len, a.at), PosOf(len, a.at), len);
    }
  }

  // ---- The limit bites ----

  lemma NoWrapFront(h: Hashes, len: nat, run: seq<Attempt>)
    requires len > 0 && run != [] && NoWrap(h, History(len, run).log)
    ensures NoWrap(h, History(len, Front(run)).log)
  {
    var front := History(len, Front(run)).log;
    forall row: nat, col: nat, epoch: int
      ensures CellCount(h, front, row, col, epoch) < U32
    {
      CellCountAppend(h, front, Last(History(len, run).log), row, col, epoch);
      assert CellCount(h, History(len, run).log, row, col, epoch) < U32;
    }
  }

  /** Below the ceiling a pass means the source's own window is within its budget. */
  lemma PassMeansWithinBudget(h: Hashes, len: nat, rate: nat, run: seq<Attempt>)
    requires len > 0 && run != [] && NonDecreasing(run) && NoWrap(h, History(len, run).log)
    requires Passes(h, len, rate, run)
    ensures Tries(len, run, Last(run).key, EpochOf(len, Last(run).at)) <= BurstLimit(rate)
    ensures rate * EPOCH_SECS < U32 - 1 ==> Window(len, run) <= BurstLimit(rate)
  {
    var a := Last(run);
    ReadingCoversWindow(h, len, run);
    HistoryCounts(len, run, a.key, EpochOf(len, a.at));
    CellCoversKey(h, History(len, run).log, 0, a.key, EpochOf(len, a.at));
    assert CellCount(h, History(len, run).log, 0, Column(h, 0, a.key), EpochOf(len, a.at)) < U32;
  }

  /**
    A source passes at most its burst limit, `rate x 2`, times in any one
    epoch, whatever the hash functions and whatever everybody else sends.
   */
  lemma {:induction false} EpochBudget(h: Hashes, len: nat, rate: nat, run: seq<Attempt>, key: SourceKey, epoch: int)
    requires len > 0 && NonDecreasing(run) && NoWrap(h, History(len, run).log)
    ensures PassCount(h, len, rate, run, key, epoch) <= Tries(len, run, key, epoch)
    ensures PassCount(h, len, rate, run, key, epoch) <= BurstLimit(rate) <= 2 * rate
  {
    if run != [] {
      NoWrapFront(h, len, run);
      EpochBudget(h, len, rate, Front(run), key, epoch);
      if Last(run).key == key && EpochOf(len, Last(run).at) == epoch && Passes(h, len, rate, run) {
        PassMeansWithinBudget(h, len, rate, run);
      }
    }
  }

  /** What the weighting drops of `p` is `p * pos / len`, rounded up. */
  lemma WeightedComplement(p: nat, pos: nat, len: nat)
    requires pos < len
    ensures p - Weighted(p, pos, len) == CeilDiv(p * pos, len)
  {
    var x := p * (len - pos);
    var w := x / len;
    assert x == p * len - p * pos;
    assert (w - p) * len == w * len - p * len;
    assert w * len <= x < w * len + len;
    DivUnique(-(p * pos), w - p, len);
  }

  /**
    Across an epoch boundary: when the last check passes at tick `pos` of its
    epoch, the source's passes in that epoch and the one before are at most
    the burst limit plus the share of the previous epoch's attempts that has
    slid out of the window.
   */
  lemma SlidingBudget(h: Hashes, len: nat, rate: nat, run: seq<Attempt>)
    requires len > 0 && run != [] && NonDecreasing(run) && NoWrap(h, History(len, run).log)
    requires rate * EPOCH_SECS < U32 - 1
    requires Passes(h, len, rate, run)
    ensures var a := Last(run); var e: int := EpochOf(len, a.at);
            PassCount(h, len, rate, run, a.key, e - 1) + PassCount(h, len, rate, run, a.key, e)
              <= rate * EPOCH_SECS + CeilDiv(Tries(len, run, a.key, e - 1) * (PosOf(len, a.at)), len)
  {
    var a := Last(run);
    var e: int := EpochOf(len, a.at);
    EpochBudget(h, len, rate, run, a.key, e - 1);
    EpochBudget(h, len, rate, run, a.key, e);
    PassMeansWithinBudget(h, len, rate, run);
    WeightedComplement(Tries(len, run, a.key, e - 1), PosOf(len, a.at), len);
  }

  /** `SlidingBudget` needs a limit below the 32-bit ceiling: at the ceiling nothing is ever limited. */
  lemma NothingLimitedAtTheCeiling(h: Hashes, len: nat, rate: nat, run: seq<Attempt>)
    requires len > 0 && run != [] && rate * EPOCH_SECS >= U32 - 1
    ensures Passes(h, len, rate, run)
  {
    var a := Last(run);
    EstimateIsLeast(h, History(len, run), a.key, EpochOf(len, a.at), PosOf(len, a.at), len);
  }

  // ---- The limit lets go ----

  lemma WeightedAtMost(p: nat, pos: nat, len: nat)
    requires pos < len
    ensures Weighted(p, pos, len) <= p
  {
    WeightedComplement(p, pos, len);
  }

  /** An isolated source with at most `rate` attempts in each of the two epochs is let through. */
  lemma NoFalseThrottle(h: Hashes, len: nat, rate: nat, run: seq<Attempt>)
    requires len > 0 && run != [] && NonDecreasing(run) && rate < U32
    requires IsolatedAtEnd(h, len, run)
    requires Tries(len, run, Last(run).key, EpochOf(len, Last(run).at)) <= rate
    requires Tries(len, run, Last(run).key, EpochOf(len, Last(run).at) - 1) <= rate
    ensures Passes(h, len, rate, run)
  {
    var a := Last(run);
    WeightedAtMost(Tries(len, run, a.key, EpochOf(len, a.at) - 1), PosOf(len, a.at), len);
    EstimateIsLeast(h, History(len, run), a.key, EpochOf(len, a.at), PosOf(len, a.at), len);
    IsolatedVerdict(h, len, rate, run);
  }

  /** After one silent epoch an isolated source has its whole burst back. */
  lemma RecoversAfterSilence(h: Hashes, len: nat, rate: nat, run: seq<Attempt>)
    requires len > 0 && run != [] && NonDecreasing(run) && rate < U32
    requires IsolatedAtEnd(h, len, run)
    requires Tries(len, run, Last(run).key, EpochOf(len, Last(run).at) - 1) == 0
    requires Tries(len, run, Last(run).key, EpochOf(len, Last(run).at)) <= rate * EPOCH_SECS
    ensures Passes(h, len, rate, run)
  {
    var a := Last(run);
    WeightedAtMost(0, PosOf(len, a.at), len);
    EstimateIsLeast(h, History(len, run), a.key, EpochOf(len, a.at), PosOf(len, a.at), len);
    IsolatedVerdict(h, len, rate, run);
  }

  // ---- The sustained rate ----

  /** The times of `key`'s own attempts. */
  function KeyTimes(run: seq<Attempt>, key: SourceKey): seq<nat> {
    if run == [] then []
    else if Last(run).key == key then KeyTimes(Front(run), key) + [Last(run).at]
    else KeyTimes(Front(run), key)
  }

  function CountIn(len: nat, times: seq<nat>, epoch: int): nat
    requires len > 0
  {
    if times == [] then 0
    else CountIn(len, Front(times), epoch) + if EpochOf(len, Last(times)) == epoch then 1 else 0
  }

  lemma {:induction false} TriesFromTimes(len: nat, run: seq<Attempt>, key: SourceKey, epoch: int)
    requires len > 0
    ensures Tries(len, run, key, epoch) == CountIn(len, KeyTimes(run, key), epoch)
  {
    if run != [] {
      TriesFromTimes(len, Front(run), key, epoch);
      if Last(run).key == key {
        assert Front(KeyTimes(run, key)) == KeyTimes(Front(run), key);
      }
    }
  }

  /** `n` attempts, one every `step` ticks, the first at `start`. */
  function Even(n: nat, start: nat, step: nat): seq<nat> {
    if n == 0 then [] else Even(n - 1, start, step) + [start + (n - 1) * step]
  }

  /** Time in steps: `slot` whole steps and a phase. With `m` steps to an epoch, slots have epochs and places too. */
  function Tick(phase: nat, step: nat, slot: nat): nat { phase + slot * step }

  /** The same attempts by slots. */
  function Slots(n: nat, first: nat, phase: nat, step: nat): seq<nat> {
    if n == 0 then [] else Slots(n - 1, first, phase, step) + [Tick(phase, step, first + n - 1)]
  }

  lemma TickLater(phase: nat, step: nat, first: nat, k: nat)
    ensures Tick(phase, step, first) + k * step == Tick(phase, step, first + k)
  {
  }

  lemma {:induction false} EvenIsSlots(n: nat, first: nat, phase: nat, step: nat)
    ensures Even(n, Tick(phase, step, first), step) == Slots(n, first, phase, step)
  {
    hide Tick;
    if n > 0 {
      EvenIsSlots(n - 1, first, phase, step);
      TickLater(phase, step, first, n - 1);
    }
  }

  lemma SlotTime(slot: nat, m: nat, phase: nat, step: nat, len: nat)
    requires m > 0 && phase < step && len == m * step
    ensures len > 0
    ensures EpochOf(len, Tick(phase, step, slot)) == EpochOf(m, slot)
    ensures PosOf(len, Tick(phase, step, slot)) == Tick(phase, step, PosOf(m, slot))
  {
    var q, r := slot / m, slot % m;
    assert slot == q * m + r;
    assert slot * step == q * len + r * step;
    MulMonotone(r + 1, m, step);
    assert (q + 1) * len == q * len + len;
    DivUnique(Tick(phase, step, slot), q, len);
  }

  /** How many of the numbers below `n` have quotient `epoch` by `m`. */
  function Share(n: nat, m: nat, epoch: int): nat {
    if epoch < 0 || n <= epoch * m then 0 else Min(n - epoch * m, m)
  }

  lemma ShareStep(n: nat, m: nat, epoch: int)
    requires m > 0
    ensures Share(n + 1, m, epoch) == Share(n, m, epoch) + if EpochOf(m, n) == epoch then 1 else 0
  {
    var q, r := n / m, n % m;
    assert n == q * m + r;
    if epoch < q {
      MulMonotone(epoch + 1, q, m);
    } else if epoch > q {
      MulMonotone(q + 1, epoch, m);
    }
  }

  /** Attempts in all slots from `first` on, counted by epoch. */
  lemma {:induction false} SlotCount(n: nat, m: nat, first: nat, phase: nat, step: nat, len: nat, epoch: int)
    requires m > 0 && phase < step && len == m * step && len > 0
    ensures CountIn(len, Slots(n, first, phase, step), epoch) == Share(first + n, m, epoch) - Share(first, m, epoch)
  {
    hide EpochOf, PosOf, Share, Tick;
    if n > 0 {
      SlotCount(n - 1, m, first, phase, step, len, epoch);
      SlotTime(first + n - 1, m, phase, step, len);
      assert Front(Slots(n, first, phase, step)) == Slots(n - 1, first, phase, step);
      ShareStep(first + n - 1, m, epoch);
    }
  }

  lemma Multiples(m: nat, q0: nat, q: nat)
    ensures q < q0 ==> q * m + m <= q0 * m
    ensures q == q0 + 1 ==> q * m == q0 * m + m
    ensures q > q0 + 1 ==> q * m >= q0 * m + 2 * m
  {
    if q < q0 {
      MulMonotone(q + 1, q0, m);
    } else if q > q0 + 1 {
      MulMonotone(q0 + 2, q, m);
    }
  }

  /** How far `n` attempts from place `a` of epoch `q0` on have come, with the epochs starting at `x` and `y`. */
  lemma EpochsPassed(n: nat, m: nat, q0: nat, a: nat, q: nat, j: nat, x: int, y: int)
    requires a < m && j < m && n > 0 && x + a + n - 1 == y + j
    requires (q < q0 ==> y + m <= x) && (q == q0 ==> y == x) && (q == q0 + 1 ==> y == x + m) && (q > q0 + 1 ==> y >= x + 2 * m)
    ensures q0 <= q && (n <= m - a <==> q == q0) && (n <= 2 * m - a <==> q <= q0 + 1)
    ensures (q == q0 ==> j == a + n - 1) && (q == q0 + 1 ==> j == n - 1 - (m - a))
  {
  }

  /** The share of epoch `e` below slot `q * m + j`. */
  lemma ShareAt(q: nat, j: nat, m: nat, e: int)
    requires j <= m
    ensures Share(q * m + j, m, e) == if e < 0 || e > q then 0 else if e == q then j else m
  {
    if e < q {
      MulMonotone(e + 1, q, m);
    } else if e > q {
      MulMonotone(q + 1, e, m);
    }
  }

  lemma SlotSplit(m: nat, slot: nat)
    requires m > 0
    ensures slot == EpochOf(m, slot) * m + PosOf(m, slot)
  {
  }

  /** The shares of the last attempt's epoch and of the one before, `n` attempts from slot `first` on. */
  lemma SlotsAtEnd(n: nat, m: nat, first: nat)
    requires m > 0 && n > 0
    ensures var a, j := PosOf(m, first), PosOf(m, first + n - 1);
            var q: int := EpochOf(m, first + n - 1);
            var now, before := Share(first + n, m, q) - Share(first, m, q), Share(first + n, m, q - 1) - Share(first, m, q - 1);
            && (n <= m - a ==> now == n && before == 0)
            && (n > m - a ==> now == j + 1)
            && (m - a < n <= 2 * m - a ==> j == n - 1 - (m - a) && before == m - a)
            && (n > 2 * m - a ==> before == m)
  {
    hide Share, EpochOf, PosOf;
    var q0, a, j := EpochOf(m, first), PosOf(m, first), PosOf(m, first + n - 1);
    var q: int := EpochOf(m, first + n - 1);
    SlotSplit(m, first);
    SlotSplit(m, first + n - 1);
    Multiples(m, q0, q);
    EpochsPassed(n, m, q0, a, q, j, q0 * m, q * m);
    ShareAt(q, j + 1, m, q);
    ShareAt(q, j + 1, m, q - 1);
    ShareAt(q0, a, m, q);
    ShareAt(q0, a, m, q - 1);
  }

  /** `m * (1 - pos / len)` when `m` steps make an epoch and `j` of them plus a phase have passed. */
  lemma EvenWeight(m: nat, j: nat, phase: nat, step: nat, len: nat)
    requires j < m && phase < step && len == m * step
    ensures Tick(phase, step, j) < len
    ensures Weighted(m, Tick(phase, step, j), len) == m - j - if phase == 0 then 0 else 1
  {
    MulMonotone(j + 1, m, step);
    var pos := phase + j * step;
    var w := m - j - if phase == 0 then 0 else 1;
    assert (m - j) * step == len - j * step;
    assert len - pos == (m - j) * step - phase;
    var x := m * (len - pos);
    assert x == (m - j) * len - m * phase by {
      assert m * ((m - j) * step) == (m - j) * (m * step);
    }
    MulMonotone(phase, step, m);
    assert (m - j - 1) * len == (m - j) * len - len;
    DivUnique(x, w, len);
  }

  /** A partly filled epoch weighs less by at least one attempt. */
  lemma PartWeight(m: nat, a: nat, j: nat, phase: nat, step: nat, len: nat)
    requires 0 < a < m && j < m && phase < step && len == m * step
    ensures Tick(phase, step, j) < len
    ensures j + 1 + Weighted(m - a, Tick(phase, step, j), len) <= m
  {
    MulMonotone(j + 1, m, step);
    var pos := phase + j * step;
    assert len - pos == (m - j) * step - phase;
    MulMonotone(len - pos, (m - j) * step, m - a);
    assert (m - a) * ((m - j) * step) == (m - j) * len - a * ((m - j) * step);
    Product(a, m - j, step);
    DivBelow((m - a) * (len - pos), m - j, len);
  }

  lemma Product(a: nat, b: nat, c: nat)
    requires a > 0 && b > 0 && c > 0
    ensures a * (b * c) > 0
  {
    MulMonotone(1, b, c);
    MulMonotone(1, a, b * c);
  }

  /** `run` ends with `key`'s `n`-th attempt, and those attempts are evenly spaced from `start` on. */
  ghost predicate EvenlySpaced(run: seq<Attempt>, key: SourceKey, n: nat, start: nat, step: nat) {
    && run != [] && NonDecreasing(run) && Last(run).key == key
    && step > 0 && KeyTimes(run, key) == Even(n, start, step)
  }

  /** How many steps of its epoch had passed before a source that starts at `start`. */
  function Offset(m: nat, start: nat, step: nat): (a: nat)
    requires m > 0 && step > 0
    ensures a < m
  {
    PosOf(m, start / step)
  }

  /** What the window of the `n`-th attempt is, for any start. */
  function SteadyWindow(m: nat, start: nat, step: nat, n: nat): nat
    requires m > 0 && step > 0 && n > 0
  {
    var a, phase := Offset(m, start, step), start % step;
    if n <= m - a then n
    else if n > 2 * m - a || a == 0 then m + if phase == 0 then 1 else 0
    else
      var j := n - 1 - (m - a);
      assert Tick(phase, step, j) < m * step by { MulMonotone(j + 1, m, step); }
      j + 1 + Weighted(m - a, Tick(phase, step, j), m * step)
  }

  /** Where the `n`-th attempt stands: `j` whole steps into its epoch, with these counts. */
  lemma EvenTries(len: nat, m: nat, step: nat, start: nat, n: nat, run: seq<Attempt>, key: SourceKey) returns (j: nat)
    requires m > 0 && EvenlySpaced(run, key, n, start, step) && len == m * step
    ensures len > 0 && n > 0 && j < m
    ensures var a, e := Offset(m, start, step), EpochOf(len, Last(run).at);
            && PosOf(len, Last(run).at) == Tick(start % step, step, j)
            && (n <= m - a ==> Tries(len, run, key, e) == n && Tries(len, run, key, e - 1) == 0)
            && (n > m - a ==> Tries(len, run, key, e) == j + 1)
            && (m - a < n <= 2 * m - a ==> j == n - 1 - (m - a) && Tries(len, run, key, e - 1) == m - a)
            && (n > 2 * m - a ==> Tries(len, run, key, e - 1) == m)
  {
    var first, phase := start / step, start % step;
    assert start == Tick(phase, step, first);
    hide Tries, CountIn, Share, EpochOf, PosOf, Tick, Slots;
    EvenIsSlots(n, first, phase, step);
    LastSlot(n, first, phase, step, run, key);
    j := PosOf(m, first + n - 1);
    SlotTime(first + n - 1, m, phase, step, len);
    SlotShares(n, m, first, phase, step, len, run, key);
    SlotsAtEnd(n, m, first);
  }

  lemma LastSlot(n: nat, first: nat, phase: nat, step: nat, run: seq<Attempt>, key: SourceKey)
    requires run != [] && Last(run).key == key && KeyTimes(run, key) == Slots(n, first, phase, step)
    ensures n > 0 && Last(run).at == Tick(phase, step, first + n - 1)
  {
    hide Tick;
    assert Last(KeyTimes(run, key)) == Last(run).at;
  }

  lemma SlotShares(n: nat, m: nat, first: nat, phase: nat, step: nat, len: nat, run: seq<Attempt>, key: SourceKey)
    requires m > 0 && phase < step && len == m * step && len > 0 && n > 0
    requires KeyTimes(run, key) == Slots(n, first, phase, step)
    ensures var q: int := EpochOf(m, first + n - 1);
            && Tries(len, run, key, q) == Share(first + n, m, q) - Share(first, m, q)
            && Tries(len, run, key, q - 1) == Share(first + n, m, q - 1) - Share(first, m, q - 1)
  {
    hide Tries, CountIn, Share, EpochOf, Slots, KeyTimes;
    var q: int := EpochOf(m, first + n - 1);
    SlotCount(n, m, first, phase, step, len, q);
    SlotCount(n, m, first, phase, step, len, q - 1);
    TriesFromTimes(len, run, key, q);
    TriesFromTimes(len, run, key, q - 1);
  }

  lemma EvenWindow(len: nat, m: nat, step: nat, start: nat, n: nat, run: seq<Attempt>, key: SourceKey)
    requires m > 0 && EvenlySpaced(run, key, n, start, step) && len == m * step
    ensures len > 0 && n > 0
    ensures Window(len, run) == SteadyWindow(m, start, step, n)
  {
    var j := EvenTries(len, m, step, start, n, run, key);
    EvenWeight(m, j, start % step, step, len);
    WeightedAtMost(0, Tick(start % step, step, j), len);
  }

  /**
    The window of a steady source is over its budget of `m` exactly when its
    attempts fall on epoch boundaries and a full epoch lies behind it; then it
    is over by one.
   */
  lemma SteadyWindowBound(m: nat, start: nat, step: nat, n: nat)
    requires m > 0 && step > 0 && n > 0
    ensures var full := if Offset(m, start, step) == 0 then m else 2 * m - Offset(m, start, step);
            if start % step == 0 && n > full then SteadyWindow(m, start, step, n) == m + 1
            else SteadyWindow(m, start, step, n) <= m && (n > full ==> SteadyWindow(m, start, step, n) == m)
  {
    var a := Offset(m, start, step);
    if a > 0 && m - a < n <= 2 * m - a {
      PartWeight(m, a, n - 1 - (m - a), start % step, step, m * step);
    }
  }

  /**
    With a budget of two an epoch: attempts on the boundaries from the origin
    on are one over at the third, from the middle of an epoch on they are not.
   */
  lemma SteadyExamples()
    ensures SteadyWindow(2, 0, 1, 3) == 3 && SteadyWindow(2, 3, 1, 3) == 2
  {
    assert Offset(2, 3, 1) == 1;
    assert Weighted(1, Tick(0, 1, 1), 2) == 0;
  }

  /**
    What a source evenly spaced at exactly `rate` per second reads at its
    `n`-th attempt, whenever it started.
   */
  lemma SteadyReading(h: Hashes, rate: nat, step: nat, start: nat, n: nat, run: seq<Attempt>, key: SourceKey, len: nat)
    requires rate > 0 && rate * EPOCH_SECS < U32 - 1
    requires EvenlySpaced(run, key, n, start, step) && len == rate * EPOCH_SECS * step && len > 0
    requires IsolatedAtEnd(h, len, run) && NoWrap(h, History(len, run).log)
    ensures n > 0 && Reading(h, len, run) == SteadyWindow(rate * EPOCH_SECS, start, step, n)
  {
    EvenWindow(len, rate * EPOCH_SECS, step, start, n, run, key);
    SteadyWindowBound(rate * EPOCH_SECS, start, step, n);
    IsolatedVerdict(h, len, rate, run);
  }

  /**
    Hence the sustained rate is let through exactly when the source's attempts
    are off the epoch boundaries, or no full epoch of attempts lies behind it.
   */
  lemma SustainedRatePasses(h: Hashes, rate: nat, step: nat, start: nat, n: nat, run: seq<Attempt>, key: SourceKey, len: nat)
    requires rate > 0 && rate * EPOCH_SECS < U32 - 1
    requires EvenlySpaced(run, key, n, start, step) && len == rate * EPOCH_SECS * step && len > 0
    requires IsolatedAtEnd(h, len, run) && NoWrap(h, History(len, run).log)
    ensures var m := rate * EPOCH_SECS; var a := Offset(m, start, step);
            Passes(h, len, rate, run) <==> start % step > 0 || n <= if a == 0 then m else 2 * m - a
  {
    SteadyReading(h, rate, step, start, n, run, key, len);
    SteadyWindowBound(rate * EPOCH_SECS, start, step, n);
  }
}
