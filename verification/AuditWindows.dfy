/**
  Rejection-audit aggregation (crates/qsh-core/src/admission.rs,
  `record_rejection` and `flush_expired`): one window per category. The first
  rejection of a window is written out at once, later ones are only counted,
  and the count comes out as a summary when the window is closed.

  This module follows one category through any sequence of rejections and
  flushes. Times are nanoseconds on the gate's clock.
 */
module AuditWindows {
  import opened Options
  import opened SourceKeys

  const AGGREGATION_WINDOW: int := 10_000_000_000
  const U32_MAX: nat := 0xffff_ffff

  datatype Peer = Peer(ip: IpAddr, port: bv16)

  datatype Note = Occurrence(peer: Peer) | Summary(count: nat)

  datatype Window = Window(start: Option<int>, suppressed: nat)

  const NEVER_OPENED := Window(None, 0)

  /** Saturating difference of two instants. */
  function Since(now: int, then_: int): nat { if now < then_ then 0 else now - then_ }

  predicate StillOpen(w: Window, now: int) {
    w.start.Some? && Since(now, w.start.value) < AGGREGATION_WINDOW
  }

  function SummaryOf(w: Window): seq<Note> {
    if w.suppressed > 0 then [Summary(w.suppressed)] else []
  }

  function Reject(w: Window, peer: Peer, now: int): (Window, seq<Note>) {
    if StillOpen(w, now) then
      (w.(suppressed := if w.suppressed == U32_MAX then U32_MAX else w.suppressed + 1), [])
    else (Window(Some(now), 0), SummaryOf(w) + [Occurrence(peer)])
  }

  function Flush(w: Window, now: int): (Window, seq<Note>) {
    if w.start.None? || StillOpen(w, now) then (w, [])
    else (NEVER_OPENED, SummaryOf(w))
  }

  // ---- Runs ----

  datatype Op = Rejected(peer: Peer, now: int) | Flushed(now: int)

  function Step(w: Window, op: Op): (Window, seq<Note>) {
    match op
    case Rejected(peer, now) => Reject(w, peer, now)
    case Flushed(now) => Flush(w, now)
  }

  function State(ops: seq<Op>): Window {
    if ops == [] then NEVER_OPENED else Step(State(ops[..|ops| - 1]), ops[|ops| - 1]).0
  }

  /** The notes written by the last operation of a run. */
  function LastNotes(ops: seq<Op>): seq<Note>
    requires ops != []
  {
    Step(State(ops[..|ops| - 1]), ops[|ops| - 1]).1
  }

  /** All notes written over a run, in order. */
  function Notes(ops: seq<Op>): seq<Note> {
    if ops == [] then [] else Notes(ops[..|ops| - 1]) + LastNotes(ops)
  }

  predicate Orderly(ops: seq<Op>) {
    forall i, j | 0 <= i < j < |ops| :: ops[i].now <= ops[j].now
  }

  function Rejections(ops: seq<Op>): nat {
    if ops == [] then 0
    else Rejections(ops[..|ops| - 1]) + if ops[|ops| - 1].Rejected? then 1 else 0
  }

  function Occurrences(notes: seq<Note>): nat {
    if notes == [] then 0
    else Occurrences(notes[..|notes| - 1]) + if notes[|notes| - 1].Occurrence? then 1 else 0
  }

  function Summaries(notes: seq<Note>): nat {
    if notes == [] then 0
    else Summaries(notes[..|notes| - 1]) + if notes[|notes| - 1].Summary? then 1 else 0
  }

  function Summed(notes: seq<Note>): nat {
    if notes == [] then 0
    else Summed(notes[..|notes| - 1]) + match notes[|notes| - 1] case Summary(n) => n case _ => 0
  }

  lemma {:induction false} TotalsAdd(a: seq<Note>, b: seq<Note>)
    ensures Occurrences(a + b) == Occurrences(a) + Occurrences(b)
    ensures Summaries(a + b) == Summaries(a) + Summaries(b)
    ensures Summed(a + b) == Summed(a) + Summed(b)
  {
    if b == [] {
      assert a + b == a;
    } else {
      TotalsAdd(a, b[..|b| - 1]);
      assert (a + b)[..|a + b| - 1] == a + b[..|b| - 1];
    }
  }

  /** What one operation writes, in totals. */
  lemma StepTotals(w: Window, op: Op)
    ensures var (w', notes) := Step(w, op);
            && Occurrences(notes) == (if op.Rejected? && !StillOpen(w, op.now) then 1 else 0)
            && Summaries(notes) == (if w.suppressed > 0 && !StillOpen(w, op.now) && (op.Rejected? || w.start.Some?) then 1 else 0)
            && Summed(notes) == (if !StillOpen(w, op.now) && (op.Rejected? || w.start.Some?) then w.suppressed else 0)
  {
    TotalsAdd(SummaryOf(w), []);
    if op.Rejected? {
      TotalsAdd(SummaryOf(w), [Occurrence(op.peer)]);
    }
  }

  // ---- Conservation ----

  /** Rejections that arrived in an open window whose 32-bit count was already full. */
  function Lost(ops: seq<Op>): nat {
    if ops == [] then 0
    else
      var w, op := State(ops[..|ops| - 1]), ops[|ops| - 1];
      Lost(ops[..|ops| - 1])
      + if op.Rejected? && StillOpen(w, op.now) && w.suppressed == U32_MAX then 1 else 0
  }

  /** Every rejection is written out, summed up in a summary, still being counted, or lost to a full count. */
  lemma {:induction false} Conservation(ops: seq<Op>)
    ensures Rejections(ops) ==
            Occurrences(Notes(ops)) + Summed(Notes(ops)) + State(ops).suppressed + Lost(ops)
    ensures State(ops).suppressed <= U32_MAX
    ensures State(ops).start.None? ==> State(ops).suppressed == 0
    ensures Lost(ops) > 0 ==> Rejections(ops) > U32_MAX + 1
  {
    if ops != [] {
      var front, op := ops[..|ops| - 1], ops[|ops| - 1];
      Conservation(front);
      StepTotals(State(front), op);
      TotalsAdd(Notes(front), LastNotes(ops));
      OpenMeansOccurred(front);
    }
  }

  /** A window is only open because an occurrence was written, and yields at most one summary. */
  lemma {:induction false} OpenMeansOccurred(ops: seq<Op>)
    ensures Summaries(Notes(ops)) + (if State(ops).start.Some? then 1 else 0) <= Occurrences(Notes(ops))
    ensures State(ops).start.None? ==> State(ops).suppressed == 0
  {
    if ops != [] {
      var front, op := ops[..|ops| - 1], ops[|ops| - 1];
      OpenMeansOccurred(front);
      StepTotals(State(front), op);
      TotalsAdd(Notes(front), LastNotes(ops));
    }
  }

  // ---- Volume ----

  /** The operation at `i` writes an occurrence. */
  predicate Announces(ops: seq<Op>, i: nat)
    requires i < |ops|
  {
    ops[i].Rejected? && !StillOpen(State(ops[..i]), ops[i].now)
  }

  lemma AnnouncesIffWritten(ops: seq<Op>, i: nat)
    requires i < |ops|
    ensures Announces(ops, i) <==> Occurrences(LastNotes(ops[..i + 1])) == 1
    ensures Announces(ops, i) <==> ops[i].Rejected? && Occurrence(ops[i].peer) in LastNotes(ops[..i + 1])
    ensures Announces(ops, i) ==> var notes := LastNotes(ops[..i + 1]); notes[|notes| - 1] == Occurrence(ops[i].peer)
  {
    assert ops[..i + 1][..i] == ops[..i];
    StepTotals(State(ops[..i]), ops[i]);
  }

  /**
    After an occurrence at `i`, the window has stayed open since, or was closed
    no earlier than one aggregation window later, or was reopened even later.
   */
  lemma {:induction false} WindowAfterOccurrence(ops: seq<Op>, i: nat, n: nat)
    requires Orderly(ops) && i < n <= |ops| && Announces(ops, i)
    ensures var w := State(ops[..n]);
            if w.start.Some? then ops[i].now <= w.start.value
            else ops[i].now + AGGREGATION_WINDOW <= ops[n - 1].now
  {
    assert ops[..n][..n - 1] == ops[..n - 1];
    if n > i + 1 {
      WindowAfterOccurrence(ops, i, n - 1);
    }
  }

  /** Two occurrences of one category are at least one aggregation window apart. */
  lemma OccurrencesSpaced(ops: seq<Op>, i: nat, j: nat)
    requires Orderly(ops) && i < j < |ops| && Announces(ops, i) && Announces(ops, j)
    ensures ops[i].now + AGGREGATION_WINDOW <= ops[j].now
  {
    WindowAfterOccurrence(ops, i, j);
  }

  /** An open window was opened by the latest occurrence, at that occurrence's time. */
  lemma {:induction false} OpenedByLatest(ops: seq<Op>, n: nat) returns (i: nat)
    requires n <= |ops| && State(ops[..n]).start.Some?
    ensures i < n && Announces(ops, i) && State(ops[..n]).start == Some(ops[i].now)
    ensures forall j | i < j < n :: !Announces(ops, j)
  {
    var last := n - 1;
    assert ops[..n][..last] == ops[..last];
    if Announces(ops, last) {
      i := last;
    } else {
      i := OpenedByLatest(ops, last);
    }
  }

  /**
    A rejection is written out exactly when every occurrence written before it
    is at least one aggregation window old.
   */
  lemma AnnouncesExactlyWhen(ops: seq<Op>, i: nat)
    requires Orderly(ops) && i < |ops| && ops[i].Rejected?
    ensures Announces(ops, i) <==> forall j | 0 <= j < i && Announces(ops, j) :: ops[j].now + AGGREGATION_WINDOW <= ops[i].now
  {
    if Announces(ops, i) {
      forall j | 0 <= j < i && Announces(ops, j)
        ensures ops[j].now + AGGREGATION_WINDOW <= ops[i].now
      {
        OccurrencesSpaced(ops, j, i);
      }
    } else {
      var j := OpenedByLatest(ops, i);
    }
  }

  // ---- Latency ----

  /** When the windows were last flushed, counting the gate's creation as a flush. */
  function LastFlush(ops: seq<Op>, born: int): int {
    if ops == [] then born
    else if ops[|ops| - 1].Flushed? then ops[|ops| - 1].now
    else LastFlush(ops[..|ops| - 1], born)
  }

  /** Nothing happens later than one aggregation window after the last flush. */
  predicate Ticking(ops: seq<Op>, born: int) {
    forall i | 0 <= i < |ops| :: born <= ops[i].now <= LastFlush(ops[..i], born) + AGGREGATION_WINDOW
  }

  /** A window still open was not yet expired at the last flush. */
  lemma {:induction false} OpenSinceLastFlush(ops: seq<Op>, born: int)
    requires Orderly(ops) && forall i | 0 <= i < |ops| :: born <= ops[i].now
    ensures State(ops).start.Some? ==> LastFlush(ops, born) < State(ops).start.value + AGGREGATION_WINDOW
    ensures ops != [] ==> LastFlush(ops, born) <= ops[|ops| - 1].now
  {
    if ops != [] {
      OpenSinceLastFlush(ops[..|ops| - 1], born);
    }
  }

  /**
    With a flush at least every aggregation window, no count is held back for
    two: a window open at any moment `now` covered by the ticking opened less
    than two aggregation windows before it.
   */
  lemma HeldBackBriefly(ops: seq<Op>, born: int, now: int)
    requires Orderly(ops) && Ticking(ops, born)
    requires State(ops).start.Some? && now <= LastFlush(ops, born) + AGGREGATION_WINDOW
    ensures now < State(ops).start.value + 2 * AGGREGATION_WINDOW
  {
    OpenSinceLastFlush(ops, born);
  }

  /** ... and every summary comes out one to two aggregation windows after its window opened. */
  lemma SummaryPrompt(ops: seq<Op>, born: int)
    requires ops != [] && Orderly(ops) && Ticking(ops, born)
    requires exists n :: Summary(n) in LastNotes(ops)
    ensures var w, now := State(ops[..|ops| - 1]), ops[|ops| - 1].now;
            && w.start.Some? && w.suppressed > 0 && Summary(w.suppressed) in LastNotes(ops)
            && AGGREGATION_WINDOW <= now - w.start.value < 2 * AGGREGATION_WINDOW
  {
    var front, op := ops[..|ops| - 1], ops[|ops| - 1];
    OpenMeansOccurred(front);
    assert Ticking(front, born) by {
      forall i | 0 <= i < |front|
        ensures born <= front[i].now <= LastFlush(front[..i], born) + AGGREGATION_WINDOW
      {
        assert front[..i] == ops[..i];
      }
    }
    HeldBackBriefly(front, born, op.now);
  }

  // ---- Every suppressed rejection comes out ----

  /** The rejection at `i` is only counted. */
  predicate Suppressed(ops: seq<Op>, i: nat)
    requires i < |ops|
  {
    ops[i].Rejected? && StillOpen(State(ops[..i]), ops[i].now)
  }

  /** The window opened at `start` is still collecting, with `floor` or more rejections counted. */
  predicate Collecting(w: Window, start: int, floor: nat) {
    w.start == Some(start) && w.suppressed >= floor
  }

  /** A collecting window goes on collecting, or is closed once expired, and its count written. */
  lemma CollectOrSum(w: Window, op: Op, start: int, floor: nat)
    requires Collecting(w, start, floor) && 0 < floor <= U32_MAX
    ensures var (w', notes) := Step(w, op);
            if StillOpen(w, op.now) then Collecting(w', start, floor) else Summary(w.suppressed) in notes
  {
  }

  /** From `i` on the window collects, until `j` writes its summary. */
  ghost predicate SummedAt(ops: seq<Op>, i: nat, j: nat)
    requires i < j < |ops|
  {
    var start, floor := State(ops[..i]).start, State(ops[..i + 1]).suppressed;
    && start.Some?
    && CollectingSince(ops, i, j, start.value, floor)
    && Summary(State(ops[..j]).suppressed) in LastNotes(ops[..j + 1])
    && ops[j].now < start.value + 2 * AGGREGATION_WINDOW
  }

  lemma TickingPrefix(ops: seq<Op>, born: int, n: nat)
    requires n <= |ops| && Ticking(ops, born) && Orderly(ops)
    ensures Ticking(ops[..n], born) && Orderly(ops[..n])
  {
    forall i | 0 <= i < n
      ensures ops[..n][..i] == ops[..i]
    {
    }
  }

  lemma SuppressedCounts(ops: seq<Op>, i: nat)
    requires i < |ops| && Suppressed(ops, i)
    ensures var w := State(ops[..i + 1]);
            w.start == State(ops[..i]).start && 0 < w.suppressed <= U32_MAX
  {
    Conservation(ops[..i]);
    assert ops[..i + 1][..i] == ops[..i];
  }

  lemma CollectOne(ops: seq<Op>, born: int, n: nat, start: int, floor: nat)
    requires Orderly(ops) && Ticking(ops, born) && n < |ops|
    requires Collecting(State(ops[..n]), start, floor) && 0 < floor <= U32_MAX
    ensures if StillOpen(State(ops[..n]), ops[n].now) then Collecting(State(ops[..n + 1]), start, floor)
            else Summary(State(ops[..n]).suppressed) in LastNotes(ops[..n + 1]) && ops[n].now < start + 2 * AGGREGATION_WINDOW
  {
    assert ops[..n + 1][..n] == ops[..n];
    CollectOrSum(State(ops[..n]), ops[n], start, floor);
    TickingPrefix(ops, born, n);
    HeldBackBriefly(ops[..n], born, ops[n].now);
  }

  ghost predicate CollectingSince(ops: seq<Op>, i: nat, n: nat, start: int, floor: nat)
    requires n <= |ops|
  {
    forall k | i < k <= n :: Collecting(State(ops[..k]), start, floor)
  }

  /** Before the `n`-th operation the window is still collecting, or `j` has written its summary. */
  lemma {:induction false} CollectingOrSummed(ops: seq<Op>, born: int, i: nat, n: nat, start: int, floor: nat) returns (j: nat)
    requires Orderly(ops) && Ticking(ops, born) && i < n <= |ops|
    requires State(ops[..i]).start == Some(start) && floor == State(ops[..i + 1]).suppressed
    requires Collecting(State(ops[..i + 1]), start, floor) && 0 < floor <= U32_MAX
    ensures if j < n then i < j && SummedAt(ops, i, j) else CollectingSince(ops, i, n, start, floor)
    decreases n
  {
    hide State, LastNotes, Ticking, Orderly;
    j := n;
    if n > i + 1 {
      var j' := CollectingOrSummed(ops, born, i, n - 1, start, floor);
      if j' < n - 1 {
        j := j';
      } else {
        CollectOne(ops, born, n - 1, start, floor);
        if !StillOpen(State(ops[..n - 1]), ops[n - 1].now) {
          j := n - 1;
        }
      }
    }
  }

  /**
    With a flush at least every aggregation window, every suppressed rejection
    is in a summary less than two aggregation windows after its window opened,
    by any moment `now` that late which the flushes cover.
   */
  lemma SuppressedIsSummed(ops: seq<Op>, born: int, i: nat, now: int) returns (j: nat)
    requires Orderly(ops) && Ticking(ops, born) && i < |ops| && Suppressed(ops, i)
    requires State(ops[..i]).start.value + 2 * AGGREGATION_WINDOW <= now <= LastFlush(ops, born) + AGGREGATION_WINDOW
    ensures i < j < |ops| && SummedAt(ops, i, j)
  {
    SuppressedCounts(ops, i);
    j := CollectingOrSummed(ops, born, i, |ops|, State(ops[..i]).start.value, State(ops[..i + 1]).suppressed);
    if j >= |ops| {
      assert ops[..|ops|] == ops;
      HeldBackBriefly(ops, born, now);
      assert false;
    }
  }
}
