/**
  The admission decision over whole runs (crates/qsh-core/src/admission.rs,
  `Gate`): what every attempt, released permit and audit tick does to the
  gate, and what holds of every run. The state keeps each sketch as the
  history it stands for; `Gates.Gate` is the version that works in place.
 */
module GateModel {
  import opened SourceKeys
  import opened SketchModel
  import opened AuditWindows
  import opened Options
  import R = RateLimit

  /** Ticks are nanoseconds. */
  const EPOCH: nat := R.EPOCH_SECS * 1_000_000_000

  datatype Reason = RateLimited | AtCapacity | ValidatedRateLimited

  function Index(r: Reason): (i: nat)
    ensures i < 3
  {
    match r case RateLimited => 0 case AtCapacity => 1 case ValidatedRateLimited => 2
  }

  const ALL: seq<Reason> := [RateLimited, AtCapacity, ValidatedRateLimited]

  datatype AuditRecord = AuditRecord(reason: Reason, note: Note)

  datatype Decision =
    | Retry
    | Ignore(reason: Reason, records: seq<AuditRecord>)
    | Refuse(reason: Reason, records: seq<AuditRecord>)
    | Admit

  datatype Counters = Counters(retry: nat, ignore: nat, refuse: nat, admit: nat)

  datatype Config = Config(
    hash: Hashes, validatedHash: Hashes,
    rate: nat, validatedRate: nat,
    permits: nat, origin: int)

  type Windows = w: seq<Window> | |w| == 3 witness [NEVER_OPENED, NEVER_OPENED, NEVER_OPENED]

  /** `held` counts the permits handed out and not yet dropped. */
  datatype State = State(
    unvalidated: Model, validated: Model,
    available: nat, held: nat,
    windows: Windows, counters: Counters)

  function Fresh(cfg: Config): State {
    State(EMPTY, EMPTY, cfg.permits, 0, [NEVER_OPENED, NEVER_OPENED, NEVER_OPENED], Counters(0, 0, 0, 0))
  }

  function Label(reason: Reason, notes: seq<Note>): seq<AuditRecord> {
    seq(|notes|, i requires 0 <= i < |notes| => AuditRecord(reason, notes[i]))
  }

  // ---- One step ----

  function Recorded(cfg: Config, m: Model, peer: Peer, now: int): Model {
    Record(m, FromAddr(peer.ip), R.EpochOf(EPOCH, Since(now, cfg.origin)))
  }

  /** Whether the check just recorded as the last event of `m` is over `rate`'s budget. */
  predicate Exceeded(cfg: Config, h: Hashes, rate: nat, m: Model, peer: Peer, now: int)
    requires R.EpochOf(EPOCH, Since(now, cfg.origin)) <= m.index
  {
    var elapsed := Since(now, cfg.origin);
    Estimate(h, m, FromAddr(peer.ip), R.EpochOf(EPOCH, elapsed), R.PosOf(EPOCH, elapsed), EPOCH) > R.BurstLimit(rate)
  }

  function RejectIn(s: State, reason: Reason, peer: Peer, now: int): (State, seq<AuditRecord>) {
    var (w, notes) := Reject(s.windows[Index(reason)], peer, now);
    (s.(windows := s.windows[Index(reason) := w]), Label(reason, notes))
  }

  function Decide(cfg: Config, s: State, peer: Peer, validated: bool, now: int): (State, Decision) {
    if !validated then
      var s1 := s.(unvalidated := Recorded(cfg, s.unvalidated, peer, now));
      if Exceeded(cfg, cfg.hash, cfg.rate, s1.unvalidated, peer, now) then
        var (s2, records) := RejectIn(s1, RateLimited, peer, now);
        (s2.(counters := s2.counters.(ignore := s2.counters.ignore + 1)), Ignore(RateLimited, records))
      else (s1.(counters := s1.counters.(retry := s1.counters.retry + 1)), Retry)
    else
      var s1 := s.(validated := Recorded(cfg, s.validated, peer, now));
      if Exceeded(cfg, cfg.validatedHash, cfg.validatedRate, s1.validated, peer, now) then
        var (s2, records) := RejectIn(s1, ValidatedRateLimited, peer, now);
        (s2.(counters := s2.counters.(refuse := s2.counters.refuse + 1)), Refuse(ValidatedRateLimited, records))
      else if s1.available > 0 then
        (s1.(available := s1.available - 1, held := s1.held + 1,
             counters := s1.counters.(admit := s1.counters.admit + 1)), Admit)
      else
        var (s2, records) := RejectIn(s1, AtCapacity, peer, now);
        (s2.(counters := s2.counters.(refuse := s2.counters.refuse + 1)), Refuse(AtCapacity, records))
  }

  /** Dropping a permit; there must be one to drop. */
  function Dropped(s: State): State {
    if s.held == 0 then s else s.(available := s.available + 1, held := s.held - 1)
  }

  /** Flushes the windows of the first `n` categories, in the order of `ALL`. */
  function FlushFirst(windows: Windows, now: int, n: nat): (Windows, seq<AuditRecord>)
    requires n <= 3
  {
    if n == 0 then (windows, [])
    else
      var (ws, records) := FlushFirst(windows, now, n - 1);
      var (w, notes) := Flush(ws[n - 1], now);
      (ws[n - 1 := w], records + Label(ALL[n - 1], notes))
  }

  // ---- Runs ----

  datatype Event =
    | Attempt(peer: Peer, validated: bool, now: int)
    | Release(now: int)
    | Tick(now: int)

  datatype Outcome = Decided(decision: Decision) | Done | Swept(records: seq<AuditRecord>)

  function Step(cfg: Config, s: State, ev: Event): (r: (State, Outcome))
    ensures r.1.Decided? <==> ev.Attempt?
  {
    match ev
    case Attempt(peer, validated, now) =>
      var (s', d) := Decide(cfg, s, peer, validated, now);
      (s', Decided(d))
    case Release(_) => (Dropped(s), Done)
    case Tick(now) =>
      var (ws, records) := FlushFirst(s.windows, now, 3);
      (s.(windows := ws), Swept(records))
  }

  function After(cfg: Config, evs: seq<Event>): State {
    if evs == [] then Fresh(cfg) else Step(cfg, After(cfg, R.Front(evs)), R.Last(evs)).0
  }

  /** The outcome of the last event of a run. */
  function OutcomeOf(cfg: Config, evs: seq<Event>): Outcome
    requires evs != []
  {
    Step(cfg, After(cfg, R.Front(evs)), R.Last(evs)).1
  }

  function RecordsOf(o: Outcome): seq<AuditRecord> {
    match o
    case Decided(Ignore(_, records)) => records
    case Decided(Refuse(_, records)) => records
    case Swept(records) => records
    case _ => []
  }

  /** Everything handed to the audit sink over a run, in order. */
  function AuditTrail(cfg: Config, evs: seq<Event>): seq<AuditRecord> {
    if evs == [] then [] else AuditTrail(cfg, R.Front(evs)) + RecordsOf(OutcomeOf(cfg, evs))
  }

  predicate RejectedFor(o: Outcome, reason: Reason) {
    o.Decided? && (o.decision.Ignore? || o.decision.Refuse?) && o.decision.reason == reason
  }

  predicate Orderly(evs: seq<Event>) {
    forall i, j | 0 <= i < j < |evs| :: evs[i].now <= evs[j].now
  }

  // ---- Permits ----

  /**
    Permits are never created or destroyed: those handed out and those
    available always add up to the cap.
   */
  lemma {:induction false} PermitsConserved(cfg: Config, evs: seq<Event>)
    ensures After(cfg, evs).available + After(cfg, evs).held == cfg.permits
  {
    if evs != [] {
      PermitsConserved(cfg, R.Front(evs));
    }
  }

  /** What one attempt does to the pool. */
  lemma DecidePermits(cfg: Config, s: State, peer: Peer, validated: bool, now: int)
    ensures var (s', d) := Decide(cfg, s, peer, validated, now);
            && s'.held == s.held + (if d.Admit? then 1 else 0)
            && (d.Admit? ==> validated && s.available > 0)
            && ((d.Ignore? || d.Refuse?) && d.reason == AtCapacity ==> validated && s.available == 0)
  {
    hide Exceeded, Recorded, Reject, Label;
  }

  /**
    Only an admission takes a permit, and it takes exactly one; a refusal for
    capacity happens only with every permit out; no attempt that is rate
    limited, and no unvalidated attempt at all, touches the pool.
   */
  lemma PermitUse(cfg: Config, evs: seq<Event>)
    requires evs != [] && R.Last(evs).Attempt?
    ensures var before, after, d := After(cfg, R.Front(evs)), After(cfg, evs), OutcomeOf(cfg, evs).decision;
            && after.held == before.held + (if d.Admit? then 1 else 0)
            && (d.Admit? ==> R.Last(evs).validated && before.held < cfg.permits)
            && (RejectedFor(OutcomeOf(cfg, evs), AtCapacity) ==> R.Last(evs).validated && before.held == cfg.permits)
  {
    hide Decide;
    var s, ev := After(cfg, R.Front(evs)), R.Last(evs);
    PermitsConserved(cfg, R.Front(evs));
    DecidePermits(cfg, s, ev.peer, ev.validated, ev.now);
  }

  /** A release gives one permit back, if one is out, and touches nothing else. */
  lemma ReleaseFrees(cfg: Config, evs: seq<Event>)
    requires evs != [] && R.Last(evs).Release?
    ensures var before, after := After(cfg, R.Front(evs)), After(cfg, evs);
            && after.held == (if before.held > 0 then before.held - 1 else 0)
            && after.available == cfg.permits - after.held
            && after == before.(held := after.held, available := after.available)
  {
    PermitsConserved(cfg, R.Front(evs));
  }

  // ---- Each category's window, followed on its own ----

  /** What an event with outcome `o` does to the window of one category. */
  function OpsOf(ev: Event, o: Outcome, reason: Reason): seq<Op> {
    if ev.Tick? then [Flushed(ev.now)]
    else if ev.Attempt? && RejectedFor(o, reason) then [Rejected(ev.peer, ev.now)]
    else []
  }

  function WindowOps(cfg: Config, evs: seq<Event>, reason: Reason): seq<Op> {
    if evs == [] then []
    else WindowOps(cfg, R.Front(evs), reason) + OpsOf(R.Last(evs), OutcomeOf(cfg, evs), reason)
  }

  /** The notes of one category among a list of records. */
  function NotesOf(records: seq<AuditRecord>, reason: Reason): seq<Note> {
    if records == [] then []
    else NotesOf(R.Front(records), reason)
         + if R.Last(records).reason == reason then [R.Last(records).note] else []
  }

  lemma {:induction false} NotesOfAdd(a: seq<AuditRecord>, b: seq<AuditRecord>, reason: Reason)
    ensures NotesOf(a + b, reason) == NotesOf(a, reason) + NotesOf(b, reason)
  {
    if b == [] {
      assert a + b == a;
    } else {
      NotesOfAdd(a, R.Front(b), reason);
      assert R.Front(a + b) == a + R.Front(b);
    }
  }

  lemma {:induction false} NotesOfLabel(labelled: Reason, notes: seq<Note>, reason: Reason)
    ensures NotesOf(Label(labelled, notes), reason) == if labelled == reason then notes else []
  {
    if notes != [] {
      NotesOfLabel(labelled, notes[..|notes| - 1], reason);
      assert R.Front(Label(labelled, notes)) == Label(labelled, notes[..|notes| - 1]);
    }
  }

  /** A tick flushes each category as if it were alone. */
  lemma {:induction false} FlushOne(windows: Windows, now: int, n: nat, reason: Reason)
    requires n <= 3
    ensures var (ws, records) := FlushFirst(windows, now, n);
            if Index(reason) < n then
              ws[Index(reason)] == Flush(windows[Index(reason)], now).0
              && NotesOf(records, reason) == Flush(windows[Index(reason)], now).1
            else ws[Index(reason)] == windows[Index(reason)] && NotesOf(records, reason) == []
  {
    if n > 0 {
      FlushOne(windows, now, n - 1, reason);
      FlushOne(windows, now, n - 1, ALL[n - 1]);
      var (ws, records) := FlushFirst(windows, now, n - 1);
      var notes := Flush(ws[n - 1], now).1;
      NotesOfAdd(records, Label(ALL[n - 1], notes), reason);
      NotesOfLabel(ALL[n - 1], notes, reason);
    }
  }

  lemma {:induction false} FlushNext(windows: Windows, now: int, n: nat)
    requires n < 3
    ensures FlushFirst(windows, now, 0).1 == []
    ensures FlushFirst(windows, now, n + 1).1 == FlushFirst(windows, now, n).1 + Label(ALL[n], Flush(windows[n], now).1)
  {
    FlushOne(windows, now, n, ALL[n]);
    hide Label, Flush;
  }

  /** A sweep reports the categories in their fixed order, each with what it had before. */
  lemma FlushOrder(windows: Windows, now: int)
    ensures FlushFirst(windows, now, 3).1 ==
            Label(RateLimited, Flush(windows[0], now).1) + Label(AtCapacity, Flush(windows[1], now).1)
            + Label(ValidatedRateLimited, Flush(windows[2], now).1)
  {
    FlushNext(windows, now, 0);
    FlushNext(windows, now, 1);
    FlushNext(windows, now, 2);
    hide FlushFirst, Flush, Label;
    assert ALL == [RateLimited, AtCapacity, ValidatedRateLimited];
    assert FlushFirst(windows, now, 1).1 == Label(ALL[0], Flush(windows[0], now).1);
  }

  /** A decision writes to the window of the reason it gives, and to no other. */
  lemma DecideWindows(cfg: Config, s: State, peer: Peer, validated: bool, now: int)
    ensures var (s', d) := Decide(cfg, s, peer, validated, now);
            if d.Retry? || d.Admit? then s'.windows == s.windows
            else
              var (w, notes) := Reject(s.windows[Index(d.reason)], peer, now);
              s'.windows == s.windows[Index(d.reason) := w] && d.records == Label(d.reason, notes)
  {
  }

  /** One event's effect on one window: at most one operation, and the notes of that operation. */
  lemma WindowStep(cfg: Config, s: State, ev: Event, reason: Reason)
    ensures var (s', o) := Step(cfg, s, ev); var i := Index(reason);
            if ev.Tick? then (s'.windows[i], NotesOf(RecordsOf(o), reason)) == Flush(s.windows[i], ev.now)
            else if RejectedFor(o, reason) then
              ev.Attempt? && (s'.windows[i], NotesOf(RecordsOf(o), reason)) == Reject(s.windows[i], ev.peer, ev.now)
            else s'.windows[i] == s.windows[i] && NotesOf(RecordsOf(o), reason) == []
  {
    match ev
    case Tick(now) => FlushOne(s.windows, now, 3, reason);
    case Release(_) =>
    case Attempt(peer, validated, now) =>
      DecideWindows(cfg, s, peer, validated, now);
      var d := Decide(cfg, s, peer, validated, now).1;
      if !d.Retry? && !d.Admit? {
        NotesOfLabel(d.reason, Reject(s.windows[Index(d.reason)], peer, now).1, reason);
      }
  }

  /** Each category's window and audit trail are those of its own operations. */
  lemma {:induction false} WindowIsOwn(cfg: Config, evs: seq<Event>, reason: Reason)
    ensures After(cfg, evs).windows[Index(reason)] == AuditWindows.State(WindowOps(cfg, evs, reason))
    ensures NotesOf(AuditTrail(cfg, evs), reason) == Notes(WindowOps(cfg, evs, reason))
  {
    if evs != [] {
      var front := R.Front(evs);
      WindowIsOwn(cfg, front, reason);
      WindowStep(cfg, After(cfg, front), R.Last(evs), reason);
      NotesOfAdd(AuditTrail(cfg, front), RecordsOf(OutcomeOf(cfg, evs)), reason);
      var ops, all := WindowOps(cfg, front, reason), WindowOps(cfg, evs, reason);
      if all != ops {
        assert all[..|all| - 1] == ops;
      }
    }
  }

  /** Attempts rejected for `reason` over a run. */
  function RejectedCount(cfg: Config, evs: seq<Event>, reason: Reason): nat {
    if evs == [] then 0
    else RejectedCount(cfg, R.Front(evs), reason)
         + if RejectedFor(OutcomeOf(cfg, evs), reason) then 1 else 0
  }

  lemma RejectionsAppend(ops: seq<Op>, ev: Event, o: Outcome, reason: Reason)
    requires o.Decided? ==> ev.Attempt?
    ensures Rejections(ops + OpsOf(ev, o, reason)) == Rejections(ops) + if RejectedFor(o, reason) then 1 else 0
  {
    var all := ops + OpsOf(ev, o, reason);
    if OpsOf(ev, o, reason) == [] {
      assert all == ops;
    } else {
      assert all[..|all| - 1] == ops;
    }
  }

  lemma {:induction false} RejectedAreOps(cfg: Config, evs: seq<Event>, reason: Reason)
    ensures RejectedCount(cfg, evs, reason) == Rejections(WindowOps(cfg, evs, reason))
  {
    if evs != [] {
      RejectedAreOps(cfg, R.Front(evs), reason);
      RejectionsAppend(WindowOps(cfg, R.Front(evs), reason), R.Last(evs), OutcomeOf(cfg, evs), reason);
    }
  }

  /**
    Audit conservation. In every reachable state, the rejections of a category
    are exactly its written occurrences, plus what its summaries add up to,
    plus what is being counted now; short only when a count was already full.
   */
  lemma AuditConservation(cfg: Config, evs: seq<Event>, reason: Reason)
    ensures var notes := NotesOf(AuditTrail(cfg, evs), reason);
            var lost := Lost(WindowOps(cfg, evs, reason));
            && RejectedCount(cfg, evs, reason) ==
               Occurrences(notes) + Summed(notes) + After(cfg, evs).windows[Index(reason)].suppressed + lost
            && (RejectedCount(cfg, evs, reason) <= U32_MAX + 1 ==> lost == 0)
            && Summaries(notes) <= Occurrences(notes)
  {
    WindowIsOwn(cfg, evs, reason);
    RejectedAreOps(cfg, evs, reason);
    Conservation(WindowOps(cfg, evs, reason));
    OpenMeansOccurred(WindowOps(cfg, evs, reason));
  }

  lemma {:induction false} OpsOrderly(cfg: Config, evs: seq<Event>, reason: Reason)
    requires Orderly(evs)
    ensures AuditWindows.Orderly(WindowOps(cfg, evs, reason))
    ensures forall i | 0 <= i < |WindowOps(cfg, evs, reason)| ::
              evs != [] && WindowOps(cfg, evs, reason)[i].now <= R.Last(evs).now
  {
    if evs != [] {
      OpsOrderly(cfg, R.Front(evs), reason);
    }
  }

  /** When the accept loop last ticked, counting the gate's creation as a tick. */
  function LastTick(evs: seq<Event>, born: int): int {
    if evs == [] then born
    else if R.Last(evs).Tick? then R.Last(evs).now
    else LastTick(R.Front(evs), born)
  }

  /** The accept loop ticks at least every aggregation window. */
  predicate Ticks(evs: seq<Event>, born: int) {
    forall i | 0 <= i < |evs| :: born <= evs[i].now <= LastTick(evs[..i], born) + AGGREGATION_WINDOW
  }

  lemma TicksFront(evs: seq<Event>, born: int)
    requires evs != [] && Ticks(evs, born)
    ensures Ticks(R.Front(evs), born)
  {
    var front := R.Front(evs);
    forall i | 0 <= i < |front|
      ensures born <= front[i].now <= LastTick(front[..i], born) + AGGREGATION_WINDOW
    {
      assert front[..i] == evs[..i];
    }
  }

  lemma TickingAppend(ops: seq<Op>, op: Op, born: int)
    requires Ticking(ops, born) && born <= op.now <= LastFlush(ops, born) + AGGREGATION_WINDOW
    ensures Ticking(ops + [op], born)
  {
    var all := ops + [op];
    forall i | 0 <= i < |all|
      ensures born <= all[i].now <= LastFlush(all[..i], born) + AGGREGATION_WINDOW
    {
      assert all[..i] == ops[..i];
      assert ops[..|ops|] == ops;
    }
  }

  lemma NothingTicks(born: int)
    ensures Ticking([], born)
  {
  }

  lemma {:induction false} OpsTick(cfg: Config, evs: seq<Event>, reason: Reason, born: int)
    requires Ticks(evs, born)
    ensures Ticking(WindowOps(cfg, evs, reason), born)
    ensures LastFlush(WindowOps(cfg, evs, reason), born) == LastTick(evs, born)
  {
    hide After, OutcomeOf, RejectedFor, Ticking;
    if evs == [] {
      assert Ticking([], born) by { NothingTicks(born); }
    } else {
      TicksFront(evs, born);
      OpsTick(cfg, R.Front(evs), reason, born);
      var ops, more := WindowOps(cfg, R.Front(evs), reason), OpsOf(R.Last(evs), OutcomeOf(cfg, evs), reason);
      if more == [] {
        assert WindowOps(cfg, evs, reason) == ops;
      } else {
        TickingAppend(ops, more[0], born);
        assert (ops + more)[..|ops + more| - 1] == ops;
      }
    }
  }

  /** In any run two written occurrences of a category are at least one aggregation window apart. */
  lemma AuditVolume(cfg: Config, evs: seq<Event>, reason: Reason, i: nat, j: nat)
    requires Orderly(evs) && i < j < |WindowOps(cfg, evs, reason)|
    requires Announces(WindowOps(cfg, evs, reason), i) && Announces(WindowOps(cfg, evs, reason), j)
    ensures WindowOps(cfg, evs, reason)[i].now + AGGREGATION_WINDOW <= WindowOps(cfg, evs, reason)[j].now
  {
    OpsOrderly(cfg, evs, reason);
    OccurrencesSpaced(WindowOps(cfg, evs, reason), i, j);
  }

  /** The window of a category after the first `n` events. */
  function WindowAt(cfg: Config, evs: seq<Event>, reason: Reason, n: nat): Window
    requires n <= |evs|
  {
    After(cfg, evs[..n]).windows[Index(reason)]
  }

  /** The attempt at `i` is rejected for `reason` and nothing is written about it. */
  predicate SilentlyRejected(cfg: Config, evs: seq<Event>, reason: Reason, i: nat)
    requires i < |evs|
  {
    RejectedFor(OutcomeOf(cfg, evs[..i + 1]), reason) && RecordsOf(OutcomeOf(cfg, evs[..i + 1])) == []
  }

  ghost predicate WindowCollects(cfg: Config, evs: seq<Event>, reason: Reason, i: nat, n: nat, start: int, floor: nat)
    requires n <= |evs|
  {
    forall k | i < k <= n :: Collecting(WindowAt(cfg, evs, reason, k), start, floor)
  }

  /** From `i` on the window collects, until `j` writes its summary. */
  ghost predicate SummaryWrittenAt(cfg: Config, evs: seq<Event>, reason: Reason, i: nat, j: nat)
    requires i < j < |evs|
  {
    var start, floor := WindowAt(cfg, evs, reason, i).start, WindowAt(cfg, evs, reason, i + 1).suppressed;
    && start.Some? && floor > 0
    && WindowCollects(cfg, evs, reason, i, j, start.value, floor)
    && AuditRecord(reason, Summary(WindowAt(cfg, evs, reason, j).suppressed)) in RecordsOf(OutcomeOf(cfg, evs[..j + 1]))
    && evs[j].now < start.value + 2 * AGGREGATION_WINDOW
  }

  lemma {:induction false} NoteIsRecorded(records: seq<AuditRecord>, reason: Reason, note: Note)
    requires note in NotesOf(records, reason)
    ensures AuditRecord(reason, note) in records
  {
    if R.Last(records) != AuditRecord(reason, note) {
      NoteIsRecorded(R.Front(records), reason, note);
    }
  }

  lemma {:induction false} TicksPrefix(evs: seq<Event>, born: int, n: nat)
    requires n <= |evs| && Ticks(evs, born) && Orderly(evs)
    ensures Ticks(evs[..n], born) && Orderly(evs[..n])
  {
    forall i | 0 <= i < n
      ensures evs[..n][..i] == evs[..i]
    {
    }
  }

  lemma WindowNext(cfg: Config, evs: seq<Event>, n: nat)
    requires n < |evs|
    ensures (After(cfg, evs[..n + 1]), OutcomeOf(cfg, evs[..n + 1])) == Step(cfg, After(cfg, evs[..n]), evs[n])
  {
    hide Step;
    assert R.Front(evs[..n + 1]) == evs[..n];
  }

  /** No window is two aggregation windows old at any moment the ticks cover. */
  lemma WindowIsYoung(cfg: Config, evs: seq<Event>, reason: Reason, born: int, now: int)
    requires Orderly(evs) && Ticks(evs, born) && now <= LastTick(evs, born) + AGGREGATION_WINDOW
    ensures var w := After(cfg, evs).windows[Index(reason)];
            w.start.Some? ==> now < w.start.value + 2 * AGGREGATION_WINDOW
  {
    WindowIsOwn(cfg, evs, reason);
    OpsOrderly(cfg, evs, reason);
    OpsTick(cfg, evs, reason, born);
    if After(cfg, evs).windows[Index(reason)].start.Some? {
      HeldBackBriefly(WindowOps(cfg, evs, reason), born, now);
    }
  }

  lemma CollectEvent(cfg: Config, s: State, ev: Event, reason: Reason, start: int, floor: nat)
    requires Collecting(s.windows[Index(reason)], start, floor) && 0 < floor <= U32_MAX
    ensures var (s', o) := Step(cfg, s, ev);
            || Collecting(s'.windows[Index(reason)], start, floor)
            || AuditRecord(reason, Summary(s.windows[Index(reason)].suppressed)) in RecordsOf(o)
  {
    hide Step;
    WindowStep(cfg, s, ev, reason);
    var w, o := s.windows[Index(reason)], Step(cfg, s, ev).1;
    if ev.Tick? || RejectedFor(o, reason) {
      var op := if ev.Tick? then Flushed(ev.now) else Rejected(ev.peer, ev.now);
      CollectOrSum(w, op, start, floor);
      if !StillOpen(w, ev.now) {
        NoteIsRecorded(RecordsOf(o), reason, Summary(w.suppressed));
      }
    }
  }

  lemma CollectAt(cfg: Config, evs: seq<Event>, reason: Reason, born: int, n: nat, start: int, floor: nat)
    requires Orderly(evs) && Ticks(evs, born) && n < |evs|
    requires Collecting(WindowAt(cfg, evs, reason, n), start, floor) && 0 < floor <= U32_MAX
    ensures evs[n].now < start + 2 * AGGREGATION_WINDOW
    ensures || Collecting(WindowAt(cfg, evs, reason, n + 1), start, floor)
            || AuditRecord(reason, Summary(WindowAt(cfg, evs, reason, n).suppressed)) in RecordsOf(OutcomeOf(cfg, evs[..n + 1]))
  {
    hide Step, After, OutcomeOf, RecordsOf;
    WindowNext(cfg, evs, n);
    CollectEvent(cfg, After(cfg, evs[..n]), evs[n], reason, start, floor);
    TicksPrefix(evs, born, n);
    WindowIsYoung(cfg, evs[..n], reason, born, evs[n].now);
  }

  /** After `n` events the window is still collecting, or `j` has written its summary. */
  lemma {:induction false} CollectsOrWritten(cfg: Config, evs: seq<Event>, reason: Reason, born: int, i: nat, n: nat, start: int, floor: nat) returns (j: nat)
    requires Orderly(evs) && Ticks(evs, born) && i < n <= |evs|
    requires WindowAt(cfg, evs, reason, i).start == Some(start) && floor == WindowAt(cfg, evs, reason, i + 1).suppressed
    requires Collecting(WindowAt(cfg, evs, reason, i + 1), start, floor) && 0 < floor <= U32_MAX
    ensures if j < n then i < j && SummaryWrittenAt(cfg, evs, reason, i, j)
            else WindowCollects(cfg, evs, reason, i, n, start, floor)
    decreases n
  {
    hide WindowAt, OutcomeOf, RecordsOf, Ticks, Orderly;
    j := n;
    if n > i + 1 {
      var j' := CollectsOrWritten(cfg, evs, reason, born, i, n - 1, start, floor);
      if j' < n - 1 {
        j := j';
      } else {
        assert Collecting(WindowAt(cfg, evs, reason, n - 1), start, floor);
        CollectAt(cfg, evs, reason, born, n - 1, start, floor);
        if !Collecting(WindowAt(cfg, evs, reason, n), start, floor) {
          j := n - 1;
        }
      }
    }
  }

  lemma SilentMeansCounted(cfg: Config, evs: seq<Event>, reason: Reason, i: nat)
    requires i < |evs| && SilentlyRejected(cfg, evs, reason, i)
    ensures var before, after := WindowAt(cfg, evs, reason, i), WindowAt(cfg, evs, reason, i + 1);
            before.start.Some? && after.start == before.start && 0 < after.suppressed <= U32_MAX
  {
    hide Step, After, OutcomeOf;
    WindowNext(cfg, evs, i);
    WindowStep(cfg, After(cfg, evs[..i]), evs[i], reason);
    WindowIsOwn(cfg, evs[..i], reason);
    Conservation(WindowOps(cfg, evs[..i], reason));
  }

  /**
    In any run that ticks at least every aggregation window, every rejection
    about which nothing was written is in a summary less than two aggregation
    windows after its window opened, by any moment that late which the ticks
    cover.
   */
  lemma AuditLatency(cfg: Config, evs: seq<Event>, reason: Reason, born: int, i: nat, now: int) returns (j: nat)
    requires Orderly(evs) && Ticks(evs, born) && i < |evs| && SilentlyRejected(cfg, evs, reason, i)
    requires now <= LastTick(evs, born) + AGGREGATION_WINDOW
    requires WindowAt(cfg, evs, reason, i).start.Some? ==>
               WindowAt(cfg, evs, reason, i).start.value + 2 * AGGREGATION_WINDOW <= now
    ensures i < j < |evs| && SummaryWrittenAt(cfg, evs, reason, i, j)
  {
    hide Step, After, OutcomeOf, RecordsOf;
    SilentMeansCounted(cfg, evs, reason, i);
    var start, floor := WindowAt(cfg, evs, reason, i).start.value, WindowAt(cfg, evs, reason, i + 1).suppressed;
    j := CollectsOrWritten(cfg, evs, reason, born, i, |evs|, start, floor);
    if j >= |evs| {
      assert Collecting(WindowAt(cfg, evs, reason, |evs|), start, floor);
      assert evs[..|evs|] == evs;
      WindowIsYoung(cfg, evs, reason, born, now);
      assert false;
    }
  }

  // ---- Counters ----

  function Attempts(evs: seq<Event>): nat {
    if evs == [] then 0 else Attempts(R.Front(evs)) + if R.Last(evs).Attempt? then 1 else 0
  }

  lemma StepCounters(cfg: Config, s: State, ev: Event)
    ensures var (s', o) := Step(cfg, s, ev);
            && s'.counters.retry == s.counters.retry + (if o == Decided(Retry) then 1 else 0)
            && s'.counters.ignore == s.counters.ignore + (if RejectedFor(o, RateLimited) then 1 else 0)
            && s'.counters.refuse == s.counters.refuse
               + (if RejectedFor(o, AtCapacity) then 1 else 0) + (if RejectedFor(o, ValidatedRateLimited) then 1 else 0)
            && s'.counters.admit == s.counters.admit + (if o == Decided(Admit) then 1 else 0)
            && s'.held <= s.held + (if o == Decided(Admit) then 1 else 0)
  {
  }

  /** The branch counters agree with the decisions they count and with the audit categories. */
  lemma {:induction false} CountersExact(cfg: Config, evs: seq<Event>)
    ensures var c := After(cfg, evs).counters;
            && c.ignore == RejectedCount(cfg, evs, RateLimited)
            && c.refuse == RejectedCount(cfg, evs, AtCapacity) + RejectedCount(cfg, evs, ValidatedRateLimited)
            && c.retry + c.ignore + c.refuse + c.admit == Attempts(evs)
            && After(cfg, evs).held <= c.admit
  {
    if evs != [] {
      CountersExact(cfg, R.Front(evs));
      StepCounters(cfg, After(cfg, R.Front(evs)), R.Last(evs));
    }
  }

  // ---- Non-interference ----

  /** The run without the attempts of the other side. */
  function Keep(evs: seq<Event>, validated: bool): seq<Event> {
    if evs == [] then []
    else if R.Last(evs).Attempt? && R.Last(evs).validated != validated then Keep(R.Front(evs), validated)
    else Keep(R.Front(evs), validated) + [R.Last(evs)]
  }

  /** What a side can see of an outcome: decisions on its own attempts and its own audit categories. */
  function Visible(ev: Event, o: Outcome, validated: bool): seq<(Outcome, seq<Note>, seq<Note>)> {
    if ev.Attempt? && ev.validated != validated then []
    else [(if ev.Attempt? then o else Done,
           if validated then NotesOf(RecordsOf(o), AtCapacity) else NotesOf(RecordsOf(o), RateLimited),
           if validated then NotesOf(RecordsOf(o), ValidatedRateLimited) else [])]
  }

  /** Everything a side sees over a run. */
  function Seen(cfg: Config, evs: seq<Event>, validated: bool): seq<(Outcome, seq<Note>, seq<Note>)> {
    if evs == [] then []
    else Seen(cfg, R.Front(evs), validated) + Visible(R.Last(evs), OutcomeOf(cfg, evs), validated)
  }

  /** The two states agree on everything one side's decisions depend on. */
  ghost predicate SameView(a: State, b: State, validated: bool) {
    if validated then
      && a.validated == b.validated && a.available == b.available && a.held == b.held
      && a.windows[Index(AtCapacity)] == b.windows[Index(AtCapacity)]
      && a.windows[Index(ValidatedRateLimited)] == b.windows[Index(ValidatedRateLimited)]
    else
      a.unvalidated == b.unvalidated && a.windows[Index(RateLimited)] == b.windows[Index(RateLimited)]
  }

  lemma OtherSideInvisible(cfg: Config, s: State, ev: Event, validated: bool)
    requires ev.Attempt? && ev.validated != validated
    ensures SameView(s, Step(cfg, s, ev).0, validated)
  {
  }

  lemma OwnSideAgrees(cfg: Config, a: State, b: State, ev: Event, validated: bool)
    requires SameView(a, b, validated)
    requires ev.Attempt? ==> ev.validated == validated
    ensures SameView(Step(cfg, a, ev).0, Step(cfg, b, ev).0, validated)
    ensures Visible(ev, Step(cfg, a, ev).1, validated) == Visible(ev, Step(cfg, b, ev).1, validated)
  {
    if ev.Tick? {
      forall reason: Reason
        ensures var (sa, oa) := Step(cfg, a, ev);
                (sa.windows[Index(reason)], NotesOf(RecordsOf(oa), reason)) == Flush(a.windows[Index(reason)], ev.now)
        ensures var (sb, ob) := Step(cfg, b, ev);
                (sb.windows[Index(reason)], NotesOf(RecordsOf(ob), reason)) == Flush(b.windows[Index(reason)], ev.now)
      {
        WindowStep(cfg, a, ev, reason);
        WindowStep(cfg, b, ev, reason);
      }
    }
  }

  /**
    Non-interference, both ways. Deleting every unvalidated attempt from a run
    changes no decision on a validated attempt, no validated audit note and no
    permit; deleting every validated attempt changes no decision on an
    unvalidated one and no unvalidated audit note.
   */
  lemma {:induction false} NonInterference(cfg: Config, evs: seq<Event>, validated: bool)
    ensures SameView(After(cfg, evs), After(cfg, Keep(evs, validated)), validated)
    ensures Seen(cfg, evs, validated) == Seen(cfg, Keep(evs, validated), validated)
  {
    if evs != [] {
      var front, ev := R.Front(evs), R.Last(evs);
      NonInterference(cfg, front, validated);
      if ev.Attempt? && ev.validated != validated {
        OtherSideInvisible(cfg, After(cfg, front), ev, validated);
      } else {
        OwnSideAgrees(cfg, After(cfg, front), After(cfg, Keep(front, validated)), ev, validated);
        assert R.Front(Keep(evs, validated)) == Keep(front, validated);
      }
    }
  }

  // ---- Sources that share a key ----

  /** The same run, sent from other addresses of the same keys. */
  predicate SameKeys(a: seq<Event>, b: seq<Event>) {
    |a| == |b| && forall i | 0 <= i < |a| ::
      if a[i].Attempt? then
        b[i].Attempt? && a[i].validated == b[i].validated && a[i].now == b[i].now
        && FromAddr(a[i].peer.ip) == FromAddr(b[i].peer.ip)
      else a[i] == b[i]
  }

  /** A decision without the addresses in its records. */
  datatype Verdict = Verdict(kind: nat, reason: Reason, records: nat)

  function VerdictOf(o: Outcome): Verdict {
    match o
    case Decided(Retry) => Verdict(0, RateLimited, 0)
    case Decided(Ignore(r, records)) => Verdict(1, r, |records|)
    case Decided(Refuse(r, records)) => Verdict(2, r, |records|)
    case Decided(Admit) => Verdict(3, RateLimited, 0)
    case Done => Verdict(4, RateLimited, 0)
    case Swept(records) => Verdict(5, RateLimited, |records|)
  }

  lemma DecideSameKey(cfg: Config, s: State, a: Peer, b: Peer, validated: bool, now: int)
    requires FromAddr(a.ip) == FromAddr(b.ip)
    ensures Decide(cfg, s, a, validated, now).0 == Decide(cfg, s, b, validated, now).0
    ensures VerdictOf(Decided(Decide(cfg, s, a, validated, now).1)) == VerdictOf(Decided(Decide(cfg, s, b, validated, now).1))
  {
  }

  /**
    Rotating through the addresses of one key (any addresses of one IPv6 /64,
    or an IPv4 address and its mapped form) buys nothing: the gate ends in the
    same state and every event has the same verdict.
   */
  lemma {:induction false} AddressesOfOneKeyAreOne(cfg: Config, a: seq<Event>, b: seq<Event>)
    requires SameKeys(a, b)
    ensures After(cfg, a) == After(cfg, b)
    ensures a != [] ==> VerdictOf(OutcomeOf(cfg, a)) == VerdictOf(OutcomeOf(cfg, b))
  {
    if a != [] {
      var ea, eb := R.Last(a), R.Last(b);
      AddressesOfOneKeyAreOne(cfg, R.Front(a), R.Front(b));
      if ea.Attempt? {
        DecideSameKey(cfg, After(cfg, R.Front(a)), ea.peer, eb.peer, ea.validated, ea.now);
      }
    }
  }

  // ---- Budgets ----

  /** The rate checks one side makes over a run. */
  function Checks(cfg: Config, evs: seq<Event>, validated: bool): seq<R.Attempt> {
    if evs == [] then []
    else if R.Last(evs).Attempt? && R.Last(evs).validated == validated then
      Checks(cfg, R.Front(evs), validated)
      + [R.Attempt(FromAddr(R.Last(evs).peer.ip), Since(R.Last(evs).now, cfg.origin))]
    else Checks(cfg, R.Front(evs), validated)
  }

  function SketchOf(s: State, validated: bool): Model { if validated then s.validated else s.unvalidated }

  function HashOf(cfg: Config, validated: bool): Hashes { if validated then cfg.validatedHash else cfg.hash }

  function RateOf(cfg: Config, validated: bool): nat { if validated then cfg.validatedRate else cfg.rate }

  lemma StepSketch(cfg: Config, s: State, ev: Event, validated: bool)
    ensures SketchOf(Step(cfg, s, ev).0, validated) ==
            if ev.Attempt? && ev.validated == validated then Recorded(cfg, SketchOf(s, validated), ev.peer, ev.now)
            else SketchOf(s, validated)
  {
  }

  lemma {:induction false} SketchIsHistory(cfg: Config, evs: seq<Event>, validated: bool)
    ensures SketchOf(After(cfg, evs), validated) == R.History(EPOCH, Checks(cfg, evs, validated))
  {
    if evs != [] {
      SketchIsHistory(cfg, R.Front(evs), validated);
      StepSketch(cfg, After(cfg, R.Front(evs)), R.Last(evs), validated);
      if R.Last(evs).Attempt? && R.Last(evs).validated == validated {
        assert R.Front(Checks(cfg, evs, validated)) == Checks(cfg, R.Front(evs), validated);
      }
    }
  }

  /** The attempt got past its rate check. */
  predicate PassedRateCheck(o: Outcome) {
    o.Decided? && (o.decision.Retry? || o.decision.Admit? || (o.decision.Refuse? && o.decision.reason == AtCapacity))
  }

  lemma StepPasses(cfg: Config, s: State, ev: Event)
    requires ev.Attempt?
    ensures var (s', o) := Step(cfg, s, ev); var m := SketchOf(s', ev.validated);
            && R.EpochOf(EPOCH, Since(ev.now, cfg.origin)) <= m.index
            && (PassedRateCheck(o) <==>
                !Exceeded(cfg, HashOf(cfg, ev.validated), RateOf(cfg, ev.validated), m, ev.peer, ev.now))
  {
  }

  lemma ExceededIsNotPasses(cfg: Config, h: Hashes, rate: nat, run: seq<R.Attempt>, peer: Peer, now: int)
    requires run != [] && R.Last(run) == R.Attempt(FromAddr(peer.ip), Since(now, cfg.origin))
    requires R.EpochOf(EPOCH, Since(now, cfg.origin)) <= R.History(EPOCH, run).index
    ensures R.Passes(h, EPOCH, rate, run) <==> !Exceeded(cfg, h, rate, R.History(EPOCH, run), peer, now)
  {
  }

  lemma PassedIffPasses(cfg: Config, evs: seq<Event>, validated: bool)
    requires evs != [] && R.Last(evs).Attempt? && R.Last(evs).validated == validated
    ensures Checks(cfg, evs, validated) != []
    ensures PassedRateCheck(OutcomeOf(cfg, evs)) <==>
            R.Passes(HashOf(cfg, validated), EPOCH, RateOf(cfg, validated), Checks(cfg, evs, validated))
  {
    var ev := R.Last(evs);
    SketchIsHistory(cfg, evs, validated);
    StepPasses(cfg, After(cfg, R.Front(evs)), ev);
    ExceededIsNotPasses(cfg, HashOf(cfg, validated), RateOf(cfg, validated), Checks(cfg, evs, validated), ev.peer, ev.now);
  }

  /** The last attempt's rate check passes in the limiter's model. */
  predicate LastPasses(cfg: Config, evs: seq<Event>)
    requires evs != [] && R.Last(evs).Attempt?
  {
    var v := R.Last(evs).validated;
    var run := Checks(cfg, evs, v);
    run != [] && R.Passes(HashOf(cfg, v), EPOCH, RateOf(cfg, v), run)
  }

  lemma DecideExactly(cfg: Config, s: State, peer: Peer, validated: bool, now: int)
    ensures var d := Decide(cfg, s, peer, validated, now).1; var pass := PassedRateCheck(Decided(d));
            && (d.Retry? <==> !validated && pass) && (d.Ignore? <==> !validated && !pass)
            && (d.Admit? <==> validated && pass && s.available > 0)
            && (d.Refuse? <==> validated && (!pass || s.available == 0))
            && (d.Ignore? ==> d.reason == RateLimited)
            && (d.Refuse? ==> d.reason == if pass then AtCapacity else ValidatedRateLimited)
  {
    hide Exceeded, Recorded, Reject, Label;
  }

  /**
    Which decision an attempt gets, in any run: an unvalidated one is answered
    with a Retry while its rate check passes and ignored otherwise; a validated
    one is admitted exactly when its rate check passes and a permit is free,
    and refused otherwise, for its rate first.
   */
  lemma DecisionExactly(cfg: Config, evs: seq<Event>)
    requires evs != [] && R.Last(evs).Attempt?
    ensures var v, d := R.Last(evs).validated, OutcomeOf(cfg, evs).decision;
            var pass, full := LastPasses(cfg, evs), After(cfg, R.Front(evs)).held == cfg.permits;
            && (d.Retry? <==> !v && pass) && (d.Ignore? <==> !v && !pass)
            && (d.Admit? <==> v && pass && !full)
            && (d.Refuse? <==> v && (!pass || full))
            && (d.Ignore? ==> d.reason == RateLimited)
            && (d.Refuse? ==> d.reason == if pass then AtCapacity else ValidatedRateLimited)
  {
    hide Decide, PassedRateCheck, Checks;
    var s, ev := After(cfg, R.Front(evs)), R.Last(evs);
    PermitsConserved(cfg, R.Front(evs));
    PassedIffPasses(cfg, evs, ev.validated);
    DecideExactly(cfg, s, ev.peer, ev.validated, ev.now);
  }

  predicate PassedFor(cfg: Config, ev: Event, o: Outcome, validated: bool, key: SourceKey, epoch: int) {
    && ev.Attempt? && ev.validated == validated && FromAddr(ev.peer.ip) == key
    && R.EpochOf(EPOCH, Since(ev.now, cfg.origin)) == epoch && PassedRateCheck(o)
  }

  /** How many attempts of `key` got past the rate check in `epoch`. */
  function PassedCount(cfg: Config, evs: seq<Event>, validated: bool, key: SourceKey, epoch: int): nat {
    if evs == [] then 0
    else PassedCount(cfg, R.Front(evs), validated, key, epoch)
         + if PassedFor(cfg, R.Last(evs), OutcomeOf(cfg, evs), validated, key, epoch) then 1 else 0
  }

  lemma PassCountNext(h: Hashes, rate: nat, run: seq<R.Attempt>, key: SourceKey, epoch: int)
    requires run != []
    ensures R.PassCount(h, EPOCH, rate, run, key, epoch) == R.PassCount(h, EPOCH, rate, R.Front(run), key, epoch)
            + if R.Last(run).key == key && R.EpochOf(EPOCH, R.Last(run).at) == epoch && R.Passes(h, EPOCH, rate, run) then 1 else 0
  {
    hide R.Passes, R.EpochOf;
  }

  lemma ChecksNext(cfg: Config, evs: seq<Event>)
    requires evs != [] && R.Last(evs).Attempt?
    ensures var ev := R.Last(evs); var run := Checks(cfg, evs, ev.validated);
            && run != [] && R.Front(run) == Checks(cfg, R.Front(evs), ev.validated)
            && R.Last(run) == R.Attempt(FromAddr(ev.peer.ip), Since(ev.now, cfg.origin))
  {
    hide FromAddr, Since;
  }

  lemma {:induction false} PassedCountIsPassCount(cfg: Config, evs: seq<Event>, validated: bool, key: SourceKey, epoch: int)
    ensures PassedCount(cfg, evs, validated, key, epoch) ==
            R.PassCount(HashOf(cfg, validated), EPOCH, RateOf(cfg, validated), Checks(cfg, evs, validated), key, epoch)
  {
    hide After, OutcomeOf, PassedRateCheck, HashOf, RateOf, FromAddr, Since;
    hide R.Passes, R.PassCount, R.EpochOf;
    if evs == [] {
      assert R.PassCount(HashOf(cfg, validated), EPOCH, RateOf(cfg, validated), [], key, epoch) == 0 by {
        NoPasses(HashOf(cfg, validated), RateOf(cfg, validated), key, epoch);
      }
    } else {
      var ev := R.Last(evs);
      PassedCountIsPassCount(cfg, R.Front(evs), validated, key, epoch);
      if ev.Attempt? && ev.validated == validated {
        PassedIffPasses(cfg, evs, validated);
        ChecksNext(cfg, evs);
        PassCountNext(HashOf(cfg, validated), RateOf(cfg, validated), Checks(cfg, evs, validated), key, epoch);
      }
    }
  }

  lemma NoPasses(h: Hashes, rate: nat, key: SourceKey, epoch: int)
    ensures R.PassCount(h, EPOCH, rate, [], key, epoch) == 0
  {
  }

  lemma {:induction false} ChecksOrderly(cfg: Config, evs: seq<Event>, validated: bool)
    requires Orderly(evs)
    ensures R.NonDecreasing(Checks(cfg, evs, validated))
    ensures forall i | 0 <= i < |Checks(cfg, evs, validated)| ::
              evs != [] && Checks(cfg, evs, validated)[i].at <= Since(R.Last(evs).now, cfg.origin)
  {
    if evs != [] {
      ChecksOrderly(cfg, R.Front(evs), validated);
    }
  }

  /**
    In any run, among any other traffic, one source gets at most `rate x 2`
    Retry packets out of the gate in any epoch, and at most
    `validated rate x 2` of its validated attempts compete for a permit.
   */
  lemma SourceBudget(cfg: Config, evs: seq<Event>, validated: bool, key: SourceKey, epoch: int)
    requires Orderly(evs)
    requires NoWrap(HashOf(cfg, validated), SketchOf(After(cfg, evs), validated).log)
    ensures PassedCount(cfg, evs, validated, key, epoch) <= R.BurstLimit(RateOf(cfg, validated)) <= 2 * RateOf(cfg, validated)
  {
    PassedCountIsPassCount(cfg, evs, validated, key, epoch);
    SketchIsHistory(cfg, evs, validated);
    ChecksOrderly(cfg, evs, validated);
    R.EpochBudget(HashOf(cfg, validated), EPOCH, RateOf(cfg, validated), Checks(cfg, evs, validated), key, epoch);
  }
}
