/**
  The sketch under concurrency (crates/qsh-core/src/admission.rs, `advance_to`
  racing `record_and_estimate`): the epoch pointer moves under a mutex, one
  counter cleared at a time, while other threads go on incrementing counters
  without the mutex, possibly for an epoch that is already over.

  A run is any interleaving of atomic steps of any number of threads. `made`
  is the full record of increments; what is proved compares it with the table.
 */
module SketchRace {
  import opened Options
  import opened SketchModel

  datatype Cell = Cell(row: nat, gen: nat, col: nat)

  datatype Pc =
    | Ready                         // about to take the epoch mutex
    | Clearing(pending: seq<Cell>)  // holds the mutex, clearing stale counters
    | Hitting(row: nat)             // past `advance_to`; `row` is incremented next

  /** A caller of `record_and_estimate`: the epoch it computed and its key's column in each row. */
  datatype Thread = Thread(epoch: nat, cols: seq<nat>, pc: Pc)

  /** One increment. `during` is the pointer's value, or the value it is being moved to. */
  datatype Made = Made(epoch: nat, row: nat, col: nat, during: nat)

  datatype State = State(
    index: nat,
    owner: Option<nat>,
    cells: Cell -> nat,
    threads: map<nat, Thread>,
    made: seq<Made>)

  datatype Step =
    | Spawn(id: nat, epoch: nat, cols: seq<nat>)
    | Enter(id: nat)
    | Clear(id: nat)
    | Publish(id: nat)
    | Increment(id: nat)

  predicate IsCell(c: Cell) { c.row < ROWS && c.gen < 2 && c.col < COLS }

  // ---- Steps ----

  function RowCells(row: nat, gen: nat): seq<Cell> {
    seq(COLS, col requires 0 <= col => Cell(row, gen, col))
  }

  /** The counters `advance_to` clears on the way from `index` to `target`, in its order, from `row` on. */
  function ToClear(index: nat, target: nat, row: nat): seq<Cell>
    requires row <= ROWS
    decreases ROWS - row
  {
    if row == ROWS then []
    else (if target - index == 1 then RowCells(row, target % 2) else RowCells(row, 0) + RowCells(row, 1))
         + ToClear(index, target, row + 1)
  }

  /** Where the pointer stands, or will once the mutex holder is done. */
  function Ahead(s: State): nat {
    if s.owner.Some? && s.owner.value in s.threads then s.threads[s.owner.value].epoch else s.index
  }

  predicate Enabled(s: State, step: Step) {
    match step
    case Spawn(id, _, cols) => id !in s.threads && |cols| == ROWS && forall r | 0 <= r < ROWS :: cols[r] < COLS
    case Enter(id) => id in s.threads && s.threads[id].pc.Ready? && s.owner.None?
    case Clear(id) => id in s.threads && s.threads[id].pc.Clearing? && s.threads[id].pc.pending != []
    case Publish(id) => id in s.threads && s.threads[id].pc.Clearing? && s.threads[id].pc.pending == []
    case Increment(id) => id in s.threads && s.threads[id].pc.Hitting? && s.threads[id].pc.row < |s.threads[id].cols|
  }

  function Moved(s: State, id: nat, pc: Pc): map<nat, Thread>
    requires id in s.threads
  {
    s.threads[id := s.threads[id].(pc := pc)]
  }

  function Apply(s: State, step: Step): State
    requires Enabled(s, step)
  {
    match step
    case Spawn(id, epoch, cols) => s.(threads := s.threads[id := Thread(epoch, cols, Ready)])
    case Enter(id) =>
      var target := s.threads[id].epoch;
      if target <= s.index then s.(threads := Moved(s, id, Hitting(0)))
      else s.(owner := Some(id), threads := Moved(s, id, Clearing(ToClear(s.index, target, 0))))
    case Clear(id) =>
      var pending := s.threads[id].pc.pending;
      s.(cells := c => if c == pending[0] then 0 else s.cells(c),
         threads := Moved(s, id, Clearing(pending[1..])))
    case Publish(id) =>
      s.(index := s.threads[id].epoch, owner := None, threads := Moved(s, id, Hitting(0)))
    case Increment(id) =>
      var t := s.threads[id];
      var at := Cell(t.pc.row, t.epoch % 2, t.cols[t.pc.row]);
      s.(cells := c => if c == at then s.cells(c) + 1 else s.cells(c),
         threads := Moved(s, id, Hitting(t.pc.row + 1)),
         made := s.made + [Made(t.epoch, t.pc.row, t.cols[t.pc.row], Ahead(s))])
  }

  ghost predicate Reaches(s: State, steps: seq<Step>, s': State)
    decreases steps
  {
    if steps == [] then s == s'
    else Enabled(s, steps[0]) && Reaches(Apply(s, steps[0]), steps[1..], s')
  }

  const INITIAL := State(0, None, _ => 0, map[], [])

  // ---- What the table is measured against ----

  /** Increments of `c` by callers of epoch `epoch`. */
  function Counted(made: seq<Made>, c: Cell, epoch: int): nat {
    if made == [] then 0
    else
      var m := made[|made| - 1];
      Counted(made[..|made| - 1], c, epoch)
      + if m.epoch == epoch && m.row == c.row && m.col == c.col then 1 else 0
  }

  /**
    Increments of `c` by callers of an older epoch of the same parity, made
    once the pointer had left that epoch's neighbourhood for `epoch`.
   */
  function Late(made: seq<Made>, c: Cell, epoch: int): nat {
    if made == [] then 0
    else
      var m := made[|made| - 1];
      Late(made[..|made| - 1], c, epoch)
      + if m.epoch < epoch <= m.during && m.epoch % 2 == c.gen && m.row == c.row && m.col == c.col then 1 else 0
  }

  /** `c` counts every increment of `epoch`, and beyond those only late ones. */
  ghost predicate Tight(s: State, c: Cell, epoch: int) {
    Counted(s.made, c, epoch) <= s.cells(c) <= Counted(s.made, c, epoch) + Late(s.made, c, epoch)
  }

  // ---- The invariant ----

  /** The mutex holder is about to clear, or has cleared, `c`. */
  ghost predicate Doomed(s: State, c: Cell) {
    Ahead(s) > s.index && (Ahead(s) - s.index > 1 || c.gen == Ahead(s) % 2)
  }

  ghost predicate Pending(s: State, c: Cell) {
    s.owner.Some? && s.owner.value in s.threads
    && s.threads[s.owner.value].pc.Clearing? && c in s.threads[s.owner.value].pc.pending
  }

  ghost predicate CellOk(s: State, c: Cell) {
    var held := Held(Ahead(s), c.gen);
    if Doomed(s, c) then Pending(s, c) || s.cells(c) <= Late(s.made, c, held)
    else Tight(s, c, held)
  }

  ghost predicate ThreadOk(s: State, id: nat)
    requires id in s.threads
  {
    var t := s.threads[id];
    && |t.cols| == ROWS
    && (forall r | 0 <= r < ROWS :: t.cols[r] < COLS)
    && (t.pc.Hitting? ==> t.epoch <= s.index)
    && (t.pc.Clearing? <==> s.owner == Some(id))
    && (t.pc.Clearing? ==> s.index < t.epoch)
  }

  ghost predicate Inv(s: State) {
    && (s.owner.Some? ==> s.owner.value in s.threads)
    && (forall id | id in s.threads :: ThreadOk(s, id))
    && (forall i | 0 <= i < |s.made| :: s.made[i].epoch <= s.index)
    && (forall c | Pending(s, c) :: Doomed(s, c))
    && (forall c | IsCell(c) :: CellOk(s, c))
  }

  lemma {:induction false} NoneCountedAhead(made: seq<Made>, index: nat, c: Cell, epoch: int)
    requires forall i | 0 <= i < |made| :: made[i].epoch <= index
    requires index < epoch
    ensures Counted(made, c, epoch) == 0
  {
    if made != [] {
      NoneCountedAhead(made[..|made| - 1], index, c, epoch);
    }
  }

  lemma MadeAppend(made: seq<Made>, m: Made, c: Cell, epoch: int)
    ensures Counted(made + [m], c, epoch) == Counted(made, c, epoch)
            + if m.epoch == epoch && m.row == c.row && m.col == c.col then 1 else 0
    ensures Late(made + [m], c, epoch) == Late(made, c, epoch)
            + if m.epoch < epoch <= m.during && m.epoch % 2 == c.gen && m.row == c.row && m.col == c.col then 1 else 0
  {
    assert (made + [m])[..|made|] == made;
  }

  /** `advance_to` misses no counter that has gone stale. */
  lemma {:induction false} ToClearIsAll(index: nat, target: nat, row: nat, c: Cell)
    requires row <= ROWS && index < target && IsCell(c) && row <= c.row
    requires target - index > 1 || c.gen == target % 2
    ensures c in ToClear(index, target, row)
    decreases ROWS - row
  {
    if c.row > row {
      ToClearIsAll(index, target, row + 1, c);
    } else {
      assert RowCells(row, c.gen)[c.col] == c;
    }
  }

  /** ... and clears no other. */
  lemma {:induction false} ToClearIsOnly(index: nat, target: nat, row: nat, c: Cell)
    requires row <= ROWS && index < target && c in ToClear(index, target, row)
    ensures target - index > 1 || c.gen == target % 2
    decreases ROWS - row
  {
    if c in ToClear(index, target, row + 1) {
      ToClearIsOnly(index, target, row + 1, c);
    }
  }

  lemma SpawnKeeps(s: State, step: Step)
    requires Inv(s) && Enabled(s, step) && step.Spawn?
    ensures Inv(Apply(s, step))
  {
    var s' := Apply(s, step);
    forall c | IsCell(c)
      ensures CellOk(s', c)
    {
      assert CellOk(s, c);
    }
    forall c | Pending(s', c)
      ensures Doomed(s', c)
    {
      assert Pending(s, c);
    }
  }

  lemma EnterKeeps(s: State, step: Step)
    requires Inv(s) && Enabled(s, step) && step.Enter?
    ensures Inv(Apply(s, step))
  {
    var s' := Apply(s, step);
    var target := s.threads[step.id].epoch;
    forall c | IsCell(c)
      ensures CellOk(s', c)
    {
      assert CellOk(s, c);
      if Doomed(s', c) {
        ToClearIsAll(s.index, target, 0, c);
      } else {
        assert Held(Ahead(s'), c.gen) == Held(Ahead(s), c.gen);
      }
    }
    forall c | Pending(s', c)
      ensures Doomed(s', c)
    {
      ToClearIsOnly(s.index, target, 0, c);
    }
  }

  lemma ClearKeeps(s: State, step: Step)
    requires Inv(s) && Enabled(s, step) && step.Clear?
    ensures Inv(Apply(s, step))
  {
    var s' := Apply(s, step);
    var pending := s.threads[step.id].pc.pending;
    assert ThreadOk(s, step.id);
    assert Pending(s, pending[0]);
    forall c | IsCell(c)
      ensures CellOk(s', c)
    {
      assert CellOk(s, c);
    }
    forall c | Pending(s', c)
      ensures Doomed(s', c)
    {
      assert Pending(s, c);
    }
  }

  lemma PublishKeeps(s: State, step: Step)
    requires Inv(s) && Enabled(s, step) && step.Publish?
    ensures Inv(Apply(s, step))
  {
    var s' := Apply(s, step);
    forall c | IsCell(c)
      ensures CellOk(s', c)
    {
      assert CellOk(s, c);
      if Doomed(s, c) {
        NoneCountedAhead(s.made, s.index, c, Held(Ahead(s), c.gen));
      }
    }
  }

  lemma IncrementKeepsCell(s: State, step: Step, c: Cell)
    requires Inv(s) && Enabled(s, step) && step.Increment? && IsCell(c)
    ensures CellOk(Apply(s, step), c)
  {
    var t := s.threads[step.id];
    assert ThreadOk(s, step.id) && CellOk(s, c);
    MadeAppend(s.made, Made(t.epoch, t.pc.row, t.cols[t.pc.row], Ahead(s)), c, Held(Ahead(s), c.gen));
  }

  lemma IncrementKeeps(s: State, step: Step)
    requires Inv(s) && Enabled(s, step) && step.Increment?
    ensures Inv(Apply(s, step))
  {
    var s' := Apply(s, step);
    forall c | IsCell(c)
      ensures CellOk(s', c)
    {
      IncrementKeepsCell(s, step, c);
    }
    forall c | Pending(s', c)
      ensures Doomed(s', c)
    {
      assert Pending(s, c);
    }
  }

  lemma {:induction false} InvariantOverRuns(s: State, steps: seq<Step>, s': State)
    requires Inv(s) && Reaches(s, steps, s')
    ensures Inv(s')
    decreases steps
  {
    if steps != [] {
      match steps[0] {
        case Spawn(_, _, _) => SpawnKeeps(s, steps[0]);
        case Enter(_) => EnterKeeps(s, steps[0]);
        case Clear(_) => ClearKeeps(s, steps[0]);
        case Publish(_) => PublishKeeps(s, steps[0]);
        case Increment(_) => IncrementKeeps(s, steps[0]);
      }
      InvariantOverRuns(Apply(s, steps[0]), steps[1..], s');
    }
  }

  /**
    In every reachable state in which nobody holds the mutex, each counter of
    the current and of the previous epoch holds all increments made for that
    epoch, and nothing more than those plus late increments by callers of an
    older epoch.
   */
  lemma NothingUndercounted(steps: seq<Step>, s: State, row: nat, col: nat, epoch: int)
    requires Reaches(INITIAL, steps, s) && s.owner.None?
    requires row < ROWS && col < COLS && s.index - 1 <= epoch <= s.index
    ensures var c := Cell(row, epoch % 2, col);
            Counted(s.made, c, epoch) <= s.cells(c) <= Counted(s.made, c, epoch) + Late(s.made, c, epoch)
  {
    InvariantOverRuns(INITIAL, steps, s);
    var c := Cell(row, epoch % 2, col);
    assert IsCell(c) && CellOk(s, c);
  }

  /**
    What an increment gives back, even while an advance is clearing cells: a
    caller whose epoch is the pointer's, or the one before, gets at least the
    number of increments made for its epoch, its own included.
   */
  lemma CallerSeesItsEpoch(steps: seq<Step>, s: State, id: nat)
    requires Reaches(INITIAL, steps, s) && Enabled(s, Increment(id)) && s.threads[id].epoch >= Ahead(s) - 1
    ensures var t := s.threads[id]; var s' := Apply(s, Increment(id));
            var c := Cell(t.pc.row, t.epoch % 2, t.cols[t.pc.row]);
            && Counted(s'.made, c, t.epoch) == Counted(s.made, c, t.epoch) + 1
            && Counted(s'.made, c, t.epoch) <= s'.cells(c) == s.cells(c) + 1
  {
    InvariantOverRuns(INITIAL, steps, s);
    assert ThreadOk(s, id);
    var t := s.threads[id];
    var c := Cell(t.pc.row, t.epoch % 2, t.cols[t.pc.row]);
    KeptWhole(s, c, t.epoch);
    hide Inv, ThreadOk, Ahead, Counted, Late;
    MadeAppend(s.made, Made(t.epoch, t.pc.row, t.cols[t.pc.row], Ahead(s)), c, t.epoch);
  }

  /** A cell of the pointer's epoch or the one before, as far as they have been reached, is not being cleared. */
  lemma KeptWhole(s: State, c: Cell, epoch: nat)
    requires Inv(s) && IsCell(c) && c.gen == epoch % 2 && Ahead(s) - 1 <= epoch <= s.index
    ensures Counted(s.made, c, epoch) <= s.cells(c)
  {
    assert CellOk(s, c);
    assert s.owner.Some? ==> ThreadOk(s, s.owner.value);
    hide Counted, Late, ThreadOk;
  }

  /** Without late callers the table is exact. */
  lemma ExactWithoutLateCallers(steps: seq<Step>, s: State, row: nat, col: nat, epoch: int)
    requires Reaches(INITIAL, steps, s) && s.owner.None?
    requires row < ROWS && col < COLS && s.index - 1 <= epoch <= s.index
    requires forall i | 0 <= i < |s.made| :: s.made[i].during - 1 <= s.made[i].epoch
    ensures var c := Cell(row, epoch % 2, col);
            s.cells(c) == Counted(s.made, c, epoch)
  {
    NothingUndercounted(steps, s, row, col, epoch);
    NoLate(s.made, Cell(row, epoch % 2, col), epoch);
  }

  lemma {:induction false} NoLate(made: seq<Made>, c: Cell, epoch: int)
    requires forall i | 0 <= i < |made| :: made[i].during - 1 <= made[i].epoch
    requires c.gen == epoch % 2
    ensures Late(made, c, epoch) == 0
  {
    if made != [] {
      NoLate(made[..|made| - 1], c, epoch);
    }
  }
}
