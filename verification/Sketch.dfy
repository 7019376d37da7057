/**
  The sketch itself (crates/qsh-core/src/admission.rs, `Sketch`): a fixed table
  of 32-bit counters, two generations per row, updated in place. `log` is the
  history the table stands for; `Valid` says which sums of it each cell holds.
 */
module Sketches {
  import opened SourceKeys
  import opened SketchModel

  class Sketch {
    const hash: Hashes
    /** Counters by row, generation and column. Allocated once; never grows. */
    const table: array3<nat>
    var index: nat
    ghost var log: seq<Hit>

    ghost function Abs(): Model
      reads this
    {
      Model(index, log)
    }

    ghost predicate Shape() {
      table.Length0 == ROWS && table.Length1 == 2 && table.Length2 == COLS
    }

    /**
      Every cell of the current generation holds the number of events of epoch
      `index` whose key hashes there, and every cell of the other generation
      that number for epoch `index - 1`, both modulo 2^32.
     */
    ghost predicate Valid()
      reads this, table
    {
      && Shape()
      && WellFormed(Abs())
      && (forall r, g, c | 0 <= r < ROWS && 0 <= g < 2 && 0 <= c < COLS ::
            table[r, g, c] == CellCount(hash, log, r, c, Held(index, g)) % U32)
    }

    constructor (hash: Hashes)
      ensures Valid() && fresh(table)
      ensures this.hash == hash && Abs() == EMPTY
    {
      this.hash := hash;
      table := new nat[ROWS, 2, COLS]((_, _, _) => 0);
      index := 0;
      log := [];
    }

    method ClearGeneration(row: nat, gen: nat)
      requires Shape() && row < ROWS && gen < 2
      modifies table
      ensures forall c | 0 <= c < COLS :: table[row, gen, c] == 0
      ensures forall r, g, c | 0 <= r < ROWS && 0 <= g < 2 && 0 <= c < COLS && (r != row || g != gen) ::
                table[r, g, c] == old(table[r, g, c])
    {
      for col := 0 to COLS
        invariant forall c | 0 <= c < col :: table[row, gen, c] == 0
        invariant forall r, g, c | 0 <= r < ROWS && 0 <= g < 2 && 0 <= c < COLS && (r != row || g != gen) ::
                    table[r, g, c] == old(table[r, g, c])
      {
        table[row, gen, col] := 0;
      }
    }

    /**
      Moves the epoch pointer to `target`, clearing one generation when the
      gap is a single epoch and both when it is longer. Recorded history is
      not lost: the cells still hold what `Valid` says for the new pointer.
     */
    method AdvanceTo(target: nat)
      requires Valid()
      modifies this`index, table
      ensures Valid()
      ensures index == Max(old(index), target) && log == old(log)
    {
      if target <= index {
        return;
      }
      var gap := target - index;
      for row := 0 to ROWS
        invariant index == old(index)
        invariant forall r, g, c | 0 <= r < row && 0 <= g < 2 && 0 <= c < COLS && (gap > 1 || g == target % 2) ::
                    table[r, g, c] == 0
        invariant forall r, g, c | 0 <= r < ROWS && 0 <= g < 2 && 0 <= c < COLS && (row <= r || (gap == 1 && g != target % 2)) ::
                    table[r, g, c] == old(table[r, g, c])
      {
        if gap == 1 {
          ClearGeneration(row, target % 2);
        } else {
          ClearGeneration(row, 0);
          ClearGeneration(row, 1);
        }
      }
      forall r, g, c | 0 <= r < ROWS && 0 <= g < 2 && 0 <= c < COLS
        ensures table[r, g, c] == CellCount(hash, log, r, c, Held(target, g)) % U32
      {
        if gap > 1 || g == target % 2 {
          CellCountOutside(hash, log, r, c, Held(target, g));
        } else {
          assert Held(target, g) == Held(index, g);
        }
      }
      index := target;
    }

    /** The table holds `after` in the rows below `row` and `before` in the others. */
    ghost predicate Holds(before: seq<Hit>, after: seq<Hit>, row: int)
      requires Shape()
      reads this, table
    {
      forall r, g, c | 0 <= r < ROWS && 0 <= g < 2 && 0 <= c < COLS ::
        table[r, g, c] == CellCount(hash, if r < row then after else before, r, c, Held(index, g)) % U32
    }

    /** One row's share of an event: a fetch-and-add in its generation and a read of the other. */
    method HitRow(row: nat, key: SourceKey, gen: nat, ghost before: seq<Hit>, ghost after: seq<Hit>)
      returns (newCurrent: nat, previous: nat)
      requires Shape() && row < ROWS && gen < 2 && Holds(before, after, row)
      requires 0 <= Held(index, gen) && after == before + [Hit(key, Held(index, gen))]
      modifies table
      ensures Holds(before, after, row + 1)
      ensures newCurrent == CellCount(hash, after, row, Column(hash, row, key), Held(index, gen)) % U32
      ensures previous == CellCount(hash, after, row, Column(hash, row, key), Held(index, 1 - gen)) % U32
    {
      var col := Column(hash, row, key);
      newCurrent := (table[row, gen, col] + 1) % U32;
      table[row, gen, col] := newCurrent;
      previous := table[row, 1 - gen, col];
      forall g, c | 0 <= g < 2 && 0 <= c < COLS
        ensures table[row, g, c] == CellCount(hash, after, row, c, Held(index, g)) % U32
      {
        CellCountAppend(hash, before, Hit(key, Held(index, gen)), row, c, Held(index, g));
      }
    }

    /**
      Records one event and reads the estimate. The result is exactly the
      reference estimate over the whole history, whatever epoch the caller
      carries, current or stale.
     */
    method RecordAndEstimate(key: SourceKey, epoch: nat, pos: nat, len: nat) returns (estimate: nat)
      requires Valid() && pos < len
      modifies this, table
      ensures Valid()
      ensures Abs() == Record(old(Abs()), key, epoch)
      ensures estimate == Estimate(hash, Abs(), key, epoch, pos, len)
    {
      AdvanceTo(epoch);
      ghost var before, after := log, log + [Hit(key, Landing(index, epoch))];
      estimate := U32 - 1;
      for row := 0 to ROWS
        invariant index == Max(old(index), epoch) && log == before
        invariant estimate == Estimate(hash, Model(index, after), key, epoch, pos, len, row)
        invariant Holds(before, after, row)
      {
        var newCurrent, previous := HitRow(row, key, epoch % 2, before, after);
        estimate := Min(estimate, Blend(newCurrent, previous, pos, len));
      }
      log := after;
    }
  }
}
