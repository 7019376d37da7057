/**
  What the two-generation count-min sketch of crates/qsh-core/src/admission.rs
  stands for: the plain history of recorded events, counted per key or per
  column and per epoch. Time is an exact number of ticks; an epoch is `len`
  ticks long, and `pos` is how many ticks of the current epoch have passed.
 */
module SketchModel {
  import opened SourceKeys
  import opened Arithmetic

  const ROWS := 4
  const COLS := 1024
  const U32 := 0x1_0000_0000

  /** Each row's independently seeded hash: any function at all. */
  type Hashes = (nat, SourceKey) -> nat

  function Column(h: Hashes, row: nat, key: SourceKey): (col: nat)
    ensures col < COLS
  {
    h(row, key) % COLS
  }

  /** Keys share a column exactly when their hashes agree modulo the number of columns. */
  lemma ColumnsShared(h: Hashes, row: nat, a: SourceKey, b: SourceKey)
    ensures Column(h, row, a) == Column(h, row, b) <==> exists k: int :: h(row, a) == h(row, b) + k * COLS
  {
    var x, y := h(row, a), h(row, b);
    assert x == x / COLS * COLS + x % COLS && y == y / COLS * COLS + y % COLS;
    if x % COLS == y % COLS {
      assert x == y + (x / COLS - y / COLS) * COLS;
    }
  }

  /** One recorded event: its key and the epoch whose counters it went into. */
  datatype Hit = Hit(key: SourceKey, epoch: nat)

  function CellCount(h: Hashes, log: seq<Hit>, row: nat, col: nat, epoch: int): nat {
    if log == [] then 0
    else
      var last := log[|log| - 1];
      CellCount(h, log[..|log| - 1], row, col, epoch)
      + if last.epoch == epoch && Column(h, row, last.key) == col then 1 else 0
  }

  function KeyCount(log: seq<Hit>, key: SourceKey, epoch: int): nat {
    if log == [] then 0
    else
      var last := log[|log| - 1];
      KeyCount(log[..|log| - 1], key, epoch) + if last.key == key && last.epoch == epoch then 1 else 0
  }

  /** The epoch pointer and the full history of a sketch. */
  datatype Model = Model(index: nat, log: seq<Hit>)

  const EMPTY := Model(0, [])

  ghost predicate WellFormed(m: Model) {
    forall i | 0 <= i < |m.log| :: m.log[i].epoch <= m.index
  }

  /** The epoch whose counts generation `gen` holds when the pointer stands at `index`. */
  function Held(index: nat, gen: nat): int {
    if gen == index % 2 then index else index - 1
  }

  /**
    The epoch whose counters an event of epoch `e` lands in when the pointer
    stands at `index >= e`. Normally that is `e`; an event carrying a stale
    epoch lands in whichever of `index` and `index - 1` has its parity.
   */
  function Landing(index: nat, e: nat): (r: nat)
    requires e <= index
    ensures e == index ==> r == e
    ensures r % 2 == e % 2
  {
    Held(index, e % 2)
  }

  /** The epoch held by the other generation. */
  function Other(index: nat, e: nat): int {
    Held(index, 1 - e % 2)
  }

  function Max(a: nat, b: nat): nat { if a < b then b else a }

  function Min(a: nat, b: nat): nat { if a < b then a else b }

  function Record(m: Model, key: SourceKey, e: nat): (r: Model) {
    var index := Max(m.index, e);
    Model(index, m.log + [Hit(key, Landing(index, e))])
  }

  /** `previous * (1 - pos / len)`, rounded down. */
  function Weighted(previous: nat, pos: nat, len: nat): nat
    requires pos < len
  {
    assert previous * (len - pos) >= 0 by { MulMonotone(0, previous, len - pos); }
    previous * (len - pos) / len
  }

  function SaturatingAdd(a: nat, b: nat): nat { Min(a + b, U32 - 1) }

  function Blend(current: nat, previous: nat, pos: nat, len: nat): nat
    requires pos < len
  {
    SaturatingAdd(current, Weighted(previous, pos, len))
  }

  /** What one row reads for `key` after its event of epoch `e` was recorded; cells are 32 bits wide. */
  function RowEstimate(h: Hashes, m: Model, row: nat, key: SourceKey, e: nat, pos: nat, len: nat): nat
    requires e <= m.index && pos < len
  {
    var col := Column(h, row, key);
    Blend(CellCount(h, m.log, row, col, Landing(m.index, e)) % U32,
          CellCount(h, m.log, row, col, Other(m.index, e)) % U32, pos, len)
  }

  /** The least of the first `rows` rows' readings. */
  function Estimate(h: Hashes, m: Model, key: SourceKey, e: nat, pos: nat, len: nat, rows: nat := ROWS): nat
    requires e <= m.index && pos < len
  {
    if rows == 0 then U32 - 1
    else Min(Estimate(h, m, key, e, pos, len, rows - 1), RowEstimate(h, m, rows - 1, key, e, pos, len))
  }

  /** `Estimate` is below every row's reading, and is one of them. */
  lemma {:induction false} EstimateIsLeast(h: Hashes, m: Model, key: SourceKey, e: nat, pos: nat, len: nat, rows: nat := ROWS)
    requires e <= m.index && pos < len
    ensures Estimate(h, m, key, e, pos, len, rows) < U32
    ensures forall row | 0 <= row < rows ::
              Estimate(h, m, key, e, pos, len, rows) <= RowEstimate(h, m, row, key, e, pos, len)
    ensures rows > 0 ==> exists row | 0 <= row < rows ::
                Estimate(h, m, key, e, pos, len, rows) == RowEstimate(h, m, row, key, e, pos, len)
  {
    if rows > 0 {
      EstimateIsLeast(h, m, key, e, pos, len, rows - 1);
    }
  }

  // ---- Counting lemmas ----

  lemma CellCountAppend(h: Hashes, log: seq<Hit>, hit: Hit, row: nat, col: nat, epoch: int)
    ensures CellCount(h, log + [hit], row, col, epoch) == CellCount(h, log, row, col, epoch)
            + if hit.epoch == epoch && Column(h, row, hit.key) == col then 1 else 0
  {
    assert (log + [hit])[..|log|] == log;
  }

  lemma KeyCountAppend(log: seq<Hit>, hit: Hit, key: SourceKey, epoch: int)
    ensures KeyCount(log + [hit], key, epoch) == KeyCount(log, key, epoch)
            + if hit.key == key && hit.epoch == epoch then 1 else 0
  {
    assert (log + [hit])[..|log|] == log;
  }

  /** No event has been recorded for an epoch outside the recorded range. */
  lemma {:induction false} CellCountOutside(h: Hashes, log: seq<Hit>, row: nat, col: nat, epoch: int)
    requires forall i | 0 <= i < |log| :: log[i].epoch != epoch
    ensures CellCount(h, log, row, col, epoch) == 0
  {
    if log != [] {
      CellCountOutside(h, log[..|log| - 1], row, col, epoch);
    }
  }

  /** A cell never counts less than any one key that hashes to it. */
  lemma {:induction false} CellCoversKey(h: Hashes, log: seq<Hit>, row: nat, key: SourceKey, epoch: int)
    ensures CellCount(h, log, row, Column(h, row, key), epoch) >= KeyCount(log, key, epoch)
  {
    if log != [] {
      CellCoversKey(h, log[..|log| - 1], row, key, epoch);
    }
  }

  /** No other key was counted in `key`'s column of `row` in `epoch`. */
  ghost predicate AloneIn(h: Hashes, log: seq<Hit>, row: nat, key: SourceKey, epoch: int) {
    forall i | 0 <= i < |log| ::
      log[i].epoch == epoch && Column(h, row, log[i].key) == Column(h, row, key) ==> log[i].key == key
  }

  /**
    In some row `key` has its column to itself in the two epochs that a reading
    at epoch `e` looks at. What shared the column earlier does not matter.
   */
  ghost predicate Isolated(h: Hashes, m: Model, key: SourceKey, e: nat)
    requires e <= m.index
  {
    exists row | 0 <= row < ROWS ::
      AloneIn(h, m.log, row, key, Landing(m.index, e)) && AloneIn(h, m.log, row, key, Other(m.index, e))
  }

  lemma {:induction false} CellIsKeyWhenAlone(h: Hashes, log: seq<Hit>, row: nat, key: SourceKey, epoch: int)
    requires AloneIn(h, log, row, key, epoch)
    ensures CellCount(h, log, row, Column(h, row, key), epoch) == KeyCount(log, key, epoch)
  {
    if log != [] {
      CellIsKeyWhenAlone(h, log[..|log| - 1], row, key, epoch);
    }
  }

  /** No cell has been hit 2^32 times within one epoch. */
  ghost predicate NoWrap(h: Hashes, log: seq<Hit>) {
    forall row: nat, col: nat, epoch: int :: CellCount(h, log, row, col, epoch) < U32
  }

  lemma WeightedMonotone(p: nat, q: nat, pos: nat, len: nat)
    requires pos < len && p <= q
    ensures Weighted(p, pos, len) <= Weighted(q, pos, len)
  {
    MulMonotone(p, q, len - pos);
    DivMonotone(p * (len - pos), q * (len - pos), len);
  }

  lemma BlendCovers(c0: nat, p0: nat, c: nat, p: nat, pos: nat, len: nat)
    requires pos < len && c0 <= c && p0 <= p
    ensures Blend(c, p, pos, len) >= Min(c0 + Weighted(p0, pos, len), U32 - 1)
  {
    WeightedMonotone(p0, p, pos, len);
  }

  lemma BlendAtMost(c: nat, p: nat, pos: nat, len: nat)
    requires pos < len
    ensures Blend(c % U32, p % U32, pos, len) <= c + Weighted(p, pos, len)
  {
    WeightedMonotone(p % U32, p, pos, len);
  }

  /** The plain per-key sliding window that the sketch approximates. */
  function KeyWindow(m: Model, key: SourceKey, e: nat, pos: nat, len: nat): nat
    requires e <= m.index && pos < len
  {
    var landing := Landing(m.index, e);
    KeyCount(m.log, key, landing) + Weighted(KeyCount(m.log, key, Other(m.index, e)), pos, len)
  }

  lemma RowNeverUnderestimates(h: Hashes, m: Model, row: nat, key: SourceKey, e: nat, pos: nat, len: nat)
    requires e <= m.index && pos < len
    requires NoWrap(h, m.log)
    ensures RowEstimate(h, m, row, key, e, pos, len) >= Min(KeyWindow(m, key, e, pos, len), U32 - 1)
  {
    var landing := Landing(m.index, e);
    var other := Other(m.index, e);
    var col := Column(h, row, key);
    CellCoversKey(h, m.log, row, key, landing);
    CellCoversKey(h, m.log, row, key, other);
    var c, p := CellCount(h, m.log, row, col, landing), CellCount(h, m.log, row, col, other);
    assert c % U32 == c && p % U32 == p;
    BlendCovers(KeyCount(m.log, key, landing), KeyCount(m.log, key, other), c, p, pos, len);
  }

  /** One-sided accuracy: short of wrap-around, collisions can only raise the estimate. */
  lemma NeverUnderestimates(h: Hashes, m: Model, key: SourceKey, e: nat, pos: nat, len: nat)
    requires e <= m.index && pos < len
    requires NoWrap(h, m.log)
    ensures Estimate(h, m, key, e, pos, len) >= Min(KeyWindow(m, key, e, pos, len), U32 - 1)
  {
    EstimateIsLeast(h, m, key, e, pos, len);
    var row :| 0 <= row < ROWS && Estimate(h, m, key, e, pos, len) == RowEstimate(h, m, row, key, e, pos, len);
    RowNeverUnderestimates(h, m, row, key, e, pos, len);
  }

  lemma RowExactWhenAlone(h: Hashes, m: Model, row: nat, key: SourceKey, e: nat, pos: nat, len: nat)
    requires e <= m.index && pos < len
    requires AloneIn(h, m.log, row, key, Landing(m.index, e)) && AloneIn(h, m.log, row, key, Other(m.index, e))
    ensures RowEstimate(h, m, row, key, e, pos, len) <= KeyWindow(m, key, e, pos, len)
  {
    var landing := Landing(m.index, e);
    var other := Other(m.index, e);
    CellIsKeyWhenAlone(h, m.log, row, key, landing);
    CellIsKeyWhenAlone(h, m.log, row, key, other);
    BlendAtMost(KeyCount(m.log, key, landing), KeyCount(m.log, key, other), pos, len);
  }

  /** An isolated key is never overestimated, even after a cell wrapped around. */
  lemma NeverOverestimatesIsolated(h: Hashes, m: Model, key: SourceKey, e: nat, pos: nat, len: nat)
    requires e <= m.index && pos < len
    requires Isolated(h, m, key, e)
    ensures Estimate(h, m, key, e, pos, len) <= KeyWindow(m, key, e, pos, len)
  {
    var row :| 0 <= row < ROWS && AloneIn(h, m.log, row, key, Landing(m.index, e))
               && AloneIn(h, m.log, row, key, Other(m.index, e));
    EstimateIsLeast(h, m, key, e, pos, len);
    RowExactWhenAlone(h, m, row, key, e, pos, len);
  }

  /** For an isolated key the sketch is exact (up to the 32-bit ceiling). */
  lemma ExactWhenIsolated(h: Hashes, m: Model, key: SourceKey, e: nat, pos: nat, len: nat)
    requires e <= m.index && pos < len
    requires NoWrap(h, m.log) && Isolated(h, m, key, e)
    ensures Estimate(h, m, key, e, pos, len) == Min(KeyWindow(m, key, e, pos, len), U32 - 1)
  {
    EstimateIsLeast(h, m, key, e, pos, len);
    NeverUnderestimates(h, m, key, e, pos, len);
    NeverOverestimatesIsolated(h, m, key, e, pos, len);
  }
}
