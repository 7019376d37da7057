/**
  The admission gate that works in place (crates/qsh-core/src/admission.rs,
  `Gate`): two sketches, a permit count, three audit windows and the branch
  counters. Every method is proved to do to the fields what the corresponding
  step of `GateModel` does to its state.
 */
module Gates {
  import opened SourceKeys
  import opened SketchModel
  import opened AuditWindows
  import opened Sketches
  import opened Options
  import R = RateLimit
  import M = GateModel

  class Gate {
    ghost const cfg: M.Config
    const origin: int
    const rate: nat
    const validatedRate: nat
    const sketch: Sketch
    const validatedSketch: Sketch
    const windows: array<Window>
    var available: nat
    ghost var held: nat
    var counters: M.Counters

    ghost const Repr: set<object>

    ghost predicate Valid()
      reads this, Repr
    {
      && this in Repr && windows in Repr
      && sketch in Repr && sketch.table in Repr
      && validatedSketch in Repr && validatedSketch.table in Repr
      && sketch != validatedSketch && sketch.table != validatedSketch.table
      && sketch.Valid() && validatedSketch.Valid()
      && windows.Length == 3
      && cfg.hash == sketch.hash && cfg.validatedHash == validatedSketch.hash
      && cfg.rate == rate && cfg.validatedRate == validatedRate && cfg.origin == origin
    }

    ghost function Abs(): M.State
      requires Valid()
      reads this, Repr
    {
      M.State(sketch.Abs(), validatedSketch.Abs(), available, held, windows[..], counters)
    }

    constructor (now: int, permits: nat, rate: nat, validatedRate: nat, hash: Hashes, validatedHash: Hashes)
      ensures Valid() && fresh(Repr)
      ensures cfg == M.Config(hash, validatedHash, rate, validatedRate, permits, now)
      ensures Abs() == M.Fresh(cfg)
    {
      cfg := M.Config(hash, validatedHash, rate, validatedRate, permits, now);
      origin := now;
      this.rate := rate;
      this.validatedRate := validatedRate;
      var u := new Sketch(hash);
      var v := new Sketch(validatedHash);
      var w := new Window[3](_ => NEVER_OPENED);
      sketch, validatedSketch, windows := u, v, w;
      available := permits;
      held := 0;
      counters := M.Counters(0, 0, 0, 0);
      Repr := {this, u, v, u.table, v.table, w};
    }

    /** Records one check in the unvalidated or validated sketch and compares the reading with the budget. */
    method RateExceeded(validated: bool, peer: Peer, now: int) returns (exceeded: bool)
      requires Valid()
      modifies if validated then validatedSketch else sketch, if validated then validatedSketch.table else sketch.table
      ensures Valid()
      ensures Abs() == if validated then old(Abs()).(validated := M.Recorded(cfg, old(Abs()).validated, peer, now))
                       else old(Abs()).(unvalidated := M.Recorded(cfg, old(Abs()).unvalidated, peer, now))
      ensures exceeded == if validated then M.Exceeded(cfg, cfg.validatedHash, validatedRate, Abs().validated, peer, now)
                          else M.Exceeded(cfg, cfg.hash, rate, Abs().unvalidated, peer, now)
    {
      var key := FromAddr(peer.ip);
      var elapsed := Since(now, origin);
      var epoch, pos := R.EpochOf(M.EPOCH, elapsed), R.PosOf(M.EPOCH, elapsed);
      if validated {
        var estimate := validatedSketch.RecordAndEstimate(key, epoch, pos, M.EPOCH);
        exceeded := estimate > R.BurstLimit(validatedRate);
      } else {
        var estimate := sketch.RecordAndEstimate(key, epoch, pos, M.EPOCH);
        exceeded := estimate > R.BurstLimit(rate);
      }
    }

    method RecordRejection(reason: M.Reason, peer: Peer, now: int) returns (records: seq<M.AuditRecord>)
      requires Valid()
      modifies windows
      ensures Valid()
      ensures (Abs(), records) == M.RejectIn(old(Abs()), reason, peer, now)
    {
      var i := M.Index(reason);
      var w := windows[i];
      if w.start.Some? && Since(now, w.start.value) < AGGREGATION_WINDOW {
        windows[i] := w.(suppressed := if w.suppressed == U32_MAX then U32_MAX else w.suppressed + 1);
        records := [];
      } else {
        windows[i] := Window(Some(now), 0);
        records := [];
        if w.suppressed > 0 {
          records := records + [M.AuditRecord(reason, Summary(w.suppressed))];
        }
        records := records + [M.AuditRecord(reason, Occurrence(peer))];
      }
      assert windows[..] == old(windows[..])[i := Reject(w, peer, now).0];
      assert records == M.Label(reason, Reject(w, peer, now).1);
    }

    method DecideUnvalidated(peer: Peer, now: int) returns (decision: M.Decision)
      requires Valid()
      modifies Repr
      ensures Valid()
      ensures (Abs(), decision) == M.Decide(cfg, old(Abs()), peer, false, now)
    {
      var exceeded := RateExceeded(false, peer, now);
      if exceeded {
        var records := RecordRejection(M.RateLimited, peer, now);
        counters := counters.(ignore := counters.ignore + 1);
        return M.Ignore(M.RateLimited, records);
      }
      counters := counters.(retry := counters.retry + 1);
      return M.Retry;
    }

    method DecideValidated(peer: Peer, now: int) returns (decision: M.Decision)
      requires Valid()
      modifies Repr
      ensures Valid()
      ensures (Abs(), decision) == M.Decide(cfg, old(Abs()), peer, true, now)
    {
      var exceeded := RateExceeded(true, peer, now);
      if exceeded {
        var records := RecordRejection(M.ValidatedRateLimited, peer, now);
        counters := counters.(refuse := counters.refuse + 1);
        return M.Refuse(M.ValidatedRateLimited, records);
      }
      if available > 0 {
        available, held := available - 1, held + 1;
        counters := counters.(admit := counters.admit + 1);
        return M.Admit;
      }
      var records := RecordRejection(M.AtCapacity, peer, now);
      counters := counters.(refuse := counters.refuse + 1);
      return M.Refuse(M.AtCapacity, records);
    }

    method Decide(peer: Peer, validated: bool, now: int) returns (decision: M.Decision)
      requires Valid()
      modifies Repr
      ensures Valid()
      ensures (Abs(), decision) == M.Decide(cfg, old(Abs()), peer, validated, now)
    {
      if validated {
        decision := DecideValidated(peer, now);
      } else {
        decision := DecideUnvalidated(peer, now);
      }
    }

    /** A permit handed out by `Decide` is dropped. */
    method ReleasePermit()
      requires Valid() && held > 0
      modifies this
      ensures Valid()
      ensures Abs() == M.Dropped(old(Abs()))
    {
      available, held := available + 1, held - 1;
    }

    method FlushExpired(now: int) returns (records: seq<M.AuditRecord>)
      requires Valid()
      modifies windows
      ensures Valid()
      ensures (Abs(), M.Swept(records)) == M.Step(cfg, old(Abs()), M.Tick(now))
    {
      records := [];
      for i := 0 to 3
        invariant Valid()
        invariant Abs() == old(Abs()).(windows := windows[..])
        invariant (windows[..], records) == M.FlushFirst(old(windows[..]), now, i)
      {
        var w := windows[i];
        ghost var ws, before := windows[..], records;
        if w.start.None? || Since(now, w.start.value) < AGGREGATION_WINDOW {
          assert ws == ws[i := w] && before + M.Label(M.ALL[i], []) == before;
          continue;
        }
        windows[i] := NEVER_OPENED;
        if w.suppressed > 0 {
          records := records + [M.AuditRecord(M.ALL[i], Summary(w.suppressed))];
        }
        assert windows[..] == ws[i := NEVER_OPENED];
        assert records == before + M.Label(M.ALL[i], SummaryOf(w));
      }
    }
  }
}
