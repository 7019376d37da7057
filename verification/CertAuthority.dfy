/**
  Creating and using the private CA (crates/qsh-core/src/ca.rs, with the file
  lock of crates/qsh-core/src/config.rs and the issuing sequence of
  crates/qsh-core/src/ops/cert.rs) as a protocol between any number of
  processes that interleave freely and may fail or crash between any two
  steps. Keys and certificates are tokens; a certificate names the key it
  pairs with. A file write lands whole or not at all.
 */
module CertAuthority {
  import opened Options

  datatype Cert = Cert(key: nat, serial: nat)

  /** The contents of `ca.key` and `ca.pem`. */
  datatype Disk = Disk(key: Option<nat>, cert: Option<Cert>)

  datatype Pc =
    // `ca::init`
    | Waiting
    | Locked
    | RootMissing
    | Minted(root: Cert)
    | KeyWritten(root: Cert)
    | CertWritten(root: Cert)
    | InitDone(root: Cert, created: bool)
    // `cert_issue`: `read_root`, then `issue_device_leaf`
    | IssueStarted
    | SawRoot(root: Cert)
    | IssueDone(root: Cert, signer: nat)
    // `issue_device_leaf` on its own
    | LeafDone(signer: nat)
    | Failed

  datatype State = State(disk: Disk, lock: Option<nat>, procs: map<nat, Pc>)

  datatype Step =
    | StartInit(id: nat)
    | TakeLock(id: nat)
    | CheckRoot(id: nat)
    | Mint(id: nat, key: nat, serial: nat)
    | WriteKey(id: nat)
    | WriteCert(id: nat)
    | Finish(id: nat)
    | StartIssue(id: nat)
    | ReadRoot(id: nat)
    | SignLeaf(id: nat)
    | SignAlone(id: nat)
    /** An error return or a crash: the lock, if held, is released and nothing else happens. */
    | Fail(id: nat)

  predicate HoldsLock(pc: Pc) {
    pc.Locked? || pc.RootMissing? || pc.Minted? || pc.KeyWritten? || pc.CertWritten?
  }

  predicate Running(pc: Pc) {
    !pc.InitDone? && !pc.IssueDone? && !pc.LeafDone? && !pc.Failed?
  }

  predicate Enabled(s: State, step: Step) {
    match step
    case StartInit(id) => id !in s.procs
    case StartIssue(id) => id !in s.procs
    case SignAlone(id) => id !in s.procs && s.disk.key.Some?
    case TakeLock(id) => id in s.procs && s.procs[id].Waiting? && s.lock.None?
    case CheckRoot(id) => id in s.procs && s.procs[id].Locked?
    case Mint(id, _, _) => id in s.procs && s.procs[id].RootMissing?
    case WriteKey(id) => id in s.procs && s.procs[id].Minted?
    case WriteCert(id) => id in s.procs && s.procs[id].KeyWritten?
    case Finish(id) => id in s.procs && s.procs[id].CertWritten?
    case ReadRoot(id) => id in s.procs && s.procs[id].IssueStarted?
    case SignLeaf(id) => id in s.procs && s.procs[id].SawRoot?
    case Fail(id) => id in s.procs && Running(s.procs[id])
  }

  function Goto(s: State, id: nat, pc: Pc): State { s.(procs := s.procs[id := pc]) }

  function Unlock(s: State, id: nat): State { if s.lock == Some(id) then s.(lock := None) else s }

  /** `ca::read_root`. */
  function RootOf(disk: Disk): Option<Cert> { disk.cert }

  function Apply(s: State, step: Step): State
    requires Enabled(s, step)
  {
    match step
    case StartInit(id) => Goto(s, id, Waiting)
    case TakeLock(id) => Goto(s.(lock := Some(id)), id, Locked)
    case CheckRoot(id) =>
      (match RootOf(s.disk)
       case Some(root) => Unlock(Goto(s, id, InitDone(root, false)), id)
       case None => Goto(s, id, RootMissing))
    case Mint(id, key, serial) => Goto(s, id, Minted(Cert(key, serial)))
    case WriteKey(id) =>
      var root := s.procs[id].root;
      Goto(s.(disk := s.disk.(key := Some(root.key))), id, KeyWritten(root))
    case WriteCert(id) =>
      var root := s.procs[id].root;
      Goto(s.(disk := s.disk.(cert := Some(root))), id, CertWritten(root))
    case Finish(id) => Unlock(Goto(s, id, InitDone(s.procs[id].root, true)), id)
    case StartIssue(id) => Goto(s, id, IssueStarted)
    case ReadRoot(id) =>
      (match RootOf(s.disk)
       case Some(root) => Goto(s, id, SawRoot(root))
       case None => Goto(s, id, Failed))
    case SignLeaf(id) =>
      (match s.disk.key
       case Some(key) => Goto(s, id, IssueDone(s.procs[id].root, key))
       case None => Goto(s, id, Failed))
    case SignAlone(id) => Goto(s, id, LeafDone(s.disk.key.value))
    case Fail(id) => Unlock(Goto(s, id, Failed), id)
  }

  ghost predicate Reaches(s: State, steps: seq<Step>, s': State)
    decreases steps
  {
    if steps == [] then s == s'
    else Enabled(s, steps[0]) && Reaches(Apply(s, steps[0]), steps[1..], s')
  }

  const EMPTY_DIR := State(Disk(None, None), None, map[])

  // ---- Safety ----

  /** This process put the root in place. */
  predicate Creator(pc: Pc) { pc.CertWritten? || (pc.InitDone? && pc.created) }

  ghost predicate PcOk(s: State, id: nat)
    requires id in s.procs
  {
    var pc := s.procs[id];
    && (HoldsLock(pc) ==> s.lock == Some(id))
    && (pc.RootMissing? || pc.Minted? || pc.KeyWritten? ==> s.disk.cert.None?)
    && (pc.KeyWritten? ==> s.disk.key == Some(pc.root.key))
    && (pc.CertWritten? || pc.InitDone? || pc.SawRoot? || pc.IssueDone? ==> s.disk.cert == Some(pc.root))
    && (pc.IssueDone? ==> pc.signer == pc.root.key)
  }

  ghost predicate Inv(s: State) {
    && (s.disk.cert.Some? ==> s.disk.key == Some(s.disk.cert.value.key))
    && (forall id | id in s.procs :: PcOk(s, id))
    && (forall a, b | a in s.procs && b in s.procs :: Creator(s.procs[a]) && Creator(s.procs[b]) ==> a == b)
    && (forall a | a in s.procs :: Creator(s.procs[a]) ==> s.disk.cert.Some?)
  }

  /** Every step keeps the invariant, and no step takes back a root. */
  lemma StepKeeps(s: State, step: Step)
    requires Inv(s) && Enabled(s, step)
    ensures Inv(Apply(s, step))
    ensures s.disk.cert.Some? ==> Apply(s, step).disk == s.disk
  {
    var s' := Apply(s, step);
    assert step.id in s.procs ==> PcOk(s, step.id);
    forall id | id in s'.procs
      ensures PcOk(s', id)
    {
      PcKeeps(s, step, id);
    }
  }

  lemma PcKeeps(s: State, step: Step, id: nat)
    requires Inv(s) && Enabled(s, step) && id in Apply(s, step).procs
    ensures PcOk(Apply(s, step), id)
  {
    assert step.id in s.procs ==> PcOk(s, step.id);
    if id != step.id {
      assert PcOk(s, id);
    }
  }

  lemma {:induction false} RunKeeps(s: State, steps: seq<Step>, s': State)
    requires Inv(s) && Reaches(s, steps, s')
    ensures Inv(s')
    ensures s.disk.cert.Some? ==> s'.disk == s.disk
    decreases steps
  {
    if steps != [] {
      StepKeeps(s, steps[0]);
      RunKeeps(Apply(s, steps[0]), steps[1..], s');
    }
  }

  /**
    Safety over all runs. Whatever interleaves and whatever fails: a visible
    certificate pairs with the key on disk; every `init` that ever returned,
    and every reader that ever saw a root, had this one root; at most one
    process claims to have created it.
   */
  lemma RootIsPairedAndUnique(steps: seq<Step>, s: State)
    requires Reaches(EMPTY_DIR, steps, s)
    ensures s.disk.cert.Some? ==> s.disk.key == Some(s.disk.cert.value.key)
    ensures forall id | id in s.procs ::
              (s.procs[id].InitDone? || s.procs[id].SawRoot? || s.procs[id].IssueDone? ==> s.disk.cert == Some(s.procs[id].root))
    ensures forall a, b | a in s.procs && b in s.procs ::
              s.procs[a].InitDone? && s.procs[a].created && s.procs[b].InitDone? && s.procs[b].created ==> a == b
  {
    RunKeeps(EMPTY_DIR, steps, s);
    forall id | id in s.procs
      ensures PcOk(s, id)
    {
    }
  }

  /** Once a root is visible, neither file ever changes again. */
  lemma RootIsForever(steps: seq<Step>, s: State, more: seq<Step>, s': State)
    requires Reaches(EMPTY_DIR, steps, s) && s.disk.cert.Some? && Reaches(s, more, s')
    ensures s'.disk == s.disk
    ensures forall id | id in s'.procs && s'.procs[id].InitDone? :: s'.procs[id].root == s.disk.cert.value
  {
    RunKeeps(EMPTY_DIR, steps, s);
    RunKeeps(s, more, s');
    forall id | id in s'.procs && s'.procs[id].InitDone?
      ensures s'.procs[id].root == s.disk.cert.value
    {
      assert PcOk(s', id);
    }
  }

  /**
    Leaves pair with the root: those signed by `cert_issue`, which looks at the
    root before the key, always; those signed by a bare `issue_device_leaf`
    when the root was visible at that moment.
   */
  lemma LeavesPair(steps: seq<Step>, s: State, id: nat)
    requires Reaches(EMPTY_DIR, steps, s)
    ensures id in s.procs && s.procs[id].IssueDone? ==>
              s.disk.cert == Some(s.procs[id].root) && s.procs[id].signer == s.procs[id].root.key
    ensures s.disk.cert.Some? && id !in s.procs ==>
              Enabled(s, SignAlone(id)) && Apply(s, SignAlone(id)).procs[id] == LeafDone(s.disk.cert.value.key)
  {
    RunKeeps(EMPTY_DIR, steps, s);
    if id in s.procs {
      assert PcOk(s, id);
    }
  }

  lemma {:induction false} RunsCompose(s: State, first: seq<Step>, mid: State, second: seq<Step>, s': State)
    requires Reaches(s, first, mid) && Reaches(mid, second, s')
    ensures Reaches(s, first + second, s')
    decreases first
  {
    if first == [] {
      assert first + second == second;
    } else {
      RunsCompose(Apply(s, first[0]), first[1..], mid, second, s');
      assert (first + second)[1..] == first[1..] + second;
    }
  }

  /** Extends a run by one step. */
  lemma Then(s: State, steps: seq<Step>, mid: State, step: Step)
    requires Reaches(s, steps, mid) && Enabled(mid, step)
    ensures Reaches(s, steps + [step], Apply(mid, step))
  {
    assert Reaches(Apply(mid, step), [step][1..], Apply(mid, step));
    RunsCompose(s, steps, mid, [step], Apply(mid, step));
  }

  function LookSteps(id: nat): seq<Step> { [StartInit(id)] + [TakeLock(id)] + [CheckRoot(id)] }

  lemma FindsNoRoot(s: State, id: nat)
    requires id !in s.procs && s.lock.None? && s.disk.cert.None?
    ensures Reaches(s, LookSteps(id), State(s.disk, Some(id), s.procs[id := RootMissing]))
  {
    var s1 := Goto(s, id, Waiting);
    var s2 := State(s.disk, Some(id), s1.procs[id := Locked]);
    assert s2.procs[id := RootMissing] == s.procs[id := RootMissing];
    Then(s, [], s, StartInit(id));
    assert [] + [StartInit(id)] == [StartInit(id)];
    Then(s, [StartInit(id)], s1, TakeLock(id));
    Then(s, [StartInit(id)] + [TakeLock(id)], s2, CheckRoot(id));
  }

  function MakeSteps(id: nat, key: nat, serial: nat): seq<Step> {
    [Mint(id, key, serial)] + [WriteKey(id)] + [WriteCert(id)] + [Finish(id)]
  }

  /** The directory and processes after `id` created `root`. */
  function Created(s: State, id: nat, root: Cert): State {
    State(Disk(Some(root.key), Some(root)), None, s.procs[id := InitDone(root, true)])
  }

  lemma MakesRoot(s: State, id: nat, key: nat, serial: nat)
    requires id in s.procs && s.procs[id].RootMissing? && s.lock == Some(id)
    ensures Reaches(s, MakeSteps(id, key, serial), Created(s, id, Cert(key, serial)))
  {
    var root := Cert(key, serial);
    var s1 := Goto(s, id, Minted(root));
    var s2 := Apply(s1, WriteKey(id));
    var s3 := Apply(s2, WriteCert(id));
    assert Apply(s3, Finish(id)).procs == s.procs[id := InitDone(root, true)];
    Then(s, [], s, Mint(id, key, serial));
    assert [] + [Mint(id, key, serial)] == [Mint(id, key, serial)];
    Then(s, [Mint(id, key, serial)], s1, WriteKey(id));
    Then(s, [Mint(id, key, serial)] + [WriteKey(id)], s2, WriteCert(id));
    Then(s, [Mint(id, key, serial)] + [WriteKey(id)] + [WriteCert(id)], s3, Finish(id));
  }

  /**
    A leftover key without a certificate is not a root and stands in nobody's
    way: from any state with the lock free and no certificate, whatever is in
    `ca.key`, one undisturbed `init` creates a fresh pair and returns it.
   */
  lemma CreationSucceeds(s: State, id: nat, key: nat, serial: nat)
    requires id !in s.procs && s.lock.None? && s.disk.cert.None?
    ensures RootOf(s.disk).None?
    ensures Reaches(s, LookSteps(id) + MakeSteps(id, key, serial), Created(s, id, Cert(key, serial)))
  {
    var mid := State(s.disk, Some(id), s.procs[id := RootMissing]);
    FindsNoRoot(s, id);
    MakesRoot(mid, id, key, serial);
    assert Created(mid, id, Cert(key, serial)).procs == s.procs[id := InitDone(Cert(key, serial), true)];
    RunsCompose(s, LookSteps(id), mid, MakeSteps(id, key, serial), Created(s, id, Cert(key, serial)));
  }

  /** Process 0 fails after writing key 1, process 1 signs a leaf, process 2 creates the root with key 2. */
  function OrphanSteps(): seq<Step> {
    LookSteps(0) + [Mint(0, 1, 0)] + [WriteKey(0)] + [Fail(0)] + [SignAlone(1)] + (LookSteps(2) + MakeSteps(2, 2, 0))
  }

  /** After process 0 failed and process 1 signed. */
  const ORPHAN_SIGNED := State(Disk(Some(1), None), None, map[0 := Failed, 1 := LeafDone(1)])

  lemma OrphanSigned()
    ensures Reaches(EMPTY_DIR, LookSteps(0) + [Mint(0, 1, 0)] + [WriteKey(0)] + [Fail(0)] + [SignAlone(1)], ORPHAN_SIGNED)
  {
    FindsNoRoot(EMPTY_DIR, 0);
    var s3 := State(Disk(None, None), Some(0), map[0 := RootMissing]);
    assert EMPTY_DIR.procs[0 := RootMissing] == s3.procs;
    var s4 := State(Disk(None, None), Some(0), map[0 := Minted(Cert(1, 0))]);
    var s5 := State(Disk(Some(1), None), Some(0), map[0 := KeyWritten(Cert(1, 0))]);
    var s6 := State(Disk(Some(1), None), None, map[0 := Failed]);
    assert s3.procs[0 := s4.procs[0]] == s4.procs && s4.procs[0 := s5.procs[0]] == s5.procs;
    assert s5.procs[0 := Failed] == s6.procs && s6.procs[1 := LeafDone(1)] == ORPHAN_SIGNED.procs;
    Then(EMPTY_DIR, LookSteps(0), s3, Mint(0, 1, 0));
    Then(EMPTY_DIR, LookSteps(0) + [Mint(0, 1, 0)], s4, WriteKey(0));
    Then(EMPTY_DIR, LookSteps(0) + [Mint(0, 1, 0)] + [WriteKey(0)], s5, Fail(0));
    Then(EMPTY_DIR, LookSteps(0) + [Mint(0, 1, 0)] + [WriteKey(0)] + [Fail(0)], s6, SignAlone(1));
  }

  /**
    The condition on a bare `issue_device_leaf` is needed: signing between a
    failed `init`'s key and the root of a later one leaves a leaf that pairs
    with no root.
   */
  lemma OrphanLeaf()
    ensures exists s :: Reaches(EMPTY_DIR, OrphanSteps(), s) && 1 in s.procs && s.procs[1] == LeafDone(1)
                        && s.disk.cert.Some? && s.disk.cert.value.key != 1
  {
    hide Reaches, LookSteps, MakeSteps;
    OrphanSigned();
    CreationSucceeds(ORPHAN_SIGNED, 2, 2, 0);
    RunsCompose(EMPTY_DIR, LookSteps(0) + [Mint(0, 1, 0)] + [WriteKey(0)] + [Fail(0)] + [SignAlone(1)],
                ORPHAN_SIGNED, LookSteps(2) + MakeSteps(2, 2, 0), Created(ORPHAN_SIGNED, 2, Cert(2, 0)));
  }

  // ---- With a root in place everything goes through ----

  lemma IssueRun(s: State, id: nat, root: Cert)
    requires id !in s.procs && s.disk == Disk(Some(root.key), Some(root))
    ensures Reaches(s, [StartIssue(id)] + [ReadRoot(id)] + [SignLeaf(id)],
                    State(s.disk, s.lock, s.procs[id := IssueDone(root, root.key)]))
  {
    var s1 := Goto(s, id, IssueStarted);
    var s2 := State(s.disk, s.lock, s1.procs[id := SawRoot(root)]);
    assert s2.procs[id := IssueDone(root, root.key)] == s.procs[id := IssueDone(root, root.key)];
    Then(s, [], s, StartIssue(id));
    assert [] + [StartIssue(id)] == [StartIssue(id)];
    Then(s, [StartIssue(id)], s1, ReadRoot(id));
    Then(s, [StartIssue(id)] + [ReadRoot(id)], s2, SignLeaf(id));
  }

  /** Once a root is visible, `cert_issue` left alone ends with a leaf signed by the root's key. */
  lemma IssueSucceeds(steps: seq<Step>, s: State, id: nat)
    requires Reaches(EMPTY_DIR, steps, s) && s.disk.cert.Some? && id !in s.procs
    ensures var root := s.disk.cert.value;
            Reaches(s, [StartIssue(id)] + [ReadRoot(id)] + [SignLeaf(id)],
                    State(s.disk, s.lock, s.procs[id := IssueDone(root, root.key)]))
  {
    RunKeeps(EMPTY_DIR, steps, s);
    IssueRun(s, id, s.disk.cert.value);
  }

  /** ... and before that it fails, whatever is in the key file. */
  lemma IssueFails(s: State, id: nat)
    requires s.disk.cert.None? && id !in s.procs
    ensures Reaches(s, [StartIssue(id)] + [ReadRoot(id)], State(s.disk, s.lock, s.procs[id := Failed]))
  {
    var s1 := Goto(s, id, IssueStarted);
    assert s1.procs[id := Failed] == s.procs[id := Failed];
    Then(s, [], s, StartIssue(id));
    assert [] + [StartIssue(id)] == [StartIssue(id)];
    Then(s, [StartIssue(id)], s1, ReadRoot(id));
  }

  /** Once a root is visible, `init` that gets the lock returns it, and frees the lock. */
  lemma InitReturnsRoot(s: State, id: nat)
    requires s.disk.cert.Some? && s.lock.None? && id !in s.procs
    ensures Reaches(s, LookSteps(id), State(s.disk, None, s.procs[id := InitDone(s.disk.cert.value, false)]))
  {
    var s1 := Goto(s, id, Waiting);
    var s2 := State(s.disk, Some(id), s1.procs[id := Locked]);
    var done := InitDone(s.disk.cert.value, false);
    assert s2.procs[id := done] == s.procs[id := done];
    Then(s, [], s, StartInit(id));
    assert [] + [StartInit(id)] == [StartInit(id)];
    Then(s, [StartInit(id)], s1, TakeLock(id));
    Then(s, [StartInit(id)] + [TakeLock(id)], s2, CheckRoot(id));
  }

  // ---- When a bare leaf is safe ----

  /** Whoever has the lock is a process inside its critical section. */
  ghost predicate LockOk(s: State) {
    s.lock.Some? ==> s.lock.value in s.procs && HoldsLock(s.procs[s.lock.value])
  }

  lemma {:induction false} RunKeepsLock(s: State, steps: seq<Step>, s': State)
    requires Inv(s) && LockOk(s) && Reaches(s, steps, s')
    ensures LockOk(s')
    decreases steps
  {
    if steps != [] {
      StepKeeps(s, steps[0]);
      LockStep(s, steps[0]);
      RunKeepsLock(Apply(s, steps[0]), steps[1..], s');
    }
  }

  lemma LockStep(s: State, step: Step)
    requires Inv(s) && LockOk(s) && Enabled(s, step)
    ensures LockOk(Apply(s, step))
  {
    assert step.id in s.procs ==> PcOk(s, step.id);
  }

  lemma Beyond(ids: set<nat>) returns (n: nat)
    ensures forall i | i in ids :: i < n
  {
    n := 0;
    if exists i :: i in ids {
      var any :| any in ids;
      n := Beyond(ids - {any});
      assert forall i | i in ids :: i == any || i in ids - {any};
      n := if n <= any then any + 1 else n;
    }
  }

  /** From any reachable state without a root, failures and one more `init` can lead to a root with any key. */
  lemma AnyRootCanFollow(s: State, key: nat) returns (more: seq<Step>, s': State)
    requires LockOk(s) && s.disk.cert.None?
    ensures Reaches(s, more, s') && s'.disk.cert == Some(Cert(key, 0))
  {
    var id := Beyond(s.procs.Keys);
    if s.lock.None? {
      CreationSucceeds(s, id, key, 0);
      more, s' := LookSteps(id) + MakeSteps(id, key, 0), Created(s, id, Cert(key, 0));
    } else {
      var step := Fail(s.lock.value);
      var freed := Apply(s, step);
      Then(s, [], s, step);
      CreationSucceeds(freed, id, key, 0);
      s' := Created(freed, id, Cert(key, 0));
      more := ([] + [step]) + (LookSteps(id) + MakeSteps(id, key, 0));
      RunsCompose(s, [] + [step], freed, LookSteps(id) + MakeSteps(id, key, 0), s');
    }
  }

  /** Whatever happens from here on, a root pairs with `signer`. */
  ghost predicate AlwaysPairs(s: State, signer: nat) {
    forall more, s' | Reaches(s, more, s') && s'.disk.cert.Some? :: s'.disk.cert.value.key == signer
  }

  /**
    A leaf that `issue_device_leaf` signs on its own is sure to pair with the
    root, now and ever after, exactly when the root is visible as it signs.
   */
  lemma LeafIsSafeExactlyWhenRootVisible(steps: seq<Step>, s: State, id: nat)
    requires Reaches(EMPTY_DIR, steps, s) && Enabled(s, SignAlone(id))
    ensures AlwaysPairs(Apply(s, SignAlone(id)), s.disk.key.value) <==> s.disk.cert.Some?
  {
    var signed := Apply(s, SignAlone(id));
    RunKeeps(EMPTY_DIR, steps, s);
    RunKeepsLock(EMPTY_DIR, steps, s);
    StepKeeps(s, SignAlone(id));
    LockStep(s, SignAlone(id));
    if s.disk.cert.Some? {
      forall more, s' | Reaches(signed, more, s') && s'.disk.cert.Some?
        ensures s'.disk.cert.value.key == s.disk.key.value
      {
        RunKeeps(signed, more, s');
      }
    } else {
      var more, s' := AnyRootCanFollow(signed, s.disk.key.value + 1);
      assert s'.disk.cert.value.key != s.disk.key.value;
    }
  }

  // ---- `init` as one process runs it ----

  /** The point at which an `init` fails, if it does. */
  datatype Fault = NoFault | AtLock | AtRead | AtMint | AtKeyWrite | AtCertWrite

  datatype InitResult = Ok(root: Cert, created: bool) | Err

  /** What an `init` that finds no root leaves on disk: a failed certificate write leaves the new key behind. */
  function AfterFault(disk: Disk, fault: Fault, root: Cert): Disk {
    match fault
    case NoFault => Disk(Some(root.key), Some(root))
    case AtCertWrite => Disk(Some(root.key), disk.cert)
    case _ => disk
  }

  /** The directory with one process, 0, at `pc`. */
  ghost function Lone(disk: Disk, pc: Pc): State {
    State(disk, if HoldsLock(pc) then Some(0) else None, map[0 := pc])
  }

  lemma LoneThen(s0: State, steps: seq<Step>, disk: Disk, pc: Pc, step: Step, disk': Disk, pc': Pc)
    requires Reaches(s0, steps, Lone(disk, pc))
    requires step.id == 0 && Enabled(Lone(disk, pc), step)
    requires Apply(Lone(disk, pc), step).disk == disk' && Apply(Lone(disk, pc), step).procs[0] == pc'
    ensures Reaches(s0, steps + [step], Lone(disk', pc'))
  {
    LoneStep(disk, pc, step);
    hide Apply, Enabled, Lone;
    Then(s0, steps, Lone(disk, pc), step);
  }

  lemma LoneStep(disk: Disk, pc: Pc, step: Step)
    requires step.id == 0 && Enabled(Lone(disk, pc), step)
    ensures var s' := Apply(Lone(disk, pc), step); 0 in s'.procs && s' == Lone(s'.disk, s'.procs[0])
  {
    var s' := Apply(Lone(disk, pc), step);
    assert s'.procs == map[0 := s'.procs[0]];
  }

  class CaDir {
    var key: Option<nat>
    var cert: Option<Cert>

    ghost function OnDisk(): Disk
      reads this
    {
      Disk(key, cert)
    }

    constructor ()
      ensures OnDisk() == EMPTY_DIR.disk
    {
      key, cert := None, None;
    }

    /**
      `init`, alone in its critical section, with `freshKey` and `serial` for
      what it would generate. What it does to the directory is a run of the
      protocol by one process, ending as the result says.
     */
    method Init(fault: Fault, freshKey: nat, serial: nat) returns (r: InitResult, ghost steps: seq<Step>)
      modifies this
      ensures Reaches(State(old(OnDisk()), None, map[]), steps,
                      Lone(OnDisk(), if r.Ok? then InitDone(r.root, r.created) else Failed))
      ensures old(cert).Some? ==> OnDisk() == old(OnDisk()) && (r.Ok? ==> r == Ok(old(cert).value, false))
      ensures old(cert).None? ==> (r.Ok? <==> cert.Some?) && (r.Ok? ==> r == Ok(Cert(freshKey, serial), true))
      ensures r.Ok? <==> fault.NoFault? || (old(cert).Some? && !fault.AtLock? && !fault.AtRead?)
      ensures old(cert).None? ==> OnDisk() == AfterFault(old(OnDisk()), fault, Cert(freshKey, serial))
    {
      ghost var s0, disk := State(OnDisk(), None, map[]), OnDisk();
      Then(s0, [], s0, StartInit(0));
      steps := [] + [StartInit(0)];
      assert Apply(s0, StartInit(0)) == Lone(disk, Waiting);
      if fault.AtLock? {
        LoneThen(s0, steps, disk, Waiting, Fail(0), disk, Failed);
        return Err, steps + [Fail(0)];
      }
      LoneThen(s0, steps, disk, Waiting, TakeLock(0), disk, Locked);
      steps := steps + [TakeLock(0)];
      if fault.AtRead? {
        LoneThen(s0, steps, disk, Locked, Fail(0), disk, Failed);
        return Err, steps + [Fail(0)];
      }
      if cert.Some? {
        LoneThen(s0, steps, disk, Locked, CheckRoot(0), disk, InitDone(cert.value, false));
        return Ok(cert.value, false), steps + [CheckRoot(0)];
      }
      LoneThen(s0, steps, disk, Locked, CheckRoot(0), disk, RootMissing);
      r, steps := Create(fault, freshKey, serial, s0, steps + [CheckRoot(0)]);
    }

    /** The rest of `init` once no root was found. */
    method Create(fault: Fault, freshKey: nat, serial: nat, ghost s0: State, ghost sofar: seq<Step>)
      returns (r: InitResult, ghost steps: seq<Step>)
      requires cert.None?
      requires Reaches(s0, sofar, Lone(OnDisk(), RootMissing))
      modifies this
      ensures Reaches(s0, steps, Lone(OnDisk(), if r.Ok? then InitDone(r.root, r.created) else Failed))
      ensures (r.Ok? <==> cert.Some?) && (r.Ok? ==> r == Ok(Cert(freshKey, serial), true))
      ensures r.Ok? <==> !fault.AtMint? && !fault.AtKeyWrite? && !fault.AtCertWrite?
      ensures !fault.AtLock? && !fault.AtRead? ==> OnDisk() == AfterFault(old(OnDisk()), fault, Cert(freshKey, serial))
    {
      steps := sofar;
      ghost var disk := OnDisk();
      if fault.AtMint? {
        LoneThen(s0, steps, disk, RootMissing, Fail(0), disk, Failed);
        return Err, steps + [Fail(0)];
      }
      var root := Cert(freshKey, serial);
      LoneThen(s0, steps, disk, RootMissing, Mint(0, freshKey, serial), disk, Minted(root));
      steps := steps + [Mint(0, freshKey, serial)];
      if fault.AtKeyWrite? {
        LoneThen(s0, steps, disk, Minted(root), Fail(0), disk, Failed);
        return Err, steps + [Fail(0)];
      }
      key := Some(root.key);
      LoneThen(s0, steps, disk, Minted(root), WriteKey(0), OnDisk(), KeyWritten(root));
      r, steps := StoreCert(fault, root, s0, steps + [WriteKey(0)]);
    }

    /** The last part of `init`, with the key already in place. */
    method StoreCert(fault: Fault, root: Cert, ghost s0: State, ghost sofar: seq<Step>)
      returns (r: InitResult, ghost steps: seq<Step>)
      requires cert.None? && Reaches(s0, sofar, Lone(OnDisk(), KeyWritten(root)))
      modifies this`cert
      ensures Reaches(s0, steps, Lone(OnDisk(), if r.Ok? then InitDone(r.root, r.created) else Failed))
      ensures (r.Ok? <==> cert.Some?) && (r.Ok? ==> r == Ok(root, true)) && (r.Ok? <==> !fault.AtCertWrite?)
      ensures cert == if fault.AtCertWrite? then None else Some(root)
    {
      steps := sofar;
      ghost var disk := OnDisk();
      if fault.AtCertWrite? {
        LoneThen(s0, steps, disk, KeyWritten(root), Fail(0), disk, Failed);
        return Err, steps + [Fail(0)];
      }
      cert := Some(root);
      LoneThen(s0, steps, disk, KeyWritten(root), WriteCert(0), OnDisk(), CertWritten(root));
      steps := steps + [WriteCert(0)];
      LoneThen(s0, steps, OnDisk(), CertWritten(root), Finish(0), OnDisk(), InitDone(root, true));
      return Ok(root, true), steps + [Finish(0)];
    }
  }
}
