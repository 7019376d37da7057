/**
  Splitting a screen update into datagram parts and putting it together again
  (crates/qsh-proto/src/screen/parts.rs, `split_sized` and
  `DatagramReassembler`): parts may arrive in any order, twice or not at all,
  mixed with parts of other updates.
 */
module Reassembly {
  import opened DatagramFrames
  import opened Options

  const PART_MAX: nat := 16 * 1024
  const MAX_UPDATE_BYTES: nat := 1024 * 1024
  const MAX_DATAGRAM_PARTS: nat := 64

  type Bytes = seq<byte>

  // ---- Splitting ----

  function Chunks(encoded: Bytes, size: nat): (r: seq<Bytes>)
    requires size > 0
    ensures r != []
  {
    if |encoded| <= size then [encoded] else [encoded[..size]] + Chunks(encoded[size..], size)
  }

  function SplitSized(encoded: Bytes, maxPart: nat): seq<Bytes> {
    Chunks(encoded, if maxPart == 0 then 1 else maxPart)
  }

  function Flatten(parts: seq<Bytes>): Bytes {
    if parts == [] then [] else parts[0] + Flatten(parts[1..])
  }

  lemma FlattenFirst(first: Bytes, rest: seq<Bytes>)
    ensures Flatten([first] + rest) == first + Flatten(rest)
  {
    assert ([first] + rest)[1..] == rest;
  }

  /** The parts are the encoding cut up: in order, complete, and none over the size. */
  lemma {:induction false} ChunksFlatten(encoded: Bytes, size: nat)
    requires size > 0
    ensures Flatten(Chunks(encoded, size)) == encoded
    ensures forall i | 0 <= i < |Chunks(encoded, size)| :: |Chunks(encoded, size)[i]| <= size
  {
    if |encoded| <= size {
      assert Chunks(encoded, size)[1..] == [];
      assert Flatten(Chunks(encoded, size)) == encoded + [];
    } else {
      var rest := Chunks(encoded[size..], size);
      ChunksFlatten(encoded[size..], size);
      hide Chunks;
      FlattenFirst(encoded[..size], rest);
      assert encoded[..size] + encoded[size..] == encoded;
    }
  }

  // ---- The reassembler ----

  /** `parts == 0` means nothing is being built. */
  datatype State = State(newNum: nat, done: nat, parts: nat, got: nat, slots: seq<Option<Bytes>>, bytes: nat)

  const IDLE := State(0, 0, 0, 0, [], 0)

  datatype Offer = Offer(newNum: nat, part: nat, parts: nat, data: Bytes)

  datatype Answer = Complete(update: Bytes) | More | Numbering | TooLarge | OutOfOrder

  function Reset(s: State): State { s.(parts := 0, got := 0, slots := [], bytes := 0) }

  function Join(slots: seq<Option<Bytes>>): Bytes {
    if slots == [] then []
    else (if slots[0].Some? then slots[0].value else []) + Join(slots[1..])
  }

  /** Where an accepted offer goes: the update being built, or a new one. */
  function Target(s: State, o: Offer): State {
    if s.parts == 0 || o.newNum > s.newNum then
      Reset(s).(newNum := o.newNum, parts := o.parts, slots := seq(o.parts, _ => None))
    else s
  }

  function Push(s: State, o: Offer): (State, Answer) {
    if o.parts == 0 || o.parts > MAX_DATAGRAM_PARTS || o.part >= o.parts then (s, Numbering)
    else if |o.data| > PART_MAX then (s, TooLarge)
    else if o.newNum < s.done || (s.parts != 0 && o.newNum < s.newNum) then (s, More)
    else
      var t := Target(s, o);
      if o.parts != t.parts then (Reset(t), OutOfOrder)
      else if o.part >= |t.slots| || t.slots[o.part].Some? then (t, More)
      else if t.bytes + |o.data| > MAX_UPDATE_BYTES then (Reset(t), TooLarge)
      else
        var slots := t.slots[o.part := Some(o.data)];
        var u := t.(bytes := t.bytes + |o.data|, slots := slots, got := t.got + 1);
        if u.got == u.parts then (Reset(u).(done := o.newNum), Complete(Join(slots))) else (u, More)
  }

  function After(offers: seq<Offer>): State {
    if offers == [] then IDLE else Push(After(offers[..|offers| - 1]), offers[|offers| - 1]).0
  }

  /** The answer to the last offer. */
  function AnswerTo(offers: seq<Offer>): Answer
    requires offers != []
  {
    Push(After(offers[..|offers| - 1]), offers[|offers| - 1]).1
  }

  // ---- Bounded memory, whatever is offered ----

  function Filled(slots: seq<Option<Bytes>>): nat {
    if slots == [] then 0 else (if slots[0].Some? then 1 else 0) + Filled(slots[1..])
  }

  function Held(slots: seq<Option<Bytes>>): nat {
    if slots == [] then 0 else (if slots[0].Some? then |slots[0].value| else 0) + Held(slots[1..])
  }

  ghost predicate Inv(s: State) {
    && |s.slots| == s.parts <= MAX_DATAGRAM_PARTS
    && s.got == Filled(s.slots)
    && s.bytes == Held(s.slots) <= MAX_UPDATE_BYTES
    && (s.parts > 0 ==> s.got < s.parts)
  }

  lemma {:induction false} FillOne(slots: seq<Option<Bytes>>, i: nat, data: Bytes)
    requires i < |slots| && slots[i].None?
    ensures Filled(slots[i := Some(data)]) == Filled(slots) + 1
    ensures Held(slots[i := Some(data)]) == Held(slots) + |data|
  {
    if i > 0 {
      assert slots[i := Some(data)][1..] == slots[1..][i - 1 := Some(data)];
      FillOne(slots[1..], i - 1, data);
    } else {
      assert slots[i := Some(data)][1..] == slots[1..];
    }
  }

  lemma {:induction false} EmptySlots(n: nat)
    ensures Filled(seq(n, _ => None)) == 0 && Held(seq(n, _ => None)) == 0
  {
    if n > 0 {
      EmptySlots(n - 1);
      var slots: seq<Option<Bytes>> := seq(n, _ => None);
      assert slots[1..] == seq(n - 1, _ => None);
    }
  }

  lemma {:induction false} FilledAtMost(slots: seq<Option<Bytes>>)
    ensures Filled(slots) <= |slots|
    ensures Filled(slots) == |slots| <==> forall i | 0 <= i < |slots| :: slots[i].Some?
  {
    if slots != [] {
      FilledAtMost(slots[1..]);
      assert forall i | 0 <= i < |slots[1..]| :: slots[1..][i] == slots[i + 1];
      if Filled(slots) == |slots| {
        forall i | 0 <= i < |slots|
          ensures slots[i].Some?
        {
          if i > 0 {
            assert slots[1..][i - 1] == slots[i];
          }
        }
      }
    }
  }

  lemma PushKeeps(s: State, o: Offer)
    requires Inv(s)
    ensures Inv(Push(s, o).0)
  {
    var t := Target(s, o);
    EmptySlots(o.parts);
    if o.part < |t.slots| && t.slots[o.part].None? {
      FillOne(t.slots, o.part, o.data);
      FilledAtMost(t.slots[o.part := Some(o.data)]);
    }
  }

  /** Over any offers, hostile or not, at most 64 slots and the update cap are ever held. */
  lemma {:induction false} MemoryBounded(offers: seq<Offer>)
    ensures Inv(After(offers))
    ensures |After(offers).slots| <= MAX_DATAGRAM_PARTS && Held(After(offers).slots) <= MAX_UPDATE_BYTES
  {
    if offers != [] {
      MemoryBounded(offers[..|offers| - 1]);
      PushKeeps(After(offers[..|offers| - 1]), offers[|offers| - 1]);
    }
  }

  // ---- What comes out is what was sent ----

  /** What the sender cut each state's update into. */
  type Sender = nat -> seq<Bytes>

  /** `o` is one of the sender's parts. */
  ghost predicate Genuine(sent: Sender, o: Offer) {
    && o.parts == |sent(o.newNum)| && o.part < o.parts && o.data == sent(o.newNum)[o.part]
  }

  /** The sender keeps to the limits for this state. */
  ghost predicate Sendable(parts: seq<Bytes>) {
    && 0 < |parts| <= MAX_DATAGRAM_PARTS && |Flatten(parts)| <= MAX_UPDATE_BYTES
    && forall i | 0 <= i < |parts| :: |parts[i]| <= PART_MAX
  }

  /** Every filled slot holds the sender's part. */
  ghost predicate Matches(slots: seq<Option<Bytes>>, parts: seq<Bytes>) {
    |slots| == |parts| && forall i | 0 <= i < |slots| :: slots[i].Some? ==> slots[i].value == parts[i]
  }

  ghost predicate Building(sent: Sender, s: State) {
    Inv(s) && (s.parts > 0 ==> Matches(s.slots, sent(s.newNum)))
  }

  lemma {:induction false} JoinMatching(slots: seq<Option<Bytes>>, parts: seq<Bytes>)
    requires Matches(slots, parts)
    ensures |Join(slots)| <= |Flatten(parts)| && Held(slots) <= |Flatten(parts)|
    ensures (forall i | 0 <= i < |slots| :: slots[i].Some?) ==> Join(slots) == Flatten(parts)
  {
    if slots != [] {
      assert forall i | 0 <= i < |slots[1..]| :: slots[1..][i] == slots[i + 1] && parts[1..][i] == parts[i + 1];
      JoinMatching(slots[1..], parts[1..]);
    }
  }

  lemma GenuinePush(sent: Sender, s: State, o: Offer)
    requires Building(sent, s) && Genuine(sent, o) && Sendable(sent(o.newNum))
    ensures var (s', a) := Push(s, o);
            && Building(sent, s')
            && (a.More? || a == Complete(Flatten(sent(o.newNum))))
  {
    PushKeeps(s, o);
    var t := Target(s, o);
    EmptySlots(o.parts);
    if o.newNum >= s.done && (s.parts == 0 || o.newNum >= s.newNum) {
      assert Matches(t.slots, sent(o.newNum));
      if t.slots[o.part].None? {
        var slots := t.slots[o.part := Some(o.data)];
        FillOne(t.slots, o.part, o.data);
        JoinMatching(slots, sent(o.newNum));
        FilledAtMost(slots);
      }
    }
  }

  /**
    Whatever the network reorders, repeats or loses, and however many updates
    are in flight: the sender's parts are never refused, and an update that
    comes out is, byte for byte, the one that was cut up.
   */
  lemma {:induction false} ComesOutAsSent(sent: Sender, offers: seq<Offer>)
    requires forall i | 0 <= i < |offers| :: Genuine(sent, offers[i]) && Sendable(sent(offers[i].newNum))
    ensures Building(sent, After(offers))
    ensures offers != [] ==> AnswerTo(offers).More? || AnswerTo(offers) == Complete(Flatten(sent(offers[|offers| - 1].newNum)))
  {
    if offers != [] {
      ComesOutAsSent(sent, offers[..|offers| - 1]);
      GenuinePush(sent, After(offers[..|offers| - 1]), offers[|offers| - 1]);
    }
  }

  /** The sender that splits the encoding of update `n` into parts of `size(n)` bytes. */
  function Cut(encoding: nat -> Bytes, size: nat -> nat): Sender {
    n => SplitSized(encoding(n), size(n))
  }

  /** End to end: cutting an update into parts of any size and putting the parts together gives it back. */
  lemma CutAndRejoined(encoding: nat -> Bytes, size: nat -> nat, offers: seq<Offer>)
    requires offers != []
    requires forall i | 0 <= i < |offers| ::
               Genuine(Cut(encoding, size), offers[i]) && Sendable(Cut(encoding, size)(offers[i].newNum))
    ensures AnswerTo(offers).More? || AnswerTo(offers) == Complete(encoding(offers[|offers| - 1].newNum))
  {
    var n := offers[|offers| - 1].newNum;
    ComesOutAsSent(Cut(encoding, size), offers);
    ChunksFlatten(encoding(n), if size(n) == 0 then 1 else size(n));
  }

  /** Some offer of `n` among `offers` was answered with a complete update. */
  ghost predicate Completed(offers: seq<Offer>, n: nat) {
    exists k | 0 < k <= |offers| :: offers[k - 1].newNum == n && AnswerTo(offers[..k]).Complete?
  }

  ghost predicate Offered(offers: seq<Offer>, n: nat, part: nat) {
    exists i | 0 <= i < |offers| :: offers[i].newNum == n && offers[i].part == part
  }

  /** Exactly the parts offered of the newest update `n` are filled in. */
  ghost predicate AsOffered(s: State, offers: seq<Offer>, n: nat) {
    && s.done <= n && s.newNum <= n
    && (if exists p :: Offered(offers, n, p) then
          s.parts > 0 && s.newNum == n && forall p | 0 <= p < |s.slots| :: s.slots[p].Some? <==> Offered(offers, n, p)
        else s.parts > 0 ==> s.newNum < n)
  }

  lemma NotCompletedBefore(offers: seq<Offer>, n: nat)
    requires offers != [] && !Completed(offers, n)
    ensures !Completed(offers[..|offers| - 1], n)
    ensures offers[|offers| - 1].newNum == n ==> !AnswerTo(offers).Complete?
  {
    var front := offers[..|offers| - 1];
    forall k | 0 < k <= |front|
      ensures !(front[k - 1].newNum == n && AnswerTo(front[..k]).Complete?)
    {
      assert front[..k] == offers[..k];
    }
    assert offers[..|offers|] == offers;
  }

  /** Until the newest update completes, exactly the parts offered of it are filled in. */
  lemma {:induction false} FilledAsOffered(sent: Sender, offers: seq<Offer>, n: nat)
    requires forall i | 0 <= i < |offers| :: Genuine(sent, offers[i]) && Sendable(sent(offers[i].newNum)) && offers[i].newNum <= n
    requires !Completed(offers, n)
    ensures AsOffered(After(offers), offers, n)
  {
    if offers != [] {
      var front, o := offers[..|offers| - 1], offers[|offers| - 1];
      NotCompletedBefore(offers, n);
      FilledAsOffered(sent, front, n);
      ComesOutAsSent(sent, front);
      FilledStep(sent, front, o, n);
      assert offers == front + [o];
    }
  }

  lemma OfferedAppend(front: seq<Offer>, o: Offer, n: nat, p: nat)
    ensures Offered(front + [o], n, p) <==> Offered(front, n, p) || (o.newNum == n && o.part == p)
  {
    var all := front + [o];
    if Offered(front, n, p) {
      var i :| 0 <= i < |front| && front[i].newNum == n && front[i].part == p;
      assert all[i] == front[i];
    }
    if o.newNum == n && o.part == p {
      assert all[|front|] == o;
    }
  }

  lemma FilledStep(sent: Sender, front: seq<Offer>, o: Offer, n: nat)
    requires Genuine(sent, o) && Sendable(sent(o.newNum)) && o.newNum <= n
    requires Building(sent, After(front)) && AsOffered(After(front), front, n)
    requires o.newNum == n ==> !Push(After(front), o).1.Complete?
    ensures AsOffered(Push(After(front), o).0, front + [o], n)
  {
    var s := After(front);
    GenuinePush(sent, s, o);
    forall p: nat
      ensures Offered(front + [o], n, p) <==> Offered(front, n, p) || (o.newNum == n && o.part == p)
    {
      OfferedAppend(front, o, n, p);
    }
    if o.newNum == n {
      assert Offered(front + [o], n, o.part);
    }
    assert |s.slots| == s.parts;
    hide Inv, Sendable, Flatten, Join, Offered, After;
  }

  /**
    If every part of the newest update arrives, in any order, it comes out.
   */
  lemma AllPartsComplete(sent: Sender, offers: seq<Offer>, n: nat)
    requires forall i | 0 <= i < |offers| :: Genuine(sent, offers[i]) && Sendable(sent(offers[i].newNum)) && offers[i].newNum <= n
    requires sent(n) != [] && forall p | 0 <= p < |sent(n)| :: Offered(offers, n, p)
    ensures Completed(offers, n)
  {
    if !Completed(offers, n) {
      FilledAsOffered(sent, offers, n);
      ComesOutAsSent(sent, offers);
      assert Offered(offers, n, 0);
      FilledAtMost(After(offers).slots);
    }
  }

  // ---- What is refused, ignored and taken again ----

  predicate BadNumbers(o: Offer) { o.parts == 0 || o.parts > 64 || o.part >= o.parts }

  /** The offer is of a state older than the one being built or the last one completed. */
  predicate Outdated(s: State, o: Offer) { o.newNum < s.done || (s.parts > 0 && o.newNum < s.newNum) }

  /** An offer within the limits that contradicts the update being built. */
  predicate Contradicts(s: State, o: Offer) { s.parts > 0 && o.newNum == s.newNum && o.parts != s.parts }

  /** The offer belongs to the update being built. */
  predicate Continues(s: State, o: Offer) { s.parts > 0 && o.newNum == s.newNum }

  /**
    Bad numbers, oversized data, outdated offers and repeated parts change
    nothing. A contradicting part count, or data that would take the update
    over its cap, gives up the update being built, and nothing else.
   */
  lemma PushExactly(s: State, o: Offer)
    requires Inv(s)
    ensures var (s', a) := Push(s, o);
            var fine := !BadNumbers(o) && |o.data| <= 16384 && !Outdated(s, o);
            var repeated := fine && Continues(s, o) && !Contradicts(s, o) && s.slots[o.part].Some?;
            var over := fine && !Contradicts(s, o) && !repeated && (if Continues(s, o) then s.bytes else 0) + |o.data| > 1048576;
            && (a.Numbering? <==> BadNumbers(o))
            && (a.OutOfOrder? <==> fine && Contradicts(s, o))
            && (a.TooLarge? <==> over || (!BadNumbers(o) && |o.data| > 16384))
            && (!fine || repeated ==> s' == s)
            && ((Outdated(s, o) && !BadNumbers(o) && |o.data| <= 16384) || repeated ==> a.More?)
            && (over || a.OutOfOrder? ==> s' == State(o.newNum, s.done, 0, 0, [], 0))
  {
    hide Filled, Held, Join;
  }

  /** Completing an update ends it and makes every older one outdated. */
  lemma CompletionRemembered(s: State, o: Offer)
    ensures var (s', a) := Push(s, o);
            && (a.Complete? ==> s'.done == o.newNum >= s.done && s'.parts == 0)
            && (!a.Complete? ==> s'.done == s.done)
  {
    hide Join;
  }

  lemma {:induction false} DoneGrows(offers: seq<Offer>, i: nat, j: nat)
    requires i <= j <= |offers|
    ensures After(offers[..i]).done <= After(offers[..j]).done
    decreases j
  {
    if i < j {
      DoneGrows(offers, i, j - 1);
      assert offers[..j][..j - 1] == offers[..j - 1];
      hide Push;
      CompletionRemembered(After(offers[..j - 1]), offers[j - 1]);
    }
  }

  /** Over any offers the updates that come out never go back to an older state. */
  lemma NeverGoesBack(offers: seq<Offer>, i: nat, j: nat)
    requires i < j < |offers|
    requires AnswerTo(offers[..i + 1]).Complete? && AnswerTo(offers[..j + 1]).Complete?
    ensures offers[i].newNum <= offers[j].newNum
  {
    assert offers[..i + 1][..i] == offers[..i] && offers[..j + 1][..j] == offers[..j];
    hide Push;
    CompletionRemembered(After(offers[..i]), offers[i]);
    DoneGrows(offers, i + 1, j);
    CompletionRemembered(After(offers[..j]), offers[j]);
  }

  /** The parts of `m` in order, the first `k` of them. */
  function InOrder(n: nat, m: seq<Bytes>, k: nat): seq<Offer>
    requires k <= |m|
  {
    seq(k, p requires 0 <= p < k => Offer(n, p, |m|, m[p]))
  }

  function FirstFilled(m: seq<Bytes>, k: nat): seq<Option<Bytes>> {
    seq(|m|, i requires 0 <= i < |m| => if i < k then Some(m[i]) else None)
  }

  lemma NextFilled(m: seq<Bytes>, k: nat)
    requires k < |m|
    ensures FirstFilled(m, k)[k].None? && FirstFilled(m, k)[k := Some(m[k])] == FirstFilled(m, k + 1)
    ensures Held(FirstFilled(m, k)) + |m[k]| <= |Flatten(m)|
    ensures Filled(FirstFilled(m, k)) + 1 == |m| <==> k + 1 == |m|
    ensures k + 1 == |m| ==> Join(FirstFilled(m, k + 1)) == Flatten(m)
  {
    var slots, next := FirstFilled(m, k), FirstFilled(m, k + 1);
    assert slots[k := Some(m[k])] == next;
    FillOne(slots, k, m[k]);
    JoinMatching(next, m);
    FilledAtMost(next);
    if k + 1 < |m| {
      assert next[k + 1].None?;
    }
    hide Filled, Held, Join, Flatten;
  }

  lemma NoneFilled(m: seq<Bytes>)
    ensures FirstFilled(m, 0) == seq(|m|, _ => None)
    ensures Filled(FirstFilled(m, 0)) == 0 && Held(FirstFilled(m, 0)) == 0
  {
    EmptySlots(|m|);
    assert FirstFilled(m, 0) == seq(|m|, _ => None);
  }

  /** The first `k` parts of `m` have been taken, as update `n`. */
  ghost predicate BuiltTo(s: State, n: nat, m: seq<Bytes>, k: nat) {
    && Inv(s) && s.done <= n
    && if k == 0 then s.parts == 0 else s.parts == |m| && s.newNum == n && s.slots == FirstFilled(m, k)
  }

  lemma TargetInOrder(s: State, n: nat, m: seq<Bytes>, k: nat)
    requires BuiltTo(s, n, m, k) && k < |m|
    ensures var slots := FirstFilled(m, k);
            Target(s, Offer(n, k, |m|, m[k])) == State(n, s.done, |m|, Filled(slots), slots, Held(slots))
  {
    NoneFilled(m);
    hide FirstFilled, Filled, Held;
  }

  /** What becomes of an offer whose slot is free and whose data fits. */
  lemma PartTaken(s: State, o: Offer, t: State)
    requires t == Target(s, o) && !BadNumbers(o) && |o.data| <= PART_MAX && !Outdated(s, o)
    requires o.parts == t.parts == |t.slots| && t.slots[o.part].None? && t.bytes + |o.data| <= MAX_UPDATE_BYTES
    ensures var slots := t.slots[o.part := Some(o.data)];
            if t.got + 1 == t.parts then Push(s, o).1 == Complete(Join(slots))
            else Push(s, o).0 == t.(bytes := t.bytes + |o.data|, slots := slots, got := t.got + 1)
  {
    hide Target, Join;
  }

  /** One more part in order, until the last. */
  lemma NextInOrder(s: State, n: nat, m: seq<Bytes>, k: nat)
    requires BuiltTo(s, n, m, k) && Sendable(m) && k < |m|
    ensures var (s', a) := Push(s, Offer(n, k, |m|, m[k]));
            if k + 1 == |m| then a == Complete(Flatten(m)) else BuiltTo(s', n, m, k + 1)
  {
    var o := Offer(n, k, |m|, m[k]);
    PushKeeps(s, o);
    NextFilled(m, k);
    TargetInOrder(s, n, m, k);
    hide Push, Target, FirstFilled, Filled, Held, Join, Flatten, Inv;
    PartTaken(s, o, Target(s, o));
  }

  lemma OneMoreOffer(offers: seq<Offer>, n: nat, m: seq<Bytes>, k: nat)
    requires k < |m|
    ensures var all := offers + InOrder(n, m, k + 1); var part := Push(After(offers + InOrder(n, m, k)), Offer(n, k, |m|, m[k]));
            all != [] && After(all) == part.0 && AnswerTo(all) == part.1
  {
    var all := offers + InOrder(n, m, k + 1);
    assert all[..|all| - 1] == offers + InOrder(n, m, k);
    hide Push;
  }

  lemma {:induction false} InOrderBuilds(offers: seq<Offer>, n: nat, m: seq<Bytes>, k: nat)
    requires After(offers).parts == 0 && After(offers).done <= n && Sendable(m) && k < |m|
    ensures BuiltTo(After(offers + InOrder(n, m, k)), n, m, k)
  {
    hide Push, Sendable;
    if k == 0 {
      assert offers + InOrder(n, m, 0) == offers;
      MemoryBounded(offers);
      hide Inv;
    } else {
      hide After, AnswerTo, BuiltTo, InOrder;
      InOrderBuilds(offers, n, m, k - 1);
      OneMoreOffer(offers, n, m, k - 1);
      NextInOrder(After(offers + InOrder(n, m, k - 1)), n, m, k - 1);
    }
  }

  /**
    A state that is not outdated can be sent again at any time: with nothing
    half-built, its parts in order complete it, even if it was the last one
    completed.
   */
  lemma SentAgainCompletes(offers: seq<Offer>, n: nat, m: seq<Bytes>)
    requires After(offers).parts == 0 && After(offers).done <= n && Sendable(m)
    ensures var all := offers + InOrder(n, m, |m|); all != [] && AnswerTo(all) == Complete(Flatten(m))
  {
    hide Push, After, AnswerTo, BuiltTo, InOrder, Flatten;
    var k := |m| - 1;
    InOrderBuilds(offers, n, m, k);
    OneMoreOffer(offers, n, m, k);
    NextInOrder(After(offers + InOrder(n, m, k)), n, m, k);
  }

  // ---- Two encodings of one state ----

  /** Cut at one size: only the last parts may differ in length. */
  ghost predicate SameCut(a: seq<Bytes>, b: seq<Bytes>) {
    |a| == |b| && forall i | 0 <= i < |a| - 1 :: |a[i]| == |b[i]|
  }

  lemma {:induction false} FlattenInjective(a: seq<Bytes>, b: seq<Bytes>)
    requires SameCut(a, b) && Flatten(a) == Flatten(b)
    ensures a == b
  {
    if |a| == 1 {
      assert Flatten(a) == a[0] + Flatten(a[1..]) && Flatten(b) == b[0] + Flatten(b[1..]);
      assert a[1..] == [] && b[1..] == [];
      assert a[0] + [] == a[0] && b[0] + [] == b[0];
    } else if |a| > 1 {
      var n := |a[0]|;
      assert a[0] == Flatten(a)[..n] && b[0] == Flatten(b)[..n];
      assert Flatten(a[1..]) == Flatten(a)[n..] && Flatten(b[1..]) == Flatten(b)[n..];
      FlattenInjective(a[1..], b[1..]);
      assert a == [a[0]] + a[1..] && b == [b[0]] + b[1..];
    }
  }

  lemma {:induction false} FlattenLength(a: seq<Bytes>, b: seq<Bytes>)
    requires |a| == |b| && forall i | 0 <= i < |a| :: |a[i]| == |b[i]|
    ensures |Flatten(a)| == |Flatten(b)|
  {
    if a != [] {
      FlattenLength(a[1..], b[1..]);
    }
  }

  /** `data` is part `p` of a cut into `count` parts, of either of the two. */
  ghost predicate From(a: seq<Bytes>, b: seq<Bytes>, count: nat, p: nat, data: Bytes) {
    || (count == |a| && p < count && data == a[p])
    || (count == |b| && p < count && data == b[p])
  }

  /** `o` is a part of either of the two. */
  ghost predicate OneOf(a: seq<Bytes>, b: seq<Bytes>, n: nat, o: Offer) {
    o.newNum == n && From(a, b, o.parts, o.part, o.data)
  }

  /** As many parts as one of the two has, each of them that of one of the two. */
  ghost predicate Mix(a: seq<Bytes>, b: seq<Bytes>, m: seq<Bytes>) {
    (|m| == |a| || |m| == |b|) && forall i | 0 <= i < |m| :: From(a, b, |m|, i, m[i])
  }

  ghost predicate MixBuilding(a: seq<Bytes>, b: seq<Bytes>, s: State) {
    && Inv(s)
    && (s.parts > 0 ==> |s.slots| == |a| || |s.slots| == |b|)
    && forall i | 0 <= i < |s.slots| :: s.slots[i].Some? ==> From(a, b, |s.slots|, i, s.slots[i].value)
  }

  /** `u` is a mix of the two, within the limits. */
  ghost predicate MixUpdate(a: seq<Bytes>, b: seq<Bytes>, u: Bytes) {
    exists m :: Mix(a, b, m) && Sendable(m) && u == Flatten(m)
  }

  lemma MixPush(a: seq<Bytes>, b: seq<Bytes>, n: nat, s: State, o: Offer)
    requires MixBuilding(a, b, s) && OneOf(a, b, n, o)
    ensures MixBuilding(a, b, Push(s, o).0)
  {
    PushKeeps(s, o);
    hide Inv, Filled, Held, Join;
    assert |s.slots| == s.parts by { InvShape(s); }
    assert o.parts == |a| || o.parts == |b|;
    hide From;
  }

  lemma InvShape(s: State)
    requires Inv(s)
    ensures |s.slots| == s.parts
  {
  }

  lemma MixAnswer(a: seq<Bytes>, b: seq<Bytes>, n: nat, s: State, o: Offer)
    requires MixBuilding(a, b, s) && OneOf(a, b, n, o) && Sendable(a) && Sendable(b)
    requires Push(s, o).1.Complete?
    ensures MixUpdate(a, b, Push(s, o).1.update)
  {
    var t := Target(s, o);
    var slots := t.slots[o.part := Some(o.data)];
    EmptySlots(o.parts);
    FillOne(t.slots, o.part, o.data);
    FilledAtMost(slots);
    hide Sendable, MixUpdate, Filled, Held, Join;
    JoinOfMix(a, b, slots);
  }

  lemma JoinOfMix(a: seq<Bytes>, b: seq<Bytes>, slots: seq<Option<Bytes>>)
    requires Sendable(a) && Sendable(b) && Held(slots) <= MAX_UPDATE_BYTES
    requires |slots| == |a| || |slots| == |b|
    requires forall i | 0 <= i < |slots| :: slots[i].Some? && From(a, b, |slots|, i, slots[i].value)
    ensures MixUpdate(a, b, Join(slots))
  {
    hide Flatten, Join, Held;
    var m := seq(|slots|, i requires 0 <= i < |slots| => slots[i].value);
    JoinMatching(slots, m);
    HeldIsLength(slots);
    assert Mix(a, b, m);
    assert Sendable(m);
  }

  lemma {:induction false} HeldIsLength(slots: seq<Option<Bytes>>)
    ensures Held(slots) == |Join(slots)|
  {
    if slots != [] {
      HeldIsLength(slots[1..]);
    }
  }

  /** What comes out of the parts of two encodings is a mix of them, within the limits. */
  lemma {:induction false} MixRun(a: seq<Bytes>, b: seq<Bytes>, n: nat, offers: seq<Offer>)
    requires Sendable(a) && Sendable(b)
    requires forall i | 0 <= i < |offers| :: OneOf(a, b, n, offers[i])
    ensures MixBuilding(a, b, After(offers))
    ensures offers != [] && AnswerTo(offers).Complete? ==> MixUpdate(a, b, AnswerTo(offers).update)
  {
    if offers != [] {
      hide Push, MixBuilding, OneOf, Sendable, MixUpdate;
      var s, o := After(offers[..|offers| - 1]), offers[|offers| - 1];
      MixRun(a, b, n, offers[..|offers| - 1]);
      MixPush(a, b, n, s, o);
      if AnswerTo(offers).Complete? {
        MixAnswer(a, b, n, s, o);
      }
    }
  }

  /** Every mix within the limits does come out. */
  lemma MixedEncodings(a: seq<Bytes>, b: seq<Bytes>, n: nat, m: seq<Bytes>) returns (offers: seq<Offer>)
    requires Mix(a, b, m) && Sendable(m)
    ensures offers != [] && forall i | 0 <= i < |offers| :: OneOf(a, b, n, offers[i])
    ensures AnswerTo(offers) == Complete(Flatten(m))
  {
    hide After, AnswerTo, Flatten;
    var sent: Sender := _ => m;
    var all := seq(|m|, p requires 0 <= p < |m| => Offer(n, p, |m|, m[p]));
    forall p | 0 <= p < |sent(n)| ensures Offered(all, n, p) {
      assert all[p].newNum == n && all[p].part == p;
    }
    AllPartsComplete(sent, all, n);
    var k :| 0 < k <= |all| && all[k - 1].newNum == n && AnswerTo(all[..k]).Complete?;
    offers := all[..k];
    ComesOutAsSent(sent, offers);
  }

  /** Whichever parts of the two arrive, only one of the two comes out. */
  ghost predicate Faithful(a: seq<Bytes>, b: seq<Bytes>, n: nat) {
    forall offers | offers != [] && (forall i | 0 <= i < |offers| :: OneOf(a, b, n, offers[i])) ::
      AnswerTo(offers).Complete? ==> AnswerTo(offers).update == Flatten(a) || AnswerTo(offers).update == Flatten(b)
  }

  /** Unequally many parts, or a difference in at most one of them. */
  ghost predicate Compatible(a: seq<Bytes>, b: seq<Bytes>) {
    |a| != |b| || forall i, j | 0 <= i < j < |a| :: a[i] == b[i] || a[j] == b[j]
  }

  lemma MixOfCompatible(a: seq<Bytes>, b: seq<Bytes>, m: seq<Bytes>)
    requires Mix(a, b, m) && Compatible(a, b)
    ensures m == a || m == b
  {
    if |a| == |b| && m != a {
      var i :| 0 <= i < |m| && m[i] != a[i];
      assert From(a, b, |m|, i, m[i]);
      assert forall j | 0 <= j < |m| && j != i :: a[j] == b[j];
      assert forall j | 0 <= j < |m| :: From(a, b, |m|, j, m[j]);
    } else {
      assert forall j | 0 <= j < |m| :: From(a, b, |m|, j, m[j]);
    }
  }

  /**
    Any two encodings of one state number may both be in flight exactly when
    no mix of them within the limits is an update of its own.
   */
  lemma FaithfulMeansNoMix(a: seq<Bytes>, b: seq<Bytes>, n: nat)
    requires Sendable(a) && Sendable(b)
    ensures Faithful(a, b, n) <==>
            forall m | Mix(a, b, m) && Sendable(m) :: Flatten(m) == Flatten(a) || Flatten(m) == Flatten(b)
  {
    if Faithful(a, b, n) {
      forall m | Mix(a, b, m) && Sendable(m)
        ensures Flatten(m) == Flatten(a) || Flatten(m) == Flatten(b)
      {
        var offers := MixedEncodings(a, b, n, m);
      }
    }
    if forall m | Mix(a, b, m) && Sendable(m) :: Flatten(m) == Flatten(a) || Flatten(m) == Flatten(b) {
      forall offers | offers != [] && forall i | 0 <= i < |offers| :: OneOf(a, b, n, offers[i])
        ensures AnswerTo(offers).Complete? ==> AnswerTo(offers).update == Flatten(a) || AnswerTo(offers).update == Flatten(b)
      {
        MixRun(a, b, n, offers);
      }
    }
  }

  /**
    For two encodings of which any equally many parts were cut at one size
    that is exactly when they have unequally many parts or differ in at most
    one: otherwise the reassembler can put out an update nobody sent.
   */
  lemma FaithfulExactlyWhen(a: seq<Bytes>, b: seq<Bytes>, n: nat)
    requires Sendable(a) && Sendable(b) && (|a| == |b| ==> SameCut(a, b))
    ensures Faithful(a, b, n) <==> Compatible(a, b)
  {
    FaithfulMeansNoMix(a, b, n);
    if Compatible(a, b) {
      forall m | Mix(a, b, m) ensures m == a || m == b {
        MixOfCompatible(a, b, m);
      }
    } else {
      var i, j :| 0 <= i < j < |a| && a[i] != b[i] && a[j] != b[j];
      var offers := Unfaithful(a, b, n, i, j);
    }
  }

  lemma Unfaithful(a: seq<Bytes>, b: seq<Bytes>, n: nat, i: nat, j: nat) returns (offers: seq<Offer>)
    requires Sendable(a) && Sendable(b) && SameCut(a, b)
    requires i < j < |a| && a[i] != b[i] && a[j] != b[j]
    ensures offers != [] && forall k | 0 <= k < |offers| :: OneOf(a, b, n, offers[k])
    ensures AnswerTo(offers).Complete?
    ensures AnswerTo(offers).update != Flatten(a) && AnswerTo(offers).update != Flatten(b)
  {
    var m := b[i := a[i]];
    FlattenLength(m, b);
    offers := MixedEncodings(a, b, n, m);
    assert m[j] == b[j] && m[i] == a[i];
    if Flatten(m) == Flatten(a) {
      FlattenInjective(m, a);
      assert false;
    }
    if Flatten(m) == Flatten(b) {
      FlattenInjective(m, b);
      assert false;
    }
  }

  /** For instance, two updates of two one-byte parts. */
  lemma UnfaithfulExample(n: nat)
    ensures !Faithful([[0], [0]], [[1], [1]], n)
  {
    var a: seq<Bytes>, b: seq<Bytes> := [[0], [0]], [[1], [1]];
    FlattenTwo(a);
    FlattenTwo(b);
    assert a[0] != b[0] && a[1] != b[1];
    FaithfulExactlyWhen(a, b, n);
  }

  lemma FlattenTwo(a: seq<Bytes>)
    requires |a| == 2
    ensures Flatten(a) == a[0] + a[1]
  {
    assert Flatten(a[1..]) == a[1] + Flatten(a[1..][1..]);
    assert a[1..][1..] == [] && a[1] + [] == a[1];
  }

  // ---- In place ----

  class DatagramReassembler {
    var newNum: nat
    var done: nat
    var parts: nat
    var got: nat
    var slots: seq<Option<Bytes>>
    var bytes: nat

    ghost function Abs(): State
      reads this
    {
      State(newNum, done, parts, got, slots, bytes)
    }

    constructor ()
      ensures Abs() == IDLE
    {
      newNum, done, parts, got, slots, bytes := 0, 0, 0, 0, [], 0;
    }

    method Clear()
      modifies this
      ensures Abs() == Reset(old(Abs()))
    {
      parts, got, slots, bytes := 0, 0, [], 0;
    }

    method Accept(o: Offer) returns (a: Answer)
      requires |slots| == parts
      modifies this
      ensures |slots| == parts
      ensures (Abs(), a) == Push(old(Abs()), o)
    {
      if o.parts == 0 || o.parts > MAX_DATAGRAM_PARTS || o.part >= o.parts {
        return Numbering;
      }
      if |o.data| > PART_MAX {
        return TooLarge;
      }
      if o.newNum < done || (parts != 0 && o.newNum < newNum) {
        return More;
      }
      if parts == 0 || o.newNum > newNum {
        Clear();
        newNum, parts, slots := o.newNum, o.parts, seq(o.parts, _ => None);
      } else if o.parts != parts {
        Clear();
        return OutOfOrder;
      }
      if slots[o.part].Some? {
        return More;
      }
      if bytes + |o.data| > MAX_UPDATE_BYTES {
        Clear();
        return TooLarge;
      }
      bytes, slots, got := bytes + |o.data|, slots[o.part := Some(o.data)], got + 1;
      if got == parts {
        var update := Join(slots);
        Clear();
        done := o.newNum;
        return Complete(update);
      }
      return More;
    }
  }
}
