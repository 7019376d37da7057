/**
  The datagram hub (crates/qsh-core/src/datagram.rs, `DatagramHub` and
  `DatagramRx`): one reader per connection demultiplexes datagrams into the
  bounded queues of whoever registered their channel. Registering, receiving
  and dropping may happen between the reader's look-up of a channel and its
  hand-over of the frame.
 */
module DatagramHubModel {
  import opened DatagramFrames
  import opened Options

  const CHANNEL_QUEUE: nat := 256

  /** One `DatagramRx`. `delivered` and `received` are the full history of its queue. */
  datatype Rx = Rx(channel: ChannelId, open: bool, queue: seq<Frame>, delivered: seq<Frame>, received: seq<Frame>)

  datatype Counters = Counters(malformed: nat, unknown: nat, overflow: nat, delivered: nat)

  /** What the reader is doing: waiting, or holding a frame with the sender it looked up. */
  datatype Reader = Waiting | Holding(frame: Frame, rx: nat)

  /** `read` is every datagram taken from the connection; `log` is every hand-over, in order. */
  datatype State = State(
    channels: map<ChannelId, nat>,
    rxs: map<nat, Rx>,
    counters: Counters,
    reader: Reader,
    read: seq<seq<byte>>,
    log: seq<(nat, Frame)>)

  const EMPTY_HUB := State(map[], map[], Counters(0, 0, 0, 0), Waiting, [], [])

  datatype Step =
    | Register(rx: nat, channel: ChannelId)
    | Read(bytes: seq<byte>)
    | HandOver
    | Receive(rx: nat)
    | Drop(rx: nat)

  predicate Enabled(s: State, step: Step) {
    match step
    case Register(rx, _) => rx !in s.rxs
    case Read(_) => s.reader.Waiting?
    case HandOver => s.reader.Holding? && s.reader.rx in s.rxs
    case Receive(rx) => rx in s.rxs && s.rxs[rx].open && s.rxs[rx].queue != []
    case Drop(rx) => rx in s.rxs && s.rxs[rx].open
  }

  function Registered(s: State, rx: nat, channel: ChannelId): State {
    s.(channels := s.channels[channel := rx], rxs := s.rxs[rx := Rx(channel, true, [], [], [])])
  }

  /** The reader takes one datagram: decode, then look up the channel. */
  function Taken(s: State, bytes: seq<byte>): State {
    var s1 := s.(read := s.read + [bytes]);
    match Decode(bytes)
    case Ok(frame) =>
      if frame.channel in s.channels then s1.(reader := Holding(frame, s.channels[frame.channel]))
      else s1.(counters := s.counters.(unknown := s.counters.unknown + 1))
    case _ => s1.(counters := s.counters.(malformed := s.counters.malformed + 1))
  }

  /** `try_send` to the sender looked up before: full or closed counts as overflow. */
  function HandedOver(s: State): State
    requires s.reader.Holding? && s.reader.rx in s.rxs
  {
    var frame, id := s.reader.frame, s.reader.rx;
    var rx := s.rxs[id];
    var s1 := s.(reader := Waiting);
    if rx.open && |rx.queue| < CHANNEL_QUEUE then
      s1.(rxs := s.rxs[id := rx.(queue := rx.queue + [frame], delivered := rx.delivered + [frame])],
          counters := s.counters.(delivered := s.counters.delivered + 1),
          log := s.log + [(id, frame)])
    else s1.(counters := s.counters.(overflow := s.counters.overflow + 1))
  }

  function Received(s: State, id: nat): State
    requires id in s.rxs && s.rxs[id].queue != []
  {
    var rx := s.rxs[id];
    s.(rxs := s.rxs[id := rx.(queue := rx.queue[1..], received := rx.received + [rx.queue[0]])])
  }

  /** Dropping the receiver unregisters its channel, whoever holds that entry now. */
  function Dropped(s: State, id: nat): State
    requires id in s.rxs
  {
    s.(channels := s.channels - {s.rxs[id].channel},
       rxs := s.rxs[id := s.rxs[id].(open := false, queue := [])])
  }

  function Apply(s: State, step: Step): State
    requires Enabled(s, step)
  {
    match step
    case Register(rx, channel) => Registered(s, rx, channel)
    case Read(bytes) => Taken(s, bytes)
    case HandOver => HandedOver(s)
    case Receive(rx) => Received(s, rx)
    case Drop(rx) => Dropped(s, rx)
  }

  ghost predicate Reaches(s: State, steps: seq<Step>, s': State)
    decreases steps
  {
    if steps == [] then s == s'
    else Enabled(s, steps[0]) && Reaches(Apply(s, steps[0]), steps[1..], s')
  }

  // ---- The invariant ----

  /** The hand-overs to one receiver, in order. */
  function LogOf(log: seq<(nat, Frame)>, id: nat): seq<Frame> {
    if log == [] then []
    else
      var last := log[|log| - 1];
      if last.0 == id then LogOf(log[..|log| - 1], id) + [last.1] else LogOf(log[..|log| - 1], id)
  }

  function LogFrames(log: seq<(nat, Frame)>): seq<Frame> { seq(|log|, i requires 0 <= i < |log| => log[i].1) }

  /** `a` is `b` with some elements left out. */
  ghost predicate Subsequence<T(!new)>(a: seq<T>, b: seq<T>)
    decreases b
  {
    if b == [] then a == []
    else
      || Subsequence(a, b[..|b| - 1])
      || (a != [] && a[|a| - 1] == b[|b| - 1] && Subsequence(a[..|a| - 1], b[..|b| - 1]))
  }

  /** The well-formed frames among the datagrams read, in order. */
  function Arrivals(read: seq<seq<byte>>): seq<Frame> {
    if read == [] then []
    else
      var front := Arrivals(read[..|read| - 1]);
      match Decode(read[|read| - 1])
      case Ok(frame) => front + [frame]
      case _ => front
  }

  /** The arrivals the reader is done with. */
  function Settled(s: State): seq<Frame> {
    var all := Arrivals(s.read);
    if s.reader.Holding? && all != [] then all[..|all| - 1] else all
  }

  ghost predicate RxOk(s: State, id: nat)
    requires id in s.rxs
  {
    var rx := s.rxs[id];
    && |rx.queue| <= CHANNEL_QUEUE
    && (if rx.open then rx.received + rx.queue == rx.delivered else rx.received <= rx.delivered && rx.queue == [])
    && rx.delivered == LogOf(s.log, id)
    && (forall i | 0 <= i < |rx.delivered| :: rx.delivered[i].channel == rx.channel)
  }

  ghost predicate TablesOk(s: State) {
    && (forall c | c in s.channels :: s.channels[c] in s.rxs && s.rxs[s.channels[c]].channel == c)
    && (s.reader.Holding? ==> s.reader.rx in s.rxs && s.rxs[s.reader.rx].channel == s.reader.frame.channel)
    && (forall i | 0 <= i < |s.log| :: s.log[i].0 in s.rxs)
  }

  ghost predicate AccountsOk(s: State) {
    && (s.reader.Holding? ==> Arrivals(s.read) != [] && Arrivals(s.read)[|Arrivals(s.read)| - 1] == s.reader.frame)
    && |s.read| == s.counters.malformed + s.counters.unknown + s.counters.overflow + s.counters.delivered
                   + (if s.reader.Holding? then 1 else 0)
    && s.counters.delivered == |s.log|
    && Subsequence(LogFrames(s.log), Settled(s))
  }

  ghost predicate Inv(s: State) {
    (forall id | id in s.rxs :: RxOk(s, id)) && TablesOk(s) && AccountsOk(s)
  }

  lemma LogOfAppend(log: seq<(nat, Frame)>, id: nat, frame: Frame, other: nat)
    ensures LogOf(log + [(id, frame)], other) == if other == id then LogOf(log, other) + [frame] else LogOf(log, other)
  {
    assert (log + [(id, frame)])[..|log|] == log;
  }

  lemma {:induction false} LogOfUnknown(log: seq<(nat, Frame)>, id: nat)
    requires forall i | 0 <= i < |log| :: log[i].0 != id
    ensures LogOf(log, id) == []
  {
    if log != [] {
      LogOfUnknown(log[..|log| - 1], id);
    }
  }

  lemma SubsequenceSkip<T(!new)>(a: seq<T>, b: seq<T>, x: T)
    requires Subsequence(a, b)
    ensures Subsequence(a, b + [x])
  {
    assert (b + [x])[..|b|] == b;
  }

  lemma SubsequenceTake<T(!new)>(a: seq<T>, b: seq<T>, x: T)
    requires Subsequence(a, b)
    ensures Subsequence(a + [x], b + [x])
  {
    assert (b + [x])[..|b|] == b && (a + [x])[..|a|] == a;
  }

  lemma RegisterKeeps(s: State, id: nat, channel: ChannelId)
    requires Inv(s) && id !in s.rxs
    ensures Inv(Registered(s, id, channel))
  {
    var s' := Registered(s, id, channel);
    forall other | other in s'.rxs
      ensures RxOk(s', other)
    {
      if other == id {
        assert forall i | 0 <= i < |s.log| :: s.log[i].0 in s.rxs;
        LogOfUnknown(s.log, id);
      } else {
        assert RxOk(s, other);
      }
    }
    assert TablesOk(s') && AccountsOk(s');
  }

  lemma ReadKeeps(s: State, bytes: seq<byte>)
    requires Inv(s) && s.reader.Waiting?
    ensures Inv(Taken(s, bytes))
  {
    var s' := Taken(s, bytes);
    assert s'.read[..|s.read|] == s.read;
    forall id | id in s'.rxs
      ensures RxOk(s', id)
    {
      assert RxOk(s, id);
    }
    if Decode(bytes).Ok? {
      var frame := Decode(bytes).frame;
      assert Arrivals(s'.read) == Arrivals(s.read) + [frame];
      SubsequenceSkip(LogFrames(s.log), Arrivals(s.read), frame);
      assert s'.reader.Holding? ==> Settled(s') == Arrivals(s.read);
    }
  }

  lemma HandOverKeepsRx(s: State, other: nat)
    requires Inv(s) && s.reader.Holding? && s.reader.rx in s.rxs && other in s.rxs
    ensures RxOk(HandedOver(s), other)
  {
    assert RxOk(s, other);
    LogOfAppend(s.log, s.reader.rx, s.reader.frame, other);
  }

  lemma HandOverKeepsAccounts(s: State)
    requires AccountsOk(s) && s.reader.Holding? && s.reader.rx in s.rxs
    ensures AccountsOk(HandedOver(s))
  {
    var s', frame := HandedOver(s), s.reader.frame;
    assert Settled(s) + [frame] == Arrivals(s.read);
    if s'.log == s.log {
      SubsequenceSkip(LogFrames(s.log), Settled(s), frame);
    } else {
      SubsequenceTake(LogFrames(s.log), Settled(s), frame);
      assert LogFrames(s'.log) == LogFrames(s.log) + [frame];
    }
  }

  lemma HandOverKeeps(s: State)
    requires Inv(s) && s.reader.Holding? && s.reader.rx in s.rxs
    ensures Inv(HandedOver(s))
  {
    forall other | other in s.rxs
      ensures RxOk(HandedOver(s), other)
    {
      HandOverKeepsRx(s, other);
    }
    HandOverKeepsAccounts(s);
  }

  lemma ReceiveKeeps(s: State, id: nat)
    requires Inv(s) && id in s.rxs && s.rxs[id].open && s.rxs[id].queue != []
    ensures Inv(Received(s, id))
  {
    var s' := Received(s, id);
    forall other | other in s'.rxs
      ensures RxOk(s', other)
    {
      assert RxOk(s, other);
      if other == id {
        var rx := s.rxs[id];
        assert rx.received + [rx.queue[0]] + rx.queue[1..] == rx.received + rx.queue;
      }
    }
  }

  lemma DropKeeps(s: State, id: nat)
    requires Inv(s) && id in s.rxs && s.rxs[id].open
    ensures Inv(Dropped(s, id))
  {
    var s' := Dropped(s, id);
    forall other | other in s'.rxs
      ensures RxOk(s', other)
    {
      assert RxOk(s, other);
    }
  }

  lemma StepKeeps(s: State, step: Step)
    requires Inv(s) && Enabled(s, step)
    ensures Inv(Apply(s, step))
  {
    match step
    case Register(rx, channel) => RegisterKeeps(s, rx, channel);
    case Read(bytes) => ReadKeeps(s, bytes);
    case HandOver => HandOverKeeps(s);
    case Receive(rx) => ReceiveKeeps(s, rx);
    case Drop(rx) => DropKeeps(s, rx);
  }

  lemma {:induction false} RunKeeps(s: State, steps: seq<Step>, s': State)
    requires Inv(s) && Reaches(s, steps, s')
    ensures Inv(s')
    decreases steps
  {
    if steps != [] {
      StepKeeps(s, steps[0]);
      RunKeeps(Apply(s, steps[0]), steps[1..], s');
    }
  }

  // ---- What holds of every run ----

  /** Every datagram read is accounted for, once. */
  lemma DatagramsConserved(steps: seq<Step>, s: State)
    requires Reaches(EMPTY_HUB, steps, s) && s.reader.Waiting?
    ensures |s.read| == s.counters.malformed + s.counters.unknown + s.counters.overflow + s.counters.delivered
    ensures s.counters.delivered == |s.log|
  {
    RunKeeps(EMPTY_HUB, steps, s);
  }

  /**
    A receiver gets a prefix of exactly the frames handed to it, all of its
    own channel, never more than the queue bound behind; and all hand-overs
    are in arrival order.
   */
  lemma ReceiversSeeAPrefix(steps: seq<Step>, s: State, id: nat)
    requires Reaches(EMPTY_HUB, steps, s) && id in s.rxs
    ensures var rx := s.rxs[id];
            && rx.received <= LogOf(s.log, id)
            && (rx.open ==> |LogOf(s.log, id)| - |rx.received| <= CHANNEL_QUEUE)
            && (forall i | 0 <= i < |rx.received| :: rx.received[i].channel == rx.channel)
    ensures Subsequence(LogFrames(s.log), Arrivals(s.read))
  {
    RunKeeps(EMPTY_HUB, steps, s);
    assert RxOk(s, id);
    var rx := s.rxs[id];
    assert rx.received <= rx.delivered;
    if s.reader.Holding? {
      var all := Arrivals(s.read);
      assert Settled(s) + [all[|all| - 1]] == all;
      SubsequenceSkip(LogFrames(s.log), Settled(s), all[|all| - 1]);
    }
  }

  /** Nothing is created or removed by a datagram. */
  lemma ArrivalsCreateNothing(s: State, step: Step)
    requires Enabled(s, step) && (step.Read? || step.HandOver?)
    ensures Apply(s, step).channels == s.channels && Apply(s, step).rxs.Keys == s.rxs.Keys
    ensures forall id | id in s.rxs :: Apply(s, step).rxs[id].received == s.rxs[id].received
  {
  }

  // ---- Routing, and when it can be relied on ----

  /** Every live receiver is the one its channel is routed to. */
  ghost predicate Routed(s: State) {
    forall id | id in s.rxs && s.rxs[id].open :: s.rxs[id].channel in s.channels && s.channels[s.rxs[id].channel] == id
  }

  /** Channel ids are not reused while live. */
  ghost predicate Distinct(s: State, step: Step) {
    step.Register? ==> forall id | id in s.rxs && s.rxs[id].open :: s.rxs[id].channel != step.channel
  }

  /** A registration keeps all live receivers routed exactly when it does not reuse a live channel id. */
  lemma RoutingKeptExactlyWhenDistinct(s: State, step: Step)
    requires Inv(s) && Routed(s) && Enabled(s, step)
    ensures Routed(Apply(s, step)) <==> Distinct(s, step)
  {
    var s' := Apply(s, step);
    if step.Register? {
      if id :| id in s.rxs && s.rxs[id].open && s.rxs[id].channel == step.channel {
        assert s'.rxs[id] == s.rxs[id] && s'.channels[step.channel] == step.rx != id;
        assert !Routed(s');
      }
    }
  }

  /** What goes wrong otherwise: the old receiver's drop unroutes the new one. */
  lemma ReuseUnroutes(s: State, old_: nat, new_: nat, channel: ChannelId)
    requires old_ in s.rxs && s.rxs[old_].open && s.rxs[old_].channel == channel && new_ !in s.rxs
    ensures var s' := Dropped(Registered(s, new_, channel), old_);
            s'.rxs[new_].open && channel !in s'.channels
  {
  }

  // ---- The hub that works in place ----

  /** The reader's turn on one datagram, uninterrupted. */
  function ReadOne(s: State, bytes: seq<byte>): State {
    var s1 := Taken(s, bytes);
    if s1.reader.Holding? && s1.reader.rx in s1.rxs then HandedOver(s1) else s1
  }

  function ReadAll(s: State, datagrams: seq<seq<byte>>): State {
    if datagrams == [] then s
    else ReadOne(ReadAll(s, datagrams[..|datagrams| - 1]), datagrams[|datagrams| - 1])
  }

  lemma ReadOneKeeps(s: State, bytes: seq<byte>)
    requires Inv(s) && s.reader.Waiting?
    ensures Inv(ReadOne(s, bytes)) && ReadOne(s, bytes).reader.Waiting?
  {
    hide RxOk, AccountsOk;
    ReadKeeps(s, bytes);
    var taken := Taken(s, bytes);
    if taken.reader.Holding? {
      HandOverKeeps(taken);
    }
  }

  /** A frame is queued exactly when its receiver is there and has fewer than 256 waiting. */
  lemma HandOverExactly(s: State)
    requires s.reader.Holding? && s.reader.rx in s.rxs
    ensures var frame, id, s' := s.reader.frame, s.reader.rx, HandedOver(s); var rx := s.rxs[id];
            && s'.rxs.Keys == s.rxs.Keys && (forall other | other in s.rxs && other != id :: s'.rxs[other] == s.rxs[other])
            && (if rx.open && |rx.queue| < 256 then
                  && s'.rxs[id].queue == rx.queue + [frame] && s'.rxs[id].open && s'.rxs[id].received == rx.received
                  && s'.counters == s.counters.(delivered := s.counters.delivered + 1)
                else s'.rxs[id] == rx && s'.counters == s.counters.(overflow := s.counters.overflow + 1))
  {
  }

  /** Where a frame for `channel` goes, if there is room. */
  predicate HasRoom(s: State, channel: ChannelId) {
    channel in s.channels && s.channels[channel] in s.rxs
    && s.rxs[s.channels[channel]].open && |s.rxs[s.channels[channel]].queue| < 256
  }

  /**
    One datagram adds one to exactly one counter, and is queued exactly when it
    decodes and its registered receiver has room.
   */
  lemma ReadOneExactly(s: State, bytes: seq<byte>)
    requires Inv(s) && s.reader.Waiting?
    ensures var s', d, c := ReadOne(s, bytes), Decode(bytes), s.counters;
            && s'.channels == s.channels && s'.read == s.read + [bytes]
            && (!d.Ok? ==> s'.rxs == s.rxs && s'.counters == c.(malformed := c.malformed + 1))
            && (d.Ok? && d.frame.channel !in s.channels ==> s'.rxs == s.rxs && s'.counters == c.(unknown := c.unknown + 1))
            && (d.Ok? && d.frame.channel in s.channels && !HasRoom(s, d.frame.channel) ==>
                  s'.rxs == s.rxs && s'.counters == c.(overflow := c.overflow + 1))
            && (d.Ok? && HasRoom(s, d.frame.channel) ==>
                  var id := s.channels[d.frame.channel];
                  && id in s'.rxs && s'.rxs[id].queue == s.rxs[id].queue + [d.frame]
                  && s'.counters == c.(delivered := c.delivered + 1))
  {
    hide RxOk, AccountsOk;
  }

  class DatagramHub {
    var channels: map<ChannelId, nat>
    /** The queues of the receivers that are still there. */
    var queues: map<nat, seq<Frame>>
    var counters: Counters
    ghost var model: State

    /** The fields are those of the model. */
    ghost predicate Mirrors()
      reads this
    {
      && model.reader.Waiting?
      && channels == model.channels && counters == model.counters
      && (forall id :: id in queues <==> id in model.rxs && model.rxs[id].open)
      && (forall id | id in queues :: queues[id] == model.rxs[id].queue)
    }

    ghost predicate Valid()
      reads this
    {
      Mirrors() && Inv(model)
    }

    /** What the invariant says of the fields themselves. */
    lemma Accounted()
      requires Valid()
      ensures |model.read| == counters.malformed + counters.unknown + counters.overflow + counters.delivered
      ensures counters.delivered == |model.log|
      ensures forall rx | rx in queues ::
                && |queues[rx]| <= CHANNEL_QUEUE
                && model.rxs[rx].received + queues[rx] == LogOf(model.log, rx)
    {
      forall rx | rx in queues
        ensures RxOk(model, rx)
      {
      }
    }

    constructor ()
      ensures Valid() && model == EMPTY_HUB
    {
      channels, queues, counters, model := map[], map[], Counters(0, 0, 0, 0), EMPTY_HUB;
    }

    method RegisterChannel(rx: nat, channel: ChannelId)
      requires Valid() && rx !in model.rxs
      modifies this
      ensures Valid() && model == Registered(old(model), rx, channel)
    {
      hide Inv;
      RegisterKeeps(model, rx, channel);
      channels, queues := channels[channel := rx], queues[rx := []];
      model := Registered(model, rx, channel);
    }

    method TakeOne(bytes: seq<byte>)
      requires Valid()
      modifies this
      ensures Valid() && model == ReadOne(old(model), bytes)
    {
      hide TablesOk, RxOk, AccountsOk, ReadOne;
      ReadOneKeeps(model, bytes);
      Route(bytes);
    }

    /** The body of the read loop: decode, look up, hand over, count. */
    method Route(bytes: seq<byte>)
      requires Mirrors() && TablesOk(model)
      modifies this
      ensures Mirrors() && model == ReadOne(old(model), bytes)
    {
      model := ReadOne(model, bytes);
      match Decode(bytes) {
        case Ok(frame) =>
          if frame.channel !in channels {
            counters := counters.(unknown := counters.unknown + 1);
          } else {
            var rx := channels[frame.channel];
            if rx in queues && |queues[rx]| < CHANNEL_QUEUE {
              queues := queues[rx := queues[rx] + [frame]];
              counters := counters.(delivered := counters.delivered + 1);
            } else {
              counters := counters.(overflow := counters.overflow + 1);
            }
          }
        case _ => counters := counters.(malformed := counters.malformed + 1);
      }
    }

    /** The read loop over the datagrams that arrive before the connection closes. */
    method ReadLoop(datagrams: seq<seq<byte>>)
      requires Valid()
      modifies this
      ensures Valid() && model == ReadAll(old(model), datagrams)
    {
      assert datagrams[..0] == [];
      for i := 0 to |datagrams|
        invariant Valid() && model == ReadAll(old(model), datagrams[..i])
      {
        assert datagrams[..i + 1][..i] == datagrams[..i];
        TakeOne(datagrams[i]);
      }
      assert datagrams[..|datagrams|] == datagrams;
    }

    method Recv(rx: nat) returns (frame: Option<Frame>)
      requires Valid() && rx in queues
      modifies this
      ensures Valid()
      ensures old(queues[rx]) == [] ==> frame.None? && model == old(model)
      ensures old(queues[rx]) != [] ==>
                frame == Some(old(queues[rx])[0]) && model == Received(old(model), rx)
    {
      if queues[rx] == [] {
        return None;
      }
      hide Inv;
      ReceiveKeeps(model, rx);
      frame := Some(queues[rx][0]);
      queues := queues[rx := queues[rx][1..]];
      model := Received(model, rx);
    }

    method DropRx(rx: nat, channel: ChannelId)
      requires Valid() && rx in queues && model.rxs[rx].channel == channel
      modifies this
      ensures Valid() && model == Dropped(old(model), rx)
    {
      hide Inv;
      DropKeeps(model, rx);
      channels, queues := channels - {channel}, queues - {rx};
      model := Dropped(model, rx);
    }
  }
}
