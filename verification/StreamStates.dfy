/** How a packet stream hands its states to its adapters (src/base/src/packetstream.cpp, and `setState` of
    src/base/include/scy/stateful.h).

    `process` and `close` synchronize under one lock. Any thread may set a state or change the list of adapters
    at any time; setting a state assigns it first and queues it later. The machine interleaves all of them.
 */
module StreamStates {

  datatype StreamState = None | Locked | Active | Paused | Stopping | Stopped | Closed | Error

  /** A call that synchronizes: `process` for a packet and the processor that was first when it was called, or
      `close`. */
  datatype Job<A, P> = Packet(packet: P, first: A) | Closing

  /** `at` is the position of the job's arrival in the log. */
  datatype Event<A, P> =
    | Queued(state: StreamState)
    | Sent(state: StreamState, adapter: A)
    | Arrived(job: Job<A, P>)
    | Entered(packet: P, processor: A, at: nat)
    | Rejected(packet: P, at: nat)
    | Flushed(at: nat)

  /** `left` are the adapters still to be told, of those attached when the telling began. */
  datatype Phase<A, P> =
    | Free
    | Synchronizing(job: Job<A, P>, at: nat)
    | Popped(job: Job<A, P>, at: nat, sending: StreamState)
    | Notifying(job: Job<A, P>, at: nat, sending: StreamState, left: seq<A>)
    | Ready(job: Job<A, P>, at: nat)

  datatype Waiting<A, P> = Waiting(job: Job<A, P>, at: nat)

  /** `unqueued` counts the assignments of `current` whose states are not in the queue yet. */
  datatype State<A, P> = State(adapters: seq<A>, current: StreamState, unqueued: nat, queue: seq<StreamState>,
                               waiting: seq<Waiting<A, P>>, phase: Phase<A, P>, log: seq<Event<A, P>>)

  datatype Action<A, P> =
    | Assign(id: StreamState)
    | Push
    | SetAdapters(list: seq<A>)
    | Arrive(job: Job<A, P>)
    | Acquire(index: nat)
    | Check
    | Look
    | Notify
    | Go

  predicate Enabled<A, P>(s: State<A, P>, action: Action<A, P>) {
    match action
    case Push => s.unqueued > 0
    case Acquire(i) => s.phase.Free? && i < |s.waiting|
    case Check => s.phase.Synchronizing?
    case Look => s.phase.Popped?
    case Notify => s.phase.Notifying?
    case Go => s.phase.Ready?
    case _ => true
  }

  /** `setState` leaves out a state equal to the current one, but two threads may both find theirs new, so any
      state may be assigned. What is queued is the state at the time of queueing, since `setState` passes it on by reference. A packet
      enters its processor if the stream is active at that moment. */
  function Apply<A, P>(s: State<A, P>, action: Action<A, P>): State<A, P>
    requires Enabled(s, action)
  {
    match action
    case Assign(id) => s.(current := id, unqueued := s.unqueued + 1)
    case Push => s.(unqueued := s.unqueued - 1, queue := s.queue + [s.current], log := s.log + [Queued(s.current)])
    case SetAdapters(list) => s.(adapters := list)
    case Arrive(job) => s.(waiting := s.waiting + [Waiting(job, |s.log|)], log := s.log + [Arrived(job)])
    case Acquire(i) =>
      s.(phase := Synchronizing(s.waiting[i].job, s.waiting[i].at), waiting := s.waiting[..i] + s.waiting[i + 1..])
    case Check =>
      if s.queue == [] then s.(phase := Ready(s.phase.job, s.phase.at))
      else s.(phase := Popped(s.phase.job, s.phase.at, s.queue[0]), queue := s.queue[1..])
    case Look => s.(phase := Notifying(s.phase.job, s.phase.at, s.phase.sending, s.adapters))
    case Notify =>
      var left := s.phase.left;
      if left == [] then s.(phase := Synchronizing(s.phase.job, s.phase.at))
      else s.(phase := s.phase.(left := left[1..]), log := s.log + [Sent(s.phase.sending, left[0])])
    case Go => s.(phase := Free, log := s.log + [Outcome(s.phase.job, s.phase.at, s.current)])
  }

  function Outcome<A, P>(job: Job<A, P>, at: nat, current: StreamState): Event<A, P> {
    if job.Closing? then Flushed(at)
    else if current == Active then Entered(job.packet, job.first, at)
    else Rejected(job.packet, at)
  }

  predicate Leads<A(==), P(==)>(s: State<A, P>, actions: seq<Action<A, P>>, s': State<A, P>)
    decreases |actions|
  {
    if actions == [] then s == s'
    else Enabled(s, actions[0]) && Leads(Apply(s, actions[0]), actions[1..], s')
  }

  function Initial<A, P>(adapters: seq<A>): State<A, P> {
    State(adapters, None, 0, [], [], Free, [])
  }

  // Reading the log

  function QueuedIn<A, P>(log: seq<Event<A, P>>): seq<StreamState> {
    if log == [] then []
    else
      var last := log[|log| - 1];
      QueuedIn(log[..|log| - 1]) + if last.Queued? then [last.state] else []
  }

  /** The states an adapter was told, in order. */
  function SentTo<A(==), P>(log: seq<Event<A, P>>, a: A): seq<StreamState> {
    if log == [] then []
    else
      var last := log[|log| - 1];
      SentTo(log[..|log| - 1], a) + if last.Sent? && last.adapter == a then [last.state] else []
  }

  lemma LogOneMore<A, P>(log: seq<Event<A, P>>, event: Event<A, P>, a: A)
    ensures QueuedIn(log + [event]) == QueuedIn(log) + (if event.Queued? then [event.state] else [])
    ensures SentTo(log + [event], a) == SentTo(log, a) + (if event.Sent? && event.adapter == a then [event.state] else [])
  {
    assert (log + [event])[..|log|] == log;
  }

  lemma {:induction false} QueuedGrows<A, P>(log: seq<Event<A, P>>, k: nat)
    requires k <= |log|
    ensures QueuedIn(log[..k]) <= QueuedIn(log)
    decreases |log|
  {
    if k == |log| {
      assert log[..k] == log;
    } else {
      QueuedGrows(log[..|log| - 1], k);
      assert log[..|log| - 1][..k] == log[..k];
    }
  }

  // Invariants, for one adapter

  /** Attached once, and so to be told once at most of the state being sent. */
  predicate IsAttached<A(==), P>(s: State<A, P>, a: A) {
    multiset(s.adapters)[a] == 1 && (s.phase.Notifying? ==> multiset(s.phase.left)[a] <= 1)
  }

  /** What the adapter has yet to be told. */
  function PendingFor<A(==), P>(s: State<A, P>, a: A): seq<StreamState> {
    (if s.phase.Popped? || (s.phase.Notifying? && a in s.phase.left) then [s.phase.sending] else []) + s.queue
  }

  /** The adapter has been told, in order and once each, the states queued so far but for those it missed before
      it was attached and those pending. */
  predicate InOrder<A(==), P>(s: State<A, P>, a: A, missed: seq<StreamState>) {
    QueuedIn(s.log) == missed + SentTo(s.log, a) + PendingFor(s, a)
  }

  /** The adapters may change, but this one stays attached. */
  predicate Keeps<A(==), P>(action: Action<A, P>, a: A) {
    action.SetAdapters? ==> multiset(action.list)[a] == 1
  }

  lemma TakeFirst<A>(left: seq<A>, a: A)
    requires left != []
    ensures multiset(left)[a] == multiset(left[1..])[a] + if left[0] == a then 1 else 0
    ensures a in left <==> multiset(left)[a] > 0
    ensures a in left[1..] <==> multiset(left[1..])[a] > 0
  {
    assert left == [left[0]] + left[1..];
  }

  lemma InOrderStep<A, P>(s: State<A, P>, action: Action<A, P>, a: A, missed: seq<StreamState>)
    requires Enabled(s, action) && Keeps(action, a) && IsAttached(s, a) && InOrder(s, a, missed)
    ensures InOrder(Apply(s, action), a, missed) && IsAttached(Apply(s, action), a)
  {
    hide QueuedIn, SentTo;
    var s' := Apply(s, action);
    var sent, sent' := SentTo(s.log, a), SentTo(s'.log, a);
    if s'.log != s.log {
      LogOneMore(s.log, s'.log[|s.log|], a);
    }
    if action.Notify? && s.phase.left != [] {
      TakeFirst(s.phase.left, a);
      if s.phase.left[0] == a {
        assert missed + sent + ([s.phase.sending] + s.queue) == missed + (sent + [s.phase.sending]) + ([] + s.queue);
      } else {
        assert sent' == sent;
      }
    } else if action.Look? {
      assert a in multiset(s.adapters);
    } else if action.Push? {
      assert missed + sent + (PendingFor(s, a) + [s.current]) == missed + sent + PendingFor(s, a) + [s.current];
      assert PendingFor(s', a) == PendingFor(s, a) + [s.current];
    } else {
      assert sent' == sent && PendingFor(s', a) == PendingFor(s, a);
    }
  }

  /** The job that arrived at `at` has been waited for: of all that was queued before, the adapter has been told
      whatever it did not miss. */
  predicate CaughtUp<A(==), P>(log: seq<Event<A, P>>, at: nat, a: A, missed: seq<StreamState>) {
    at < |log| && QueuedIn(log[..at]) <= missed + SentTo(log, a)
  }

  predicate ArrivedAt<A(==), P(==)>(log: seq<Event<A, P>>, job: Job<A, P>, at: nat) {
    at < |log| && log[at] == Arrived(job)
  }

  /** Jobs remember where they arrived, and one that is ready has been caught up with. */
  predicate Punctual<A(==), P(==)>(s: State<A, P>, a: A, missed: seq<StreamState>) {
    && (forall i :: 0 <= i < |s.waiting| ==> ArrivedAt(s.log, s.waiting[i].job, s.waiting[i].at))
    && (!s.phase.Free? ==> ArrivedAt(s.log, s.phase.job, s.phase.at))
    && (s.phase.Ready? ==> CaughtUp(s.log, s.phase.at, a, missed))
  }

  /** The moment a packet passes or a stream is closed, as the log records it. */
  predicate Timely<A(==), P(==)>(log: seq<Event<A, P>>, e: nat, a: A, missed: seq<StreamState>)
    requires e < |log|
  {
    match log[e]
    case Entered(packet, first, at) =>
      ArrivedAt(log[..e], Packet(packet, first), at) && CaughtUp(log[..e], at, a, missed)
    case Rejected(packet, at) => CaughtUp(log[..e], at, a, missed)
    case Flushed(at) => ArrivedAt(log[..e], Closing, at) && CaughtUp(log[..e], at, a, missed)
    case _ => true
  }

  lemma CaughtUpGrows<A, P>(log: seq<Event<A, P>>, event: Event<A, P>, at: nat, a: A, missed: seq<StreamState>)
    requires CaughtUp(log, at, a, missed)
    ensures CaughtUp(log + [event], at, a, missed)
  {
    hide QueuedIn, SentTo;
    assert (log + [event])[..at] == log[..at];
    LogOneMore(log, event, a);
  }

  lemma NothingPending<A, P>(s: State<A, P>, at: nat, a: A, missed: seq<StreamState>)
    requires InOrder(s, a, missed) && s.queue == [] && s.phase.Synchronizing? && at < |s.log|
    ensures CaughtUp(s.log, at, a, missed)
  {
    hide QueuedIn, SentTo;
    QueuedGrows(s.log, at);
    assert PendingFor(s, a) == [];
  }

  lemma PunctualStep<A, P>(s: State<A, P>, action: Action<A, P>, a: A, missed: seq<StreamState>)
    requires Enabled(s, action) && InOrder(s, a, missed) && Punctual(s, a, missed)
    ensures Punctual(Apply(s, action), a, missed)
  {
    hide CaughtUp, InOrder;
    if action.Check? && s.queue == [] {
      NothingPending(s, s.phase.at, a, missed);
    } else if s.phase.Ready? && Apply(s, action).log != s.log {
      CaughtUpGrows(s.log, Apply(s, action).log[|s.log|], s.phase.at, a, missed);
    }
  }

  predicate AllTimely<A(==), P(==)>(log: seq<Event<A, P>>, a: A, missed: seq<StreamState>) {
    forall e :: 0 <= e < |log| ==> Timely(log, e, a, missed)
  }

  lemma TimelyStep<A, P>(s: State<A, P>, action: Action<A, P>, a: A, missed: seq<StreamState>)
    requires Enabled(s, action) && Punctual(s, a, missed) && AllTimely(s.log, a, missed)
    ensures AllTimely(Apply(s, action).log, a, missed)
  {
    hide CaughtUp;
    var log' := Apply(s, action).log;
    forall e | 0 <= e < |log'| ensures Timely(log', e, a, missed) {
      if e < |s.log| {
        assert Timely(s.log, e, a, missed) && log'[..e] == s.log[..e] && log'[e] == s.log[e];
      } else {
        assert log'[..e] == s.log;
      }
    }
  }

  predicate KeepsAll<A(==), P>(actions: seq<Action<A, P>>, a: A) {
    forall i :: 0 <= i < |actions| ==> Keeps(actions[i], a)
  }

  /** Over every run, an adapter that stays attached is told the queued states in the order of their queueing,
      once each, and no packet passes and no stream finishes closing before all states queued when it arrived
      have reached the adapter, but for those it missed. */
  lemma {:induction false} StatesReachAdapters<A, P>(s: State<A, P>, actions: seq<Action<A, P>>, s': State<A, P>,
                                                     a: A, missed: seq<StreamState>)
    requires Leads(s, actions, s') && KeepsAll(actions, a) && IsAttached(s, a)
    requires InOrder(s, a, missed) && Punctual(s, a, missed) && AllTimely(s.log, a, missed)
    ensures IsAttached(s', a) && InOrder(s', a, missed) && Punctual(s', a, missed) && AllTimely(s'.log, a, missed)
    decreases |actions|
  {
    if actions != [] {
      hide InOrder, Punctual, AllTimely, Apply, Enabled, IsAttached, Keeps;
      assert Keeps(actions[0], a) && forall i :: 0 <= i < |actions| - 1 ==> actions[1..][i] == actions[i + 1];
      InOrderStep(s, actions[0], a, missed);
      PunctualStep(s, actions[0], a, missed);
      TimelyStep(s, actions[0], a, missed);
      StatesReachAdapters(Apply(s, actions[0]), actions[1..], s', a, missed);
    }
  }

  lemma InitiallyInOrder<A, P>(adapters: seq<A>, a: A)
    requires multiset(adapters)[a] == 1
    ensures var s := Initial<A, P>(adapters);
            IsAttached(s, a) && InOrder(s, a, []) && Punctual(s, a, []) && AllTimely(s.log, a, [])
  {
  }

  // Adapters attached later

  /** The states in the machine that some adapter may have yet to be told: the one taken from the queue, and the
      queue. */
  function Outstanding<A, P>(s: State<A, P>): seq<StreamState> {
    (if s.phase.Popped? || s.phase.Notifying? then [s.phase.sending] else []) + s.queue
  }

  predicate EndsIn(all: seq<StreamState>, tail: seq<StreamState>) {
    |tail| <= |all| && all[|all| - |tail|..] == tail
  }

  /** How many states are done with. */
  function Settled<A, P>(s: State<A, P>): int {
    |QueuedIn(s.log)| - |Outstanding(s)|
  }

  /** All that was queued before a job arrived was done with, and n states are, when the job is. */
  predicate WaitedFor<A(==), P(==)>(log: seq<Event<A, P>>, e: nat, n: int)
    requires e < |log|
  {
    match log[e]
    case Entered(packet, first, at) => ArrivedAt(log[..e], Packet(packet, first), at) && |QueuedIn(log[..at])| <= n
    case Rejected(packet, at) => at < e && |QueuedIn(log[..at])| <= n
    case Flushed(at) => ArrivedAt(log[..e], Closing, at) && |QueuedIn(log[..at])| <= n
    case _ => true
  }

  /** Jobs remember where they arrived. */
  predicate Recorded<A(==), P(==)>(s: State<A, P>) {
    && (forall i :: 0 <= i < |s.waiting| ==> ArrivedAt(s.log, s.waiting[i].job, s.waiting[i].at))
    && (!s.phase.Free? ==> ArrivedAt(s.log, s.phase.job, s.phase.at))
  }

  /** What holds of every reachable state, whatever adapters there are. */
  predicate Steady<A(==), P(==)>(s: State<A, P>) {
    && EndsIn(QueuedIn(s.log), Outstanding(s))
    && Recorded(s)
    && (s.phase.Ready? ==> |QueuedIn(s.log[..s.phase.at])| <= Settled(s))
    && (forall e :: 0 <= e < |s.log| ==> WaitedFor(s.log, e, Settled(s)))
  }

  /** A step that queues nothing. */
  lemma NothingQueued<A, P>(s: State<A, P>, action: Action<A, P>)
    requires Enabled(s, action) && !action.Push?
    ensures QueuedIn(Apply(s, action).log) == QueuedIn(s.log)
  {
    hide QueuedIn;
    var s' := Apply(s, action);
    if s'.log != s.log {
      assert s'.log == s.log + [s'.log[|s.log|]];
      QueuedMore(s.log, s'.log[|s.log|]);
    }
  }

  lemma EndsInMore(all: seq<StreamState>, tail: seq<StreamState>, x: StreamState)
    requires EndsIn(all, tail)
    ensures EndsIn(all + [x], tail + [x])
  {
  }

  lemma EndsInRest(all: seq<StreamState>, tail: seq<StreamState>)
    requires EndsIn(all, tail) && tail != []
    ensures EndsIn(all, tail[1..])
  {
  }

  lemma OutstandingStep<A, P>(s: State<A, P>, action: Action<A, P>)
    requires Enabled(s, action) && EndsIn(QueuedIn(s.log), Outstanding(s))
    ensures var s' := Apply(s, action); EndsIn(QueuedIn(s'.log), Outstanding(s')) && Settled(s) <= Settled(s')
  {
    hide QueuedIn, EndsIn;
    var s', all, tail := Apply(s, action), QueuedIn(s.log), Outstanding(s);
    if action.Push? {
      QueuedMore(s.log, Queued(s.current));
      EndsInMore(all, tail, s.current);
      assert Outstanding(s') == tail + [s.current];
    } else {
      NothingQueued(s, action);
      if action.Notify? && s.phase.left == [] {
        EndsInRest(all, tail);
        assert Outstanding(s') == tail[1..];
      } else {
        assert Outstanding(s') == tail;
      }
    }
  }

  lemma QueuedMore<A, P>(log: seq<Event<A, P>>, event: Event<A, P>)
    ensures QueuedIn(log + [event]) == QueuedIn(log) + (if event.Queued? then [event.state] else [])
  {
    assert (log + [event])[..|log|] == log;
  }

  lemma WaitedForGrows<A, P>(log: seq<Event<A, P>>, event: Event<A, P>, e: nat, n: int, m: int)
    requires e < |log| && WaitedFor(log, e, n) && n <= m
    ensures WaitedFor(log + [event], e, m)
  {
    hide QueuedIn;
    assert (log + [event])[..e] == log[..e] && (log + [event])[e] == log[e];
    if log[e].Entered? || log[e].Rejected? || log[e].Flushed? {
      assert log[e].at < e;
      assert (log + [event])[..log[e].at] == log[..log[e].at];
    }
  }

  lemma RecordedStep<A, P>(s: State<A, P>, action: Action<A, P>)
    requires Enabled(s, action) && Recorded(s)
    ensures Recorded(Apply(s, action))
  {
  }

  lemma ReadyStep<A, P>(s: State<A, P>, action: Action<A, P>)
    requires Enabled(s, action) && Steady(s) && Settled(s) <= Settled(Apply(s, action))
    ensures var s' := Apply(s, action); s'.phase.Ready? ==> |QueuedIn(s'.log[..s'.phase.at])| <= Settled(s')
  {
    hide EndsIn, QueuedIn, WaitedFor;
    var s' := Apply(s, action);
    if s'.phase.Ready? {
      assert s'.log[..s'.phase.at] == s.log[..s'.phase.at];
      if action.Check? {
        QueuedGrows(s.log, s.phase.at);
      }
    }
  }

  lemma SteadyStep<A, P>(s: State<A, P>, action: Action<A, P>)
    requires Enabled(s, action) && Steady(s)
    ensures Steady(Apply(s, action))
  {
    OutstandingStep(s, action);
    ReadyStep(s, action);
    SteadyLog(s, action);
    hide EndsIn, QueuedIn, WaitedFor, Apply, Enabled, Recorded, Settled;
    RecordedStep(s, action);
  }

  lemma SteadyLog<A, P>(s: State<A, P>, action: Action<A, P>)
    requires Enabled(s, action) && Steady(s) && Settled(s) <= Settled(Apply(s, action))
    ensures var s' := Apply(s, action); forall e :: 0 <= e < |s'.log| ==> WaitedFor(s'.log, e, Settled(s'))
  {
    hide EndsIn, QueuedIn, Settled;
    var s' := Apply(s, action);
    forall e | 0 <= e < |s'.log| ensures WaitedFor(s'.log, e, Settled(s')) {
      if s'.log == s.log {
        assert WaitedFor(s.log, e, Settled(s));
      } else {
        var event := s'.log[|s.log|];
        assert s'.log == s.log + [event];
        if e < |s.log| {
          WaitedForGrows(s.log, event, e, Settled(s), Settled(s'));
        } else {
          assert s'.log[..e] == s.log && (action.Go? ==> s.log[..s.phase.at] == s'.log[..s.phase.at]);
        }
      }
    }
  }

  lemma {:induction false} SteadyRun<A, P>(s: State<A, P>, actions: seq<Action<A, P>>, s': State<A, P>)
    requires Leads(s, actions, s') && Steady(s)
    ensures Steady(s')
    decreases |actions|
  {
    if actions != [] {
      SteadyStep(s, actions[0]);
      hide Apply, Enabled, Steady;
      SteadyRun(Apply(s, actions[0]), actions[1..], s');
    }
  }

  /** An adapter that has never been told anything, attached at any moment of a run, misses the states done with and,
      if the others are being told of one without it, that one. From then on all that is said of an adapter that
      stays attached holds of it. */
  lemma AttachedLate<A, P>(adapters: seq<A>, actions: seq<Action<A, P>>, s: State<A, P>, list: seq<A>, a: A)
    returns (missed: seq<StreamState>)
    requires Leads(Initial(adapters), actions, s) && multiset(list)[a] == 1
    requires SentTo(s.log, a) == [] && (s.phase.Notifying? ==> multiset(s.phase.left)[a] <= 1)
    ensures var s' := Apply(s, SetAdapters(list));
            && missed + PendingFor(s', a) == QueuedIn(s.log)
            && |missed| == Settled(s) + (if s.phase.Notifying? && a !in s.phase.left then 1 else 0)
            && IsAttached(s', a) && InOrder(s', a, missed) && Punctual(s', a, missed) && AllTimely(s'.log, a, missed)
  {
    SteadyRun(Initial(adapters), actions, s);
    hide Leads;
    missed := MissedBy(s, list, a);
    AttachedTimely(s, a, missed);
  }

  lemma PendingLate<A, P>(s: State<A, P>, list: seq<A>, a: A)
    requires multiset(list)[a] == 1 && (s.phase.Notifying? ==> multiset(s.phase.left)[a] <= 1)
    ensures var s' := Apply(s, SetAdapters(list));
            && IsAttached(s', a)
            && PendingFor(s', a) == if s.phase.Notifying? && a !in s.phase.left then Outstanding(s)[1..] else Outstanding(s)
  {
  }

  lemma MissedBy<A, P>(s: State<A, P>, list: seq<A>, a: A) returns (missed: seq<StreamState>)
    requires EndsIn(QueuedIn(s.log), Outstanding(s)) && SentTo(s.log, a) == []
    requires multiset(list)[a] == 1 && (s.phase.Notifying? ==> multiset(s.phase.left)[a] <= 1)
    ensures var s' := Apply(s, SetAdapters(list));
            && missed + PendingFor(s', a) == QueuedIn(s.log) && IsAttached(s', a) && InOrder(s', a, missed)
            && |missed| == Settled(s) + (if s.phase.Notifying? && a !in s.phase.left then 1 else 0)
  {
    PendingLate(s, list, a);
    hide QueuedIn, SentTo, IsAttached, PendingFor, EndsIn, Outstanding;
    var s' := Apply(s, SetAdapters(list));
    assert s'.log == s.log;
    if s.phase.Notifying? && a !in s.phase.left {
      SomeOutstanding(s);
      EndsInRest(QueuedIn(s.log), Outstanding(s));
    }
    missed := Before(QueuedIn(s.log), PendingFor(s', a));
  }

  lemma SomeOutstanding<A, P>(s: State<A, P>)
    requires s.phase.Notifying?
    ensures Outstanding(s) != []
  {
  }

  lemma Before(all: seq<StreamState>, tail: seq<StreamState>) returns (front: seq<StreamState>)
    requires EndsIn(all, tail)
    ensures front + tail == all && front + [] + tail == all && |front| == |all| - |tail|
  {
    front := all[..|all| - |tail|];
    assert front + [] == front;
  }

  lemma AttachedTimely<A, P>(s: State<A, P>, a: A, missed: seq<StreamState>)
    requires Steady(s) && missed <= QueuedIn(s.log) && |missed| >= Settled(s)
    ensures Punctual(s, a, missed) && AllTimely(s.log, a, missed)
  {
    hide QueuedIn, SentTo, WaitedFor, EndsIn, CaughtUp, Timely, Outstanding;
    if s.phase.Ready? {
      PrefixCaughtUp(s.log, s.phase.at, a, missed);
    }
    forall e | 0 <= e < |s.log| ensures Timely(s.log, e, a, missed) {
      assert WaitedFor(s.log, e, Settled(s));
      WaitedForTimely(s.log, e, Settled(s), a, missed);
    }
  }

  lemma PrefixCaughtUp<A, P>(log: seq<Event<A, P>>, at: nat, a: A, missed: seq<StreamState>)
    requires at < |log| && missed <= QueuedIn(log) && |QueuedIn(log[..at])| <= |missed|
    ensures CaughtUp(log, at, a, missed)
  {
    hide QueuedIn, SentTo;
    QueuedGrows(log, at);
  }

  lemma WaitedForTimely<A, P>(log: seq<Event<A, P>>, e: nat, n: int, a: A, missed: seq<StreamState>)
    requires e < |log| && WaitedFor(log, e, n) && n <= |missed| && missed <= QueuedIn(log)
    ensures Timely(log, e, a, missed)
  {
    hide QueuedIn, SentTo;
    if log[e].Entered? || log[e].Rejected? || log[e].Flushed? {
      var at := log[e].at;
      assert log[..e][..at] == log[..at];
      QueuedGrows(log, at);
    }
  }

  /** Said of one packet in a run from the start: what was queued before it arrived has reached every adapter
      that stayed attached before the packet enters the processor that was first when it arrived. */
  lemma EnteredAfterStates<A, P>(adapters: seq<A>, actions: seq<Action<A, P>>, s: State<A, P>, e: nat, a: A)
    requires Leads(Initial(adapters), actions, s) && multiset(adapters)[a] == 1 && KeepsAll(actions, a)
    requires e < |s.log| && s.log[e].Entered?
    ensures var at := s.log[e].at;
            && at < e && s.log[at] == Arrived(Packet(s.log[e].packet, s.log[e].processor))
            && QueuedIn(s.log[..at]) <= SentTo(s.log[..e], a)
  {
    hide QueuedIn, SentTo, Leads;
    InitiallyInOrder<A, P>(adapters, a);
    StatesReachAdapters(Initial(adapters), actions, s, a, []);
    assert Timely(s.log, e, a, []);
    assert s.log[..e][..s.log[e].at] == s.log[..s.log[e].at];
    assert [] + SentTo(s.log[..e], a) == SentTo(s.log[..e], a);
  }

  /** At any moment of a run from the start, what two adapters have been told differs at most by the state being
      sent. */
  lemma AdaptersAgree<A, P>(adapters: seq<A>, actions: seq<Action<A, P>>, s: State<A, P>, a: A, b: A)
    requires Leads(Initial(adapters), actions, s) && multiset(adapters)[a] == 1 && multiset(adapters)[b] == 1
    requires KeepsAll(actions, a) && KeepsAll(actions, b)
    ensures var x, y := SentTo(s.log, a), SentTo(s.log, b);
            x == y || (s.phase.Notifying? && (x == y + [s.phase.sending] || y == x + [s.phase.sending]))
  {
    hide QueuedIn, SentTo, Leads;
    InitiallyInOrder<A, P>(adapters, a);
    InitiallyInOrder<A, P>(adapters, b);
    StatesReachAdapters(Initial(adapters), actions, s, a, []);
    StatesReachAdapters(Initial(adapters), actions, s, b, []);
    var x, y := SentTo(s.log, a), SentTo(s.log, b);
    assert [] + x == x && [] + y == y;
    var u := PendingFor(s, a)[..|PendingFor(s, a)| - |s.queue|];
    var v := PendingFor(s, b)[..|PendingFor(s, b)| - |s.queue|];
    SameTail(x, u, y, v, s.queue);
    if u == v {
      assert x == (x + u)[..|x|] && y == (y + v)[..|y|];
    } else {
      assert x + [] == x && y + [] == y;
    }
  }

  lemma SameTail(a: seq<StreamState>, b: seq<StreamState>, c: seq<StreamState>, d: seq<StreamState>, tail: seq<StreamState>)
    requires a + (b + tail) == c + (d + tail)
    ensures a + b == c + d
  {
    assert a + (b + tail) == (a + b) + tail && c + (d + tail) == (c + d) + tail;
    assert |a + b| == |c + d|;
    assert ((a + b) + tail)[..|a + b|] == a + b && ((c + d) + tail)[..|c + d|] == c + d;
  }

  // States queued as they were set

  function Assigned<A, P>(actions: seq<Action<A, P>>): seq<StreamState> {
    if actions == [] then [] else (if actions[0].Assign? then [actions[0].id] else []) + Assigned(actions[1..])
  }

  /** No state is assigned while a different one has yet to be queued. */
  predicate Apart<A, P>(current: StreamState, unqueued: int, actions: seq<Action<A, P>>)
    decreases |actions|
  {
    actions == []
    || match actions[0]
       case Assign(id) => (unqueued > 0 ==> id == current) && Apart(id, unqueued + 1, actions[1..])
       case Push => Apart(current, unqueued - 1, actions[1..])
       case _ => Apart(current, unqueued, actions[1..])
  }

  predicate AllAre(owed: seq<StreamState>, current: StreamState) {
    forall i :: 0 <= i < |owed| ==> owed[i] == current
  }

  lemma {:induction false} QueuedInGrows<A, P>(s: State<A, P>, actions: seq<Action<A, P>>, s': State<A, P>)
    requires Leads(s, actions, s')
    ensures QueuedIn(s.log) <= QueuedIn(s'.log)
    decreases |actions|
  {
    if actions != [] {
      var next := Apply(s, actions[0]);
      hide QueuedIn;
      if next.log != s.log {
        assert next.log == s.log + [next.log[|s.log|]];
        QueuedMore(s.log, next.log[|s.log|]);
      }
      hide Apply, Enabled;
      QueuedInGrows(next, actions[1..], s');
    }
  }

  /** The states owed to the queue, and those assigned later, are what comes into it. */
  predicate QueuedRight<A, P>(s: State<A, P>, actions: seq<Action<A, P>>, s': State<A, P>, owed: seq<StreamState>) {
    QueuedIn(s'.log) == QueuedIn(s.log) + (owed + Assigned(actions))
  }

  /** The states owed to the queue, once they differ, cannot all be queued right: each is queued as what has been
      assigned last. */
  lemma {:induction false} QueuedAsOwed<A, P>(s: State<A, P>, actions: seq<Action<A, P>>, s': State<A, P>,
                                              owed: seq<StreamState>)
    requires Leads(s, actions, s') && s'.unqueued == 0
    requires |owed| == s.unqueued && (owed != [] ==> owed[|owed| - 1] == s.current)
    ensures QueuedRight(s, actions, s', owed) <==> AllAre(owed, s.current) && Apart(s.current, s.unqueued, actions)
    decreases |actions|
  {
    if actions == [] {
      assert owed + Assigned(actions) == [];
    } else {
      hide QueuedRight, AllAre, Apply, Enabled;
      var next, rest := Apply(s, actions[0]), actions[1..];
      if actions[0].Push? {
        OwedPush(s, actions, s', owed);
        if owed[0] == s.current {
          QueuedAsOwed(next, rest, s', owed[1..]);
        }
      } else {
        OwedStep(s, actions, s', owed);
        QueuedAsOwed(next, rest, s', owed + if actions[0].Assign? then [actions[0].id] else []);
      }
    }
  }

  lemma OwedStep<A, P>(s: State<A, P>, actions: seq<Action<A, P>>, s': State<A, P>, owed: seq<StreamState>)
    requires actions != [] && Enabled(s, actions[0]) && !actions[0].Push?
    requires |owed| == s.unqueued && (owed != [] ==> owed[|owed| - 1] == s.current)
    ensures var next := Apply(s, actions[0]);
            var owed' := owed + if actions[0].Assign? then [actions[0].id] else [];
            && (QueuedRight(s, actions, s', owed) <==> QueuedRight(next, actions[1..], s', owed'))
            && next.current == (if actions[0].Assign? then actions[0].id else s.current)
            && |owed'| == next.unqueued && (owed' != [] ==> owed'[|owed'| - 1] == next.current)
            && (AllAre(owed', next.current)
                <==> AllAre(owed, s.current) && (actions[0].Assign? && owed != [] ==> actions[0].id == s.current))
  {
    NothingQueued(s, actions[0]);
    var head := if actions[0].Assign? then [actions[0].id] else [];
    assert Assigned(actions) == head + Assigned(actions[1..]);
    hide QueuedIn, Assigned;
    Regroup(owed, head, Assigned(actions[1..]));
    if actions[0].Assign? {
      OwedMore(owed, s.current, actions[0].id);
    } else {
      assert owed + head == owed;
    }
  }

  lemma Regroup(a: seq<StreamState>, b: seq<StreamState>, c: seq<StreamState>)
    ensures a + (b + c) == (a + b) + c
  {
  }

  lemma OwedMore(owed: seq<StreamState>, current: StreamState, id: StreamState)
    requires owed != [] ==> owed[|owed| - 1] == current
    ensures AllAre(owed + [id], id) <==> AllAre(owed, current) && (owed != [] ==> id == current)
  {
    assert forall i :: 0 <= i < |owed| ==> (owed + [id])[i] == owed[i];
  }

  lemma AssignedRest<A, P>(actions: seq<Action<A, P>>)
    requires actions != [] && actions[0].Push?
    ensures Assigned(actions) == [] + Assigned(actions[1..]) == Assigned(actions[1..])
  {
  }

  lemma OwedPush<A, P>(s: State<A, P>, actions: seq<Action<A, P>>, s': State<A, P>, owed: seq<StreamState>)
    requires Leads(s, actions, s') && |owed| == s.unqueued && actions != [] && actions[0].Push?
    ensures owed != []
    ensures QueuedRight(s, actions, s', owed)
       <==> owed[0] == s.current && QueuedRight(Apply(s, Push), actions[1..], s', owed[1..])
    ensures AllAre(owed, s.current) <==> owed[0] == s.current && AllAre(owed[1..], s.current)
    ensures Apply(s, Push).unqueued == s.unqueued - 1 && Apply(s, Push).current == s.current
  {
    hide QueuedIn, Assigned;
    var q, q' := QueuedIn(s.log), QueuedIn(s'.log);
    AssignedRest(actions);
    QueuedMore(s.log, Queued(s.current));
    QueuedInGrows(Apply(s, Push), actions[1..], s');
    PushedRight(q, q', owed, Assigned(actions), s.current);
  }

  lemma PushedRight(q: seq<StreamState>, q': seq<StreamState>, owed: seq<StreamState>, later: seq<StreamState>, c: StreamState)
    requires q + [c] <= q' && owed != []
    ensures q' == q + (owed + later) <==> owed[0] == c && q' == q + [c] + (owed[1..] + later)
    ensures AllAre(owed, c) <==> owed[0] == c && AllAre(owed[1..], c)
  {
    assert q'[|q|] == c && (q + (owed + later))[|q|] == owed[0];
    assert owed == [owed[0]] + owed[1..];
    assert q + ([owed[0]] + owed[1..] + later) == q + [owed[0]] + (owed[1..] + later);
  }

  /** Between two moments at which nothing is owed to the queue, the states are queued as they were set exactly if
      none was assigned while a different one had yet to be queued. */
  lemma QueuedAsSetIff<A, P>(s: State<A, P>, actions: seq<Action<A, P>>, s': State<A, P>)
    requires Leads(s, actions, s') && s.unqueued == 0 && s'.unqueued == 0
    ensures QueuedIn(s'.log) == QueuedIn(s.log) + Assigned(actions) <==> Apart(s.current, 0, actions)
  {
    QueuedAsOwed(s, actions, s', []);
    hide Leads, QueuedIn, Assigned, Apart;
    assert [] + Assigned(actions) == Assigned(actions);
  }

  /** Two threads set different states, and both assign before either queues: the later state is queued twice
      and the earlier never, so the states are queued as they were set only if they are the same. */
  lemma RacingStates<A, P>(s: State<A, P>, first: StreamState, second: StreamState) returns (s': State<A, P>)
    requires s.unqueued == 0
    ensures Leads(s, [Assign(first), Assign(second), Push, Push], s')
    ensures s'.queue == s.queue + [second, second] && (s'.queue == s.queue + [first, second] <==> first == second)
  {
    var s1 := s.(current := first, unqueued := 1);
    var s2 := s.(current := second, unqueued := 2);
    var s3 := s.(current := second, unqueued := 1, queue := s.queue + [second], log := s.log + [Queued(second)]);
    s' := s.(current := second, queue := s.queue + [second, second], log := s.log + [Queued(second), Queued(second)]);
    assert s3.queue + [second] == s'.queue && s3.log + [Queued(second)] == s'.log;
    assert Leads(s', [], s');
    assert Leads(s3, [Push] + [], s');
    assert Leads(s2, [Push] + [Push], s');
    assert Leads(s1, [Assign(second)] + [Push, Push], s');
    assert Leads(s, [Assign(first)] + [Assign(second), Push, Push], s');
    assert s'.queue[|s.queue|] == second && (s.queue + [first, second])[|s.queue|] == first;
  }
}
