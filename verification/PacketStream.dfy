/** The packet stream of src/base/src/packetstream.cpp, used from one thread: its states, its delegate chain and
    what it does with a packet. Adapters are foreign code; that one is called is recorded in a log.
 */
module PacketStreams {
  import opened Chains
  import opened StreamStates

  // The stream

  datatype PacketInfo = PacketInfo(id: nat, noModify: bool, isFinal: bool)

  type StreamEvent = Event<Adapter, PacketInfo>

  type StreamView = State<Adapter, PacketInfo>

  /** What `synchronizeStates` sends: each queued state to each adapter. */
  function Broadcast(queue: seq<StreamState>, adapters: seq<Adapter>): seq<StreamEvent> {
    if queue == [] then [] else SentToFirst(queue[0], adapters, |adapters|) + Broadcast(queue[1..], adapters)
  }

  function SentToFirst(state: StreamState, adapters: seq<Adapter>, n: nat): (events: seq<StreamEvent>)
    requires n <= |adapters|
    ensures |events| == n
  {
    if n == 0 then [] else SentToFirst(state, adapters, n - 1) + [Sent(state, adapters[n - 1])]
  }

  /** Every queued state goes to every adapter, one state after the other. */
  lemma {:induction false} BroadcastAt(queue: seq<StreamState>, adapters: seq<Adapter>, i: nat, k: nat)
    requires i < |queue| && k < |adapters|
    ensures var at := |Broadcast(queue[..i], adapters)| + k;
            at < |Broadcast(queue, adapters)| && Broadcast(queue, adapters)[at] == Sent(queue[i], adapters[k])
  {
    if i == 0 {
      SentAt(queue[0], adapters, |adapters|, k);
    } else {
      BroadcastAt(queue[1..], adapters, i - 1, k);
      assert queue[..i][1..] == queue[1..][..i - 1];
    }
  }

  lemma {:induction false} BroadcastLength(queue: seq<StreamState>, adapters: seq<Adapter>)
    ensures |Broadcast(queue, adapters)| == |queue| * |adapters|
  {
    if queue != [] { BroadcastLength(queue[1..], adapters); }
  }

  lemma {:induction false} SentAt(state: StreamState, adapters: seq<Adapter>, n: nat, k: nat)
    requires k < n <= |adapters|
    ensures SentToFirst(state, adapters, n)[k] == Sent(state, adapters[k])
  {
    if k < n - 1 { SentAt(state, adapters, n - 1, k); }
  }

  type StreamActions = seq<Action<Adapter, PacketInfo>>

  /** A run during which the adapters do not change. */
  predicate Runs(s: StreamView, actions: StreamActions, s': StreamView) {
    Leads(s, actions, s') && forall i :: 0 <= i < |actions| ==> !actions[i].SetAdapters?
  }

  lemma {:induction false} LeadsOn(s: StreamView, actions: StreamActions, s': StreamView, more: StreamActions, s'': StreamView)
    requires Leads(s, actions, s') && Leads(s', more, s'')
    ensures Leads(s, actions + more, s'')
    decreases |actions|
  {
    if actions == [] {
      assert actions + more == more;
    } else {
      LeadsOn(Apply(s, actions[0]), actions[1..], s', more, s'');
      assert (actions + more)[1..] == actions[1..] + more;
    }
  }

  lemma RunsOn(s: StreamView, actions: StreamActions, s': StreamView, more: StreamActions, s'': StreamView)
    requires Runs(s, actions, s') && Runs(s', more, s'')
    ensures Runs(s, actions + more, s'')
  {
    hide Leads;
    LeadsOn(s, actions, s', more, s'');
  }

  lemma RunStep(s: StreamView, action: Action<Adapter, PacketInfo>)
    requires Enabled(s, action) && !action.SetAdapters?
    ensures Runs(s, [action], Apply(s, action))
  {
    assert Leads(Apply(s, action), [], Apply(s, action));
  }

  lemma RunNothing(s: StreamView)
    ensures Runs(s, [], s)
  {
  }

  lemma {:induction false} NotifyRun(s: StreamView, n: nat) returns (actions: StreamActions)
    requires s.phase.Notifying? && s.phase.left == s.adapters && n <= |s.adapters|
    ensures Runs(s, actions, s.(phase := s.phase.(left := s.adapters[n..]), log := s.log + SentToFirst(s.phase.sending, s.adapters, n)))
  {
    hide Runs;
    if n == 0 {
      assert s.log + [] == s.log && s.adapters[0..] == s.adapters;
      RunNothing(s);
      actions := [];
    } else {
      var before := s.(phase := s.phase.(left := s.adapters[n - 1..]), log := s.log + SentToFirst(s.phase.sending, s.adapters, n - 1));
      actions := NotifyRun(s, n - 1);
      RunStep(before, Notify);
      RunsOn(s, actions, before, [Notify], Apply(before, Notify));
      actions := actions + [Notify];
      assert s.adapters[n - 1..][0] == s.adapters[n - 1] && s.adapters[n - 1..][1..] == s.adapters[n..];
      assert Apply(before, Notify).log == s.log + SentToFirst(s.phase.sending, s.adapters, n);
    }
  }

  /** Left alone, the machine sends the first state of the queue to every adapter. */
  lemma SendRun(s: StreamView) returns (actions: StreamActions)
    requires s.phase.Synchronizing? && s.queue != []
    ensures Runs(s, actions, s.(queue := s.queue[1..], log := s.log + SentToFirst(s.queue[0], s.adapters, |s.adapters|)))
  {
    hide Runs;
    var s1 := Apply(s, Check);
    var s2 := Apply(s1, Look);
    var s3 := s2.(phase := s2.phase.(left := s.adapters[|s.adapters|..]), log := s2.log + SentToFirst(s.queue[0], s.adapters, |s.adapters|));
    RunStep(s, Check);
    RunStep(s1, Look);
    RunStep(s3, Notify);
    var telling := NotifyRun(s2, |s.adapters|);
    RunsOn(s, [Check], s1, [Look], s2);
    RunsOn(s, [Check] + [Look], s2, telling, s3);
    RunsOn(s, [Check] + [Look] + telling, s3, [Notify], Apply(s3, Notify));
    actions := [Check] + [Look] + telling + [Notify];
  }

  /** And so it sends what `synchronizeStates` sends. */
  lemma {:induction false} SynchronizeRun(s: StreamView) returns (actions: StreamActions)
    requires s.phase.Synchronizing?
    ensures Runs(s, actions, s.(phase := Ready(s.phase.job, s.phase.at), queue := [], log := s.log + Broadcast(s.queue, s.adapters)))
    decreases |s.queue|
  {
    hide Runs;
    if s.queue == [] {
      RunStep(s, Check);
      actions := [Check];
      assert s.log + [] == s.log;
    } else {
      var sent := SentToFirst(s.queue[0], s.adapters, |s.adapters|);
      var s1 := s.(queue := s.queue[1..], log := s.log + sent);
      var s2 := s1.(phase := Ready(s.phase.job, s.phase.at), queue := [], log := s1.log + Broadcast(s1.queue, s.adapters));
      actions := SendRun(s);
      var others := SynchronizeRun(s1);
      RunsOn(s, actions, s1, others, s2);
      actions := actions + others;
      assert s2.log == s.log + (sent + Broadcast(s1.queue, s.adapters));
    }
  }

  /** A job that nothing delays: it arrives, gets the lock, synchronizes and goes. */
  function Served(s: StreamView, job: Job<Adapter, PacketInfo>): StreamView {
    var at := |s.log|;
    var log := s.log + [Arrived(job)] + Broadcast(s.queue, s.adapters);
    s.(queue := [], log := log + [Outcome(job, at, s.current)])
  }

  lemma ServedRun(s: StreamView, job: Job<Adapter, PacketInfo>) returns (actions: StreamActions)
    requires s.phase.Free? && s.waiting == []
    ensures Runs(s, actions, Served(s, job))
  {
    hide Runs, Broadcast;
    var s1 := Apply(s, Arrive(job));
    var s2 := Apply(s1, Acquire(0));
    assert s1.waiting[..0] + s1.waiting[1..] == [];
    var s3 := s2.(phase := Ready(job, |s.log|), queue := [], log := s2.log + Broadcast(s.queue, s.adapters));
    RunStep(s, Arrive(job));
    RunStep(s1, Acquire(0));
    RunStep(s3, Go);
    var synchronizing := SynchronizeRun(s2);
    RunsOn(s, [Arrive(job)], s1, [Acquire(0)], s2);
    RunsOn(s, [Arrive(job)] + [Acquire(0)], s2, synchronizing, s3);
    actions := [Arrive(job)] + [Acquire(0)] + synchronizing;
    RunsOn(s, actions, s3, [Go], Apply(s3, Go));
    actions := actions + [Go];
  }

  // What a call makes of the machine's state

  /** `setState`, which leaves out a state equal to the current one. */
  function Changed(s: StreamView, id: StreamState): StreamView {
    if id == s.current then s else s.(current := id, queue := s.queue + [id], log := s.log + [Queued(id)])
  }

  lemma ChangeRun(s: StreamView, id: StreamState) returns (actions: StreamActions)
    ensures Runs(s, actions, Changed(s, id))
  {
    hide Runs;
    RunNothing(s);
    actions := [];
    if id != s.current {
      var s1 := Apply(s, Assign(id));
      RunStep(s, Assign(id));
      RunStep(s1, Push);
      RunsOn(s, [Assign(id)], s1, [Push], Apply(s1, Push));
      actions := [Assign(id)] + [Push];
    }
  }

  function WhenStopped(s: StreamView): StreamView {
    if s.current in {Stopped, Stopping, Closed} then s
    else Changed(Changed(s, Stopping), Stopped)
  }

  function WhenClosed(s: StreamView): StreamView {
    if s.current in {None, Closed} then s
    else Served(Changed(WhenStopped(s), Closed), Closing)
  }

  function WhenStarted(s: StreamView, autoStart: bool): StreamView {
    if autoStart && s.current == None then Changed(s, Active) else s
  }

  predicate Enters(s: StreamView, procs: seq<Adapter>, packet: PacketInfo) {
    s.current == Active && procs != [] && !packet.noModify
  }

  function WhenProcessed(s: StreamView, autoStart: bool, procs: seq<Adapter>, packet: PacketInfo): StreamView {
    var started := WhenStarted(s, autoStart);
    var served := if Enters(started, procs, packet) then Served(started, Packet(packet, procs[0])) else started;
    if served.current == Active && packet.isFinal then WhenStopped(served) else served
  }

  lemma StopRun(s: StreamView) returns (actions: StreamActions)
    ensures Runs(s, actions, WhenStopped(s))
  {
    hide Runs, Changed;
    if s.current in {Stopped, Stopping, Closed} {
      RunNothing(s);
      actions := [];
    } else {
      var s1 := Changed(s, Stopping);
      actions := ChangeRun(s, Stopping);
      var more := ChangeRun(s1, Stopped);
      RunsOn(s, actions, s1, more, Changed(s1, Stopped));
      actions := actions + more;
    }
  }

  lemma StoppedIsIdle(s: StreamView)
    ensures WhenStopped(s).phase == s.phase && WhenStopped(s).waiting == s.waiting
    ensures Changed(s, Closed).phase == s.phase && Changed(s, Closed).waiting == s.waiting
  {
  }

  /** `close` is a run of the machine that ends closed, with nothing left to tell. */
  lemma CloseRun(s: StreamView) returns (actions: StreamActions)
    requires s.phase.Free? && s.waiting == []
    ensures Runs(s, actions, WhenClosed(s))
    ensures s.current != None && s.current != Closed ==> WhenClosed(s).current == Closed && WhenClosed(s).queue == []
  {
    if s.current in {None, Closed} {
      RunNothing(s);
      actions := [];
    } else {
      var s1 := WhenStopped(s);
      var s2 := Changed(s1, Closed);
      StoppedIsIdle(s);
      StoppedIsIdle(s1);
      assert s2.current == Closed;
      hide Runs, Broadcast, WhenStopped, Changed;
      var stopping := StopRun(s);
      var closing := ChangeRun(s1, Closed);
      var serving := ServedRun(s2, Closing);
      RunsOn(s, stopping, s1, closing, s2);
      RunsOn(s, stopping + closing, s2, serving, Served(s2, Closing));
      actions := stopping + closing + serving;
    }
  }

  /** `process` is a run of the machine; a packet that goes to the processors enters the first of them, and is
      never rejected. */
  lemma ProcessRun(s: StreamView, autoStart: bool, procs: seq<Adapter>, packet: PacketInfo) returns (actions: StreamActions)
    requires s.phase.Free? && s.waiting == []
    ensures Runs(s, actions, WhenProcessed(s, autoStart, procs, packet))
    ensures var started := WhenStarted(s, autoStart);
            Enters(started, procs, packet) ==>
              var served := Served(started, Packet(packet, procs[0]));
              && served.log <= WhenProcessed(s, autoStart, procs, packet).log
              && served.log[|served.log| - 1] == Entered(packet, procs[0], |started.log|) && served.queue == []
  {
    var s1 := WhenStarted(s, autoStart);
    assert s1.phase.Free? && s1.waiting == [];
    var s2 := if Enters(s1, procs, packet) then Served(s1, Packet(packet, procs[0])) else s1;
    assert s2.log <= WhenStopped(s2).log;
    hide Runs, Broadcast, WhenStopped, Changed;
    RunNothing(s);
    actions := [];
    if s1 != s {
      actions := ChangeRun(s, Active);
    }
    if Enters(s1, procs, packet) {
      var serving := ServedRun(s1, Packet(packet, procs[0]));
      RunsOn(s, actions, s1, serving, s2);
      actions := actions + serving;
    }
    if s2.current == Active && packet.isFinal {
      var stopping := StopRun(s2);
      RunsOn(s, actions, s2, stopping, WhenStopped(s2));
      actions := actions + stopping;
    }
  }

  datatype AdapterRef = AdapterRef(ptr: Adapter, order: int, syncState: bool)

  function Pointers(refs: seq<AdapterRef>): (adapters: seq<Adapter>)
    ensures |adapters| == |refs| && forall i :: 0 <= i < |refs| ==> adapters[i] == refs[i].ptr
  {
    seq(|refs|, i requires 0 <= i < |refs| => refs[i].ptr)
  }

  predicate InOrderOf(refs: seq<AdapterRef>) {
    forall i, j :: 0 <= i < j < |refs| ==> refs[i].order <= refs[j].order
  }

  /** Puts a reference where a sorted list stays sorted. The program's sort may place it differently among
      references of the same order, so that is not promised. */
  method Insert(refs: seq<AdapterRef>, added: AdapterRef) returns (sorted: seq<AdapterRef>)
    requires InOrderOf(refs)
    ensures InOrderOf(sorted) && multiset(sorted) == multiset(refs) + multiset{added}
  {
    var i := 0;
    while i < |refs| && refs[i].order <= added.order
      invariant i <= |refs| && forall k :: 0 <= k < i ==> refs[k].order <= added.order
    {
      i := i + 1;
    }
    assert refs == refs[..i] + refs[i..];
    sorted := refs[..i] + [added] + refs[i..];
  }

  predicate DistinctOrders(refs: seq<AdapterRef>) {
    forall i, j :: 0 <= i < j < |refs| ==> refs[i].order != refs[j].order
  }

  lemma SameFirst(a: seq<AdapterRef>, b: seq<AdapterRef>)
    requires InOrderOf(a) && InOrderOf(b) && DistinctOrders(a) && multiset(a) == multiset(b) && a != [] && b != []
    ensures a[0] == b[0]
  {
    assert a[0] in multiset(b) && b[0] in multiset(a);
    var i :| 0 <= i < |b| && b[i] == a[0];
    var j :| 0 <= j < |a| && a[j] == b[0];
    assert b[0].order <= b[i].order && a[0].order <= a[j].order;
  }

  lemma SameRest(first: AdapterRef, a: seq<AdapterRef>, b: seq<AdapterRef>)
    requires multiset([first] + a) == multiset([first] + b)
    ensures multiset(a) == multiset(b)
  {
    assert multiset(a) == multiset([first] + a) - multiset{first};
    assert multiset(b) == multiset([first] + b) - multiset{first};
  }

  /** With distinct orders there is only one way to sort. */
  lemma {:induction false} SortedIsUnique(a: seq<AdapterRef>, b: seq<AdapterRef>)
    requires InOrderOf(a) && InOrderOf(b) && DistinctOrders(a) && multiset(a) == multiset(b)
    ensures a == b
  {
    assert |multiset(a)| == |a| && |multiset(b)| == |b|;
    if a != [] {
      SameFirst(a, b);
      var first, a', b' := a[0], a[1..], b[1..];
      assert InOrderOf(a') && InOrderOf(b') && DistinctOrders(a');
      hide InOrderOf, DistinctOrders;
      assert a == [first] + a' && b == [first] + b';
      SameRest(first, a', b');
      SortedIsUnique(a', b');
    }
  }

  /** How many references come before one of the given order. */
  function Place(refs: seq<AdapterRef>, order: int): (k: nat)
    ensures k <= |refs|
  {
    if refs == [] || order < refs[0].order then 0 else 1 + Place(refs[1..], order)
  }

  lemma {:induction false} PlaceSplits(refs: seq<AdapterRef>, order: int)
    requires InOrderOf(refs)
    ensures forall i :: 0 <= i < Place(refs, order) ==> refs[i].order <= order
    ensures forall i :: Place(refs, order) <= i < |refs| ==> order < refs[i].order
  {
    if refs != [] && refs[0].order <= order {
      PlaceSplits(refs[1..], order);
      assert forall i :: 0 < i < |refs| ==> refs[i] == refs[1..][i - 1];
    }
  }

  lemma PlacedInOrder(refs: seq<AdapterRef>, added: AdapterRef)
    requires InOrderOf(refs) && DistinctOrders(refs + [added])
    ensures var k := Place(refs, added.order);
            InOrderOf(refs[..k] + [added] + refs[k..]) && DistinctOrders(refs[..k] + [added] + refs[k..])
  {
    PlaceSplits(refs, added.order);
    hide Place;
    var all := refs + [added];
    assert all[|refs|] == added;
    forall i | 0 <= i < |refs| ensures refs[i].order != added.order {
      assert all[i] == refs[i];
    }
    forall i, j | 0 <= i < j < |refs| ensures refs[i].order < refs[j].order {
      assert all[i] == refs[i] && all[j] == refs[j];
    }
  }

  /** A sort of references of distinct orders puts an added one at its place and leaves the others. */
  lemma SortedAtPlace(refs: seq<AdapterRef>, added: AdapterRef, sorted: seq<AdapterRef>)
    requires InOrderOf(refs) && DistinctOrders(refs + [added])
    requires InOrderOf(sorted) && multiset(sorted) == multiset(refs) + multiset{added}
    ensures var k := Place(refs, added.order); sorted == refs[..k] + [added] + refs[k..]
  {
    var k := Place(refs, added.order);
    PlacedInOrder(refs, added);
    hide InOrderOf, DistinctOrders, Place;
    assert refs == refs[..k] + refs[k..];
    assert multiset(refs[..k] + [added] + refs[k..]) == multiset(sorted);
    SortedIsUnique(refs[..k] + [added] + refs[k..], sorted);
  }

  predicate IsFirst(refs: seq<AdapterRef>, k: nat, proc: Adapter) {
    k < |refs| && refs[k].ptr == proc && proc !in Pointers(refs[..k])
  }

  lemma PointersWith(refs: seq<AdapterRef>, k: nat, added: AdapterRef)
    requires k <= |refs|
    ensures Pointers(refs[..k] + [added] + refs[k..]) == With(Pointers(refs), k, added.ptr)
  {
  }

  lemma AddedFirst(refs: seq<AdapterRef>, order: int)
    requires InOrderOf(refs)
    ensures Place(refs, order) == 0 <==> forall i :: 0 <= i < |refs| ==> order < refs[i].order
  {
    PlaceSplits(refs, order);
    assert Place(refs, order) > 0 ==> refs[0].order <= order;
  }

  lemma AddedInBetween(w: Wiring, refs: seq<AdapterRef>, srcs: seq<Adapter>, added: AdapterRef)
    requires InOrderOf(refs) && DistinctEmitters(With(Pointers(refs), 0, added.ptr), srcs) && OnlyListeners(w)
    requires var k := Place(refs, added.order);
             w.Keys == EmittersOf(Pointers(refs[..k] + [added] + refs[k..]), srcs)
    ensures var k := Place(refs, added.order);
            var procs := Pointers(refs[..k] + [added] + refs[k..]);
            && DistinctEmitters(procs, srcs)
            && (OnlyLinks(SetUp(w, Pointers(refs), srcs), procs, srcs) <==> forall i :: 0 <= i < |refs| ==> added.order < refs[i].order)
  {
    hide DistinctEmitters, OnlyLinks, SetUp, EmittersOf, OnlyListeners, Place, InOrderOf, With, Pointers;
    var k, procs := Place(refs, added.order), Pointers(refs);
    AddedFirst(refs, added.order);
    PointersWith(refs, k, added);
    WithMoves(procs, srcs, k, added.ptr);
    AttachedInBetween(w, procs, srcs, k, added.ptr);
  }

  class PacketStream {
    var state: StreamState
    var states: seq<StreamState>
    var sources: seq<AdapterRef>
    var processors: seq<AdapterRef>
    var autoStart: bool

    /** What the adapters were told and sent, and the packets the stream let out. */
    ghost var log: seq<StreamEvent>
    ghost var emitted: seq<PacketInfo>

    /** The stream between two calls, as a state of the machine. */
    ghost function View(): StreamView
      reads this
    {
      State(Adapters(), state, 0, states, [], Free, log)
    }

    ghost predicate Valid()
      reads this, Signals()
    {
      && InOrderOf(sources) && InOrderOf(processors)
      && forall sig :: sig in Signals() ==> sig.Valid()
    }

    ghost function Signals(): set<Signal>
      reads this
    {
      (set r | r in processors :: r.ptr.emitter) + (set r | r in sources :: r.ptr.emitter)
    }

    constructor ()
      ensures Valid() && View() == Initial([]) && sources == [] && processors == [] && !autoStart && emitted == []
    {
      state, states, sources, processors, autoStart, log, emitted := None, [], [], [], false, [], [];
    }

    function Adapters(): seq<Adapter>
      reads this
    {
      Pointers(sources) + Pointers(processors)
    }

    /** `setup`: first the processors, then the sources. */
    method Setup()
      requires Valid()
      modifies Signals()
      ensures Valid()
      ensures forall sig :: sig in Signals() ==>
        sig.Contents() == old(sig.Contents()) + Links(Pointers(processors), Pointers(sources), sig)
      ensures Wired() == SetUp(old(Wired()), Pointers(processors), Pointers(sources))
    {
      hide ChainLinks, LastLink, SourceLinks, InOrderOf, Signal.Contents, Signal.Valid;
      SetupProcessors();
      SetupSources();
    }

    method SetupProcessors()
      requires Valid()
      modifies Signals()
      ensures Valid()
      ensures forall sig :: sig in Signals() ==>
        var procs := Pointers(processors);
        sig.Contents() == old(sig.Contents()) + (ChainLinks(procs, |procs|, sig) + LastLink(procs, sig))
    {
      hide Signal.Contents, Signal.Valid, InOrderOf, Pointers;
      ghost var signals, procs := Signals(), Pointers(processors);
      var lastProc: Adapter? := null;
      var i := 0;
      while i < |processors|
        invariant i <= |processors| && lastProc == (if i == 0 then null else processors[i - 1].ptr)
        invariant forall sig :: sig in signals ==>
          sig.Valid() && sig.Contents() == old(sig.Contents()) + ChainLinks(procs, i, sig)
      {
        var thisProc := processors[i].ptr;
        if lastProc != null {
          assert processors[i - 1] in processors;
          lastProc.emitter.Attach(ToProcessor(thisProc));
        }
        lastProc := thisProc;
        i := i + 1;
      }
      if lastProc != null {
        assert processors[i - 1] in processors;
        lastProc.emitter.Attach(ToEmit);
      }
    }

    method SetupSources()
      requires Valid()
      modifies Signals()
      ensures Valid()
      ensures forall sig :: sig in Signals() ==>
        sig.Contents() == old(sig.Contents()) + SourceLinks(Pointers(sources), |sources|, sig)
    {
      ghost var signals, srcs := Signals(), Pointers(sources);
      var j := 0;
      while j < |sources|
        invariant j <= |sources|
        invariant forall sig :: sig in signals ==>
          sig.Valid() && sig.Contents() == old(sig.Contents()) + SourceLinks(srcs, j, sig)
      {
        assert sources[j] in sources;
        sources[j].ptr.emitter.Attach(ToProcess);
        j := j + 1;
      }
    }

    /** `teardown`: first the processors, then the sources. */
    method Teardown()
      requires Valid()
      modifies Signals()
      ensures Valid()
      ensures forall sig :: sig in Signals() ==>
        sig.Contents() == old(sig.Contents()) - Links(Pointers(processors), Pointers(sources), sig)
    {
      hide ChainLinks, LastLink, SourceLinks, InOrderOf;
      TeardownProcessors();
      TeardownSources();
    }

    method TeardownProcessors()
      requires Valid()
      modifies Signals()
      ensures Valid()
      ensures forall sig :: sig in Signals() ==>
        var procs := Pointers(processors);
        sig.Contents() == old(sig.Contents()) - (ChainLinks(procs, |procs|, sig) + LastLink(procs, sig))
    {
      hide Signal.Contents, Signal.Valid, InOrderOf, Pointers;
      ghost var signals, procs := Signals(), Pointers(processors);
      var lastProc: Adapter? := null;
      var found;
      var i := 0;
      while i < |processors|
        invariant i <= |processors| && lastProc == (if i == 0 then null else processors[i - 1].ptr)
        invariant forall sig :: sig in signals ==>
          sig.Valid() && sig.Contents() == old(sig.Contents()) - ChainLinks(procs, i, sig)
      {
        var thisProc := processors[i].ptr;
        if lastProc != null {
          assert processors[i - 1] in processors;
          found := lastProc.emitter.Detach(ToProcessor(thisProc));
        }
        lastProc := thisProc;
        i := i + 1;
      }
      if lastProc != null {
        assert processors[i - 1] in processors;
        found := lastProc.emitter.Detach(ToEmit);
      }
    }

    method TeardownSources()
      requires Valid()
      modifies Signals()
      ensures Valid()
      ensures forall sig :: sig in Signals() ==>
        sig.Contents() == old(sig.Contents()) - SourceLinks(Pointers(sources), |sources|, sig)
    {
      ghost var signals, srcs := Signals(), Pointers(sources);
      var found;
      var j := 0;
      while j < |sources|
        invariant j <= |sources|
        invariant forall sig :: sig in signals ==>
          sig.Valid() && sig.Contents() == old(sig.Contents()) - SourceLinks(srcs, j, sig)
      {
        assert sources[j] in sources;
        found := sources[j].ptr.emitter.Detach(ToProcess);
        j := j + 1;
      }
    }

    /** What is attached to the signals. */
    ghost function Wired(): Wiring
      reads this, Signals()
    {
      map sig | sig in Signals() :: sig.Contents()
    }

    lemma WiredKeys()
      ensures Wired().Keys == EmittersOf(Pointers(processors), Pointers(sources))
    {
      var procs, srcs := Pointers(processors), Pointers(sources);
      forall sig | sig in EmittersOf(procs, srcs) ensures sig in Signals() {
        if p :| p in procs && p.emitter == sig {
          var i :| 0 <= i < |procs| && procs[i] == p;
          assert processors[i] in processors;
        } else {
          var a :| a in srcs && a.emitter == sig;
          var i :| 0 <= i < |srcs| && srcs[i] == a;
          assert sources[i] in sources;
        }
      }
      forall sig | sig in Signals() ensures sig in EmittersOf(procs, srcs) {
        if r :| r in processors && r.ptr.emitter == sig {
          var i :| 0 <= i < |processors| && processors[i] == r;
          assert procs[i] in procs;
        } else {
          var r :| r in sources && r.ptr.emitter == sig;
          var i :| 0 <= i < |sources| && sources[i] == r;
          assert srcs[i] in srcs;
        }
      }
    }

    lemma Routed(w: Wiring)
      requires w.Keys == Wired().Keys && Wired() == SetUp(w, Pointers(processors), Pointers(sources))
      ensures DistinctEmitters(Pointers(processors), Pointers(sources)) ==>
        var procs, srcs := Pointers(processors), Pointers(sources);
        && IsTaken(Wired(), procs, srcs, WholeChain(procs))
        && (forall j :: 0 <= j < |srcs| ==> Fires(Wired(), srcs[j].emitter, ToProcess))
        && ((forall way: seq<Slot> :: IsTaken(Wired(), procs, srcs, way) ==> way <= WholeChain(procs))
            <==> OnlyLinks(w, procs, srcs))
    {
      ghost var procs, srcs := Pointers(processors), Pointers(sources);
      WiredKeys();
      hide IsTaken, OnlyLinks, Fires, DistinctEmitters, SetUp, EmittersOf, Pointers, WholeChain, Wired;
      if DistinctEmitters(procs, srcs) {
        ChainIsTaken(w, procs, srcs);
        OnlyTheChainIff(w, procs, srcs);
      }
    }

    // States

    method ChangeState(id: StreamState) returns (changed: bool)
      modifies `state, `states, `log
      ensures changed == (id != old(state)) && View() == Changed(old(View()), id)
      ensures state == id
      ensures states == old(states) + (if changed then [id] else []) && log == old(log) + if changed then [Queued(id)] else []
    {
      changed := id != state;
      if changed {
        state := id;
        states := states + [id];
        log := log + [Queued(id)];
      }
    }

    method SynchronizeStates()
      modifies `states, `log
      ensures states == [] && log == old(log) + Broadcast(old(states), Adapters())
    {
      while states != []
        invariant log + Broadcast(states, Adapters()) == old(log) + Broadcast(old(states), Adapters())
        decreases |states|
      {
        ghost var before, queue := log, states;
        var next := states[0];
        states := states[1..];
        var adapters := Adapters();
        for i := 0 to |adapters|
          invariant adapters == Adapters() && states == queue[1..]
          invariant log == before + SentToFirst(next, adapters, i)
        {
          log := log + [Sent(next, adapters[i])];
        }
      }
    }

    /** What `close` and `process` do with the processor lock held; the arrival and the outcome are ghosts. */
    method Serve(ghost job: Job<Adapter, PacketInfo>)
      modifies `states, `log
      ensures View() == Served(old(View()), job)
      ensures states == [] && log == old(log) + ([Arrived(job)] + Broadcast(old(states), Adapters()) + [Outcome(job, |old(log)|, state)])
    {
      hide Broadcast, Pointers;
      ghost var at := |log|;
      log := log + [Arrived(job)];
      SynchronizeStates();
      log := log + [Outcome(job, at, state)];
    }

    /** Links are put on the signals unless the stream is active. The whole chain can then be taken from every
        source, and it is the only way for a packet exactly if the signals held nothing of a stream before but
        the links themselves. */
    method Start()
      requires Valid()
      modifies this`state, this`states, this`log, Signals()
      ensures Valid() && state == Active && View() == Changed(old(View()), Active)
      ensures states == old(states) + if old(state) == Active then [] else [Active]
      ensures forall sig :: sig in Signals() ==>
        sig.Contents() == old(sig.Contents())
                          + if old(state) == Active then {} else Links(Pointers(processors), Pointers(sources), sig)
      ensures old(state) != Active && DistinctEmitters(Pointers(processors), Pointers(sources)) ==>
        var procs, srcs := Pointers(processors), Pointers(sources);
        && IsTaken(Wired(), procs, srcs, WholeChain(procs))
        && (forall j :: 0 <= j < |srcs| ==> Fires(Wired(), srcs[j].emitter, ToProcess))
        && ((forall way: seq<Slot> :: IsTaken(Wired(), procs, srcs, way) ==> way <= WholeChain(procs))
            <==> OnlyLinks(old(Wired()), procs, srcs))
    {
      hide InOrderOf, Signal.Contents, Signal.Valid, Links, IsTaken, OnlyLinks, Fires, DistinctEmitters, SetUp, EmittersOf;
      hide Pointers, WholeChain;
      if state == Active { return; }
      ghost var procs, srcs, w := Pointers(processors), Pointers(sources), Wired();
      Setup();
      var changed := ChangeState(Active);
      assert Wired() == SetUp(w, procs, srcs);
      Routed(w);
    }

    method Stop()
      modifies `state, `states, `log
      ensures View() == WhenStopped(old(View()))
      ensures old(state) in {Stopped, Stopping, Closed} ==> state == old(state) && states == old(states) && log == old(log)
      ensures old(state) !in {Stopped, Stopping, Closed} ==>
        state == Stopped && states == old(states) + [Stopping, Stopped] && log == old(log) + [Queued(Stopping), Queued(Stopped)]
    {
      if state == Stopped || state == Stopping || state == Closed { return; }
      var changed := ChangeState(Stopping);
      changed := ChangeState(Stopped);
    }

    method Pause()
      modifies `state, `states, `log
      ensures View() == Changed(old(View()), Paused)
      ensures state == Paused && states == old(states) + if old(state) == Paused then [] else [Paused]
    {
      var changed := ChangeState(Paused);
    }

    method Resume()
      modifies `state, `states, `log
      ensures View() == if old(state) == Paused then Changed(old(View()), Active) else old(View())
      ensures state == (if old(state) == Paused then Active else old(state))
      ensures states == old(states) + if old(state) == Paused then [Active] else []
    {
      if state != Paused { return; }
      var changed := ChangeState(Active);
    }

    method Lock() returns (done: bool)
      modifies `state, `states, `log
      ensures done == (old(state) == None)
      ensures View() == if done then Changed(old(View()), Locked) else old(View())
      ensures state == (if done then Locked else old(state)) && states == old(states) + if done then [Locked] else []
    {
      if state != None { return false; }
      done := ChangeState(Locked);
    }

    /** Closing tells every adapter all that is queued, Closed last, and takes the links away. */
    method Close()
      requires Valid()
      modifies this`state, this`states, this`log, Signals()
      ensures Valid() && View() == WhenClosed(old(View()))
      ensures old(state) in {None, Closed} ==> state == old(state) && states == old(states) && log == old(log)
      ensures old(state) !in {None, Closed} ==>
        var stops := old(state) != Stopped && old(state) != Stopping;
        var queue := old(states) + (if stops then [Stopping, Stopped] else []) + [Closed];
        var before := old(log) + (if stops then [Queued(Stopping), Queued(Stopped)] else []) + [Queued(Closed)];
        && state == Closed && states == []
        && log == before + ([Arrived(Closing)] + Broadcast(queue, Adapters()) + [Flushed(|before|)])
      ensures forall sig :: sig in Signals() ==>
        sig.Contents() == old(sig.Contents())
                          - if old(state) in {None, Closed} then {} else Links(Pointers(processors), Pointers(sources), sig)
    {
      hide Links, Broadcast, Pointers, InOrderOf, Served, Signal.Contents, Signal.Valid;
      if state == None || state == Closed { return; }
      if state != Stopped && state != Stopping {
        Stop();
      }
      var changed := ChangeState(Closed);
      assert old(log) + [] == old(log) && old(states) + [] == old(states);
      Teardown();
      Serve(Closing);
    }

    // Packets

    /** Listeners hear of a packet only while the stream is active. */
    method Emit(packet: PacketInfo)
      modifies `emitted
      ensures emitted == if state == Active then old(emitted) + [packet] else old(emitted)
    {
      if state != Active { return; }
      emitted := emitted + [packet];
    }

    /** The first lines of `process`. */
    method StartIfNeeded()
      requires Valid()
      modifies this`state, this`states, this`log, Signals()
      ensures Valid() && View() == WhenStarted(old(View()), autoStart)
      ensures var starts := autoStart && old(state) == None;
        && state == (if starts then Active else old(state))
        && states == old(states) + (if starts then [Active] else [])
        && log == old(log) + if starts then [Queued(Active)] else []
    {
      hide Links, Pointers, InOrderOf, Signal.Contents, Signal.Valid;
      if autoStart && state == None {
        Start();
      }
    }

    /** The rest of `process`, which leaves the links alone. */
    method ProcessStarted(packet: PacketInfo)
      modifies `state, `states, `log, `emitted
      ensures View() == WhenProcessed(old(View()), false, Pointers(processors), packet)
      ensures old(state) != Active ==>
        state == old(state) && states == old(states) && log == old(log) && emitted == old(emitted)
      ensures old(state) == Active ==>
        var ends := if packet.isFinal then [Stopping, Stopped] else [];
        var told := if packet.isFinal then [Queued(Stopping), Queued(Stopped)] else [];
        && state == (if packet.isFinal then Stopped else Active)
        && if packet.noModify || processors == [] then
             emitted == old(emitted) + [packet] && states == old(states) + ends && log == old(log) + told
           else
             var first := processors[0].ptr;
             && emitted == old(emitted) && states == ends
             && log == old(log) + ([Arrived(Packet(packet, first))] + Broadcast(old(states), Adapters())
                                   + [Entered(packet, first, |old(log)|)]) + told
    {
      hide Served;
      var firstProc: Adapter? := null;
      if state == Active && !packet.noModify {
        firstProc := if processors != [] then processors[0].ptr else null;
        if firstProc != null {
          Serve(Packet(packet, firstProc));
          if state != Active {
            firstProc := null;
          }
        }
      }
      if firstProc == null {
        Emit(packet);
      }
      if state == Active && packet.isFinal {
        Stop();
      }
    }

    /** A packet enters the first processor of an active stream after the states queued so far, and leaves the
        stream as it came if there is no processor or it must not be modified. A final packet stops the stream. */
    method Process(packet: PacketInfo)
      requires Valid()
      modifies this`state, this`states, this`log, this`emitted, Signals()
      ensures Valid() && View() == WhenProcessed(old(View()), autoStart, Pointers(processors), packet)
      ensures var starts := autoStart && old(state) == None;
        if old(state) != Active && !starts then
          state == old(state) && states == old(states) && log == old(log) && emitted == old(emitted)
        else
          var queue := old(states) + if starts then [Active] else [];
          var before := old(log) + if starts then [Queued(Active)] else [];
          var ends := if packet.isFinal then [Stopping, Stopped] else [];
          var told := if packet.isFinal then [Queued(Stopping), Queued(Stopped)] else [];
          && state == (if packet.isFinal then Stopped else Active)
          && if packet.noModify || processors == [] then
               emitted == old(emitted) + [packet] && states == queue + ends && log == before + told
             else
               var first := processors[0].ptr;
               && emitted == old(emitted) && states == ends
               && log == before + ([Arrived(Packet(packet, first))] + Broadcast(queue, Adapters())
                                   + [Entered(packet, first, |before|)]) + told
    {
      hide InOrderOf, Served, Signal.Contents, Signal.Valid;
      StartIfNeeded();
      ProcessStarted(packet);
    }

    // Adapters

    predicate CanModify()
      reads this
    {
      state != Locked && state != Stopping && state != Active
    }

    /** An order of -1 stands for the number of processors so far. Refused on a stream in use. */
    method Attach(proc: Adapter, order: int) returns (ok: bool)
      requires Valid() && -1 <= order <= 101 && proc.emitter.Valid()
      modifies `processors
      ensures Valid() && ok == (state !in {Locked, Stopping, Active})
      ensures !ok ==> processors == old(processors)
      ensures ok ==>
        var added := AdapterRef(proc, if order == -1 then |old(processors)| else order, false);
        multiset(processors) == multiset(old(processors)) + multiset{added}
    {
      ok := CanModify();
      if ok {
        var added := AdapterRef(proc, if order == -1 then |processors| else order, false);
        ghost var before := processors;
        processors := Insert(processors, added);
        FromEither(before, added, processors);
      }
    }

    method AttachSource(source: Adapter, syncState: bool) returns (ok: bool)
      requires Valid() && source.emitter.Valid()
      modifies `sources
      ensures Valid() && ok == (state !in {Locked, Stopping, Active})
      ensures !ok ==> sources == old(sources)
      ensures ok ==> multiset(sources) == multiset(old(sources)) + multiset{AdapterRef(source, 0, syncState)}
    {
      ok := CanModify();
      if ok {
        ghost var before := sources;
        sources := Insert(sources, AdapterRef(source, 0, syncState));
        FromEither(before, AdapterRef(source, 0, syncState), sources);
      }
    }

    /** Forgets the first reference to a processor, and leaves its links alone. */
    method Detach(proc: Adapter) returns (done: bool)
      requires Valid()
      modifies `processors
      ensures Valid()
      ensures done == (state !in {Locked, Stopping, Active} && proc in Pointers(old(processors)))
      ensures !done ==> processors == old(processors)
      ensures done ==> exists k: nat :: IsFirst(old(processors), k, proc) && processors == old(processors)[..k] + old(processors)[k + 1..]
    {
      done := false;
      if !CanModify() { return; }
      var i := 0;
      while i < |processors|
        invariant i <= |processors| && processors == old(processors) && proc !in Pointers(processors[..i])
      {
        if processors[i].ptr == proc {
          assert Pointers(processors)[i] == proc;
          assert IsFirst(processors, i, proc);
          processors := processors[..i] + processors[i + 1..];
          return true;
        }
        i := i + 1;
      }
      assert processors[..i] == processors;
    }

    // Several calls in a row

    /** Starting and closing gives a signal back what it held exactly if it held none of the links. */
    method StartAndClose()
      requires Valid()
      modifies this`state, this`states, this`log, Signals()
      ensures Valid() && state == Closed
      ensures forall sig :: sig in Signals() ==>
        (sig.Contents() == old(sig.Contents())
         <==> old(sig.Contents()) !! Links(Pointers(processors), Pointers(sources), sig))
    {
      hide Links, Broadcast, Pointers, InOrderOf, Served, Signal.Contents, Signal.Valid, IsTaken, OnlyLinks, Fires;
      Start();
      ghost var closing := CloseRun(View());
      Close();
      assert View().current == Closed;
    }

    /** Stopping takes no link away. */
    method StartAndStop()
      requires Valid() && state != Active
      modifies this`state, this`states, this`log, Signals()
      ensures Valid() && state == Stopped
      ensures forall sig :: sig in Signals() ==>
        sig.Contents() == old(sig.Contents()) + Links(Pointers(processors), Pointers(sources), sig)
    {
      hide Links, Pointers, InOrderOf, Signal.Contents, Signal.Valid, IsTaken, OnlyLinks, Fires;
      Start();
      Stop();
      assert View().current == Stopped;
    }

    /** Nor does detaching. */
    method StartStopDetach(k: nat)
      requires Valid() && state != Active && k < |processors|
      requires DistinctEmitters(Pointers(processors), Pointers(sources))
      modifies this`state, this`states, this`log, this`processors, Signals()
      ensures Valid() && state == Stopped && processors == old(processors)[..k] + old(processors)[k + 1..]
      ensures forall sig :: sig in old(Signals()) ==>
        sig.Contents() == old(sig.Contents()) + Links(old(Pointers(processors)), Pointers(sources), sig)
    {
      hide Links, InOrderOf, Signal.Contents, Signal.Valid;
      ghost var refs, procs := processors, Pointers(processors);
      StartAndStop();
      assert procs[k] == processors[k].ptr;
      var done := Detach(processors[k].ptr);
      ghost var i: nat :| IsFirst(refs, i, procs[k]) && processors == refs[..i] + refs[i + 1..];
      assert procs[i] == procs[k];
    }

    /** And closing takes away only the links of the processors still attached. */
    method StartDetachClose(k: nat)
      requires Valid() && state != Active && k < |processors|
      requires DistinctEmitters(Pointers(processors), Pointers(sources))
      modifies this`state, this`states, this`log, this`processors, Signals()
      ensures Valid() && state == Closed && processors == old(processors)[..k] + old(processors)[k + 1..]
      ensures forall sig :: sig in old(Signals()) ==>
        sig.Contents() == old(sig.Contents()) + Links(old(Pointers(processors)), Pointers(sources), sig)
                          - Links(Pointers(processors), Pointers(sources), sig)
    {
      hide Links, InOrderOf, WhenClosed, Runs, Signal.Contents, Signal.Valid, DistinctEmitters, EmittersOf, Pointers;
      StartStopDetach(k);
      ghost var closing := CloseRun(View());
      ghost var procs, srcs := Pointers(processors), Pointers(sources);
      WiredKeys();
      Close();
      assert View().current == Closed;
      forall sig | sig in old(Signals()) && sig !in Signals() ensures Links(procs, srcs, sig) == {} {
        NoLinksElsewhere(procs, srcs, sig);
      }
    }

    /** A processor detached between start and close leaves links behind exactly on its own signal and on that of
        the processor before it. */
    method DetachInBetween(k: nat)
      requires Valid() && state != Active && k < |processors|
      requires DistinctEmitters(Pointers(processors), Pointers(sources)) && OnlyListeners(Wired())
      modifies this`state, this`states, this`log, this`processors, Signals()
      ensures Valid() && state == Closed && processors == old(processors)[..k] + old(processors)[k + 1..]
      ensures forall j :: 0 <= j < |old(processors)| ==>
        var sig := old(processors)[j].ptr.emitter;
        sig.Contents() == old(sig.Contents()) <==> j != k && j + 1 != k
    {
      hide Links, InOrderOf, Signal.Contents, Signal.Valid, DistinctEmitters, EmittersOf, OnlyListeners;
      ghost var refs, procs, srcs := processors, Pointers(processors), Pointers(sources);
      StartDetachClose(k);
      assert Pointers(processors) == Without(procs, k);
      hide Without, Pointers;
      forall j | 0 <= j < |refs|
        ensures var sig := refs[j].ptr.emitter;
                sig.Contents() == old(sig.Contents()) <==> j != k && j + 1 != k
      {
        var sig := refs[j].ptr.emitter;
        assert refs[j] in refs && procs[j].emitter == sig;
        assert old(Wired())[sig] == old(sig.Contents());
        WhatIsLeft(old(Wired()), procs, srcs, k, j);
      }
    }

    /** The signals of the stream, and that of a processor yet to be attached. */
    ghost function WiredWith(proc: Adapter): Wiring
      reads this, Signals(), proc.emitter
    {
      Wired()[proc.emitter := proc.emitter.Contents()]
    }

    lemma MoreSignals(before: seq<AdapterRef>, signals: set<Signal>, added: AdapterRef)
      requires multiset(processors) == multiset(before) + multiset{added}
      requires signals == (set r | r in before :: r.ptr.emitter) + (set r | r in sources :: r.ptr.emitter)
      ensures Signals() == signals + {added.ptr.emitter}
    {
      assert forall r :: r in processors <==> r in multiset(processors);
      assert forall r :: r in before <==> r in multiset(before);
    }

    /** Attaching to a stream that is not in use, with an order of its own. */
    method AttachAtPlace(proc: Adapter, order: int)
      requires Valid() && CanModify() && 0 <= order <= 101 && proc.emitter.Valid()
      requires DistinctOrders(processors + [AdapterRef(proc, order, false)])
      modifies `processors
      ensures Valid() && Signals() == old(Signals()) + {proc.emitter}
      ensures var k := Place(old(processors), order);
              processors == old(processors)[..k] + [AdapterRef(proc, order, false)] + old(processors)[k..]
    {
      hide InOrderOf, Signal.Valid, DistinctOrders;
      ghost var refs, signals, added := processors, Signals(), AdapterRef(proc, order, false);
      var ok := Attach(proc, order);
      SortedAtPlace(refs, added, processors);
      hide Place;
      MoreSignals(refs, signals, added);
    }

    /** Stopping and attaching take no link away either. */
    method StartStopAttach(proc: Adapter, order: int)
      requires Valid() && state != Active && 0 <= order <= 101 && proc.emitter.Valid()
      requires DistinctOrders(processors + [AdapterRef(proc, order, false)])
      requires DistinctEmitters(With(Pointers(processors), 0, proc), Pointers(sources))
      modifies this`state, this`states, this`log, this`processors, Signals()
      ensures Valid() && state == Stopped
      ensures var k := Place(old(processors), order);
              processors == old(processors)[..k] + [AdapterRef(proc, order, false)] + old(processors)[k..]
      ensures Wired() == SetUp(old(WiredWith(proc)), old(Pointers(processors)), Pointers(sources))
    {
      hide Links, InOrderOf, Signal.Contents, Signal.Valid, DistinctEmitters, DistinctOrders, Place;
      ghost var procs, srcs := Pointers(processors), Pointers(sources);
      WithDistinct(procs, srcs, 0, proc);
      StartAndStop();
      ghost var signals, w := Signals(), old(WiredWith(proc));
      assert proc.emitter !in signals by { WiredKeys(); }
      hide EmittersOf, Pointers;
      AttachAtPlace(proc, order);
      forall sig | sig in Signals() ensures sig.Contents() == w[sig] + Links(procs, srcs, sig) {
      }
    }

    /** A processor attached between stop and start is entered by the new chain, but the links of the old chain
        are still in place: the new one is the only way exactly if the processor comes before all others. */
    method AttachInBetween(proc: Adapter, order: int)
      requires Valid() && state != Active && 0 <= order <= 101 && proc.emitter.Valid()
      requires DistinctOrders(processors + [AdapterRef(proc, order, false)])
      requires DistinctEmitters(With(Pointers(processors), 0, proc), Pointers(sources))
      requires OnlyListeners(WiredWith(proc))
      modifies this`state, this`states, this`log, this`processors, Signals(), proc.emitter
      ensures Valid() && state == Active
      ensures var k := Place(old(processors), order);
              processors == old(processors)[..k] + [AdapterRef(proc, order, false)] + old(processors)[k..]
      ensures var procs, srcs := Pointers(processors), Pointers(sources);
              (forall way: seq<Slot> :: IsTaken(Wired(), procs, srcs, way) ==> way <= WholeChain(procs))
              <==> forall i :: 0 <= i < |old(processors)| ==> order < old(processors)[i].order
    {
      hide Links, Signal.Contents, Signal.Valid, IsTaken, OnlyLinks, Fires, DistinctEmitters, DistinctOrders, InOrderOf;
      hide EmittersOf, SetUp, Place, WholeChain, OnlyListeners;
      ghost var refs, srcs, w := processors, Pointers(sources), WiredWith(proc);
      StartStopAttach(proc, order);
      WiredKeys();
      AddedInBetween(w, refs, srcs, AdapterRef(proc, order, false));
      hide Pointers, View, Changed;
      Start();
    }
  }

  lemma FromEither(before: seq<AdapterRef>, added: AdapterRef, after: seq<AdapterRef>)
    requires multiset(after) == multiset(before) + multiset{added}
    ensures forall r :: r in after ==> r in before || r == added
  {
    forall r | r in after ensures r in before || r == added {
      assert r in multiset(after);
      assert r in multiset(before) || r == added;
    }
  }
}
