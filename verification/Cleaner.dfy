/** Deferred deletion: the cleaner of src/base/src/memory.cpp.

    Any thread may queue a pointer at any moment, also between the steps of a tick and from the destructor of a
    pointer just deleted, so a tick of `work` is modelled step by step.
 */
module Cleaners {

  /** A queued pointer, stamped with the number of ticks begun before. The stamp is bookkeeping of the model. */
  datatype Entry = Entry(pointer: nat, queuedAt: nat)

  datatype Deletion = Deletion(entry: Entry, tick: nat)

  /** `Deleting` holds between the swap and the last deletion of a tick, `Checking` until its end. */
  datatype Phase = Idle | Deleting | Checking

  datatype State = State(pending: seq<Entry>, ready: seq<Entry>, deletable: seq<Entry>, deleted: seq<Deletion>,
                         ticks: nat, phase: Phase, finalizing: bool, timer: bool)

  datatype Action = DeleteLater(pointer: nat) | Swap | DeleteNext | DeletedAll | Check | Finalize

  predicate Enabled(s: State, action: Action) {
    match action
    case DeleteLater(_) => true
    case Swap => s.phase.Idle? && s.timer
    case DeleteNext => s.phase.Deleting? && s.deletable != []
    case DeletedAll => s.phase.Deleting? && s.deletable == []
    case Check => s.phase.Checking?
    case Finalize => s.phase.Idle? && !s.finalizing
  }

  /** The swap is skipped when both queues are empty, which comes to the same. */
  function Apply(s: State, action: Action): State
    requires Enabled(s, action)
  {
    match action
    case DeleteLater(p) => s.(pending := s.pending + [Entry(p, s.ticks)])
    case Swap => s.(deletable := s.ready, ready := s.pending, pending := [], ticks := s.ticks + 1, phase := Deleting)
    case DeleteNext => s.(deleted := s.deleted + [Deletion(s.deletable[0], s.ticks)], deletable := s.deletable[1..])
    case DeletedAll => s.(phase := Checking)
    case Check => s.(phase := Idle, timer := s.timer && !(s.finalizing && s.ready == [] && s.pending == []))
    case Finalize => s.(finalizing := true)
  }

  predicate Leads(s: State, actions: seq<Action>, s': State)
    decreases |actions|
  {
    if actions == [] then s == s' else Enabled(s, actions[0]) && Leads(Apply(s, actions[0]), actions[1..], s')
  }

  const START := State([], [], [], [], 0, Idle, false, true)

  // Where a pointer is

  predicate QueuedAt(entries: seq<Entry>, tick: int) {
    forall i :: 0 <= i < |entries| ==> entries[i].queuedAt == tick
  }

  /** Entries wait out one whole tick and are deleted in the next. */
  predicate OnTime(s: State) {
    && QueuedAt(s.pending, s.ticks) && QueuedAt(s.ready, s.ticks - 1) && QueuedAt(s.deletable, s.ticks - 2)
    && (forall i :: 0 <= i < |s.deleted| ==> s.deleted[i].tick == s.deleted[i].entry.queuedAt + 2 && s.deleted[i].tick <= s.ticks)
    && (!s.phase.Deleting? ==> s.deletable == [])
  }

  function Entries(deleted: seq<Deletion>): seq<Entry> {
    seq(|deleted|, i requires 0 <= i < |deleted| => deleted[i].entry)
  }

  /** Everything queued so far, in order: deleted, about to be, ready and pending. */
  function Everything(s: State): seq<Entry> {
    Entries(s.deleted) + s.deletable + s.ready + s.pending
  }

  lemma OnTimeStep(s: State, action: Action)
    requires Enabled(s, action) && OnTime(s)
    ensures OnTime(Apply(s, action))
  {
  }

  lemma EverythingStep(s: State, action: Action)
    requires Enabled(s, action) && OnTime(s)
    ensures Everything(Apply(s, action))
         == Everything(s) + if action.DeleteLater? then [Entry(action.pointer, s.ticks)] else []
  {
    var s' := Apply(s, action);
    var gone := Entries(s.deleted);
    if action.DeleteNext? {
      assert Entries(s'.deleted) == gone + [s.deletable[0]];
      assert gone + [s.deletable[0]] + s'.deletable == gone + s.deletable;
    } else if action.DeleteLater? {
      assert s.pending + [Entry(action.pointer, s.ticks)] == s'.pending;
    } else if action.Swap? {
      assert gone + s.ready + s.pending + [] == gone + [] + s.ready + s.pending;
    }
  }

  /** What a run queues, with the tick count at the time. */
  function QueuedBy(s: State, actions: seq<Action>): seq<Entry>
    decreases |actions|
  {
    if actions == [] || !Enabled(s, actions[0]) then []
    else
      (if actions[0].DeleteLater? then [Entry(actions[0].pointer, s.ticks)] else []) + QueuedBy(Apply(s, actions[0]), actions[1..])
  }

  /** Over every run, the pointers queued are, in order, those deleted, those being deleted and those in the two
      queues: none is lost, and none is in two places. Each deletion happens in the second tick after queueing. */
  lemma {:induction false} NothingLost(s: State, actions: seq<Action>, s': State)
    requires Leads(s, actions, s') && OnTime(s)
    ensures OnTime(s') && Everything(s') == Everything(s) + QueuedBy(s, actions)
    decreases |actions|
  {
    if actions != [] {
      hide Apply, Enabled, OnTime, Everything;
      OnTimeStep(s, actions[0]);
      EverythingStep(s, actions[0]);
      NothingLost(Apply(s, actions[0]), actions[1..], s');
    }
  }

  lemma InitiallyOnTime()
    ensures OnTime(START) && Everything(START) == []
  {
  }

  /** Whatever was queued i-th is deleted i-th, by the end of the second tick that begins after its queueing and
      in no other: at any moment with no tick in progress it is deleted exactly if two ticks have begun since. */
  lemma DeletedIff(actions: seq<Action>, s: State, i: nat)
    requires Leads(START, actions, s) && i < |QueuedBy(START, actions)| && !s.phase.Deleting?
    ensures var entry := QueuedBy(START, actions)[i];
            && (i < |s.deleted| <==> s.ticks >= entry.queuedAt + 2)
            && (i < |s.deleted| ==> s.deleted[i] == Deletion(entry, entry.queuedAt + 2))
  {
    hide Leads;
    InitiallyOnTime();
    NothingLost(START, actions, s);
    var entry := QueuedBy(START, actions)[i];
    assert [] + QueuedBy(START, actions) == QueuedBy(START, actions);
    assert Everything(s)[i] == entry;
    if i < |s.deleted| {
      assert Entries(s.deleted)[i] == entry;
    } else if i < |s.deleted| + |s.ready| {
      assert s.ready[i - |s.deleted|] == entry;
    } else {
      assert s.pending[i - |s.deleted| - |s.ready|] == entry;
    }
  }

  // Finalization

  /** Ticks that nothing is queued during. */
  predicate Quiet(actions: seq<Action>) {
    forall i :: 0 <= i < |actions| ==> !actions[i].DeleteLater?
  }

  /** What is left to do once finalization has begun: the timer stops with the first tick that finds both
      queues empty at its end, and that is tick `last`. */
  predicate Finishing(s: State, last: nat) {
    && s.finalizing
    && (s.timer ==> match s.phase
        case Idle => s.ticks + (if s.pending == [] then 1 else 2) == last
        case _ => s.pending == [] && s.ticks + (if s.ready == [] then 0 else 1) == last)
    && (!s.timer ==> s.ticks == last && s.pending == [] && s.ready == [] && s.deletable == [])
  }

  lemma FinishingStep(s: State, action: Action, last: nat)
    requires Enabled(s, action) && OnTime(s) && !action.DeleteLater? && Finishing(s, last)
    ensures Finishing(Apply(s, action), last)
  {
  }

  lemma {:induction false} FinishingRun(s: State, actions: seq<Action>, s': State, last: nat)
    requires Leads(s, actions, s') && OnTime(s) && Quiet(actions) && Finishing(s, last)
    ensures Finishing(s', last) && OnTime(s')
    decreases |actions|
  {
    if actions != [] {
      hide Apply, Enabled, OnTime, Finishing;
      OnTimeStep(s, actions[0]);
      FinishingStep(s, actions[0], last);
      assert Quiet(actions[1..]);
      FinishingRun(Apply(s, actions[0]), actions[1..], s', last);
    }
  }

  /** The number of the tick with which finalization is over: the next, or the one after if something is
      pending. */
  function LastTick(s: State): nat {
    s.ticks + if s.pending == [] then 1 else 2
  }

  /** If nothing more is queued, no tick begins after the last, and between ticks the timer has stopped exactly
      if the last has been; both queues are then empty because everything in them has been deleted. */
  lemma FinalizationEnds(s: State, actions: seq<Action>, s': State)
    requires OnTime(s) && s.phase.Idle? && s.finalizing && s.timer
    requires Leads(s, actions, s') && Quiet(actions) && s'.phase.Idle?
    ensures s'.ticks <= LastTick(s) && (!s'.timer <==> s'.ticks == LastTick(s))
    ensures !s'.timer ==> s'.pending == [] && s'.ready == [] && Entries(s'.deleted) == Everything(s)
  {
    FinishingRun(s, actions, s', LastTick(s));
    NothingLost(s, actions, s');
    NothingQueued(s, actions);
    assert Everything(s) + [] == Everything(s);
    assert Everything(s') == Entries(s'.deleted) + [] + s'.ready + s'.pending;
  }

  lemma {:induction false} NothingQueued(s: State, actions: seq<Action>)
    requires Quiet(actions)
    ensures QueuedBy(s, actions) == []
    decreases |actions|
  {
    if actions != [] && Enabled(s, actions[0]) {
      NothingQueued(Apply(s, actions[0]), actions[1..]);
    }
  }

  /** Once the timer has stopped, nothing is deleted any more: what is queued after that stays. */
  lemma {:induction false} StoppedForGood(s: State, actions: seq<Action>, s': State)
    requires Leads(s, actions, s') && s.phase.Idle? && !s.timer
    ensures s'.deleted == s.deleted && s'.pending == s.pending + QueuedBy(s, actions)
    decreases |actions|
  {
    if actions != [] {
      StoppedStep(s, actions[0]);
      assert QueuedBy(s, actions)
          == (if actions[0].DeleteLater? then [Entry(actions[0].pointer, s.ticks)] else []) + QueuedBy(Apply(s, actions[0]), actions[1..]);
      hide Apply, Enabled, QueuedBy;
      StoppedForGood(Apply(s, actions[0]), actions[1..], s');
    }
  }

  lemma StoppedStep(s: State, action: Action)
    requires Enabled(s, action) && s.phase.Idle? && !s.timer
    ensures var s' := Apply(s, action);
            && s'.phase.Idle? && !s'.timer && s'.deleted == s.deleted
            && s'.pending == s.pending + if action.DeleteLater? then [Entry(action.pointer, s.ticks)] else []
  {
  }

  // The class

  /** A tick that nothing interrupts. */
  function Tick(s: State): State {
    var tick := s.ticks + 1;
    State([], s.pending, [], s.deleted + Deletions(s.ready, tick), tick, Idle, s.finalizing,
          s.timer && !(s.finalizing && s.pending == []))
  }

  function Deletions(entries: seq<Entry>, tick: nat): seq<Deletion> {
    seq(|entries|, i requires 0 <= i < |entries| => Deletion(entries[i], tick))
  }

  function TickActions(n: nat): seq<Action> {
    [Swap] + DeleteActions(n) + [Check]
  }

  function DeleteActions(n: nat): seq<Action> {
    if n == 0 then [DeletedAll] else [DeleteNext] + DeleteActions(n - 1)
  }

  lemma LeadsFirst(s: State, action: Action, actions: seq<Action>, s': State)
    requires Enabled(s, action) && Leads(Apply(s, action), actions, s')
    ensures Leads(s, [action] + actions, s')
  {
    assert ([action] + actions)[1..] == actions;
  }

  lemma {:induction false} DeleteRun(s: State, s': State)
    requires s.phase.Deleting?
    requires var s1 := s.(deleted := s.deleted + Deletions(s.deletable, s.ticks), deletable := [], phase := Checking);
             s' == Apply(s1, Check)
    ensures Leads(s, DeleteActions(|s.deletable|) + [Check], s')
    decreases |s.deletable|
  {
    if s.deletable == [] {
      assert s.deleted + [] == s.deleted;
      assert Leads(s', [], s');
      LeadsFirst(Apply(s, DeletedAll), Check, [], s');
      LeadsFirst(s, DeletedAll, [Check], s');
    } else {
      var s1 := Apply(s, DeleteNext);
      assert Deletions(s.deletable, s.ticks) == [Deletion(s.deletable[0], s.ticks)] + Deletions(s1.deletable, s.ticks);
      assert s1.deleted + Deletions(s1.deletable, s.ticks) == s.deleted + Deletions(s.deletable, s.ticks);
      DeleteRun(s1, s');
      LeadsFirst(s, DeleteNext, DeleteActions(|s1.deletable|) + [Check], s');
      assert [DeleteNext] + (DeleteActions(|s1.deletable|) + [Check]) == DeleteActions(|s.deletable|) + [Check];
    }
  }

  /** It takes the steps of the machine. */
  lemma TickRun(s: State)
    requires s.phase.Idle? && s.timer
    ensures Leads(s, TickActions(|s.ready|), Tick(s))
  {
    var s1 := Apply(s, Swap);
    DeleteRun(s1, Tick(s));
    LeadsFirst(s, Swap, DeleteActions(|s.ready|) + [Check], Tick(s));
    assert [Swap] + (DeleteActions(|s.ready|) + [Check]) == TickActions(|s.ready|);
  }

  class Cleaner {
    var pending: seq<Entry>
    var ready: seq<Entry>
    var finalizing: bool
    var timer: bool
    ghost var deleted: seq<Deletion>
    ghost var ticks: nat

    constructor ()
      ensures View() == START
    {
      pending, ready, finalizing, timer, deleted, ticks := [], [], false, true, [], 0;
    }

    /** The cleaner between two calls, as a state of the machine. */
    ghost function View(): State
      reads this
    {
      State(pending, ready, [], deleted, ticks, Idle, finalizing, timer)
    }

    /** `deleteLater`; the stamp is passed in because it is bookkeeping. */
    method Queue(pointer: nat, at: nat)
      requires at == ticks
      modifies `pending
      ensures View() == Apply(old(View()), DeleteLater(pointer))
    {
      pending := pending + [Entry(pointer, at)];
    }

    /** `clearVector`: deletes the first until none is left. */
    method Clear(entries: seq<Entry>)
      modifies `deleted
      ensures deleted == old(deleted) + Deletions(entries, ticks)
    {
      var deletable := entries;
      while deletable != []
        invariant deleted + Deletions(deletable, ticks) == old(deleted) + Deletions(entries, ticks)
        decreases |deletable|
      {
        ghost var rest := Deletions(deletable[1..], ticks);
        assert Deletions(deletable, ticks) == [Deletion(deletable[0], ticks)] + rest;
        deleted := deleted + [Deletion(deletable[0], ticks)];
        deletable := deletable[1..];
      }
    }

    method Work()
      requires timer
      modifies this
      ensures View() == Tick(old(View()))
    {
      ticks := ticks + 1;
      var deletable := [];
      if ready != [] || pending != [] {
        deletable := ready;
        ready := [];
        ready, pending := pending, ready;
      }
      Clear(deletable);
      if finalizing {
        if ready == [] && pending == [] {
          timer := false;
        }
      }
    }

    /** Runs the loop, here nothing but the timer, until it has nothing left to do. */
    method FinalizeAll()
      requires !finalizing && timer
      modifies this
      ensures finalizing && !timer && pending == [] && ready == [] && ticks == LastTick(old(View()))
      ensures Entries(deleted) == Entries(old(deleted)) + old(ready) + old(pending)
    {
      finalizing := true;
      while timer
        invariant finalizing && (!timer ==> pending == [] && ready == [])
        invariant if timer then LastTick(View()) == LastTick(old(View())) else ticks == LastTick(old(View()))
        invariant Entries(deleted) + ready + pending == Entries(old(deleted)) + old(ready) + old(pending)
        decreases |pending|, timer
      {
        ghost var before := View();
        Work();
        assert Entries(deleted) == Entries(before.deleted) + before.ready;
      }
    }
  }
}
