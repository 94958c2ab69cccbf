/** The task runner of src/base/src/task.cpp.

    An iteration of `run` takes the queue's lock several times and lets go of it in between, so it is modelled
    as a machine whose steps other threads, and the running task itself, may interleave with calls of their
    own. The class below is the same iteration left undisturbed.
 */
module TaskRunners {

  /** Where the iteration in progress stands. */
  datatype Phase<T> =
    | Idle
    | Selected(task: T)
    | Running(task: T)
    | Checked(task: T)
    | Rotated(task: T)
    | Condemned(task: T)
    | Removed(task: T)

  /** Tasks are deleted by the loop, or discarded by a call of `destroy`. The calls that have looked into the queue
      and not acted yet are about to add, to mark or to drop a task. */
  datatype State<T> = State(queue: seq<T>, cancelled: set<T>, destroyed: set<T>, phase: Phase<T>,
                            ran: seq<T>, deleted: seq<T>, discarded: seq<T>, iterations: nat,
                            adding: multiset<T>, marking: multiset<T>, dropping: multiset<T>)

  /** The first seven are steps of `run`, the others of `add`, `cancel` and `destroy`. The look into the queue of
      `add` and `destroy` holds the lock on its own, so it is a step apart from what they do next. */
  datatype Action<T> =
    | Select | Begin | Finish | Rotate | Inspect | TakeOut | Delete
    | LookUp(wanted: T) | Push(added: T) | Cancel(victim: T) | LookAt(doomed: T) | Mark(marked: T) | Drop(dropped: T)

  /** `next`: the position of the first task that is not cancelled, or the length of the queue. */
  function NextIndex<T(==)>(queue: seq<T>, cancelled: set<T>): (j: nat)
    ensures j <= |queue| && (forall i :: 0 <= i < j ==> queue[i] in cancelled)
    ensures j < |queue| ==> queue[j] !in cancelled
  {
    if queue == [] || queue[0] !in cancelled then 0 else 1 + NextIndex(queue[1..], cancelled)
  }

  /** `remove`. */
  function RemoveFirst<T(==)>(queue: seq<T>, task: T): seq<T> {
    if queue == [] then []
    else if queue[0] == task then queue[1..]
    else [queue[0]] + RemoveFirst(queue[1..], task)
  }

  predicate Enabled<T(==)>(s: State<T>, action: Action<T>) {
    match action
    case Select => s.phase.Idle?
    case Begin => s.phase.Selected?
    case Finish => s.phase.Running?
    case Rotate => s.phase.Checked? && s.queue != []
    case Inspect => s.phase.Rotated?
    case TakeOut => s.phase.Condemned?
    case Delete => s.phase.Removed?
    case Push(t) => t in s.adding
    case Mark(t) => t in s.marking
    case Drop(t) => t in s.dropping
    case _ => true
  }

  function Apply<T(==)>(repeating: T -> bool, s: State<T>, action: Action<T>): State<T>
    requires Enabled(s, action)
  {
    if IsOfLoop(action) then Turned(repeating, s, action) else Called(s, action)
  }

  predicate IsOfLoop<T>(action: Action<T>) {
    action.Select? || action.Begin? || action.Finish? || action.Rotate? || action.Inspect? || action.TakeOut? || action.Delete?
  }

  function Turned<T(==)>(repeating: T -> bool, s: State<T>, action: Action<T>): State<T>
    requires Enabled(s, action) && IsOfLoop(action)
  {
    match action
    case Select =>
      var j := NextIndex(s.queue, s.cancelled);
      if j < |s.queue| then s.(phase := Selected(s.queue[j])) else s.(iterations := s.iterations + 1)
    case Begin =>
      var t := s.phase.task;
      if t !in s.cancelled then s.(phase := Running(t), ran := s.ran + [t]) else s.(phase := Checked(t))
    case Finish =>
      var t := s.phase.task;
      s.(phase := Checked(t), cancelled := if repeating(t) then s.cancelled else s.cancelled + {t})
    case Rotate => s.(phase := Rotated(s.phase.task), queue := s.queue[1..] + [s.queue[0]])
    case Inspect =>
      if s.phase.task in s.destroyed then s.(phase := Condemned(s.phase.task))
      else s.(phase := Idle, iterations := s.iterations + 1)
    case TakeOut => s.(phase := Removed(s.phase.task), queue := RemoveFirst(s.queue, s.phase.task))
    case Delete => s.(phase := Idle, iterations := s.iterations + 1, deleted := s.deleted + [s.phase.task])
  }

  function Called<T(==)>(s: State<T>, action: Action<T>): State<T>
    requires Enabled(s, action) && !IsOfLoop(action)
  {
    match action
    case LookUp(t) => if t in s.queue then s else s.(adding := s.adding + multiset{t})
    case Push(t) => s.(queue := s.queue + [t], adding := s.adding - multiset{t})
    case Cancel(t) => s.(cancelled := s.cancelled + {t})
    case LookAt(t) =>
      if t in s.queue then s.(marking := s.marking + multiset{t}) else s.(dropping := s.dropping + multiset{t})
    case Mark(t) => s.(destroyed := s.destroyed + {t}, marking := s.marking - multiset{t})
    case Drop(t) => s.(discarded := s.discarded + [t], dropping := s.dropping - multiset{t})
  }

  /** What the calls of other threads do to the loop. */
  lemma CallKeeps<T>(s: State<T>, action: Action<T>)
    requires Enabled(s, action) && !IsOfLoop(action)
    ensures var s' := Called(s, action);
            && s'.phase == s.phase && s'.ran == s.ran && s'.deleted == s.deleted && s'.iterations == s.iterations
            && s'.queue == s.queue + (if action.Push? then [action.added] else [])
            && s'.cancelled == s.cancelled + (if action.Cancel? then {action.victim} else {})
            && s.destroyed <= s'.destroyed
            && s'.discarded == s.discarded + (if action.Drop? then [action.dropped] else [])
  {
    assert s.queue + [] == s.queue && s.discarded + [] == s.discarded && s.cancelled + {} == s.cancelled;
  }

  /** The actions lead from s to s'. */
  predicate Leads<T(==)>(repeating: T -> bool, s: State<T>, actions: seq<Action<T>>, s': State<T>)
    decreases |actions|
  {
    if actions == [] then s == s'
    else Enabled(s, actions[0]) && Leads(repeating, Apply(repeating, s, actions[0]), actions[1..], s')
  }

  // Bounded waiting

  lemma {:induction false} RemoveOther<T>(queue: seq<T>, other: T, i: nat) returns (i': nat)
    requires i < |queue| && queue[i] != other
    ensures i' <= i && i' < |RemoveFirst(queue, other)| && RemoveFirst(queue, other)[i'] == queue[i]
  {
    if queue[0] == other {
      i' := i - 1;
    } else if i == 0 {
      i' := 0;
    } else {
      i' := RemoveOther(queue[1..], other, i - 1);
      i' := i' + 1;
    }
  }

  /** Task t, at position i, will have run before `deadline` iterations are over. */
  predicate Waits<T(==)>(s: State<T>, t: T, i: nat, deadline: nat) {
    && t !in s.cancelled && i < |s.queue| && s.queue[i] == t
    && match s.phase
       case Idle => s.iterations + i < deadline
       case Selected(x) => s.iterations + i < deadline && (x == t || i > 0)
       case Running(x) => s.iterations + i < deadline && x != t && i > 0
       case Checked(x) => s.iterations + i < deadline && x != t && i > 0
       case _ => s.iterations + i + 1 < deadline && s.phase.task != t
  }

  /** A step that is not a cancellation of t brings t closer to its turn, or runs it. */
  lemma WaitStep<T>(repeating: T -> bool, s: State<T>, action: Action<T>, t: T, i: nat, deadline: nat) returns (i': nat)
    requires Enabled(s, action) && action != Cancel(t) && Waits(s, t, i, deadline)
    ensures var s' := Apply(repeating, s, action); s'.ran == s.ran + [t] || Waits(s', t, i', deadline)
  {
    hide RemoveFirst, Called;
    i' := i;
    if !IsOfLoop(action) {
      CallKeeps(s, action);
    } else if action.Rotate? {
      i' := i - 1;
    } else if action.TakeOut? {
      i' := RemoveOther(s.queue, s.phase.task, i);
    }
  }

  lemma {:induction false} RanGrows<T>(repeating: T -> bool, s: State<T>, actions: seq<Action<T>>, s': State<T>)
    requires Leads(repeating, s, actions, s')
    ensures s.ran <= s'.ran
    decreases |actions|
  {
    if actions != [] { RanGrows(repeating, Apply(repeating, s, actions[0]), actions[1..], s'); }
  }

  lemma {:induction false} WaitRun<T>(repeating: T -> bool, s: State<T>, actions: seq<Action<T>>, s': State<T>,
                                      t: T, i: nat, deadline: nat)
    requires Leads(repeating, s, actions, s') && Cancel(t) !in actions && Waits(s, t, i, deadline)
    ensures s.ran <= s'.ran && (t in s'.ran[|s.ran|..] || s'.iterations < deadline)
    decreases |actions|
  {
    if actions != [] {
      hide Apply, Enabled;
      var i' := WaitStep(repeating, s, actions[0], t, i, deadline);
      var next := Apply(repeating, s, actions[0]);
      RanGrows(repeating, next, actions[1..], s');
      if next.ran == s.ran + [t] {
        assert s'.ran[|s.ran|] == t;
      } else {
        StepRan(repeating, s, actions[0]);
        WaitRun(repeating, next, actions[1..], s', t, i', deadline);
      }
    }
  }

  lemma StepRan<T>(repeating: T -> bool, s: State<T>, action: Action<T>)
    requires Enabled(s, action)
    ensures s.ran <= Apply(repeating, s, action).ran
  {
  }

  /** A task at position k that nobody cancels runs within the next k + 1 iterations, whatever else is added,
      cancelled or destroyed in between, even if it is destroyed itself. */
  lemma BoundedWaiting<T>(repeating: T -> bool, s: State<T>, actions: seq<Action<T>>, s': State<T>, k: nat)
    requires Leads(repeating, s, actions, s') && s.phase.Idle?
    requires k < |s.queue| && s.queue[k] !in s.cancelled && Cancel(s.queue[k]) !in actions
    requires s'.iterations >= s.iterations + k + 1
    ensures s.ran <= s'.ran && s.queue[k] in s'.ran[|s.ran|..]
  {
    RanGrows(repeating, s, actions, s');
    WaitRun(repeating, s, actions, s', s.queue[k], k, s.iterations + k + 1);
  }

  // A task that does not repeat

  ghost predicate RunsOnce<T>(s: State<T>, t: T) {
    multiset(s.ran)[t] == 0 || (multiset(s.ran)[t] == 1 && (t in s.cancelled || s.phase == Running(t)))
  }

  lemma RunsOnceStep<T>(repeating: T -> bool, s: State<T>, action: Action<T>, t: T)
    requires Enabled(s, action) && !repeating(t) && RunsOnce(s, t)
    ensures RunsOnce(Apply(repeating, s, action), t)
  {
  }

  /** Over any run, a task that does not repeat is run at most once, however often it is added. */
  lemma {:induction false} AtMostOnce<T>(repeating: T -> bool, s: State<T>, actions: seq<Action<T>>, s': State<T>, t: T)
    requires Leads(repeating, s, actions, s') && !repeating(t) && RunsOnce(s, t)
    ensures RunsOnce(s', t) && multiset(s'.ran)[t] <= 1
    decreases |actions|
  {
    if actions != [] {
      hide Apply, RunsOnce, Enabled;
      RunsOnceStep(repeating, s, actions[0], t);
      AtMostOnce(repeating, Apply(repeating, s, actions[0]), actions[1..], s', t);
    }
  }

  // Conservation

  function AddedBy<T>(actions: seq<Action<T>>): multiset<T> {
    if actions == [] then multiset{}
    else (if actions[0].Push? then multiset{actions[0].added} else multiset{}) + AddedBy(actions[1..])
  }

  lemma {:induction false} RemoveFirstTakesOne<T>(queue: seq<T>, task: T)
    ensures multiset(RemoveFirst(queue, task)) == multiset(queue) - multiset{task}
    ensures task in queue ==> |RemoveFirst(queue, task)| == |queue| - 1
    decreases |queue|
  {
    if queue != [] {
      assert queue == [queue[0]] + queue[1..];
      if queue[0] != task { RemoveFirstTakesOne(queue[1..], task); }
    }
  }

  /** The task an iteration is about is in the queue until it is taken out. */
  predicate Holds<T(==)>(s: State<T>) {
    s.phase.Idle? || s.phase.Removed? || s.phase.task in s.queue
  }

  /** Taken out, and about to be deleted. */
  function Taken<T>(s: State<T>): multiset<T> {
    if s.phase.Removed? then multiset{s.phase.task} else multiset{}
  }

  function DroppedBy<T>(actions: seq<Action<T>>): multiset<T> {
    if actions == [] then multiset{}
    else (if actions[0].Drop? then multiset{actions[0].dropped} else multiset{}) + DroppedBy(actions[1..])
  }

  lemma HoldsStep<T>(repeating: T -> bool, s: State<T>, action: Action<T>)
    requires Enabled(s, action) && Holds(s)
    ensures Holds(Apply(repeating, s, action))
  {
    if action.Rotate? {
      var i :| 0 <= i < |s.queue| && s.queue[i] == s.phase.task;
      var queue' := s.queue[1..] + [s.queue[0]];
      assert queue'[if i == 0 then |s.queue| - 1 else i - 1] == s.phase.task;
    }
  }

  lemma RotationKeeps<T>(queue: seq<T>)
    requires queue != []
    ensures multiset(queue[1..] + [queue[0]]) == multiset(queue)
  {
    assert queue == [queue[0]] + queue[1..];
  }

  /** The tasks the runner answers for: queued, taken out or deleted by the loop. */
  function InRunner<T>(s: State<T>): multiset<T> {
    multiset(s.queue) + Taken(s) + multiset(s.deleted)
  }

  lemma CallConserves<T>(s: State<T>, action: Action<T>)
    requires Enabled(s, action) && !IsOfLoop(action)
    ensures InRunner(Called(s, action)) == InRunner(s) + (if action.Push? then multiset{action.added} else multiset{})
  {
    CallKeeps(s, action);
    hide Called, Enabled;
    assert multiset(Called(s, action).queue) == multiset(s.queue) + (if action.Push? then multiset{action.added} else multiset{});
  }

  lemma TakeOutConserves<T>(repeating: T -> bool, s: State<T>)
    requires s.phase.Condemned? && s.phase.task in s.queue
    ensures InRunner(Turned(repeating, s, TakeOut)) == InRunner(s)
  {
    var t, queue := s.phase.task, multiset(s.queue);
    RemoveFirstTakesOne(s.queue, t);
    hide RemoveFirst;
    assert t in queue;
    assert queue - multiset{t} + multiset{t} == queue;
  }

  lemma DeleteConserves<T>(repeating: T -> bool, s: State<T>)
    requires s.phase.Removed?
    ensures InRunner(Turned(repeating, s, Delete)) == InRunner(s)
  {
  }

  lemma TurnConserves<T>(repeating: T -> bool, s: State<T>, action: Action<T>)
    requires Enabled(s, action) && IsOfLoop(action) && Holds(s)
    ensures InRunner(Turned(repeating, s, action)) == InRunner(s)
  {
    if action.TakeOut? {
      TakeOutConserves(repeating, s);
    } else if action.Delete? {
      DeleteConserves(repeating, s);
    } else if action.Rotate? {
      RotateConserves(repeating, s);
    } else {
      OthersConserve(repeating, s, action);
      hide Turned;
    }
  }

  lemma RotateConserves<T>(repeating: T -> bool, s: State<T>)
    requires Enabled(s, Rotate)
    ensures InRunner(Turned(repeating, s, Rotate)) == InRunner(s)
  {
    RotationKeeps(s.queue);
  }

  lemma OthersConserve<T>(repeating: T -> bool, s: State<T>, action: Action<T>)
    requires Enabled(s, action) && (action.Select? || action.Begin? || action.Finish? || action.Inspect?)
    ensures var s' := Turned(repeating, s, action); s'.queue == s.queue && Taken(s') == Taken(s) && s'.deleted == s.deleted
  {
    hide NextIndex;
  }

  lemma ConservedStep<T>(repeating: T -> bool, s: State<T>, action: Action<T>)
    requires Enabled(s, action) && Holds(s)
    ensures InRunner(Apply(repeating, s, action)) == InRunner(s) + (if action.Push? then multiset{action.added} else multiset{})
  {
    hide InRunner, Turned, Called, Holds;
    if IsOfLoop(action) { TurnConserves(repeating, s, action); } else { CallConserves(s, action); }
  }

  lemma DiscardedStep<T>(repeating: T -> bool, s: State<T>, action: Action<T>)
    requires Enabled(s, action)
    ensures multiset(Apply(repeating, s, action).discarded)
         == multiset(s.discarded) + (if action.Drop? then multiset{action.dropped} else multiset{})
  {
    hide NextIndex, RemoveFirst, Called;
    if !IsOfLoop(action) { CallKeeps(s, action); }
  }

  /** Nothing leaves the queue but what the loop deletes, and nothing enters it but what is added. */
  lemma {:induction false} Conserved<T>(repeating: T -> bool, s: State<T>, actions: seq<Action<T>>, s': State<T>)
    requires Leads(repeating, s, actions, s') && Holds(s)
    ensures Holds(s') && InRunner(s') == InRunner(s) + AddedBy(actions)
    decreases |actions|
  {
    if actions != [] {
      hide Apply, Holds, Enabled, InRunner;
      HoldsStep(repeating, s, actions[0]);
      ConservedStep(repeating, s, actions[0]);
      Conserved(repeating, Apply(repeating, s, actions[0]), actions[1..], s');
      Regroup(InRunner(s), if actions[0].Push? then multiset{actions[0].added} else multiset{}, AddedBy(actions[1..]));
    }
  }

  lemma Regroup<T>(a: multiset<T>, b: multiset<T>, c: multiset<T>)
    ensures (a + b) + c == a + (b + c)
  {
  }

  /** The tasks deleted outside the loop are those dropped. */
  lemma {:induction false} Discarded<T>(repeating: T -> bool, s: State<T>, actions: seq<Action<T>>, s': State<T>)
    requires Leads(repeating, s, actions, s')
    ensures multiset(s'.discarded) == multiset(s.discarded) + DroppedBy(actions)
    decreases |actions|
  {
    if actions != [] {
      hide Apply, Enabled;
      var next := Apply(repeating, s, actions[0]);
      DiscardedStep(repeating, s, actions[0]);
      Discarded(repeating, next, actions[1..], s');
      Regroup(multiset(s.discarded), if actions[0].Drop? then multiset{actions[0].dropped} else multiset{}, DroppedBy(actions[1..]));
    }
  }

  // What deletion leaves behind

  /** A task marked as destroyed, at position i unless the iteration is about it, will have been deleted before
      `deadline` iterations are over. */
  predicate Doomed<T(==)>(s: State<T>, t: T, i: nat, deadline: nat) {
    && t in s.destroyed
    && match s.phase
       case Idle => InLine(s, t, i) && s.iterations + i < deadline
       case Selected(x) => s.iterations < deadline && (x == t || (InLine(s, t, i) && i > 0 && s.iterations + i < deadline))
       case Running(x) => s.iterations < deadline && (x == t || (InLine(s, t, i) && i > 0 && s.iterations + i < deadline))
       case Checked(x) => s.iterations < deadline && (x == t || (InLine(s, t, i) && i > 0 && s.iterations + i < deadline))
       case _ => s.iterations < deadline && (s.phase.task == t || (InLine(s, t, i) && s.iterations + i + 1 < deadline))
  }

  predicate InLine<T(==)>(s: State<T>, t: T, i: nat) {
    t !in s.cancelled && i < |s.queue| && s.queue[i] == t
  }

  lemma DoomedStep<T>(repeating: T -> bool, s: State<T>, action: Action<T>, t: T, i: nat, deadline: nat) returns (i': nat)
    requires Enabled(s, action) && action != Cancel(t) && Doomed(s, t, i, deadline)
    ensures var s' := Apply(repeating, s, action);
            s'.deleted == s.deleted + [t] || (s.deleted <= s'.deleted && Doomed(s', t, i', deadline))
  {
    hide RemoveFirst, Called;
    i' := i;
    if !IsOfLoop(action) {
      CallKeeps(s, action);
    } else if action.Rotate? && s.phase.task != t {
      i' := i - 1;
    } else if action.TakeOut? && s.phase.task != t {
      i' := RemoveOther(s.queue, s.phase.task, i);
    }
  }

  lemma {:induction false} DeletedGrows<T>(repeating: T -> bool, s: State<T>, actions: seq<Action<T>>, s': State<T>)
    requires Leads(repeating, s, actions, s')
    ensures s.deleted <= s'.deleted
    decreases |actions|
  {
    if actions != [] { DeletedGrows(repeating, Apply(repeating, s, actions[0]), actions[1..], s'); }
  }

  lemma {:induction false} DoomedRun<T>(repeating: T -> bool, s: State<T>, actions: seq<Action<T>>, s': State<T>,
                                        t: T, i: nat, deadline: nat)
    requires Leads(repeating, s, actions, s') && Cancel(t) !in actions && Doomed(s, t, i, deadline)
    ensures s.deleted <= s'.deleted && (t in s'.deleted[|s.deleted|..] || s'.iterations < deadline)
    decreases |actions|
  {
    if actions != [] {
      hide Apply, Enabled;
      var i' := DoomedStep(repeating, s, actions[0], t, i, deadline);
      var next := Apply(repeating, s, actions[0]);
      DeletedGrows(repeating, next, actions[1..], s');
      if next.deleted == s.deleted + [t] {
        assert s'.deleted[|s.deleted|] == t;
      } else {
        DoomedRun(repeating, next, actions[1..], s', t, i', deadline);
      }
    }
  }

  lemma NotBehind<T>(a: seq<T>, b: seq<T>, t: T)
    requires a <= b && multiset(b)[t] == multiset(a)[t]
    ensures t !in b[|a|..]
  {
    var c := b[|a|..];
    assert b == a + c;
    assert t in c ==> t in multiset(c);
  }

  /** A task at position k that is marked as destroyed, and that nobody cancels from then on, is deleted within
      the next k + 1 iterations exactly if it was not cancelled before: only then does `next` come to it. */
  lemma DeletedInTurnIff<T>(repeating: T -> bool, s: State<T>, actions: seq<Action<T>>, s': State<T>, k: nat)
    requires Leads(repeating, s, actions, s') && s.phase.Idle?
    requires k < |s.queue| && s.queue[k] in s.destroyed && Cancel(s.queue[k]) !in actions
    requires s'.iterations >= s.iterations + k + 1
    ensures s.deleted <= s'.deleted
    ensures s.queue[k] in s'.deleted[|s.deleted|..] <==> s.queue[k] !in s.cancelled
  {
    var t := s.queue[k];
    DeletedGrows(repeating, s, actions, s');
    if t !in s.cancelled {
      DoomedRun(repeating, s, actions, s', t, k, s.iterations + k + 1);
    } else {
      CancelledStays(repeating, s, actions, s', t);
      NotBehind(s.deleted, s'.deleted, t);
    }
  }

  /** A task cancelled before its turn is never deleted: `next` passes over it, so nothing looks at its
      destroyed flag again. */
  lemma {:induction false} CancelledStays<T>(repeating: T -> bool, s: State<T>, actions: seq<Action<T>>, s': State<T>, t: T)
    requires Leads(repeating, s, actions, s') && Holds(s)
    requires t in s.queue && t in s.cancelled && (s.phase.Idle? || s.phase.task != t)
    ensures t in s'.queue && multiset(s'.deleted)[t] == multiset(s.deleted)[t] && multiset(s'.ran)[t] == multiset(s.ran)[t]
    decreases |actions|
  {
    if actions != [] {
      HoldsStep(repeating, s, actions[0]);
      CancelledStep(repeating, s, actions[0], t);
      hide Apply, Holds, Enabled;
      CancelledStays(repeating, Apply(repeating, s, actions[0]), actions[1..], s', t);
    }
  }

  lemma CancelledStep<T>(repeating: T -> bool, s: State<T>, action: Action<T>, t: T)
    requires Enabled(s, action) && Holds(s) && t in s.queue && t in s.cancelled && (s.phase.Idle? || s.phase.task != t)
    ensures var s' := Apply(repeating, s, action);
            && t in s'.queue && t in s'.cancelled && (s'.phase.Idle? || s'.phase.task != t)
            && multiset(s'.deleted)[t] == multiset(s.deleted)[t] && multiset(s'.ran)[t] == multiset(s.ran)[t]
  {
    hide NextIndex, RemoveFirst, Holds;
    CancelledQueued(repeating, s, action, t);
    if action.Begin? && s.phase.task !in s.cancelled {
      OneMore(s.ran, s.phase.task, t);
    } else if action.Delete? {
      OneMore(s.deleted, s.phase.task, t);
    }
  }

  lemma OneMore<T>(a: seq<T>, x: T, t: T)
    requires x != t
    ensures multiset(a + [x])[t] == multiset(a)[t]
  {
  }

  lemma CancelledQueued<T>(repeating: T -> bool, s: State<T>, action: Action<T>, t: T)
    requires Enabled(s, action) && Holds(s) && t in s.queue && (s.phase.Idle? || s.phase.task != t)
    ensures t in Apply(repeating, s, action).queue
  {
    if action.Rotate? {
      RotationKeeps(s.queue);
      StillIn(s.queue, s.queue[1..] + [s.queue[0]], t);
    } else if action.TakeOut? {
      RemoveFirstTakesOne(s.queue, s.phase.task);
      StillIn(s.queue, RemoveFirst(s.queue, s.phase.task), t);
    }
  }

  lemma StillIn<T>(queue: seq<T>, queue': seq<T>, t: T)
    requires t in queue && multiset(queue')[t] == multiset(queue)[t]
    ensures t in queue'
  {
    assert t in multiset(queue');
  }

  // Every task in one place

  /** Where tasks are, or are no more. */
  function Everywhere<T>(s: State<T>): multiset<T> {
    InRunner(s) + multiset(s.discarded)
  }

  /** No task is in two places: twice in the queue, twice deleted, or in the queue though deleted. */
  ghost predicate Tidy<T>(s: State<T>) {
    forall t :: t in Everywhere(s) ==> Everywhere(s)[t] == 1
  }

  /** Over any run, no task ends up in two places exactly if none was pushed or dropped that was there already, or
      a second time. */
  lemma TidyIff<T>(repeating: T -> bool, s: State<T>, actions: seq<Action<T>>, s': State<T>)
    requires Leads(repeating, s, actions, s') && Holds(s)
    ensures var sum := Everywhere(s) + AddedBy(actions) + DroppedBy(actions);
            Everywhere(s') == sum && (Tidy(s') <==> forall t :: t in sum ==> sum[t] == 1)
  {
    Conserved(repeating, s, actions, s');
    Discarded(repeating, s, actions, s');
    hide Leads, InRunner, AddedBy, DroppedBy;
  }

  /** So it is over any run in which every task is new to the runner when it is added or dropped, and is so once. */
  lemma TidyStays<T>(repeating: T -> bool, s: State<T>, actions: seq<Action<T>>, s': State<T>)
    requires Leads(repeating, s, actions, s') && Holds(s) && Tidy(s)
    requires var come := AddedBy(actions) + DroppedBy(actions); forall t :: t in come ==> t !in Everywhere(s) && come[t] == 1
    ensures Tidy(s')
  {
    TidyIff(repeating, s, actions, s');
    hide Leads, InRunner, AddedBy, DroppedBy, Everywhere;
    var come := AddedBy(actions) + DroppedBy(actions);
    forall t | t in Everywhere(s') ensures Everywhere(s')[t] == 1 {
      assert Everywhere(s')[t] == Everywhere(s)[t] + come[t];
    }
  }

  /** Then a deleted task is not in the queue, and has been deleted once. */
  lemma TidyMeans<T>(s: State<T>, t: T)
    requires Tidy(s) && (t in s.deleted || t in s.discarded)
    ensures t !in s.queue && multiset(s.deleted)[t] + multiset(s.discarded)[t] == 1
  {
    assert t in multiset(s.deleted) || t in multiset(s.discarded);
    assert t in Everywhere(s);
    assert t in s.queue ==> t in multiset(s.queue);
  }

  lemma {:induction false} SameIteration<T>(repeating: T -> bool, s: State<T>, actions: seq<Action<T>>, s': State<T>)
    requires Leads(repeating, s, actions, s')
    ensures s.iterations <= s'.iterations
    ensures s.iterations == s'.iterations ==> s'.deleted == s.deleted
    ensures s.iterations == s'.iterations && !s.phase.Idle? ==> !s'.phase.Idle? && s'.phase.task == s.phase.task
    decreases |actions|
  {
    if actions != [] {
      IterationStep(repeating, s, actions[0]);
      hide Apply, Enabled;
      SameIteration(repeating, Apply(repeating, s, actions[0]), actions[1..], s');
    }
  }

  lemma IterationStep<T>(repeating: T -> bool, s: State<T>, action: Action<T>)
    requires Enabled(s, action)
    ensures var s' := Apply(repeating, s, action);
            && s.iterations <= s'.iterations
            && (s.iterations == s'.iterations ==> s'.deleted == s.deleted)
            && (s.iterations == s'.iterations && !s.phase.Idle? ==> !s'.phase.Idle? && s'.phase.task == s.phase.task)
  {
  }

  /** From the look at its flag to its deletion, whatever goes on in between: a task is still in the queue when the
      loop deletes it exactly if it was there more than once, or is added meanwhile. */
  lemma DeletedYetQueuedIff<T>(repeating: T -> bool, s: State<T>, actions: seq<Action<T>>, s': State<T>)
    requires Leads(repeating, s, actions, s') && Holds(s) && s.phase.Condemned?
    requires s'.phase.Removed? && s'.iterations == s.iterations
    ensures var t, after := s.phase.task, Apply(repeating, s', Delete);
            && after.deleted == s.deleted + [t]
            && (t in after.queue <==> multiset(s.queue)[t] + AddedBy(actions)[t] >= 2)
  {
    Conserved(repeating, s, actions, s');
    SameIteration(repeating, s, actions, s');
    hide Leads, AddedBy, Holds, NextIndex, RemoveFirst;
    var t := s.phase.task;
    assert InRunner(s')[t] == multiset(s'.queue)[t] + 1 + multiset(s.deleted)[t];
    assert t in s'.queue <==> t in multiset(s'.queue);
  }

  // An iteration that nothing interrupts

  function Iteration<T(==)>(repeating: T -> bool, s: State<T>): State<T> {
    var j := NextIndex(s.queue, s.cancelled);
    var ended := s.(iterations := s.iterations + 1);
    if j == |s.queue| then ended
    else
      var t := s.queue[j];
      var queue := s.queue[1..] + [s.queue[0]];
      var turned := ended.(ran := s.ran + [t], queue := queue, cancelled := if repeating(t) then s.cancelled else s.cancelled + {t});
      if t in s.destroyed then turned.(queue := RemoveFirst(queue, t), deleted := s.deleted + [t]) else turned
  }

  lemma LeadsFirst<T>(repeating: T -> bool, s: State<T>, action: Action<T>, rest: seq<Action<T>>, s': State<T>)
    requires Enabled(s, action) && Leads(repeating, Apply(repeating, s, action), rest, s')
    ensures Leads(repeating, s, [action] + rest, s')
  {
    hide Apply, Enabled;
    assert ([action] + rest)[1..] == rest;
  }

  lemma {:induction false} LeadsOn<T>(repeating: T -> bool, s: State<T>, actions: seq<Action<T>>, s': State<T>,
                                      more: seq<Action<T>>, s'': State<T>)
    requires Leads(repeating, s, actions, s') && Leads(repeating, s', more, s'')
    ensures Leads(repeating, s, actions + more, s'')
    decreases |actions|
  {
    hide Apply, Enabled;
    if actions == [] {
      assert actions + more == more;
    } else {
      var first, rest := actions[0], actions[1..];
      LeadsOn(repeating, Apply(repeating, s, first), rest, s', more, s'');
      hide Leads;
      LeadsFirst(repeating, s, first, rest + more, s'');
      assert actions + more == [first] + (rest + more);
    }
  }

  /** One step more. */
  lemma Then<T>(repeating: T -> bool, s: State<T>, actions: seq<Action<T>>, s': State<T>, action: Action<T>)
    returns (more: seq<Action<T>>, next: State<T>)
    requires Leads(repeating, s, actions, s') && Enabled(s', action)
    ensures more == actions + [action] && next == Apply(repeating, s', action) && Leads(repeating, s, more, next)
  {
    more, next := actions + [action], Apply(repeating, s', action);
    Nothing(repeating, next);
    LeadsOn(repeating, s, actions, s', [action], next);
  }

  /** The steps of an iteration that runs task t, up to the look at its flag. */
  lemma RotateRun<T>(repeating: T -> bool, s: State<T>, t: T) returns (s': State<T>)
    requires s.phase.Idle?
    requires NextIndex(s.queue, s.cancelled) < |s.queue| && t == s.queue[NextIndex(s.queue, s.cancelled)]
    ensures Leads(repeating, s, [Select, Begin, Finish, Rotate], s')
    ensures s' == s.(phase := Rotated(t), ran := s.ran + [t], queue := s.queue[1..] + [s.queue[0]],
                     cancelled := if repeating(t) then s.cancelled else s.cancelled + {t})
  {
    Nothing(repeating, s);
    hide NextIndex, Leads;
    var actions;
    actions, s' := Then(repeating, s, [], s, Select);
    actions, s' := Then(repeating, s, actions, s', Begin);
    actions, s' := Then(repeating, s, actions, s', Finish);
    actions, s' := Then(repeating, s, actions, s', Rotate);
    assert actions == [Action<T>.Select, Begin, Finish, Rotate];
  }

  lemma Nothing<T>(repeating: T -> bool, s: State<T>)
    ensures Leads(repeating, s, [], s)
  {
  }

  /** What an undisturbed iteration does. */
  function IterationActions<T>(s: State<T>): seq<Action<T>> {
    var j := NextIndex(s.queue, s.cancelled);
    if j == |s.queue| then [Select]
    else if s.queue[j] in s.destroyed then [Select, Begin, Finish, Rotate] + [Inspect, TakeOut, Delete]
    else [Select, Begin, Finish, Rotate] + [Inspect]
  }

  /** It takes the steps of the machine in their order. */
  lemma IterationLeads<T>(repeating: T -> bool, s: State<T>)
    requires s.phase.Idle?
    ensures Leads(repeating, s, IterationActions(s), Iteration(repeating, s))
  {
    var j := NextIndex(s.queue, s.cancelled);
    if j == |s.queue| {
      Nothing(repeating, s);
      var actions, s' := Then(repeating, s, [], s, Select);
      assert actions == [Select];
    } else {
      TurnLeads(repeating, s, s.queue[j]);
    }
  }

  lemma TurnLeads<T>(repeating: T -> bool, s: State<T>, t: T)
    requires s.phase.Idle?
    requires NextIndex(s.queue, s.cancelled) < |s.queue| && t == s.queue[NextIndex(s.queue, s.cancelled)]
    ensures Leads(repeating, s, IterationActions(s), Iteration(repeating, s))
  {
    var before := [Action<T>.Select, Begin, Finish, Rotate];
    var s' := RotateRun(repeating, s, t);
    hide Leads, NextIndex, RemoveFirst;
    var actions;
    actions, s' := Then(repeating, s, before, s', Inspect);
    if t in s.destroyed {
      actions, s' := Then(repeating, s, actions, s', TakeOut);
      actions, s' := Then(repeating, s, actions, s', Delete);
      assert actions == before + [Inspect, TakeOut, Delete];
    }
    assert s' == Iteration(repeating, s) && actions == IterationActions(s);
  }

  // Runs that delete what is still there, from an empty runner

  function Start<T>(): State<T> {
    State([], {}, {}, Idle, [], [], [], 0, multiset{}, multiset{}, multiset{})
  }

  lemma BothLooked<T>(repeating: T -> bool, t: T) returns (actions: seq<Action<T>>, s: State<T>)
    ensures Leads(repeating, Start(), actions, s) && s == Start<T>().(adding := s.adding) && s.adding[t] == 2
  {
    s := Start();
    Nothing(repeating, s);
    hide Leads;
    actions, s := Then(repeating, Start(), [], s, LookUp(t));
    actions, s := Then(repeating, Start(), actions, s, LookUp(t));
  }

  lemma QueuedTwice<T>(repeating: T -> bool, t: T) returns (actions: seq<Action<T>>, s: State<T>)
    ensures Leads(repeating, Start(), actions, s) && s.phase.Idle?
    ensures s.queue == [t, t] && t in s.destroyed && s.cancelled == {} && s.deleted == []
  {
    actions, s := BothLooked(repeating, t);
    hide Leads;
    actions, s := Then(repeating, Start(), actions, s, Push(t));
    actions, s := Then(repeating, Start(), actions, s, Push(t));
    actions, s := Then(repeating, Start(), actions, s, LookAt(t));
    actions, s := Then(repeating, Start(), actions, s, Mark(t));
  }

  /** Two calls of `add` that overlap: both look before either pushes. After a `destroy`, the next iteration deletes
      the task and leaves it in the queue, where `next` will look at it. */
  lemma DoubleAddDangles<T>(repeating: T -> bool, t: T) returns (actions: seq<Action<T>>, s: State<T>)
    ensures Leads(repeating, Start(), actions, s) && s.phase.Idle? && s.deleted == [t] && s.queue == [t]
  {
    actions, s := QueuedTwice(repeating, t);
    IterationLeads(repeating, s);
    hide Leads;
    var s' := Iteration(repeating, s);
    LeadsOn(repeating, Start(), actions, s, IterationActions(s), s');
    actions, s := actions + IterationActions(s), s';
  }

  /** A `destroy` that finds the task between the look and the push of an `add`: the task is added once, and queued
      though deleted. */
  lemma DroppedThenQueued<T>(repeating: T -> bool, t: T) returns (actions: seq<Action<T>>, s: State<T>)
    ensures Leads(repeating, Start(), actions, s) && AddedBy(actions) == multiset{t}
    ensures s.phase.Idle? && s.discarded == [t] && s.queue == [t]
  {
    s := Start();
    Nothing(repeating, s);
    hide Leads;
    actions, s := Then(repeating, Start(), [], s, LookUp(t));
    actions, s := Then(repeating, Start(), actions, s, LookAt(t));
    actions, s := Then(repeating, Start(), actions, s, Drop(t));
    actions, s := Then(repeating, Start(), actions, s, Push(t));
    assert s.queue == [t] && s.deleted == [];
    Conserved(repeating, Start(), actions, s);
    assert InRunner(s) == multiset{t};
  }

  /** A task that is queued and marked, once the loop has turned to it. */
  lemma TurnedTo<T>(repeating: T -> bool, t: T) returns (actions: seq<Action<T>>, s: State<T>)
    ensures Leads(repeating, Start(), actions, s) && s.phase == Rotated(t) && t in s.destroyed
    ensures s.queue == [t] && s.deleted == [] && s.discarded == []
  {
    s := Start();
    Nothing(repeating, s);
    hide Leads;
    actions, s := Then(repeating, Start(), [], s, LookUp(t));
    actions, s := Then(repeating, Start(), actions, s, Push(t));
    actions, s := Then(repeating, Start(), actions, s, LookAt(t));
    actions, s := Then(repeating, Start(), actions, s, Mark(t));
    assert s.queue == [t] && t in s.destroyed && s.cancelled == {};
    var s' := RotateRun(repeating, s, t);
    LeadsOn(repeating, Start(), actions, s, [Select, Begin, Finish, Rotate], s');
    actions, s := actions + [Select, Begin, Finish, Rotate], s';
  }

  lemma TakenOut<T>(repeating: T -> bool, t: T) returns (actions: seq<Action<T>>, s: State<T>)
    ensures Leads(repeating, Start(), actions, s) && s.phase == Removed(t)
    ensures s.queue == [] && s.deleted == [] && s.discarded == []
  {
    actions, s := TurnedTo(repeating, t);
    hide Leads;
    actions, s := Then(repeating, Start(), actions, s, Inspect);
    actions, s := Then(repeating, Start(), actions, s, TakeOut);
  }

  /** A task deleted by the loop and dropped by a call was added once. */
  lemma AddedOnce<T>(repeating: T -> bool, actions: seq<Action<T>>, s: State<T>, t: T)
    requires Leads(repeating, Start(), actions, s) && s.phase.Idle? && s.queue == [] && s.deleted == [t]
    ensures AddedBy(actions) == multiset{t}
  {
    Conserved(repeating, Start(), actions, s);
    hide Leads, AddedBy;
    assert InRunner(s) == multiset{t};
  }

  /** A second `destroy` once the loop has deleted the task: it is added once, and deleted twice. */
  lemma DestroyedAgain<T>(repeating: T -> bool, t: T) returns (actions: seq<Action<T>>, s: State<T>)
    ensures Leads(repeating, Start(), actions, s) && AddedBy(actions) == multiset{t}
    ensures s.phase.Idle? && s.deleted == [t] && s.discarded == [t]
  {
    actions, s := TakenOut(repeating, t);
    hide Leads, AddedBy;
    actions, s := Then(repeating, Start(), actions, s, Delete);
    actions, s := Then(repeating, Start(), actions, s, LookAt(t));
    actions, s := Then(repeating, Start(), actions, s, Drop(t));
    AddedOnce(repeating, actions, s, t);
  }

  /** The same if it looks after the loop has taken the task out, and before the loop deletes it. */
  lemma DeletedTwice<T>(repeating: T -> bool, t: T) returns (actions: seq<Action<T>>, s: State<T>)
    ensures Leads(repeating, Start(), actions, s) && AddedBy(actions) == multiset{t}
    ensures s.phase.Idle? && s.deleted == [t] && s.discarded == [t]
  {
    actions, s := TakenOut(repeating, t);
    hide Leads, AddedBy;
    actions, s := Then(repeating, Start(), actions, s, LookAt(t));
    actions, s := Then(repeating, Start(), actions, s, Drop(t));
    actions, s := Then(repeating, Start(), actions, s, Delete);
    AddedOnce(repeating, actions, s, t);
  }

  // The class

  /** Calls that nothing comes between. */
  lemma AddAtOnce<T>(s: State<T>, t: T)
    requires t !in s.queue
    ensures Called(Called(s, LookUp(t)), Push(t)) == s.(queue := s.queue + [t])
  {
    assert s.adding + multiset{t} - multiset{t} == s.adding;
  }

  lemma DestroyAtOnce<T>(s: State<T>, t: T)
    ensures t in s.queue ==> Called(Called(s, LookAt(t)), Mark(t)) == s.(destroyed := s.destroyed + {t})
    ensures t !in s.queue ==> Called(Called(s, LookAt(t)), Drop(t)) == s.(discarded := s.discarded + [t])
  {
    assert s.marking + multiset{t} - multiset{t} == s.marking;
    assert s.dropping + multiset{t} - multiset{t} == s.dropping;
  }

  class Task {
    const repeating: bool
    var cancelled: bool
    var destroyed: bool

    constructor (repeat: bool)
      ensures repeating == repeat && !cancelled && !destroyed
    {
      repeating := repeat;
      cancelled := false;
      destroyed := false;
    }
  }

  /** What is left of a task's `run` here is that it was called; `ran` and `deleted` record the calls. */
  class TaskRunner {
    var tasks: seq<Task>
    ghost var known: set<Task>
    ghost var ran: seq<Task>
    ghost var deleted: seq<Task>
    ghost var discarded: seq<Task>
    ghost var iterations: nat

    constructor ()
      ensures Valid() && View() == Start()
    {
      tasks, known, ran, deleted, discarded, iterations := [], {}, [], [], [], 0;
    }

    ghost predicate Valid()
      reads this
    {
      forall t :: t in tasks ==> t in known
    }

    /** The runner between two iterations, as a state of the machine. */
    ghost function View(): State<Task>
      reads this, known
    {
      State(tasks, (set t | t in known && t.cancelled), (set t | t in known && t.destroyed), Idle, ran, deleted, discarded,
            iterations, multiset{}, multiset{}, multiset{})
    }

    /** The same, with the flags of a task that the runner may not have met before. */
    ghost function Meeting(task: Task): State<Task>
      reads this, known, task
    {
      var s := View();
      s.(cancelled := s.cancelled + (if task.cancelled then {task} else {}),
         destroyed := s.destroyed + (if task.destroyed then {task} else {}))
    }

    method Exists(task: Task) returns (found: bool)
      ensures found == (task in tasks)
    {
      found := false;
      for i := 0 to |tasks|
        invariant found == (task in tasks[..i])
      {
        if tasks[i] == task { return true; }
      }
    }

    method AddTask(task: Task) returns (added: bool)
      requires Valid()
      modifies this
      ensures Valid() && added == (task !in old(tasks))
      ensures View() == if added then Called(Called(old(Meeting(task)), LookUp(task)), Push(task))
                        else old(View())
      ensures tasks == old(tasks) + if added then [task] else []
    {
      var found := Exists(task);
      added := !found;
      if added {
        AddAtOnce(Meeting(task), task);
        hide Called;
        tasks, known := tasks + [task], known + {task};
      }
    }

    method CancelTask(task: Task) returns (done: bool)
      requires Valid()
      modifies task, `known
      ensures Valid() && done == !old(task.cancelled)
      ensures View() == Called(old(Meeting(task)), Cancel(task))
      ensures task.cancelled && task.destroyed == old(task.destroyed)
    {
      known := known + {task};
      done := !task.cancelled;
      if done {
        task.cancelled := true;
      }
    }

    /** A task that is not queued is deleted on the spot. */
    method DestroyTask(task: Task)
      requires Valid()
      modifies task, `known, `discarded
      ensures Valid()
      ensures var looked := Called(old(Meeting(task)), LookAt(task));
              View() == Called(looked, if task in old(tasks) then Mark(task) else Drop(task))
      ensures task.destroyed == (old(task.destroyed) || task in tasks) && task.cancelled == old(task.cancelled)
      ensures discarded == old(discarded) + if task in tasks then [] else [task]
    {
      DestroyAtOnce(Meeting(task), task);
      hide Called, Enabled;
      known := known + {task};
      var found := Exists(task);
      if found {
        task.destroyed := true;
      } else {
        discarded := discarded + [task];
      }
    }

    /** The task is queued, and those before it are all cancelled. */
    ghost predicate IsFirstLive(task: Task)
      reads this, tasks
    {
      exists j: nat :: j < |tasks| && tasks[j] == task && !task.cancelled && forall i :: 0 <= i < j ==> tasks[i].cancelled
    }

    method Next() returns (task: Task?)
      requires Valid()
      ensures var j := NextIndex(tasks, View().cancelled); task == if j < |tasks| then tasks[j] else null
      ensures task == null ==> forall t :: t in tasks ==> t.cancelled
      ensures task != null ==> IsFirstLive(task)
    {
      task := null;
      var i := 0;
      while i < |tasks|
        invariant i <= |tasks| && NextIndex(tasks, View().cancelled) == i + NextIndex(tasks[i..], View().cancelled)
      {
        assert tasks[i..][0] == tasks[i] && tasks[i..][1..] == tasks[i + 1..];
        if !tasks[i].cancelled { return tasks[i]; }
        i := i + 1;
      }
    }

    method Remove(task: Task) returns (removed: bool)
      requires Valid()
      modifies `tasks
      ensures Valid() && removed == (task in old(tasks)) && tasks == RemoveFirst(old(tasks), task)
      ensures removed ==> IsWithoutFirst(tasks, old(tasks), task)
      ensures !removed ==> tasks == old(tasks)
    {
      var i := 0;
      while i < |tasks|
        invariant i <= |tasks| && tasks == old(tasks) && task !in tasks[..i]
        invariant RemoveFirst(tasks, task) == tasks[..i] + RemoveFirst(tasks[i..], task)
      {
        assert tasks[i..][0] == tasks[i] && tasks[i..][1..] == tasks[i + 1..];
        if tasks[i] == task {
          tasks := tasks[..i] + tasks[i + 1..];
          assert tasks == old(tasks)[..i] + old(tasks)[i + 1..];
          return true;
        }
        i := i + 1;
      }
      removed := false;
    }

    /** One iteration. The first task that is not cancelled is run, and cancelled unless it repeats; then the task in
        front goes to the end, and the one that was run is deleted if it has been marked. */
    method Run()
      requires Valid()
      modifies this, known
      ensures Valid() && View() == Iteration(IsRepeating, old(View()))
      ensures iterations == old(iterations) + 1
      ensures (forall t :: t in old(tasks) ==> old(t.cancelled)) ==>
        tasks == old(tasks) && ran == old(ran) && deleted == old(deleted)
      ensures (exists t :: t in old(tasks) && !old(t.cancelled)) ==>
        exists task: Task ::
          && task in old(tasks) && old(IsFirstLive(task)) && ran == old(ran) + [task] && task.cancelled == !task.repeating
          && var turned := old(tasks)[1..] + [old(tasks)[0]];
             if old(task.destroyed) then deleted == old(deleted) + [task] && IsWithoutFirst(tasks, turned, task)
             else deleted == old(deleted) && tasks == turned
    {
      hide NextIndex, RemoveFirst;
      var task := Next();
      if task != null {
        Execute(task);
        Advance();
        if task.destroyed {
          var removed := Remove(task);
          deleted := deleted + [task];
        }
      }
      iterations := iterations + 1;
    }

    /** Calls the task once more, unless it has been cancelled. */
    method Execute(task: Task)
      requires Valid() && task in known
      modifies `ran, task`cancelled
      ensures Valid() && ran == old(ran) + (if old(task.cancelled) then [] else [task])
      ensures task.cancelled == (old(task.cancelled) || !task.repeating)
    {
      if !task.cancelled {
        ran := ran + [task];
        if !task.repeating {
          task.cancelled := true;
        }
      }
    }

    /** The first task becomes the last. */
    method Advance()
      requires Valid() && tasks != []
      modifies `tasks
      ensures Valid() && tasks == old(tasks)[1..] + [old(tasks)[0]]
    {
      var t := tasks[0];
      tasks := tasks[1..];
      tasks := tasks + [t];
    }
  }

  /** The second queue without the first occurrence of the task. */
  ghost predicate IsWithoutFirst(after: seq<Task>, before: seq<Task>, task: Task) {
    exists k: nat :: k < |before| && before[k] == task && task !in before[..k] && after == before[..k] + before[k + 1..]
  }

  function IsRepeating(task: Task): bool {
    task.repeating
  }
}
