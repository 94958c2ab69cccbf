/** The delegate chain of src/base/src/packetstream.cpp: the signals of its adapters, the links the stream puts
    on them, and the ways a packet can take along them.
 */
module Chains {

  // Signals

  /** What a signal can call: the `process` of a processor, the stream's own `emit` and `process`, or a
      listener that is none of the stream's business. */
  datatype Slot = ToProcessor(processor: Adapter) | ToEmit | ToProcess | Listener(id: nat)

  class Signal {
    var slots: seq<Slot>

    /** No slot is attached twice. */
    ghost predicate Valid()
      reads this
    {
      forall i, j :: 0 <= i < j < |slots| ==> slots[i] != slots[j]
    }

    ghost function Contents(): set<Slot>
      reads this
    {
      set s | s in slots
    }

    method Detach(slot: Slot) returns (found: bool)
      requires Valid()
      modifies this
      ensures Valid() && Contents() == old(Contents()) - {slot} && found == (slot in old(slots))
    {
      var i := 0;
      while i < |slots|
        invariant i <= |slots| && slots == old(slots) && slot !in slots[..i]
      {
        if slots[i] == slot {
          slots := slots[..i] + slots[i + 1..];
          assert slot in old(slots);
          forall s ensures s in Contents() <==> s in old(Contents()) - {slot} {
            if s in old(slots) && s != slot {
              var k :| 0 <= k < |old(slots)| && old(slots)[k] == s;
              assert slots[if k < i then k else k - 1] == s;
            }
          }
          return true;
        }
        i := i + 1;
      }
      found := false;
    }

    /** A duplicate is detached first. Where the slot ends up among others of its priority is not said. */
    method Attach(slot: Slot)
      requires Valid()
      modifies this
      ensures Valid() && Contents() == old(Contents()) + {slot}
    {
      var found := Detach(slot);
      assert slot !in Contents();
      ghost var before := slots;
      slots := slots + [slot];
      assert Contents() == (set s | s in before) + {slot};
    }
  }

  class Adapter {
    const emitter: Signal

    constructor (emitter: Signal)
      ensures this.emitter == emitter
    {
      this.emitter := emitter;
    }
  }

  // The links of a stream

  /** The slots that the first n processors contribute to a signal: each emits into the next. */
  function ChainLinks(procs: seq<Adapter>, n: nat, sig: Signal): set<Slot>
    requires n <= |procs|
  {
    if n <= 1 then {}
    else ChainLinks(procs, n - 1, sig) + if procs[n - 2].emitter == sig then {ToProcessor(procs[n - 1])} else {}
  }

  function LastLink(procs: seq<Adapter>, sig: Signal): set<Slot> {
    if procs != [] && procs[|procs| - 1].emitter == sig then {ToEmit} else {}
  }

  function SourceLinks(sources: seq<Adapter>, n: nat, sig: Signal): set<Slot>
    requires n <= |sources|
  {
    if exists i :: 0 <= i < n && sources[i].emitter == sig then {ToProcess} else {}
  }

  function Links(procs: seq<Adapter>, sources: seq<Adapter>, sig: Signal): set<Slot> {
    ChainLinks(procs, |procs|, sig) + LastLink(procs, sig) + SourceLinks(sources, |sources|, sig)
  }

  predicate DistinctEmitters(procs: seq<Adapter>, sources: seq<Adapter>) {
    && (forall i, j :: 0 <= i < j < |procs| ==> procs[i].emitter != procs[j].emitter)
    && (forall i, j :: 0 <= i < |procs| && 0 <= j < |sources| ==> procs[i].emitter != sources[j].emitter)
  }

  lemma {:induction false} ChainLinksAt(procs: seq<Adapter>, sources: seq<Adapter>, n: nat, i: nat)
    requires n <= |procs| && i < |procs| && DistinctEmitters(procs, sources)
    ensures ChainLinks(procs, n, procs[i].emitter) == if i + 1 < n then {ToProcessor(procs[i + 1])} else {}
  {
    if n > 1 { ChainLinksAt(procs, sources, n - 1, i); }
  }

  /** Each processor has exactly one link, to the next or, for the last, to `emit`. */
  lemma LinksAt(procs: seq<Adapter>, sources: seq<Adapter>, i: nat)
    requires i < |procs| && DistinctEmitters(procs, sources)
    ensures Links(procs, sources, procs[i].emitter) == {if i + 1 < |procs| then ToProcessor(procs[i + 1]) else ToEmit}
  {
    ChainLinksAt(procs, sources, |procs|, i);
  }

  lemma {:induction false} NoChainLinks(procs: seq<Adapter>, n: nat, sig: Signal)
    requires n <= |procs| && forall i :: 0 <= i < |procs| ==> procs[i].emitter != sig
    ensures ChainLinks(procs, n, sig) == {}
  {
    if n > 1 { NoChainLinks(procs, n - 1, sig); }
  }

  /** And each source has one, to the stream's `process`. */
  lemma SourceLinksAt(procs: seq<Adapter>, sources: seq<Adapter>, j: nat)
    requires j < |sources| && DistinctEmitters(procs, sources)
    ensures Links(procs, sources, sources[j].emitter) == {ToProcess}
  {
    NoChainLinks(procs, |procs|, sources[j].emitter);
  }

  // The ways of a packet

  /** The slots of the signals, at some moment. */
  type Wiring = map<Signal, set<Slot>>

  predicate Fires(w: Wiring, sig: Signal, to: Slot) {
    sig in w && to in w[sig] && !to.Listener?
  }

  /** A packet that has come through one slot goes on through another. The stream's `process` hands it to the
      first processor, or emits it if there is none; `emit` ends the way. */
  predicate GoesOn(w: Wiring, procs: seq<Adapter>, from: Slot, to: Slot) {
    match from
    case ToProcessor(p) => Fires(w, p.emitter, to)
    case ToProcess => procs != [] && Fires(w, procs[0].emitter, to)
    case _ => false
  }

  predicate IsWay(w: Wiring, procs: seq<Adapter>, from: Slot, way: seq<Slot>)
    decreases |way|
  {
    way == [] || (GoesOn(w, procs, from, way[0]) && IsWay(w, procs, way[0], way[1..]))
  }

  /** A packet is written to the stream, or a source emits it. */
  predicate IsTaken(w: Wiring, procs: seq<Adapter>, sources: seq<Adapter>, way: seq<Slot>) {
    && way != []
    && (way[0] == ToProcess || exists j :: 0 <= j < |sources| && Fires(w, sources[j].emitter, way[0]))
    && IsWay(w, procs, way[0], way[1..])
  }

  /** From processor to processor, and out. */
  function Onward(procs: seq<Adapter>): (way: seq<Slot>)
    ensures |way| == |procs|
  {
    seq(|procs|, i requires 0 <= i < |procs| => if i + 1 < |procs| then ToProcessor(procs[i + 1]) else ToEmit)
  }

  function WholeChain(procs: seq<Adapter>): seq<Slot> {
    [ToProcess] + Onward(procs)
  }

  function Processors(procs: seq<Adapter>, way: seq<Slot>): seq<Adapter>
    decreases |way|
  {
    if way == [] then []
    else
      (match way[0]
       case ToProcessor(p) => [p]
       case ToProcess => if procs == [] then [] else [procs[0]]
       case _ => []) + Processors(procs, way[1..])
  }

  /** The whole chain enters every processor once, in order. */
  lemma ChainEntersAll(procs: seq<Adapter>)
    ensures Processors(procs, WholeChain(procs)) == procs
  {
    var way := WholeChain(procs);
    assert way[0] == ToProcess && way[1..] == Onward(procs);
    if procs == [] {
      assert way == [ToProcess];
    } else {
      OnwardEnters(procs, 0);
      assert Onward(procs)[0..] == Onward(procs);
      assert [procs[0]] + procs[1..] == procs;
    }
  }

  lemma {:induction false} OnwardEnters(procs: seq<Adapter>, i: nat)
    requires i < |procs|
    ensures Processors(procs, Onward(procs)[i..]) == procs[i + 1..]
    decreases |procs| - i
  {
    var way := Onward(procs)[i..];
    assert way[0] == Onward(procs)[i] && way[1..] == Onward(procs)[i + 1..];
    if i + 1 < |procs| {
      OnwardEnters(procs, i + 1);
      assert [procs[i + 1]] + procs[i + 2..] == procs[i + 1..];
    }
  }

  function EmittersOf(procs: seq<Adapter>, sources: seq<Adapter>): set<Signal> {
    (set p | p in procs :: p.emitter) + (set a | a in sources :: a.emitter)
  }

  /** Nothing but listeners and the stream's own links. */
  predicate OnlyLinks(w: Wiring, procs: seq<Adapter>, sources: seq<Adapter>) {
    forall sig, s :: sig in w && s in w[sig] && !s.Listener? ==> s in Links(procs, sources, sig)
  }

  predicate OnlyListeners(w: Wiring) {
    forall sig, s :: sig in w && s in w[sig] ==> s.Listener?
  }

  lemma {:induction false} ChainIsNoListener(procs: seq<Adapter>, n: nat, sig: Signal)
    requires n <= |procs|
    ensures forall s :: s in ChainLinks(procs, n, sig) ==> !s.Listener?
  {
    if n > 1 { ChainIsNoListener(procs, n - 1, sig); }
  }

  lemma ListenersStayOff(w: Wiring, procs: seq<Adapter>, sources: seq<Adapter>, sig: Signal)
    requires OnlyListeners(w) && sig in w
    ensures w[sig] !! Links(procs, sources, sig)
  {
    ChainIsNoListener(procs, |procs|, sig);
  }

  /** What `setup` makes of a wiring. */
  function SetUp(w: Wiring, procs: seq<Adapter>, sources: seq<Adapter>): Wiring {
    map sig | sig in w :: w[sig] + Links(procs, sources, sig)
  }

  /** The slot by which processor i is entered. */
  function Into(procs: seq<Adapter>, i: nat): Slot
    requires i < |procs|
  {
    if i == 0 then ToProcess else ToProcessor(procs[i])
  }

  lemma ChainFires(w: Wiring, procs: seq<Adapter>, sources: seq<Adapter>, i: nat, to: Slot)
    requires DistinctEmitters(procs, sources) && EmittersOf(procs, sources) <= w.Keys && i < |procs|
    ensures var after := SetUp(w, procs, sources);
            && GoesOn(after, procs, Into(procs, i), Onward(procs)[i])
            && (GoesOn(after, procs, Into(procs, i), to) && to != Onward(procs)[i] ==> Fires(w, procs[i].emitter, to))
            && (Fires(w, procs[i].emitter, to) ==> GoesOn(after, procs, Into(procs, i), to))
            && Links(procs, sources, procs[i].emitter) == {Onward(procs)[i]}
  {
    LinksAt(procs, sources, i);
    hide Links;
    assert procs[i] in procs;
    assert procs[i].emitter in EmittersOf(procs, sources);
  }

  lemma SourceFires(w: Wiring, procs: seq<Adapter>, sources: seq<Adapter>, j: nat, to: Slot)
    requires DistinctEmitters(procs, sources) && EmittersOf(procs, sources) <= w.Keys && j < |sources|
    ensures var after := SetUp(w, procs, sources);
            && Fires(after, sources[j].emitter, ToProcess)
            && (Fires(after, sources[j].emitter, to) && to != ToProcess ==> Fires(w, sources[j].emitter, to))
            && (Fires(w, sources[j].emitter, to) ==> Fires(after, sources[j].emitter, to))
            && Links(procs, sources, sources[j].emitter) == {ToProcess}
  {
    SourceLinksAt(procs, sources, j);
    hide Links;
    assert sources[j] in sources;
    assert sources[j].emitter in EmittersOf(procs, sources);
  }

  /** From processor i the rest of the chain can be taken up to any point, and then whatever else is there. */
  lemma {:induction false} ChainIsWay(w: Wiring, procs: seq<Adapter>, sources: seq<Adapter>, i: nat, n: nat, tail: seq<Slot>)
    requires DistinctEmitters(procs, sources) && EmittersOf(procs, sources) <= w.Keys && i <= n <= |procs| && i < |procs|
    requires if n < |procs| then IsWay(SetUp(w, procs, sources), procs, Into(procs, n), tail) else tail == []
    ensures IsWay(SetUp(w, procs, sources), procs, Into(procs, i), Onward(procs)[i..n] + tail)
    decreases n - i
  {
    hide DistinctEmitters, Links, SetUp;
    var way := Onward(procs)[i..n] + tail;
    if i == n {
      assert way == tail;
    } else {
      ChainFires(w, procs, sources, i, ToEmit);
      assert way[0] == Onward(procs)[i] && way[1..] == Onward(procs)[i + 1..n] + tail;
      if i + 1 < |procs| {
        ChainIsWay(w, procs, sources, i + 1, n, tail);
      } else {
        assert way[1..] == [];
      }
    }
  }

  /** With nothing else on the signals, the rest of the chain is all there is. */
  lemma {:induction false} OnlyOnward(w: Wiring, procs: seq<Adapter>, sources: seq<Adapter>, i: nat, way: seq<Slot>)
    requires DistinctEmitters(procs, sources) && EmittersOf(procs, sources) <= w.Keys && i < |procs|
    requires OnlyLinks(w, procs, sources) && IsWay(SetUp(w, procs, sources), procs, Into(procs, i), way)
    ensures way <= Onward(procs)[i..]
    decreases |way|
  {
    if way != [] {
      hide DistinctEmitters, Links, SetUp;
      ChainFires(w, procs, sources, i, way[0]);
      assert way[0] == Onward(procs)[i];
      assert Onward(procs)[i..] == [Onward(procs)[i]] + Onward(procs)[i + 1..];
      assert way == [way[0]] + way[1..];
      if i + 1 < |procs| {
        OnlyOnward(w, procs, sources, i + 1, way[1..]);
      } else {
        EmitEnds(SetUp(w, procs, sources), procs, way[1..]);
      }
    }
  }

  lemma EmitEnds(w: Wiring, procs: seq<Adapter>, way: seq<Slot>)
    requires IsWay(w, procs, ToEmit, way)
    ensures way == []
  {
  }

  /** After `setup`, the whole chain can be taken from every source. */
  lemma ChainIsTaken(w: Wiring, procs: seq<Adapter>, sources: seq<Adapter>)
    requires DistinctEmitters(procs, sources) && EmittersOf(procs, sources) <= w.Keys
    ensures IsTaken(SetUp(w, procs, sources), procs, sources, WholeChain(procs))
    ensures forall j :: 0 <= j < |sources| ==> Fires(SetUp(w, procs, sources), sources[j].emitter, ToProcess)
  {
    hide DistinctEmitters, Links, SetUp;
    assert WholeChain(procs)[1..] == Onward(procs);
    if procs != [] {
      ChainIsWay(w, procs, sources, 0, |procs|, []);
      assert Onward(procs)[0..|procs|] + [] == Onward(procs);
    }
    forall j | 0 <= j < |sources| ensures Fires(SetUp(w, procs, sources), sources[j].emitter, ToProcess) {
      SourceFires(w, procs, sources, j, ToProcess);
    }
  }

  lemma OnlyTheChain(w: Wiring, procs: seq<Adapter>, sources: seq<Adapter>, way: seq<Slot>)
    requires DistinctEmitters(procs, sources) && EmittersOf(procs, sources) <= w.Keys
    requires OnlyLinks(w, procs, sources) && IsTaken(SetUp(w, procs, sources), procs, sources, way)
    ensures way <= WholeChain(procs)
  {
    hide DistinctEmitters, SetUp;
    if way[0] != ToProcess {
      var j :| 0 <= j < |sources| && Fires(SetUp(w, procs, sources), sources[j].emitter, way[0]);
      SourceFires(w, procs, sources, j, way[0]);
      assert false;
    }
    hide Links;
    assert way == [way[0]] + way[1..];
    if procs != [] {
      OnlyOnward(w, procs, sources, 0, way[1..]);
      assert Onward(procs)[0..] == Onward(procs);
    }
  }

  lemma WayOff(w: Wiring, procs: seq<Adapter>, sources: seq<Adapter>, i: nat, to: Slot) returns (way: seq<Slot>)
    requires DistinctEmitters(procs, sources) && EmittersOf(procs, sources) <= w.Keys && i < |procs|
    requires Fires(w, procs[i].emitter, to) && to !in Links(procs, sources, procs[i].emitter)
    ensures IsTaken(SetUp(w, procs, sources), procs, sources, way) && !(way <= WholeChain(procs))
  {
    hide DistinctEmitters, SetUp, Links;
    ChainFires(w, procs, sources, i, to);
    assert [to][1..] == [];
    assert IsWay(SetUp(w, procs, sources), procs, Into(procs, i), [to]);
    ChainIsWay(w, procs, sources, 0, i, [to]);
    way := [ToProcess] + (Onward(procs)[0..i] + [to]);
    assert way[1..] == Onward(procs)[0..i] + [to];
    assert way[i + 1] == to && WholeChain(procs)[i + 1] == Onward(procs)[i];
  }

  /** Any other slot opens a way off the chain. */
  lemma AnotherWay(w: Wiring, procs: seq<Adapter>, sources: seq<Adapter>) returns (way: seq<Slot>)
    requires DistinctEmitters(procs, sources) && w.Keys == EmittersOf(procs, sources)
    requires !OnlyLinks(w, procs, sources)
    ensures IsTaken(SetUp(w, procs, sources), procs, sources, way) && !(way <= WholeChain(procs))
  {
    var sig, to :| sig in w && to in w[sig] && !to.Listener? && to !in Links(procs, sources, sig);
    hide DistinctEmitters, SetUp, Links, OnlyLinks;
    if i: nat :| i < |procs| && procs[i].emitter == sig {
      way := WayOff(w, procs, sources, i, to);
    } else {
      assert sig in EmittersOf(procs, sources);
      var a :| a in sources && a.emitter == sig;
      var j :| 0 <= j < |sources| && sources[j] == a;
      SourceFires(w, procs, sources, j, to);
      way := [to];
      assert WholeChain(procs)[0] == ToProcess;
    }
  }

  /** After `setup`, a packet from any source can only take the chain, exactly if the signals held no slot of the
      stream before but the links themselves. */
  lemma OnlyTheChainIff(w: Wiring, procs: seq<Adapter>, sources: seq<Adapter>)
    requires DistinctEmitters(procs, sources) && w.Keys == EmittersOf(procs, sources)
    ensures (forall way: seq<Slot> :: IsTaken(SetUp(w, procs, sources), procs, sources, way) ==> way <= WholeChain(procs))
       <==> OnlyLinks(w, procs, sources)
  {
    hide DistinctEmitters, SetUp, IsTaken, OnlyLinks;
    if OnlyLinks(w, procs, sources) {
      forall way: seq<Slot> | IsTaken(SetUp(w, procs, sources), procs, sources, way) ensures way <= WholeChain(procs) {
        OnlyTheChain(w, procs, sources, way);
      }
    } else {
      var way := AnotherWay(w, procs, sources);
    }
  }

  // Adapters that change between two calls

  function With(adapters: seq<Adapter>, k: nat, added: Adapter): seq<Adapter>
    requires k <= |adapters|
  {
    adapters[..k] + [added] + adapters[k..]
  }

  lemma LinksWith(procs: seq<Adapter>, sources: seq<Adapter>, k: nat, added: Adapter, i: nat)
    requires k <= |procs| && DistinctEmitters(With(procs, k, added), sources) && i < |procs|
    ensures DistinctEmitters(procs, sources)
    ensures Links(procs, sources, procs[i].emitter) <= Links(With(procs, k, added), sources, procs[i].emitter) <==> i + 1 != k
    ensures Links(procs, sources, added.emitter) == {}
    ensures i + 1 == k ==> ToProcessor(added) in Links(With(procs, k, added), sources, procs[i].emitter)
  {
    var more := With(procs, k, added);
    var i' := if i < k then i else i + 1;
    WithDistinct(procs, sources, k, added);
    LinksAt(procs, sources, i);
    LinksAt(more, sources, i');
    assert more[i'] == procs[i] && more[k] == added;
    hide Links, DistinctEmitters;
    if i + 1 < |procs| && i + 1 != k {
      assert more[i' + 1] == procs[i + 1];
    }
  }

  lemma WithDistinct(procs: seq<Adapter>, sources: seq<Adapter>, k: nat, added: Adapter)
    requires k <= |procs| && DistinctEmitters(With(procs, k, added), sources)
    ensures DistinctEmitters(procs, sources) && Links(procs, sources, added.emitter) == {}
    ensures added !in procs && added.emitter !in EmittersOf(procs, sources)
  {
    var more := With(procs, k, added);
    assert forall i :: 0 <= i < |procs| ==> more[if i < k then i else i + 1] == procs[i];
    assert more[k] == added;
    forall i | 0 <= i < |procs| ensures procs[i].emitter != added.emitter {
      assert more[if i < k then i else i + 1] == procs[i];
    }
    NoChainLinks(procs, |procs|, added.emitter);
  }

  lemma WithMoves(procs: seq<Adapter>, sources: seq<Adapter>, k: nat, added: Adapter)
    requires k <= |procs| && DistinctEmitters(With(procs, 0, added), sources)
    ensures DistinctEmitters(With(procs, k, added), sources)
  {
    var first, more := With(procs, 0, added), With(procs, k, added);
    forall i | 0 <= i < |more| ensures more[i] == first[if i < k then i + 1 else if i == k then 0 else i] {
    }
  }

  lemma AttachedFirst(procs: seq<Adapter>, sources: seq<Adapter>, added: Adapter, sig: Signal)
    requires DistinctEmitters(With(procs, 0, added), sources) && sig in EmittersOf(With(procs, 0, added), sources)
    ensures Links(procs, sources, sig) <= Links(With(procs, 0, added), sources, sig)
  {
    var more := With(procs, 0, added);
    WithDistinct(procs, sources, 0, added);
    if a :| a in sources && a.emitter == sig {
      var j :| 0 <= j < |sources| && sources[j] == a;
      SourceLinksAt(procs, sources, j);
      SourceLinksAt(more, sources, j);
    } else {
      var p :| p in more && p.emitter == sig;
      if p != added {
        assert p in procs;
        var i :| 0 <= i < |procs| && procs[i] == p;
        LinksWith(procs, sources, 0, added, i);
      }
    }
  }

  lemma AttachedBehind(procs: seq<Adapter>, sources: seq<Adapter>, k: nat, added: Adapter) returns (link: Slot)
    requires 0 < k <= |procs| && DistinctEmitters(With(procs, k, added), sources)
    ensures var sig := procs[k - 1].emitter;
            && sig in EmittersOf(With(procs, k, added), sources) && !link.Listener?
            && link in Links(procs, sources, sig) && link !in Links(With(procs, k, added), sources, sig)
  {
    WithDistinct(procs, sources, k, added);
    LinksWith(procs, sources, k, added, k - 1);
    LinksAt(procs, sources, k - 1);
    assert With(procs, k, added)[k - 1] == procs[k - 1];
    link := Onward(procs)[k - 1];
  }

  /** A processor is attached at place k while the links of an earlier `setup` are in place: after the next
      `setup` the new chain is the only way exactly if the processor comes first. */
  lemma AttachedInBetween(w: Wiring, procs: seq<Adapter>, sources: seq<Adapter>, k: nat, added: Adapter)
    requires k <= |procs| && DistinctEmitters(With(procs, k, added), sources)
    requires w.Keys == EmittersOf(With(procs, k, added), sources) && OnlyListeners(w)
    ensures OnlyLinks(SetUp(w, procs, sources), With(procs, k, added), sources) <==> k == 0
  {
    var more, before := With(procs, k, added), SetUp(w, procs, sources);
    hide Links, DistinctEmitters, EmittersOf, With;
    if k == 0 {
      forall sig, s: Slot | sig in before && s in before[sig] && !s.Listener? ensures s in Links(more, sources, sig) {
        AttachedFirst(procs, sources, added, sig);
      }
    } else {
      var link := AttachedBehind(procs, sources, k, added);
      var sig := procs[k - 1].emitter;
      assert sig in before && link in before[sig] && !link.Listener?;
    }
  }

  /** If it does not, the processor before it emits every packet into both. */
  lemma EmitsTwice(w: Wiring, procs: seq<Adapter>, sources: seq<Adapter>, k: nat, added: Adapter)
    requires 0 < k <= |procs| && DistinctEmitters(With(procs, k, added), sources) && procs[k - 1].emitter in w
    ensures var after := SetUp(SetUp(w, procs, sources), With(procs, k, added), sources);
            var before := if k < |procs| then ToProcessor(procs[k]) else ToEmit;
            && Fires(after, procs[k - 1].emitter, ToProcessor(added))
            && Fires(after, procs[k - 1].emitter, before) && before != ToProcessor(added)
  {
    WithDistinct(procs, sources, k, added);
    LinksWith(procs, sources, k, added, k - 1);
    LinksAt(procs, sources, k - 1);
    hide Links;
  }

  function Without(adapters: seq<Adapter>, k: nat): seq<Adapter>
    requires k < |adapters|
  {
    adapters[..k] + adapters[k + 1..]
  }

  /** What a teardown leaves behind once a processor has been detached: the links of that processor and of the one
      before it, and of no other. */
  lemma LeftoverIff(procs: seq<Adapter>, sources: seq<Adapter>, k: nat, j: nat)
    requires DistinctEmitters(procs, sources) && k < |procs| && j < |procs|
    ensures var sig := procs[j].emitter;
            Links(procs, sources, sig) - Links(Without(procs, k), sources, sig) == {} <==> j != k && j + 1 != k
  {
    var others := Without(procs, k);
    LinksAt(procs, sources, j);
    if j == k {
      NoChainLinks(others, |others|, procs[j].emitter);
    } else {
      var j' := if j < k then j else j - 1;
      assert others[j'] == procs[j];
      LinksAt(others, sources, j');
    }
    hide Links;
  }

  lemma NoLinksElsewhere(procs: seq<Adapter>, sources: seq<Adapter>, sig: Signal)
    requires sig !in EmittersOf(procs, sources)
    ensures Links(procs, sources, sig) == {}
  {
    assert forall i :: 0 <= i < |procs| ==> procs[i] in procs;
    assert forall i :: 0 <= i < |sources| ==> sources[i] in sources;
    NoChainLinks(procs, |procs|, sig);
  }

  lemma WhatIsLeft(w: Wiring, procs: seq<Adapter>, sources: seq<Adapter>, k: nat, j: nat)
    requires DistinctEmitters(procs, sources) && OnlyListeners(w) && k < |procs| && j < |procs| && procs[j].emitter in w
    ensures var sig := procs[j].emitter;
            w[sig] + Links(procs, sources, sig) - Links(Without(procs, k), sources, sig) == w[sig] <==> j != k && j + 1 != k
  {
    var sig := procs[j].emitter;
    LeftoverIff(procs, sources, k, j);
    ListenersStayOff(w, procs, sources, sig);
    ListenersStayOff(w, Without(procs, k), sources, sig);
  }
}
