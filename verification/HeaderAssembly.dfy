/** How the HTTP parser puts headers together from the fragments it is handed (src/http/src/parser.cpp).
 */
module HeaderAssembly {

  datatype Header = Header(name: string, value: string)

  /** What the parser library calls: a piece of a name, a piece of a value, the end of the headers. */
  datatype Callback = Field(at: string) | Value(at: string) | HeadersComplete

  /** The parser's fields, and the calls of `onHeader` so far. */
  datatype State = State(wasHeaderValue: bool, lastHeaderField: string, lastHeaderValue: string, calls: seq<Header>)

  function Pending(s: State): seq<Header> {
    if s.lastHeaderField == "" then [] else [Header(s.lastHeaderField, s.lastHeaderValue)]
  }

  function Step(s: State, callback: Callback): State {
    match callback
    case Field(at) =>
      if s.wasHeaderValue then State(false, at, if s.lastHeaderField == "" then s.lastHeaderValue else "", s.calls + Pending(s))
      else s.(lastHeaderField := s.lastHeaderField + at)
    case Value(at) =>
      s.(wasHeaderValue := true, lastHeaderValue := if s.wasHeaderValue then s.lastHeaderValue + at else at)
    case HeadersComplete => s.(calls := s.calls + Pending(s))
  }

  function Run(s: State, callbacks: seq<Callback>): (s': State)
    ensures s.calls <= s'.calls
    decreases |callbacks|
  {
    if callbacks == [] then s else Run(Step(s, callbacks[0]), callbacks[1..])
  }

  lemma {:induction false} RunOn(s: State, a: seq<Callback>, b: seq<Callback>)
    ensures Run(s, a + b) == Run(Run(s, a), b)
    decreases |a|
  {
    if a == [] {
      assert a + b == b;
    } else {
      RunOn(Step(s, a[0]), a[1..], b);
      assert (a + b)[1..] == a[1..] + b;
    }
  }

  // Fragments

  /** A header as delivered: in one or more pieces of its name, then one or more of its value. */
  datatype Fragments = Fragments(names: seq<string>, values: seq<string>)

  function Join(parts: seq<string>): string {
    if parts == [] then "" else parts[0] + Join(parts[1..])
  }

  function Fields(parts: seq<string>): seq<Callback> {
    seq(|parts|, i requires 0 <= i < |parts| => Field(parts[i]))
  }

  function Values(parts: seq<string>): seq<Callback> {
    seq(|parts|, i requires 0 <= i < |parts| => Value(parts[i]))
  }

  predicate IsDelivered(f: Fragments) {
    f.names != [] && f.values != [] && Join(f.names) != ""
  }

  function Assembled(f: Fragments): Header {
    Header(Join(f.names), Join(f.values))
  }

  function CallbacksOf(headers: seq<Fragments>): seq<Callback> {
    if headers == [] then [] else Fields(headers[0].names) + Values(headers[0].values) + CallbacksOf(headers[1..])
  }

  function AllAssembled(headers: seq<Fragments>): seq<Header> {
    seq(|headers|, i requires 0 <= i < |headers| => Assembled(headers[i]))
  }

  predicate AllDelivered(headers: seq<Fragments>) {
    forall i :: 0 <= i < |headers| ==> IsDelivered(headers[i])
  }

  lemma {:induction false} MoreFields(s: State, parts: seq<string>)
    requires !s.wasHeaderValue
    ensures Run(s, Fields(parts)) == s.(lastHeaderField := s.lastHeaderField + Join(parts))
    decreases |parts|
  {
    if parts == [] {
      assert s.lastHeaderField + "" == s.lastHeaderField;
    } else {
      MoreFields(Step(s, Field(parts[0])), parts[1..]);
      assert Fields(parts)[1..] == Fields(parts[1..]);
      assert s.lastHeaderField + parts[0] + Join(parts[1..]) == s.lastHeaderField + Join(parts);
    }
  }

  lemma {:induction false} MoreValues(s: State, parts: seq<string>)
    requires s.wasHeaderValue
    ensures Run(s, Values(parts)) == s.(lastHeaderValue := s.lastHeaderValue + Join(parts))
    decreases |parts|
  {
    if parts == [] {
      assert s.lastHeaderValue + "" == s.lastHeaderValue;
    } else {
      MoreValues(Step(s, Value(parts[0])), parts[1..]);
      assert Values(parts)[1..] == Values(parts[1..]);
      assert s.lastHeaderValue + parts[0] + Join(parts[1..]) == s.lastHeaderValue + Join(parts);
    }
  }

  function Kept(s: State): string {
    if s.wasHeaderValue then "" else s.lastHeaderField
  }

  lemma NameRun(s: State, names: seq<string>)
    requires names != []
    ensures var s' := Run(s, Fields(names));
            && !s'.wasHeaderValue && s'.lastHeaderField == Kept(s) + Join(names)
            && s'.calls == s.calls + if s.wasHeaderValue then Pending(s) else []
  {
    var s1 := Step(s, Field(names[0]));
    assert s1.lastHeaderField == Kept(s) + names[0];
    assert Fields(names)[1..] == Fields(names[1..]);
    assert Run(s, Fields(names)) == Run(s1, Fields(names[1..]));
    hide Run;
    MoreFields(s1, names[1..]);
    Concat(Kept(s), names[0], Join(names[1..]));
  }

  lemma ValueRun(s: State, values: seq<string>)
    requires values != [] && !s.wasHeaderValue
    ensures Run(s, Values(values)) == s.(wasHeaderValue := true, lastHeaderValue := Join(values))
  {
    var s1 := Step(s, Value(values[0]));
    assert Values(values)[1..] == Values(values[1..]);
    assert Run(s, Values(values)) == Run(s1, Values(values[1..]));
    hide Run;
    MoreValues(s1, values[1..]);
  }

  lemma Concat(a: string, b: string, c: string)
    ensures a + b + c == a + (b + c)
  {
  }

  /** One header, from any state: it becomes the last one, and the one before is handed on. */
  lemma HeaderRun(s: State, f: Fragments)
    requires f.names != [] && f.values != []
    ensures Run(s, Fields(f.names) + Values(f.values))
         == State(true, Kept(s) + Join(f.names), Join(f.values), s.calls + if s.wasHeaderValue then Pending(s) else [])
  {
    hide Run, Join;
    RunOn(s, Fields(f.names), Values(f.values));
    NameRun(s, f.names);
    ValueRun(Run(s, Fields(f.names)), f.values);
  }

  lemma NothingBefore(text: string)
    ensures "" + text == text
  {
  }

  lemma FirstAssembled(headers: seq<Fragments>)
    requires headers != []
    ensures AllAssembled(headers) == [Assembled(headers[0])] + AllAssembled(headers[1..])
  {
  }

  lemma Regroup(a: seq<Header>, b: seq<Header>, c: seq<Header>, d: seq<Header>)
    ensures a + b + c + d == a + b + (c + d)
  {
  }

  /** Headers that follow one already complete: all but the last are handed on. */
  lemma {:induction false} HeadersRun(s: State, headers: seq<Fragments>)
    requires AllDelivered(headers) && s.wasHeaderValue
    ensures var s' := Run(s, CallbacksOf(headers));
            s'.calls + Pending(s') == s.calls + Pending(s) + AllAssembled(headers)
            && s'.wasHeaderValue
            && (headers != [] ==> Pending(s') == [Assembled(headers[|headers| - 1])])
    decreases |headers|
  {
    if headers == [] {
    } else {
      var first := headers[0];
      var callbacks := Fields(first.names) + Values(first.values);
      assert CallbacksOf(headers) == callbacks + CallbacksOf(headers[1..]);
      hide Run, CallbacksOf, Join;
      RunOn(s, callbacks, CallbacksOf(headers[1..]));
      HeaderRun(s, first);
      var s1 := Run(s, callbacks);
      NothingBefore(Join(first.names));
      assert Pending(s1) == [Assembled(first)];
      HeadersRun(s1, headers[1..]);
      FirstAssembled(headers);
      Regroup(s.calls, Pending(s), [Assembled(first)], AllAssembled(headers[1..]));
    }
  }

  /** The calls a message's headers cause. */
  function Calls(s: State, headers: seq<Fragments>): seq<Header> {
    Run(s, CallbacksOf(headers) + [HeadersComplete]).calls[|s.calls|..]
  }

  /** What the calls are from any state: a name left over from before is prepended to the first name, or, if a
      value had followed it, handed on as a header of its own. */
  lemma CallsFrom(s: State, headers: seq<Fragments>)
    requires AllDelivered(headers)
    ensures Calls(s, headers)
         == if headers == [] then Pending(s)
            else if s.wasHeaderValue then Pending(s) + AllAssembled(headers)
            else AllAssembled(headers)[0 := Header(s.lastHeaderField + Join(headers[0].names), Join(headers[0].values))]
  {
    RunOn(s, CallbacksOf(headers), [HeadersComplete]);
    var s' := Run(s, CallbacksOf(headers));
    assert Run(s', [HeadersComplete]) == Step(s', HeadersComplete);
    if headers == [] {
      assert Calls(s, headers) == Pending(s);
    } else if s.wasHeaderValue {
      HeadersRun(s, headers);
      assert s.calls + Pending(s) + AllAssembled(headers) == s.calls + (Pending(s) + AllAssembled(headers));
    } else {
      var first := headers[0];
      RunOn(s, Fields(first.names) + Values(first.values), CallbacksOf(headers[1..]));
      HeaderRun(s, first);
      var s1 := Run(s, Fields(first.names) + Values(first.values));
      HeadersRun(s1, headers[1..]);
    }
  }

  /** The headers come out as they went in, each once and in order, however they were cut, exactly if no name
      was left over; whether a value had followed does not matter. */
  lemma AssembledIff(s: State, headers: seq<Fragments>)
    requires AllDelivered(headers)
    ensures Calls(s, headers) == AllAssembled(headers) <==> s.lastHeaderField == ""
  {
    CallsFrom(s, headers);
    if headers != [] {
      var first := headers[0];
      assert AllAssembled(headers)[0] == Assembled(first);
      if s.lastHeaderField == "" {
        NothingBefore(Join(first.names));
        assert AllAssembled(headers)[0 := Assembled(first)] == AllAssembled(headers);
        assert [] + AllAssembled(headers) == AllAssembled(headers);
      } else {
        assert |s.lastHeaderField + Join(first.names)| > |Join(first.names)|;
      }
    }
  }

  /** Two ways of cutting the same headers cause the same calls, from any state. */
  lemma FragmentationDoesNotMatter(s: State, a: seq<Fragments>, b: seq<Fragments>)
    requires AllDelivered(a) && AllDelivered(b) && AllAssembled(a) == AllAssembled(b)
    ensures Calls(s, a) == Calls(s, b)
  {
    CallsFrom(s, a);
    CallsFrom(s, b);
    assert |a| == |AllAssembled(a)| == |b|;
    if a != [] {
      assert Assembled(a[0]) == AllAssembled(a)[0] == AllAssembled(b)[0] == Assembled(b[0]);
    }
  }

  lemma LastStays(s: State, headers: seq<Fragments>)
    requires AllDelivered(headers) && headers != [] && s.lastHeaderField == ""
    ensures var s' := Run(s, CallbacksOf(headers));
            s'.wasHeaderValue && Pending(s') == [Assembled(headers[|headers| - 1])]
  {
    var first := headers[0];
    var s1 := Run(s, Fields(first.names) + Values(first.values));
    RunOn(s, Fields(first.names) + Values(first.values), CallbacksOf(headers[1..]));
    HeaderRun(s, first);
    NothingBefore(Join(first.names));
    HeadersRun(s1, headers[1..]);
  }

  /** `reset` between two messages leaves the last header in place, so the second message begins by handing on
      the last header of the first once more. */
  lemma NextMessageRepeatsLast(s: State, first: seq<Fragments>, second: seq<Fragments>)
    requires AllDelivered(first) && AllDelivered(second) && first != [] && s.lastHeaderField == ""
    ensures var between := Run(s, CallbacksOf(first) + [HeadersComplete]);
            Calls(between, second) == [Assembled(first[|first| - 1])] + AllAssembled(second)
  {
    hide Calls, CallbacksOf, Assembled;
    var s2 := Run(s, CallbacksOf(first));
    RunOn(s, CallbacksOf(first), [HeadersComplete]);
    LastStays(s, first);
    var between := Step(s2, HeadersComplete);
    assert Run(s2, [HeadersComplete]) == between;
    CallsFrom(between, second);
    assert second == [] ==> AllAssembled(second) == [];
  }

  // The class

  class Parser {
    var wasHeaderValue: bool
    var lastHeaderField: string
    var lastHeaderValue: string

    /** What the observer was told. */
    ghost var calls: seq<Header>

    ghost function View(): State
      reads this
    {
      State(wasHeaderValue, lastHeaderField, lastHeaderValue, calls)
    }

    /** The program leaves the flag as it finds it. */
    constructor (flag: bool)
      ensures View() == State(flag, "", "", [])
    {
      wasHeaderValue, lastHeaderField, lastHeaderValue, calls := flag, "", "", [];
    }

    method OnHeader(name: string, value: string)
      modifies `calls
      ensures calls == old(calls) + [Header(name, value)]
    {
      calls := calls + [Header(name, value)];
    }

    method OnHeaderField(at: string)
      modifies this
      ensures View() == Step(old(View()), Field(at))
    {
      if wasHeaderValue {
        if lastHeaderField != "" {
          OnHeader(lastHeaderField, lastHeaderValue);
          lastHeaderValue := "";
        }
        lastHeaderField := at;
        wasHeaderValue := false;
      } else {
        lastHeaderField := lastHeaderField + at;
      }
    }

    method OnHeaderValue(at: string)
      modifies this
      ensures View() == Step(old(View()), Value(at))
    {
      if !wasHeaderValue {
        lastHeaderValue := at;
        wasHeaderValue := true;
      } else {
        lastHeaderValue := lastHeaderValue + at;
      }
    }

    method OnHeadersComplete()
      modifies this
      ensures View() == Step(old(View()), HeadersComplete)
    {
      if lastHeaderField != "" {
        OnHeader(lastHeaderField, lastHeaderValue);
      }
    }
  }
}
