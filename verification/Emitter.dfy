/** The event registry of EventEmitter.js: a map from event names to lists
    of listeners. Listeners are opaque ids; `Emit` returns the calls it
    would make instead of making them. */
module Events {
  import opened Base
  import opened Strings

  type Listener = nat

  /** The `_events` object. */
  datatype Emitter = Emitter(events: map<string, seq<Listener>>)

  /** One call `listener.call(null, evtType, filePath)`; `filePath` is
      `None` for `undefined`. */
  datatype Call = Call(listener: Listener, evtType: string, filePath: Option<string>)

  /** The registry of `new EventEmitter()`. */
  const Empty: Emitter := Emitter(map[])

  /** The listeners registered under `name`, in registration order. */
  function Listeners(e: Emitter, name: string): seq<Listener> {
    if name in e.events then e.events[name] else []
  }

  /** `on(name, f)`: append `f` to the list of `name`, creating the list
      when there is none; a listener already present is added again. */
  function On(e: Emitter, name: string, f: Listener): (r: Emitter)
    ensures Listeners(r, name) == Listeners(e, name) + [f]
    ensures forall n :: n != name ==> Listeners(r, n) == Listeners(e, n)
    ensures r.events.Keys == e.events.Keys + {name}
  {
    Emitter(e.events[name := Listeners(e, name) + [f]])
  }

  /** The property `length` that `off` without a function resets. */
  const LengthKey: string := "length"

  /** `off(name, f)`. With no function the registry only loses its
      `length` entry (setting it to 0 makes it falsy); with a function and
      a non-empty list the loop reads the undeclared `fn` and throws. */
  function Off(e: Emitter, name: string, f: Option<Listener>): (r: Result<Emitter>)
    ensures name !in e.events ==> r == Ok(e)
    ensures f.Some? && Listeners(e, name) == [] ==> r == Ok(e)
    ensures f.Some? && Listeners(e, name) != [] ==> r == Err(UndeclaredFn)
    ensures f.None? && name in e.events ==> r == Ok(Emitter(e.events - {LengthKey}))
  {
    if name !in e.events then Ok(e)
    else if f.None? then Ok(Emitter(e.events - {LengthKey}))
    else if |e.events[name]| > 0 then Err(UndeclaredFn)
    else Ok(e)
  }

  /** The first argument of every call: the text before the first `:`,
      or the whole name when there is none or it is empty. */
  function EventType(name: string): (t: string)
    ensures ':' !in name ==> t == name
    ensures ':' in name && IndexOf(name, ':') > 0 ==> t == name[..IndexOf(name, ':')] && ':' !in t
  {
    var idx := IndexOf(name, ':');
    if idx > 0 then name[..idx] else name
  }

  /** The second argument: `fileName` when non-empty, else the text after
      the first `:`, else `undefined`. */
  function FilePath(name: string, fileName: string): (p: Option<string>)
    ensures fileName != "" ==> p == Some(fileName)
    ensures fileName == "" && ':' !in name ==> p == None
    ensures fileName == "" && ':' in name ==> p == Some(name[IndexOf(name, ':') + 1..])
  {
    var idx := IndexOf(name, ':');
    if fileName != "" then Some(fileName)
    else if idx != -1 then Some(name[idx + 1..])
    else None
  }

  /** `emit(name, fileName)`: one call per listener registered under the
      full name, in registration order, all with the same arguments. */
  function Emit(e: Emitter, name: string, fileName: string): (calls: seq<Call>)
    ensures |calls| == |Listeners(e, name)|
    ensures forall i :: 0 <= i < |calls| ==>
      calls[i] == Call(Listeners(e, name)[i], EventType(name), FilePath(name, fileName))
  {
    var ls := Listeners(e, name);
    seq(|ls|, i requires 0 <= i < |ls| => Call(ls[i], EventType(name), FilePath(name, fileName)))
  }

  /** A listener added with `on` is called last by the next `emit` of that
      name, after the ones registered before it. */
  lemma EmitAfterOn(e: Emitter, name: string, f: Listener, fileName: string)
    ensures Emit(On(e, name, f), name, fileName) ==
      Emit(e, name, fileName) + [Call(f, EventType(name), FilePath(name, fileName))]
  {
  }

  /** `on` under one name does not change what `emit` of another name
      calls. */
  lemma EmitOtherName(e: Emitter, name: string, other: string, f: Listener, fileName: string)
    requires other != name
    ensures Emit(On(e, name, f), other, fileName) == Emit(e, other, fileName)
  {
  }

  /** `off` without a function removes no listener of any name but
      `length`. */
  lemma OffWithoutFunctionKeepsListeners(e: Emitter, name: string, n: string)
    requires n != LengthKey
    ensures Off(e, name, None).Ok?
    ensures Listeners(Off(e, name, None).value, n) == Listeners(e, n)
  {
  }

  /** Removing a listener that was added fails. */
  lemma OffAfterOnFails(e: Emitter, name: string, f: Listener, g: Listener)
    ensures Off(On(e, name, f), name, Some(g)) == Err(UndeclaredFn)
  {
    assert Listeners(On(e, name, f), name) != [];
  }

  /** An event name `type:path` splits at its first colon. */
  lemma EmitArguments(kind: string, path: string, fileName: string)
    requires kind != "" && ':' !in kind
    ensures EventType(kind + ":" + path) == kind
    ensures FilePath(kind + ":" + path, fileName) == Some(if fileName != "" then fileName else path)
  {
    var name := kind + ":" + path;
    assert name[|kind|] == ':';
    assert forall j :: 0 <= j < |kind| ==> name[j] == kind[j];
    assert IndexOf(name, ':') == |kind| by {
      var d := IndexOf(name, ':');
      assert forall j :: 0 <= j < d ==> name[..d][j] == name[j];
    }
    assert name[..|kind|] == kind;
    assert name[|kind| + 1..] == path;
  }
}
