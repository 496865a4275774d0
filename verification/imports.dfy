/** `endemic.import` (endemic.js:219-246): fetch `<name>.html` at most once
    per name and record whether the load failed. */
module Imports {
  import JsObjects

  /** The values `_imported[name]` takes. */
  datatype Status = Loaded | Failed

  /** How a request ends: a `load` event with an HTTP status, `error` or `abort`. */
  datatype Completion = Load(status: int) | NetworkError | Abort

  datatype Request = Get(url: string)

  /** The new `_imported` table and the requests the call issued. */
  datatype Outcome = Outcome(imported: map<string, Status>, requests: seq<Request>)

  /** `import(name)`: a name already in the table, loaded or failed, is left
      alone; a new one is marked loaded and one GET of `name + ".html"` goes out. */
  function Import(imported: map<string, Status>, name: string): (r: Outcome)
    ensures name in r.imported && r.imported[name] == (if name in imported then imported[name] else Loaded)
    ensures forall k :: k != name ==> (k in r.imported <==> k in imported)
    ensures forall k :: k != name && k in imported ==> r.imported[k] == imported[k]
    ensures |r.requests| == (if name in imported then 0 else 1)
    ensures forall q :: q in r.requests ==> q == Get(name + ".html")
  {
    if name in imported then Outcome(imported, [])
    else Outcome(imported[name := Loaded], [Get(name + ".html")])
  }

  /** The request's listeners: a load with status 200 changes nothing, any
      other status, an error or an abort marks the name failed. */
  function Complete(imported: map<string, Status>, name: string, c: Completion): (r: map<string, Status>)
    ensures forall k :: k != name ==> (k in r <==> k in imported)
    ensures forall k :: k != name && k in imported ==> r[k] == imported[k]
    ensures name in r <==> name in imported || c != Load(200)
    ensures name in r ==> (r[name] == Failed <==> c != Load(200) || imported[name] == Failed)
  {
    match c
    case Load(status) => if status != 200 then imported[name := Failed] else imported
    case NetworkError => imported[name := Failed]
    case Abort => imported[name := Failed]
  }

  /** What can happen to the table: calls to `import` and request completions. */
  datatype Event = ImportCall(name: string) | Completed(name: string, c: Completion)

  /** A run of events: the table only grows, and every request issued is
      for the file of a name some `import` call in the run asked for. */
  function Run(imported: map<string, Status>, events: seq<Event>): (r: Outcome)
    decreases |events|
    ensures forall k :: k in imported ==> k in r.imported
    ensures forall q :: q in r.requests ==> exists name :: q == Get(name + ".html") && ImportCall(name) in events
  {
    if |events| == 0 then Outcome(imported, [])
    else
      var step :=
        match events[0]
        case ImportCall(name) => Import(imported, name)
        case Completed(name, c) => Outcome(Complete(imported, name, c), []);
      var rest := Run(step.imported, events[1..]);
      assert forall q :: q in step.requests ==> q == Get(events[0].name + ".html") && events[0].ImportCall?;
      assert forall e :: e in events[1..] ==> e in events;
      Outcome(rest.imported, step.requests + rest.requests)
  }

  /** The requests for `name`'s file. */
  function RequestsFor(requests: seq<Request>, name: string): nat {
    if |requests| == 0 then 0
    else (if requests[0] == Get(name + ".html") then 1 else 0) + RequestsFor(requests[1..], name)
  }

  lemma RequestsForAppend(a: seq<Request>, b: seq<Request>, name: string)
    ensures RequestsFor(a + b, name) == RequestsFor(a, name) + RequestsFor(b, name)
  {
    if |a| > 0 {
      assert (a + b)[1..] == a[1..] + b;
      RequestsForAppend(a[1..], b, name);
    } else {
      assert a + b == b;
    }
  }

  lemma SuffixInjective(x: string, y: string)
    requires x + ".html" == y + ".html"
    ensures x == y
  {
    assert |x| == |y|;
    assert x == (x + ".html")[..|x|];
  }

  /** A name once in the table stays there, and no later event ever requests
      its file again; a name not yet there is requested at most once, and is
      in the table at the end if any `import` call for it happened. */
  lemma {:induction false} AtMostOneRequest(imported: map<string, Status>, events: seq<Event>, name: string)
    ensures name in imported ==> name in Run(imported, events).imported
    ensures name in imported ==> RequestsFor(Run(imported, events).requests, name) == 0
    ensures RequestsFor(Run(imported, events).requests, name) <= 1
    ensures ImportCall(name) in events ==> name in Run(imported, events).imported
    decreases |events|
  {
    if |events| > 0 {
      var step :=
        match events[0]
        case ImportCall(n) => Import(imported, n)
        case Completed(n, c) => Outcome(Complete(imported, n, c), []);
      AtMostOneRequest(step.imported, events[1..], name);
      var rest := Run(step.imported, events[1..]);
      RequestsForAppend(step.requests, rest.requests, name);
      if events[0].ImportCall? && events[0].name !in imported {
        var n := events[0].name;
        if Get(n + ".html") == Get(name + ".html") {
          SuffixInjective(n, name);
        }
        assert RequestsFor(step.requests, name) == (if n == name then 1 else 0);
      }
      if ImportCall(name) in events && events[0] != ImportCall(name) {
        assert ImportCall(name) in events[1..];
      }
    }
  }

  /** Once failed, a name stays failed: neither `import` nor any completion
      moves it back to loaded. */
  lemma {:induction false} FailedIsFinal(imported: map<string, Status>, events: seq<Event>, name: string)
    requires name in imported && imported[name] == Failed
    ensures name in Run(imported, events).imported && Run(imported, events).imported[name] == Failed
    decreases |events|
  {
    if |events| > 0 {
      var step :=
        match events[0]
        case ImportCall(n) => Import(imported, n)
        case Completed(n, c) => Outcome(Complete(imported, n, c), []);
      FailedIsFinal(step.imported, events[1..], name);
    }
  }

  /** `import` as written: `_imported` is an object literal, so the guard
      `if (_imported[componentName])` also sees `Object.prototype` members,
      and importing a component called, say, `constructor` returns at once. */
  function ImportAsWritten(imported: map<string, Status>, name: string): (r: Outcome)
    ensures name in JsObjects.PrototypeNames ==> r == Outcome(imported, [])
    ensures name !in JsObjects.PrototypeNames ==> r == Import(imported, name)
  {
    if name in imported || name in JsObjects.PrototypeNames then Outcome(imported, [])
    else Outcome(imported[name := Loaded], [Get(name + ".html")])
  }

  /** The first import of `constructor` issues no request as written, but
      exactly one with an own-key test. */
  lemma PrototypeNameNeverFetched()
    ensures ImportAsWritten(map[], "constructor").requests == []
    ensures Import(map[], "constructor").requests == [Get("constructor.html")]
  {
    assert "constructor" + ".html" == "constructor.html";
  }
}
