/**
 Consuming the results of a multi-get: the loop that fetches one result at a time, decodes it
 and hands it to a callback, and the fetch and fetchAll calls built on it.
 */
module ResultStream {
  import opened Basics

  /** The libmemcached return codes the loop distinguishes. */
  datatype Rc = Success | Stored | Deleted | Stat | End | Buffered | SomeErrors | NotFound | BadKey | TooBig | PayloadFailure | Other(code: int)

  predicate IsError(rc: Rc, strict: bool) {
    match rc
    case Success => false
    case Stored => false
    case Deleted => false
    case Stat => false
    case End => false
    case Buffered => false
    case SomeErrors => strict
    case _ => true
  }

  /** The codes that are no error at all. */
  predicate Fine(rc: Rc) {
    rc == Success || rc == Stored || rc == Deleted || rc == Stat || rc == End || rc == Buffered
  }

  lemma ErrorIff(rc: Rc)
    ensures IsError(rc, true) <==> !Fine(rc)
    ensures IsError(rc, false) <==> !Fine(rc) && rc != SomeErrors
  {
  }

  datatype Delivery<V> = Delivery(key: string, value: V, cas: nat, flags: bv32)

  /** One fetch: a result, decodable or not, or nothing; and the code that came with it. */
  datatype Event<V> =
    | Result(rc: Rc, decodable: bool, delivery: Delivery<V>)
    | Nothing(rc: Rc)

  /** The callback: what it is given and what it leaves, and whether to go on. */
  type Callback<!C, !V> = (C, Delivery<V>) -> (C, bool)

  // ---------- what is delivered, independently of the loop ----------

  /** The decodable results up to the first empty fetch. */
  function Deliverable<V>(events: seq<Event<V>>): seq<Delivery<V>> {
    if events == [] || events[0].Nothing? then []
    else if events[0].decodable then [events[0].delivery] + Deliverable(events[1..])
    else Deliverable(events[1..])
  }

  /** What is left after the first empty fetch. */
  function AfterEnd<V>(events: seq<Event<V>>): seq<Event<V>> {
    if events == [] then [] else if events[0].Nothing? then events[1..] else AfterEnd(events[1..])
  }

  /** What is left after the `n`-th decodable result. */
  function AfterDelivery<V>(events: seq<Event<V>>, n: nat): seq<Event<V>>
    requires n <= |Deliverable(events)|
  {
    if n == 0 then events
    else if events[0].decodable then AfterDelivery(events[1..], n - 1)
    else AfterDelivery(events[1..], n)
  }

  /** How many items the callback is given: up to and including the first it answers with false. */
  function Taken<C, V>(apply: Callback<C, V>, context: C, items: seq<Delivery<V>>): (n: nat)
    ensures n <= |items|
  {
    if items == [] then 0
    else
      var (next, more) := apply(context, items[0]);
      if more then 1 + Taken(apply, next, items[1..]) else 1
  }

  predicate Stopped<C, V>(apply: Callback<C, V>, context: C, items: seq<Delivery<V>>) {
    if items == [] then false
    else
      var (next, more) := apply(context, items[0]);
      if more then Stopped(apply, next, items[1..]) else true
  }

  /** The context after the callback has been given all of `items`, in order, whatever it answers. */
  function Fold<C, V>(apply: Callback<C, V>, context: C, items: seq<Delivery<V>>): C {
    if items == [] then context else Fold(apply, apply(context, items[0]).0, items[1..])
  }

  // ---------- the loop ----------

  datatype Outcome<C, V> = Outcome(status: Rc, context: C, rest: seq<Event<V>>)

  function Run<C, V>(events: seq<Event<V>>, apply: Callback<C, V>, fetchDelay: bool, context: C, status: Rc): Outcome<C, V>
  {
    if events == [] then Outcome(status, context, [])
    else
      var e, rest := events[0], events[1..];
      var now := if IsError(e.rc, false) then e.rc else status;
      if e.Nothing? then Outcome(now, context, rest)
      else if !e.decodable then Run(rest, apply, fetchDelay, context, SomeErrors)
      else
        var (next, more) := apply(context, e.delivery);
        if more then Run(rest, apply, fetchDelay, next, now)
        else Outcome(now, next, if fetchDelay then rest else AfterEnd(rest))
  }

  /** The results still on the wire. */
  class Stream<V> {
    var pending: seq<Event<V>>

    constructor (events: seq<Event<V>>)
      ensures pending == events
    {
      pending := events;
    }

    /** A stream that has run out keeps answering END. */
    method Fetch() returns (e: Event<V>)
      modifies this
      ensures old(pending) == [] ==> e == Nothing(End) && pending == []
      ensures old(pending) != [] ==> e == old(pending)[0] && pending == old(pending)[1..]
    {
      if pending == [] {
        e := Nothing(End);
      } else {
        e, pending := pending[0], pending[1..];
      }
    }

    /** Throws away everything up to the first empty fetch. */
    method Drain()
      modifies this
      ensures pending == AfterEnd(old(pending))
    {
      var e := Fetch();
      while e.Result?
        invariant AfterEnd(old(pending)) == if e.Result? then AfterEnd(pending) else pending
        decreases e.Result?, |pending|
      {
        e := Fetch();
      }
    }

    method ResultApply<C>(apply: Callback<C, V>, fetchDelay: bool, start: C) returns (status: Rc, context: C)
      modifies this
      ensures Run(old(pending), apply, fetchDelay, start, Success) == Outcome(status, context, pending)
      ensures status == LastError(Seen(old(pending), apply, start), Success)
    {
      StatusIs(pending, apply, fetchDelay, start, Success);
      status, context := Success, start;
      var again := true;
      while again
        invariant Run(old(pending), apply, fetchDelay, start, Success) ==
                  if again then Run(pending, apply, fetchDelay, context, status) else Outcome(status, context, pending)
        decreases again, |pending|
      {
        var e := Fetch();
        if IsError(e.rc, false) {
          status := e.rc;
        }
        if e.Nothing? {
          again := false;
        } else if !e.decodable {
          status := SomeErrors;
        } else {
          var (next, more) := apply(context, e.delivery);
          context := next;
          if !more {
            if !fetchDelay {
              Drain();
            }
            again := false;
          }
        }
      }
    }
  }

  /** Memcached::fetch: the next result, or false on an error. */
  method FetchNext<V>(stream: Stream<V>) returns (r: Option<seq<Delivery<V>>>)
    modifies stream
    ensures r == Returned(Fetch(old(stream.pending))) && stream.pending == Fetch(old(stream.pending)).rest
    ensures r.Some? <==> Fine(LastError(Seen(old(stream.pending), FetchOne, []), Success))
  {
    var status, results := stream.ResultApply(FetchOne, true, []);
    ErrorIff(status);
    r := if IsError(status, true) then None else Some(results);
  }

  /** Memcached::fetchAll: every remaining result, or false on an error. */
  method FetchRemaining<V>(stream: Stream<V>) returns (r: Option<seq<Delivery<V>>>)
    modifies stream
    ensures r == Returned(FetchAll(old(stream.pending))) && stream.pending == FetchAll(old(stream.pending)).rest
    ensures r.Some? <==> Fine(LastError(Seen(old(stream.pending), FetchEach, []), Success))
  {
    var status, results := stream.ResultApply(FetchEach, false, []);
    ErrorIff(status);
    r := if IsError(status, true) then None else Some(results);
  }

  // ---------- exactly once, in order ----------

  /**
   Each decodable result reaches the callback once, in stream order, until it first answers
   false; after that the rest is drained, or left in place when fetching is delayed.
   */
  lemma {:induction false} DeliveredOnce<C, V>(events: seq<Event<V>>, apply: Callback<C, V>, fetchDelay: bool, context: C, status: Rc)
    ensures var items := Deliverable(events);
            var n := Taken(apply, context, items);
            var o := Run(events, apply, fetchDelay, context, status);
            && o.context == Fold(apply, context, items[..n])
            && o.rest == (if Stopped(apply, context, items) && fetchDelay then AfterDelivery(events, n) else AfterEnd(events))
    decreases |events|
  {
    if events != [] && events[0].Result? {
      var items := Deliverable(events);
      var rest := events[1..];
      if events[0].decodable {
        assert items[0] == events[0].delivery && items[1..] == Deliverable(rest);
        var (next, more) := apply(context, items[0]);
        var now := if IsError(events[0].rc, false) then events[0].rc else status;
        DeliveredOnce(rest, apply, fetchDelay, next, now);
        FoldCons(apply, context, items, Taken(apply, context, items));
      } else {
        DeliveredOnce(rest, apply, fetchDelay, context, SomeErrors);
        AfterSkip(events, Taken(apply, context, items));
      }
    }
  }

  lemma FoldCons<C, V>(apply: Callback<C, V>, context: C, items: seq<Delivery<V>>, n: nat)
    requires 1 <= n <= |items|
    ensures Fold(apply, context, items[..n]) == Fold(apply, apply(context, items[0]).0, items[1..][..n - 1])
  {
    assert items[..n][1..] == items[1..][..n - 1];
  }

  lemma AfterSkip<V>(events: seq<Event<V>>, n: nat)
    requires events != [] && events[0].Result? && !events[0].decodable
    requires n <= |Deliverable(events)|
    ensures n > 0 ==> AfterDelivery(events, n) == AfterDelivery(events[1..], n)
  {
  }

  // ---------- the status ----------

  predicate CleanEvent<V>(e: Event<V>) {
    !IsError(e.rc, false) && (e.Result? ==> e.decodable)
  }

  predicate Clean<V>(events: seq<Event<V>>) {
    forall k :: 0 <= k < |events| ==> CleanEvent(events[k])
  }

  /** The events the loop looks at, up to the one that stops it; drained ones are not looked at. */
  function Seen<C, V>(events: seq<Event<V>>, apply: Callback<C, V>, context: C): seq<Event<V>> {
    if events == [] then []
    else if events[0].Nothing? then [events[0]]
    else if !events[0].decodable then [events[0]] + Seen(events[1..], apply, context)
    else
      var (next, more) := apply(context, events[0].delivery);
      if more then [events[0]] + Seen(events[1..], apply, next) else [events[0]]
  }

  /** The call reports success exactly when everything it looked at was decodable and free of errors. */
  lemma {:induction false} StatusExact<C, V>(events: seq<Event<V>>, apply: Callback<C, V>, fetchDelay: bool, context: C, status: Rc)
    ensures !IsError(Run(events, apply, fetchDelay, context, status).status, true) <==>
            !IsError(status, true) && Clean(Seen(events, apply, context))
    decreases |events|
  {
    if events != [] {
      var e, rest := events[0], events[1..];
      var now := if IsError(e.rc, false) then e.rc else status;
      if e.Result? && !e.decodable {
        StatusExact(rest, apply, fetchDelay, context, SomeErrors);
        assert !CleanEvent(e) && Seen(events, apply, context)[0] == e;
      } else if e.Result? && apply(context, e.delivery).1 {
        var next := apply(context, e.delivery).0;
        StatusExact(rest, apply, fetchDelay, next, now);
        CleanCons(e, Seen(rest, apply, next));
      } else {
        CleanCons(e, []);
        assert [e] + [] == [e];
      }
    }
  }

  lemma CleanCons<V>(e: Event<V>, rest: seq<Event<V>>)
    ensures Clean([e] + rest) <==> CleanEvent(e) && Clean(rest)
  {
    var all := [e] + rest;
    if Clean(all) {
      assert CleanEvent(all[0]);
      forall k | 0 <= k < |rest|
        ensures CleanEvent(rest[k])
      {
        assert CleanEvent(all[k + 1]);
      }
    }
  }

  lemma {:induction false} CleanSeen<C, V>(events: seq<Event<V>>, apply: Callback<C, V>, context: C)
    requires Clean(events)
    ensures Clean(Seen(events, apply, context))
    decreases |events|
  {
    if events != [] {
      assert CleanEvent(events[0]);
      assert Clean(events[1..]);
      CleanCons(events[0], []);
      assert [events[0]] + [] == [events[0]];
      if events[0].Result? {
        var (next, more) := apply(context, events[0].delivery);
        CleanSeen(events[1..], apply, next);
        CleanCons(events[0], Seen(events[1..], apply, next));
      }
    }
  }

  /** The code the last of these events calls for that calls for any: an undecodable result for SomeErrors, else its own if an error. */
  function LastError<V>(seen: seq<Event<V>>, otherwise: Rc): Rc {
    if seen == [] then otherwise
    else
      var front, last := seen[..|seen| - 1], seen[|seen| - 1];
      if last.Result? && !last.decodable then SomeErrors
      else if !Fine(last.rc) && last.rc != SomeErrors then last.rc
      else LastError(front, otherwise)
  }

  lemma {:induction false} LastErrorCons<V>(e: Event<V>, rest: seq<Event<V>>, otherwise: Rc)
    ensures LastError([e] + rest, otherwise) == LastError(rest, LastError([e], otherwise))
    decreases |rest|
  {
    var all := [e] + rest;
    if rest == [] {
      assert all == [e];
    } else {
      assert all[..|all| - 1] == [e] + rest[..|rest| - 1];
      LastErrorCons(e, rest[..|rest| - 1], otherwise);
    }
  }

  lemma LastErrorOne<V>(e: Event<V>, otherwise: Rc)
    ensures LastError([e], otherwise) ==
            if e.Result? && !e.decodable then SomeErrors
            else if IsError(e.rc, false) then e.rc else otherwise
  {
    ErrorIff(e.rc);
    assert LastError<V>([], otherwise) == otherwise;
  }

  /** The status reported is that of the last event looked at that was undecodable or an error. */
  lemma {:induction false} StatusIs<C, V>(events: seq<Event<V>>, apply: Callback<C, V>, fetchDelay: bool, context: C, status: Rc)
    ensures Run(events, apply, fetchDelay, context, status).status == LastError(Seen(events, apply, context), status)
    decreases |events|
  {
    if events != [] {
      var e, rest := events[0], events[1..];
      LastErrorOne(e, status);
      var now := LastError([e], status);
      hide LastError, IsError;
      if e.Result? && !e.decodable {
        StatusIs(rest, apply, fetchDelay, context, now);
        LastErrorCons(e, Seen(rest, apply, context), status);
      } else if e.Result? && apply(context, e.delivery).1 {
        var next := apply(context, e.delivery).0;
        StatusIs(rest, apply, fetchDelay, next, now);
        LastErrorCons(e, Seen(rest, apply, next), status);
      }
    }
  }

  // ---------- fetch against fetchAll ----------

  /** fetch keeps the one result and stops; fetchAll keeps them all. */
  function FetchOne<V>(context: seq<Delivery<V>>, d: Delivery<V>): (seq<Delivery<V>>, bool) {
    (context + [d], false)
  }

  function FetchEach<V>(context: seq<Delivery<V>>, d: Delivery<V>): (seq<Delivery<V>>, bool) {
    (context + [d], true)
  }

  /** What a call returns: its results, or false (here None) when its status is an error. */
  function Returned<V>(o: Outcome<seq<Delivery<V>>, V>): Option<seq<Delivery<V>>> {
    if IsError(o.status, true) then None else Some(o.context)
  }

  function Fetch<V>(events: seq<Event<V>>): Outcome<seq<Delivery<V>>, V> {
    Run(events, FetchOne, true, [], Success)
  }

  function FetchAll<V>(events: seq<Event<V>>): Outcome<seq<Delivery<V>>, V> {
    Run(events, FetchEach, false, [], Success)
  }

  /** `n` calls of fetch and the results they return together; None as soon as one of them returns false. */
  function Fetches<V>(events: seq<Event<V>>, n: nat): Option<seq<Delivery<V>>>
    decreases n
  {
    if n == 0 then Some([])
    else
      match Returned(Fetch(events))
      case None => None
      case Some(first) =>
        match Fetches(Fetch(events).rest, n - 1)
        case None => None
        case Some(more) => Some(first + more)
  }

  lemma {:induction false} FetchAllReturns<V>(events: seq<Event<V>>, context: seq<Delivery<V>>, status: Rc)
    ensures Run(events, FetchEach, false, context, status).context == context + Deliverable(events)
    decreases |events|
  {
    if events == [] || events[0].Nothing? {
      assert context + [] == context;
    } else {
      var rest := events[1..];
      var now := if IsError(events[0].rc, false) then events[0].rc else status;
      if events[0].decodable {
        FetchAllReturns(rest, context + [events[0].delivery], now);
        assert context + [events[0].delivery] + Deliverable(rest) == context + ([events[0].delivery] + Deliverable(rest));
      } else {
        FetchAllReturns(rest, context, SomeErrors);
      }
    }
  }

  lemma {:induction false} FetchReturns<V>(events: seq<Event<V>>, status: Rc)
    ensures var one := Run(events, FetchOne, true, [], status);
            if Deliverable(events) == [] then one.context == []
            else one.context == [Deliverable(events)[0]] && Deliverable(one.rest) == Deliverable(events)[1..]
    decreases |events|
  {
    if events != [] && events[0].Result? {
      var now := if IsError(events[0].rc, false) then events[0].rc else status;
      if events[0].decodable {
        assert [] + [events[0].delivery] == [events[0].delivery];
      } else {
        FetchReturns(events[1..], SomeErrors);
      }
    }
  }

  lemma {:induction false} FetchRestClean<V>(events: seq<Event<V>>, status: Rc)
    requires Clean(events)
    ensures Clean(Run(events, FetchOne, true, [], status).rest)
    decreases |events|
  {
    if events != [] {
      assert CleanEvent(events[0]) && Clean(events[1..]);
    }
  }

  /** On a stream without errors, fetch called once per result returns just what one fetchAll does: every result, in order. */
  lemma FetchesMatchFetchAll<V>(events: seq<Event<V>>)
    requires Clean(events)
    ensures Returned(FetchAll(events)) == Some(Deliverable(events))
    ensures Fetches(events, |Deliverable(events)|) == Some(Deliverable(events))
  {
    FetchAllReturns(events, [], Success);
    assert [] + Deliverable(events) == Deliverable(events);
    StatusExact(events, FetchEach, false, [], Success);
    CleanSeen(events, FetchEach, []);
    FetchesReturn(events);
  }

  lemma {:induction false} FetchesReturn<V>(events: seq<Event<V>>)
    requires Clean(events)
    ensures Fetches(events, |Deliverable(events)|) == Some(Deliverable(events))
    decreases |Deliverable(events)|
  {
    var items := Deliverable(events);
    if items != [] {
      FetchReturns(events, Success);
      FetchRestClean(events, Success);
      StatusExact(events, FetchOne, true, [], Success);
      CleanSeen(events, FetchOne, []);
      FetchesReturn(Fetch(events).rest);
      assert items == [items[0]] + items[1..];
    }
  }

  /** Where the first decodable result is. */
  function FirstDecodable<V>(events: seq<Event<V>>): (n: nat)
    requires Deliverable(events) != []
    ensures n < |events| && events[n].Result? && events[n].decodable && events[n].delivery == Deliverable(events)[0]
  {
    if events[0].decodable then 0 else 1 + FirstDecodable(events[1..])
  }

  lemma {:induction false} FetchSees<V>(events: seq<Event<V>>, status: Rc)
    requires Deliverable(events) != []
    ensures var n := FirstDecodable(events);
            && Seen(events, FetchOne, []) == events[..n + 1]
            && Run(events, FetchOne, true, [], status).rest == events[n + 1..]
    decreases |events|
  {
    var n := FirstDecodable(events);
    if events[0].decodable {
      assert events[..1] == [events[0]];
    } else {
      FetchSees(events[1..], SomeErrors);
      assert events[..n + 1] == [events[0]] + events[1..][..n];
      assert events[1..][n..] == events[n + 1..];
    }
  }

  /**
   With a decodable result on the stream, fetch takes everything up to it off the stream, and
   returns it if and only if all of that was decodable and free of errors; otherwise it is lost.
   */
  lemma FetchKeepsIffClean<V>(events: seq<Event<V>>)
    requires Deliverable(events) != []
    ensures var n := FirstDecodable(events);
            && Fetch(events).rest == events[n + 1..]
            && Returned(Fetch(events)) == if Clean(events[..n + 1]) then Some([events[n].delivery]) else None
  {
    FetchSees(events, Success);
    FetchReturns(events, Success);
    StatusExact(events, FetchOne, true, [], Success);
  }

  /**
   With an undecodable result in front, the decodable one after it is taken off the stream by
   fetch and lost: the call returns false.
   */
  lemma UndecodableHidesNext<V>(bad: Delivery<V>, good: Delivery<V>, rest: seq<Event<V>>)
    ensures var events := [Result(Success, false, bad), Result(Success, true, good)] + rest;
            Returned(Fetch(events)) == None && Fetch(events).rest == rest
  {
    var events := [Result(Success, false, bad), Result(Success, true, good)] + rest;
    var tail := events[1..];
    assert tail[0] == Result(Success, true, good) && tail[1..] == rest;
    assert Fetch(events) == Run(tail, FetchOne, true, [], SomeErrors);
  }
}
