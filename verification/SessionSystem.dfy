/**
 Many clients running the handlers against one server. The server's side is a sequence of stores,
 the clients' side the logs of their handlers; whatever the interleaving, they make a run of the
 protocol, so what holds for runs holds for the handlers.
 */
module SessionSystem {
  import opened Basics
  import opened SessionProtocol
  import opened SessionHandler

  /** What client `c` did among `steps`. */
  function OpsOf(steps: seq<Step>, c: nat): seq<Op> {
    if steps == [] then []
    else
      var front, last := steps[..|steps| - 1], steps[|steps| - 1];
      if ActsFor(last, c) then OpsOf(front, c) + [last.op] else OpsOf(front, c)
  }

  /** The ids client `c` tried among `steps`. */
  function CreatesOf(steps: seq<Step>, c: nat): seq<Created> {
    if steps == [] then []
    else
      var front, last := steps[..|steps| - 1], steps[|steps| - 1];
      if last.CreateSid? && last.client == c then CreatesOf(front, c) + [Created(last.sid, last.reply)] else CreatesOf(front, c)
  }

  /** Where its own operations have taken client `c`. */
  function PcOf(steps: seq<Step>, c: nat): Option<Pc> {
    Drive(Idle, OpsOf(steps, c))
  }

  /** The server, holding `store`, can answer `step` as it does. */
  predicate Answers(n: nat, store: map<string, string>, step: Step) {
    match step
    case Act(c, op, _) => c < n && OpEnabled(store, op)
    case CreateSid(c, sid, reply, _) => c < n && ValidSid(sid) && AddAnswer(sid in store, reply)
    case ExpireData(sid) => ValidSid(sid)
    case ExpireLock(_) => true
  }

  ghost predicate Served(n: nat, stores: seq<map<string, string>>, steps: seq<Step>) {
    && |stores| == |steps| + 1
    && forall k :: 0 <= k < |steps| ==>
         Answers(n, stores[k], steps[k]) && stores[k + 1] == StoreAfterStep(stores[k], steps[k])
  }

  /** No lock entry that a client holds, as far as its own operations tell, expires in the first `k` steps. */
  ghost predicate Steady(n: nat, steps: seq<Step>, k: nat)
    requires k <= |steps|
  {
    forall i, c :: 0 <= i < k && 0 <= c < n && steps[i].ExpireLock? && PcOf(steps[..i], c).Some? ==>
      !Holds(PcOf(steps[..i], c).value, steps[i].sid)
  }

  /** What the handlers of one client have logged. */
  datatype ClientLog = ClientLog(ops: seq<Op>, created: seq<Created>)

  /** What each client did is the beginning of the logs its handlers write. */
  ghost predicate Logged(logs: seq<ClientLog>, steps: seq<Step>) {
    forall c :: 0 <= c < |logs| ==>
      && OpsOf(steps, c) <= logs[c].ops && Drive(Idle, logs[c].ops).Some?
      && CreatesOf(steps, c) <= logs[c].created
  }

  ghost predicate OnProtocol(n: nat, steps: seq<Step>) {
    forall c :: 0 <= c < n ==> PcOf(steps, c).Some?
  }

  ghost predicate Matches(n: nat, store: map<string, string>, steps: seq<Step>, s: State) {
    s.store == store && |s.clients| == n && forall c :: 0 <= c < n ==> PcOf(steps, c) == Some(s.clients[c].pc)
  }

  lemma LoggedOnProtocol(logs: seq<ClientLog>, steps: seq<Step>)
    requires Logged(logs, steps)
    ensures OnProtocol(|logs|, steps)
  {
    forall c | 0 <= c < |logs|
      ensures PcOf(steps, c).Some?
    {
      DrivePrefix(Idle, OpsOf(steps, c), logs[c].ops);
    }
  }

  lemma NextPc(front: seq<Step>, step: Step, c: nat)
    ensures PcOf(front + [step], c) ==
            if !ActsFor(step, c) then PcOf(front, c)
            else match PcOf(front, c) { case None => None case Some(pc) => Advance(pc, step.op) }
  {
    assert (front + [step])[..|front|] == front;
    if ActsFor(step, c) {
      DriveSnoc(Idle, OpsOf(front, c), step.op);
    }
  }

  /** One more step: the protocol allows it, and its effect is the one observed. */
  lemma NextMatches(n: nat, store: map<string, string>, front: seq<Step>, step: Step, s: State)
    requires Matches(n, store, front, s) && Answers(n, store, step)
    requires OnProtocol(n, front + [step])
    ensures Enabled(s, step) && Matches(n, StoreAfterStep(store, step), front + [step], Apply(s, step))
  {
    hide Advance, StoreAfterStep, StoreAfter, PcOf, OpEnabled;
    forall c | 0 <= c < n
      ensures PcOf(front + [step], c).Some?
      ensures PcOf(front + [step], c) == if ActsFor(step, c) then Advance(s.clients[c].pc, step.op) else Some(s.clients[c].pc)
    {
      NextPc(front, step, c);
    }
  }

  /** `states` is a run of the protocol with the observed stores and the clients where their logs take them. */
  ghost predicate Tracks(n: nat, stores: seq<map<string, string>>, steps: seq<Step>, states: seq<State>) {
    && IsRun(states, steps) && |stores| == |states| == |steps| + 1
    && forall k :: 0 <= k <= |steps| ==> Matches(n, stores[k], steps[..k], states[k])
  }

  lemma Start(n: nat, store: map<string, string>) returns (states: seq<State>)
    ensures Tracks(n, [store], [], states)
  {
    states := [State(store, seq(n, _ => Client(Idle, "")))];
  }

  lemma TrackNext(n: nat, stores: seq<map<string, string>>, front: seq<Step>, states: seq<State>, step: Step)
    requires Tracks(n, stores, front, states) && Enabled(states[|front|], step)
    requires Matches(n, StoreAfterStep(stores[|front|], step), front + [step], Apply(states[|front|], step))
    ensures Tracks(n, stores + [StoreAfterStep(stores[|front|], step)], front + [step], states + [Apply(states[|front|], step)])
  {
    hide Enabled, Apply, Matches, StoreAfterStep, Initial;
    var steps := front + [step];
    forall k | 0 <= k <= |steps|
      ensures steps[..k] == if k == |steps| then steps else front[..k]
    {
    }
  }

  /** Any interleaving of logs that the server can answer is a run of the protocol. */
  lemma {:induction false} RunOf(n: nat, stores: seq<map<string, string>>, steps: seq<Step>) returns (states: seq<State>)
    requires Served(n, stores, steps) && OnProtocol(n, steps)
    ensures Tracks(n, stores, steps, states)
    decreases |steps|
  {
    hide Matches, OnProtocol, IsRun, Answers, Enabled;
    if steps == [] {
      assert stores == [stores[0]];
      states := Start(n, stores[0]);
    } else {
      var m := |steps| - 1;
      var front, last := steps[..m], steps[m];
      assert front + [last] == steps;
      FrontServed(n, stores, steps);
      states := RunOf(n, stores[..m + 1], front);
      assert front[..m] == front;
      NextMatches(n, stores[m], front, last, states[m]);
      TrackNext(n, stores[..m + 1], front, states, last);
      assert stores[..m + 1] + [stores[m + 1]] == stores;
      states := states + [Apply(states[m], last)];
    }
  }

  lemma FrontServed(n: nat, stores: seq<map<string, string>>, steps: seq<Step>)
    requires Served(n, stores, steps) && OnProtocol(n, steps) && steps != []
    ensures var m := |steps| - 1;
            Served(n, stores[..m + 1], steps[..m]) && OnProtocol(n, steps[..m])
  {
    hide Answers, PcOf;
    var m := |steps| - 1;
    forall k | 0 <= k < m
      ensures steps[..m][..k] == steps[..k]
    {
    }
    forall c | 0 <= c < n
      ensures PcOf(steps[..m], c).Some?
    {
      NextPc(steps[..m], steps[m], c);
      assert steps[..m] + [steps[m]] == steps;
    }
  }

  lemma SteadyUndisturbed(n: nat, stores: seq<map<string, string>>, steps: seq<Step>, states: seq<State>, k: nat)
    requires Tracks(n, stores, steps, states) && k <= |steps| && Steady(n, steps, k)
    ensures Undisturbed(states, steps, k)
  {
    hide IsRun, PcOf;
    forall i | 0 <= i < k
      ensures !ExpiresHeld(states[i], steps[i])
    {
      assert Matches(n, stores[i], steps[..i], states[i]);
    }
  }

  // ---------- what this means for the handlers ----------

  /**
   At every point of every interleaving of handler logs in which no held lock expired so far, at most
   one client owns the lock of a session, and its entry is on the server.
   */
  lemma HandlersExclude(logs: seq<ClientLog>, stores: seq<map<string, string>>, steps: seq<Step>, k: nat, c: nat, d: nat, sid: string)
    requires Served(|logs|, stores, steps) && Logged(logs, steps) && k <= |steps| && Steady(|logs|, steps, k)
    requires c < |logs| && d < |logs|
    requires PcOf(steps[..k], c).Some? && Holds(PcOf(steps[..k], c).value, sid)
    requires PcOf(steps[..k], d).Some? && Holds(PcOf(steps[..k], d).value, sid)
    ensures c == d && LockKey(sid) in stores[k]
  {
    LoggedOnProtocol(logs, steps);
    var states := RunOf(|logs|, stores, steps);
    SteadyUndisturbed(|logs|, stores, steps, states, k);
    hide PcOf, IsRun, Undisturbed, Steady;
    assert Matches(|logs|, stores[k], steps[..k], states[k]);
    MutualExclusion(states, steps, k, c, d, sid);
  }

  /** Between a locked READ and the same client's next operation the server keeps what was read, and nobody else writes or destroys it. */
  lemma HandlersLoseNothing(logs: seq<ClientLog>, stores: seq<map<string, string>>, steps: seq<Step>, c: nat, sid: string, v: string, i: nat, j: nat)
    requires Served(|logs|, stores, steps) && Logged(logs, steps) && i < j <= |steps| && c < |logs| && Steady(|logs|, steps, j)
    requires steps[i].Act? && steps[i].client == c && steps[i].op == GetData(sid, true, v)
    requires forall k :: i < k < j ==> !ActsFor(steps[k], c) && steps[k] != ExpireData(sid)
    ensures Content(stores[j], sid) == v
    ensures forall k :: i < k < j ==> !TouchesData(steps[k], sid)
  {
    LoggedOnProtocol(logs, steps);
    var states := RunOf(|logs|, stores, steps);
    SteadyUndisturbed(|logs|, stores, steps, states, j);
    hide PcOf, IsRun, Undisturbed, Steady;
    assert Matches(|logs|, stores[j], steps[..j], states[j]);
    NoLostUpdate(states, steps, c, sid, v, i, j);
  }

  /** The step at which client `c` made its `m`-th attempt at an id. */
  lemma {:induction false} StepOfCreate(steps: seq<Step>, c: nat, m: nat) returns (i: nat)
    requires m < |CreatesOf(steps, c)|
    ensures i < |steps| && steps[i].CreateSid? && steps[i].client == c
    ensures Created(steps[i].sid, steps[i].reply) == CreatesOf(steps, c)[m]
    ensures |CreatesOf(steps[..i], c)| == m
    decreases |steps|
  {
    var front := steps[..|steps| - 1];
    if m < |CreatesOf(front, c)| {
      i := StepOfCreate(front, c, m);
      assert front[..i] == steps[..i];
    } else {
      i := |steps| - 1;
    }
  }

  /** An id in a client's log with a successful add was not on the server before that add and was afterwards. */
  lemma HandedOutIsNew(logs: seq<ClientLog>, stores: seq<map<string, string>>, steps: seq<Step>, c: nat, m: nat) returns (i: nat)
    requires Served(|logs|, stores, steps) && Logged(logs, steps) && c < |logs|
    requires m < |CreatesOf(steps, c)| && logs[c].created[m].reply.Success?
    ensures i < |steps| && steps[i].CreateSid? && steps[i].client == c && |CreatesOf(steps[..i], c)| == m
    ensures Created(steps[i].sid, steps[i].reply) == logs[c].created[m]
    ensures logs[c].created[m].sid !in stores[i] && logs[c].created[m].sid in stores[i + 1]
  {
    i := StepOfCreate(steps, c, m);
    assert Answers(|logs|, stores[i], steps[i]) && stores[i + 1] == StoreAfterStep(stores[i], steps[i]);
    assert CreatesOf(steps, c)[m] == logs[c].created[m];
  }

  /** Two clients, or one client twice, are handed out one id only with its entry removed in between. */
  lemma HandedOutOnce(logs: seq<ClientLog>, stores: seq<map<string, string>>, steps: seq<Step>, c: nat, m: nat, d: nat, p: nat, sid: string)
    returns (i: nat, j: nat)
    requires Served(|logs|, stores, steps) && Logged(logs, steps) && c < |logs| && d < |logs| && (c != d || m != p)
    requires m < |CreatesOf(steps, c)| && logs[c].created[m] == Created(sid, Success)
    requires p < |CreatesOf(steps, d)| && logs[d].created[p] == Created(sid, Success)
    ensures i < |steps| && steps[i].CreateSid? && steps[i].client == c && |CreatesOf(steps[..i], c)| == m
    ensures j < |steps| && steps[j].CreateSid? && steps[j].client == d && |CreatesOf(steps[..j], d)| == p
    ensures exists k :: Min(i, j) < k < Max(i, j) && Removes(steps[k], sid)
  {
    i := HandedOutIsNew(logs, stores, steps, c, m);
    j := HandedOutIsNew(logs, stores, steps, d, p);
    LoggedOnProtocol(logs, steps);
    var states := RunOf(|logs|, stores, steps);
    hide IsRun, CreatesOf;
    FreshIds(states, steps, Min(i, j), Max(i, j));
  }
}
