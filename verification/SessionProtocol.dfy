/**
 The session lock protocol: any number of clients over one server, one server operation or
 local assignment at a time. A client's own program is the automaton Advance; the handlers in
 SessionHandler are proved to follow it.

 Assumptions: every client locks, and session ids contain no dot, so lock keys and data keys differ
 (Enabled). That a lock entry does not disappear by itself while a client holds it is a condition on
 runs (Undisturbed): exclusion holds under it and can be broken without it.
 */
module SessionProtocol {
  import opened Basics

  predicate ValidSid(sid: string) {
    forall k :: 0 <= k < |sid| ==> sid[k] != '.'
  }

  function LockKey(sid: string): string {
    "lock." + sid
  }

  lemma LockKeyFacts(a: string, b: string)
    ensures LockKey(a) == LockKey(b) ==> a == b
    ensures ValidSid(a) ==> a != LockKey(b)
  {
    assert LockKey(a)[5..] == a && LockKey(b)[5..] == b;
    assert LockKey(b)[4] == '.';
  }

  // ---------- one client ----------

  datatype Reply = Success | NotStored | DataExists | Failure

  /** One server operation with the answer the client sees, or one local assignment. */
  datatype Op =
    | AddLock(sid: string, reply: Reply)
    | GiveUp
    | MarkLocked
    | GetData(sid: string, ok: bool, value: string)
    | SetData(sid: string, value: string, ok: bool)
    | DeleteData(sid: string)
    | DeleteLock(sid: string)
    | ClearLocked

  /** Where a client is between operations. */
  datatype Pc =
    | Idle
    | Locking(sid: string)
    | Granted(sid: string)
    | Reading(sid: string)
    | Active(sid: string)
    | Stuck(sid: string)
    | Ended(sid: string)
    | Unlocked(sid: string)

  /** READ is locking, marking and reading; WRITE sets; DESTROY deletes and unlocks; CLOSE unlocks. */
  function Advance(pc: Pc, op: Op): Option<Pc> {
    match op
    case AddLock(sid, reply) =>
      if pc.Idle? || pc == Locking(sid) then Some(if reply.Success? then Granted(sid) else Locking(sid)) else None
    case GiveUp => if pc.Locking? then Some(Idle) else None
    case MarkLocked => if pc.Granted? then Some(Reading(pc.sid)) else None
    case GetData(sid, ok, _) => if pc == Reading(sid) then Some(if ok then Active(sid) else Stuck(sid)) else None
    case SetData(sid, _, _) => if pc == Active(sid) then Some(pc) else None
    case DeleteData(sid) => if pc == Active(sid) then Some(Ended(sid)) else None
    case DeleteLock(sid) =>
      if pc == Active(sid) || pc == Stuck(sid) || pc == Ended(sid) then Some(Unlocked(sid)) else None
    case ClearLocked => if pc.Unlocked? then Some(Idle) else None
  }

  /** The `is_locked` flag at each point: set after the add is answered, cleared after the delete is. */
  predicate IsLocked(pc: Pc) {
    pc.Reading? || pc.Active? || pc.Stuck? || pc.Ended? || pc.Unlocked?
  }

  /** From the add that took effect to the delete: the client owns the lock entry of its session. */
  predicate Holds(pc: Pc, sid: string) {
    pc == Granted(sid) || pc == Reading(sid) || pc == Active(sid) || pc == Stuck(sid) || pc == Ended(sid)
  }

  // ---------- the system ----------

  /** `view` is what the client last read or wrote under its session id. */
  datatype Client = Client(pc: Pc, view: string)

  datatype State = State(store: map<string, string>, clients: seq<Client>)

  /**
   `effect` says whether an operation reported as failed, or a delete, nevertheless took effect.
   Entries may also vanish by themselves (expiry or eviction).
   */
  datatype Step =
    | Act(client: nat, op: Op, effect: bool)
    | CreateSid(client: nat, sid: string, reply: Reply, effect: bool)
    | ExpireData(sid: string)
    | ExpireLock(sid: string)

  /** What a read of `sid` returns: a missing entry reads as the empty string. */
  function Content(store: map<string, string>, sid: string): string {
    if sid in store then store[sid] else ""
  }

  predicate AddAnswer(present: bool, reply: Reply) {
    match reply
    case Success => !present
    case NotStored => present
    case DataExists => present
    case Failure => true
  }

  /** The answers this store can give. */
  predicate OpEnabled(store: map<string, string>, op: Op) {
    match op
    case AddLock(sid, reply) => ValidSid(sid) && AddAnswer(LockKey(sid) in store, reply)
    case GetData(sid, ok, value) => ok ==> value == Content(store, sid)
    case _ => true
  }

  predicate Enabled(s: State, step: Step) {
    match step
    case Act(c, op, _) => c < |s.clients| && Advance(s.clients[c].pc, op).Some? && OpEnabled(s.store, op)
    case CreateSid(c, sid, reply, _) =>
      c < |s.clients| && ValidSid(sid) && AddAnswer(sid in s.store, reply)
    case ExpireData(sid) => ValidSid(sid)
    case ExpireLock(_) => true
  }

  function StoreAfter(store: map<string, string>, op: Op, effect: bool): map<string, string> {
    match op
    case AddLock(sid, reply) =>
      if reply.Success? || (reply.Failure? && effect && LockKey(sid) !in store) then store[LockKey(sid) := "1"] else store
    case SetData(sid, value, ok) => if ok || effect then store[sid := value] else store
    case DeleteData(sid) => if effect then store - {sid} else store
    case DeleteLock(sid) => if effect then store - {LockKey(sid)} else store
    case _ => store
  }

  function ViewAfter(view: string, op: Op, effect: bool): string {
    match op
    case GetData(_, ok, value) => if ok then value else view
    case SetData(_, value, ok) => if ok || effect then value else view
    case _ => view
  }

  function StoreAfterStep(store: map<string, string>, step: Step): map<string, string> {
    match step
    case Act(_, op, effect) => StoreAfter(store, op, effect)
    case CreateSid(_, sid, reply, effect) =>
      if reply.Success? || (reply.Failure? && effect && sid !in store) then store[sid := ""] else store
    case ExpireData(sid) => store - {sid}
    case ExpireLock(sid) => store - {LockKey(sid)}
  }

  function Apply(s: State, step: Step): (r: State)
    requires Enabled(s, step)
    ensures |r.clients| == |s.clients|
    ensures r.store == StoreAfterStep(s.store, step)
  {
    match step
    case Act(c, op, effect) =>
      var me := s.clients[c];
      State(StoreAfter(s.store, op, effect),
            s.clients[c := Client(Advance(me.pc, op).value, ViewAfter(me.view, op, effect))])
    case _ => s.(store := StoreAfterStep(s.store, step))
  }

  // ---------- runs ----------

  predicate Initial(s: State) {
    forall c :: 0 <= c < |s.clients| ==> s.clients[c].pc.Idle?
  }

  /** Every state of a run: the initial one and one more per step. */
  ghost predicate IsRun(states: seq<State>, steps: seq<Step>) {
    && |states| == |steps| + 1
    && Initial(states[0])
    && forall k :: 0 <= k < |steps| ==> Enabled(states[k], steps[k]) && states[k + 1] == Apply(states[k], steps[k])
  }

  /** A lock entry expires, or is evicted, under a client that holds it. */
  ghost predicate ExpiresHeld(s: State, step: Step) {
    step.ExpireLock? && exists c :: 0 <= c < |s.clients| && Holds(s.clients[c].pc, step.sid)
  }

  /** No held lock entry expires in the first `k` steps. */
  ghost predicate Undisturbed(states: seq<State>, steps: seq<Step>, k: nat)
    requires k <= |steps| < |states|
  {
    forall i :: 0 <= i < k ==> !ExpiresHeld(states[i], steps[i])
  }

  // ---------- what every step keeps ----------

  ghost predicate Exclusive(s: State) {
    forall c, d, sid :: 0 <= c < |s.clients| && 0 <= d < |s.clients| && Holds(s.clients[c].pc, sid) && Holds(s.clients[d].pc, sid) ==> c == d
  }

  ghost predicate HoldersStored(s: State) {
    forall c, sid :: 0 <= c < |s.clients| && Holds(s.clients[c].pc, sid) ==> LockKey(sid) in s.store && ValidSid(sid)
  }

  /** An active client still finds what it last read or wrote, unless the entry expired. */
  ghost predicate ViewsCurrent(s: State) {
    forall c :: 0 <= c < |s.clients| && s.clients[c].pc.Active? ==>
      Content(s.store, s.clients[c].pc.sid) == s.clients[c].view || Content(s.store, s.clients[c].pc.sid) == ""
  }

  ghost predicate Inv(s: State) {
    Exclusive(s) && HoldersStored(s) && ViewsCurrent(s)
  }

  /** While the entry is there, an operation does not turn a client into a holder. */
  lemma NoNewHolder(s: State, step: Step, sid: string)
    requires step.Act? && Enabled(s, step)
    requires LockKey(sid) in s.store && !Holds(s.clients[step.client].pc, sid)
    ensures !Holds(Apply(s, step).clients[step.client].pc, sid)
  {
  }

  lemma NoSecondHolder(s: State, step: Step, other: nat, sid: string)
    requires Exclusive(s) && HoldersStored(s) && step.Act? && Enabled(s, step)
    requires other < |s.clients| && other != step.client && Holds(s.clients[other].pc, sid)
    ensures !Holds(Apply(s, step).clients[step.client].pc, sid)
  {
    assert !Holds(s.clients[step.client].pc, sid);
    NoNewHolder(s, step, sid);
  }

  /** A client comes to hold a lock only by a successful add, and then no one else held it. */
  lemma ActKeepsExclusive(s: State, step: Step)
    requires Exclusive(s) && HoldersStored(s) && step.Act? && Enabled(s, step)
    ensures Exclusive(Apply(s, step))
  {
    var r := Apply(s, step);
    var me := step.client;
    forall other, sid | 0 <= other < |r.clients| && other != me && Holds(r.clients[other].pc, sid)
      ensures !Holds(r.clients[me].pc, sid) && Holds(s.clients[other].pc, sid)
    {
      assert r.clients[other] == s.clients[other];
      NoSecondHolder(s, step, other, sid);
    }
  }

  lemma ActKeepsStored(s: State, step: Step)
    requires Exclusive(s) && HoldersStored(s) && step.Act? && Enabled(s, step)
    ensures HoldersStored(Apply(s, step))
  {
    var r := Apply(s, step);
    forall c, sid | 0 <= c < |r.clients| && Holds(r.clients[c].pc, sid)
      ensures LockKey(sid) in r.store && ValidSid(sid)
    {
      if c == step.client {
        OwnEntryKept(s, step, sid);
      } else {
        assert Holds(s.clients[c].pc, sid);
        OtherEntryKept(s, step, c, sid);
      }
    }
  }

  lemma OwnEntryKept(s: State, step: Step, sid: string)
    requires HoldersStored(s) && step.Act? && Enabled(s, step)
    requires Holds(Apply(s, step).clients[step.client].pc, sid)
    ensures LockKey(sid) in Apply(s, step).store && ValidSid(sid)
  {
    if step.op.DeleteData? {
      LockKeyFacts(step.op.sid, sid);
      assert Holds(s.clients[step.client].pc, sid);
    }
  }

  lemma OtherEntryKept(s: State, step: Step, other: nat, sid: string)
    requires Exclusive(s) && HoldersStored(s) && step.Act? && Enabled(s, step)
    requires other < |s.clients| && other != step.client && Holds(s.clients[other].pc, sid)
    ensures LockKey(sid) in Apply(s, step).store && ValidSid(sid)
  {
    if step.op.DeleteData? {
      assert Holds(s.clients[step.client].pc, step.op.sid);
      LockKeyFacts(step.op.sid, sid);
    } else if step.op.DeleteLock? {
      assert Holds(s.clients[step.client].pc, step.op.sid);
      LockKeyFacts(step.op.sid, sid);
    }
  }

  lemma ActKeepsViews(s: State, step: Step)
    requires Inv(s) && step.Act? && Enabled(s, step)
    ensures ViewsCurrent(Apply(s, step))
  {
    var r := Apply(s, step);
    var me := step.client;
    forall c | 0 <= c < |r.clients| && r.clients[c].pc.Active?
      ensures Content(r.store, r.clients[c].pc.sid) == r.clients[c].view || Content(r.store, r.clients[c].pc.sid) == ""
    {
      var sid := r.clients[c].pc.sid;
      if c != me {
        assert Holds(s.clients[c].pc, sid);
        DataUntouched(s, step, c, sid);
      } else if step.op.GetData? {
        assert r.store == s.store;
      }
    }
  }

  /** No operation of another client changes the data of a session that `other` holds. */
  lemma DataUntouched(s: State, step: Step, other: nat, sid: string)
    requires Inv(s) && step.Act? && Enabled(s, step)
    requires other < |s.clients| && other != step.client && Holds(s.clients[other].pc, sid)
    ensures Content(Apply(s, step).store, sid) == Content(s.store, sid)
    ensures !((step.op.SetData? || step.op.DeleteData?) && step.op.sid == sid)
  {
    if step.op.SetData? || step.op.DeleteData? {
      assert Holds(s.clients[step.client].pc, step.op.sid);
    } else if step.op.AddLock? || step.op.DeleteLock? {
      LockKeyFacts(sid, step.op.sid);
    }
  }

  lemma EnvironmentKeepsInv(s: State, step: Step)
    requires Inv(s) && !step.Act? && Enabled(s, step) && !ExpiresHeld(s, step)
    ensures Inv(Apply(s, step))
  {
    var r := Apply(s, step);
    assert r.clients == s.clients;
    forall c, sid | 0 <= c < |r.clients| && Holds(r.clients[c].pc, sid)
      ensures LockKey(sid) in r.store && ValidSid(sid)
    {
      assert Holds(s.clients[c].pc, sid);
      LockKeyFacts(step.sid, sid);
    }
    forall c | 0 <= c < |r.clients| && r.clients[c].pc.Active?
      ensures Content(r.store, r.clients[c].pc.sid) == r.clients[c].view || Content(r.store, r.clients[c].pc.sid) == ""
    {
      assert Holds(s.clients[c].pc, s.clients[c].pc.sid);
      LockKeyFacts(s.clients[c].pc.sid, step.sid);
    }
  }

  lemma StepKeepsInv(s: State, step: Step)
    requires Inv(s) && Enabled(s, step) && !ExpiresHeld(s, step)
    ensures Inv(Apply(s, step))
  {
    if step.Act? {
      ActKeepsExclusive(s, step);
      ActKeepsStored(s, step);
      ActKeepsViews(s, step);
    } else {
      EnvironmentKeepsInv(s, step);
    }
  }

  lemma {:induction false} RunKeepsInv(states: seq<State>, steps: seq<Step>, k: nat)
    requires IsRun(states, steps) && k <= |steps| && Undisturbed(states, steps, k)
    ensures Inv(states[k])
    decreases k
  {
    if k > 0 {
      RunKeepsInv(states, steps, k - 1);
      StepKeepsInv(states[k - 1], steps[k - 1]);
    }
  }

  // ---------- what holds over whole runs ----------

  /** At every point of a run in which no held lock expired so far at most one client holds a session, and then its lock entry is on the server. */
  lemma MutualExclusion(states: seq<State>, steps: seq<Step>, k: nat, c: nat, d: nat, sid: string)
    requires IsRun(states, steps) && k <= |steps| && Undisturbed(states, steps, k)
    requires c < |states[k].clients| && d < |states[k].clients|
    requires Holds(states[k].clients[c].pc, sid) && Holds(states[k].clients[d].pc, sid)
    ensures c == d && LockKey(sid) in states[k].store
  {
    RunKeepsInv(states, steps, k);
  }

  /** Two clients can have `is_locked` set for one session only while one of them is past its delete. */
  lemma FlagExclusion(states: seq<State>, steps: seq<Step>, k: nat, c: nat, d: nat)
    requires IsRun(states, steps) && k <= |steps| && Undisturbed(states, steps, k)
    requires c < |states[k].clients| && d < |states[k].clients| && c != d
    requires IsLocked(states[k].clients[c].pc) && IsLocked(states[k].clients[d].pc)
    requires states[k].clients[c].pc.sid == states[k].clients[d].pc.sid
    ensures states[k].clients[c].pc.Unlocked? || states[k].clients[d].pc.Unlocked?
  {
    RunKeepsInv(states, steps, k);
    var sid := states[k].clients[c].pc.sid;
    if !states[k].clients[c].pc.Unlocked? && !states[k].clients[d].pc.Unlocked? {
      assert Holds(states[k].clients[c].pc, sid) && Holds(states[k].clients[d].pc, sid);
    }
  }

  /** A run can be continued by any step that is enabled. */
  lemma Append(states: seq<State>, steps: seq<Step>, step: Step)
    requires IsRun(states, steps) && Enabled(states[|steps|], step)
    ensures IsRun(states + [Apply(states[|steps|], step)], steps + [step])
  {
    hide Enabled, Apply, Initial;
  }

  lemma StartRun(s: State)
    requires Initial(s)
    ensures IsRun([s], [])
  {
  }

  /** The same for an operation of a client, with what it leaves spelled out. */
  lemma Grow(states: seq<State>, steps: seq<Step>, step: Step, store: map<string, string>, me: Client)
    returns (states': seq<State>, steps': seq<Step>)
    requires IsRun(states, steps) && |states| == |steps| + 1 && step.Act? && Enabled(states[|steps|], step)
    requires store == StoreAfter(states[|steps|].store, step.op, step.effect)
    requires var before := states[|steps|].clients[step.client];
             me == Client(Advance(before.pc, step.op).value, ViewAfter(before.view, step.op, step.effect))
    ensures IsRun(states', steps') && |steps'| == |steps| + 1 && |states'| == |steps'| + 1
    ensures states'[|steps'|] == State(store, states[|steps|].clients[step.client := me])
  {
    Append(states, steps, step);
    states', steps' := states + [State(store, states[|steps|].clients[step.client := me])], steps + [step];
  }

  /** One client of two locks and reads. */
  lemma Entering(sid: string) returns (states: seq<State>, steps: seq<Step>)
    requires ValidSid(sid)
    ensures IsRun(states, steps) && |steps| == 3 && |states| == 4
    ensures states[3] == State(map[LockKey(sid) := "1"], [Client(Active(sid), ""), Client(Idle, "")])
  {
    hide IsRun;
    var idle := Client(Idle, "");
    var held := map[LockKey(sid) := "1"];
    LockKeyFacts(sid, sid);
    states, steps := [State(map[], [idle, idle])], [];
    assert IsRun(states, steps) by {
      StartRun(states[0]);
    }
    states, steps := Grow(states, steps, Act(0, AddLock(sid, Success), true), held, Client(Granted(sid), ""));
    states, steps := Grow(states, steps, Act(0, MarkLocked, true), held, Client(Reading(sid), ""));
    states, steps := Grow(states, steps, Act(0, GetData(sid, true, ""), true), held, Client(Active(sid), ""));
  }

  /**
   The exception does occur: the flag is cleared after the delete is answered, so a second
   client can lock the session while the first still has its flag set.
   */
  lemma TwoFlags(sid: string) returns (states: seq<State>, steps: seq<Step>)
    requires ValidSid(sid)
    ensures IsRun(states, steps) && |steps| == 6 && |states| == 7 && |states[6].clients| == 2
    ensures states[6].clients[0].pc == Unlocked(sid) && states[6].clients[1].pc == Reading(sid)
  {
    states, steps := Entering(sid);
    hide IsRun;
    var held := map[LockKey(sid) := "1"];
    states, steps := Grow(states, steps, Act(0, DeleteLock(sid), true), map[], Client(Unlocked(sid), ""));
    states, steps := Grow(states, steps, Act(1, AddLock(sid, Success), true), held, Client(Granted(sid), ""));
    states, steps := Grow(states, steps, Act(1, MarkLocked, true), held, Client(Reading(sid), ""));
  }

  predicate ActsFor(step: Step, c: nat) {
    step.Act? && step.client == c
  }

  // ---------- exactly when the flag is not exclusive ----------

  /** Every client that is not idle is busy with a session id that has no dot. */
  ghost predicate SidsValid(s: State) {
    forall c :: 0 <= c < |s.clients| && !s.clients[c].pc.Idle? ==> ValidSid(s.clients[c].pc.sid)
  }

  lemma {:induction false} RunKeepsSids(states: seq<State>, steps: seq<Step>, k: nat)
    requires IsRun(states, steps) && k <= |steps|
    ensures SidsValid(states[k])
    decreases k
  {
    if k > 0 {
      RunKeepsSids(states, steps, k - 1);
    }
  }

  /** A longer run in which client `c` has done nothing more and no held lock expired any more. */
  ghost predicate Extends(states: seq<State>, steps: seq<Step>, states': seq<State>, steps': seq<Step>, c: nat) {
    && IsRun(states', steps') && states <= states' && steps <= steps'
    && forall k :: |steps| <= k < |steps'| ==> !ActsFor(steps'[k], c) && !ExpiresHeld(states'[k], steps'[k])
  }

  lemma Extend(states: seq<State>, steps: seq<Step>, mid: seq<State>, midSteps: seq<Step>, c: nat, step: Step)
    returns (states': seq<State>, steps': seq<Step>)
    requires Extends(states, steps, mid, midSteps, c)
    requires Enabled(mid[|midSteps|], step) && !ActsFor(step, c) && !ExpiresHeld(mid[|midSteps|], step)
    ensures Extends(states, steps, states', steps', c) && |states'| == |steps'| + 1
    ensures states'[|steps'|] == Apply(mid[|midSteps|], step)
  {
    hide Enabled, Apply, ExpiresHeld, ActsFor;
    Append(mid, midSteps, step);
    states', steps' := mid + [Apply(mid[|midSteps|], step)], midSteps + [step];
  }

  lemma {:induction false} ClientKept(states: seq<State>, steps: seq<Step>, c: nat, i: nat, j: nat)
    requires IsRun(states, steps) && i <= j <= |steps| && c < |states[i].clients|
    requires forall k :: i <= k < j ==> !ActsFor(steps[k], c)
    ensures c < |states[j].clients| && states[j].clients[c] == states[i].clients[c]
    decreases j
  {
    if i < j {
      ClientKept(states, steps, c, i, j - 1);
      assert states[j] == Apply(states[j - 1], steps[j - 1]);
    }
  }

  /** A client other than `c` owns the lock entry of `sid` and has its flag set. */
  ghost predicate FlaggedHolder(s: State, c: nat, sid: string, d: nat) {
    d < |s.clients| && d != c && IsLocked(s.clients[d].pc) && Holds(s.clients[d].pc, sid)
  }

  ghost predicate Shared(s: State, c: nat, sid: string) {
    exists d :: FlaggedHolder(s, c, sid, d)
  }

  lemma ExtendedUndisturbed(states: seq<State>, steps: seq<Step>, states': seq<State>, steps': seq<Step>, c: nat)
    requires IsRun(states, steps) && Undisturbed(states, steps, |steps|) && Extends(states, steps, states', steps', c)
    ensures Undisturbed(states', steps', |steps'|)
  {
    hide ExpiresHeld, Enabled, Apply;
    forall i | 0 <= i < |steps'|
      ensures !ExpiresHeld(states'[i], steps'[i])
    {
      if i < |steps| {
        assert states'[i] == states[i] && steps'[i] == steps[i];
      }
    }
  }

  /** While `c` owns the lock entry, nothing the others do gives it a companion. */
  lemma HolderStaysAlone(states: seq<State>, steps: seq<Step>, states': seq<State>, steps': seq<Step>, c: nat, sid: string)
    requires IsRun(states, steps) && Undisturbed(states, steps, |steps|) && Extends(states, steps, states', steps', c)
    requires c < |states[|steps|].clients| && Holds(states[|steps|].clients[c].pc, sid)
    ensures !Shared(states'[|steps'|], c, sid)
  {
    ClientKept(states', steps', c, |steps|, |steps'|);
    ExtendedUndisturbed(states, steps, states', steps', c);
    forall d | FlaggedHolder(states'[|steps'|], c, sid, d)
      ensures false
    {
      MutualExclusion(states', steps', |steps'|, c, d, sid);
    }
  }

  /** Once `c` is past its delete and the entry is gone, an idle client needs two steps to set its flag too. */
  lemma EntryGoneLetsIn(states: seq<State>, steps: seq<Step>, mid: seq<State>, midSteps: seq<Step>, c: nat, d: nat, sid: string)
    returns (states': seq<State>, steps': seq<Step>)
    requires Extends(states, steps, mid, midSteps, c) && ValidSid(sid)
    requires var s := mid[|midSteps|]; c < |s.clients| && d < |s.clients| && c != d && s.clients[d].pc.Idle? && LockKey(sid) !in s.store
    ensures Extends(states, steps, states', steps', c) && |states'| == |steps'| + 1
    ensures states'[|steps'|].clients == mid[|midSteps|].clients[d := Client(Reading(sid), mid[|midSteps|].clients[d].view)]
  {
    hide Extends;
    states', steps' := Extend(states, steps, mid, midSteps, c, Act(d, AddLock(sid, Success), true));
    states', steps' := Extend(states, steps, states', steps', c, Act(d, MarkLocked, true));
  }

  /** The other ways in: the entry's owner sets its flag, or the entry, owned by nobody, expires. */
  lemma UnlockedLetsIn(states: seq<State>, steps: seq<Step>, c: nat, d: nat, sid: string)
    returns (states': seq<State>, steps': seq<Step>)
    requires IsRun(states, steps) && |states| == |steps| + 1
    requires var s := states[|steps|]; c < |s.clients| && d < |s.clients| && c != d && s.clients[d].pc.Idle? && s.clients[c].pc == Unlocked(sid)
    ensures Extends(states, steps, states', steps', c) && |states'| == |steps'| + 1
    ensures Shared(states'[|steps'|], c, sid)
  {
    var s := states[|steps|];
    RunKeepsSids(states, steps, |steps|);
    assert ValidSid(s.clients[c].pc.sid);
    assert Extends(states, steps, states, steps, c);
    hide IsRun, Extends;
    states', steps' := states, steps;
    if e :| 0 <= e < |s.clients| && Holds(s.clients[e].pc, sid) {
      if s.clients[e].pc.Granted? {
        states', steps' := Extend(states, steps, states, steps, c, Act(e, MarkLocked, true));
      }
      assert FlaggedHolder(states'[|steps'|], c, sid, e);
    } else {
      if LockKey(sid) in s.store {
        states', steps' := Extend(states, steps, states, steps, c, ExpireLock(sid));
      }
      states', steps' := EntryGoneLetsIn(states, steps, states', steps', c, d, sid);
      assert FlaggedHolder(states'[|steps'|], c, sid, d);
    }
  }

  ghost predicate CanBeShared(states: seq<State>, steps: seq<Step>, c: nat, sid: string) {
    exists states', steps' :: Extends(states, steps, states', steps', c) && |states'| == |steps'| + 1 && Shared(states'[|steps'|], c, sid)
  }

  /**
   While a client has its flag set and another is idle, and no held lock expires, the run can go on,
   without the first client doing anything, to another client owning the same session with its flag set if and only if the
   first is past its delete.
   */
  lemma FlagSharedIff(states: seq<State>, steps: seq<Step>, c: nat, d: nat)
    requires IsRun(states, steps) && Undisturbed(states, steps, |steps|)
    requires c < |states[|steps|].clients| && d < |states[|steps|].clients| && c != d
    requires IsLocked(states[|steps|].clients[c].pc) && states[|steps|].clients[d].pc.Idle?
    ensures CanBeShared(states, steps, c, states[|steps|].clients[c].pc.sid) <==> states[|steps|].clients[c].pc.Unlocked?
  {
    var pc := states[|steps|].clients[c].pc;
    if pc.Unlocked? {
      var states', steps' := UnlockedLetsIn(states, steps, c, d, pc.sid);
    } else if CanBeShared(states, steps, c, pc.sid) {
      var states', steps' :| Extends(states, steps, states', steps', c) && |states'| == |steps'| + 1 && Shared(states'[|steps'|], c, pc.sid);
      HolderStaysAlone(states, steps, states', steps', c, pc.sid);
    }
  }

  // ---------- when a lock expires under its holder ----------

  /** A run that goes on with `step`, and in which no held lock expires after that. */
  ghost predicate GoesOn(states: seq<State>, steps: seq<Step>, step: Step, states': seq<State>, steps': seq<Step>) {
    && IsRun(states', steps') && states <= states' && steps + [step] <= steps'
    && forall k :: |steps| < k < |steps'| ==> !ExpiresHeld(states'[k], steps'[k])
  }

  ghost predicate CanBreakExclusion(states: seq<State>, steps: seq<Step>, step: Step) {
    exists states', steps' :: GoesOn(states, steps, step, states', steps') && |states'| == |steps'| + 1 && !Exclusive(states'[|steps'|])
  }

  /** A run that goes on with an expiry that hits no holder is undisturbed as a whole. */
  lemma GoesOnUndisturbed(states: seq<State>, steps: seq<Step>, step: Step, states': seq<State>, steps': seq<Step>)
    requires IsRun(states, steps) && Undisturbed(states, steps, |steps|) && !ExpiresHeld(states[|steps|], step)
    requires GoesOn(states, steps, step, states', steps')
    ensures Undisturbed(states', steps', |steps'|)
  {
    hide ExpiresHeld, Enabled, Apply;
    forall i | 0 <= i < |steps'|
      ensures !ExpiresHeld(states'[i], steps'[i])
    {
      if i <= |steps| {
        assert states'[i] == states[i] && steps'[i] == (steps + [step])[i];
      }
    }
  }

  /** Under the holder's nose: the entry expires, and an idle client takes it. */
  lemma ExpiryLetsIn(states: seq<State>, steps: seq<Step>, c: nat, d: nat, sid: string)
    returns (states': seq<State>, steps': seq<Step>)
    requires IsRun(states, steps) && |states| == |steps| + 1 && ValidSid(sid)
    requires c < |states[|steps|].clients| && Holds(states[|steps|].clients[c].pc, sid)
    requires d < |states[|steps|].clients| && states[|steps|].clients[d].pc.Idle?
    ensures IsRun(states', steps') && |states'| == |steps'| + 1
    ensures steps' == steps + [ExpireLock(sid), Act(d, AddLock(sid, Success), true)]
    ensures GoesOn(states, steps, ExpireLock(sid), states', steps')
    ensures var s, r := states[|steps|], states'[|steps'|];
            && |r.clients| == |s.clients| && r.clients[c] == s.clients[c] && r.clients[d].pc == Granted(sid)
            && r.store == s.store[LockKey(sid) := "1"]
  {
    var s := states[|steps|];
    var expiry, add := ExpireLock(sid), Act(d, AddLock(sid, Success), true);
    var mid := Apply(s, expiry);
    Append(states, steps, expiry);
    Append(states + [mid], steps + [expiry], add);
    states', steps' := states + [mid] + [Apply(mid, add)], steps + [expiry] + [add];
    assert Apply(mid, add).store == s.store[LockKey(sid) := "1"];
  }

  /**
   Exclusion rests on that assumption exactly: after an undisturbed run in which some client is idle,
   the expiry of a lock entry lets two clients come to hold one session, with no further such
   accident, if and only if a client held the entry.
   */
  lemma ExpiryBreaksIff(states: seq<State>, steps: seq<Step>, sid: string, d: nat)
    requires IsRun(states, steps) && Undisturbed(states, steps, |steps|)
    requires d < |states[|steps|].clients| && states[|steps|].clients[d].pc.Idle?
    ensures CanBreakExclusion(states, steps, ExpireLock(sid)) <==> ExpiresHeld(states[|steps|], ExpireLock(sid))
  {
    var s := states[|steps|];
    if ExpiresHeld(s, ExpireLock(sid)) {
      var c :| 0 <= c < |s.clients| && Holds(s.clients[c].pc, sid);
      RunKeepsInv(states, steps, |steps|);
      var states', steps' := ExpiryLetsIn(states, steps, c, d, sid);
      assert Holds(states'[|steps'|].clients[c].pc, sid) && Holds(states'[|steps'|].clients[d].pc, sid);
    } else if CanBreakExclusion(states, steps, ExpireLock(sid)) {
      var states', steps' :| GoesOn(states, steps, ExpireLock(sid), states', steps') && |states'| == |steps'| + 1 && !Exclusive(states'[|steps'|]);
      GoesOnUndisturbed(states, steps, ExpireLock(sid), states', steps');
      RunKeepsInv(states', steps', |steps'|);
    }
  }

  /** And the first client's unlock, which does not ask whose entry it is, removes that of the second. */
  lemma ForeignDelete(states: seq<State>, steps: seq<Step>, c: nat, d: nat, sid: string)
    returns (states': seq<State>, steps': seq<Step>)
    requires IsRun(states, steps) && |states| == |steps| + 1 && ValidSid(sid)
    requires var s := states[|steps|]; c < |s.clients| && d < |s.clients| && s.clients[d].pc.Idle?
    requires var pc := states[|steps|].clients[c].pc; pc == Active(sid) || pc == Stuck(sid) || pc == Ended(sid)
    ensures IsRun(states', steps') && |states'| == |steps'| + 1
    ensures steps' == steps + [ExpireLock(sid), Act(d, AddLock(sid, Success), true), Act(c, DeleteLock(sid), true)]
    ensures var r := states'[|steps'|];
            && |r.clients| == |states[|steps|].clients| && r.clients[d].pc == Granted(sid) && r.clients[c].pc == Unlocked(sid)
            && LockKey(sid) !in r.store
  {
    states', steps' := ExpiryLetsIn(states, steps, c, d, sid);
    var s, step := states'[|steps'|], Act(c, DeleteLock(sid), true);
    assert Apply(s, step).store == s.store - {LockKey(sid)};
    Append(states', steps', step);
    hide IsRun;
    states', steps' := states' + [Apply(s, step)], steps' + [step];
  }

  /** Such a run from the start: the second client holds the session, and its entry is gone. */
  lemma ForeignDeleteRun(sid: string) returns (states: seq<State>, steps: seq<Step>)
    requires ValidSid(sid)
    ensures IsRun(states, steps) && |steps| == 6 && |states| == 7 && |states[6].clients| == 2
    ensures steps[5] == Act(0, DeleteLock(sid), true)
    ensures states[6].clients[1].pc == Granted(sid) && LockKey(sid) !in states[6].store
  {
    states, steps := Entering(sid);
    hide IsRun;
    states, steps := ForeignDelete(states, steps, 0, 1, sid);
  }

  // ---------- no lost update ----------

  ghost predicate TouchesData(step: Step, sid: string) {
    step.Act? && (step.op.SetData? || step.op.DeleteData?) && step.op.sid == sid
  }

  /** Nothing but expiry changes what a session reads as while another client is active in it. */
  lemma QuietStep(s: State, step: Step, c: nat, sid: string)
    requires Inv(s) && Enabled(s, step)
    requires c < |s.clients| && s.clients[c].pc == Active(sid) && !ActsFor(step, c)
    requires step != ExpireData(sid)
    ensures Apply(s, step).clients[c] == s.clients[c]
    ensures Content(Apply(s, step).store, sid) == Content(s.store, sid) && !TouchesData(step, sid)
  {
    assert Holds(s.clients[c].pc, sid);
    if step.Act? {
      DataUntouched(s, step, c, sid);
    } else {
      LockKeyFacts(sid, step.sid);
    }
  }

  /**
   No lost update: from a locked READ that returned `v` up to the client's own next operation, no
   client writes or destroys the session, so unless the entry expires the next WRITE replaces `v`.
   */
  lemma {:induction false} NoLostUpdate(states: seq<State>, steps: seq<Step>, c: nat, sid: string, v: string, i: nat, j: nat)
    requires IsRun(states, steps) && i < j <= |steps| && Undisturbed(states, steps, j)
    requires steps[i].Act? && steps[i].client == c && steps[i].op == GetData(sid, true, v)
    requires forall k :: i < k < j ==> !ActsFor(steps[k], c) && steps[k] != ExpireData(sid)
    ensures c < |states[j].clients| && states[j].clients[c] == Client(Active(sid), v)
    ensures Content(states[j].store, sid) == v
    ensures forall k :: i < k < j ==> !TouchesData(steps[k], sid)
    decreases j
  {
    if j == i + 1 {
      assert states[j] == Apply(states[i], steps[i]);
    } else {
      NoLostUpdate(states, steps, c, sid, v, i, j - 1);
      RunKeepsInv(states, steps, j - 1);
      QuietStep(states[j - 1], steps[j - 1], c, sid);
    }
  }

  /** And that WRITE does replace it: just before it the session reads as what the client read, just after as what it wrote. */
  lemma ReadThenWrite(states: seq<State>, steps: seq<Step>, c: nat, sid: string, v: string, w: string, i: nat, j: nat, effect: bool)
    requires IsRun(states, steps) && i < j < |steps| && Undisturbed(states, steps, j)
    requires steps[i].Act? && steps[i].client == c && steps[i].op == GetData(sid, true, v)
    requires forall k :: i < k < j ==> !ActsFor(steps[k], c) && steps[k] != ExpireData(sid)
    requires steps[j] == Act(c, SetData(sid, w, true), effect)
    ensures Content(states[j].store, sid) == v && Content(states[j + 1].store, sid) == w
  {
    NoLostUpdate(states, steps, c, sid, v, i, j);
    assert states[j + 1] == Apply(states[j], steps[j]);
  }

  // ---------- fresh session ids ----------

  /** The only two ways a data entry leaves the server. */
  ghost predicate Removes(step: Step, sid: string) {
    step == ExpireData(sid) || (step.Act? && step.op == DeleteData(sid) && step.effect)
  }

  lemma EntryStays(s: State, step: Step, sid: string)
    requires Enabled(s, step) && ValidSid(sid) && sid in s.store && !Removes(step, sid)
    ensures sid in Apply(s, step).store
  {
    if step.Act? {
      if step.op.DeleteLock? {
        LockKeyFacts(sid, step.op.sid);
      }
    } else {
      LockKeyFacts(sid, step.sid);
    }
  }

  /** An id handed out was not on the server before and is afterwards. */
  lemma CreatedIdIsNew(s: State, step: Step)
    requires Enabled(s, step) && step.CreateSid? && step.reply.Success?
    ensures step.sid !in s.store && step.sid in Apply(s, step).store
  {
  }

  lemma {:induction false} EntryStaysFrom(states: seq<State>, steps: seq<Step>, sid: string, i: nat, j: nat)
    requires IsRun(states, steps) && i <= j <= |steps| && ValidSid(sid) && sid in states[i].store
    requires forall k :: i <= k < j ==> !Removes(steps[k], sid)
    ensures sid in states[j].store
    decreases j
  {
    if i < j {
      EntryStaysFrom(states, steps, sid, i, j - 1);
      EntryStays(states[j - 1], steps[j - 1], sid);
    }
  }

  /** The same id is never handed out twice while its entry stays on the server. */
  lemma FreshIds(states: seq<State>, steps: seq<Step>, i: nat, j: nat)
    requires IsRun(states, steps) && i < j < |steps|
    requires steps[i].CreateSid? && steps[i].reply.Success?
    requires steps[j].CreateSid? && steps[j].reply.Success? && steps[j].sid == steps[i].sid
    ensures exists k :: i < k < j && Removes(steps[k], steps[i].sid)
  {
    var sid := steps[i].sid;
    CreatedIdIsNew(states[i], steps[i]);
    CreatedIdIsNew(states[j], steps[j]);
    if forall k :: i + 1 <= k < j ==> !Removes(steps[k], sid) {
      EntryStaysFrom(states, steps, sid, i + 1, j);
      assert false;
    }
  }
}
