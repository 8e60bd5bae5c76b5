/**
 The session handlers as they run in one client: locking with backoff, READ, WRITE, DESTROY,
 CLOSE and CREATE_SID. Server answers come from an oracle, so every contract holds whatever the
 server does; each handler's operations are proved to be steps of the protocol's client.
 */
module SessionHandler {
  import opened Basics
  import opened SessionProtocol

  datatype Ini = Ini(lockEnabled: bool, waitMin: int, waitMax: int, retries: int)

  datatype GetAnswer = Found(value: string) | NotFound | GetError

  datatype ReadResult = ReadFailure | ReadOk(value: string)

  // ---------- what locking does ----------

  /** Whether the lock was obtained, how many adds were sent and how long each pause was. */
  datatype Attempted = Attempted(locked: bool, adds: nat, sleeps: seq<int>)

  predicate Contended(r: Reply) {
    r.NotStored? || r.DataExists?
  }

  /** A contended add is followed by a pause if another try is left; an error is not. */
  function PauseAfter(r: Reply, retries: int, wait: int): seq<int> {
    if Contended(r) && retries > 0 then [wait] else []
  }

  function WaitAfter(r: Reply, retries: int, wait: int, waitMax: int): int {
    if Contended(r) && retries > 0 then Min(waitMax, wait * 2) else wait
  }

  /** The retry loop, from its `k`-th server call on. */
  function Attempts(reply: nat -> Reply, k: nat, retries: int, wait: int, waitMax: int): (a: Attempted)
    ensures a.adds >= 1
    decreases Max(retries, 0)
  {
    var r := reply(k);
    if r.Success? || retries <= 0 then Attempted(r.Success?, 1, [])
    else
      var rest := Attempts(reply, k + 1, retries - 1, WaitAfter(r, retries, wait, waitMax), waitMax);
      Attempted(rest.locked, 1 + rest.adds, PauseAfter(r, retries, wait) + rest.sleeps)
  }

  lemma AttemptsStep(reply: nat -> Reply, k: nat, retries: int, wait: int, waitMax: int)
    ensures var r, a := reply(k), Attempts(reply, k, retries, wait, waitMax);
            if r.Success? || retries <= 0 then
              a == Attempted(r.Success?, 1, []) && PauseAfter(r, retries, wait) == []
            else
              var rest := Attempts(reply, k + 1, retries - 1, WaitAfter(r, retries, wait, waitMax), waitMax);
              a == Attempted(rest.locked, 1 + rest.adds, PauseAfter(r, retries, wait) + rest.sleeps)
  {
  }

  /** The lock is obtained by the first add that succeeds among the retries allowed, and by nothing else. */
  lemma {:induction false} AttemptsOutcome(reply: nat -> Reply, k: nat, retries: int, wait: int, waitMax: int)
    ensures var a := Attempts(reply, k, retries, wait, waitMax);
            && 1 <= a.adds <= Max(retries, 0) + 1
            && a.locked == reply(k + a.adds - 1).Success?
            && (forall i :: k <= i < k + a.adds - 1 ==> !reply(i).Success?)
            && (!a.locked ==> a.adds == Max(retries, 0) + 1)
            && |a.sleeps| <= Max(retries, 0)
    decreases Max(retries, 0)
  {
    var r := reply(k);
    if !r.Success? && retries > 0 {
      AttemptsOutcome(reply, k + 1, retries - 1, WaitAfter(r, retries, wait, waitMax), waitMax);
    }
  }

  function Pow2(n: nat): nat {
    if n == 0 then 1 else 2 * Pow2(n - 1)
  }

  /** Pause `i` of a contended wait: the minimum first, then doubling up to the maximum. */
  function Pause(waitMin: nat, waitMax: nat, i: nat): nat {
    if i == 0 then waitMin else Min(waitMax, waitMin * Pow2(i))
  }

  lemma NextPause(waitMin: nat, waitMax: nat, i: nat)
    ensures Min(waitMax, Pause(waitMin, waitMax, i) * 2) == Pause(waitMin, waitMax, i + 1)
  {
    assert waitMin * Pow2(i + 1) == 2 * (waitMin * Pow2(i));
  }

  /** How many of the `n` answers from the `k`-th on say that the entry is there. */
  function Taken(reply: nat -> Reply, k: nat, n: nat): (t: nat)
    ensures t <= n
    decreases n
  {
    if n == 0 then 0
    else (if reply(k) == NotStored || reply(k) == DataExists then 1 else 0) + Taken(reply, k + 1, n - 1)
  }

  /** Each pause after the first is twice the one before, up to the maximum. */
  predicate Doubling(sleeps: seq<int>, waitMax: int) {
    forall n :: 0 <= n < |sleeps| - 1 ==> sleeps[n + 1] == Min(waitMax, 2 * sleeps[n])
  }

  /**
   For every sequence of answers: one pause for each add but the last that found the entry there, none
   for an error, the first of the minimum and each later one doubled up to the maximum.
   */
  lemma {:induction false} SleepsExact(reply: nat -> Reply, k: nat, retries: int, wait: int, waitMax: int)
    ensures var a := Attempts(reply, k, retries, wait, waitMax);
            && |a.sleeps| == Taken(reply, k, a.adds - 1)
            && (a.sleeps != [] ==> a.sleeps[0] == wait)
            && Doubling(a.sleeps, waitMax)
    decreases Max(retries, 0)
  {
    AttemptsStep(reply, k, retries, wait, waitMax);
    if !reply(k).Success? && retries > 0 {
      var next := WaitAfter(reply(k), retries, wait, waitMax);
      SleepsExact(reply, k + 1, retries - 1, next, waitMax);
      hide Attempts;
      var rest := Attempts(reply, k + 1, retries - 1, next, waitMax);
      if Contended(reply(k)) {
        DoublingCons(wait, rest.sleeps, waitMax);
      } else {
        assert [] + rest.sleeps == rest.sleeps;
      }
    }
  }

  lemma DoublingCons(wait: int, rest: seq<int>, waitMax: int)
    requires Doubling(rest, waitMax) && (rest != [] ==> rest[0] == Min(waitMax, wait * 2))
    ensures Doubling([wait] + rest, waitMax)
  {
  }

  lemma {:induction false} ContendedFrom(reply: nat -> Reply, k: nat, retries: nat, waitMin: nat, waitMax: nat, i: nat)
    requires forall n :: k <= n <= k + retries ==> reply(n) == NotStored || reply(n) == DataExists
    ensures var a := Attempts(reply, k, retries, Pause(waitMin, waitMax, i), waitMax);
            && !a.locked && a.adds == retries + 1 && |a.sleeps| == retries
            && forall n :: 0 <= n < retries ==> a.sleeps[n] == Pause(waitMin, waitMax, i + n)
    decreases retries
  {
    assert Contended(reply(k));
    if retries > 0 {
      NextPause(waitMin, waitMax, i);
      ContendedFrom(reply, k + 1, retries - 1, waitMin, waitMax, i + 1);
      var rest := Attempts(reply, k + 1, retries - 1, Pause(waitMin, waitMax, i + 1), waitMax);
      var a := Attempts(reply, k, retries, Pause(waitMin, waitMax, i), waitMax);
      assert a.sleeps == [Pause(waitMin, waitMax, i)] + rest.sleeps;
      forall n | 0 <= n < retries
        ensures a.sleeps[n] == Pause(waitMin, waitMax, i + n)
      {
        if n > 0 {
          assert a.sleeps[n] == rest.sleeps[n - 1] == Pause(waitMin, waitMax, i + 1 + (n - 1));
        }
      }
    }
  }

  function Sum(s: seq<int>): int {
    if s == [] then 0 else s[0] + Sum(s[1..])
  }

  lemma {:induction false} SumBound(s: seq<int>, limit: int)
    requires forall n :: 0 <= n < |s| ==> s[n] <= limit
    ensures Sum(s) <= |s| * limit
  {
    if s != [] {
      SumBound(s[1..], limit);
      assert |s| * limit == limit + |s[1..]| * limit;
    }
  }

  /**
   When the lock is taken throughout: one add more than the retries, a pause before each retry,
   every pause as Pause says, and a total of at most the first plus the maximum for each other.
   */
  lemma BackoffExact(reply: nat -> Reply, k: nat, retries: nat, waitMin: nat, waitMax: nat)
    requires forall n :: k <= n <= k + retries ==> reply(n) == NotStored || reply(n) == DataExists
    ensures var a := Attempts(reply, k, retries, waitMin, waitMax);
            && !a.locked && a.adds == retries + 1 && |a.sleeps| == retries
            && (forall n :: 0 <= n < retries ==> a.sleeps[n] == Pause(waitMin, waitMax, n))
            && (retries >= 1 ==> Sum(a.sleeps) <= waitMin + (retries - 1) * waitMax)
  {
    hide Attempts, Pause;
    ContendedFrom(reply, k, retries, waitMin, waitMax, 0);
    FirstPause(waitMin, waitMax);
    if retries >= 1 {
      PauseTotal(Attempts(reply, k, retries, waitMin, waitMax).sleeps, waitMin, waitMax);
    }
  }

  lemma FirstPause(waitMin: nat, waitMax: nat)
    ensures Pause(waitMin, waitMax, 0) == waitMin
  {
  }

  lemma PauseTotal(sleeps: seq<int>, waitMin: nat, waitMax: nat)
    requires |sleeps| >= 1 && forall n :: 0 <= n < |sleeps| ==> sleeps[n] == Pause(waitMin, waitMax, n)
    ensures Sum(sleeps) <= waitMin + (|sleeps| - 1) * waitMax
  {
    var rest := sleeps[1..];
    forall n | 0 <= n < |rest|
      ensures rest[n] <= waitMax
    {
      assert rest[n] == sleeps[n + 1];
    }
    SumBound(rest, waitMax);
  }

  /** A negative retry count still sends one add, and never pauses. */
  lemma NegativeRetries(reply: nat -> Reply, k: nat, retries: int, waitMin: int, waitMax: int)
    requires retries <= 0
    ensures Attempts(reply, k, retries, waitMin, waitMax) == Attempted(reply(k).Success?, 1, [])
  {
  }

  // ---------- operations as the protocol sees them ----------

  function AddOps(sid: string, reply: nat -> Reply, k: nat, n: nat): (ops: seq<Op>)
    ensures |ops| == n
  {
    if n == 0 then [] else AddOps(sid, reply, k, n - 1) + [AddLock(sid, reply(k + n - 1))]
  }

  function SetOps(sid: string, value: string, reply: nat -> bool, k: nat, n: nat): (ops: seq<Op>)
    ensures |ops| == n
  {
    if n == 0 then [] else SetOps(sid, value, reply, k, n - 1) + [SetData(sid, value, reply(k + n - 1))]
  }

  /** Where a client's operations take it; None when one of them is not allowed there. */
  function Drive(pc: Pc, ops: seq<Op>): Option<Pc>
    decreases |ops|
  {
    if ops == [] then Some(pc)
    else
      match Drive(pc, ops[..|ops| - 1])
      case None => None
      case Some(mid) => Advance(mid, ops[|ops| - 1])
  }

  lemma DriveSnoc(pc: Pc, ops: seq<Op>, op: Op)
    ensures Drive(pc, ops + [op]) == match Drive(pc, ops) { case None => None case Some(mid) => Advance(mid, op) }
  {
    assert (ops + [op])[..|ops|] == ops;
  }

  lemma {:induction false} AddOpsAre(sid: string, reply: nat -> Reply, k: nat, n: nat)
    ensures forall i :: 0 <= i < n ==> AddOps(sid, reply, k, n)[i] == AddLock(sid, reply(k + i))
  {
    if n > 0 {
      AddOpsAre(sid, reply, k, n - 1);
    }
  }

  lemma {:induction false} SetOpsAre(sid: string, value: string, reply: nat -> bool, k: nat, n: nat)
    ensures forall i :: 0 <= i < n ==> SetOps(sid, value, reply, k, n)[i] == SetData(sid, value, reply(k + i))
  {
    if n > 0 {
      SetOpsAre(sid, value, reply, k, n - 1);
    }
  }

  lemma NextAddOp(sid: string, reply: nat -> Reply, k: nat, n: nat)
    ensures AddOps(sid, reply, k, 0) == []
    ensures AddOps(sid, reply, k, n + 1) == AddOps(sid, reply, k, n) + [AddLock(sid, reply(k + n))]
  {
  }

  lemma NextSetOp(sid: string, value: string, reply: nat -> bool, k: nat, n: nat)
    ensures SetOps(sid, value, reply, k, 0) == []
    ensures SetOps(sid, value, reply, k, n + 1) == SetOps(sid, value, reply, k, n) + [SetData(sid, value, reply(k + n))]
  {
  }

  lemma {:induction false} DriveAdds(sid: string, reply: nat -> Reply, k: nat, n: nat)
    requires forall i :: k <= i < k + n - 1 ==> !reply(i).Success?
    ensures Drive(Idle, AddOps(sid, reply, k, n)) ==
            Some(if n == 0 then Idle else if reply(k + n - 1).Success? then Granted(sid) else Locking(sid))
  {
    if n > 0 {
      DriveAdds(sid, reply, k, n - 1);
      DriveSnoc(Idle, AddOps(sid, reply, k, n - 1), AddLock(sid, reply(k + n - 1)));
    }
  }

  lemma {:induction false} DriveSets(sid: string, value: string, reply: nat -> bool, k: nat, n: nat)
    ensures Drive(Active(sid), SetOps(sid, value, reply, k, n)) == Some(Active(sid))
  {
    if n > 0 {
      DriveSets(sid, value, reply, k, n - 1);
      DriveSnoc(Active(sid), SetOps(sid, value, reply, k, n - 1), SetData(sid, value, reply(k + n - 1)));
    }
  }

  /** The operations of a locking attempt: the adds, then the flag or the refusal. */
  function LockOps(sid: string, reply: nat -> Reply, k: nat, a: Attempted): seq<Op> {
    AddOps(sid, reply, k, a.adds) + [if a.locked then MarkLocked else GiveUp]
  }

  lemma DriveLock(sid: string, reply: nat -> Reply, k: nat, retries: int, wait: int, waitMax: int)
    ensures var a := Attempts(reply, k, retries, wait, waitMax);
            Drive(Idle, LockOps(sid, reply, k, a)) == Some(if a.locked then Reading(sid) else Idle)
  {
    hide Attempts, AddOps, Advance, Drive;
    var a := Attempts(reply, k, retries, wait, waitMax);
    AttemptsOutcome(reply, k, retries, wait, waitMax);
    DriveAdds(sid, reply, k, a.adds);
    DriveSnoc(Idle, AddOps(sid, reply, k, a.adds), if a.locked then MarkLocked else GiveUp);
    LastLockStep(sid);
  }

  /** Calls from `first` up to `next` are made until one succeeds, but no more than `limit`. */
  predicate StopsAtSuccess(reply: nat -> Reply, first: nat, next: nat, limit: int) {
    && 1 <= next - first <= limit
    && (forall i :: first <= i < next - 1 ==> reply(i) != Success)
    && (reply(next - 1) != Success ==> next - first == limit)
  }

  /** One add for each of these calls, then the flag or the refusal. */
  predicate AddsLogged(sid: string, reply: nat -> Reply, first: nat, next: nat, before: seq<Op>, after: seq<Op>, locked: bool) {
    && first <= next && |after| == |before| + (next - first) + 1 && before <= after
    && (forall i :: first <= i < next ==> after[|before| + (i - first)] == AddLock(sid, reply(i)))
    && after[|after| - 1] == if locked then MarkLocked else GiveUp
  }

  /** A pause after each call but the last that found the entry there, of the minimum first and then doubling. */
  predicate Paused(reply: nat -> Reply, first: nat, next: nat, waitMin: int, waitMax: int, before: seq<int>, after: seq<int>) {
    && first < next && before <= after && |after| == |before| + Taken(reply, first, next - first - 1)
    && (|after| > |before| ==> after[|before|] == waitMin)
    && Doubling(after[|before|..], waitMax)
  }

  lemma LockFacts(sid: string, reply: nat -> Reply, k: nat, ini: Ini, before: seq<Op>, pauses: seq<int>)
    ensures var a := Attempts(reply, k, ini.retries, ini.waitMin, ini.waitMax);
            && StopsAtSuccess(reply, k, k + a.adds, Max(ini.retries, 0) + 1)
            && (a.locked <==> reply(k + a.adds - 1) == Success)
            && AddsLogged(sid, reply, k, k + a.adds, before, before + LockOps(sid, reply, k, a), a.locked)
            && Paused(reply, k, k + a.adds, ini.waitMin, ini.waitMax, pauses, pauses + a.sleeps)
  {
    hide Attempts, AddOps, Taken, Doubling;
    var a := Attempts(reply, k, ini.retries, ini.waitMin, ini.waitMax);
    AddOpsAre(sid, reply, k, a.adds);
    AttemptsOutcome(reply, k, ini.retries, ini.waitMin, ini.waitMax);
    SleepsExact(reply, k, ini.retries, ini.waitMin, ini.waitMax);
    assert (pauses + a.sleeps)[|pauses|..] == a.sleeps;
  }

  /** One set for each of these calls. */
  predicate SetsLogged(sid: string, value: string, reply: nat -> bool, first: nat, next: nat, before: seq<Op>, after: seq<Op>) {
    && first <= next && |after| == |before| + (next - first) && before <= after
    && forall i :: first <= i < next ==> after[|before| + (i - first)] == SetData(sid, value, reply(i))
  }

  lemma SetFacts(sid: string, value: string, reply: nat -> bool, k: nat, n: nat, before: seq<Op>)
    ensures SetsLogged(sid, value, reply, k, k + n, before, before + SetOps(sid, value, reply, k, n))
  {
    hide SetOps;
    SetOpsAre(sid, value, reply, k, n);
  }

  lemma LastLockStep(sid: string)
    ensures Advance(Granted(sid), MarkLocked) == Some(Reading(sid)) && Advance(Locking(sid), GiveUp) == Some(Idle)
  {
  }

  function Fetched(status: GetAnswer): ReadResult {
    match status
    case Found(value) => ReadOk(value)
    case NotFound => ReadOk("")
    case GetError => ReadFailure
  }

  /** The answer of a server with this store, unless it fails. */
  predicate AnswersGet(store: map<string, string>, sid: string, answer: GetAnswer) {
    match answer
    case Found(value) => sid in store && store[sid] == value
    case NotFound => sid !in store
    case GetError => true
  }

  function Last(ops: seq<Op>): Op {
    if ops == [] then GiveUp else ops[|ops| - 1]
  }

  function GetOp(sid: string, r: ReadResult): Op {
    GetData(sid, r.ReadOk?, if r.ReadOk? then r.value else "")
  }

  /** What a locked READ does from its `k`-th call on. */
  function ReadOps(sid: string, add: nat -> Reply, get: nat -> GetAnswer, k: nat, a: Attempted): seq<Op> {
    LockOps(sid, add, k, a) + (if a.locked then [GetOp(sid, Fetched(get(k + a.adds)))] else [])
  }

  /** The session a lock key belongs to: what follows the prefix. */
  function SidOf(key: string): string {
    if |key| < |LockKey("")| then "" else key[|LockKey("")|..]
  }

  lemma SidOfLockKey(sid: string)
    ensures SidOf(LockKey(sid)) == sid
  {
  }

  function UnlockOps(locked: bool, sid: string): seq<Op> {
    if locked then [DeleteLock(sid), ClearLocked] else []
  }

  /** A READ takes an idle client to an active session, to one it must close, or nowhere. */
  lemma ReadFollows(sid: string, add: nat -> Reply, get: nat -> GetAnswer, k: nat, retries: int, wait: int, waitMax: int)
    ensures var a := Attempts(add, k, retries, wait, waitMax);
            Drive(Idle, ReadOps(sid, add, get, k, a)) ==
            Some(if !a.locked then Idle else if Fetched(get(k + a.adds)).ReadOk? then Active(sid) else Stuck(sid))
  {
    hide Attempts, LockOps, Drive;
    var a := Attempts(add, k, retries, wait, waitMax);
    var ops := LockOps(sid, add, k, a);
    DriveLock(sid, add, k, retries, wait, waitMax);
    if a.locked {
      DriveSnoc(Idle, ops, GetOp(sid, Fetched(get(k + a.adds))));
    } else {
      assert ops + [] == ops;
    }
  }

  /** Releasing the lock ends the session, whether or not it was destroyed first. */
  lemma UnlockFollows(pc: Pc, sid: string)
    requires pc == Active(sid) || pc == Stuck(sid) || pc == Ended(sid)
    ensures Drive(pc, UnlockOps(true, sid)) == Some(Idle)
  {
    DriveOne(pc, DeleteLock(sid));
    hide Drive;
    DriveSnoc(pc, [DeleteLock(sid)], ClearLocked);
    assert [DeleteLock(sid)] + [ClearLocked] == UnlockOps(true, sid);
  }

  lemma DestroyFollows(sid: string)
    ensures Drive(Active(sid), [DeleteData(sid)] + UnlockOps(true, sid)) == Some(Idle)
  {
    DriveOne(Active(sid), DeleteData(sid));
    hide Drive;
    DriveSnoc(Active(sid), [DeleteData(sid)], DeleteLock(sid));
    DriveSnoc(Active(sid), [DeleteData(sid)] + [DeleteLock(sid)], ClearLocked);
    assert [DeleteData(sid)] + [DeleteLock(sid)] + [ClearLocked] == [DeleteData(sid)] + UnlockOps(true, sid);
  }

  lemma {:induction false} DriveConcat(pc: Pc, a: seq<Op>, b: seq<Op>)
    ensures Drive(pc, a + b) == match Drive(pc, a) { case None => None case Some(mid) => Drive(mid, b) }
    decreases |b|
  {
    hide Advance;
    if b == [] {
      assert a + b == a;
    } else {
      assert (a + b)[..|a + b| - 1] == a + b[..|b| - 1];
      DriveConcat(pc, a, b[..|b| - 1]);
    }
  }

  /** What has been driven so far was driven step by step. */
  lemma DrivePrefix(pc: Pc, a: seq<Op>, ops: seq<Op>)
    requires a <= ops && Drive(pc, ops).Some?
    ensures Drive(pc, a).Some?
  {
    DriveConcat(pc, a, ops[|a|..]);
    assert a + ops[|a|..] == ops;
  }

  lemma DriveOne(pc: Pc, op: Op)
    ensures Drive(pc, []) == Some(pc) && Drive(pc, [op]) == Advance(pc, op)
  {
    assert [op][..0] == [];
  }

  /** How many calls a loop makes that stops at the first success and never exceeds `limit`. */
  function Tries(reply: nat -> bool, k: nat, limit: nat): (n: nat)
    requires limit >= 1
    ensures 1 <= n <= limit
    decreases limit
  {
    if reply(k) || limit == 1 then 1 else 1 + Tries(reply, k + 1, limit - 1)
  }

  lemma TriesStep(reply: nat -> bool, k: nat, limit: nat)
    requires limit >= 1
    ensures Tries(reply, k, limit) == if reply(k) || limit == 1 then 1 else 1 + Tries(reply, k + 1, limit - 1)
  {
  }

  lemma {:induction false} TriesFacts(reply: nat -> bool, k: nat, limit: nat)
    requires limit >= 1
    ensures var n := Tries(reply, k, limit);
            && (forall i :: k <= i < k + n - 1 ==> !reply(i))
            && (!reply(k + n - 1) ==> n == limit)
    decreases limit
  {
    if !reply(k) && limit > 1 {
      TriesFacts(reply, k + 1, limit - 1);
    }
  }

  /** An id CREATE_SID tried, and the answer to its add. */
  datatype Created = Created(sid: string, reply: Reply)

  /** The ids tried from the `k`-th call on. */
  function Creations(ids: nat -> string, reply: nat -> Reply, k: nat, n: nat): (r: seq<Created>)
    ensures |r| == n
  {
    seq(n, i requires 0 <= i < n => Created(ids(i), reply(k + i)))
  }

  /** One id for each of these calls, with the answer to its add. */
  predicate IdsLogged(ids: nat -> string, reply: nat -> Reply, first: nat, next: nat, before: seq<Created>, after: seq<Created>) {
    && first <= next && |after| == |before| + (next - first) && before <= after
    && forall i :: first <= i < next ==> after[|before| + (i - first)] == Created(ids(i - first), reply(i))
  }

  lemma CreationsAre(ids: nat -> string, reply: nat -> Reply, k: nat, n: nat, before: seq<Created>)
    ensures IdsLogged(ids, reply, k, k + n, before, before + Creations(ids, reply, k, n))
  {
    var tried := Creations(ids, reply, k, n);
    assert forall i :: 0 <= i < n ==> tried[i] == Created(ids(i), reply(k + i));
    hide Creations;
    var after := before + tried;
    forall i | k <= i < k + n
      ensures after[|before| + (i - k)] == Created(ids(i - k), reply(i))
    {
      assert after[|before| + (i - k)] == tried[i - k];
    }
  }

  /** When only the last of these calls may succeed, only its id may be handed out. */
  lemma OneHandedOut(ids: nat -> string, reply: nat -> Reply, first: nat, next: nat, before: seq<Created>, after: seq<Created>)
    requires first < next && IdsLogged(ids, reply, first, next, before, after)
    requires forall i :: first <= i < next - 1 ==> !reply(i).Success?
    ensures forall i :: |before| <= i < |after| && after[i].reply.Success? ==> reply(next - 1).Success? && after[i].sid == ids(next - first - 1)
  {
    forall i | |before| <= i < |after| && after[i].reply.Success?
      ensures reply(next - 1).Success? && after[i].sid == ids(next - first - 1)
    {
      assert after[|before| + (first + (i - |before|) - first)] == Created(ids(i - |before|), reply(first + (i - |before|)));
    }
  }

  lemma NextCreation(ids: nat -> string, reply: nat -> Reply, k: nat, n: nat)
    ensures Creations(ids, reply, k, 0) == []
    ensures Creations(ids, reply, k, n + 1) == Creations(ids, reply, k, n) + [Created(ids(n), reply(k + n))]
  {
  }

  // ---------- the handlers ----------

  class Session {
    /** What the server answers to the n-th call of each kind. */
    const addReply: nat -> Reply
    const getReply: nat -> GetAnswer
    const setReply: nat -> bool

    var calls: nat
    ghost var log: seq<Op>
    ghost var created: seq<Created>
    var slept: seq<int>
    var isLocked: bool
    var lockKey: Option<string>
    ghost var holding: string

    constructor (addReply: nat -> Reply, getReply: nat -> GetAnswer, setReply: nat -> bool)
      ensures Valid() && !isLocked && log == [] && created == [] && At(Idle)
    {
      this.addReply, this.getReply, this.setReply := addReply, getReply, setReply;
      calls, log, created, slept, isLocked, lockKey, holding := 0, [], [], [], false, None, "";
    }

    ghost predicate Valid()
      reads this
    {
      isLocked ==> lockKey == Some(LockKey(holding))
    }

    /** Everything this client has sent is a path of the protocol's client, which is now at `pc`. */
    ghost predicate At(pc: Pc)
      reads this
    {
      Drive(Idle, log) == Some(pc)
    }

    /** One add and what is done with its answer; returns the next pause. */
    method TryLock(sid: string, key: string, retries: int, wait: int, waitMax: int) returns (waitTime: int)
      requires !isLocked && key == LockKey(sid)
      modifies this`calls, this`log, this`slept, this`isLocked, this`lockKey, this`holding
      ensures calls == old(calls) + 1 && log == old(log) + [AddLock(sid, addReply(old(calls)))]
      ensures isLocked == addReply(old(calls)).Success?
      ensures isLocked ==> lockKey == Some(key) && holding == sid
      ensures slept == old(slept) + PauseAfter(addReply(old(calls)), retries, wait)
      ensures waitTime == WaitAfter(addReply(old(calls)), retries, wait, waitMax)
    {
      waitTime := wait;
      var rc := addReply(calls);
      calls, log := calls + 1, log + [AddLock(sid, rc)];
      match rc {
        case Success =>
          lockKey, isLocked, holding := Some(key), true, sid;
        case NotStored =>
          if retries > 0 {
            waitTime := Sleep(waitTime, waitMax);
          }
        case DataExists =>
          if retries > 0 {
            waitTime := Sleep(waitTime, waitMax);
          }
        case Failure =>
      }
    }

    /** Up to one add more than the retries, until one succeeds; then the flag is set. */
    method LockLoop(sid: string, ini: Ini) returns (locked: bool)
      requires Valid() && !isLocked
      modifies this`calls, this`log, this`slept, this`isLocked, this`lockKey, this`holding
      ensures Valid() && locked == isLocked && (locked ==> holding == sid)
      ensures var a := Attempts(addReply, old(calls), ini.retries, ini.waitMin, ini.waitMax);
              && locked == a.locked && calls == old(calls) + a.adds
              && slept == old(slept) + a.sleeps
              && log == old(log) + LockOps(sid, addReply, old(calls), a)
    {
      hide AddOps, LockKey, Attempts, PauseAfter, WaitAfter;
      NextAddOp(sid, addReply, calls, 0);
      var key := LockKey(sid);
      var waitTime, retries := ini.waitMin, ini.retries;
      ghost var first, sent, before, pauses := calls, 0, log, slept;
      ghost var total := Attempts(addReply, first, retries, waitTime, ini.waitMax);
      ghost var rest := total;
      var again := true;
      while again
        invariant calls == first + sent && log == before + AddOps(sid, addReply, first, sent)
        invariant isLocked ==> lockKey == Some(key) && holding == sid
        invariant again ==> !isLocked && rest == Attempts(addReply, calls, retries, waitTime, ini.waitMax)
        invariant again ==> total.locked == rest.locked && total.adds == sent + rest.adds
        invariant again ==> pauses + total.sleeps == slept + rest.sleeps
        invariant !again ==> total.locked == isLocked && total.adds == sent && pauses + total.sleeps == slept
        decreases again, Max(retries, 0)
      {
        AttemptsStep(addReply, calls, retries, waitTime, ini.waitMax);
        NextAddOp(sid, addReply, first, sent);
        ghost var soFar, pause := slept, PauseAfter(addReply(calls), retries, waitTime);
        waitTime := TryLock(sid, key, retries, waitTime, ini.waitMax);
        sent := sent + 1;
        again := !isLocked && retries > 0;
        retries := retries - 1;
        if again {
          rest := Attempts(addReply, calls, retries, waitTime, ini.waitMax);
          assert soFar + (pause + rest.sleeps) == slept + rest.sleeps;
        } else {
          assert soFar + [] == soFar + pause == slept;
        }
      }
      log := log + [if isLocked then MarkLocked else GiveUp];
      locked := isLocked;
    }

    /**
     Locking, in terms of the answers alone: which adds are sent, when the lock is obtained, and when
     and how long there is a pause.
     */
    method LockSession(sid: string, ini: Ini) returns (locked: bool)
      requires Valid() && !isLocked
      modifies this`calls, this`log, this`slept, this`isLocked, this`lockKey, this`holding
      ensures Valid() && locked == isLocked && (locked ==> holding == sid)
      ensures StopsAtSuccess(addReply, old(calls), calls, Max(ini.retries, 0) + 1)
      ensures locked <==> addReply(calls - 1) == Success
      ensures AddsLogged(sid, addReply, old(calls), calls, old(log), log, locked)
      ensures Paused(addReply, old(calls), calls, ini.waitMin, ini.waitMax, old(slept), slept)
      ensures var a := Attempts(addReply, old(calls), ini.retries, ini.waitMin, ini.waitMax);
              && locked == a.locked && calls == old(calls) + a.adds
              && slept == old(slept) + a.sleeps
              && log == old(log) + LockOps(sid, addReply, old(calls), a)
    {
      hide *;
      ghost var first, before, pauses := calls, log, slept;
      locked := LockLoop(sid, ini);
      LockFacts(sid, addReply, first, ini, before, pauses);
    }

    /** One pause, and the length of the next. */
    method Sleep(waitTime: int, waitMax: int) returns (next: int)
      modifies this`slept
      ensures slept == old(slept) + [waitTime] && next == Min(waitMax, waitTime * 2)
    {
      slept := slept + [waitTime];
      next := Min(waitMax, waitTime * 2);
    }

    method UnlockSession()
      requires Valid()
      modifies this`calls, this`log, this`slept, this`isLocked, this`lockKey, this`holding
      ensures Valid() && !isLocked
      ensures log == old(log) + if old(isLocked) then [DeleteLock(old(holding)), ClearLocked] else []
      ensures calls == old(calls) && slept == old(slept)
    {
      if isLocked {
        SidOfLockKey(holding);
        log := log + [DeleteLock(SidOf(lockKey.value))];
        isLocked := false;
        log := log + [ClearLocked];
        lockKey := None;
      }
    }

    /** READ: the lock, then the data. A missing entry is an empty session, not a failure. */
    method Read(sid: string, ini: Ini) returns (r: ReadResult)
      requires Valid() && !isLocked
      modifies this`calls, this`log, this`slept, this`isLocked, this`lockKey, this`holding
      ensures Valid() && (isLocked ==> holding == sid && ini.lockEnabled)
      ensures ini.lockEnabled && !isLocked ==>
                && r == ReadFailure
                && StopsAtSuccess(addReply, old(calls), calls, Max(ini.retries, 0) + 1) && addReply(calls - 1) != Success
                && AddsLogged(sid, addReply, old(calls), calls, old(log), log, false)
      ensures ini.lockEnabled && isLocked ==>
                && calls >= old(calls) + 2 && |log| > |old(log)|
                && StopsAtSuccess(addReply, old(calls), calls - 1, Max(ini.retries, 0) + 1) && addReply(calls - 2) == Success
                && AddsLogged(sid, addReply, old(calls), calls - 1, old(log), log[..|log| - 1], true)
      ensures !ini.lockEnabled ==> calls == old(calls) + 1
      ensures !ini.lockEnabled || isLocked ==>
                match getReply(calls - 1)
                case Found(v) => r == ReadOk(v) && Last(log) == GetData(sid, true, v)
                case NotFound => r == ReadOk("") && Last(log) == GetData(sid, true, "")
                case GetError => r == ReadFailure && Last(log) == GetData(sid, false, "")
      ensures forall store :: (!ini.lockEnabled || isLocked) && AnswersGet(store, sid, getReply(calls - 1)) && r.ReadOk? ==> r.value == Content(store, sid)
      ensures ini.lockEnabled ==>
                var a := Attempts(addReply, old(calls), ini.retries, ini.waitMin, ini.waitMax);
                && isLocked == a.locked
                && r == (if a.locked then Fetched(getReply(old(calls) + a.adds)) else ReadFailure)
                && log == old(log) + ReadOps(sid, addReply, getReply, old(calls), a)
      ensures ini.lockEnabled && old(At(Idle)) ==>
                At(if !isLocked then Idle else if r.ReadOk? then Active(sid) else Stuck(sid))
      ensures !ini.lockEnabled ==>
                !isLocked && r == Fetched(getReply(old(calls))) && log == old(log) + [GetOp(sid, r)]
    {
      hide Attempts, LockOps, Drive, AddsLogged, Paused;
      ghost var before, first := log, calls;
      if ini.lockEnabled {
        ReadFollows(sid, addReply, getReply, first, ini.retries, ini.waitMin, ini.waitMax);
        DriveConcat(Idle, before, ReadOps(sid, addReply, getReply, first, Attempts(addReply, first, ini.retries, ini.waitMin, ini.waitMax)));
        var locked := LockSession(sid, ini);
        if !locked {
          return ReadFailure;
        }
      }
      var status := getReply(calls);
      calls := calls + 1;
      r := Fetched(status);
      log := log + [GetOp(sid, r)];
    }

    /** The retry counter of a write: one, or enough for every replica to fail over. */
    static function WriteRetries(removeFailed: bool, replicas: int, failureLimit: int): int {
      if removeFailed then 1 + replicas * (failureLimit + 1) else 1
    }

    /** One set and its answer. */
    method TrySet(sid: string, value: string) returns (ok: bool)
      modifies this`calls, this`log
      ensures calls == old(calls) + 1 && ok == setReply(old(calls))
      ensures log == old(log) + [SetData(sid, value, ok)]
    {
      ok := setReply(calls);
      calls, log := calls + 1, log + [SetData(sid, value, ok)];
    }

    method WriteLoop(sid: string, value: string, removeFailed: bool, replicas: int, failureLimit: int) returns (ok: bool)
      requires Valid()
      modifies this`calls, this`log
      ensures Valid()
      ensures var n := Tries(setReply, old(calls), Max(1, WriteRetries(removeFailed, replicas, failureLimit)));
              && calls == old(calls) + n
              && ok == setReply(old(calls) + n - 1)
              && log == old(log) + SetOps(sid, value, setReply, old(calls), n)
    {
      hide WriteRetries, SetOps, Tries, Drive;
      NextSetOp(sid, value, setReply, calls, 0);
      var retries := WriteRetries(removeFailed, replicas, failureLimit);
      ghost var first, limit, sent, before := calls, Max(1, retries), 0, log;
      var again := true;
      ok := false;
      while again
        invariant calls == first + sent && sent <= limit
        invariant log == before + SetOps(sid, value, setReply, first, sent)
        invariant again ==> Max(1, retries) == limit - sent
        invariant again ==> Tries(setReply, first, limit) == sent + Tries(setReply, calls, limit - sent)
        invariant !again ==> sent >= 1 && Tries(setReply, first, limit) == sent && ok == setReply(calls - 1)
        decreases again, limit - sent
      {
        NextSetOp(sid, value, setReply, first, sent);
        TriesStep(setReply, calls, limit - sent);
        ok := TrySet(sid, value);
        sent := sent + 1;
        if ok {
          again := false;
        } else {
          retries := retries - 1;
          again := retries > 0;
        }
      }
    }

    /** WRITE: sets until one succeeds or the limit is reached. */
    method Write(sid: string, value: string, removeFailed: bool, replicas: int, failureLimit: int) returns (ok: bool)
      requires Valid()
      modifies this`calls, this`log
      ensures Valid()
      ensures var limit := Max(1, if removeFailed then 1 + replicas * (failureLimit + 1) else 1);
              && 1 <= calls - old(calls) <= limit
              && ok == setReply(calls - 1)
              && (forall i :: old(calls) <= i < calls - 1 ==> !setReply(i))
              && (!ok ==> calls - old(calls) == limit)
      ensures SetsLogged(sid, value, setReply, old(calls), calls, old(log), log)
      ensures old(At(Active(sid))) ==> At(Active(sid))
    {
      ghost var first, before, limit := calls, log, Max(1, WriteRetries(removeFailed, replicas, failureLimit));
      hide WriteRetries, SetOps, Tries, Drive, SetsLogged;
      ok := WriteLoop(sid, value, removeFailed, replicas, failureLimit);
      RetriesAre(removeFailed, replicas, failureLimit);
      TriesFacts(setReply, first, limit);
      SetFacts(sid, value, setReply, first, calls - first, before);
      DriveSets(sid, value, setReply, first, calls - first);
      DriveConcat(Idle, before, SetOps(sid, value, setReply, first, calls - first));
    }

    static lemma RetriesAre(removeFailed: bool, replicas: int, failureLimit: int)
      ensures WriteRetries(removeFailed, replicas, failureLimit) == if removeFailed then 1 + replicas * (failureLimit + 1) else 1
    {
    }

    /** DESTROY: the data first, then the lock. */
    method Destroy(sid: string)
      requires Valid()
      modifies this`calls, this`log, this`slept, this`isLocked, this`lockKey, this`holding
      ensures Valid() && !isLocked
      ensures log == old(log) + if old(isLocked) then [DeleteData(sid), DeleteLock(old(holding)), ClearLocked] else [DeleteData(sid)]
      ensures old(isLocked && holding == sid && At(Active(sid))) ==> At(Idle)
    {
      hide Drive;
      assert [DeleteData(sid)] + UnlockOps(true, holding) == [DeleteData(sid), DeleteLock(holding), ClearLocked];
      DestroyFollows(sid);
      DriveConcat(Idle, log, [DeleteData(sid)] + UnlockOps(isLocked, holding));
      log := log + [DeleteData(sid)];
      if isLocked {
        UnlockSession();
      }
    }

    /** CLOSE: whatever state the session is in, a held lock is released. */
    method Close()
      requires Valid()
      modifies this`calls, this`log, this`slept, this`isLocked, this`lockKey, this`holding
      ensures Valid() && !isLocked
      ensures log == old(log) + if old(isLocked) then [DeleteLock(old(holding)), ClearLocked] else []
      ensures old(if isLocked then At(Active(holding)) || At(Stuck(holding)) else At(Idle)) ==> At(Idle)
    {
      hide Drive;
      DriveConcat(Idle, log, UnlockOps(isLocked, holding));
      if isLocked {
        UnlockFollows(Active(holding), holding);
        UnlockFollows(Stuck(holding), holding);
        UnlockSession();
      }
    }

    /** One add of a fresh id and its answer. */
    method TryId(candidate: string) returns (rc: Reply)
      modifies this`calls, this`created
      ensures calls == old(calls) + 1 && rc == addReply(old(calls))
      ensures created == old(created) + [Created(candidate, rc)]
    {
      rc := addReply(calls);
      calls, created := calls + 1, created + [Created(candidate, rc)];
    }

    /** CREATE_SID on an open connection: up to three fresh ids, the first whose add succeeds. */
    method CreateSid(ids: nat -> string) returns (sid: Option<string>)
      modifies this`calls, this`created
      ensures 1 <= calls - old(calls) <= 3
      ensures forall i :: old(calls) <= i < calls - 1 ==> !addReply(i).Success?
      ensures sid.Some? <==> addReply(calls - 1).Success?
      ensures sid.Some? ==> sid.value == ids(calls - old(calls) - 1)
      ensures sid.None? ==> calls == old(calls) + 3
      ensures created == old(created) + Creations(ids, addReply, old(calls), calls - old(calls))
      ensures IdsLogged(ids, addReply, old(calls), calls, old(created), created)
      ensures forall i :: |old(created)| <= i < |created| && created[i].reply.Success? ==> sid == Some(created[i].sid)
    {
      hide Creations, IdsLogged;
      var retries := 3;
      ghost var first, before := calls, created;
      sid := None;
      NextCreation(ids, addReply, first, 0);
      while retries > 0 && sid.None?
        invariant 0 <= retries <= 3 && calls == first + (3 - retries)
        invariant forall i :: first <= i < (if sid.None? then calls else calls - 1) ==> !addReply(i).Success?
        invariant sid.Some? ==> retries < 3 && addReply(calls - 1).Success? && sid.value == ids(calls - first - 1)
        invariant created == before + Creations(ids, addReply, first, calls - first)
        decreases retries
      {
        NextCreation(ids, addReply, first, calls - first);
        var candidate := ids(3 - retries);
        retries := retries - 1;
        var rc := TryId(candidate);
        if rc.Success? {
          sid := Some(candidate);
        }
      }
      CreationsAre(ids, addReply, first, calls - first, before);
      OneHandedOut(ids, addReply, first, calls, before, created);
    }
  }
}
