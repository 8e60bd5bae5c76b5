/** The write loop shared by set, add, replace, append, prepend and touch. */
module WriteRetry {
  import opened Basics
  import opened ResultStream

  datatype WriteOp = Set | Touch | Add | Replace | Append | Prepend

  /** A request sent to libmemcached, with or without the caller's server key. */
  datatype Request = Request(op: WriteOp, byKey: bool)

  /** END counts as success for a write. */
  function Normal(rc: Rc): Rc {
    if rc.End? then Success else rc
  }

  predicate ShouldRetry(servers: nat, rc: Rc) {
    servers != 0 && IsError(rc, true)
  }

  /** How many attempts are made from the `k`-th answer on. */
  function Attempts(answer: nat -> Rc, k: nat, servers: nat, retries: int): (n: nat)
    ensures n >= 1
    decreases Max(retries, 0)
  {
    if ShouldRetry(servers, Normal(answer(k))) && retries > 0 then 1 + Attempts(answer, k + 1, servers, retries - 1) else 1
  }

  lemma NormalIs(rc: Rc)
    ensures Normal(rc) == if rc == End then Success else rc
    ensures IsError(Normal(rc), true) <==> !Fine(rc)
  {
  }

  /** Attempts stop at the first answer that is not an error, and never exceed the retries allowed; without servers there is one. */
  lemma {:induction false} AttemptsExact(answer: nat -> Rc, k: nat, servers: nat, retries: int)
    ensures var n := Attempts(answer, k, servers, retries);
            && n <= 1 + Max(retries, 0)
            && (servers == 0 ==> n == 1)
            && (forall i :: k <= i < k + n - 1 ==> !Fine(answer(i)))
            && (!Fine(answer(k + n - 1)) && servers != 0 ==> n == 1 + Max(retries, 0))
    decreases Max(retries, 0)
  {
    NormalIs(answer(k));
    if ShouldRetry(servers, Normal(answer(k))) && retries > 0 {
      AttemptsExact(answer, k + 1, servers, retries - 1);
    }
  }

  /** The first request uses the server key if there is one; every later one goes to the plain function. */
  function Requests(op: WriteOp, byKey: bool, n: nat): (r: seq<Request>)
    requires n >= 1
    ensures |r| == n
  {
    if n == 1 then [Request(op, byKey)] else Requests(op, byKey, n - 1) + [Request(op, false)]
  }

  lemma FirstRequest(op: WriteOp, byKey: bool)
    ensures Requests(op, byKey, 1) == [Request(op, byKey)]
  {
  }

  lemma NextRequest(op: WriteOp, byKey: bool, n: nat)
    requires n >= 1
    ensures Requests(op, byKey, n + 1) == Requests(op, byKey, n) + [Request(op, false)]
  {
  }

  /** Only the first request can carry the server key. */
  lemma {:induction false} RequestAt(op: WriteOp, byKey: bool, n: nat, i: nat)
    requires i < n
    ensures Requests(op, byKey, n)[i] == Request(op, byKey && i == 0)
  {
    if i < n - 1 {
      RequestAt(op, byKey, n - 1, i);
    }
  }

  /** `n` more requests, of which only the first may carry the key. */
  predicate Sends(op: WriteOp, byKey: bool, n: nat, before: seq<Request>, after: seq<Request>) {
    && before <= after && |after| == |before| + n
    && forall j :: |before| <= j < |after| ==> after[j] == Request(op, byKey && j == |before|)
  }

  lemma SendsRequests(op: WriteOp, byKey: bool, n: nat, before: seq<Request>)
    requires n >= 1
    ensures Sends(op, byKey, n, before, before + Requests(op, byKey, n))
  {
    hide Requests;
    var after := before + Requests(op, byKey, n);
    forall j | |before| <= j < |after|
      ensures after[j] == Request(op, byKey && j == |before|)
    {
      RequestAt(op, byKey, n, j - |before|);
    }
  }

  predicate AllByKey(sent: seq<Request>) {
    forall i :: 0 <= i < |sent| ==> sent[i].byKey
  }

  /**
   A by-key write keeps its server key on every request if and only if its first answer is not
   worth a retry or no retry is allowed: the loop re-enters in the branch that ignores the key.
   */
  lemma KeyKeptIffNotRetried(op: WriteOp, answer: nat -> Rc, k: nat, servers: nat, retries: int)
    ensures AllByKey(Requests(op, true, Attempts(answer, k, servers, retries))) <==>
            Fine(answer(k)) || servers == 0 || retries <= 0
  {
    NormalIs(answer(k));
    var n := Attempts(answer, k, servers, retries);
    if n > 1 {
      RequestAt(op, true, n, 1);
      assert !Requests(op, true, n)[1].byKey;
    }
  }

  /** One refused answer with a retry left: the second request goes without the key. */
  lemma KeyLost(op: WriteOp)
    ensures var answer := (k: nat) => if k == 0 then Other(1) else Success;
            Requests(op, true, Attempts(answer, 0, 1, 1)) == [Request(op, true), Request(op, false)]
  {
    var answer := (k: nat) => if k == 0 then Other(1) else Success;
    assert Attempts(answer, 0, 1, 1) == 2;
    assert Requests(op, true, 2) == Requests(op, true, 1) + [Request(op, false)];
  }

  class Connection {
    const answer: nat -> Rc
    const servers: nat
    var calls: nat
    var sent: seq<Request>
    var rescode: Rc

    constructor (answer: nat -> Rc, servers: nat)
      ensures sent == [] && calls == 0
    {
      this.answer, this.servers := answer, servers;
      calls, sent, rescode := 0, [], Success;
    }

    /** One request and its normalised answer. */
    method Send(op: WriteOp, byKey: bool) returns (status: Rc)
      modifies this`calls, this`sent
      ensures calls == old(calls) + 1 && sent == old(sent) + [Request(op, byKey)]
      ensures status == Normal(answer(old(calls)))
    {
      status := answer(calls);
      calls, sent := calls + 1, sent + [Request(op, byKey)];
      if status.End? {
        status := Success;
      }
    }

    /** The first request and its retries. */
    method SendAll(op: WriteOp, serverKey: bool, retryCount: int) returns (status: Rc)
      modifies this`calls, this`sent
      ensures var n := Attempts(answer, old(calls), servers, retryCount);
              && calls == old(calls) + n
              && sent == old(sent) + Requests(op, serverKey, n)
              && status == Normal(answer(calls - 1))
    {
      hide Requests, Normal, IsError;
      ghost var first, before, n := calls, sent, 1;
      var retries := retryCount;
      FirstRequest(op, serverKey);
      status := Send(op, serverKey);
      while ShouldRetry(servers, status) && retries > 0
        invariant n >= 1 && calls == first + n && sent == before + Requests(op, serverKey, n)
        invariant status == Normal(answer(calls - 1))
        invariant Attempts(answer, first, servers, retryCount) ==
                  n - 1 + Attempts(answer, calls - 1, servers, retries)
        decreases Max(retries, 0)
      {
        retries := retries - 1;
        NextRequest(op, serverKey, n);
        status := Send(op, false);
        n := n + 1;
      }
    }

    /**
     `payload` is None when the value could not be serialized; touch has no value at all. In terms of
     the answers alone: how often the request is sent, with which key, and what is reported.
     */
    method WriteZval(op: WriteOp, serverKey: bool, payload: Option<seq<Byte>>, sizeLimit: nat, retryCount: int)
      returns (ok: bool)
      modifies this
      ensures op.Touch? || (payload.Some? && (sizeLimit == 0 || |payload.value| <= sizeLimit)) ==>
                && 1 <= calls - old(calls) <= 1 + Max(retryCount, 0)
                && (servers == 0 ==> calls == old(calls) + 1)
                && (forall i :: old(calls) <= i < calls - 1 ==> !Fine(answer(i)))
                && (!Fine(answer(calls - 1)) && servers != 0 ==> calls - old(calls) == 1 + Max(retryCount, 0))
                && rescode == (if answer(calls - 1) == End then Success else answer(calls - 1))
                && ok == Fine(answer(calls - 1))
                && Sends(op, serverKey, calls - old(calls), old(sent), sent)
                && (serverKey ==> (AllByKey(sent[|old(sent)|..]) <==> Fine(answer(old(calls))) || servers == 0 || retryCount <= 0))
      ensures !op.Touch? && payload.None? ==>
                !ok && sent == old(sent) && calls == old(calls) && rescode == PayloadFailure
      ensures !op.Touch? && payload.Some? && sizeLimit != 0 && |payload.value| > sizeLimit ==>
                !ok && sent == old(sent) && calls == old(calls) && rescode == TooBig
    {
      hide Requests, Normal, IsError, Attempts, Fine;
      if !op.Touch? {
        if payload.None? {
          rescode := PayloadFailure;
          return false;
        }
        if sizeLimit != 0 && |payload.value| > sizeLimit {
          rescode := TooBig;
          return false;
        }
      }
      ghost var first, before := calls, sent;
      var status := SendAll(op, serverKey, retryCount);
      rescode := status;
      ok := !IsError(status, true);
      ghost var n := Attempts(answer, first, servers, retryCount);
      NormalIs(answer(calls - 1));
      AttemptsExact(answer, first, servers, retryCount);
      SendsRequests(op, serverKey, n, before);
      assert sent[|before|..] == Requests(op, serverKey, n);
      KeyKeptIffNotRetried(op, answer, first, servers, retryCount);
    }
  }
}
