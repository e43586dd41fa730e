/** What the directory operations do with the server's answers.

    The server is an oracle: `server(i)` is the reply to the i-th request
    the client issues.  A reply is either a failure of the transport call
    itself, a result that could not be parsed, or a parsed result with its
    status code (the resultCode values of section 4.1.9 of RFC 4511), the
    cursor entries and the value of the Post-Read control of RFC 4527.

    Each operation is given here as a function returning its outcome and
    the requests it issued; the session methods in module Ldap are proved
    to compute exactly these. */
module LdapProtocol {
  import opened Php
  import opened LdapEntry
  import opened LdapMods

  const LDAP_SUCCESS := 0x00
  const LDAP_NO_SUCH_OBJECT := 0x20
  const LDAP_BUSY := 0x33
  const LDAP_ALREADY_EXISTS := 0x44

  type Dn = string

  datatype Reply =
    | NotDispatched
    | Unparsed
    | Parsed(code: int, entries: seq<ResultEntry>, postRead: seq<(string, Value)>)

  type Server = nat -> Reply

  /** The requests a session issues; `dn` is the target (the base of a
      search or a list). */
  datatype Request =
    | SearchRequest(dn: Dn, filter: string, attributes: seq<string>)
    | ListRequest(dn: Dn, filter: string, attributes: seq<string>)
    | ReadRequest(dn: Dn, attributes: seq<string>)
    | AddRequest(dn: Dn, entry: seq<(string, Value)>)
    | ModifyRequest(dn: Dn, mods: seq<(string, seq<Value>)>)
    | RenameRequest(dn: Dn, newRdn: string, newParent: Dn, deleteOldRdn: bool)

  /** Why an operation raised. */
  datatype Failure =
    | NotDispatchedFailure
    | UnparsedFailure
    | BusyExceeded
    | Rejected(code: int)
    | NotFound
    | MoveFailed(dn: Dn)
    | OutOfFuel

  datatype Result<T> = Ok(value: T) | Err(failure: Failure)

  /** An outcome together with the requests issued to reach it; the reply
      to `requests[i]` is `server(at + i)` when the run started at `at`. */
  datatype Run<T> = Run(result: T, requests: seq<Request>)

  /** The status code on which an operation hands over to the other half of
      the upsert instead of raising. */
  datatype Fallback = NoFallback | OnAlreadyExists | OnNoSuchObject {
    predicate Matches(code: int) {
      match this
      case NoFallback => false
      case OnAlreadyExists => code == LDAP_ALREADY_EXISTS
      case OnNoSuchObject => code == LDAP_NO_SUCH_OBJECT
    }
  }

  /** How one round of the busy-retry loop ends. */
  datatype Attempt =
    | Succeeded(entries: seq<ResultEntry>, postRead: seq<(string, Value)>)
    | FellBack
    | Raised(failure: Failure)

  predicate IsBusy(reply: Reply) {
    reply.Parsed? && reply.code == LDAP_BUSY
  }

  predicate IsSuccess(reply: Reply) {
    reply.Parsed? && reply.code == LDAP_SUCCESS
  }

  /** What a reply means when it is not retried. */
  function Verdict(reply: Reply, fallback: Fallback): Attempt {
    match reply
    case NotDispatched => Raised(NotDispatchedFailure)
    case Unparsed => Raised(UnparsedFailure)
    case Parsed(code, entries, postRead) =>
      if code == LDAP_SUCCESS then Succeeded(entries, postRead)
      else if fallback.Matches(code) then FellBack
      else if code == LDAP_BUSY then Raised(BusyExceeded)
      else Raised(Rejected(code))
  }

  /** The busy-retry loop of `list`, `read`, `add` and `modify`: `tries`
      starts at the session's budget; the same request is reissued after
      each BUSY reply as long as the PRE-decremented counter stays above 0.
      Its shape is stated by `RetryShape`. */
  function Retry(tries: int, req: Request, server: Server, at: nat, fallback: Fallback): Run<Attempt>
    decreases tries
  {
    var reply := server(at);
    if IsBusy(reply) && !fallback.Matches(LDAP_BUSY) && tries - 1 > 0 then
      var rest := Retry(tries - 1, req, server, at + 1, fallback);
      Run(rest.result, [req] + rest.requests)
    else
      Run(Verdict(reply, fallback), [req])
  }

  /** At most max(tries, 1) requests are issued, all of them `req`, and the
      reply to the last one decides the outcome. */
  lemma {:induction false} RetryShape(tries: int, req: Request, server: Server, at: nat, fallback: Fallback)
    ensures var r := Retry(tries, req, server, at, fallback);
      && 1 <= |r.requests| <= (if tries > 1 then tries else 1)
      && (forall i :: 0 <= i < |r.requests| ==> r.requests[i] == req)
      && r.result == Verdict(server(at + |r.requests| - 1), fallback)
    decreases tries
  {
    if IsBusy(server(at)) && !fallback.Matches(LDAP_BUSY) && tries - 1 > 0 {
      var rest := Retry(tries - 1, req, server, at + 1, fallback);
      RetryShape(tries - 1, req, server, at + 1, fallback);
      assert at + 1 + |rest.requests| - 1 == at + |[req] + rest.requests| - 1;
    }
  }

  /** Every reply but the last one was BUSY. */
  lemma {:induction false} RetryBusyPrefix(tries: int, req: Request, server: Server, at: nat, fallback: Fallback)
    requires !fallback.Matches(LDAP_BUSY)
    ensures var r := Retry(tries, req, server, at, fallback);
      forall i :: at <= i < at + |r.requests| - 1 ==> IsBusy(server(i))
    decreases tries
  {
    var r := Retry(tries, req, server, at, fallback);
    if IsBusy(server(at)) && tries - 1 > 0 {
      var rest := Retry(tries - 1, req, server, at + 1, fallback);
      RetryBusyPrefix(tries - 1, req, server, at + 1, fallback);
      assert |r.requests| == 1 + |rest.requests|;
      forall i | at <= i < at + |r.requests| - 1 ensures IsBusy(server(i)) {
        if i > at {
          assert at + 1 <= i < at + 1 + |rest.requests| - 1;
        }
      }
    } else {
      assert |r.requests| == 1;
    }
  }

  /** A last reply that is BUSY too means the budget was spent: exactly
      max(tries, 1) requests were issued. */
  lemma {:induction false} RetryExhausted(tries: int, req: Request, server: Server, at: nat, fallback: Fallback)
    requires !fallback.Matches(LDAP_BUSY)
    ensures var r := Retry(tries, req, server, at, fallback);
      IsBusy(server(at + |r.requests| - 1)) ==> |r.requests| == (if tries > 1 then tries else 1)
    decreases tries
  {
    var r := Retry(tries, req, server, at, fallback);
    if IsBusy(server(at)) && tries - 1 > 0 {
      var rest := Retry(tries - 1, req, server, at + 1, fallback);
      RetryExhausted(tries - 1, req, server, at + 1, fallback);
      assert |r.requests| == 1 + |rest.requests|;
      assert at + |r.requests| - 1 == at + 1 + |rest.requests| - 1;
    } else {
      assert |r.requests| == 1;
    }
  }

  /** A first reply that is not BUSY ends the loop at once. */
  lemma RetryAnswered(tries: int, req: Request, server: Server, at: nat, fallback: Fallback)
    requires !IsBusy(server(at))
    ensures var r := Retry(tries, req, server, at, fallback);
      |r.requests| == 1 && r.requests[0] == req && r.result == Verdict(server(at), fallback)
  {
  }

  /** The budget absorbs BUSY replies: `k` of them followed by any other
      reply cost exactly k + 1 requests as long as k < tries, and that other
      reply decides the outcome. */
  lemma {:induction false} RetryAbsorbs(k: nat, tries: int, req: Request, server: Server, at: nat, fallback: Fallback)
    requires !fallback.Matches(LDAP_BUSY)
    requires k < tries
    requires forall i :: at <= i < at + k ==> IsBusy(server(i))
    requires !IsBusy(server(at + k))
    ensures var r := Retry(tries, req, server, at, fallback);
      |r.requests| == k + 1 && r.result == Verdict(server(at + k), fallback)
    decreases k
  {
    if k > 0 {
      assert IsBusy(server(at));
      RetryAbsorbs(k - 1, tries - 1, req, server, at + 1, fallback);
    }
  }

  /** Replies BUSY, BUSY, SUCCESS: a budget of 2 gives up after the second
      BUSY (two requests, BUSY raised) and the success is never seen; a
      budget of 3 reaches it on the third request. */
  lemma BudgetOfTwoStopsAtSecondBusy(req: Request)
    ensures var server: Server := i => if i < 2 then Parsed(LDAP_BUSY, [], []) else Parsed(LDAP_SUCCESS, [], []);
      && Retry(2, req, server, 0, NoFallback) == Run(Raised(BusyExceeded), [req, req])
      && Retry(3, req, server, 0, NoFallback) == Run(Succeeded([], []), [req, req, req])
  {
    var server: Server := i => if i < 2 then Parsed(LDAP_BUSY, [], []) else Parsed(LDAP_SUCCESS, [], []);
    assert Retry(1, req, server, 1, NoFallback) == Run(Raised(BusyExceeded), [req]);
    assert Retry(1, req, server, 2, NoFallback) == Run(Succeeded([], []), [req]);
    assert Retry(2, req, server, 1, NoFallback) == Run(Succeeded([], []), [req, req]);
  }

  /** A budget of 1 or less allows no retry: a single request is sent, and its
      reply decides, BUSY included. Budgets 0 and 1 therefore agree. */
  lemma BudgetsZeroAndOneAgree(tries: int, req: Request, server: Server, at: nat, fallback: Fallback)
    requires tries <= 1
    ensures Retry(tries, req, server, at, fallback) == Run(Verdict(server(at), fallback), [req])
    ensures Retry(tries, req, server, at, fallback) == Retry(1, req, server, at, fallback)
  {
  }

  /** `read`: the busy-retry loop, then the first cursor entry, if any (the
      session turns it into a record). */
  function ReadSpec(tries: int, dn: Dn, attributes: seq<string>, server: Server, at: nat): Run<Result<ResultEntry>> {
    var r := Retry(tries, ReadRequest(dn, attributes), server, at, NoFallback);
    match r.result
    case Succeeded(entries, _) =>
      Run(if |entries| == 0 then Err(NotFound) else Ok(entries[0]), r.requests)
    case Raised(f) => Run(Err(f), r.requests)
    case FellBack =>
      RetryShape(tries, ReadRequest(dn, attributes), server, at, NoFallback);
      assert false; Run(Err(NotFound), r.requests)
  }

  /** `list`: the busy-retry loop, then the cursor entries (the session
      turns each into a record). */
  function ListSpec(tries: int, dn: Dn, filter: string, attributes: seq<string>, server: Server, at: nat)
    : Run<Result<seq<ResultEntry>>>
  {
    var r := Retry(tries, ListRequest(dn, filter, attributes), server, at, NoFallback);
    match r.result
    case Succeeded(entries, _) =>
      Run(Ok(entries), r.requests)
    case Raised(f) => Run(Err(f), r.requests)
    case FellBack =>
      RetryShape(tries, ListRequest(dn, filter, attributes), server, at, NoFallback);
      assert false; Run(Err(NotFound), r.requests)
  }

  /** `search`: any parsed status other than success raises before the busy
      branch is reached, so exactly one request is ever issued and the
      session's retry budget plays no part. */
  function SearchSpec(dn: Dn, filter: string, attributes: seq<string>, server: Server, at: nat)
    : Run<Result<seq<ResultEntry>>>
  {
    var req := [SearchRequest(dn, filter, attributes)];
    match server(at)
    case NotDispatched => Run(Err(NotDispatchedFailure), req)
    case Unparsed => Run(Err(UnparsedFailure), req)
    case Parsed(code, entries, _) =>
      if code != LDAP_SUCCESS then Run(Err(Rejected(code)), req)
      else Run(Ok(entries), req)
  }

  /** The requests of one upsert: all aimed at `dn`, every add carrying the
      caller's array unchanged and every modify carrying its replace set. */
  ghost predicate UpsertRequests(requests: seq<Request>, dn: Dn, entry: seq<(string, Value)>, mods: seq<(string, seq<Value>)>) {
    forall i :: 0 <= i < |requests| ==> UpsertRequest(requests[i], dn, entry, mods)
  }

  /** How an upsert ends: a record only from a successful add or modify, and
      built from that reply's Post-Read value; ALREADY_EXISTS is raised
      only from a modify and NO_SUCH_OBJECT only from an add (each operation
      hands its own trigger code over to the other). */
  ghost predicate UpsertOutcome(r: Run<Result<seq<(string, Value)>>>, server: Server, at: nat) {
    && |r.requests| >= 1
    && var last := r.requests[|r.requests| - 1];
       var reply := server(at + |r.requests| - 1);
       && (r.result.Ok? ==>
             && (last.AddRequest? || last.ModifyRequest?)
             && IsSuccess(reply)
             && r.result.value == reply.postRead)
       && (r.result == Err(Rejected(LDAP_ALREADY_EXISTS)) ==> last.ModifyRequest?)
       && (r.result == Err(Rejected(LDAP_NO_SUCH_OBJECT)) ==> last.AddRequest?)
  }

  /** A request that may belong to an upsert of `entry` at `dn`. */
  ghost predicate UpsertRequest(req: Request, dn: Dn, entry: seq<(string, Value)>, mods: seq<(string, seq<Value>)>) {
    && req.dn == dn
    && (req.AddRequest? ==> req.entry == entry)
    && (req.ModifyRequest? ==> req.mods == mods)
    && (req.ReadRequest? || req.AddRequest? || req.ModifyRequest?)
  }

  /** Both: what an upsert of `entry` at `dn` sends and how it ends. */
  ghost predicate UpsertRun(r: Run<Result<seq<(string, Value)>>>, dn: Dn, entry: seq<(string, Value)>,
                            mods: seq<(string, seq<Value>)>, server: Server, at: nat) {
    UpsertRequests(r.requests, dn, entry, mods) && UpsertOutcome(r, server, at)
  }

  /** The busy-retry loop of an upsert request sends only upsert requests. */
  lemma RetryUpsertRequests(tries: int, req: Request, server: Server, at: nat, fallback: Fallback,
                            dn: Dn, entry: seq<(string, Value)>, mods: seq<(string, seq<Value>)>)
    requires UpsertRequest(req, dn, entry, mods)
    ensures UpsertRequests(Retry(tries, req, server, at, fallback).requests, dn, entry, mods)
  {
  }

  lemma {:induction false} JoinedUpsertRequests(a: seq<Request>, b: seq<Request>, dn: Dn, entry: seq<(string, Value)>, mods: seq<(string, seq<Value>)>)
    requires UpsertRequests(a, dn, entry, mods) && UpsertRequests(b, dn, entry, mods)
    ensures UpsertRequests(a + b, dn, entry, mods)
  {
    forall i | 0 <= i < |a + b| ensures UpsertRequest((a + b)[i], dn, entry, mods) {
      if i < |a| {
        assert UpsertRequest(a[i], dn, entry, mods);
      } else {
        assert UpsertRequest(b[i - |a|], dn, entry, mods);
      }
    }
  }

  /** An upsert run keeps its meaning when earlier requests of the same
      upsert are put in front of it. */
  lemma {:induction false} ShiftedOutcome(p: seq<Request>, m: Run<Result<seq<(string, Value)>>>, dn: Dn,
                                          entry: seq<(string, Value)>, mods: seq<(string, seq<Value>)>, server: Server, at: nat)
    requires UpsertRequests(p, dn, entry, mods)
    requires UpsertRun(m, dn, entry, mods, server, at + |p|)
    ensures UpsertRun(HandOver(p, m), dn, entry, mods, server, at)
  {
    JoinedUpsertRequests(p, m.requests, dn, entry, mods);
    var q := p + m.requests;
    assert q[|q| - 1] == m.requests[|m.requests| - 1];
    assert at + |q| - 1 == at + |p| + |m.requests| - 1;
  }

  /** The outcome of an add or modify attempt that did not hand over. */
  function Settle(a: Run<Attempt>): Run<Result<seq<(string, Value)>>>
    requires !a.result.FellBack?
  {
    match a.result
    case Succeeded(_, postRead) => Run(Ok(postRead), a.requests)
    case Raised(f) => Run(Err(f), a.requests)
  }

  /** A run that ends in the verdict of the busy-retry loop of an add (which
      hands ALREADY_EXISTS over) or of a modify (which hands NO_SUCH_OBJECT
      over). */
  lemma AttemptOutcome(tries: int, req: Request, dn: Dn, entry: seq<(string, Value)>,
                       mods: seq<(string, seq<Value>)>, server: Server, at: nat, fallback: Fallback)
    requires req.AddRequest? ==> fallback == OnAlreadyExists
    requires req.ModifyRequest? ==> fallback == OnNoSuchObject
    requires req.AddRequest? || req.ModifyRequest?
    requires UpsertRequest(req, dn, entry, mods)
    requires !Retry(tries, req, server, at, fallback).result.FellBack?
    ensures UpsertRun(Settle(Retry(tries, req, server, at, fallback)), dn, entry, mods, server, at)
  {
    var a := Retry(tries, req, server, at, fallback);
    RetryShape(tries, req, server, at, fallback);
    RetryUpsertRequests(tries, req, server, at, fallback, dn, entry, mods);
    assert a.requests[|a.requests| - 1] == req;
  }

  /** The run `m`, after the requests `p` already issued (for the upsert: a
      hand-over to the other half). */
  function HandOver<T>(p: seq<Request>, m: Run<T>): Run<T> {
    Run(m.result, p + m.requests)
  }

  /** `add`: probe with `read` (any failure of the probe counts as "absent");
      an entry that is there is handed to `modify`, otherwise the add is
      attempted.  Every hand-over spends one unit of `fuel`. */
  function AddSpec(tries: int, dn: Dn, entry: seq<(string, Value)>, mods: seq<(string, seq<Value>)>, server: Server, at: nat, fuel: nat)
    : Run<Result<seq<(string, Value)>>>
    decreases fuel, 1
  {
    var probe := ReadSpec(tries, dn, ["*"], server, at);
    if !probe.result.Ok? then HandOver(probe.requests, AttemptAdd(tries, dn, entry, mods, server, at + |probe.requests|, fuel))
    else if fuel == 0 then
      // A run of reads only: it ends neither in a record nor in a rejected
      // add or modify.
      Run(Err(OutOfFuel), probe.requests)
    else
      HandOver(probe.requests, ModifySpec(tries, dn, entry, mods, server, at + |probe.requests|, fuel - 1))
  }

  /** Solver hint: unfolds AddSpec one level, so the outcome lemmas do not
      unfold it themselves. */
  lemma AddSteps(tries: int, dn: Dn, entry: seq<(string, Value)>, mods: seq<(string, seq<Value>)>, server: Server, at: nat, fuel: nat)
    ensures var probe := ReadSpec(tries, dn, ["*"], server, at);
      var run := AddSpec(tries, dn, entry, mods, server, at, fuel);
      && (!probe.result.Ok? ==> run == HandOver(probe.requests, AttemptAdd(tries, dn, entry, mods, server, at + |probe.requests|, fuel)))
      && (probe.result.Ok? && fuel == 0 ==> run == Run(Err(OutOfFuel), probe.requests))
      && (probe.result.Ok? && fuel > 0 ==> run == HandOver(probe.requests, ModifySpec(tries, dn, entry, mods, server, at + |probe.requests|, fuel - 1)))
  {
  }

  /** The add request of `add`, issued after the probe: the caller's array
      with the Post-Read control, retried on BUSY; ALREADY_EXISTS hands over
      to `modify`. */
  function AttemptAdd(tries: int, dn: Dn, entry: seq<(string, Value)>, mods: seq<(string, seq<Value>)>,
                      server: Server, at: nat, fuel: nat)
    : Run<Result<seq<(string, Value)>>>
    decreases fuel, 0
  {
    var a := Retry(tries, AddRequest(dn, entry), server, at, OnAlreadyExists);
    if !a.result.FellBack? then Settle(a)
    else if fuel == 0 then Run(Err(OutOfFuel), a.requests)
    else HandOver(a.requests, ModifySpec(tries, dn, entry, mods, server, at + |a.requests|, fuel - 1))
  }

  /** `modify`: the replace set of `entry` with the Post-Read control,
      retried on BUSY; NO_SUCH_OBJECT hands over to `add` with the caller's
      original array.  Every hand-over spends one unit of `fuel`. */
  function ModifySpec(tries: int, dn: Dn, entry: seq<(string, Value)>, mods: seq<(string, seq<Value>)>, server: Server, at: nat, fuel: nat)
    : Run<Result<seq<(string, Value)>>>
    decreases fuel, 1
  {
    var a := Retry(tries, ModifyRequest(dn, mods), server, at, OnNoSuchObject);
    if !a.result.FellBack? then Settle(a)
    else if fuel == 0 then Run(Err(OutOfFuel), a.requests)
    else HandOver(a.requests, AddSpec(tries, dn, entry, mods, server, at + |a.requests|, fuel - 1))
  }

  /** Every way an `add` ends is an upsert run: only reads, adds of the
      caller's array and modifies with its replace set, all at `dn`, and an
      outcome as `UpsertOutcome` says, whatever the server replies and
      however many hand-overs happen. */
  lemma {:induction false} AddOutcome(tries: int, dn: Dn, entry: seq<(string, Value)>, mods: seq<(string, seq<Value>)>,
                                      server: Server, at: nat, fuel: nat)
    ensures UpsertRun(AddSpec(tries, dn, entry, mods, server, at, fuel), dn, entry, mods, server, at)
    decreases fuel, 1
  {
    var probe := ReadSpec(tries, dn, ["*"], server, at);
    RetryUpsertRequests(tries, ReadRequest(dn, ["*"]), server, at, NoFallback, dn, entry, mods);
    if !probe.result.Ok? {
      AttemptAddOutcome(tries, dn, entry, mods, server, at + |probe.requests|, fuel);
      ShiftedOutcome(probe.requests, AttemptAdd(tries, dn, entry, mods, server, at + |probe.requests|, fuel),
                     dn, entry, mods, server, at);
    } else if fuel > 0 {
      ModifyOutcome(tries, dn, entry, mods, server, at + |probe.requests|, fuel - 1);
      ShiftedOutcome(probe.requests, ModifySpec(tries, dn, entry, mods, server, at + |probe.requests|, fuel - 1),
                     dn, entry, mods, server, at);
    }
  }

  lemma {:induction false} AttemptAddOutcome(tries: int, dn: Dn, entry: seq<(string, Value)>,
                                             mods: seq<(string, seq<Value>)>, server: Server, at: nat, fuel: nat)
    ensures UpsertRun(AttemptAdd(tries, dn, entry, mods, server, at, fuel), dn, entry, mods, server, at)
    decreases fuel, 0
  {
    var a := Retry(tries, AddRequest(dn, entry), server, at, OnAlreadyExists);
    RetryUpsertRequests(tries, AddRequest(dn, entry), server, at, OnAlreadyExists, dn, entry, mods);
    if !a.result.FellBack? {
      AttemptOutcome(tries, AddRequest(dn, entry), dn, entry, mods, server, at, OnAlreadyExists);
    } else if fuel > 0 {
      ModifyOutcome(tries, dn, entry, mods, server, at + |a.requests|, fuel - 1);
      ShiftedOutcome(a.requests, ModifySpec(tries, dn, entry, mods, server, at + |a.requests|, fuel - 1), dn, entry, mods, server, at);
    } else {
      RetryShape(tries, AddRequest(dn, entry), server, at, OnAlreadyExists);
      assert a.requests[|a.requests| - 1] == AddRequest(dn, entry);
    }
  }

  /** Every way a `modify` ends is an upsert run. */
  lemma {:induction false} ModifyOutcome(tries: int, dn: Dn, entry: seq<(string, Value)>, mods: seq<(string, seq<Value>)>,
                                         server: Server, at: nat, fuel: nat)
    ensures UpsertRun(ModifySpec(tries, dn, entry, mods, server, at, fuel), dn, entry, mods, server, at)
    decreases fuel, 1
  {
    var a := Retry(tries, ModifyRequest(dn, mods), server, at, OnNoSuchObject);
    if !a.result.FellBack? {
      assert ModifySpec(tries, dn, entry, mods, server, at, fuel) == Settle(a);
      AttemptOutcome(tries, ModifyRequest(dn, mods), dn, entry, mods, server, at, OnNoSuchObject);
    } else if fuel > 0 {
      ModifyHandOverOutcome(tries, dn, entry, mods, server, at, fuel);
    } else {
      RetryUpsertRequests(tries, ModifyRequest(dn, mods), server, at, OnNoSuchObject, dn, entry, mods);
    }
  }

  lemma {:induction false} ModifyHandOverOutcome(tries: int, dn: Dn, entry: seq<(string, Value)>, mods: seq<(string, seq<Value>)>,
                                                 server: Server, at: nat, fuel: nat)
    requires Retry(tries, ModifyRequest(dn, mods), server, at, OnNoSuchObject).result.FellBack? && fuel > 0
    ensures UpsertRun(ModifySpec(tries, dn, entry, mods, server, at, fuel), dn, entry, mods, server, at)
    decreases fuel, 0
  {
    var a := Retry(tries, ModifyRequest(dn, mods), server, at, OnNoSuchObject);
    RetryUpsertRequests(tries, ModifyRequest(dn, mods), server, at, OnNoSuchObject, dn, entry, mods);
    var m := AddSpec(tries, dn, entry, mods, server, at + |a.requests|, fuel - 1);
    AddOutcome(tries, dn, entry, mods, server, at + |a.requests|, fuel - 1);
    ShiftedOutcome(a.requests, m, dn, entry, mods, server, at);
  }

  /** Modifying an entry that does not exist: the modify is answered
      NO_SUCH_OBJECT, so `add` takes over; its probe fails the same way, so
      the entry is added, and the record comes from the add's Post-Read
      value.  Three requests, one hand-over. */
  lemma ModifyOfMissingEntryAdds(tries: int, dn: Dn, entry: seq<(string, Value)>, mods: seq<(string, seq<Value>)>,
                                 created: seq<(string, Value)>)
    ensures var server: Server := i => if i < 2 then Parsed(LDAP_NO_SUCH_OBJECT, [], []) else Parsed(LDAP_SUCCESS, [], created);
      ModifySpec(tries, dn, entry, mods, server, 0, 1)
        == Run(Ok(created), [ModifyRequest(dn, mods), ReadRequest(dn, ["*"]), AddRequest(dn, entry)])
  {
    var server: Server := i => if i < 2 then Parsed(LDAP_NO_SUCH_OBJECT, [], []) else Parsed(LDAP_SUCCESS, [], created);
    var m := Retry(tries, ModifyRequest(dn, mods), server, 0, OnNoSuchObject);
    assert m == Run(FellBack, [ModifyRequest(dn, mods)]);
    var probe := ReadSpec(tries, dn, ["*"], server, 1);
    assert probe == Run(Err(Rejected(LDAP_NO_SUCH_OBJECT)), [ReadRequest(dn, ["*"])]);
    var a := Retry(tries, AddRequest(dn, entry), server, 2, OnAlreadyExists);
    assert a == Run(Succeeded([], created), [AddRequest(dn, entry)]);
    assert AttemptAdd(tries, dn, entry, mods, server, 2, 0) == Run(Ok(created), [AddRequest(dn, entry)]);
  }

  /** A read answered NO_SUCH_OBJECT at once fails after one request. */
  lemma ProbeAbsent(tries: int, dn: Dn, server: Server, at: nat)
    requires server(at).Parsed? && server(at).code == LDAP_NO_SUCH_OBJECT
    ensures ReadSpec(tries, dn, ["*"], server, at) == Run(Err(Rejected(LDAP_NO_SUCH_OBJECT)), [ReadRequest(dn, ["*"])])
  {
    RetryAnswered(tries, ReadRequest(dn, ["*"]), server, at, NoFallback);
  }

  /** An add answered ALREADY_EXISTS is handed over to `modify` at once,
      with the add as the only request added. */
  lemma AddHandsOver(tries: int, dn: Dn, entry: seq<(string, Value)>, mods: seq<(string, seq<Value>)>,
                     server: Server, at: nat, fuel: nat)
    requires server(at).Parsed? && server(at).code == LDAP_ALREADY_EXISTS && fuel > 0
    ensures AttemptAdd(tries, dn, entry, mods, server, at, fuel)
      == HandOver([AddRequest(dn, entry)], ModifySpec(tries, dn, entry, mods, server, at + 1, fuel - 1))
  {
    RetryAnswered(tries, AddRequest(dn, entry), server, at, OnAlreadyExists);
    var a := Retry(tries, AddRequest(dn, entry), server, at, OnAlreadyExists);
    assert a.requests == [AddRequest(dn, entry)];
  }

  /** A modify answered NO_SUCH_OBJECT is handed over to `add` at once. */
  lemma ModifyHandsOver(tries: int, dn: Dn, entry: seq<(string, Value)>, mods: seq<(string, seq<Value>)>,
                        server: Server, at: nat, fuel: nat)
    requires server(at).Parsed? && server(at).code == LDAP_NO_SUCH_OBJECT && fuel > 0
    ensures ModifySpec(tries, dn, entry, mods, server, at, fuel)
      == HandOver([ModifyRequest(dn, mods)], AddSpec(tries, dn, entry, mods, server, at + 1, fuel - 1))
  {
    RetryAnswered(tries, ModifyRequest(dn, mods), server, at, OnNoSuchObject);
    var a := Retry(tries, ModifyRequest(dn, mods), server, at, OnNoSuchObject);
    assert a.requests == [ModifyRequest(dn, mods)];
  }

  /** One round of the add/modify ping-pong: when the probe and the modify
      are answered NO_SUCH_OBJECT and the add ALREADY_EXISTS, `add` is back
      where it started three requests later, two units of fuel poorer and
      with nothing settled. */
  lemma UpsertRound(tries: int, dn: Dn, entry: seq<(string, Value)>, mods: seq<(string, seq<Value>)>,
                    server: Server, at: nat, fuel: nat)
    requires server(at) == Parsed(LDAP_NO_SUCH_OBJECT, [], [])
    requires server(at + 1) == Parsed(LDAP_ALREADY_EXISTS, [], [])
    requires server(at + 2) == Parsed(LDAP_NO_SUCH_OBJECT, [], [])
    ensures AddSpec(tries, dn, entry, mods, server, at, fuel + 2)
      == HandOver([ReadRequest(dn, ["*"]), AddRequest(dn, entry), ModifyRequest(dn, mods)],
                  AddSpec(tries, dn, entry, mods, server, at + 3, fuel))
  {
    var read := [ReadRequest(dn, ["*"])];
    ProbeAbsent(tries, dn, server, at);
    var attempt := AttemptAdd(tries, dn, entry, mods, server, at + 1, fuel + 2);
    assert AddSpec(tries, dn, entry, mods, server, at, fuel + 2) == HandOver(read, attempt);
    AddHandsOver(tries, dn, entry, mods, server, at + 1, fuel + 2);
    ModifyHandsOver(tries, dn, entry, mods, server, at + 2, fuel + 1);
    var rest := AddSpec(tries, dn, entry, mods, server, at + 3, fuel);
    assert attempt.requests == [AddRequest(dn, entry)] + ([ModifyRequest(dn, mods)] + rest.requests);
    assert read + ([AddRequest(dn, entry)] + ([ModifyRequest(dn, mods)] + rest.requests))
      == [ReadRequest(dn, ["*"]), AddRequest(dn, entry), ModifyRequest(dn, mods)] + rest.requests;
  }
  /** The reply to the `k`-th request of the ping-pong: ALREADY_EXISTS to
      every add, NO_SUCH_OBJECT to every probe and every modify. */
  function PingPong(k: nat): Reply {
    if k % 3 == 1 then Parsed(LDAP_ALREADY_EXISTS, [], []) else Parsed(LDAP_NO_SUCH_OBJECT, [], [])
  }

  /** A server that keeps answering the ping-pong keeps the upsert going
      for ever: whatever the fuel, `add` runs out of it with nothing
      settled, after a probe, an add and a modify for each two units. */
  lemma {:induction false} UpsertNeverSettles(tries: int, dn: Dn, entry: seq<(string, Value)>,
                                              mods: seq<(string, seq<Value>)>, server: Server, at: nat, fuel: nat)
    requires forall i :: at <= i ==> server(i) == PingPong(i - at)
    ensures AddSpec(tries, dn, entry, mods, server, at, fuel).result == Err(OutOfFuel)
    ensures |AddSpec(tries, dn, entry, mods, server, at, fuel).requests| == 3 * (fuel / 2) + 2 + fuel % 2
    decreases fuel
  {
    assert server(at) == PingPong(0);
    assert server(at + 1) == PingPong(1);
    assert server(at + 2) == PingPong(2);
    if fuel >= 2 {
      UpsertRound(tries, dn, entry, mods, server, at, fuel - 2);
      forall i | at + 3 <= i ensures server(i) == PingPong(i - (at + 3)) {
        assert server(i) == PingPong(i - at);
      }
      UpsertNeverSettles(tries, dn, entry, mods, server, at + 3, fuel - 2);
    } else {
      ProbeAbsent(tries, dn, server, at);
      RetryAnswered(tries, AddRequest(dn, entry), server, at + 1, OnAlreadyExists);
      if fuel == 1 {
        AddHandsOver(tries, dn, entry, mods, server, at + 1, 1);
        RetryAnswered(tries, ModifyRequest(dn, mods), server, at + 2, OnNoSuchObject);
      }
    }
  }


  /** `move`: one rename request, no retry; anything but success raises.
      The request asks for the new RDN "" under `newParent`, dropping the
      old RDN's values. */
  function MoveSpec(dn: Dn, newParent: Dn, server: Server, at: nat): Run<Result<()>> {
    Run(if IsSuccess(server(at)) then Ok(()) else Err(MoveFailed(dn)), [RenameRequest(dn, "", newParent, true)])
  }

  /** An RDN is `type=value` with a non-empty attribute type (section 3 of
      RFC 4514; multi-valued RDNs and escapes aside). */
  predicate IsRdn(s: string) {
    exists i :: 0 < i < |s| && s[i] == '='
  }

  /** The leaf RDN of a DN: everything before the first comma. */
  function LeafRdn(dn: Dn): (r: string)
    ensures ',' !in r && r <= dn
    decreases |dn|
  {
    if |dn| == 0 || dn[0] == ',' then "" else [dn[0]] + LeafRdn(dn[1..])
  }

  /** The DN an entry has after a rename. */
  function RenamedDn(req: Request): Dn
    requires req.RenameRequest?
  {
    req.newRdn + "," + req.newParent
  }

  /** An RDN followed by a parent DN has that RDN as its leaf. */
  lemma {:induction false} LeafOfJoined(rdn: string, parent: Dn)
    requires ',' !in rdn
    ensures LeafRdn(rdn + "," + parent) == rdn
    decreases |rdn|
  {
    if |rdn| > 0 {
      assert (rdn + "," + parent)[1..] == rdn[1..] + "," + parent;
      LeafOfJoined(rdn[1..], parent);
    }
  }

  /** `move` as written: its request names no RDN, so the entry it asks
      for under `newParent` has lost the leaf name `dn` had. */
  lemma MoveLosesLeafName(dn: Dn, newParent: Dn, server: Server, at: nat)
    requires IsRdn(LeafRdn(dn))
    ensures var run := MoveSpec(dn, newParent, server, at);
      && |run.requests| == 1
      && !IsRdn(run.requests[0].newRdn)
      && LeafRdn(RenamedDn(run.requests[0])) != LeafRdn(dn)
  {
    LeafOfJoined("", newParent);
  }

  /** `move` as evidently intended: the entry keeps its leaf RDN and goes
      under `newParent`. */
  function MoveKeepingNameSpec(dn: Dn, newParent: Dn, server: Server, at: nat): Run<Result<()>> {
    Run(if IsSuccess(server(at)) then Ok(()) else Err(MoveFailed(dn)),
        [RenameRequest(dn, LeafRdn(dn), newParent, true)])
  }

  /** The corrected `move` asks for the DN with `dn`'s own leaf RDN under
      `newParent`, and fails exactly when the server does not succeed. */
  lemma MoveKeepsLeafName(dn: Dn, newParent: Dn, server: Server, at: nat)
    ensures var run := MoveKeepingNameSpec(dn, newParent, server, at);
      && |run.requests| == 1
      && (IsRdn(LeafRdn(dn)) ==> IsRdn(run.requests[0].newRdn))
      && LeafRdn(RenamedDn(run.requests[0])) == LeafRdn(dn)
      && run.requests[0].newParent == newParent
      && (run.result.Ok? <==> IsSuccess(server(at)))
  {
    LeafOfJoined(LeafRdn(dn), newParent);
  }
}
