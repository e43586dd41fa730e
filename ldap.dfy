/** The directory session: one connection, its retry tuning and bind
    identity, and the operations search, list, read, add, modify, delete
    and move.  Sessions are kept one per URI in a registry.

    The connection is the reply oracle `server` of module LdapProtocol:
    `sent` records every request the session has issued, and the reply to
    the next one is `server(|sent|)`.  Each operation is proved to issue
    exactly the requests of its specification function there and to return
    its outcome, with cursor entries and Post-Read values turned into
    records.  `delete` works on a directory tree instead (module
    LdapDirectory). */
module Ldap {
  import opened Php
  import opened LdapEntry
  import opened LdapOptions
  import opened LdapMods
  import opened LdapProtocol
  import opened LdapDirectory

  /** The records of cursor entries, in cursor order. */
  function Records(es: seq<ResultEntry>): (rs: seq<Entry>)
    ensures |rs| == |es|
  {
    seq(|es|, i requires 0 <= i < |es| => RecordOf(es[i]))
  }

  /** What `read` returns for the outcome of its specification. */
  function ReadResult(r: Result<ResultEntry>): Result<Entry> {
    match r
    case Ok(e) => Ok(RecordOf(e))
    case Err(f) => Err(f)
  }

  /** What `search` and `list` return for the outcome of their
      specification. */
  function ListResult(r: Result<seq<ResultEntry>>): Result<seq<Entry>> {
    match r
    case Ok(es) => Ok(Records(es))
    case Err(f) => Err(f)
  }

  /** What `add` and `modify` return: the record built from the Post-Read
      value. */
  function UpsertResult(r: Result<seq<(string, Value)>>): Result<Entry> {
    match r
    case Ok(postRead) => Ok(ArrayRecord(postRead))
    case Err(f) => Err(f)
  }

  /** How `delete` ends: done, or refused by the server for `target`. */
  datatype Deletion = Deleted | DeleteFailed(target: Path)

  class Session {
    const uri: string
    /** The replies of the server this session is connected to. */
    const server: Server
    const maxBusyTries: int
    const busyWaitTime: int
    const authDn: Value
    const authPassword: Value
    /** The calls made to the transport's option setter, in order. */
    const setOptions: seq<(int, Value)>
    /** Every request issued so far, in order. */
    var sent: seq<Request>

    /** The settings the constructor decided. */
    function Settings(): Config {
      Config(maxBusyTries, busyWaitTime, authDn, authPassword, setOptions)
    }

    /** Connects, sets the protocol version, runs the option loop, binds
        and registers the session under its URI. */
    constructor(uri: string, options: seq<(int, Value)>, server: Server, registry: Registry)
      modifies registry
      ensures this.uri == uri && this.server == server && sent == []
      ensures Settings() == Parse(options)
      ensures maxBusyTries >= 0 && busyWaitTime >= 1
      ensures registry.instances == old(registry.instances)[uri := this]
    {
      var maxBusyTries, busyWaitTime := DEFAULT_MAX_BUSY_TRIES, DEFAULT_BUSY_WAIT_TIME;
      var authDn, authPassword := Str(""), Str("");
      var setOptions := [(LDAP_OPT_PROTOCOL_VERSION, Int(PROTOCOL_VERSION))];
      for i := 0 to |options|
        invariant Config(maxBusyTries, busyWaitTime, authDn, authPassword, setOptions) == Parse(options[..i])
      {
        var (option, value) := options[i];
        assert options[..i + 1][..i] == options[..i];
        if option >= PRIVATE_EXTENSION_BASE {
          if option == OPT_MAX_BUSY_TRIES {
            maxBusyTries := IntVal(value);
            if maxBusyTries <= 0 {
              maxBusyTries := 0;
            }
          } else if option == OPT_BUSY_WAIT_TIME {
            busyWaitTime := IntVal(value);
            if busyWaitTime <= 0 {
              busyWaitTime := DEFAULT_BUSY_WAIT_TIME;
            }
          } else if option == OPT_AUTH_USER {
            authDn := value;
          } else if option == OPT_AUTH_PASSWORD {
            authPassword := value;
          }
        } else {
          setOptions := setOptions + [(option, value)];
        }
      }
      assert options[..|options|] == options;
      ParseSettings(options);
      this.uri := uri;
      this.server := server;
      this.maxBusyTries := maxBusyTries;
      this.busyWaitTime := busyWaitTime;
      this.authDn := authDn;
      this.authPassword := authPassword;
      this.setOptions := setOptions;
      sent := [];
      new;
      registry.instances := registry.instances[uri := this];
    }

    /** The busy-retry loop shared by list, read, add and modify: send
        `req`; a BUSY reply is retried while the pre-decremented budget
        stays above 0; the status `fallback` names is handed back to the
        caller. */
    method Exchange(req: Request, fallback: Fallback) returns (a: Attempt)
      modifies this
      ensures var run := Retry(maxBusyTries, req, server, |old(sent)|, fallback);
        a == run.result && sent == old(sent) + run.requests
    {
      ghost var start := |sent|;
      var tries := maxBusyTries;
      while true
        invariant start <= |sent| && sent[..start] == old(sent)
        invariant forall i :: start <= i < |sent| ==> sent[i] == req
        invariant Retry(maxBusyTries, req, server, start, fallback).result
          == Retry(tries, req, server, |sent|, fallback).result
        invariant |Retry(maxBusyTries, req, server, start, fallback).requests|
          == |sent| - start + |Retry(tries, req, server, |sent|, fallback).requests|
        decreases tries
      {
        var reply := server(|sent|);
        sent := sent + [req];
        match reply
        case NotDispatched =>
          a := Raised(NotDispatchedFailure);
          break;
        case Unparsed =>
          a := Raised(UnparsedFailure);
          break;
        case Parsed(code, entries, postRead) =>
          if code == LDAP_SUCCESS {
            a := Succeeded(entries, postRead);
            break;
          }
          if fallback.Matches(code) {
            a := FellBack;
            break;
          }
          if code == LDAP_BUSY {
            tries := tries - 1;
            if tries <= 0 {
              a := Raised(BusyExceeded);
              break;
            }
            continue;
          }
          a := Raised(Rejected(code));
          break;
      }
      RetryShape(maxBusyTries, req, server, start, fallback);
      assert sent == old(sent) + Retry(maxBusyTries, req, server, start, fallback).requests;
    }

    /** `search`: one request; any status but success raises. */
    method Search(dn: Dn, filter: string, attributes: seq<string>) returns (r: Result<seq<Entry>>)
      modifies this
      ensures var run := SearchSpec(dn, filter, attributes, server, |old(sent)|);
        r == ListResult(run.result) && sent == old(sent) + run.requests
    {
      var reply := server(|sent|);
      sent := sent + [SearchRequest(dn, filter, attributes)];
      match reply
      case NotDispatched =>
        return Err(NotDispatchedFailure);
      case Unparsed =>
        return Err(UnparsedFailure);
      case Parsed(code, entries, _) =>
        if code != LDAP_SUCCESS {
          return Err(Rejected(code));
        }
        if code == LDAP_BUSY {
          // Mirrors the BUSY branch of LDAP.php:151-159, which cannot be
          // reached: a BUSY status has already raised above.
          assert false;
        }
        var records := ToRecords(entries);
        return Ok(records);
    }

    /** `list`: the busy-retry loop, then one record per cursor entry. */
    method List(dn: Dn, filter: string, attributes: seq<string>) returns (r: Result<seq<Entry>>)
      modifies this
      ensures var run := ListSpec(maxBusyTries, dn, filter, attributes, server, |old(sent)|);
        r == ListResult(run.result) && sent == old(sent) + run.requests
    {
      var a := Exchange(ListRequest(dn, filter, attributes), NoFallback);
      match a
      case Succeeded(entries, _) =>
        var records := ToRecords(entries);
        return Ok(records);
      case Raised(f) =>
        return Err(f);
      case FellBack =>
        RetryShape(maxBusyTries, ListRequest(dn, filter, attributes), server, |old(sent)|, NoFallback);
        assert false;
    }

    /** `read`: the busy-retry loop, then the record of the first cursor
        entry; an empty cursor raises. */
    method Read(dn: Dn, attributes: seq<string>) returns (r: Result<Entry>)
      modifies this
      ensures var run := ReadSpec(maxBusyTries, dn, attributes, server, |old(sent)|);
        r == ReadResult(run.result) && sent == old(sent) + run.requests
    {
      var a := Exchange(ReadRequest(dn, attributes), NoFallback);
      match a
      case Succeeded(entries, _) =>
        if |entries| == 0 {
          return Err(NotFound);
        }
        var e := FromResultEntry(entries[0]);
        return Ok(e);
      case Raised(f) =>
        return Err(f);
      case FellBack =>
        RetryShape(maxBusyTries, ReadRequest(dn, attributes), server, |old(sent)|, NoFallback);
        assert false;
    }

    /** `add`: the upsert starting with the probe; the record is built from
        the Post-Read value of the add or modify that succeeded. */
    method Add(dn: Dn, entry: seq<(string, Value)>, fuel: nat) returns (r: Result<Entry>)
      modifies this
      ensures var run := AddSpec(maxBusyTries, dn, entry, ModSet(entry), server, |old(sent)|, fuel);
        r == UpsertResult(run.result) && sent == old(sent) + run.requests
    {
      var values := AddValues(dn, entry, fuel);
      r := Record(values);
    }

    /** `modify`: the upsert starting with the modify request. */
    method Modify(dn: Dn, entry: seq<(string, Value)>, fuel: nat) returns (r: Result<Entry>)
      modifies this
      ensures var run := ModifySpec(maxBusyTries, dn, entry, ModSet(entry), server, |old(sent)|, fuel);
        r == UpsertResult(run.result) && sent == old(sent) + run.requests
    {
      var values := ModifyValues(dn, entry, fuel);
      r := Record(values);
    }

    /** The body of `add` up to the record: probe with `read`; an entry that
        reads back is handed to `modify`, otherwise the add request is sent
        (`InsertValues`).  `fuel` bounds the number of hand-overs. */
    method AddValues(dn: Dn, entry: seq<(string, Value)>, fuel: nat) returns (r: Result<seq<(string, Value)>>)
      modifies this
      decreases fuel, 1
      ensures var run := AddSpec(maxBusyTries, dn, entry, ModSet(entry), server, |old(sent)|, fuel);
        r == run.result && sent == old(sent) + run.requests
    {
      ghost var probe := ReadSpec(maxBusyTries, dn, ["*"], server, |old(sent)|);
      ghost var run := AddSpec(maxBusyTries, dn, entry, ModSet(entry), server, |old(sent)|, fuel);
      var found := Probe(dn);
      AddSteps(maxBusyTries, dn, entry, ModSet(entry), server, |old(sent)|, fuel);
      if found {
        if fuel == 0 {
          return Err(OutOfFuel);
        }
        ghost var m := ModifySpec(maxBusyTries, dn, entry, ModSet(entry), server, |sent|, fuel - 1);
        r := ModifyValues(dn, entry, fuel - 1);
        Concatenation(old(sent), probe.requests, m.requests);
        return;
      }
      ghost var attempt := AttemptAdd(maxBusyTries, dn, entry, ModSet(entry), server, |sent|, fuel);
      r := InsertValues(dn, entry, fuel);
      Concatenation(old(sent), probe.requests, attempt.requests);
    }

    /** The probe of `add`: `read` with every failure caught; tells whether
        a record came back. */
    method Probe(dn: Dn) returns (found: bool)
      modifies this
      ensures var run := ReadSpec(maxBusyTries, dn, ["*"], server, |old(sent)|);
        (found <==> run.result.Ok?) && sent == old(sent) + run.requests
    {
      var original := Read(dn, ["*"]);
      found := original.Ok?;
    }

    /** The second half of `add`: the add loop, handing ALREADY_EXISTS over
        to `modify`. */
    method InsertValues(dn: Dn, entry: seq<(string, Value)>, fuel: nat) returns (r: Result<seq<(string, Value)>>)
      modifies this
      decreases fuel, 0
      ensures var run := AttemptAdd(maxBusyTries, dn, entry, ModSet(entry), server, |old(sent)|, fuel);
        r == run.result && sent == old(sent) + run.requests
    {
      ghost var attempt := Retry(maxBusyTries, AddRequest(dn, entry), server, |old(sent)|, OnAlreadyExists);
      var a := Exchange(AddRequest(dn, entry), OnAlreadyExists);
      match a
      case Succeeded(_, postRead) =>
        return Ok(postRead);
      case FellBack =>
        if fuel == 0 {
          return Err(OutOfFuel);
        }
        ghost var m := ModifySpec(maxBusyTries, dn, entry, ModSet(entry), server, |sent|, fuel - 1);
        r := ModifyValues(dn, entry, fuel - 1);
        Concatenation(old(sent), attempt.requests, m.requests);
      case Raised(f) =>
        return Err(f);
    }

    /** The body of `modify` up to the record: the replace set of `entry`,
        then the modify loop, handing NO_SUCH_OBJECT over to `add` with the
        original array.  `fuel` bounds the number of hand-overs. */
    method ModifyValues(dn: Dn, entry: seq<(string, Value)>, fuel: nat) returns (r: Result<seq<(string, Value)>>)
      modifies this
      decreases fuel, 1
      ensures var run := ModifySpec(maxBusyTries, dn, entry, ModSet(entry), server, |old(sent)|, fuel);
        r == run.result && sent == old(sent) + run.requests
    {
      var mods := BuildMods(entry);
      ghost var attempt := Retry(maxBusyTries, ModifyRequest(dn, mods), server, |old(sent)|, OnNoSuchObject);
      var a := Exchange(ModifyRequest(dn, mods), OnNoSuchObject);
      match a
      case Succeeded(_, postRead) =>
        return Ok(postRead);
      case FellBack =>
        if fuel == 0 {
          return Err(OutOfFuel);
        }
        ghost var m := AddSpec(maxBusyTries, dn, entry, ModSet(entry), server, |sent|, fuel - 1);
        r := AddValues(dn, entry, fuel - 1);
        Concatenation(old(sent), attempt.requests, m.requests);
      case Raised(f) =>
        return Err(f);
    }

    /** `move`: one rename request, no retry. */
    method Move(dn: Dn, newParent: Dn) returns (r: Result<()>)
      modifies this
      ensures var run := MoveSpec(dn, newParent, server, |old(sent)|);
        r == run.result && sent == old(sent) + run.requests
    {
      var reply := server(|sent|);
      sent := sent + [RenameRequest(dn, "", newParent, true)];
      if !IsSuccess(reply) {
        return Err(MoveFailed(dn));
      }
      return Ok(());
    }

    /** `move` as evidently intended, keeping the leaf RDN. */
    method MoveKeepingName(dn: Dn, newParent: Dn) returns (r: Result<()>)
      modifies this
      ensures var run := MoveKeepingNameSpec(dn, newParent, server, |old(sent)|);
        r == run.result && sent == old(sent) + run.requests
    {
      var reply := server(|sent|);
      sent := sent + [RenameRequest(dn, LeafRdn(dn), newParent, true)];
      if !IsSuccess(reply) {
        return Err(MoveFailed(dn));
      }
      return Ok(());
    }
  }

  /** `delete` as written.  A DN that cannot be listed is deleted outright,
      which the server refuses.  Otherwise every child is deleted
      recursively, but the loop variable overwrites `dn`, so the final
      deletion targets the last child visited, which is gone by then: only
      a leaf is ever deleted, and a non-leaf loses its children's subtrees
      (as far as they go) while the call fails naming an entry it has just
      removed. */
  method Delete(dir: Directory, dn: Path) returns (r: Deletion)
    requires dir.Valid()
    modifies dir
    ensures dir.Valid()
    ensures dir.entries <= old(dir.entries)
    ensures old(dir.entries) - dir.entries <= Subtree(old(dir.entries), dn)
    ensures r == Deleted <==> dn in old(dir.entries) && Children(old(dir.entries), dn) == {}
    ensures r == Deleted ==> dir.entries == old(dir.entries) - {dn}
    ensures dn !in old(dir.entries) ==> r == DeleteFailed(dn) && dir.entries == old(dir.entries)
    ensures dn in old(dir.entries) && r.DeleteFailed? ==>
      && dn in dir.entries && dn < r.target && r.target in old(dir.entries) - dir.entries
    decreases Subtree(dir.entries, dn), 1
  {
    var kids := dir.ListChildren(dn);
    if kids.None? {
      var ok := dir.DeleteEntry(dn);
      return DeleteFailed(dn);
    }
    var failed, target := DeleteChildren(dir, dn, kids.value);
    if failed.Some? {
      return DeleteFailed(failed.value);
    }
    var ok := dir.DeleteEntry(target);
    if !ok {
      return DeleteFailed(target);
    }
    return Deleted;
  }

  /** The loop of `delete` over the children of `dn` listed in `kids`:
      each is deleted recursively and becomes the loop's `dn`, so `target`
      ends as the last child visited, or `dn` when there was none.  The
      first failure stops the loop and is passed on in `failed`. */
  method DeleteChildren(dir: Directory, dn: Path, kids: set<Path>) returns (failed: Option<Path>, target: Path)
    requires dir.Valid() && dn in dir.entries && kids == Children(dir.entries, dn)
    modifies dir
    ensures dir.Valid()
    ensures dir.entries <= old(dir.entries)
    ensures old(dir.entries) - dir.entries <= Subtree(old(dir.entries), dn) - {dn}
    ensures failed.Some? ==> kids != {} && dn < failed.value && failed.value in old(dir.entries) - dir.entries
    ensures failed.None? && kids == {} ==> target == dn && dir.entries == old(dir.entries)
    ensures failed.None? && kids != {} ==> target in kids && target !in dir.entries
    decreases Subtree(dir.entries, dn), 0
  {
    ghost var tree := dir.entries;
    ghost var gone: set<Path> := {};
    target := dn;
    var todo := kids;
    while todo != {}
      invariant dir.Valid()
      invariant todo <= kids
      invariant gone <= Subtree(tree, dn) - {dn}
      invariant dir.entries == tree - gone
      invariant forall d :: d in gone ==> |d| > |dn| && d[..|dn| + 1] !in todo
      invariant target == dn ==> todo == kids && gone == {}
      invariant target != dn ==> target in kids && target in gone
      decreases todo
    {
      var c :| c in todo;
      ChildSubtreeUntouched(tree, gone, dn, c, todo);
      ChildSubtreePrefix(tree, dn, c);
      assert c in Subtree(tree, c);
      assert dn in Subtree(tree, dn) - Subtree(tree, c);
      target := c;
      var sub := Delete(dir, c);
      ghost var removed := tree - gone - dir.entries;
      assert removed <= Subtree(tree, c);
      if sub.DeleteFailed? {
        assert dn < sub.target by {
          assert sub.target[..|dn|] == c[..|dn|] == dn;
        }
        return Some(sub.target), target;
      }
      gone := gone + removed;
      todo := todo - {c};
    }
    return None, target;
  }

  /** `delete` as evidently intended: every child's subtree first, then
      `dn` itself.  In a tree it fails only for a DN that does not exist,
      and otherwise removes exactly the subtree. */
  method DeleteSubtree(dir: Directory, dn: Path) returns (r: Deletion)
    requires dir.Valid()
    modifies dir
    ensures dir.Valid()
    ensures r == Deleted <==> dn in old(dir.entries)
    ensures r == Deleted ==> dir.entries == old(dir.entries) - Subtree(old(dir.entries), dn)
    ensures r.DeleteFailed? ==> r.target == dn && dir.entries == old(dir.entries)
    decreases Subtree(dir.entries, dn)
  {
    var kids := dir.ListChildren(dn);
    if kids.None? {
      return DeleteFailed(dn);
    }
    ghost var tree := dir.entries;
    ghost var gone: set<Path> := {};
    var todo := kids.value;
    while todo != {}
      invariant dir.Valid()
      invariant todo <= Children(tree, dn)
      invariant gone <= Subtree(tree, dn) - {dn}
      invariant dir.entries == tree - gone
      invariant forall d :: d in gone ==> |d| > |dn| && d[..|dn| + 1] !in todo
      invariant forall c :: c in Children(tree, dn) && c !in todo ==> Subtree(tree, c) <= gone
      decreases todo
    {
      var c :| c in todo;
      ChildSubtreeUntouched(tree, gone, dn, c, todo);
      ChildSubtreePrefix(tree, dn, c);
      assert c in Subtree(tree, c);
      assert dn in Subtree(tree, dn) - Subtree(tree, c);
      var sub := DeleteSubtree(dir, c);
      assert sub == Deleted;
      gone := gone + Subtree(tree, c);
      todo := todo - {c};
    }
    SubtreeOfChildren(tree, dn, gone);
    var ok := dir.DeleteEntry(dn);
    assert ok;
    return Deleted;
  }

  /** A parent with one child, deleted as written: the child goes, the
      parent stays, and the call fails naming the child it just removed. */
  method DeleteOfParentFails() returns (r: Deletion, left: set<Path>)
    ensures r == DeleteFailed(["o", "a"]) && left == {["o"]}
  {
    var tree: set<Path> := {["o"], ["o", "a"]};
    assert ["o", "a"][..1] == ["o"];
    var dir := new Directory(tree);
    assert ["o", "a"] in Children(tree, ["o"]);
    r := Delete(dir, ["o"]);
    left := dir.entries;
  }

  /** The same parent deleted as intended: the whole subtree goes. */
  method DeleteOfParentSucceeds() returns (r: Deletion, left: set<Path>)
    ensures r == Deleted && left == {}
  {
    var tree: set<Path> := {["o"], ["o", "a"]};
    assert ["o", "a"][..1] == ["o"];
    var dir := new Directory(tree);
    assert ["o", "a"] in Subtree(tree, ["o"]);
    r := DeleteSubtree(dir, ["o"]);
    left := dir.entries;
  }

  /** Solver hint: regroups a concatenation of request logs. */
  lemma Concatenation(a: seq<Request>, b: seq<Request>, c: seq<Request>)
    ensures a + b + c == a + (b + c)
  {
  }

  /** `Entry::fromArray` on the Post-Read value of the request that
      succeeded; a failure is passed on. */
  method Record(values: Result<seq<(string, Value)>>) returns (r: Result<Entry>)
    ensures r == UpsertResult(values)
  {
    match values
    case Ok(postRead) =>
      var record := FromArray(postRead);
      return Ok(record);
    case Err(f) =>
      return Err(f);
  }

  /** One record per cursor entry, in cursor order. */
  method ToRecords(entries: seq<ResultEntry>) returns (records: seq<Entry>)
    ensures records == Records(entries)
  {
    records := [];
    for j := 0 to |entries|
      invariant |records| == j
      invariant forall i :: 0 <= i < j ==> records[i] == RecordOf(entries[i])
    {
      var record := FromResultEntry(entries[j]);
      records := records + [record];
    }
  }

  /** The sessions, one per URI. */
  class Registry {
    var instances: map<string, Session>

    constructor()
      ensures instances == map[]
    {
      instances := map[];
    }

    /** The session for `uri`: the registered one, whatever `options` say,
        or a new one, which is then registered. */
    method GetInstance(uri: string, options: seq<(int, Value)>, server: Server) returns (s: Session)
      modifies this
      ensures uri in old(instances) ==> s == old(instances)[uri] && instances == old(instances)
      ensures uri !in old(instances) ==>
        && fresh(s) && s.uri == uri && s.server == server && s.Settings() == Parse(options)
        && instances == old(instances)[uri := s]
      ensures uri in instances && instances[uri] == s
    {
      if uri !in instances {
        var created := new Session(uri, options, server, this);
        instances := instances[uri := created];
      }
      s := instances[uri];
    }
  }
}
