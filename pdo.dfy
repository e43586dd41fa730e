/** The database connection with nested transactions.

    Only the outermost level of a transaction reaches the driver: the first
    begin starts a real transaction and inner begins set savepoints named
    `trans<N>`, where N is the new depth.  `transactionCounter` holds the
    depth.  Everything the connection asks of the driver (a real begin,
    commit or rollback, or a SAVEPOINT / ROLLBACK TO statement) is recorded
    as an event, in order; the driver itself is assumed to succeed. */
module Pdo {

  /** What the connection asks of the driver. */
  datatype Event =
    | DriverBegin
    | DriverCommit
    | DriverRollBack
    | Savepoint(n: int)    // `SAVEPOINT trans<n>`
    | RollbackTo(n: int)   // `ROLLBACK TO trans<n>`

  /** One call on a connection at depth `counter` before the call: the new
      depth, the driver events it causes and the value it returns. */
  datatype Step = Step(counter: int, emitted: seq<Event>, result: bool)

  /** `beginTransaction`: the test reads the depth before the
      post-increment, so only a begin from depth 0 goes to the driver;
      any other depth sets the savepoint named after the new depth. */
  function BeginStep(counter: int): Step {
    if counter == 0 then Step(1, [DriverBegin], true)
    else Step(counter + 1, [Savepoint(counter + 1)], counter + 1 >= 0)
  }

  /** `commit`: one level less; the driver commits when that reaches 0. */
  function CommitStep(counter: int): Step {
    var depth := counter - 1;
    Step(depth, if depth == 0 then [DriverCommit] else [], depth >= 0)
  }

  /** `rollBack`: one level less; at depth k != 0 it rolls back to
      `trans<k + 1>` (PHP 8 evaluates the `+` before the concatenation),
      at 0 the driver rolls back. */
  function RollBackStep(counter: int): Step {
    var depth := counter - 1;
    if depth != 0 then Step(depth, [RollbackTo(depth + 1)], true)
    else Step(0, [DriverRollBack], true)
  }

  /** `cancelTransaction` as written: the depth is reset to 0, then one
      `rollBack`. */
  function CancelStep(counter: int): Step {
    RollBackStep(0)
  }

  /** `completeTransaction` as written: the depth is reset to 0, then one
      `commit`. */
  function CompleteStep(counter: int): Step {
    CommitStep(0)
  }

  /** `cancelTransaction` as evidently intended: drop every inner level and
      roll back the outer transaction. */
  function CancelAllStep(counter: int): Step {
    RollBackStep(1)
  }

  /** `completeTransaction` as evidently intended: drop every inner level
      and commit the outer transaction. */
  function CompleteAllStep(counter: int): Step {
    CommitStep(1)
  }

  /** `inTransaction`. */
  predicate InTransaction(counter: int) {
    counter > 0
  }

  /** The calls a client can make. */
  datatype Call = BeginCall | CommitCall | RollBackCall | CancelCall | CompleteCall

  function Apply(counter: int, call: Call): Step {
    match call
    case BeginCall => BeginStep(counter)
    case CommitCall => CommitStep(counter)
    case RollBackCall => RollBackStep(counter)
    case CancelCall => CancelStep(counter)
    case CompleteCall => CompleteStep(counter)
  }

  /** A run of calls: the final depth and every driver event, in order. */
  datatype Trace = Trace(counter: int, events: seq<Event>)

  function Replay(counter: int, calls: seq<Call>): Trace
    decreases |calls|
  {
    if |calls| == 0 then Trace(counter, [])
    else
      var s := Apply(counter, calls[0]);
      var rest := Replay(s.counter, calls[1..]);
      Trace(rest.counter, s.emitted + rest.events)
  }

  function Repeat(call: Call, n: nat): (r: seq<Call>)
    ensures |r| == n && forall i :: 0 <= i < n ==> r[i] == call
  {
    seq(n, _ => call)
  }

  /** `SAVEPOINT trans<from>`, `trans<from + 1>`, ..., `count` of them. */
  function Savepoints(from: int, count: nat): (r: seq<Event>)
    ensures |r| == count
  {
    seq(count, i requires 0 <= i < count => Savepoint(from + i))
  }

  /** `ROLLBACK TO trans<top>`, `trans<top - 1>`, ..., `count` of them. */
  function RollbackTos(top: int, count: nat): (r: seq<Event>)
    ensures |r| == count
  {
    seq(count, i requires 0 <= i < count => RollbackTo(top - i))
  }

  /** Running two call sequences one after the other. */
  lemma {:induction false} ReplayAppend(counter: int, a: seq<Call>, b: seq<Call>)
    ensures Replay(counter, a + b) ==
      var first := Replay(counter, a);
      var second := Replay(first.counter, b);
      Trace(second.counter, first.events + second.events)
    decreases |a|
  {
    if |a| == 0 {
      assert a + b == b;
    } else {
      assert (a + b)[0] == a[0];
      assert (a + b)[1..] == a[1..] + b;
      ReplayAppend(Apply(counter, a[0]).counter, a[1..], b);
    }
  }

  /** `beginTransaction` always deepens by one: `n` begins from depth 0 go
      to the driver once and then set `trans2` ... `trans<n>`; from any
      other depth d >= 1 they set `trans<d + 1>` ... `trans<d + n>`. */
  lemma {:induction false} Begins(counter: nat, n: nat)
    ensures Replay(counter, Repeat(BeginCall, n)) ==
      if counter == 0 && n > 0 then Trace(n, [DriverBegin] + Savepoints(2, n - 1))
      else Trace(counter + n, Savepoints(counter + 1, n))
    decreases n
  {
    if n > 0 {
      var calls := Repeat(BeginCall, n);
      assert calls[1..] == Repeat(BeginCall, n - 1);
      Begins(counter + 1, n - 1);
      if counter == 0 {
        assert Savepoints(2, n - 1) == Savepoints(1 + 1, n - 1);
      } else {
        assert [Savepoint(counter + 1)] + Savepoints(counter + 2, n - 1) == Savepoints(counter + 1, n);
      }
    }
  }

  /** `n` commits from depth d >= n: the driver commits only when the depth
      reaches 0. */
  lemma {:induction false} Commits(counter: int, n: nat)
    requires counter >= n
    ensures Replay(counter, Repeat(CommitCall, n)) ==
      Trace(counter - n, if counter == n && n > 0 then [DriverCommit] else [])
    decreases n
  {
    if n > 0 {
      var calls := Repeat(CommitCall, n);
      assert calls[1..] == Repeat(CommitCall, n - 1);
      Commits(counter - 1, n - 1);
    }
  }

  /** `n` rollbacks from depth d >= n: one ROLLBACK TO per inner level,
      innermost first, and the driver rolls back when the depth reaches
      0. */
  lemma {:induction false} RollBacks(counter: int, n: nat)
    requires counter >= n
    ensures Replay(counter, Repeat(RollBackCall, n)) ==
      if counter == n && n > 0 then Trace(0, RollbackTos(counter, n - 1) + [DriverRollBack])
      else Trace(counter - n, RollbackTos(counter, n))
    decreases n
  {
    if n > 0 {
      var calls := Repeat(RollBackCall, n);
      assert calls[1..] == Repeat(RollBackCall, n - 1);
      RollBacks(counter - 1, n - 1);
      if counter == n {
        if n > 1 {
          assert [RollbackTo(counter)] + RollbackTos(counter - 1, n - 2) == RollbackTos(counter, n - 1);
        }
      } else {
        assert [RollbackTo(counter)] + RollbackTos(counter - 1, n - 1) == RollbackTos(counter, n);
      }
    }
  }

  /** A balanced transaction of depth n committed level by level: one real
      begin, the savepoints `trans2` ... `trans<n>`, one real commit, and
      the depth is back to 0. */
  lemma BalancedCommit(n: nat)
    requires n > 0
    ensures Replay(0, Repeat(BeginCall, n) + Repeat(CommitCall, n)) ==
      Trace(0, [DriverBegin] + Savepoints(2, n - 1) + [DriverCommit])
  {
    ReplayAppend(0, Repeat(BeginCall, n), Repeat(CommitCall, n));
    Begins(0, n);
    Commits(n, n);
  }

  /** The same transaction rolled back level by level: each inner level is
      rolled back to its own savepoint, innermost first, then the driver
      rolls back and the depth is back to 0. */
  lemma BalancedRollBack(n: nat)
    requires n > 0
    ensures Replay(0, Repeat(BeginCall, n) + Repeat(RollBackCall, n)) ==
      Trace(0, [DriverBegin] + Savepoints(2, n - 1) + RollbackTos(n, n - 1) + [DriverRollBack])
  {
    ReplayAppend(0, Repeat(BeginCall, n), Repeat(RollBackCall, n));
    Begins(0, n);
    RollBacks(n, n);
  }

  /** Savepoint names agree: a begin from depth d >= 1 sets `trans<d + 1>`,
      and a rollback at depth d + 1 rolls back to that very savepoint and
      restores depth d. */
  lemma SavepointNames(depth: int)
    requires depth >= 1
    ensures BeginStep(depth).emitted == [Savepoint(depth + 1)]
    ensures RollBackStep(BeginStep(depth).counter) == Step(depth, [RollbackTo(depth + 1)], true)
  {
  }

  /** Each call moves the depth by exactly one level, and a connection is in
      a transaction exactly after a begin from a depth >= 0. */
  lemma DepthMoves(counter: int)
    ensures BeginStep(counter).counter == counter + 1
    ensures CommitStep(counter).counter == counter - 1
    ensures RollBackStep(counter).counter == counter - 1
    ensures counter >= 0 ==> InTransaction(BeginStep(counter).counter)
  {
  }

  /** `cancelTransaction` as written, from any depth: the rollback sees
      depth -1, rolls back to `trans0`, which no begin ever sets, never
      reaches the driver, and leaves the connection at depth -1. */
  lemma CancelFromAnyDepth(counter: int)
    ensures CancelStep(counter) == Step(-1, [RollbackTo(0)], true)
    ensures !InTransaction(CancelStep(counter).counter)
  {
  }

  /** `completeTransaction` as written, from any depth: the commit sees
      depth -1, the driver never commits, and the depth stays -1. */
  lemma CompleteFromAnyDepth(counter: int)
    ensures CompleteStep(counter) == Step(-1, [], false)
  {
  }

  /** After a cancel as written, the next begin does not start a real
      transaction: it sets savepoint `trans0` instead. */
  lemma {:induction false} BeginAfterCancel(depth: nat)
    ensures Replay(depth, [CancelCall, BeginCall]) == Trace(0, [RollbackTo(0), Savepoint(0)])
  {
    assert [CancelCall, BeginCall][1..] == [BeginCall];
    assert [BeginCall][1..] == [];
  }

  /** The corrected cancel ends the outer transaction through the driver and
      leaves depth 0, from any depth. */
  lemma CancelAllEnds(counter: int)
    ensures CancelAllStep(counter) == Step(0, [DriverRollBack], true)
    ensures !InTransaction(CancelAllStep(counter).counter)
  {
  }

  /** The corrected complete commits the outer transaction through the
      driver and leaves depth 0, from any depth. */
  lemma CompleteAllEnds(counter: int)
    ensures CompleteAllStep(counter) == Step(0, [DriverCommit], true)
  {
  }

  /** The connection: its DSN, the depth and the driver events so far. */
  class Connection {
    const dsn: string
    /** `transactionCounter`. */
    var counter: int
    /** Every driver call made, in order. */
    var events: seq<Event>

    /** Opens the connection and registers it under its DSN. */
    constructor(dsn: string, registry: Registry)
      modifies registry
      ensures this.dsn == dsn && counter == 0 && events == []
      ensures registry.instances == old(registry.instances)[dsn := this]
    {
      this.dsn := dsn;
      counter := 0;
      events := [];
      new;
      registry.instances := registry.instances[dsn := this];
    }

    method BeginTransaction() returns (ok: bool)
      modifies this
      ensures var s := BeginStep(old(counter));
        counter == s.counter && events == old(events) + s.emitted && ok == s.result
    {
      var before := counter;
      counter := counter + 1;
      if before == 0 {
        events := events + [DriverBegin];
        return true;
      }
      events := events + [Savepoint(counter)];
      return counter >= 0;
    }

    method Commit() returns (ok: bool)
      modifies this
      ensures var s := CommitStep(old(counter));
        counter == s.counter && events == old(events) + s.emitted && ok == s.result
    {
      counter := counter - 1;
      if counter == 0 {
        events := events + [DriverCommit];
      }
      return counter >= 0;
    }

    method RollBack() returns (ok: bool)
      modifies this
      ensures var s := RollBackStep(old(counter));
        counter == s.counter && events == old(events) + s.emitted && ok == s.result
    {
      counter := counter - 1;
      if counter != 0 {
        events := events + [RollbackTo(counter + 1)];
        return true;
      }
      events := events + [DriverRollBack];
      return true;
    }

    method CancelTransaction()
      modifies this
      ensures var s := CancelStep(old(counter));
        counter == s.counter && events == old(events) + s.emitted
    {
      counter := 0;
      var _ := RollBack();
    }

    method CompleteTransaction()
      modifies this
      ensures var s := CompleteStep(old(counter));
        counter == s.counter && events == old(events) + s.emitted
    {
      counter := 0;
      var _ := Commit();
    }

    /** The corrected `cancelTransaction`. */
    method CancelAllTransactions()
      modifies this
      ensures var s := CancelAllStep(old(counter));
        counter == s.counter && events == old(events) + s.emitted
    {
      counter := 1;
      var _ := RollBack();
    }

    /** The corrected `completeTransaction`. */
    method CompleteAllTransactions()
      modifies this
      ensures var s := CompleteAllStep(old(counter));
        counter == s.counter && events == old(events) + s.emitted
    {
      counter := 1;
      var _ := Commit();
    }

    method InTransactionNow() returns (b: bool)
      ensures b == InTransaction(counter)
    {
      return counter > 0;
    }
  }

  /** The connections, one per DSN. */
  class Registry {
    var instances: map<string, Connection>

    constructor()
      ensures instances == map[]
    {
      instances := map[];
    }

    /** The connection for `dsn`: the registered one, or a new one, which
        registers itself. */
    method GetInstance(dsn: string) returns (c: Connection)
      modifies this
      ensures dsn in old(instances) ==> c == old(instances)[dsn] && instances == old(instances)
      ensures dsn !in old(instances) ==>
        && fresh(c) && c.dsn == dsn && c.counter == 0 && c.events == []
        && instances == old(instances)[dsn := c]
      ensures dsn in instances && instances[dsn] == c
    {
      if dsn !in instances {
        var created := new Connection(dsn, this);
        instances := instances[dsn := created];
      }
      c := instances[dsn];
    }
  }
}
