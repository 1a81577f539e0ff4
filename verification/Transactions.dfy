/** Transactions: the database server as an abstract machine, the driver's connection handle with its
    cached autocommit attribute (IBM_DB_Driver/ibm_db.c), the adapter's transaction and savepoint calls
    (ibm_db_adapter.rb), and the nested-transaction semantics they are meant to have. */
module Transactions {

  const OFF := 0
  const ON := 1

  // ---------- the server ----------

  /** A database is the sequence of writes it has absorbed; any deterministic database is an image of it. */
  type Write = string
  type Name = nat
  type Db = seq<Write>

  datatype Save = Save(name: Name, at: Db)

  /** `working` is what the connection sees, `durable` what survives it. */
  datatype Server = Server(durable: Db, working: Db, saves: seq<Save>, auto: int) {
    function Commit(): Server {
      this.(durable := working, saves := [])
    }

    function Rollback(): Server {
      this.(working := durable, saves := [])
    }

    /** Setting SQL_ATTR_AUTOCOMMIT; switching it on commits the pending unit of work. */
    function SetAuto(v: int): Server {
      if v == ON && auto != ON then Commit().(auto := ON) else this.(auto := v)
    }

    /** With autocommit on, every statement is a unit of work of its own. */
    function EndStatement(): Server {
      if auto == ON then Commit() else this
    }

    /** Position of the savepoint in force under a name, |saves| if there is none. */
    function Find(n: Name): (k: nat)
      ensures k <= |saves|
    {
      FindName(SaveNames(saves), n, 0)
    }

    /** A name that is reused destroys only the savepoint that had it. */
    function SetSave(n: Name): Server {
      var k := Find(n);
      var kept := if k < |saves| then Without(saves, k) else saves;
      this.(saves := kept + [Save(n, working)])
    }

    function RollbackTo(n: Name): Server {
      var k := Find(n);
      if k < |saves| then this.(working := saves[k].at, saves := saves[..k + 1]) else this
    }

    function Release(n: Name): Server {
      this.(saves := saves[..Find(n)])
    }
  }

  function Without(saves: seq<Save>, k: nat): seq<Save>
    requires k < |saves|
  {
    seq(|saves| - 1, i requires 0 <= i < |saves| - 1 => if i < k then saves[i] else saves[i + 1])
  }

  function SaveNames(saves: seq<Save>): (r: seq<Name>)
    ensures |r| == |saves|
  {
    seq(|saves|, i requires 0 <= i < |saves| => saves[i].name)
  }

  /** Position of the first occurrence of a name at or behind `from`, |names| if there is none. */
  function FindName(names: seq<Name>, n: Name, from: nat): (k: nat)
    requires from <= |names|
    ensures from <= k <= |names|
    ensures k < |names| ==> names[k] == n
    ensures forall i :: from <= i < k ==> names[i] != n
    decreases |names| - from
  {
    if from == |names| || names[from] == n then from else FindName(names, n, from + 1)
  }

  datatype Statement = Apply(w: Write) | SetSavepoint(n: Name) | ToSavepoint(n: Name) | FreeSavepoint(n: Name)

  /** A statement the server refuses changes nothing. */
  function Execute(s: Server, st: Statement, ok: bool): Server {
    if !ok then s
    else
      (match st
       case Apply(w) => s.(working := s.working + [w])
       case SetSavepoint(n) => s.SetSave(n)
       case ToSavepoint(n) => s.RollbackTo(n)
       case FreeSavepoint(n) => s.Release(n)).EndStatement()
  }

  // ---------- the driver ----------

  datatype Conn = Conn(server: Server, autoCommit: int, transactionActive: bool, handleActive: bool)

  /** Driver calls with the outcome of the CLI call each of them makes. */
  datatype DriverCall =
    | Autocommit(v: int, ok: bool)
    | SetOption(v: int, ok: bool)
    | Prepare
    | Exec(st: Statement, ok: bool)
    | ExecPrepared(st: Statement, ok: bool)
    | CommitWork(ok: bool)
    | RollbackWork(ok: bool)
    | Close(rollbackOk: bool, disconnectOk: bool)
    | Collect(rollbackOk: bool)

  predicate Accepted(v: int, ok: bool) {
    ok && (v == ON || v == OFF)
  }

  /** The CLI call that sets the attribute, and the driver's bookkeeping after it. */
  function SetAttribute(c: Conn, v: int, ok: bool): Conn {
    if !Accepted(v, ok) then c
    else c.(server := c.server.SetAuto(v), autoCommit := v,
            transactionActive := if v == ON then false else c.transactionActive)
  }

  /** Disconnecting discards what was not committed. */
  function Disconnected(c: Conn): Conn {
    c.(server := c.server.Rollback(), handleActive := false)
  }

  function DriverStep(c: Conn, call: DriverCall): Conn {
    if !c.handleActive then c
    else
      match call
      case Autocommit(v, ok) => if v == c.autoCommit then c else SetAttribute(c, v, ok)
      case SetOption(v, ok) => SetAttribute(c, v, ok)
      case Prepare => c.(transactionActive := true)
      case Exec(st, ok) => c.(transactionActive := true, server := Execute(c.server, st, ok))
      case ExecPrepared(st, ok) => c.(server := Execute(c.server, st, ok))
      case CommitWork(ok) => if ok then c.(server := c.server.Commit(), transactionActive := false) else c
      case RollbackWork(ok) => if ok then c.(server := c.server.Rollback(), transactionActive := false) else c
      case Close(rollbackOk, disconnectOk) =>
        if c.autoCommit == OFF && !rollbackOk then c
        else
          var c' := if c.autoCommit == OFF then c.(server := c.server.Rollback()) else c;
          if disconnectOk then Disconnected(c') else c'
      case Collect(rollbackOk) =>
        var rolls := c.transactionActive && c.autoCommit == OFF;
        var c' := if rolls && rollbackOk then c.(server := c.server.Rollback()) else c;
        Disconnected(c'.(transactionActive := if rolls then false else c.transactionActive))
  }

  /** The driver that never trusts its cache. */
  function EagerStep(c: Conn, call: DriverCall): (r: Conn)
    ensures c.handleActive && call.Autocommit? && Accepted(call.v, call.ok) ==>
              r.server == c.server.SetAuto(call.v) && r.autoCommit == call.v
  {
    if c.handleActive && call.Autocommit? then SetAttribute(c, call.v, call.ok) else DriverStep(c, call)
  }

  function DriverRun(c: Conn, calls: seq<DriverCall>): Conn {
    if calls == [] then c else DriverStep(DriverRun(c, calls[..|calls| - 1]), calls[|calls| - 1])
  }

  function EagerRun(c: Conn, calls: seq<DriverCall>): Conn {
    if calls == [] then c else EagerStep(EagerRun(c, calls[..|calls| - 1]), calls[|calls| - 1])
  }

  /** A connection as `connect` leaves it: whatever autocommit mode the CLI library has settled on, the
      driver has read it back. */
  predicate Connected(c: Conn) {
    && c.handleActive && !c.transactionActive
    && c.autoCommit == c.server.auto && (c.autoCommit == ON || c.autoCommit == OFF)
    && c.server.working == c.server.durable && c.server.saves == []
  }

  /** The cache is the server's attribute, and with autocommit on nothing is pending. */
  predicate CacheAgrees(c: Conn) {
    && c.autoCommit == c.server.auto
    && (c.autoCommit == ON || c.autoCommit == OFF)
    && (c.autoCommit == ON ==> c.server.working == c.server.durable && c.server.saves == [])
  }

  lemma {:induction false} CacheAlwaysAgrees(c: Conn, calls: seq<DriverCall>)
    requires Connected(c)
    ensures CacheAgrees(DriverRun(c, calls))
  {
    if calls == [] {
    } else {
      CacheAlwaysAgrees(c, calls[..|calls| - 1]);
    }
  }

  lemma SkippedCall(lazy: Conn, eager: Conn, call: DriverCall)
    requires CacheAgrees(lazy) && lazy == eager.(transactionActive := lazy.transactionActive)
    requires eager.transactionActive ==> lazy.transactionActive
    ensures var lazy', eager' := DriverStep(lazy, call), EagerStep(eager, call);
            && lazy' == eager'.(transactionActive := lazy'.transactionActive)
            && (eager'.transactionActive ==> lazy'.transactionActive)
  {
  }

  /** Skipping the CLI call when the cache already has the requested value is unobservable: server,
      cache and handle are those of the driver that always makes the call. */
  lemma {:induction false} SkippingRefinesCalling(c: Conn, calls: seq<DriverCall>)
    requires Connected(c)
    ensures var lazy, eager := DriverRun(c, calls), EagerRun(c, calls);
            && lazy.server == eager.server && lazy.autoCommit == eager.autoCommit
            && lazy.handleActive == eager.handleActive
            && (eager.transactionActive ==> lazy.transactionActive)
  {
    if calls == [] {
    } else {
      var init := calls[..|calls| - 1];
      SkippingRefinesCalling(c, init);
      CacheAlwaysAgrees(c, init);
      SkippedCall(DriverRun(c, init), EagerRun(c, init), calls[|calls| - 1]);
    }
  }

  // ---------- the transaction flag ----------

  /** The connection has work that is neither durable nor given up. */
  predicate Pending(c: Conn) {
    c.handleActive && !(c.server.working == c.server.durable && c.server.saves == [])
  }

  /** A call that ends the unit of work. */
  predicate EndsUnit(call: DriverCall, autoCommit: int) {
    match call
    case CommitWork(ok) => ok
    case RollbackWork(ok) => ok
    case Autocommit(v, ok) => ok && v == ON && autoCommit != ON
    case SetOption(v, ok) => ok && v == ON
    case _ => false
  }

  /** The run has a prepare or a direct execution behind which no call has ended the unit of work. */
  predicate Begun(c: Conn, calls: seq<DriverCall>) {
    if calls == [] then false
    else
      var init, last := calls[..|calls| - 1], calls[|calls| - 1];
      last.Prepare? || last.Exec? || (!EndsUnit(last, DriverRun(c, init).autoCommit) && Begun(c, init))
  }

  /** The flag by which the garbage collector decides to roll back pending work is set exactly when a statement was prepared
      or executed directly in this unit of work; executing a prepared one does not set it. */
  lemma {:induction false} FlaggedIffBegun(c: Conn, calls: seq<DriverCall>)
    requires Connected(c) && DriverRun(c, calls).handleActive
    ensures DriverRun(c, calls).transactionActive <==> Begun(c, calls)
  {
    if calls == [] {
    } else {
      var init := calls[..|calls| - 1];
      CacheAlwaysAgrees(c, init);
      if DriverRun(c, init).handleActive {
        FlaggedIffBegun(c, init);
      }
    }
  }

  /** So pending work is always flagged as long as prepared statements are executed in such units of work only. */
  lemma {:induction false} PendingWorkIsFlagged(c: Conn, calls: seq<DriverCall>)
    requires Connected(c)
    requires forall i :: 0 <= i < |calls| && calls[i].ExecPrepared? ==> Begun(c, calls[..i])
    ensures Pending(DriverRun(c, calls)) ==> DriverRun(c, calls).transactionActive
  {
    if calls == [] {
    } else {
      var n := |calls| - 1;
      forall i | 0 <= i < n && calls[..n][i].ExecPrepared? ensures Begun(c, calls[..n][..i]) {
        assert calls[..n][..i] == calls[..i];
      }
      PendingWorkIsFlagged(c, calls[..n]);
      CacheAlwaysAgrees(c, calls[..n]);
      var before := DriverRun(c, calls[..n]);
      if before.handleActive {
        FlaggedIffBegun(c, calls[..n]);
        FlagKept(before, calls[n]);
      }
    }
  }

  lemma FlagKept(c: Conn, call: DriverCall)
    requires CacheAgrees(c) && (Pending(c) ==> c.transactionActive)
    requires call.ExecPrepared? && c.handleActive ==> c.transactionActive
    ensures var now := DriverStep(c, call); Pending(now) ==> now.transactionActive
  {
  }

  /** Witness: a statement prepared once and executed again after a commit leaves pending work that is not flagged. */
  lemma PreparedAgainAfterCommit(c: Conn, w: Write)
    requires Connected(c) && c.autoCommit == OFF
    ensures var now := DriverRun(c, [Prepare, ExecPrepared(Apply(w), true), CommitWork(true), ExecPrepared(Apply(w), true)]);
            Pending(now) && !now.transactionActive
  {
    var calls := [Prepare, ExecPrepared(Apply(w), true), CommitWork(true), ExecPrepared(Apply(w), true)];
    assert calls[..3][..2] == calls[..2] && calls[..2][..1] == calls[..1] && calls[..1][..0] == [];
    var c1 := DriverStep(c, Prepare);
    assert DriverRun(c, calls[..1]) == c1;
    var c2 := DriverStep(c1, ExecPrepared(Apply(w), true));
    assert DriverRun(c, calls[..2]) == c2;
    var c3 := DriverStep(c2, CommitWork(true));
    assert DriverRun(c, calls[..3]) == c3;
    assert c3.server.working + [w] != c3.server.working;
  }
}
