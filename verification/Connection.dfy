/** The connection handle of the driver (IBM_DB_Driver/ibm_db.c) and the transaction methods of the adapter
    (ibm_db_adapter.rb) as objects updated in place. Their runs are those of Transactions and NestedTransactions. */
module Connection {
  import opened Transactions
  import opened NestedTransactions

  class ConnHandle {
    var server: Server          // the other end of the connection
    var autoCommit: int         // the cached attribute
    var transactionActive: bool
    var handleActive: bool

    function State(): Conn
      reads this
    {
      Conn(server, autoCommit, transactionActive, handleActive)
    }

    /** `connect`: the handle assumes autocommit, the CLI library settles on a mode of its own, and the
        driver reads that mode back. */
    constructor Connect(durable: Db, settled: int)
      requires settled == ON || settled == OFF
      ensures Connected(State()) && server.durable == durable && autoCommit == settled
    {
      autoCommit, transactionActive := ON, false;
      server := Server(durable, durable, [], settled);
      handleActive := true;
      new;
      autoCommit := server.auto;
    }

    /** Setting the attribute through the CLI library. */
    method SetConnectAttr(v: int, ok: bool)
      modifies this
      ensures State() == SetAttribute(old(State()), v, ok)
    {
      if ok && (v == ON || v == OFF) {
        server, autoCommit := server.SetAuto(v), v;
        if v == ON {
          transactionActive := false;
        }
      }
    }

    /** `ibm_db_autocommit` with a value: no CLI call when the cache already holds it. */
    method SetAutocommit(v: int, ok: bool)
      modifies this
      ensures State() == DriverStep(old(State()), Autocommit(v, ok))
      ensures old(handleActive) && ok && (v == ON || v == OFF) ==> autoCommit == v
      ensures CacheAgrees(old(State())) ==>
                server.durable == if old(handleActive && autoCommit == OFF) && v == ON && ok then old(server.working)
                                  else old(server.durable)
      ensures CacheAgrees(old(State())) ==> CacheAgrees(State())
      ensures !old(handleActive) ==> State() == old(State())
    {
      if handleActive && v != autoCommit {
        SetConnectAttr(v, ok);
      }
    }

    /** `_ruby_ibm_db_assign_options` for the autocommit attribute of a connection. */
    method AssignOption(v: int, ok: bool)
      modifies this
      ensures State() == DriverStep(old(State()), SetOption(v, ok))
      ensures CacheAgrees(old(State())) ==> CacheAgrees(State())
      ensures !old(handleActive) ==> State() == old(State())
    {
      if handleActive {
        SetConnectAttr(v, ok);
      }
    }

    /** `ibm_db_prepare`: counts as the beginning of a transaction before anything has run. */
    method PrepareStatement()
      modifies this
      ensures State() == DriverStep(old(State()), Prepare)
      ensures server == old(server) && (handleActive ==> transactionActive)
      ensures !old(handleActive) ==> State() == old(State())
    {
      if handleActive {
        transactionActive := true;
      }
    }

    /** `ibm_db_exec`: marks a transaction as begun before the statement runs. */
    method ExecDirect(st: Statement, ok: bool)
      modifies this
      ensures State() == DriverStep(old(State()), Exec(st, ok))
      ensures old(handleActive) ==> transactionActive
      ensures !old(handleActive) ==> State() == old(State())
    {
      if handleActive {
        transactionActive := true;
        server := Execute(server, st, ok);
      }
    }

    method CommitTran(ok: bool)
      modifies this
      ensures State() == DriverStep(old(State()), CommitWork(ok))
      ensures old(handleActive) && ok ==> server.durable == server.working == old(server.working) && !transactionActive
      ensures !old(handleActive) || !ok ==> State() == old(State())
    {
      if handleActive && ok {
        server, transactionActive := server.Commit(), false;
      }
    }

    method RollbackTran(ok: bool)
      modifies this
      ensures State() == DriverStep(old(State()), RollbackWork(ok))
      ensures old(handleActive) && ok ==> server.durable == server.working == old(server.durable) && !transactionActive
      ensures !old(handleActive) || !ok ==> State() == old(State())
    {
      if handleActive && ok {
        server, transactionActive := server.Rollback(), false;
      }
    }

    /** `ibm_db_close`: pending work is rolled back first; a failed rollback keeps the connection open. */
    method CloseConnection(rollbackOk: bool, disconnectOk: bool) returns (closed: bool)
      modifies this
      ensures State() == DriverStep(old(State()), Close(rollbackOk, disconnectOk))
      ensures closed <==> old(handleActive) && (old(autoCommit) == OFF ==> rollbackOk) && disconnectOk
      ensures handleActive <==> old(handleActive) && !closed
      ensures server.durable == old(server.durable)
      ensures old(handleActive) && (closed || (old(autoCommit) == OFF && rollbackOk)) ==>
                server.working == server.durable && server.saves == []
      ensures !old(handleActive) ==> State() == old(State())
    {
      closed := false;
      if handleActive {
        if autoCommit == OFF {
          if !rollbackOk {
            return;
          }
          server := server.Rollback();
        }
        if disconnectOk {
          server, handleActive, closed := server.Rollback(), false, true;
        }
      }
    }

    /** `_ruby_ibm_db_free_conn_struct`, run by the garbage collector. */
    method CollectHandle(rollbackOk: bool)
      modifies this
      ensures State() == DriverStep(old(State()), Collect(rollbackOk))
      ensures server.durable == old(server.durable) && !handleActive
      ensures old(handleActive) ==> server.working == server.durable && server.saves == []
      ensures transactionActive <==> old(transactionActive) && !old(handleActive && autoCommit == OFF)
      ensures !old(handleActive) ==> State() == old(State())
    {
      if handleActive {
        if transactionActive && autoCommit == OFF {
          transactionActive := false;
          if rollbackOk {
            server := server.Rollback();
          }
        }
        server, handleActive := server.Rollback(), false;
      }
    }
  }

  lemma RunOne(c: Conn, call: DriverCall)
    ensures DriverRun(c, [call]) == DriverStep(c, call)
  {
    assert [call][..0] == [];
  }

  lemma RunTwo(c: Conn, first: DriverCall, second: DriverCall)
    ensures DriverRun(c, [first, second]) == DriverStep(DriverStep(c, first), second)
  {
    assert [first, second][..1] == [first];
    RunOne(c, first);
  }

  class IbmDbAdapter {
    const conn: ConnHandle
    var attached: bool   // @connection is not nil

    constructor (conn: ConnHandle)
      ensures this.conn == conn && attached
    {
      this.conn, attached := conn, true;
    }

    function State(): Adapter
      reads this, conn
    {
      Adapter(conn.State(), attached)
    }

    method BeginDbTransaction(ok: bool)
      modifies conn
      ensures State() == AdapterStep(old(State()), Begin(ok))
    {
      if attached {
        RunOne(conn.State(), Autocommit(OFF, ok));
        conn.SetAutocommit(OFF, ok);
      }
    }

    /** Runs one statement; the savepoint methods differ only in the statement they send. */
    method InternalExecute(op: Op, st: Statement, ok: bool)
      requires Calls(op) == [Exec(st, ok)]
      modifies conn
      ensures State() == AdapterStep(old(State()), op)
    {
      if attached {
        RunOne(conn.State(), Exec(st, ok));
        conn.ExecDirect(st, ok);
      }
    }

    method CreateDbSavepoint(n: Name, ok: bool)
      modifies conn
      ensures State() == AdapterStep(old(State()), CreateSavepoint(n, ok))
    {
      InternalExecute(CreateSavepoint(n, ok), SetSavepoint(n), ok);
    }

    method ExecRollbackToSavepoint(n: Name, ok: bool)
      modifies conn
      ensures State() == AdapterStep(old(State()), RollbackToSavepoint(n, ok))
    {
      InternalExecute(RollbackToSavepoint(n, ok), ToSavepoint(n), ok);
    }

    method ReleaseDbSavepoint(n: Name, ok: bool)
      modifies conn
      ensures State() == AdapterStep(old(State()), ReleaseSavepoint(n, ok))
    {
      InternalExecute(ReleaseSavepoint(n, ok), FreeSavepoint(n), ok);
    }

    /** Commits, then switches autocommit back on. */
    method CommitDbTransaction(ok: bool)
      modifies conn
      ensures State() == AdapterStep(old(State()), CommitTransaction(ok))
    {
      if attached {
        RunTwo(conn.State(), CommitWork(true), Autocommit(ON, ok));
        conn.CommitTran(true);
        conn.SetAutocommit(ON, ok);
      }
    }

    /** Rolls back, then switches autocommit back on. */
    method RollbackDbTransaction(ok: bool)
      modifies conn
      ensures State() == AdapterStep(old(State()), RollbackTransaction(ok))
    {
      if attached {
        RunTwo(conn.State(), RollbackWork(true), Autocommit(ON, ok));
        conn.RollbackTran(true);
        conn.SetAutocommit(ON, ok);
      }
    }

    /** Closes the connection and forgets it in any case. */
    method DisconnectNow(ok: bool)
      modifies this, conn
      ensures State() == AdapterStep(old(State()), Disconnect(ok))
      ensures !attached && conn.server.durable == old(conn.server.durable)
      ensures old(attached && conn.handleActive) ==>
                && conn.handleActive == !ok
                && (ok || old(conn.autoCommit) == OFF ==> conn.server.working == conn.server.durable && conn.server.saves == [])
    {
      if attached {
        RunOne(conn.State(), Close(true, ok));
        var _ := conn.CloseConnection(true, ok);
        attached := false;
      }
    }
  }
}
