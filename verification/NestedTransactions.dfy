/** The adapter's transaction calls compiled to driver calls, and the reference semantics they refine:
    a stack of frames that holds each level's own writes instead of database snapshots. */
module NestedTransactions {
  import opened Sequences
  import opened Transactions

  // ---------- the adapter ----------

  /** The flag says whether the statement, or the autocommit switch, succeeds. CLI commits and
      rollbacks are taken to succeed. */
  datatype Op =
    | Begin(ok: bool)
    | Run(w: Write, ok: bool)
    | CreateSavepoint(n: Name, ok: bool)
    | RollbackToSavepoint(n: Name, ok: bool)
    | ReleaseSavepoint(n: Name, ok: bool)
    | CommitTransaction(ok: bool)
    | RollbackTransaction(ok: bool)
    | Disconnect(ok: bool)

  function Calls(op: Op): seq<DriverCall> {
    match op
    case Begin(ok) => [Autocommit(OFF, ok)]
    case Run(w, ok) => [Exec(Apply(w), ok)]
    case CreateSavepoint(n, ok) => [Exec(SetSavepoint(n), ok)]
    case RollbackToSavepoint(n, ok) => [Exec(ToSavepoint(n), ok)]
    case ReleaseSavepoint(n, ok) => [Exec(FreeSavepoint(n), ok)]
    case CommitTransaction(ok) => [CommitWork(true), Autocommit(ON, ok)]
    case RollbackTransaction(ok) => [RollbackWork(true), Autocommit(ON, ok)]
    case Disconnect(ok) => [Close(true, ok)]
  }

  /** The adapter forgets its connection on `disconnect!`, whether or not closing it succeeded. */
  datatype Adapter = Adapter(conn: Conn, attached: bool)

  function AdapterStep(a: Adapter, op: Op): Adapter {
    if !a.attached then a else Adapter(DriverRun(a.conn, Calls(op)), !op.Disconnect?)
  }

  function AdapterRun(a: Adapter, ops: seq<Op>): Adapter {
    if ops == [] then a else AdapterStep(AdapterRun(a, ops[..|ops| - 1]), ops[|ops| - 1])
  }

  // ---------- the reference ----------

  /** One level of a transaction: the savepoint that opened it and the writes made at that level. */
  datatype Frame = Frame(name: Name, writes: Db)

  /** `tx` is empty outside a transaction; its first frame belongs to the transaction itself. */
  datatype Reference = Reference(durable: Db, tx: seq<Frame>, open: bool)

  /** The writes of the levels from `lo` up to, but not including, `hi`. */
  function Range(fs: seq<Frame>, lo: nat, hi: nat): Db
    requires lo <= hi <= |fs|
    decreases hi
  {
    if lo == hi then [] else Range(fs, lo, hi - 1) + fs[hi - 1].writes
  }

  function Flatten(fs: seq<Frame>): Db {
    Range(fs, 0, |fs|)
  }

  /** The level opened by a savepoint, never the transaction's own; |fs| if there is none. */
  function Level(fs: seq<Frame>, n: Name): (k: nat)
    requires fs != []
    ensures 1 <= k <= |fs|
  {
    FindName(FrameNames(fs), n, 1)
  }

  function FrameNames(fs: seq<Frame>): (r: seq<Name>)
    ensures |r| == |fs|
  {
    seq(|fs|, i requires 0 <= i < |fs| => fs[i].name)
  }

  function Extend(f: Frame, ws: Db): Frame {
    f.(writes := f.writes + ws)
  }

  /** Level k loses its identity: its writes now belong to the level below. */
  function MergeOne(fs: seq<Frame>, k: nat): seq<Frame>
    requires 1 <= k < |fs|
  {
    seq(|fs| - 1, i requires 0 <= i < |fs| - 1 =>
      if i < k - 1 then fs[i] else if i == k - 1 then Extend(fs[i], fs[k].writes) else fs[i + 1])
  }

  /** Level k and everything above it become part of the level below. */
  function MergeFrom(fs: seq<Frame>, k: nat): seq<Frame>
    requires 1 <= k <= |fs|
  {
    fs[..k - 1] + [Extend(fs[k - 1], Range(fs, k, |fs|))]
  }

  function InTransaction(fs: seq<Frame>, op: Op): seq<Frame>
    requires fs != []
  {
    match op
    case Run(w, true) => fs[..|fs| - 1] + [Extend(fs[|fs| - 1], [w])]
    case CreateSavepoint(n, true) =>
      var k := Level(fs, n);
      (if k < |fs| then MergeOne(fs, k) else fs) + [Frame(n, [])]
    case RollbackToSavepoint(n, true) =>
      var k := Level(fs, n);
      if k < |fs| then fs[..k] + [Frame(n, [])] else fs
    case ReleaseSavepoint(n, true) => MergeFrom(fs, Level(fs, n))
    case _ => fs
  }

  function ReferenceStep(r: Reference, op: Op): Reference {
    if !r.open then r
    else
      match op
      case Begin(ok) => if ok && r.tx == [] then r.(tx := [Frame(0, [])]) else r
      case CommitTransaction(ok) =>
        if r.tx == [] then r
        else r.(durable := r.durable + Flatten(r.tx), tx := if ok then [] else [Frame(0, [])])
      case RollbackTransaction(ok) =>
        if r.tx == [] then r else r.(tx := if ok then [] else [Frame(0, [])])
      case Disconnect(_) => r.(tx := [], open := false)
      case Run(w, ok) =>
        if r.tx != [] then r.(tx := InTransaction(r.tx, op))
        else if ok then r.(durable := r.durable + [w]) else r
      case _ =>
        if r.tx != [] then r.(tx := InTransaction(r.tx, op)) else r
  }

  function ReferenceRun(r: Reference, ops: seq<Op>): Reference {
    if ops == [] then r else ReferenceStep(ReferenceRun(r, ops[..|ops| - 1]), ops[|ops| - 1])
  }

  // ---------- refinement ----------

  /** The server's snapshots are the flattened frames below each savepoint. */
  ghost predicate Snapshots(s: Server, durable: Db, fs: seq<Frame>) {
    && fs != [] && |s.saves| + 1 == |fs|
    && s.working == durable + Flatten(fs)
    && forall i :: 0 <= i < |s.saves| ==>
         s.saves[i] == Save(fs[i + 1].name, durable + Range(fs, 0, i + 1))
  }

  ghost predicate Refines(a: Adapter, r: Reference) {
    && a.attached == r.open
    && a.conn.server.durable == r.durable
    && (a.attached ==>
          && a.conn.handleActive && CacheAgrees(a.conn)
          && (r.tx == [] <==> a.conn.autoCommit == ON)
          && (r.tx != [] ==> Snapshots(a.conn.server, r.durable, r.tx)))
  }

  /** Ranges look at nothing outside their bounds. */
  lemma {:induction false} SameRange(fs: seq<Frame>, gs: seq<Frame>, hi: nat)
    requires hi <= |fs| && hi <= |gs|
    requires forall i :: 0 <= i < hi ==> fs[i].writes == gs[i].writes
    ensures Range(fs, 0, hi) == Range(gs, 0, hi)
  {
    if hi == 0 {
    } else {
      SameRange(fs, gs, hi - 1);
    }
  }

  lemma {:induction false} RangeSplit(fs: seq<Frame>, k: nat, hi: nat)
    requires k <= hi <= |fs|
    ensures Range(fs, 0, k) + Range(fs, k, hi) == Range(fs, 0, hi)
    decreases hi
  {
    if k == hi {
      assert Range(fs, 0, k) + [] == Range(fs, 0, k);
    } else {
      RangeSplit(fs, k, hi - 1);
      Regroup(Range(fs, 0, k), Range(fs, k, hi - 1), fs[hi - 1].writes);
    }
  }

  /** The flattening of a stack whose top frame is `f` on the levels of `fs` below k. */
  lemma FlattenOnto(fs: seq<Frame>, k: nat, f: Frame, gs: seq<Frame>)
    requires k <= |fs| && |gs| == k + 1 && gs[k] == f
    requires forall i :: 0 <= i < k ==> gs[i].writes == fs[i].writes
    ensures Flatten(gs) == Range(fs, 0, k) + f.writes
    ensures forall i :: 0 <= i <= k ==> Range(gs, 0, i) == Range(fs, 0, i)
  {
    forall i | 0 <= i <= k ensures Range(gs, 0, i) == Range(fs, 0, i) {
      SameRange(fs, gs, i);
    }
  }

  lemma MergeAt(fs: seq<Frame>, k: nat)
    requires 1 <= k < |fs|
    ensures Range(MergeOne(fs, k), 0, k) == Range(fs, 0, k + 1)
  {
    SameRange(fs, MergeOne(fs, k), k - 1);
    Regroup(Range(fs, 0, k - 1), fs[k - 1].writes, fs[k].writes);
  }

  /** Merging level k moves no write: every prefix that ends at or above it flattens as before. */
  lemma {:induction false} MergeOneFlattens(fs: seq<Frame>, k: nat, i: nat)
    requires 1 <= k < |fs| && i < |fs|
    ensures Range(MergeOne(fs, k), 0, i) == if i < k then Range(fs, 0, i) else Range(fs, 0, i + 1)
    decreases i
  {
    if i < k {
      SameRange(fs, MergeOne(fs, k), i);
    } else if i == k {
      MergeAt(fs, k);
    } else {
      MergeOneFlattens(fs, k, i - 1);
      assert MergeOne(fs, k)[i - 1] == fs[i];
    }
  }

  lemma MergeFromFlattens(fs: seq<Frame>, k: nat)
    requires 1 <= k <= |fs|
    ensures Flatten(MergeFrom(fs, k)) == Flatten(fs)
    ensures forall i :: 0 <= i < k ==> Range(MergeFrom(fs, k), 0, i) == Range(fs, 0, i)
  {
    var rest := Range(fs, k, |fs|);
    FlattenOnto(fs, k - 1, Extend(fs[k - 1], rest), MergeFrom(fs, k));
    RangeSplit(fs, k, |fs|);
    Regroup(Range(fs, 0, k - 1), fs[k - 1].writes, rest);
  }

  /** The server and the reference look a savepoint up at corresponding positions. */
  lemma SameLevel(saves: seq<Save>, fs: seq<Frame>, n: Name)
    requires |saves| + 1 == |fs| && forall i :: 0 <= i < |saves| ==> saves[i].name == fs[i + 1].name
    ensures FindName(SaveNames(saves), n, 0) + 1 == Level(fs, n)
  {
    var k, l := FindName(SaveNames(saves), n, 0), Level(fs, n);
    assert forall i :: 0 <= i < |saves| ==> FrameNames(fs)[i + 1] == SaveNames(saves)[i];
    assert forall i :: 1 <= i < |fs| ==> FrameNames(fs)[i] == SaveNames(saves)[i - 1];
    assert k < |saves| ==> l <= k + 1;
    assert l < |fs| ==> k <= l - 1;
  }

  lemma StatementRefines(s: Server, durable: Db, fs: seq<Frame>, op: Op, st: Statement, ok: bool)
    requires Snapshots(s, durable, fs) && s.auto == OFF
    requires Calls(op) == [Exec(st, ok)]
    ensures Snapshots(Execute(s, st, ok), durable, InTransaction(fs, op))
    ensures Execute(s, st, ok).durable == s.durable && Execute(s, st, ok).auto == OFF
  {
    if ok {
      match op {
        case Run(w, _) => WriteRefines(s, durable, fs, w);
        case CreateSavepoint(n, _) => SavepointRefines(s, durable, fs, n);
        case RollbackToSavepoint(n, _) => RollbackToRefines(s, durable, fs, n);
        case ReleaseSavepoint(n, _) => ReleaseRefines(s, durable, fs, n);
        case _ =>
      }
    }
  }

  lemma WriteRefines(s: Server, durable: Db, fs: seq<Frame>, w: Write)
    requires Snapshots(s, durable, fs)
    ensures Snapshots(s.(working := s.working + [w]), durable, InTransaction(fs, Run(w, true)))
  {
    var k := |fs| - 1;
    var f := Extend(fs[k], [w]);
    FlattenOnto(fs, k, f, fs[..k] + [f]);
    Regroup(Range(fs, 0, k), fs[k].writes, [w]);
    Regroup(durable, Flatten(fs), [w]);
  }

  /** The snapshots after the savepoint in force under a reused name is dropped. */
  lemma DropRefines(s: Server, durable: Db, fs: seq<Frame>, k: nat)
    requires Snapshots(s, durable, fs) && 1 <= k < |fs|
    ensures Snapshots(s.(saves := Without(s.saves, k - 1)), durable, MergeOne(fs, k))
  {
    var m, kept := MergeOne(fs, k), Without(s.saves, k - 1);
    assert Flatten(m) == Flatten(fs) by {
      MergeOneFlattens(fs, k, |fs| - 1);
    }
    forall i | 0 <= i < |kept| ensures kept[i] == Save(m[i + 1].name, durable + Range(m, 0, i + 1)) {
      MergeOneFlattens(fs, k, i + 1);
      if i < k - 1 {
        assert kept[i] == s.saves[i];
      } else {
        assert kept[i] == s.saves[i + 1];
      }
    }
  }

  /** A new savepoint on top of the stack. */
  lemma PushRefines(s: Server, durable: Db, fs: seq<Frame>, n: Name)
    requires Snapshots(s, durable, fs)
    ensures Snapshots(s.(saves := s.saves + [Save(n, s.working)]), durable, fs + [Frame(n, [])])
  {
    FlattenOnto(fs, |fs|, Frame(n, []), fs + [Frame(n, [])]);
    assert Flatten(fs) + [] == Flatten(fs);
  }

  lemma SavepointRefines(s: Server, durable: Db, fs: seq<Frame>, n: Name)
    requires Snapshots(s, durable, fs)
    ensures Snapshots(s.SetSave(n), durable, InTransaction(fs, CreateSavepoint(n, true)))
  {
    SameLevel(s.saves, fs, n);
    var k := Level(fs, n);
    if k < |fs| {
      DropRefines(s, durable, fs, k);
      PushRefines(s.(saves := Without(s.saves, k - 1)), durable, MergeOne(fs, k), n);
    } else {
      PushRefines(s, durable, fs, n);
    }
  }

  lemma RollbackToRefines(s: Server, durable: Db, fs: seq<Frame>, n: Name)
    requires Snapshots(s, durable, fs)
    ensures Snapshots(s.RollbackTo(n), durable, InTransaction(fs, RollbackToSavepoint(n, true)))
  {
    SameLevel(s.saves, fs, n);
    var k := Level(fs, n);
    if k < |fs| {
      FlattenOnto(fs, k, Frame(n, []), fs[..k] + [Frame(n, [])]);
      FoundFrame(fs, n);
      assert Range(fs, 0, k) + [] == Range(fs, 0, k);
    }
  }

  lemma FoundFrame(fs: seq<Frame>, n: Name)
    requires fs != []
    ensures var k := Level(fs, n);
            && (k < |fs| ==> fs[k].name == n)
            && forall i :: 1 <= i < k ==> fs[i].name != n
  {
    var k := Level(fs, n);
    assert k < |fs| ==> FrameNames(fs)[k] == fs[k].name;
    forall i | 1 <= i < k ensures fs[i].name != n {
      assert FrameNames(fs)[i] != n;
    }
  }

  lemma ReleaseRefines(s: Server, durable: Db, fs: seq<Frame>, n: Name)
    requires Snapshots(s, durable, fs)
    ensures Snapshots(s.Release(n), durable, InTransaction(fs, ReleaseSavepoint(n, true)))
  {
    SameLevel(s.saves, fs, n);
    MergeFromFlattens(fs, Level(fs, n));
  }

  lemma StepRefines(a: Adapter, r: Reference, op: Op)
    requires Refines(a, r)
    ensures Refines(AdapterStep(a, op), ReferenceStep(r, op))
  {
    if a.attached {
      var c := a.conn;
      var calls := Calls(op);
      assert calls[..1] == [calls[0]] && calls[..0] == [];
      assert DriverRun(c, calls[..1]) == DriverStep(c, calls[0]);
      if |calls| == 1 {
        assert calls[..1] == calls;
      }
      match op {
        case Run(w, ok) => RunRefines(a, r, op, Apply(w), ok);
        case CreateSavepoint(n, ok) => RunRefines(a, r, op, SetSavepoint(n), ok);
        case RollbackToSavepoint(n, ok) => RunRefines(a, r, op, ToSavepoint(n), ok);
        case ReleaseSavepoint(n, ok) => RunRefines(a, r, op, FreeSavepoint(n), ok);
        case _ =>
      }
    }
  }

  lemma RunRefines(a: Adapter, r: Reference, op: Op, st: Statement, ok: bool)
    requires Refines(a, r) && a.attached
    requires Calls(op) == [Exec(st, ok)]
    ensures Refines(Adapter(DriverStep(a.conn, Exec(st, ok)), true), ReferenceStep(r, op))
  {
    if r.tx != [] {
      StatementRefines(a.conn.server, r.durable, r.tx, op, st, ok);
      LevelsStay(r.tx, op);
    }
  }

  lemma LevelsStay(fs: seq<Frame>, op: Op)
    requires fs != []
    ensures InTransaction(fs, op) != []
  {
  }

  /** Every run of the adapter, whatever statements and autocommit switches fail in it, keeps the durable
      database of the reference semantics. */
  lemma {:induction false} RunsRefine(a: Adapter, r: Reference, ops: seq<Op>)
    requires Refines(a, r)
    ensures Refines(AdapterRun(a, ops), ReferenceRun(r, ops))
    ensures AdapterRun(a, ops).conn.server.durable == ReferenceRun(r, ops).durable
  {
    if ops == [] {
    } else {
      RunsRefine(a, r, ops[..|ops| - 1]);
      StepRefines(AdapterRun(a, ops[..|ops| - 1]), ReferenceRun(r, ops[..|ops| - 1]), ops[|ops| - 1]);
    }
  }

  // ---------- consequences ----------

  /** Neither starts nor ends a transaction. */
  predicate Inner(op: Op) {
    op.Run? || op.CreateSavepoint? || op.RollbackToSavepoint? || op.ReleaseSavepoint?
  }

  predicate AllInner(ops: seq<Op>) {
    forall i :: 0 <= i < |ops| ==> Inner(ops[i])
  }

  /** A connection outside any transaction. */
  predicate Idle(a: Adapter) {
    a.attached && a.conn.handleActive && CacheAgrees(a.conn) && a.conn.autoCommit == ON
  }

  lemma {:induction false} InnerKeepsDurable(r: Reference, ops: seq<Op>)
    requires r.open && r.tx != [] && AllInner(ops)
    ensures var r' := ReferenceRun(r, ops); r'.open && r'.tx != [] && r'.durable == r.durable
  {
    if ops == [] {
    } else {
      InnerKeepsDurable(r, ops[..|ops| - 1]);
    }
  }

  lemma {:induction false} ReferenceRunSplit(r: Reference, a: seq<Op>, b: seq<Op>)
    ensures ReferenceRun(r, a + b) == ReferenceRun(ReferenceRun(r, a), b)
  {
    if b == [] {
      assert a + b == a;
    } else {
      ReferenceRunSplit(r, a, b[..|b| - 1]);
      assert (a + b)[..|a + b| - 1] == a + b[..|b| - 1];
    }
  }

  lemma ReferenceRunOne(r: Reference, op: Op)
    ensures ReferenceRun(r, [op]) == ReferenceStep(r, op)
  {
    assert [op][..0] == [];
  }

  /** Work that is rolled back, or cut off by a disconnect, never becomes durable, whatever savepoints it
      went through and whatever the switch back to autocommit does. */
  lemma AbandonedWorkIsLost(a: Adapter, body: seq<Op>, end: Op)
    requires Idle(a) && AllInner(body)
    requires end.RollbackTransaction? || end.Disconnect?
    ensures AdapterRun(a, [Begin(true)] + body + [end]).conn.server.durable == a.conn.server.durable
  {
    var r := Reference(a.conn.server.durable, [], true);
    RunsRefine(a, r, [Begin(true)] + body + [end]);
    ReferenceRunSplit(r, [Begin(true)] + body, [end]);
    ReferenceRunSplit(r, [Begin(true)], body);
    ReferenceRunOne(r, Begin(true));
    ReferenceRunOne(ReferenceRun(r, [Begin(true)] + body), end);
    InnerKeepsDurable(ReferenceRun(r, [Begin(true)]), body);
  }

  /** A statement that changed the database. */
  predicate Wrote(op: Op) {
    op.Run? && op.ok
  }

  lemma {:induction false} OutsideTransaction(r: Reference, body: seq<Op>)
    requires r.open && r.tx == [] && AllInner(body)
    ensures var r' := ReferenceRun(r, body);
            && r'.open && r'.tx == [] && |r'.durable| >= |r.durable|
            && (r'.durable == r.durable <==> forall i :: 0 <= i < |body| ==> !Wrote(body[i]))
            && ((exists i :: 0 <= i < |body| && Wrote(body[i])) ==> |r'.durable| > |r.durable|)
  {
    if body == [] {
    } else {
      var init, last := body[..|body| - 1], body[|body| - 1];
      OutsideTransaction(r, init);
      assert forall i :: 0 <= i < |init| ==> init[i] == body[i];
      if Wrote(last) {
        assert ReferenceRun(r, body).durable == ReferenceRun(r, init).durable + [last.w];
      } else {
        assert ReferenceRun(r, body) == ReferenceRun(r, init);
      }
    }
  }

  /** The adapter only logs that autocommit could not be switched off. A rollback undoes all work done since,
      through whatever savepoints and failed statements, exactly when the switch succeeded or no statement wrote. */
  lemma RollbackUndoesIff(a: Adapter, began: bool, body: seq<Op>, ended: bool)
    requires Idle(a) && AllInner(body)
    ensures AdapterRun(a, [Begin(began)] + body + [RollbackTransaction(ended)]).conn.server.durable
            == a.conn.server.durable
            <==> began || forall i :: 0 <= i < |body| ==> !Wrote(body[i])
  {
    var end := RollbackTransaction(ended);
    if began {
      AbandonedWorkIsLost(a, body, end);
    } else {
      var r := Reference(a.conn.server.durable, [], true);
      RunsRefine(a, r, [Begin(false)] + body + [end]);
      NothingToRollBack(r, body, ended);
      OutsideTransaction(r, body);
    }
  }

  lemma NothingToRollBack(r: Reference, body: seq<Op>, ended: bool)
    requires r.open && r.tx == [] && AllInner(body)
    ensures ReferenceRun(r, [Begin(false)] + body + [RollbackTransaction(ended)]) == ReferenceRun(r, body)
  {
    var end := RollbackTransaction(ended);
    ReferenceRunSplit(r, [Begin(false)] + body, [end]);
    ReferenceRunSplit(r, [Begin(false)], body);
    ReferenceRunOne(r, Begin(false));
    OutsideTransaction(r, body);
    ReferenceRunOne(ReferenceRun(r, body), end);
  }

  /** One write after a failed begin survives the rollback. */
  lemma RollbackAfterFailedBegin(a: Adapter, w: Write)
    requires Idle(a)
    ensures AdapterRun(a, [Begin(false)] + [Run(w, true)] + [RollbackTransaction(true)]).conn.server.durable
            != a.conn.server.durable
  {
    RollbackUndoesIff(a, false, [Run(w, true)], true);
    assert Wrote([Run(w, true)][0]);
  }

  // ---------- nested blocks ----------

  /** A transaction block as the user writes it: writes, and nested blocks that commit or roll back. */
  datatype Item = Do(w: Write) | Nested(body: seq<Item>, commits: bool)

  /** What a list of items adds to the database. */
  function Effect(items: seq<Item>): Db
    decreases items, 0
  {
    if items == [] then [] else EffectOf(items[0]) + Effect(items[1..])
  }

  function EffectOf(item: Item): Db
    decreases item, 1
  {
    match item
    case Do(w) => [w]
    case Nested(body, commits) => if commits then Effect(body) else []
  }

  /** Blocks below the outermost become savepoints named by their depth. A rolled-back savepoint is not released. */
  function Compile(items: seq<Item>, depth: nat): seq<Op>
    decreases items, 0
  {
    if items == [] then [] else CompileOne(items[0], depth) + Compile(items[1..], depth)
  }

  function CompileOne(item: Item, depth: nat): seq<Op>
    decreases item, 1
  {
    match item
    case Do(w) => [Run(w, true)]
    case Nested(body, commits) =>
      if depth == 0 then
        [Begin(true)] + Compile(body, 1) + [if commits then CommitTransaction(true) else RollbackTransaction(true)]
      else
        [CreateSavepoint(depth, true)] + Compile(body, depth + 1)
        + [if commits then ReleaseSavepoint(depth, true) else RollbackToSavepoint(depth, true)]
  }

  /** The frames seen from depth d: `low` ends with the enclosing block's frame; a sibling that was rolled
      back may have left its own frame on top. */
  ghost predicate AtDepth(low: seq<Frame>, top: seq<Frame>, d: nat) {
    && low != [] && |top| <= 1
    && (forall i :: 1 <= i < |low| ==> low[i].name < d)
    && (forall i :: 0 <= i < |top| ==> top[i].name == d)
  }

  /** `low'` is `low` with writes added to its last frame only. */
  ghost predicate Grown(low: seq<Frame>, low': seq<Frame>) {
    && |low| == |low'| && low != []
    && low'[..|low| - 1] == low[..|low| - 1]
    && low'[|low| - 1].name == low[|low| - 1].name
  }

  lemma LevelIs(fs: seq<Frame>, n: Name, k: nat)
    requires 1 <= k <= |fs| && (k < |fs| ==> fs[k].name == n)
    requires forall i :: 1 <= i < k ==> fs[i].name != n
    ensures Level(fs, n) == k
  {
    FoundFrame(fs, n);
  }

  /** The levels once a savepoint has taken over from a rolled-back sibling of the same name, if there is one. */
  ghost function Settled(low: seq<Frame>, top: seq<Frame>): (r: seq<Frame>)
    requires low != [] && |top| <= 1
    ensures Grown(low, r)
  {
    if top == [] then low else MergeOne(low + top, |low|)
  }

  lemma SettledFlattens(low: seq<Frame>, top: seq<Frame>)
    requires low != [] && |top| <= 1
    ensures Flatten(Settled(low, top)) == Flatten(low + top)
  {
    if top == [] {
      assert low + top == low;
    } else {
      MergeOneFlattens(low + top, |low|, |low|);
    }
  }

  lemma OpenBlock(low: seq<Frame>, top: seq<Frame>, d: nat)
    requires AtDepth(low, top, d)
    ensures InTransaction(low + top, CreateSavepoint(d, true)) == Settled(low, top) + [Frame(d, [])]
  {
    LevelIs(low + top, d, |low|);
    assert top == [] ==> low + top == low;
  }

  lemma FoundAtDepth(low: seq<Frame>, d: nat, low': seq<Frame>, top: seq<Frame>)
    requires AtDepth(low, [], d) && Grown(low + [Frame(d, [])], low')
    ensures (low' + top)[..|low|] == low && Level(low' + top, d) == |low|
  {
    assert low'[..|low|] == (low + [Frame(d, [])])[..|low|] == low;
    forall i | 1 <= i < |low| ensures (low' + top)[i].name != d {
      assert (low' + top)[i] == low'[..|low|][i];
    }
    LevelIs(low' + top, d, |low|);
  }

  lemma ReleaseBlock(low: seq<Frame>, d: nat, low': seq<Frame>, top: seq<Frame>) returns (low'': seq<Frame>)
    requires AtDepth(low, [], d) && Grown(low + [Frame(d, [])], low')
    ensures Grown(low, low'') && AtDepth(low'', [], d)
    ensures InTransaction(low' + top, ReleaseSavepoint(d, true)) == low''
    ensures Flatten(low'') == Flatten(low' + top)
  {
    FoundAtDepth(low, d, low', top);
    low'' := MergeFrom(low' + top, |low|);
    MergeFromFlattens(low' + top, |low|);
    assert (low' + top)[|low| - 1] == (low' + top)[..|low|][|low| - 1];
    assert low''[..|low| - 1] == (low' + top)[..|low|][..|low| - 1];
  }

  lemma RollBackBlock(low: seq<Frame>, d: nat, low': seq<Frame>, top: seq<Frame>)
    requires AtDepth(low, [], d) && Grown(low + [Frame(d, [])], low')
    ensures InTransaction(low' + top, RollbackToSavepoint(d, true)) == low + [Frame(d, [])]
  {
    FoundAtDepth(low, d, low', top);
  }

  lemma PushFlattens(low: seq<Frame>, d: nat)
    ensures Flatten(low + [Frame(d, [])]) == Flatten(low)
  {
    FlattenOnto(low, |low|, Frame(d, []), low + [Frame(d, [])]);
    assert Flatten(low) + [] == Flatten(low);
  }

  lemma InsideRun(r: Reference, fs: seq<Frame>, op: Op)
    requires r.open && r.tx == fs != [] && Inner(op)
    ensures ReferenceRun(r, [op]) == r.(tx := InTransaction(fs, op))
  {
    ReferenceRunOne(r, op);
  }

  /** Inside a transaction, a compiled list of items adds its effect and leaves the enclosing levels alone. */
  lemma {:induction false} BlockRuns(r: Reference, items: seq<Item>, d: nat, low: seq<Frame>, top: seq<Frame>)
    returns (low': seq<Frame>, top': seq<Frame>)
    requires d > 0 && r.open && r.tx == low + top && AtDepth(low, top, d)
    ensures Grown(low, low') && AtDepth(low', top', d)
    ensures ReferenceRun(r, Compile(items, d)) == r.(tx := low' + top')
    ensures Flatten(low' + top') == Flatten(low + top) + Effect(items)
    decreases items, 0
  {
    if items == [] {
      low', top' := low, top;
    } else {
      var first, rest := items[0], items[1..];
      var low1, top1 := ItemRuns(r, first, d, low, top);
      low', top' := BlockRuns(r.(tx := low1 + top1), rest, d, low1, top1);
      ReferenceRunSplit(r, CompileOne(first, d), Compile(rest, d));
      Regroup(Flatten(low + top), EffectOf(first), Effect(rest));
    }
  }

  lemma {:induction false} ItemRuns(r: Reference, item: Item, d: nat, low: seq<Frame>, top: seq<Frame>)
    returns (low': seq<Frame>, top': seq<Frame>)
    requires d > 0 && r.open && r.tx == low + top && AtDepth(low, top, d)
    ensures Grown(low, low') && AtDepth(low', top', d)
    ensures ReferenceRun(r, CompileOne(item, d)) == r.(tx := low' + top')
    ensures Flatten(low' + top') == Flatten(low + top) + EffectOf(item)
    decreases item, 1
  {
    match item {
      case Do(w) =>
        low', top' := WriteItem(low, top, d, w);
        InsideRun(r, low + top, Run(w, true));
      case Nested(body, commits) =>
        low', top' := NestedRuns(r, body, commits, d, low, top);
    }
  }

  lemma {:induction false} NestedRuns(r: Reference, body: seq<Item>, commits: bool, d: nat, low: seq<Frame>, top: seq<Frame>)
    returns (low': seq<Frame>, top': seq<Frame>)
    requires d > 0 && r.open && r.tx == low + top && AtDepth(low, top, d)
    ensures Grown(low, low') && AtDepth(low', top', d)
    ensures ReferenceRun(r, CompileOne(Nested(body, commits), d)) == r.(tx := low' + top')
    ensures Flatten(low' + top') == Flatten(low + top) + if commits then Effect(body) else []
    decreases body, 1
  {
    var low1 := Settled(low, top);
    var inner := low1 + [Frame(d, [])];
    OpenBlock(low, top, d);
    SettledFlattens(low, top);
    PushFlattens(low1, d);
    assert inner + [] == inner;
    var low2, top2 := BlockRuns(r.(tx := inner), body, d + 1, inner, []);
    if commits {
      low' := Committed(r, body, d, low, top, low2, top2);
      top' := [];
      assert low' + top' == low';
    } else {
      RolledBack(r, body, d, low, top, low2, top2);
      low', top' := low1, [Frame(d, [])];
    }
  }

  /** What a nested block has brought about when it ends. */
  ghost predicate BodyRan(r: Reference, body: seq<Item>, d: nat, low: seq<Frame>, top: seq<Frame>,
                          low2: seq<Frame>, top2: seq<Frame>)
    requires low != [] && |top| <= 1
  {
    var inner := Settled(low, top) + [Frame(d, [])];
    && d > 0 && r.open && r.tx == low + top && AtDepth(low, top, d)
    && Grown(inner, low2)
    && ReferenceRun(r.(tx := inner), Compile(body, d + 1)) == r.(tx := low2 + top2)
    && Flatten(low2 + top2) == Flatten(low + top) + Effect(body)
  }

  lemma Committed(r: Reference, body: seq<Item>, d: nat, low: seq<Frame>, top: seq<Frame>,
                  low2: seq<Frame>, top2: seq<Frame>) returns (low': seq<Frame>)
    requires low != [] && |top| <= 1 && BodyRan(r, body, d, low, top, low2, top2)
    ensures Grown(low, low') && AtDepth(low', [], d)
    ensures ReferenceRun(r, CompileOne(Nested(body, true), d)) == r.(tx := low')
    ensures Flatten(low') == Flatten(low + top) + Effect(body)
  {
    var low1 := Settled(low, top);
    OpenBlock(low, top, d);
    low' := ReleaseBlock(low1, d, low2, top2);
    ThreeSteps(r, CreateSavepoint(d, true), Compile(body, d + 1), ReleaseSavepoint(d, true), low1 + [Frame(d, [])], low2 + top2);
  }

  lemma RolledBack(r: Reference, body: seq<Item>, d: nat, low: seq<Frame>, top: seq<Frame>,
                   low2: seq<Frame>, top2: seq<Frame>)
    requires low != [] && |top| <= 1 && BodyRan(r, body, d, low, top, low2, top2)
    ensures var low1 := Settled(low, top);
            && AtDepth(low1, [Frame(d, [])], d)
            && ReferenceRun(r, CompileOne(Nested(body, false), d)) == r.(tx := low1 + [Frame(d, [])])
            && Flatten(low1 + [Frame(d, [])]) == Flatten(low + top) + []
  {
    var low1 := Settled(low, top);
    OpenBlock(low, top, d);
    SettledFlattens(low, top);
    PushFlattens(low1, d);
    RollBackBlock(low1, d, low2, top2);
    ThreeSteps(r, CreateSavepoint(d, true), Compile(body, d + 1), RollbackToSavepoint(d, true), low1 + [Frame(d, [])], low2 + top2);
  }

  lemma ThreeSteps(r: Reference, enter: Op, body: seq<Op>, leave: Op, fs: seq<Frame>, fs': seq<Frame>)
    requires r.open && r.tx != [] && Inner(enter) && Inner(leave) && fs != [] && fs' != []
    requires InTransaction(r.tx, enter) == fs
    requires ReferenceRun(r.(tx := fs), body) == r.(tx := fs')
    ensures ReferenceRun(r, [enter] + body + [leave]) == r.(tx := InTransaction(fs', leave))
  {
    ReferenceRunSplit(r, [enter] + body, [leave]);
    ReferenceRunSplit(r, [enter], body);
    InsideRun(r, r.tx, enter);
    InsideRun(r.(tx := fs'), fs', leave);
  }

  lemma WriteItem(low: seq<Frame>, top: seq<Frame>, d: nat, w: Write) returns (low': seq<Frame>, top': seq<Frame>)
    requires AtDepth(low, top, d)
    ensures Grown(low, low') && AtDepth(low', top', d)
    ensures InTransaction(low + top, Run(w, true)) == low' + top'
    ensures Flatten(low' + top') == Flatten(low + top) + [w]
  {
    var fs, k := low + top, |low + top| - 1;
    var f := Extend(fs[k], [w]);
    if top == [] {
      low', top' := fs[..k] + [f], [];
    } else {
      low', top' := low, [f];
    }
    assert low' + top' == fs[..k] + [f];
    FlattenOnto(fs, k, f, fs[..k] + [f]);
    Regroup(Range(fs, 0, k), fs[k].writes, [w]);
  }

  /** Every program of transaction blocks, nested to any depth, leaves exactly its effect in the durable
      database: committed blocks inside committed blocks, and nothing of a block that rolled back. */
  lemma {:induction false} ProgramsRun(r: Reference, items: seq<Item>)
    requires r.open && r.tx == []
    ensures ReferenceRun(r, Compile(items, 0)) == r.(durable := r.durable + Effect(items))
    decreases |items|
  {
    if items == [] {
      assert r.durable + [] == r.durable;
    } else {
      var item, rest := items[0], items[1..];
      var r1 := r.(durable := r.durable + EffectOf(item));
      assert ReferenceRun(r, CompileOne(item, 0)) == r1 by {
        TopItemRuns(r, item);
      }
      ProgramsRun(r1, rest);
      ReferenceRunSplit(r, CompileOne(item, 0), Compile(rest, 0));
      Regroup(r.durable, EffectOf(item), Effect(rest));
    }
  }

  lemma TopItemRuns(r: Reference, item: Item)
    requires r.open && r.tx == []
    ensures ReferenceRun(r, CompileOne(item, 0)) == r.(durable := r.durable + EffectOf(item))
  {
    match item {
      case Do(w) => ReferenceRunOne(r, Run(w, true));
      case Nested(body, commits) => TopBlockRuns(r, body, commits);
    }
  }

  lemma TopBlockRuns(r: Reference, body: seq<Item>, commits: bool)
    requires r.open && r.tx == []
    ensures ReferenceRun(r, CompileOne(Nested(body, commits), 0))
            == r.(durable := r.durable + if commits then Effect(body) else [])
  {
    var leave := if commits then CommitTransaction(true) else RollbackTransaction(true);
    var fs := TopBodyRuns(r, body);
    ReferenceRunSplit(r, [Begin(true)] + Compile(body, 1), [leave]);
    ReferenceRunOne(r.(tx := fs), leave);
    assert r.durable + [] == r.durable;
  }

  lemma TopBodyRuns(r: Reference, body: seq<Item>) returns (fs: seq<Frame>)
    requires r.open && r.tx == []
    ensures fs != [] && Flatten(fs) == Effect(body)
    ensures ReferenceRun(r, [Begin(true)] + Compile(body, 1)) == r.(tx := fs)
  {
    var base := [Frame(0, [])];
    assert base + [] == base;
    var low, top := BlockRuns(r.(tx := base), body, 1, base, []);
    fs := low + top;
    EmptyBase();
    ReferenceRunSplit(r, [Begin(true)], Compile(body, 1));
    ReferenceRunOne(r, Begin(true));
    assert [] + Effect(body) == Effect(body);
  }

  lemma EmptyBase()
    ensures Flatten([Frame(0, [])]) == []
  {
    var base := [Frame(0, [])];
    assert Range(base, 0, 0) == [] && Range(base, 0, 1) == Range(base, 0, 0) + base[0].writes;
  }

  /** The same for the adapter on the driver and the server. */
  lemma NestedBlocksMeanWhatTheySay(a: Adapter, items: seq<Item>)
    requires Idle(a)
    ensures AdapterRun(a, Compile(items, 0)).conn.server.durable == a.conn.server.durable + Effect(items)
  {
    var r := Reference(a.conn.server.durable, [], true);
    RunsRefine(a, r, Compile(items, 0));
    ProgramsRun(r, items);
  }
}
