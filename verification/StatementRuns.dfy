/** Whole runs of calls on one statement handle: repeated `bind_param`, repeated `execute`, and lifetimes from
    preparation to the garbage collector (IBM_DB_Driver/ibm_db.c). */
module StatementRuns {
  import opened Options
  import opened Sequences
  import opened Parameters
  import opened ExecuteProtocol
  import opened ParamNodes
  import opened CliLibrary
  import opened Statement

  // ---------- bind_param ----------

  lemma BrokenForGood(calls: seq<Entry>, n: nat)
    requires n <= |calls| && BindRun(calls[..n]) == None
    ensures BindRun(calls) == None
  {
    BindRunIsLastWins(calls);
    BindRunIsLastWins(calls[..n]);
    assert forall i :: 0 <= i < n ==> calls[..n][i] == calls[i];
  }

  /** One call, and whether the list is still a list after it. */
  method BindOne(h: StatementHandle, e: Entry) returns (linked: bool)
    requires h.Valid()
    modifies h`head, h`nodes, h`entries, h`born, h`numParams, h`fileParam, h.nodes
    ensures linked == Links(old(h.entries), e.num)
    ensures linked ==>
              && h.Valid() && h.entries == Insert(old(h.entries), e)
              && h.numParams == old(h.numParams) + |h.entries| - |old(h.entries)|
    ensures !linked ==> h.head != null && h.head.next != null && h.head.next.next == h.head
    ensures old(h.born) <= h.born
    ensures forall k :: 0 <= k < |h.nodes| ==> h.nodes[k] in old(h.nodes) || fresh(h.nodes[k])
  {
    linked := h.head == null || h.head.num <= e.num;
    assert h.entries != [] ==> h.entries[0] == h.nodes[0].Content();
    h.AddParamCache(e);
  }

  /** A run of `bind_param` calls on a fresh statement: the heap list is the ascending listing of "last call wins",
      counted by `num_params`, if and only if no call names a marker below the first one; otherwise the run
      ends in a two-node cycle. */
  method BindAll(h: StatementHandle, calls: seq<Entry>) returns (linked: bool)
    requires h.Valid() && h.entries == [] && h.numParams == 0
    modifies h`head, h`nodes, h`entries, h`born, h`numParams, h`fileParam, h.nodes
    ensures linked <==> forall i :: 0 <= i < |calls| ==> calls[0].num <= calls[i].num
    ensures linked ==>
              && h.Valid() && BindRun(calls) == Some(h.entries)
              && Ascending(h.entries) && AsMap(h.entries) == LastBindings(calls)
              && h.numParams == |h.entries| == |h.nodes|
    ensures !linked ==> h.head != null && h.head.next != null && h.head.next.next == h.head
    ensures old(h.born) <= h.born
  {
    linked := true;
    for i := 0 to |calls|
      invariant old(h.born) <= h.born
      invariant h.Valid() && BindRun(calls[..i]) == Some(h.entries) && h.numParams == |h.entries|
      invariant forall k :: 0 <= k < |h.nodes| ==> h.nodes[k] in old(h.nodes) || fresh(h.nodes[k])
    {
      assert calls[..i + 1][..i] == calls[..i];
      linked := BindOne(h, calls[i]);
      if !linked {
        BrokenForGood(calls, i + 1);
        BindRunIsLastWins(calls);
        return;
      }
    }
    assert calls[..|calls|] == calls;
    BindRunIsLastWins(calls);
  }

  // ---------- execute ----------

  /** An execute binds as told, with or without an array, wherever it stops. If it succeeds, it has bound every marker it
      reaches, and it asks for data of earlier calls or not by what its caller can see beforehand: the
      bindings left for data-at-execution, the cache and the argument. */
  method ExecuteKnowing(h: StatementHandle, cli: CliStatement, arg: Argument, reply: Replies, env: Option<string> -> Value)
    returns (ok: bool)
    requires h.Valid() && cli.Valid()
    modifies h, h.nodes, cli
    ensures h.Valid() && cli.Valid()
    ensures BindsAsTold(cli.log, reply, old(h.State()), arg, env)
    ensures ok ==> (OwnDataOnly(cli) <==> ReachesAll(old(cli.bound), old(h.State()), arg, MarkersOf(reply)))
    ensures ok ==>
              forall i :: 0 <= i < |cli.log| && cli.log[i].deferred && 1 <= cli.log[i].marker <= MarkersOf(reply)
                          && (forall j :: i < j < |cli.log| ==> cli.log[j].marker != cli.log[i].marker) ==>
                            Delivered(cli, cli.log[i])
    ensures ok && MarkersOf(reply) > 0 ==>
              var n := if arg.Absent? then |old(h.entries)| else MarkersOf(reply);
              |cli.log| == if old(h.entries) != [] && |old(h.entries)| < n then |old(h.entries)| else n
  {
    ghost var freed;
    ghost var c, bound := h.State(), cli.bound;
    ok, freed := h.Execute(arg, reply, env, cli);
    PhaseBindsAsTold(reply, c, arg, env);
    if ok {
      NothingStaleIff(reply, c, arg, bound, env);
      AllDelivered(cli, reply, c, arg, env);
    }
  }

  lemma AllDelivered(cli: CliStatement, reply: Replies, c: Cache, arg: Argument, env: Option<string> -> Value)
    requires cli.Valid() && SentInOrder(cli, MarkersOf(reply)) && SentAll(cli, MarkersOf(reply))
    requires BindsAsTold(cli.log, reply, c, arg, env)
    ensures forall i :: 0 <= i < |cli.log| && cli.log[i].deferred && 1 <= cli.log[i].marker <= MarkersOf(reply)
                        && (forall j :: i < j < |cli.log| ==> cli.log[j].marker != cli.log[i].marker) ==>
                          Delivered(cli, cli.log[i])
  {
    forall i | 0 <= i < |cli.log| && cli.log[i].deferred && 1 <= cli.log[i].marker <= MarkersOf(reply)
               && (forall j :: i < j < |cli.log| ==> cli.log[j].marker != cli.log[i].marker)
      ensures Delivered(cli, cli.log[i])
    {
      assert cli.log[i].value.Text?;
      OwnTextIsDelivered(cli, MarkersOf(reply), i);
    }
  }

  /** One array execution that the CLI library lets bind: it binds everything, asks for its own data only, and
      leaves a cache from which the next one will. */
  method ExecuteGood(h: StatementHandle, cli: CliStatement, reply: Replies, vs: seq<Value>, n: nat) returns (ok: bool)
    requires h.Valid() && cli.Valid() && n > 0 && Ready(h.State(), n) && GoodCall(Call(reply, vs, true), n)
    modifies h, h.nodes, cli
    ensures h.Valid() && cli.Valid() && Ready(h.State(), n)
    ensures Pairs(cli.log) == Numbered(0, vs[..n]) && OwnDataOnly(cli) && SentInOrder(cli, n)
    ensures ok ==> SentAll(cli, n)
    ensures ok && old(h.State()) == EMPTY ==> h.State() == EMPTY
    ensures old(h.born) <= h.born && old(h.released) <= h.released
    ensures forall k :: 0 <= k < |h.nodes| ==> h.nodes[k] in old(h.nodes) || fresh(h.nodes[k])
  {
    ghost var c, env := h.State(), (name: Option<string>) => Nil;
    CallKeepsReady(c, Call(reply, vs, true), n, env);
    CallKeepsReady(c, Call(reply, vs, false), n, env);
    ghost var freed;
    ok, freed := h.Execute(Values(vs), reply, _ => Nil, cli);
    SameEnv(reply, c, vs, _ => Nil, env);
    BindsAllCovers(BindPhase(reply, c, Values(vs), env), vs, n, cli.base);
    OnlyOwnDataIff(cli.base, cli.log, n);
  }

  /** An array execution reads no variables. */
  lemma SameEnv(reply: Replies, c: Cache, vs: seq<Value>, env: Option<string> -> Value, env': Option<string> -> Value)
    ensures BindPhase(reply, c, Values(vs), env) == BindPhase(reply, c, Values(vs), env')
  {
  }

  /** Any number of array executions of a fresh n-marker statement, SQLExecute failing now and then: each binds
      element i to marker i+1 and asks for no data but its own, and while all succeed the statement is as
      fresh as before. */
  method RepeatExecute(h: StatementHandle, cli: CliStatement, calls: seq<(Replies, seq<Value>)>, n: nat)
    returns (oks: seq<bool>, ghost logs: seq<seq<Binding>>)
    requires h.Valid() && cli.Valid() && n > 0 && h.State() == EMPTY
    requires forall i :: 0 <= i < |calls| ==> GoodCall(Call(calls[i].0, calls[i].1, true), n)
    modifies h, h.nodes, cli
    ensures |oks| == |logs| == |calls|
    ensures forall i :: 0 <= i < |calls| ==> n <= |calls[i].1| && Pairs(logs[i]) == Numbered(0, calls[i].1[..n])
    ensures h.Valid() && Ready(h.State(), n)
    ensures (forall i :: 0 <= i < |oks| ==> oks[i]) ==> h.State() == EMPTY
    ensures old(h.born) <= h.born && old(h.released) <= h.released
  {
    oks, logs := [], [];
    for i := 0 to |calls|
      invariant h.Valid() && cli.Valid() && Ready(h.State(), n)
      invariant |oks| == |logs| == i
      invariant forall j :: 0 <= j < i ==> Pairs(logs[j]) == Numbered(0, calls[j].1[..n])
      invariant (forall j :: 0 <= j < i ==> oks[j]) ==> h.State() == EMPTY
      invariant old(h.born) <= h.born && old(h.released) <= h.released
      invariant forall k :: 0 <= k < |h.nodes| ==> h.nodes[k] in old(h.nodes) || fresh(h.nodes[k])
    {
      ghost var before := oks;
      var ok := ExecuteGood(h, cli, calls[i].0, calls[i].1, n);
      oks, logs := oks + [ok], logs + [cli.log];
      assert oks[i] == ok && forall j :: 0 <= j < i ==> oks[j] == before[j];
    }
  }

  // ---------- lifetimes ----------

  datatype Event =
    | BindParam(e: Entry)
    | ExecuteIt(arg: Argument, reply: Replies, env: Option<string> -> Value)
    | FreeIt(closed: bool)
    | FreeStmt

  /** The statement handle has been freed. */
  predicate Freed(events: seq<Event>) {
    exists i :: 0 <= i < |events| && events[i].FreeStmt?
  }

  /** No execute follows the first `free_stmt`. */
  predicate NoLateExecute(events: seq<Event>) {
    forall i, j :: 0 <= i < j < |events| && events[i].FreeStmt? ==> !events[j].ExecuteIt?
  }

  /** Some `bind_param` after the first `free_stmt` is not followed by a `free_result` that succeeds. */
  predicate LeavesNodes(events: seq<Event>) {
    if events == [] then false
    else
      var init, last := events[..|events| - 1], events[|events| - 1];
      Freed(init) && (last.BindParam? || (last != FreeIt(true) && LeavesNodes(init)))
  }

  lemma FreedNext(events: seq<Event>, i: nat)
    requires i < |events|
    ensures Freed(events[..i + 1]) <==> Freed(events[..i]) || events[i].FreeStmt?
    ensures LeavesNodes(events[..i + 1]) <==>
            Freed(events[..i]) && (events[i].BindParam? || (events[i] != FreeIt(true) && LeavesNodes(events[..i])))
    ensures NoLateExecute(events) && Freed(events[..i]) ==> !events[i].ExecuteIt?
  {
    var now := events[..i + 1];
    assert now[..i] == events[..i] && now[i] == events[i];
    assert forall k :: 0 <= k < i ==> now[k] == events[..i][k] == events[k];
    if Freed(events[..i]) {
      var k :| 0 <= k < i && events[..i][k].FreeStmt?;
      assert now[k].FreeStmt?;
    }
    if events[i].FreeStmt? {
      assert now[i].FreeStmt?;
    }
  }

  /** With nothing but `free_stmt` and `free_result` after the first `free_stmt`, no nodes are left. */
  lemma {:induction false} OnlyFreesLeaveNothing(events: seq<Event>)
    requires forall i, j :: 0 <= i < j < |events| && events[i].FreeStmt? ==> events[j].FreeStmt? || events[j].FreeIt?
    ensures NoLateExecute(events) && !LeavesNodes(events)
  {
    if events == [] {
    } else {
      OnlyFreesLeaveNothing(events[..|events| - 1]);
    }
  }

  method Handle(h: StatementHandle, cli: CliStatement, event: Event) returns (linked: bool)
    requires h.Valid() && cli.Valid()
    modifies h, h.nodes, cli
    ensures cli.Valid() && (linked ==> h.Valid())
    ensures !linked ==> event.BindParam? && h.head != null && h.head.next != null && h.head.next.next == h.head
    ensures linked ==> old(h.born) <= h.born && old(h.released) <= h.released
    ensures linked ==> h.isFreed == (old(h.isFreed) || event.FreeStmt?)
    ensures linked && event.BindParam? ==> h.nodes != []
    ensures event == FreeIt(true) || (event.FreeStmt? && !old(h.isFreed)) ==> h.nodes == []
    ensures event == FreeIt(false) || (event.FreeStmt? && old(h.isFreed)) ==> h.nodes == old(h.nodes)
    ensures forall k :: 0 <= k < |h.nodes| ==> h.nodes[k] in old(h.nodes) || fresh(h.nodes[k])
  {
    linked := true;
    match event {
      case BindParam(e) =>
        linked := BindOne(h, e);
        assert linked ==> |h.nodes| == |h.entries| > 0;
      case ExecuteIt(arg, reply, env) =>
        ghost var freed;
        var ok;
        ok, freed := h.Execute(arg, reply, env, cli);
      case FreeIt(closed) => var ok := h.FreeResult(closed);
      case FreeStmt => h.FreeHandleAndResources();
    }
  }

  /** What the first i events have made of the handle. */
  ghost predicate InStep(h: StatementHandle, events: seq<Event>, i: nat)
    requires i <= |events|
    reads h
  {
    && h.isFreed == Freed(events[..i])
    && (NoLateExecute(events) && h.isFreed ==> (h.nodes == [] <==> !LeavesNodes(events[..i])))
    && (!h.isFreed ==> !LeavesNodes(events[..i]))
  }

  /** One pass of the loop below. */
  method HandleNext(h: StatementHandle, cli: CliStatement, events: seq<Event>, i: nat) returns (linked: bool)
    requires h.Valid() && cli.Valid() && i < |events| && InStep(h, events, i)
    modifies h, h.nodes, cli
    ensures cli.Valid() && (linked ==> h.Valid() && InStep(h, events, i + 1))
    ensures !linked ==> h.head != null && h.head.next != null && h.head.next.next == h.head
    ensures forall k :: 0 <= k < |h.nodes| ==> h.nodes[k] in old(h.nodes) || fresh(h.nodes[k])
  {
    FreedNext(events, i);
    linked := Handle(h, cli, events[i]);
  }

  /** From preparation to the garbage collector: any calls of `bind_param`, `execute`, `free_result` and `free_stmt` in any
      order, whatever fails in them, and at the end the release that `free_stmt` and the garbage collector
      share, any number of times. The statement handle is freed exactly once and no node twice; every node ever
      allocated is released exactly when none is left in the list. As long as no execute is called on the freed
      handle, nodes are left exactly when one was bound to it and not given up by `free_result`. The run stops early
      only if a `bind_param` has closed a cycle. */
  method Lifetime(events: seq<Event>, frees: nat) returns (h: StatementHandle, linked: bool)
    requires frees > 0
    ensures linked ==> h.Valid() && h.handleFrees == 1 && Distinct(h.released)
    ensures linked ==> (NodeSet(h.released) == h.born <==> h.nodes == [])
    ensures linked && NoLateExecute(events) ==> (h.nodes == [] <==> !LeavesNodes(events))
    ensures !linked ==> h.head != null && h.head.next != null && h.head.next.next == h.head
  {
    h := new StatementHandle();
    var cli := new CliStatement();
    linked := true;
    for i := 0 to |events|
      invariant h.Valid() && cli.Valid() && InStep(h, events, i)
      invariant fresh(h) && fresh(cli) && forall k :: 0 <= k < |h.nodes| ==> fresh(h.nodes[k])
    {
      linked := HandleNext(h, cli, events, i);
      if !linked {
        return;
      }
    }
    assert events[..|events|] == events;
    FreeRepeatedly(h, frees);
    AllReleasedIff(h.nodes, h.born, h.released);
  }

  /** The release shared by `free_stmt` and the garbage collector, over and over: only the first has an effect. */
  method FreeRepeatedly(h: StatementHandle, frees: nat)
    requires h.Valid() && frees > 0
    modifies h, h.nodes
    ensures h.Valid() && h.handleFrees == 1
    ensures h.nodes == if old(h.isFreed) then old(h.nodes) else []
  {
    h.FreeHandleAndResources();
    for i := 1 to frees
      invariant h.Valid() && h.isFreed && h.nodes == if old(h.isFreed) then old(h.nodes) else []
    {
      h.FreeHandleAndResources();
    }
  }

  lemma AllReleasedIff(ns: seq<ParamNode>, born: set<ParamNode>, released: seq<ParamNode>)
    requires Accounted(ns, born, released)
    ensures NodeSet(released) == born <==> ns == []
  {
    if ns != [] {
      assert ns[0] in ns;
    }
  }

  /** A parameter bound to a freed statement handle: the garbage collector does not release its node. */
  method BindAfterFree(x: Entry) returns (h: StatementHandle)
    ensures h.Valid() && h.handleFrees == 1 && h.nodes != []
    ensures h.nodes[0] in h.born && h.nodes[0] !in h.released
  {
    h := new StatementHandle();
    h.FreeHandleAndResources();
    h.AddParamCache(x);
    assert |h.nodes| == |h.entries| > 0;
    h.FreeHandleAndResources();
    assert h.nodes[0] in h.nodes;
  }

  /** Two CLOB markers bound dynamically and sent: the tokens the CLI library keeps are released nodes. */
  method ExecuteTwoClobs(a: string, b: string) returns (h: StatementHandle, cli: CliStatement, ok: bool)
    ensures fresh(h) && fresh(cli) && h.Valid() && cli.Valid() && forall k :: 0 <= k < |h.nodes| ==> fresh(h.nodes[k])
    ensures ok ==>
              && h.State() == EMPTY && 2 in cli.tokens && cli.tokens[2] in h.released
              && 2 in cli.bound && cli.bound[2].deferred
  {
    h := new StatementHandle();
    cli := new CliStatement();
    ghost var freed;
    BothClobs(a, b, _ => Nil);
    ok, freed := h.Execute(Values([Text(a), Text(b)]), TwoClobs(0), _ => Nil, cli);
    assert cli.log[1].marker == 2;
  }

  /** A statement with two CLOB markers is executed with an array; then `bind_param` caches marker 1 alone. If the
      next execute succeeds, the data of marker 2 was asked for again, by the token of a node that the
      first execute had released. */
  method StaleToken(a: string, b: string, x: Entry, d: string, e: string)
    returns (h: StatementHandle, cli: CliStatement, succeeded: bool)
    requires x.num == 1 && x.desc.dataType.Clob? && x.direction.Input?
    ensures succeeded ==> h.Valid() && 2 in cli.asks && 2 in cli.tokens && cli.tokens[2] in h.released
  {
    h, cli, succeeded := ExecuteTwoClobs(a, b);
    if succeeded {
      SecondIsStale(cli.bound, x, d, e, _ => Nil);
      h.AddParamCache(x);
      assert h.State() == Cache([x], 1);
      ghost var freed;
      succeeded, freed := h.Execute(Values([Text(d), Text(e)]), TwoClobs(0), _ => Nil, cli);
    }
  }

  method BindTwo(h: StatementHandle, x: Entry, y: Entry)
    requires h.Valid() && h.State() == EMPTY && x.num < y.num
    modifies h`head, h`nodes, h`entries, h`born, h`numParams, h`fileParam, h.nodes
    ensures h.Valid() && h.State() == Cache([x, y], 2)
    ensures forall k :: 0 <= k < |h.nodes| ==> h.nodes[k] in old(h.nodes) || fresh(h.nodes[k])
  {
    h.AddParamCache(x);
    assert h.entries == [x];
    h.AddParamCache(y);
    assert h.entries == [x, y];
  }

  /** The same without an array: the markers 1 and 3 are bound by name before the second execute. */
  method StaleTokenWithoutArray(a: string, b: string, x: Entry, y: Entry, env: Option<string> -> Value)
    returns (h: StatementHandle, cli: CliStatement, succeeded: bool)
    requires x.num == 1 && y.num == 3 && x.direction.Input? && y.direction.Input?
    requires !env(x.varName).Unsupported? && !env(y.varName).Unsupported?
    ensures succeeded ==> h.Valid() && 2 in cli.asks && 2 in cli.tokens && cli.tokens[2] in h.released
  {
    h, cli, succeeded := ExecuteTwoClobs(a, b);
    if succeeded {
      StaleMarkerWithoutArray(cli.bound, x, y, env);
      BindTwo(h, x, y);
      ghost var freed;
      succeeded, freed := h.Execute(Absent, TwoClobs(0), env, cli);
    }
  }
}
