/** `IBM_DB.execute` as a function of the parameter cache, its argument and the replies of the
    CLI library (IBM_DB_Driver/ibm_db.c). */
module ExecuteProtocol {
  import opened Options
  import opened Parameters

  /** The list and the counter `num_params`; the two can disagree after a failed describe. */
  datatype Cache = Cache(entries: seq<Entry>, count: int)

  const EMPTY := Cache([], 0)

  /** The argument of `execute` after the statement. */
  datatype Argument = Absent | NotAnArray | Values(vs: seq<Value>)

  /** What the CLI library answers: the number of markers (None: SQLNumParams fails), the
      description of a marker (None: SQLDescribeParam fails), and whether a bind succeeds. */
  datatype Replies = Replies(num: Option<nat>, describe: int -> Option<Description>, bindOk: (int, Value) -> bool)

  /** One successful SQLBindParameter or SQLBindFileToParam call. A deferred binding registers the
      node itself as the token of data-at-execution. */
  datatype Binding = Binding(marker: int, value: Value, deferred: bool)

  /** One SQLPutData call. */
  datatype Chunk = Chunk(marker: int, data: Option<string>, length: int)

  datatype Outcome = Outcome(ok: bool, cache: Cache, log: seq<Binding>)

  // ---------- one bind ----------

  predicate Bindable(cli: Replies, e: Entry, v: Value) {
    && (e.direction.FileInput? ==> v.Text?)
    && !v.Unsupported?
    && cli.bindOk(e.num, v)
  }

  predicate IsDeferred(e: Entry, v: Value) {
    v.Text? && e.direction.Input? && (e.desc.dataType.Clob? || e.desc.dataType.Blob?)
  }

  function BindingOf(e: Entry, v: Value): Binding {
    Binding(e.num, v, IsDeferred(e, v))
  }

  /** Binding a number or a flag overwrites the cached SQL type with the C type. */
  function AfterBind(e: Entry, v: Value): Entry {
    if e.direction.FileInput? then e
    else if v.Fixnum? || v.Flag? then e.(desc := e.desc.(dataType := CLong))
    else if v.Float? then e.(desc := e.desc.(dataType := CDouble))
    else e
  }

  function DynamicEntry(marker: int, d: Description): Entry {
    Entry(marker, d, Input, None, 0)
  }

  // ---------- bindings that outlive an execute ----------

  /** The data a deferred binding owes the server. */
  function Data(b: Binding): Chunk {
    if b.value.Text? then Chunk(b.marker, Some(b.value.data), |b.value.data|) else Chunk(b.marker, None, 0)
  }

  predicate InLog(log: seq<Binding>, m: int) {
    exists i :: 0 <= i < |log| && log[i].marker == m
  }

  /** The bindings the CLI library holds after a log of binds. Each lasts until its marker is bound again:
      `execute` closes cursors between calls but never resets parameters. */
  function Rebound(bound: map<int, Binding>, log: seq<Binding>): map<int, Binding> {
    if log == [] then bound
    else Rebound(bound, log[..|log| - 1])[log[|log| - 1].marker := log[|log| - 1]]
  }

  /** The markers of an n-marker statement whose data SQLExecute leaves to be asked for. */
  function Deferred(bound: map<int, Binding>, n: nat): set<int> {
    set m | m in bound && 1 <= m <= n && bound[m].deferred
  }

  /** Every marker left bound for data-at-execution is bound again by the log. */
  ghost predicate Covers(bound: map<int, Binding>, log: seq<Binding>, n: nat) {
    forall m :: m in Deferred(bound, n) ==> InLog(log, m)
  }

  lemma ReboundNext(bound: map<int, Binding>, log: seq<Binding>, b: Binding)
    ensures Rebound(bound, log + [b]) == Rebound(bound, log)[b.marker := b]
    ensures forall m :: InLog(log + [b], m) <==> InLog(log, m) || m == b.marker
  {
    assert (log + [b])[..|log|] == log;
    forall m ensures InLog(log + [b], m) <==> InLog(log, m) || m == b.marker {
      if InLog(log, m) {
        var i :| 0 <= i < |log| && log[i].marker == m;
        assert (log + [b])[i].marker == m;
      }
      assert (log + [b])[|log|] == b;
    }
  }

  lemma {:induction false} ReboundIs(bound: map<int, Binding>, log: seq<Binding>, m: int)
    ensures InLog(log, m) ==> m in Rebound(bound, log) && Rebound(bound, log)[m].marker == m
    ensures !InLog(log, m) ==> (m in Rebound(bound, log) <==> m in bound)
    ensures !InLog(log, m) && m in bound ==> Rebound(bound, log)[m] == bound[m]
  {
    if log == [] {
    } else {
      var init, b := log[..|log| - 1], log[|log| - 1];
      assert log == init + [b];
      ReboundIs(bound, init, m);
      ReboundNext(bound, init, b);
    }
  }

  /** Of several binds of one marker the last is in force. */
  lemma {:induction false} LastBindHolds(bound: map<int, Binding>, log: seq<Binding>, i: nat)
    requires i < |log| && forall j :: i < j < |log| ==> log[j].marker != log[i].marker
    ensures log[i].marker in Rebound(bound, log) && Rebound(bound, log)[log[i].marker] == log[i]
  {
    var n := |log| - 1;
    assert log == log[..n] + [log[n]];
    ReboundNext(bound, log[..n], log[n]);
    if i < n {
      LastBindHolds(bound, log[..n], i);
    }
  }

  /** SQLExecute asks for the data of this call's own bindings only, exactly when the call rebinds every
      marker that an earlier call left bound for data-at-execution. */
  lemma OnlyOwnDataIff(bound: map<int, Binding>, log: seq<Binding>, n: nat)
    ensures (forall m :: m in Deferred(Rebound(bound, log), n) ==> InLog(log, m)) <==> Covers(bound, log, n)
  {
    forall m ensures !InLog(log, m) ==> (m in Deferred(Rebound(bound, log), n) <==> m in Deferred(bound, n)) {
      ReboundIs(bound, log, m);
    }
  }

  // ---------- the binding phase ----------

  function Prepend(log: seq<Binding>, o: Outcome): Outcome {
    o.(log := log + o.log)
  }

  /** Dynamic mode: describe the next marker, append a node for it, bind it. */
  function DescribeAndBind(cli: Replies, c: Cache, vs: seq<Value>): Outcome
    decreases |vs|
  {
    if vs == [] then Outcome(true, c, [])
    else
      var m := c.count + 1;
      match cli.describe(m)
      case None => Outcome(false, Cache(c.entries, m), [])
      case Some(d) =>
        var e := DynamicEntry(m, d);
        var c' := Cache(c.entries + [AfterBind(e, vs[0])], m);
        if !Bindable(cli, e, vs[0]) then Outcome(false, c', [])
        else Prepend([BindingOf(e, vs[0])], DescribeAndBind(cli, c', vs[1..]))
  }

  /** Explicit mode: walk the cached nodes with `current_node`, one value a node. A value
      for which no node is left is passed over without an error. */
  function BindCached(cli: Replies, walked: seq<Entry>, rest: seq<Entry>, count: int, vs: seq<Value>): Outcome
    decreases |vs|
  {
    if vs == [] || rest == [] then Outcome(true, Cache(walked + rest, count), [])
    else
      var walked' := walked + [AfterBind(rest[0], vs[0])];
      if !Bindable(cli, rest[0], vs[0]) then Outcome(false, Cache(walked' + rest[1..], count), [])
      else Prepend([BindingOf(rest[0], vs[0])], BindCached(cli, walked', rest[1..], count, vs[1..]))
  }

  /** What is left of a binding phase once `w` cached nodes have been passed. */
  function Remaining(dynamic: bool, cli: Replies, c: Cache, w: nat, vs: seq<Value>): Outcome
    requires w <= |c.entries|
  {
    if dynamic then DescribeAndBind(cli, c, vs)
    else BindCached(cli, c.entries[..w], c.entries[w..], c.count, vs)
  }

  /** One step of the dynamic loop. */
  lemma DynamicStep(cli: Replies, c: Cache, vs: seq<Value>, log: seq<Binding>)
    requires vs != []
    ensures var m := c.count + 1;
            var whole := Prepend(log, DescribeAndBind(cli, c, vs));
            if cli.describe(m).None? then whole == Outcome(false, Cache(c.entries, m), log)
            else
              var e := DynamicEntry(m, cli.describe(m).value);
              var c' := Cache(c.entries + [AfterBind(e, vs[0])], m);
              if !Bindable(cli, e, vs[0]) then whole == Outcome(false, c', log)
              else whole == Prepend(log + [BindingOf(e, vs[0])], DescribeAndBind(cli, c', vs[1..]))
  {
    assert log + [] == log;
  }

  /** One step of the walk over the cached nodes. */
  lemma CachedStep(cli: Replies, es: seq<Entry>, count: int, w: nat, vs: seq<Value>, log: seq<Binding>)
    requires vs != [] && w <= |es|
    ensures var whole := Prepend(log, Remaining(false, cli, Cache(es, count), w, vs));
            if w == |es| then whole == Prepend(log, Remaining(false, cli, Cache(es, count), w, vs[1..]))
            else
              var es' := es[w := AfterBind(es[w], vs[0])];
              if !Bindable(cli, es[w], vs[0]) then whole == Outcome(false, Cache(es', count), log)
              else whole == Prepend(log + [BindingOf(es[w], vs[0])],
                                    Remaining(false, cli, Cache(es', count), w + 1, vs[1..]))
  {
    if w < |es| {
      var es' := es[w := AfterBind(es[w], vs[0])];
      assert es'[..w + 1] == es[..w] + [AfterBind(es[w], vs[0])];
      assert es'[w + 1..] == es[w..][1..];
      assert es' == es'[..w + 1] + es'[w + 1..];
      assert log + [] == log;
    }
  }

  lemma PassOver(cli: Replies, es: seq<Entry>, count: int, vs: seq<Value>, log: seq<Binding>)
    requires vs != []
    ensures Prepend(log, Remaining(false, cli, Cache(es, count), |es|, vs))
            == Prepend(log, Remaining(false, cli, Cache(es, count), |es|, vs[1..]))
  {
  }

  /** The walk starts with every node ahead of it. */
  lemma CachedStarts(cli: Replies, es: seq<Entry>, count: int, vs: seq<Value>)
    ensures BindCached(cli, [], es, count, vs) == Prepend([], Remaining(false, cli, Cache(es, count), 0, vs[0..]))
  {
    assert es[..0] == [] && es[0..] == es && vs[0..] == vs;
    var o := BindCached(cli, [], es, count, vs);
    assert [] + o.log == o.log;
  }

  /** It ends when the values are used up. */
  lemma CachedEnds(cli: Replies, es: seq<Entry>, count: int, w: nat, vs: seq<Value>, i: nat, log: seq<Binding>)
    requires w <= |es| && i == |vs|
    ensures Prepend(log, Remaining(false, cli, Cache(es, count), w, vs[i..])) == Outcome(true, Cache(es, count), log)
  {
    assert vs[i..] == [];
    assert es[..w] + es[w..] == es && log + [] == log;
  }

  /** The values of the variables named by `bind_param`. A node of a dynamic list has no name; what the
      interpreter makes of that is left open. */
  function NamedValues(es: seq<Entry>, env: Option<string> -> Value): seq<Value> {
    seq(|es|, i requires 0 <= i < |es| => env(es[i].varName))
  }

  /** The markers of the statement, as far as the CLI library counts them. */
  function MarkersOf(cli: Replies): nat {
    if cli.num.Some? then cli.num.value else 0
  }

  predicate IsDynamic(cli: Replies, c: Cache, arg: Argument) {
    cli.num.Some? && cli.num.value != 0 && arg.Values? && c.entries == []
  }

  function BindPhase(cli: Replies, c: Cache, arg: Argument, env: Option<string> -> Value): Outcome
  {
    var refused := Outcome(false, c, []);
    if cli.num.None? then refused
    else
      var n := cli.num.value;
      if n == 0 then Outcome(true, c, [])
      else
        match arg
        case NotAnArray => refused
        case Values(vs) =>
          if |vs| < n then refused
          else if c.entries == [] then DescribeAndBind(cli, c, vs[..n])
          else BindCached(cli, [], c.entries, c.count, vs[..n])
        case Absent =>
          if n != c.count || c.entries == [] then refused
          else BindCached(cli, [], c.entries, c.count, NamedValues(c.entries, env))
  }

  /** The cache once the statement itself has run: only a dynamic execution tears its list down. */
  function AfterSuccess(cli: Replies, c: Cache, arg: Argument, bound: Cache): Cache {
    if IsDynamic(cli, c, arg) then EMPTY else bound
  }

  // ---------- properties ----------

  /** The CLI library describes markers 1..n and accepts any of the n values for them, and a file
      parameter gets a file name. What it says of other markers, and of SQLExecute, is left open. */
  ghost predicate Cooperative(cli: Replies, es: seq<Entry>, vs: seq<Value>, n: nat)
    requires n <= |vs|
  {
    && (forall m :: 1 <= m <= n ==> cli.describe(m).Some?)
    && (forall m, i :: 1 <= m <= n && 0 <= i < n ==> cli.bindOk(m, vs[i]))
    && (forall i :: 0 <= i < n ==> !vs[i].Unsupported?)
    && (forall i :: 0 <= i < n && i < |es| && es[i].direction.FileInput? ==> vs[i].Text?)
  }

  /** The (marker, value) pairs of a log. */
  function Pairs(log: seq<Binding>): seq<(int, Value)> {
    seq(|log|, i requires 0 <= i < |log| => (log[i].marker, log[i].value))
  }

  /** The values paired with the consecutive markers after `base`. */
  function Numbered(base: int, vs: seq<Value>): seq<(int, Value)> {
    seq(|vs|, i requires 0 <= i < |vs| => (base + i + 1, vs[i]))
  }

  lemma PairsAre(log: seq<Binding>, base: int, vs: seq<Value>)
    requires Pairs(log) == Numbered(base, vs)
    ensures |log| == |vs| && forall i :: 0 <= i < |log| ==> log[i].marker == base + i + 1 && log[i].value == vs[i]
  {
    assert |log| == |Pairs(log)| == |vs|;
    forall i | 0 <= i < |log| ensures log[i].marker == base + i + 1 && log[i].value == vs[i] {
      assert Pairs(log)[i] == Numbered(base, vs)[i];
    }
  }

  /** The first `k` cached nodes are the markers 1..k, in order. */
  ghost predicate CountsFromOne(es: seq<Entry>, k: nat) {
    k <= |es| && forall i :: 0 <= i < k ==> es[i].num == i + 1
  }

  /** What a dynamic binding phase adds to the cache and, if it ends well, what it has bound. */
  lemma {:induction false} DynamicPairs(cli: Replies, c: Cache, vs: seq<Value>)
    ensures var o := DescribeAndBind(cli, c, vs);
            && |c.entries| <= |o.cache.entries| && o.cache.count >= c.count
            && (forall i :: 0 <= i < |c.entries| ==> o.cache.entries[i] == c.entries[i])
            && (forall i :: |c.entries| <= i < |o.cache.entries| ==>
                  o.cache.entries[i].num == c.count + 1 + i - |c.entries| && o.cache.entries[i].direction.Input?)
            && (o.ok ==>
                  && Pairs(o.log) == Numbered(c.count, vs)
                  && o.cache.count == c.count + |vs|
                  && |o.cache.entries| == |c.entries| + |vs|)
    decreases |vs|
  {
    if vs == [] {
    } else {
      var m := c.count + 1;
      if cli.describe(m).Some? {
        var e := DynamicEntry(m, cli.describe(m).value);
        var c' := Cache(c.entries + [AfterBind(e, vs[0])], m);
        if Bindable(cli, e, vs[0]) {
          DynamicPairs(cli, c', vs[1..]);
          var o := DescribeAndBind(cli, c', vs[1..]);
          assert c'.entries[|c.entries|] == o.cache.entries[|c.entries|];
          assert forall i :: 0 <= i < |c.entries| ==> o.cache.entries[i] == c'.entries[i] == c.entries[i];
          NextPair(m, BindingOf(e, vs[0]), o.log, vs);
        }
      }
    }
  }

  lemma NextPair(m: int, b: Binding, log: seq<Binding>, vs: seq<Value>)
    requires vs != [] && b.marker == m && b.value == vs[0]
    ensures Pairs(log) == Numbered(m, vs[1..]) ==> Pairs([b] + log) == Numbered(m - 1, vs)
  {
    assert Pairs([b] + log) == [(m, vs[0])] + Pairs(log);
    assert Numbered(m - 1, vs) == [(m, vs[0])] + Numbered(m, vs[1..]);
  }

  /** The CLI library describes the marker and binds the value to it. */
  predicate Accepts(cli: Replies, m: int, v: Value) {
    cli.describe(m).Some? && Bindable(cli, DynamicEntry(m, cli.describe(m).value), v)
  }

  /** A dynamic binding phase ends well exactly when every marker it reaches is described and bound. */
  lemma {:induction false} DynamicEndsWellIff(cli: Replies, c: Cache, vs: seq<Value>)
    ensures DescribeAndBind(cli, c, vs).ok <==> forall i :: 0 <= i < |vs| ==> Accepts(cli, c.count + 1 + i, vs[i])
    decreases |vs|
  {
    if vs == [] {
    } else {
      var m := c.count + 1;
      if Accepts(cli, m, vs[0]) {
        var c' := Cache(c.entries + [AfterBind(DynamicEntry(m, cli.describe(m).value), vs[0])], m);
        DynamicEndsWellIff(cli, c', vs[1..]);
        if DescribeAndBind(cli, c', vs[1..]).ok {
          forall i | 0 <= i < |vs| ensures Accepts(cli, m + i, vs[i]) {
            assert i > 0 ==> vs[i] == vs[1..][i - 1] && Accepts(cli, c'.count + 1 + (i - 1), vs[1..][i - 1]);
          }
        } else {
          var i :| 0 <= i < |vs| - 1 && !Accepts(cli, c'.count + 1 + i, vs[1..][i]);
          assert vs[i + 1] == vs[1..][i] && !Accepts(cli, c.count + 1 + (i + 1), vs[i + 1]);
        }
      } else {
        assert !Accepts(cli, c.count + 1 + 0, vs[0]);
      }
    }
  }

  /** A walk over the cache keeps its markers and binds a prefix of them in order. */
  lemma {:induction false} CachedPairs(cli: Replies, walked: seq<Entry>, rest: seq<Entry>, count: int, vs: seq<Value>)
    ensures var o := BindCached(cli, walked, rest, count, vs);
            && o.cache.count == count
            && |o.cache.entries| == |walked + rest|
            && (forall i :: 0 <= i < |walked + rest| ==>
                  o.cache.entries[i].num == (walked + rest)[i].num
                  && o.cache.entries[i].direction == (walked + rest)[i].direction)
            && |o.log| <= |rest| && |o.log| <= |vs|
            && (o.ok ==> |o.log| == if |rest| < |vs| then |rest| else |vs|)
            && (forall i :: 0 <= i < |o.log| ==> o.log[i].marker == rest[i].num && o.log[i].value == vs[i])
    decreases |vs|
  {
    if vs == [] || rest == [] {
    } else {
      CachedPairs(cli, walked + [AfterBind(rest[0], vs[0])], rest[1..], count, vs[1..]);
    }
  }

  /** A walk ends well exactly when every node it reaches can be bound. */
  lemma {:induction false} CachedEndsWellIff(cli: Replies, walked: seq<Entry>, rest: seq<Entry>, count: int, vs: seq<Value>)
    ensures BindCached(cli, walked, rest, count, vs).ok <==>
            forall i :: 0 <= i < |rest| && i < |vs| ==> Bindable(cli, rest[i], vs[i])
    decreases |vs|
  {
    if vs == [] || rest == [] {
    } else {
      CachedEndsWellIff(cli, walked + [AfterBind(rest[0], vs[0])], rest[1..], count, vs[1..]);
      assert forall i :: 0 <= i < |vs| - 1 ==> vs[1..][i] == vs[i + 1];
      assert forall i :: 0 <= i < |rest| - 1 ==> rest[1..][i] == rest[i + 1];
      assert forall i :: 1 <= i < |vs| ==> vs[i] == vs[1..][i - 1];
      assert forall i :: 1 <= i < |rest| ==> rest[i] == rest[1..][i - 1];
    }
  }

  // ---------- what a binding phase does, spelled out ----------

  /** A value can go to a parameter of that direction: file parameters take file names only. */
  ghost predicate Suits(d: Direction, v: Value) {
    !v.Unsupported? && (d.FileInput? ==> v.Text?)
  }

  ghost predicate IsLob(t: SqlType) {
    t.Clob? || t.Blob?
  }

  /** The text of a LOB input parameter is sent while the statement executes. */
  ghost predicate SentLater(d: Direction, t: SqlType, v: Value) {
    v.Text? && d.Input? && IsLob(t)
  }

  /** The binding of a value to a marker described for it. */
  ghost predicate BindsNew(b: Binding, cli: Replies, m: int, v: Value) {
    cli.describe(m).Some? && b == Binding(m, v, SentLater(Input, cli.describe(m).value.dataType, v))
  }

  /** The binding of a value to a cached marker. */
  ghost predicate BindsOld(b: Binding, e: Entry, v: Value) {
    b == Binding(e.num, v, SentLater(e.direction, e.desc.dataType, v))
  }

  /** Which markers a log binds, to which values, and which of those are sent later: elements of the array go to the
      markers behind the counter or to the cached ones, and without an array every cached marker
      gets the value of its own variable. */
  ghost predicate BindsAsTold(log: seq<Binding>, cli: Replies, c: Cache, arg: Argument, env: Option<string> -> Value) {
    forall i :: 0 <= i < |log| ==>
      match arg
      case NotAnArray => false
      case Values(vs) =>
        && i < |vs|
        && if c.entries == [] then BindsNew(log[i], cli, c.count + 1 + i, vs[i])
           else i < |c.entries| && BindsOld(log[i], c.entries[i], vs[i])
      case Absent => i < |c.entries| && BindsOld(log[i], c.entries[i], env(c.entries[i].varName))
  }

  lemma {:induction false} DynamicBinds(cli: Replies, c: Cache, vs: seq<Value>)
    ensures var log := DescribeAndBind(cli, c, vs).log;
            |log| <= |vs| && forall i :: 0 <= i < |log| ==> BindsNew(log[i], cli, c.count + 1 + i, vs[i])
    decreases |vs|
  {
    if vs == [] {
    } else {
      var m := c.count + 1;
      if Accepts(cli, m, vs[0]) {
        var c' := Cache(c.entries + [AfterBind(DynamicEntry(m, cli.describe(m).value), vs[0])], m);
        DynamicBinds(cli, c', vs[1..]);
        var log, rest := DescribeAndBind(cli, c, vs).log, DescribeAndBind(cli, c', vs[1..]).log;
        forall i | 0 <= i < |log| ensures BindsNew(log[i], cli, c.count + 1 + i, vs[i]) {
          if i > 0 {
            assert BindsNew(rest[i - 1], cli, c'.count + 1 + (i - 1), vs[1..][i - 1]);
          }
        }
      }
    }
  }

  lemma {:induction false} CachedBinds(cli: Replies, walked: seq<Entry>, rest: seq<Entry>, count: int, vs: seq<Value>)
    ensures var log := BindCached(cli, walked, rest, count, vs).log;
            && |log| <= |vs| && |log| <= |rest|
            && forall i :: 0 <= i < |log| ==> BindsOld(log[i], rest[i], vs[i])
    decreases |vs|
  {
    if vs == [] || rest == [] {
    } else {
      CachedBinds(cli, walked + [AfterBind(rest[0], vs[0])], rest[1..], count, vs[1..]);
    }
  }

  /** A walk without an array gives every node the value of its own variable. */
  lemma NamedBindsAsTold(cli: Replies, c: Cache, env: Option<string> -> Value)
    ensures var o := BindCached(cli, [], c.entries, c.count, NamedValues(c.entries, env));
            BindsAsTold(o.log, cli, c, Absent, env) && (o.ok ==> |o.log| == |c.entries|)
  {
    CachedBinds(cli, [], c.entries, c.count, NamedValues(c.entries, env));
    CachedPairs(cli, [], c.entries, c.count, NamedValues(c.entries, env));
  }

  /** Whatever the argument, and wherever the binding phase stops, its log binds as told; if it ends well, an array
      has been bound up to the last of n markers or of the cached ones, and without an array all of
      those are bound. */
  lemma PhaseBindsAsTold(cli: Replies, c: Cache, arg: Argument, env: Option<string> -> Value)
    ensures var o := BindPhase(cli, c, arg, env);
            && BindsAsTold(o.log, cli, c, arg, env)
            && (o.ok && MarkersOf(cli) > 0 ==>
                  var n := if arg.Absent? then |c.entries| else MarkersOf(cli);
                  |o.log| == if c.entries != [] && |c.entries| < n then |c.entries| else n)
  {
    if MarkersOf(cli) > 0 {
      var n := MarkersOf(cli);
      match arg {
        case NotAnArray =>
        case Values(vs) =>
          if n <= |vs| && c.entries == [] {
            DynamicBinds(cli, c, vs[..n]);
            DynamicPairs(cli, c, vs[..n]);
            if DescribeAndBind(cli, c, vs[..n]).ok {
              PairsAre(DescribeAndBind(cli, c, vs[..n]).log, c.count, vs[..n]);
            }
          } else if n <= |vs| {
            CachedBinds(cli, [], c.entries, c.count, vs[..n]);
            CachedPairs(cli, [], c.entries, c.count, vs[..n]);
          }
        case Absent => NamedBindsAsTold(cli, c, env);
      }
    }
  }

  /** The CLI library describes a marker and takes a value for it. */
  ghost predicate TakesNew(cli: Replies, m: int, v: Value) {
    cli.describe(m).Some? && Suits(Input, v) && cli.bindOk(m, v)
  }

  /** It takes a value for a cached marker. */
  ghost predicate TakesOld(cli: Replies, e: Entry, v: Value) {
    Suits(e.direction, v) && cli.bindOk(e.num, v)
  }

  lemma ArrayEndsWellIff(cli: Replies, c: Cache, vs: seq<Value>)
    ensures DescribeAndBind(cli, c, vs).ok <==> forall i :: 0 <= i < |vs| ==> TakesNew(cli, c.count + 1 + i, vs[i])
    ensures BindCached(cli, [], c.entries, c.count, vs).ok <==>
            forall i :: 0 <= i < |vs| && i < |c.entries| ==> TakesOld(cli, c.entries[i], vs[i])
  {
    DynamicEndsWellIff(cli, c, vs);
    CachedEndsWellIff(cli, [], c.entries, c.count, vs);
    forall i | 0 <= i < |vs| ensures Accepts(cli, c.count + 1 + i, vs[i]) <==> TakesNew(cli, c.count + 1 + i, vs[i]) {
    }
  }

  /** A binding phase ends well exactly when the markers are counted and, if there are any: an array is long enough and
      each of its values that has a marker suits it and is accepted, with a new marker described
      first; or, without an array, all markers were cached and the variables named for them hold such values. */
  lemma PhaseEndsWellIff(cli: Replies, c: Cache, arg: Argument, env: Option<string> -> Value)
    ensures BindPhase(cli, c, arg, env).ok <==>
            && cli.num.Some?
            && (cli.num.value == 0 ||
                match arg
                case NotAnArray => false
                case Values(vs) =>
                  && cli.num.value <= |vs|
                  && forall i :: 0 <= i < cli.num.value ==>
                       if c.entries == [] then TakesNew(cli, c.count + 1 + i, vs[i])
                       else i < |c.entries| ==> TakesOld(cli, c.entries[i], vs[i])
                case Absent =>
                  && cli.num.value == c.count && c.entries != []
                  && forall i :: 0 <= i < |c.entries| ==> TakesOld(cli, c.entries[i], env(c.entries[i].varName)))
  {
    if MarkersOf(cli) > 0 {
      match arg {
        case NotAnArray =>
        case Values(vs) =>
          if MarkersOf(cli) <= |vs| {
            ArrayEndsWellIff(cli, c, vs[..MarkersOf(cli)]);
          }
        case Absent => ArrayEndsWellIff(cli, c, NamedValues(c.entries, env));
      }
    }
  }

  ghost predicate IsNumber(v: Value) {
    v.Fixnum? || v.Flag? || v.Float?
  }

  /** What a walk leaves of a node that it reached with a value: a number makes it a LOB no longer. */
  ghost predicate Retyped(was: Entry, v: Value, now: Entry) {
    && now == was.(desc := was.desc.(dataType := now.desc.dataType))
    && (IsLob(now.desc.dataType) <==> IsLob(was.desc.dataType) && !(IsNumber(v) && !was.direction.FileInput?))
  }

  /** A walk retypes the nodes it reached, the one whose bind failed included, and leaves the others alone. */
  lemma {:induction false} WalkRetypes(cli: Replies, walked: seq<Entry>, rest: seq<Entry>, count: int, vs: seq<Value>)
    ensures var o := BindCached(cli, walked, rest, count, vs);
            && |o.cache.entries| == |walked| + |rest|
            && (forall i :: 0 <= i < |walked| ==> o.cache.entries[i] == walked[i])
            && forall i :: 0 <= i < |rest| ==>
                 if i <= |o.log| && i < |vs| then Retyped(rest[i], vs[i], o.cache.entries[|walked| + i])
                 else o.cache.entries[|walked| + i] == rest[i]
    decreases |vs|
  {
    if vs == [] || rest == [] {
    } else if Bindable(cli, rest[0], vs[0]) {
      var walked' := walked + [AfterBind(rest[0], vs[0])];
      var o := BindCached(cli, walked', rest[1..], count, vs[1..]);
      WalkRetypes(cli, walked', rest[1..], count, vs[1..]);
      assert o.cache.entries[|walked|] == walked'[|walked|];
      forall i | 1 <= i < |rest|
        ensures if i <= |o.log| + 1 && i < |vs| then Retyped(rest[i], vs[i], o.cache.entries[|walked| + i])
                else o.cache.entries[|walked| + i] == rest[i]
      {
        var j := i - 1;
        assert rest[1..][j] == rest[i] && |walked'| + j == |walked| + i;
        assert i < |vs| ==> vs[1..][j] == vs[i];
      }
    }
  }

  /** The call binds element i to marker i+1, each marker once and nothing else. */
  ghost predicate BindsAll(o: Outcome, vs: seq<Value>, n: nat) {
    n <= |vs| && o.ok && Pairs(o.log) == Numbered(0, vs[..n])
  }

  lemma BoundFromOne(log: seq<Binding>, es: seq<Entry>, vs: seq<Value>)
    requires |log| <= |es| && forall i :: 0 <= i < |log| ==> log[i].marker == es[i].num
    requires Pairs(log) == Numbered(0, vs)
    ensures CountsFromOne(es, |vs|)
  {
    PairsAre(log, 0, vs);
  }

  /** With an array of at least as many elements as markers, and a CLI library that cooperates on the
      markers the statement has, element i is bound to marker i+1, each marker once and nothing else,
      exactly when the cache is pristine or already lists the markers 1..n first. */
  lemma BindsEveryMarkerIff(cli: Replies, c: Cache, vs: seq<Value>, env: Option<string> -> Value)
    requires cli.num.Some? && 0 < cli.num.value <= |vs|
    requires Cooperative(cli, c.entries, vs, cli.num.value)
    ensures BindsAll(BindPhase(cli, c, Values(vs), env), vs, cli.num.value)
            <==> c == EMPTY || CountsFromOne(c.entries, cli.num.value)
  {
    var n := cli.num.value;
    var o := BindPhase(cli, c, Values(vs), env);
    if c.entries == [] {
      DynamicPairs(cli, c, vs[..n]);
      DynamicEndsWellIff(cli, c, vs[..n]);
      if o.ok {
        assert Pairs(o.log)[0].0 == c.count + 1;
        assert Numbered(0, vs[..n])[0].0 == 1;
      }
    } else {
      CachedPairs(cli, [], c.entries, c.count, vs[..n]);
      CachedEndsWellIff(cli, [], c.entries, c.count, vs[..n]);
      if BindsAll(o, vs, n) {
        BoundFromOne(o.log, c.entries, vs[..n]);
      }
    }
  }

  /** The dynamic and the explicit mode issue the same bindings, and surplus elements change nothing. */
  lemma DynamicAndExplicitAgree(cli: Replies, c: Cache, vs: seq<Value>, env: Option<string> -> Value)
    requires cli.num.Some? && 0 < cli.num.value <= |vs|
    requires Cooperative(cli, c.entries, vs, cli.num.value)
    requires CountsFromOne(c.entries, cli.num.value)
    ensures Pairs(BindPhase(cli, EMPTY, Values(vs), env).log) == Pairs(BindPhase(cli, c, Values(vs), env).log)
    ensures BindPhase(cli, c, Values(vs), env) == BindPhase(cli, c, Values(vs[..cli.num.value]), env)
  {
    BindsEveryMarkerIff(cli, EMPTY, vs, env);
    BindsEveryMarkerIff(cli, c, vs, env);
    assert vs[..cli.num.value][..cli.num.value] == vs[..cli.num.value];
  }

  /** What a dynamic binding phase leaves behind when it stops early: the markers bound so far stay
      cached, and the counter runs one ahead when it was a describe that failed. */
  lemma {:induction false} DynamicResidue(cli: Replies, c: Cache, vs: seq<Value>)
    requires c.count == |c.entries| && CountsFromOne(c.entries, |c.entries|)
    ensures var o := DescribeAndBind(cli, c, vs);
            var k := |o.cache.entries|;
            && CountsFromOne(o.cache.entries, k)
            && |o.log| <= |vs|
            && (o.ok <==> |o.log| == |vs|)
            && (o.ok ==> k == |c.entries| + |vs| && o.cache.count == k)
            && (!o.ok ==>
                  var at := c.count + |o.log| + 1;
                  && o.cache.count == at
                  && k == if cli.describe(at).None? then at - 1 else at)
    decreases |vs|
  {
    if vs == [] {
    } else {
      var m := c.count + 1;
      if cli.describe(m).Some? {
        var e := DynamicEntry(m, cli.describe(m).value);
        var c' := Cache(c.entries + [AfterBind(e, vs[0])], m);
        if Bindable(cli, e, vs[0]) {
          DynamicResidue(cli, c', vs[1..]);
        }
      }
    }
  }

  /** A dynamic execution whose binding failed is not undone: a later call, with a CLI library that has become
      cooperative, binds all markers exactly when the failure was the bind of the last one. */
  lemma RetryAfterFailedBindIff(cli: Replies, vs: seq<Value>, cli': Replies, vs': seq<Value>, env: Option<string> -> Value)
    requires cli.num.Some? && cli'.num == cli.num && 0 < cli.num.value <= |vs|
    requires cli.num.value <= |vs'| && Cooperative(cli', [], vs', cli.num.value)
    requires !BindPhase(cli, EMPTY, Values(vs), env).ok
    ensures var n := cli.num.value;
            var failed := BindPhase(cli, EMPTY, Values(vs), env);
            BindsAll(BindPhase(cli', failed.cache, Values(vs'), env), vs', n)
            <==> |failed.log| == n - 1 && cli.describe(n).Some?
  {
    var n := cli.num.value;
    var failed := BindPhase(cli, EMPTY, Values(vs), env);
    DynamicResidue(cli, EMPTY, vs[..n]);
    DynamicPairs(cli, EMPTY, vs[..n]);
    assert forall i :: 0 <= i < |failed.cache.entries| ==> failed.cache.entries[i].direction.Input?;
    BindsEveryMarkerIff(cli', failed.cache, vs', env);
  }

  // ---------- runs ----------

  /** One `execute` of a run: the array given, the CLI library's replies and whether SQLExecute succeeds. */
  datatype Call = Call(cli: Replies, vs: seq<Value>, executed: bool)

  function Bound(c: Cache, call: Call, env: Option<string> -> Value): Outcome {
    BindPhase(call.cli, c, Values(call.vs), env)
  }

  function CacheAfter(c: Cache, call: Call, env: Option<string> -> Value): Cache {
    var o := Bound(c, call, env);
    if o.ok && call.executed then AfterSuccess(call.cli, c, Values(call.vs), o.cache) else o.cache
  }

  function CacheAfterRun(c: Cache, calls: seq<Call>, env: Option<string> -> Value): Cache {
    if calls == [] then c
    else CacheAfter(CacheAfterRun(c, calls[..|calls| - 1], env), calls[|calls| - 1], env)
  }

  /** A CLI library that knows no marker beyond the n that the statement has. */
  ghost predicate KnowsOnly(cli: Replies, n: nat) {
    cli.num == Some(n) && forall m :: m > n ==> cli.describe(m).None?
  }

  /** The caches from which an array is never bound to all n markers again. */
  ghost predicate Stuck(c: Cache, n: nat) {
    if c.entries == [] then c.count > 0 else !CountsFromOne(c.entries, n)
  }

  lemma SameMarkers(a: seq<Entry>, b: seq<Entry>, k: nat)
    requires |a| == |b| && forall i :: 0 <= i < |a| ==> b[i].num == a[i].num
    ensures CountsFromOne(a, k) <==> CountsFromOne(b, k)
  {
  }

  lemma StuckStays(c: Cache, call: Call, n: nat, env: Option<string> -> Value)
    requires n > 0 && Stuck(c, n) && KnowsOnly(call.cli, n)
    ensures !BindsAll(Bound(c, call, env), call.vs, n) && Stuck(CacheAfter(c, call, env), n)
  {
    var o := Bound(c, call, env);
    if n <= |call.vs| {
      var vs := call.vs[..n];
      if c.entries == [] {
        DynamicPairs(call.cli, c, vs);
        DynamicEndsWellIff(call.cli, c, vs);
        assert !Accepts(call.cli, c.count + 1 + (n - 1), vs[n - 1]);
        assert o.cache.entries != [] ==> o.cache.entries[0].num > 1;
      } else {
        CachedPairs(call.cli, [], c.entries, c.count, vs);
        SameMarkers(c.entries, o.cache.entries, n);
        if BindsAll(o, call.vs, n) {
          BoundFromOne(o.log, c.entries, vs);
        }
      }
    }
  }

  lemma {:induction false} StuckForGood(c: Cache, calls: seq<Call>, n: nat, env: Option<string> -> Value)
    requires n > 0 && Stuck(c, n) && forall i :: 0 <= i < |calls| ==> KnowsOnly(calls[i].cli, n)
    ensures Stuck(CacheAfterRun(c, calls, env), n)
    decreases |calls|
  {
    if calls == [] {
    } else {
      var init := calls[..|calls| - 1];
      StuckForGood(c, init, n, env);
      StuckStays(CacheAfterRun(c, init, env), calls[|calls| - 1], n, env);
    }
  }

  lemma FailedBindIsStuck(cli: Replies, vs: seq<Value>, n: nat, env: Option<string> -> Value)
    requires 0 < n <= |vs| && cli.num == Some(n)
    ensures var failed := BindPhase(cli, EMPTY, Values(vs), env);
            !failed.ok && (|failed.log| == n - 1 ==> cli.describe(n).None?) ==> Stuck(failed.cache, n)
  {
    DynamicResidue(cli, EMPTY, vs[..n]);
  }

  /** A dynamic execution whose binding failed before the bind of its last marker spoils the statement for
      good: after any further calls, whatever they pass and whatever the CLI library answers for the markers
      it knows, no call binds all markers. */
  lemma FailedBindIsForGood(cli: Replies, vs: seq<Value>, calls: seq<Call>, last: Call, n: nat, env: Option<string> -> Value)
    requires 0 < n <= |vs| && cli.num == Some(n) && KnowsOnly(last.cli, n)
    requires forall i :: 0 <= i < |calls| ==> KnowsOnly(calls[i].cli, n)
    requires !BindPhase(cli, EMPTY, Values(vs), env).ok
    requires |BindPhase(cli, EMPTY, Values(vs), env).log| == n - 1 ==> cli.describe(n).None?
    ensures var now := CacheAfterRun(BindPhase(cli, EMPTY, Values(vs), env).cache, calls, env);
            !BindsAll(Bound(now, last, env), last.vs, n)
  {
    var c := BindPhase(cli, EMPTY, Values(vs), env).cache;
    FailedBindIsStuck(cli, vs, n, env);
    StuckForGood(c, calls, n, env);
    StuckStays(CacheAfterRun(c, calls, env), last, n, env);
  }

  /** The caches of a statement with n markers whose array executions were never cut short while binding. */
  ghost predicate Ready(c: Cache, n: nat) {
    && (c == EMPTY || (|c.entries| == n && CountsFromOne(c.entries, n)))
    && forall i :: 0 <= i < |c.entries| ==> c.entries[i].direction.Input?
  }

  ghost predicate GoodCall(call: Call, n: nat) {
    call.cli.num == Some(n) && n <= |call.vs| && Cooperative(call.cli, [], call.vs, n)
  }

  lemma CallKeepsReady(c: Cache, call: Call, n: nat, env: Option<string> -> Value)
    requires n > 0 && Ready(c, n) && GoodCall(call, n)
    ensures BindsAll(Bound(c, call, env), call.vs, n) && Ready(CacheAfter(c, call, env), n)
    ensures c == EMPTY && call.executed ==> CacheAfter(c, call, env) == EMPTY
  {
    BindsEveryMarkerIff(call.cli, c, call.vs, env);
    if c == EMPTY {
      DynamicPairs(call.cli, EMPTY, call.vs[..n]);
    } else {
      CachedPairs(call.cli, [], c.entries, c.count, call.vs[..n]);
    }
  }

  /** On a freshly prepared statement with n markers, every call of every run binds element i to marker
      i+1, also after calls whose SQLExecute failed and whose dynamic list was therefore kept; and as
      long as every call succeeds, the cache is empty again after each. */
  lemma {:induction false} EveryRunBindsEveryMarker(calls: seq<Call>, n: nat, env: Option<string> -> Value)
    requires n > 0 && forall i :: 0 <= i < |calls| ==> GoodCall(calls[i], n)
    ensures Ready(CacheAfterRun(EMPTY, calls, env), n)
    ensures calls != [] ==>
              var last := calls[|calls| - 1];
              BindsAll(Bound(CacheAfterRun(EMPTY, calls[..|calls| - 1], env), last, env), last.vs, n)
    ensures (forall i :: 0 <= i < |calls| ==> calls[i].executed) ==> CacheAfterRun(EMPTY, calls, env) == EMPTY
    decreases |calls|
  {
    if calls == [] {
    } else {
      var init, last := calls[..|calls| - 1], calls[|calls| - 1];
      EveryRunBindsEveryMarker(init, n, env);
      CallKeepsReady(CacheAfterRun(EMPTY, init, env), last, n, env);
    }
  }

  // ---------- text for a LOB marker ----------

  /** The walk of an array execution comes to the i-th node with a number; its bind may fail. */
  ghost predicate GivesNumber(c: Cache, call: Call, i: nat, env: Option<string> -> Value) {
    && i < MarkersOf(call.cli) <= |call.vs|
    && i <= |Bound(c, call, env).log| && IsNumber(call.vs[i])
  }

  lemma LobAfterCall(c: Cache, call: Call, i: nat, env: Option<string> -> Value)
    requires i < |c.entries| && c.entries[i].direction.Input?
    ensures var now := CacheAfter(c, call, env).entries;
            && |now| == |c.entries| && now[i].direction.Input? && now[i].num == c.entries[i].num
            && (IsLob(now[i].desc.dataType) <==> IsLob(c.entries[i].desc.dataType) && !GivesNumber(c, call, i, env))
  {
    var n := MarkersOf(call.cli);
    if 0 < n <= |call.vs| {
      WalkRetypes(call.cli, [], c.entries, c.count, call.vs[..n]);
    }
  }

  /** The k-th call of a run does. */
  ghost predicate GaveNumber(c: Cache, calls: seq<Call>, k: nat, i: nat, env: Option<string> -> Value)
    requires k < |calls|
  {
    GivesNumber(CacheAfterRun(c, calls[..k], env), calls[k], i, env)
  }

  lemma GaveBefore(c: Cache, calls: seq<Call>, n: nat, k: nat, i: nat, env: Option<string> -> Value)
    requires k < n <= |calls|
    ensures GaveNumber(c, calls[..n], k, i, env) == GaveNumber(c, calls, k, i, env)
  {
    assert calls[..n][..k] == calls[..k];
  }

  lemma {:induction false} LobAfterRun(c: Cache, calls: seq<Call>, i: nat, env: Option<string> -> Value)
    requires i < |c.entries| && c.entries[i].direction.Input?
    ensures var now := CacheAfterRun(c, calls, env).entries;
            && |now| == |c.entries| && now[i].direction.Input? && now[i].num == c.entries[i].num
            && (IsLob(now[i].desc.dataType) <==>
                IsLob(c.entries[i].desc.dataType) && forall k :: 0 <= k < |calls| ==> !GaveNumber(c, calls, k, i, env))
    decreases |calls|
  {
    if calls == [] {
    } else {
      var n := |calls| - 1;
      LobAfterRun(c, calls[..n], i, env);
      LobAfterCall(CacheAfterRun(c, calls[..n], env), calls[n], i, env);
      forall k | 0 <= k < n ensures GaveNumber(c, calls[..n], k, i, env) == GaveNumber(c, calls, k, i, env) {
        GaveBefore(c, calls, n, k, i, env);
      }
      assert GaveNumber(c, calls, n, i, env) == GivesNumber(CacheAfterRun(c, calls[..n], env), calls[n], i, env);
    }
  }

  /** Over any run of array executions on cached nodes, whatever fails in them, text given for a LOB input marker is sent
      later exactly when no call of the run came to that marker with a number: its type stays in the cache. */
  lemma TextIsSentLaterIff(c: Cache, calls: seq<Call>, last: Call, i: nat, env: Option<string> -> Value)
    requires i < |c.entries| && c.entries[i].direction.Input? && IsLob(c.entries[i].desc.dataType)
    requires i < |Bound(CacheAfterRun(c, calls, env), last, env).log| && i < |last.vs| && last.vs[i].Text?
    ensures var b := Bound(CacheAfterRun(c, calls, env), last, env).log[i];
            && b.marker == c.entries[i].num
            && (b.deferred <==> forall k :: 0 <= k < |calls| ==> !GaveNumber(c, calls, k, i, env))
  {
    LobAfterRun(c, calls, i, env);
    var was := CacheAfterRun(c, calls, env);
    PhaseBindsAsTold(last.cli, was, Values(last.vs), env);
    assert BindsOld(Bound(was, last, env).log[i], was.entries[i], last.vs[i]);
  }

  /** Witness: a LOB marker that was given a number has its next text bound like a number. */
  lemma NumberThenText(cli: Replies, x: Entry, n: int, text: string, env: Option<string> -> Value)
    requires x.direction.Input? && IsLob(x.desc.dataType) && cli.num == Some(1)
    requires cli.bindOk(x.num, Fixnum(n)) && cli.bindOk(x.num, Text(text))
    ensures var c := CacheAfter(Cache([x], 1), Call(cli, [Fixnum(n)], true), env);
            var o := BindPhase(cli, c, Values([Text(text)]), env);
            o.ok && o.log == [Binding(x.num, Text(text), false)]
  {
    var start, call := Cache([x], 1), Call(cli, [Fixnum(n)], true);
    var c := CacheAfter(start, call, env);
    LobAfterCall(start, call, 0, env);
    assert GivesNumber(start, call, 0, env);
    var vs := [Text(text)];
    PhaseEndsWellIff(cli, c, Values(vs), env);
    PhaseBindsAsTold(cli, c, Values(vs), env);
    assert BindsOld(BindPhase(cli, c, Values(vs), env).log[0], c.entries[0], vs[0]);
  }

  // ---------- data of earlier calls ----------

  /** Whether a binding phase over n markers that ends well binds a marker: an array reaches as many nodes of the cache
      as the statement has markers, or as many new markers; a call without one reaches every node. */
  predicate Reaches(c: Cache, arg: Argument, n: nat, m: int) {
    match arg
    case Values(_) =>
      if c.entries == [] then c.count < m <= c.count + n
      else exists i :: 0 <= i < |c.entries| && i < n && c.entries[i].num == m
    case Absent => exists i :: 0 <= i < |c.entries| && c.entries[i].num == m
    case NotAnArray => false
  }

  /** The call reaches every marker left bound for data-at-execution. */
  ghost predicate ReachesAll(bound: map<int, Binding>, c: Cache, arg: Argument, n: nat) {
    forall m :: m in Deferred(bound, n) ==> Reaches(c, arg, n, m)
  }

  /** After a binding phase that ended well, whatever its argument, SQLExecute asks for no data but this call's own
      exactly when every marker left bound for data-at-execution by earlier calls is one that the cache
      makes the call reach. An array over a pristine cache reaches all of 1..n. */
  lemma NothingStaleIff(cli: Replies, c: Cache, arg: Argument, bound: map<int, Binding>, env: Option<string> -> Value)
    requires BindPhase(cli, c, arg, env).ok
    ensures var n, log := MarkersOf(cli), BindPhase(cli, c, arg, env).log;
            && (Covers(bound, log, n) <==> ReachesAll(bound, c, arg, n))
            && ((forall m :: m in Deferred(Rebound(bound, log), n) ==> InLog(log, m)) <==> ReachesAll(bound, c, arg, n))
    ensures c == EMPTY && arg.Values? ==> ReachesAll(bound, c, arg, MarkersOf(cli))
  {
    var n, log := MarkersOf(cli), BindPhase(cli, c, arg, env).log;
    OnlyOwnDataIff(bound, log, n);
    if n > 0 {
      forall m ensures InLog(log, m) <==> Reaches(c, arg, n, m) {
        LogReaches(cli, c, arg, m, env);
      }
    }
  }

  lemma LogReaches(cli: Replies, c: Cache, arg: Argument, m: int, env: Option<string> -> Value)
    requires MarkersOf(cli) > 0 && BindPhase(cli, c, arg, env).ok
    ensures InLog(BindPhase(cli, c, arg, env).log, m) <==> Reaches(c, arg, MarkersOf(cli), m)
  {
    var n := MarkersOf(cli);
    if arg.Absent? {
      WalkReaches(cli, c, NamedValues(c.entries, env), m);
    } else if c.entries == [] {
      var log := BindPhase(cli, c, arg, env).log;
      DynamicPairs(cli, c, arg.vs[..n]);
      PairsAre(log, c.count, arg.vs[..n]);
      if c.count < m <= c.count + n {
        assert log[m - c.count - 1].marker == m;
      }
    } else {
      WalkReaches(cli, c, arg.vs[..n], m);
    }
  }

  lemma WalkReaches(cli: Replies, c: Cache, vs: seq<Value>, m: int)
    requires BindCached(cli, [], c.entries, c.count, vs).ok
    ensures InLog(BindCached(cli, [], c.entries, c.count, vs).log, m)
            <==> exists i :: 0 <= i < |c.entries| && i < |vs| && c.entries[i].num == m
  {
    var log := BindCached(cli, [], c.entries, c.count, vs).log;
    CachedPairs(cli, [], c.entries, c.count, vs);
    if i :| 0 <= i < |c.entries| && i < |vs| && c.entries[i].num == m {
      assert log[i].marker == m;
    }
  }

  /** A call that binds every marker leaves nothing stale, whatever earlier calls have bound. */
  lemma BindsAllCovers(o: Outcome, vs: seq<Value>, n: nat, bound: map<int, Binding>)
    requires BindsAll(o, vs, n)
    ensures Covers(bound, o.log, n)
  {
    forall m | m in Deferred(bound, n) ensures InLog(o.log, m) {
      PairsAre(o.log, 0, vs[..n]);
      assert o.log[m - 1].marker == m;
    }
  }

  // ---------- counterexamples ----------

  const CLOB := Description(Clob, 1, 0, 1)

  /** A statement with two CLOB markers. `failing` is a marker that cannot be described, 0 for none. */
  function TwoClobs(failing: int): Replies {
    Replies(Some(2), m => if 1 <= m <= 2 && m != failing then Some(CLOB) else None, (m, v) => true)
  }

  /** The second marker cannot be described at first. The retry, with nothing failing, binds the first marker
      only and reports success. */
  lemma FailedDescribeSpoilsRetry(a: string, b: string, env: Option<string> -> Value)
    ensures var vs := [Text(a), Text(b)];
            var failed := BindPhase(TwoClobs(2), EMPTY, Values(vs), env);
            var retry := BindPhase(TwoClobs(0), failed.cache, Values(vs), env);
            && !failed.ok && failed.cache.count == 2
            && retry.ok && retry.log == [Binding(1, Text(a), true)]
  {
    var vs := [Text(a), Text(b)];
    var cli := TwoClobs(2);
    var e := DynamicEntry(1, CLOB);
    assert vs[..2] == vs && vs[1..] == [Text(b)];
    assert DescribeAndBind(cli, Cache([e], 1), [Text(b)]) == Outcome(false, Cache([e], 2), []);
    assert [] + [e] == [e];
    var failed := BindPhase(cli, EMPTY, Values(vs), env);
    assert failed.cache == Cache([e], 2);
    assert BindCached(TwoClobs(0), [e], [], 2, [Text(b)]) == Outcome(true, Cache([e] + [], 2), []);
    assert [e][1..] == [];
  }

  /** Both CLOBs are bound dynamically and sent. Then `bind_param` caches marker 1 alone: the next execute binds
      just that one, reports success, and SQLExecute asks again for the data of marker 2, whose node
      went with the dynamic list. */
  lemma StaleMarkerIsAskedFor(a: string, b: string, x: Entry, d: string, e: string, env: Option<string> -> Value)
    requires x.num == 1 && x.desc.dataType.Clob? && x.direction.Input?
    ensures var first := BindPhase(TwoClobs(0), EMPTY, Values([Text(a), Text(b)]), env);
            var bound := Rebound(map[], first.log);
            var second := BindPhase(TwoClobs(0), Cache([x], 1), Values([Text(d), Text(e)]), env);
            && first.ok && AfterSuccess(TwoClobs(0), EMPTY, Values([Text(a), Text(b)]), first.cache) == EMPTY
            && second.ok && |second.log| == 1
            && 2 in Deferred(Rebound(bound, second.log), 2) && !InLog(second.log, 2)
  {
    BothClobs(a, b, env);
    SecondIsStale(Rebound(map[], BindPhase(TwoClobs(0), EMPTY, Values([Text(a), Text(b)]), env).log), x, d, e, env);
  }

  lemma SecondIsStale(bound: map<int, Binding>, x: Entry, d: string, e: string, env: Option<string> -> Value)
    requires x.num == 1 && x.desc.dataType.Clob? && x.direction.Input?
    requires 2 in bound && bound[2].deferred
    ensures var second := BindPhase(TwoClobs(0), Cache([x], 1), Values([Text(d), Text(e)]), env);
            && second.ok && |second.log| == 1
            && 2 in Deferred(Rebound(bound, second.log), 2) && !InLog(second.log, 2)
  {
    var ws := [Text(d), Text(e)];
    assert ws[..2] == ws && ws[1..] == [Text(e)] && [x][1..] == [];
    var second := BindPhase(TwoClobs(0), Cache([x], 1), Values(ws), env);
    assert BindCached(TwoClobs(0), [] + [x], [], 1, [Text(e)]).log == [];
    assert AfterBind(x, Text(d)) == x && Bindable(TwoClobs(0), x, Text(d));
    assert second.log == [BindingOf(x, Text(d))] + [];
    ReboundIs(bound, second.log, 2);
  }

  /** The same without an array: `bind_param` has cached the markers 1 and 3, so the counter agrees with the statement's
      two markers, and the call reports success. */
  lemma StaleMarkerWithoutArray(bound: map<int, Binding>, x: Entry, y: Entry, env: Option<string> -> Value)
    requires x.num == 1 && y.num == 3 && x.direction.Input? && y.direction.Input?
    requires !env(x.varName).Unsupported? && !env(y.varName).Unsupported?
    requires 2 in bound && bound[2].deferred
    ensures var o := BindPhase(TwoClobs(0), Cache([x, y], 2), Absent, env);
            && o.ok && |o.log| == 2
            && 2 in Deferred(Rebound(bound, o.log), 2) && !InLog(o.log, 2)
  {
    var c, vs := Cache([x, y], 2), NamedValues([x, y], env);
    CachedEndsWellIff(TwoClobs(0), [], c.entries, 2, vs);
    CachedPairs(TwoClobs(0), [], c.entries, 2, vs);
    var o := BindPhase(TwoClobs(0), c, Absent, env);
    WalkReaches(TwoClobs(0), c, vs, 2);
    ReboundIs(bound, o.log, 2);
  }

  lemma BothClobs(a: string, b: string, env: Option<string> -> Value)
    ensures var first := BindPhase(TwoClobs(0), EMPTY, Values([Text(a), Text(b)]), env);
            var bound := Rebound(map[], first.log);
            && first.ok && first.log == [Binding(1, Text(a), true)] + [Binding(2, Text(b), true)]
            && 2 in bound && bound[2].deferred
  {
    ReboundNext(map[], [Binding(1, Text(a), true)], Binding(2, Text(b), true));
    var cli, vs := TwoClobs(0), [Text(a), Text(b)];
    var c1 := Cache([DynamicEntry(1, CLOB)], 1);
    var c2 := Cache([DynamicEntry(1, CLOB), DynamicEntry(2, CLOB)], 2);
    assert vs[..2] == vs && vs[1..] == [Text(b)] && [Text(b)][1..] == [];
    assert [] + [DynamicEntry(1, CLOB)] == c1.entries && c1.entries + [DynamicEntry(2, CLOB)] == c2.entries;
    assert DescribeAndBind(cli, c2, []) == Outcome(true, c2, []);
    assert DescribeAndBind(cli, c1, [Text(b)]) == Outcome(true, c2, [Binding(2, Text(b), true)] + []);
  }
}
