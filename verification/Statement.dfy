/** The statement handle: its heap-linked parameter cache, `bind_param`, `execute`, and every place that
    releases nodes (IBM_DB_Driver/ibm_db.c). */
module Statement {
  import opened Options
  import opened Sequences
  import opened Parameters
  import opened ExecuteProtocol
  import opened ParamNodes
  import opened CliLibrary

  class StatementHandle {
    var head: ParamNode?
    var currentNode: ParamNode?
    var numParams: int
    var fileParam: bool
    var isFreed: bool
    ghost var nodes: seq<ParamNode>      // the cached list, in link order
    ghost var entries: seq<Entry>        // what those nodes hold
    ghost var born: set<ParamNode>       // every node ever allocated for this statement
    ghost var released: seq<ParamNode>   // those handed to the allocator again, in that order
    ghost var handleFrees: nat           // explicit SQLFreeHandle calls on the statement

    ghost predicate Valid()
      reads this, nodes
    {
      IsList(head, nodes) && Represents(nodes, entries) && Ledger()
    }

    ghost predicate Ledger()
      reads this`nodes, this`born, this`released, this`isFreed, this`handleFrees
    {
      Accounted(nodes, born, released) && handleFrees == if isFreed then 1 else 0
    }

    ghost function State(): Cache
      reads this`entries, this`numParams
    {
      Cache(entries, numParams)
    }

    constructor ()
      ensures Valid() && entries == [] && nodes == [] && numParams == 0 && currentNode == null
      ensures !isFreed && released == [] && born == {}
    {
      head, currentNode, numParams, fileParam, isFreed := null, null, 0, false, false;
      nodes, entries, born, released, handleFrees := [], [], {}, [], 0;
    }

    // ---------- bind_param ----------

    /** The search loop of `_ruby_ibm_db_add_param_cache`. */
    method FindSlot(e: Entry) returns (prev: ParamNode?, curr: ParamNode?, ghost i: nat)
      requires Valid()
      ensures i <= |nodes| && curr == NodeAt(nodes, i)
      ensures prev == if i == 0 then head else nodes[i - 1]
      ensures if curr != null && curr.num == e.num then Insert(entries, e) == entries[i := e]
              else Spliced(entries, i, e, Insert(entries, e))
      ensures i == 0 && entries != [] && curr.num != e.num <==> !Links(entries, e.num)
    {
      prev, curr, i := head, head, 0;
      while curr != null && curr.num < e.num
        invariant 0 <= i <= |nodes| && curr == NodeAt(nodes, i)
        invariant prev == if i == 0 then head else nodes[i - 1]
        invariant forall k :: 0 <= k < i ==> entries[k].num < e.num
        decreases |nodes| - i
      {
        assert entries[i] == nodes[i].Content();
        prev, curr, i := curr, curr.next, i + 1;
      }
      assert i < |nodes| ==> entries[i] == nodes[i].Content();
      InsertAt(entries, i, e);
    }

    /** Replaces the facts cached for a marker that is already in the list. */
    method Overwrite(node: ParamNode, e: Entry, ghost i: nat)
      requires Valid() && i < |nodes| && node == nodes[i]
      modifies node, this`entries
      ensures Valid() && entries == old(entries)[i := e]
    {
      OnlyAt(head, nodes, i);
      node.Replace(e);
      entries := entries[i := e];
    }

    /** The pointer assignments that link a new node. */
    method Link(n: ParamNode, prev: ParamNode?, curr: ParamNode?)
      requires n != prev
      modifies `head, n`next, (if prev == null then {} else {prev})`next
      ensures n.next == curr
      ensures prev == null ==> head == n
      ensures prev != null ==> head == old(head) && prev.next == n
    {
      if prev == null {
        head := n;
      } else {
        prev.next := n;
      }
      n.next := curr;
    }

    /** Records a node linked in at position `i`. */
    ghost method Adopt(n: ParamNode, i: nat, es: seq<Entry>)
      requires i <= |nodes| && n !in born
      requires head == if i == 0 then n else nodes[0]
      requires n.next == NodeAt(nodes, i) && (i > 0 ==> nodes[i - 1].next == n)
      requires forall k {:trigger nodes[k].next} ::
                 0 <= k < |nodes| && k != i - 1 ==> nodes[k].next == NodeAt(nodes, k + 1)
      requires Represents(nodes, entries) && Spliced(entries, i, n.Content(), es) && Ledger()
      modifies `nodes, `entries, `born
      ensures Valid() && entries == es
      ensures i == |old(nodes)| ==> nodes == old(nodes) + [n]
      ensures born == old(born) + {n}
      ensures born == old(born) + NodeSet(nodes)
      ensures forall k :: 0 <= k < |nodes| ==> nodes[k] in old(nodes) || nodes[k] == n
    {
      ghost var was := nodes;
      LinkedIn(head, was, i, n, was[..i] + [n] + was[i..]);
      RepresentsIn(was, entries, i, n, es);
      AccountedIn(was, born, released, i, n);
      nodes, entries, born := was[..i] + [n] + was[i..], es, born + {n};
    }

    /** The new-node branch of `_ruby_ibm_db_add_param_cache`. */
    method AddNode(e: Entry, prev: ParamNode?, curr: ParamNode?, ghost i: nat)
      requires Valid()
      requires i <= |nodes| && curr == NodeAt(nodes, i) && prev == if i == 0 then head else nodes[i - 1]
      requires Spliced(entries, i, e, Insert(entries, e))
      modifies `head, `nodes, `entries, `born, `numParams, nodes`next
      ensures numParams == old(numParams) + 1
      ensures i > 0 || old(nodes) == [] ==> Valid() && entries == Insert(old(entries), e)
      ensures i > 0 || old(nodes) == [] ==> born == old(born) + NodeSet(nodes)
      ensures i == 0 && old(nodes) != [] ==>
                && head == old(head) && head.next != null && fresh(head.next)
                && head.next.next == head && head.next.Content() == e
                && nodes == old(nodes) && born == old(born)
      ensures forall k :: 0 <= k < |nodes| ==> nodes[k] in old(nodes) || fresh(nodes[k])
    {
      var n := new ParamNode(e);
      if i > 0 {
        OnlyAt(head, nodes, i - 1);
      }
      Link(n, prev, curr);
      numParams := numParams + 1;
      if i > 0 || nodes == [] {
        Adopt(n, i, Insert(entries, e));
      }
    }

    /** `_ruby_ibm_db_add_param_cache`. A marker below the head's is linked behind the head and
        back to it, which closes a cycle and loses the rest of the list. */
    method AddParamCache(e: Entry)
      requires Valid()
      modifies `head, `nodes, `entries, `born, `numParams, `fileParam, nodes
      ensures fileParam == (old(fileParam) || e.direction.FileInput?)
      ensures Links(old(entries), e.num) ==>
                && Valid()
                && entries == Insert(old(entries), e)
                && numParams == old(numParams) + |entries| - |old(entries)|
                && born == old(born) + NodeSet(nodes)
      ensures !Links(old(entries), e.num) ==>
                && head == old(head) && head != null
                && head.next != null && fresh(head.next) && head.next.Content() == e
                && head.next.next == head
                && numParams == old(numParams) + 1
                && nodes == old(nodes) && born == old(born)
      ensures forall k :: 0 <= k < |nodes| ==> nodes[k] in old(nodes) || fresh(nodes[k])
    {
      if e.direction.FileInput? {
        fileParam := true;
      }
      var prev, curr, i := FindSlot(e);
      if curr == null || curr.num != e.num {
        AddNode(e, prev, curr, i);
      } else {
        Overwrite(curr, e, i);
        assert born == born + NodeSet(nodes);
      }
    }

    /** The walk of `build_list` to the tail. */
    method FindTail() returns (prev: ParamNode?)
      requires Valid()
      ensures prev == if nodes == [] then null else nodes[|nodes| - 1]
    {
      var curr: ParamNode?;
      prev, curr := null, head;
      ghost var i := 0;
      while curr != null
        invariant 0 <= i <= |nodes| && curr == NodeAt(nodes, i)
        invariant prev == if i == 0 then null else nodes[i - 1]
        decreases |nodes| - i
      {
        prev, curr, i := curr, curr.next, i + 1;
      }
    }

    /** `build_list`: appends an input node at the tail. */
    method BuildList(marker: int, d: Description) returns (n: ParamNode)
      requires Valid()
      modifies `head, `nodes, `entries, `born, nodes`next
      ensures Valid() && fresh(n) && nodes == old(nodes) + [n] && born == old(born) + {n}
      ensures entries == old(entries) + [DynamicEntry(marker, d)]
      ensures n.Content() == Entry(marker, d, Input, None, 0)
    {
      n := new ParamNode(DynamicEntry(marker, d));
      var prev := FindTail();
      if nodes != [] {
        OnlyAt(head, nodes, |nodes| - 1);
      }
      Link(n, prev, null);
      Adopt(n, |nodes|, entries + [DynamicEntry(marker, d)]);
    }

    // ---------- releasing the list ----------

    /** The list teardown shared by `ibm_db_execute` and `_ruby_ibm_db_free_result_struct`. */
    method FreeParamCache()
      requires Valid()
      modifies `head, `currentNode, `numParams, `nodes, `entries, `released, nodes`svalue, nodes`varName
      ensures Valid() && entries == [] && nodes == [] && numParams == 0 && currentNode == null
      ensures released == old(released) + old(nodes)
    {
      ListIsDistinct(head, nodes);
      var prev, curr := head, head;
      ghost var i := 0;
      while curr != null
        invariant 0 <= i <= |nodes| && curr == prev == NodeAt(nodes, i)
        invariant released == old(released) + nodes[..i]
        decreases |nodes| - i
        modifies `released, nodes`svalue, nodes`varName
      {
        curr := curr.next;
        prev.svalue, prev.varName := None, None;
        released := released + [prev];
        prev, i := curr, i + 1;
      }
      assert nodes[..i] == nodes;
      AllReleased(nodes, born, old(released));
      head, numParams, currentNode := null, 0, null;
      nodes, entries := [], [];
    }

    // ---------- binding ----------

    /** The assignments that `_ruby_ibm_db_bind_data` and `_ruby_ibm_db_bind_parameter_helper` make to the node before
        the CLI call, by the type of the value. */
    method StoreValue(node: ParamNode, v: Value) returns (known: bool, deferred: bool)
      modifies node
      ensures node.Content() == AfterBind(old(node.Content()), v) && node.next == old(node.next)
      ensures known == (!v.Unsupported? && (old(node.direction).FileInput? ==> v.Text?))
      ensures deferred == IsDeferred(old(node.Content()), v)
      ensures known ==> node.Holds(v)
    {
      known, deferred := true, false;
      if node.direction.FileInput? {
        if v.Text? {
          node.svalue, node.ivalue := Some(v.data), |v.data|;
        } else {
          known := false;
        }
      } else {
        match v {
          case Bignum(digits) => node.svalue, node.ivalue := Some(digits), |digits|;
          case Fixnum(n) => node.ivalue, node.dataType := n, CLong;
          case Flag(b) => node.ivalue, node.dataType := if b then 1 else 0, CLong;
          case Float(r) => node.fvalue, node.dataType := r, CDouble;
          case Text(data) =>
            node.svalue, node.ivalue := Some(data), |data|;
            if node.dataType.Clob? || node.dataType.Blob? {
              deferred := !node.direction.Output? && !node.direction.InputOutput?;
            }
          case Nil => node.ivalue := -1;
          case Unsupported => known := false;
        }
      }
    }

    /** `_ruby_ibm_db_bind_data` with `_ruby_ibm_db_bind_parameter_helper`. */
    method BindData(node: ParamNode, v: Value, reply: Replies, cli: CliStatement) returns (ok: bool)
      requires cli.Valid()
      modifies node, cli`log, cli`bound, cli`tokens
      ensures cli.Valid()
      ensures node.Content() == AfterBind(old(node.Content()), v) && node.next == old(node.next)
      ensures node.dataType == if old(node.direction).FileInput? then old(node.dataType)
                               else if v.Fixnum? || v.Flag? then CLong
                               else if v.Float? then CDouble
                               else old(node.dataType)
      ensures ok <==> Suits(old(node.direction), v) && reply.bindOk(old(node.num), v)
      ensures ok ==> var b := Binding(old(node.num), v, SentLater(old(node.direction), old(node.dataType), v));
                     && node.Holds(v)
                     && cli.log == old(cli.log) + [b]
                     && cli.bound == old(cli.bound)[b.marker := b]
                     && cli.tokens == old(cli.tokens)[b.marker := node]
                     && (b.deferred ==> node.Buffered() == Data(b))
      ensures !ok ==> cli.log == old(cli.log) && cli.bound == old(cli.bound) && cli.tokens == old(cli.tokens)
    {
      var known, deferred := StoreValue(node, v);
      ok := known && reply.bindOk(node.num, v);
      if ok {
        cli.Bind(Binding(node.num, v, deferred), node);
      }
    }

    /** A marker bound by the current call: its token is one of the first `w` nodes of the list, and what
        that node holds is the data the binding owes. */
    ghost predicate Owned(cli: CliStatement, m: int, w: nat)
      reads this, cli, cli.tokens.Values
    {
      && m in cli.bound && m in cli.tokens
      && (exists k :: 0 <= k < w && k < |nodes| && nodes[k] == cli.tokens[m])
      && (cli.bound[m].deferred ==> cli.tokens[m].Buffered() == Data(cli.bound[m]))
    }

    ghost predicate Outstanding(cli: CliStatement, w: nat)
      reads this, cli, cli.tokens.Values
    {
      cli.Valid() && forall m :: InLog(cli.log, m) ==> Owned(cli, m, w)
    }

    /** Binds the node at position `w`; the list stays a list. */
    method BindInList(node: ParamNode, ghost w: nat, v: Value, reply: Replies, cli: CliStatement) returns (ok: bool)
      requires Valid() && w < |nodes| && node == nodes[w] && cli.Valid()
      modifies node, `entries, cli`log, cli`bound, cli`tokens
      ensures Valid() && cli.Valid()
      ensures entries == old(entries)[w := AfterBind(old(entries)[w], v)]
      ensures ok == Bindable(reply, old(entries)[w], v)
      ensures ok ==> var b := BindingOf(old(entries)[w], v);
                     && cli.log == old(cli.log) + [b]
                     && cli.bound == old(cli.bound)[b.marker := b]
                     && cli.tokens == old(cli.tokens)[b.marker := node]
                     && (b.deferred ==> node.Buffered() == Data(b))
      ensures !ok ==> cli.log == old(cli.log) && cli.bound == old(cli.bound) && cli.tokens == old(cli.tokens)
    {
      ghost var e := entries[w];
      OnlyAt(head, nodes, w);
      assert e == node.Content();
      ok := BindData(node, v, reply, cli);
      entries := entries[w := AfterBind(e, v)];
    }

    /** The same, with what the bindings of this call owe. */
    method BindNode(node: ParamNode, ghost w: nat, v: Value, reply: Replies, cli: CliStatement) returns (ok: bool)
      requires Valid() && w < |nodes| && node == nodes[w] && Outstanding(cli, w)
      modifies node, `entries, cli`log, cli`bound, cli`tokens
      ensures Valid() && Outstanding(cli, w + 1)
      ensures entries == old(entries)[w := AfterBind(old(entries)[w], v)]
      ensures ok == Bindable(reply, old(entries)[w], v)
      ensures cli.log == if ok then old(cli.log) + [BindingOf(old(entries)[w], v)] else old(cli.log)
    {
      OnlyAt(head, nodes, w);
      ghost var b := BindingOf(entries[w], v);
      ghost var before := cli.log;
      ok := BindInList(node, w, v, reply, cli);
      ReboundNext(cli.base, before, b);
      forall m | InLog(cli.log, m) ensures Owned(cli, m, w + 1) {
        if ok && m == b.marker {
          assert nodes[w] == cli.tokens[m];
        } else {
          assert InLog(before, m);
          assert old(Owned(cli, m, w));
        }
      }
    }

    /** Appending a node disturbs no binding made so far. */
    method AppendNode(marker: int, d: Description, ghost cli: CliStatement) returns (n: ParamNode)
      requires Valid() && Outstanding(cli, |nodes|)
      modifies `head, `nodes, `entries, `born, nodes`next
      ensures Valid() && Outstanding(cli, |old(nodes)|)
      ensures fresh(n) && nodes == old(nodes) + [n]
      ensures entries == old(entries) + [DynamicEntry(marker, d)]
    {
      ghost var w := |nodes|;
      n := BuildList(marker, d);
      assert forall k :: 0 <= k < w ==> nodes[k] == old(nodes)[k];
      forall m | InLog(cli.log, m) ensures Owned(cli, m, w) {
        assert old(Owned(cli, m, w));
      }
    }

    /** `_ruby_ibm_db_execute_helper2` for a marker that was not bound beforehand: describe the next
        marker, append a node for it, bind it. */
    method BindDescribed(v: Value, reply: Replies, cli: CliStatement) returns (ok: bool)
      requires Valid() && Outstanding(cli, |nodes|)
      modifies `head, `nodes, `entries, `born, `numParams, nodes`next, cli`log, cli`bound, cli`tokens
      ensures Valid() && Outstanding(cli, |nodes|)
      ensures numParams == old(numParams) + 1
      ensures reply.describe(numParams).None? ==>
                !ok && nodes == old(nodes) && entries == old(entries) && cli.log == old(cli.log)
      ensures reply.describe(numParams).Some? ==>
                var e := DynamicEntry(numParams, reply.describe(numParams).value);
                && entries == old(entries) + [AfterBind(e, v)] && ok == Bindable(reply, e, v)
                && cli.log == (if ok then old(cli.log) + [BindingOf(e, v)] else old(cli.log))
                && forall k :: 0 <= k < |nodes| ==> nodes[k] in old(nodes) || fresh(nodes[k])
    {
      numParams := numParams + 1;
      if reply.describe(numParams).None? {
        return false;
      }
      ghost var w, es := |nodes|, entries;
      var curr := AppendNode(numParams, reply.describe(numParams).value, cli);
      ok := BindNode(curr, w, v, reply, cli);
      ReplaceLast(es, DynamicEntry(numParams, reply.describe(numParams).value), v);
    }

    /** The same as a step towards the outcome `goal` of the dynamic mode. */
    method DescribeStep(v: Value, reply: Replies, cli: CliStatement, ghost rest: seq<Value>, ghost goal: Outcome)
      returns (ok: bool)
      requires Valid() && Outstanding(cli, |nodes|) && rest != [] && rest[0] == v
      requires goal == Prepend(cli.log, DescribeAndBind(reply, State(), rest))
      modifies `head, `nodes, `entries, `born, `numParams, nodes`next, cli`log, cli`bound, cli`tokens
      ensures Valid() && Outstanding(cli, |nodes|)
      ensures forall k :: 0 <= k < |nodes| ==> nodes[k] in old(nodes) || fresh(nodes[k])
      ensures goal == if ok then Prepend(cli.log, DescribeAndBind(reply, State(), rest[1..]))
                      else Outcome(false, State(), cli.log)
    {
      DynamicStep(reply, State(), rest, cli.log);
      ok := BindDescribed(v, reply, cli);
    }

    /** The binding loop of `_ruby_ibm_db_desc_and_bind_param_list` when nothing was bound beforehand. */
    method DescribeAndBindAll(args: seq<Value>, reply: Replies, cli: CliStatement) returns (ok: bool)
      requires Valid() && nodes == [] && Outstanding(cli, 0) && cli.log == []
      modifies `head, `nodes, `entries, `born, `numParams, nodes`next, cli`log, cli`bound, cli`tokens
      ensures Valid() && Outstanding(cli, |nodes|)
      ensures forall k :: 0 <= k < |nodes| ==> fresh(nodes[k])
      ensures DescribeAndBind(reply, old(State()), args) == Outcome(ok, State(), cli.log)
    {
      ghost var goal := DescribeAndBind(reply, State(), args);
      ok := true;
      var i := 0;
      assert args[0..] == args;
      while i < |args|
        invariant 0 <= i <= |args| && Valid() && Outstanding(cli, |nodes|)
        invariant forall k :: 0 <= k < |nodes| ==> fresh(nodes[k])
        invariant goal == Prepend(cli.log, DescribeAndBind(reply, State(), args[i..]))
      {
        assert args[i..][1..] == args[i + 1..];
        ok := DescribeStep(args[i], reply, cli, args[i..], goal);
        if !ok {
          return;
        }
        i := i + 1;
      }
      assert args[i..] == [];
    }

    /** Binds the node at position `w`, as a step towards the outcome `goal` of a walk over the list. */
    method BindStep(node: ParamNode, v: Value, reply: Replies, cli: CliStatement,
                    ghost w: nat, ghost rest: seq<Value>, ghost goal: Outcome)
      returns (ok: bool)
      requires Valid() && w < |nodes| && node == nodes[w] && Outstanding(cli, w)
      requires rest != [] && rest[0] == v
      requires goal == Prepend(cli.log, Remaining(false, reply, State(), w, rest))
      modifies node, `entries, cli`log, cli`bound, cli`tokens
      ensures Valid() && Outstanding(cli, w + 1)
      ensures entries == old(entries)[w := AfterBind(old(entries)[w], v)]
      ensures goal == if ok then Prepend(cli.log, Remaining(false, reply, State(), w + 1, rest[1..]))
                      else Outcome(false, State(), cli.log)
    {
      CachedStep(reply, entries, numParams, w, rest, cli.log);
      ok := BindNode(node, w, v, reply, cli);
    }

    /** `_ruby_ibm_db_execute_helper2` for a marker bound beforehand: bind `current_node`, if any, and advance. */
    method BindCurrent(v: Value, reply: Replies, cli: CliStatement,
                       ghost w: nat, ghost rest: seq<Value>, ghost goal: Outcome)
      returns (ok: bool, ghost w': nat)
      requires Valid() && w <= |nodes| && currentNode == NodeAt(nodes, w) && Outstanding(cli, w)
      requires rest != [] && rest[0] == v
      requires goal == Prepend(cli.log, Remaining(false, reply, State(), w, rest))
      modifies nodes, `entries, `currentNode, cli`log, cli`bound, cli`tokens
      ensures Valid() && w' <= |nodes| && Outstanding(cli, w')
      ensures ok ==> currentNode == NodeAt(nodes, w')
      ensures goal == if ok then Prepend(cli.log, Remaining(false, reply, State(), w', rest[1..]))
                      else Outcome(false, State(), cli.log)
    {
      ok, w' := true, w;
      var curr := currentNode;
      if curr != null {
        w' := w + 1;
        ok := BindStep(curr, v, reply, cli, w, rest, goal);
        if ok {
          currentNode := curr.next;
        }
      } else {
        PassOver(reply, entries, numParams, rest, cli.log);
      }
    }

    /** The same loop when markers were bound beforehand: `current_node` walks the list. */
    method BindCachedAll(args: seq<Value>, reply: Replies, cli: CliStatement) returns (ok: bool, ghost w: nat)
      requires Valid() && currentNode == head && Outstanding(cli, 0) && cli.log == []
      modifies nodes, `entries, `currentNode, cli`log, cli`bound, cli`tokens
      ensures Valid() && Outstanding(cli, w)
      ensures BindCached(reply, [], old(entries), numParams, args) == Outcome(ok, State(), cli.log)
    {
      ghost var goal := BindCached(reply, [], entries, numParams, args);
      CachedStarts(reply, entries, numParams, args);
      ok, w := true, 0;
      var i := 0;
      while i < |args|
        invariant 0 <= i <= |args| && Valid() && 0 <= w <= |nodes| && Outstanding(cli, w)
        invariant currentNode == NodeAt(nodes, w)
        invariant goal == Prepend(cli.log, Remaining(false, reply, State(), w, args[i..]))
      {
        assert args[i..][1..] == args[i + 1..];
        ok, w := BindCurrent(args[i], reply, cli, w, args[i..], goal);
        if !ok {
          return;
        }
        i := i + 1;
      }
      CachedEnds(reply, entries, numParams, w, args, i, cli.log);
    }

    /** `_ruby_ibm_db_desc_and_bind_param_list`: one value of the array after another. */
    method BindArray(vs: seq<Value>, reply: Replies, cli: CliStatement) returns (ok: bool, dynamic: bool, ghost w: nat)
      requires Valid() && currentNode == head && Outstanding(cli, 0) && cli.log == []
      requires reply.num.Some? && reply.num.value != 0
      modifies `head, `nodes, `entries, `born, `numParams, `currentNode, nodes, cli`log, cli`bound, cli`tokens
      ensures Valid() && Outstanding(cli, w)
      ensures BindPhase(reply, old(State()), Values(vs), _ => Nil) == Outcome(ok, State(), cli.log)
      ensures dynamic == (old(entries) == [])
      ensures dynamic ==> (forall k :: 0 <= k < |nodes| ==> fresh(nodes[k])) && born == old(born) + NodeSet(nodes)
      ensures !dynamic ==> nodes == old(nodes) && born == old(born)
    {
      dynamic, w := head == null, 0;
      if |vs| < reply.num.value {
        ok := false;
        BornSince(nodes, born, released, born);
      } else if dynamic {
        ok := DescribeAndBindAll(vs[..reply.num.value], reply, cli);
        w := |nodes|;
        BornSince(nodes, born, released, old(born));
      } else {
        ok, w := BindCachedAll(vs[..reply.num.value], reply, cli);
      }
    }

    /** From position `w` on, the values are those of the variables that the nodes name. */
    ghost predicate NamedFrom(args: seq<Value>, w: nat, env: Option<string> -> Value)
      reads this`entries
    {
      |args| == |entries| && forall k :: w <= k < |entries| ==> args[k] == env(entries[k].varName)
    }

    /** The walk has come to position `w` on its way to the outcome `goal`. */
    ghost predicate Walking(curr: ParamNode?, w: nat, args: seq<Value>, reply: Replies, env: Option<string> -> Value,
                            cli: CliStatement, goal: Outcome)
      reads this, nodes, cli, cli.tokens.Values
    {
      && Valid() && w <= |nodes| && Outstanding(cli, w) && NamedFrom(args, w, env)
      && curr == NodeAt(nodes, w)
      && goal == Prepend(cli.log, Remaining(false, reply, State(), w, args[w..]))
    }

    /** One pass of the loop below: the node at position `w` gets the value of the variable it names. */
    method BindNamed(node: ParamNode, reply: Replies, env: Option<string> -> Value, cli: CliStatement,
                     ghost w: nat, ghost args: seq<Value>, ghost goal: Outcome)
      returns (ok: bool, next: ParamNode?)
      requires Walking(node, w, args, reply, env, cli, goal)
      modifies nodes, `entries, cli`log, cli`bound, cli`tokens
      ensures Valid() && Outstanding(cli, w + 1) && w < |args|
      ensures if ok then Walking(next, w + 1, args, reply, env, cli, goal) else goal == Outcome(false, State(), cli.log)
    {
      assert node.Content() == entries[w];
      assert args[w..][1..] == args[w + 1..];
      ok := BindStep(node, env(node.varName), reply, cli, w, args[w..], goal);
      next := node.next;
    }

    /** The loop of `_ruby_ibm_db_bind_param_list`. */
    method BindNamedNodes(reply: Replies, env: Option<string> -> Value, cli: CliStatement, ghost args: seq<Value>,
                          ghost goal: Outcome)
      returns (ok: bool, ghost w: nat)
      requires Walking(head, 0, args, reply, env, cli, goal)
      modifies nodes, `entries, cli`log, cli`bound, cli`tokens
      ensures Valid() && Outstanding(cli, w) && goal == Outcome(ok, State(), cli.log)
    {
      ok, w := true, 0;
      var curr := head;
      while curr != null
        invariant Walking(curr, w, args, reply, env, cli, goal)
        decreases |args| - w
      {
        ok, curr := BindNamed(curr, reply, env, cli, w, args, goal);
        w := w + 1;
        if !ok {
          return;
        }
      }
      CachedEnds(reply, entries, numParams, w, args, w, cli.log);
    }

    /** `_ruby_ibm_db_bind_param_list`: bind every cached node to the value of the variable it names. */
    method BindParamList(reply: Replies, env: Option<string> -> Value, cli: CliStatement) returns (ok: bool, ghost w: nat)
      requires Valid() && Outstanding(cli, 0) && cli.log == []
      modifies nodes, `entries, cli`log, cli`bound, cli`tokens
      ensures Valid() && Outstanding(cli, w)
      ensures BindCached(reply, [], old(entries), numParams, NamedValues(old(entries), env))
              == Outcome(ok, State(), cli.log)
      ensures BindsAsTold(cli.log, reply, old(State()), Absent, env) && (ok ==> |cli.log| == |old(entries)|)
    {
      ghost var args := NamedValues(entries, env);
      NamedBindsAsTold(reply, State(), env);
      CachedStarts(reply, entries, numParams, args);
      ok, w := BindNamedNodes(reply, env, cli, args, BindCached(reply, [], entries, numParams, args));
    }

    /** The binding part of `_ruby_ibm_db_execute_helper`; `dynamic` is the flag `bind_params`. */
    method BindParameters(arg: Argument, reply: Replies, env: Option<string> -> Value, cli: CliStatement)
      returns (ok: bool, dynamic: bool, ghost w: nat)
      requires Valid() && currentNode == head && Outstanding(cli, 0) && cli.log == []
      modifies `head, `nodes, `entries, `born, `numParams, `currentNode, nodes, cli`log, cli`bound, cli`tokens
      ensures Valid() && Outstanding(cli, w)
      ensures BindPhase(reply, old(State()), arg, env) == Outcome(ok, State(), cli.log)
      ensures ok ==> dynamic == IsDynamic(reply, old(State()), arg)
      ensures dynamic ==> (forall k :: 0 <= k < |nodes| ==> fresh(nodes[k])) && born == old(born) + NodeSet(nodes)
      ensures !dynamic ==> nodes == old(nodes) && born == old(born)
    {
      ok, dynamic, w := false, false, 0;
      if reply.num.None? {
        return;
      }
      if reply.num.value == 0 {
        ok := true;
      } else {
        match arg {
          case NotAnArray =>
          case Values(vs) => ok, dynamic, w := BindArray(vs, reply, cli);
          case Absent =>
            if reply.num.value == numParams && head != null {
              ok, w := BindParamList(reply, env, cli);
            }
        }
      }
    }

    // ---------- execute ----------

    /** SQLExecute and the data-at-execution loop of `_ruby_ibm_db_execute_helper`. */
    method RunStatement(n: nat, cli: CliStatement, ghost w: nat) returns (ok: bool)
      requires Valid() && Outstanding(cli, w) && cli.asks == [] && cli.sent == []
      modifies cli`pending, cli`asks, cli`sent
      ensures cli.Valid() && SentInOrder(cli, n)
      ensures ok ==> SentAll(cli, n) && (OwnDataOnly(cli) <==> Covers(cli.base, cli.log, n))
    {
      var refused: bool := *;
      if refused {
        return false;
      }
      cli.Start(n);
      ok := SendDeferred(cli);
      forall i | 0 <= i < |cli.sent| && InLog(cli.log, cli.asks[i])
        ensures cli.sent[i] == Data(cli.bound[cli.asks[i]])
      {
        assert Owned(cli, cli.asks[i], w);
      }
      assert |cli.sent| < |cli.asks| ==> cli.asks[|cli.sent|] in cli.pending;
      if ok {
        OwnDataIff(cli, n);
      }
    }

    /** `_ruby_ibm_db_execute_helper`: close the cursor, bind, run; `dynamic` asks the caller for the teardown. */
    method BindAndRun(arg: Argument, reply: Replies, env: Option<string> -> Value, cli: CliStatement)
      returns (ok: bool, dynamic: bool)
      requires Valid() && cli.Valid() && currentNode == head
      modifies `head, `nodes, `entries, `born, `numParams, `currentNode, nodes, cli
      ensures Valid() && cli.Valid() && cli.base == old(cli.bound) && cli.baseTokens == old(cli.tokens)
      ensures var o := BindPhase(reply, old(State()), arg, env);
              cli.log == o.log && (ok ==> o.ok) && State() == o.cache
      ensures SentInOrder(cli, MarkersOf(reply))
      ensures ok ==> SentAll(cli, MarkersOf(reply)) && (OwnDataOnly(cli) <==> Covers(cli.base, cli.log, MarkersOf(reply)))
      ensures ok ==> dynamic == IsDynamic(reply, old(State()), arg)
      ensures forall m :: InLog(cli.log, m) ==> m in cli.tokens && cli.tokens[m] in nodes
      ensures forall k :: 0 <= k < |nodes| ==> nodes[k] in old(nodes) || fresh(nodes[k])
      ensures old(born) <= born && fresh(born - old(born))
      ensures if dynamic then NodeSet(nodes) == born - old(born) && forall k :: 0 <= k < |nodes| ==> fresh(nodes[k])
              else nodes == old(nodes)
    {
      cli.CloseCursor();
      ghost var w;
      ok, dynamic, w := BindParameters(arg, reply, env, cli);
      forall m | InLog(cli.log, m) ensures m in cli.tokens && cli.tokens[m] in nodes {
        assert Owned(cli, m, w);
      }
      if ok {
        ok := RunStatement(MarkersOf(reply), cli, w);
      }
    }

    /** `ibm_db_execute`: binding, SQLExecute, data-at-execution, and the teardown of a dynamic list. */
    method Execute(arg: Argument, reply: Replies, env: Option<string> -> Value, cli: CliStatement)
      returns (ok: bool, ghost freed: seq<ParamNode>)
      requires Valid() && cli.Valid()
      modifies this, nodes, cli
      ensures Valid() && cli.Valid() && isFreed == old(isFreed)
      ensures cli.base == old(cli.bound) && cli.baseTokens == old(cli.tokens)
      ensures var c := old(State());
              var o := BindPhase(reply, c, arg, env);
              && cli.log == o.log
              && (ok ==> o.ok)
              && State() == (if ok then AfterSuccess(reply, c, arg, o.cache) else o.cache)
      ensures SentInOrder(cli, MarkersOf(reply))
      ensures ok ==> SentAll(cli, MarkersOf(reply)) && (OwnDataOnly(cli) <==> Covers(cli.base, cli.log, MarkersOf(reply)))
      ensures forall m :: InLog(cli.log, m) ==> m in cli.tokens && (cli.tokens[m] in nodes || cli.tokens[m] in freed)
      ensures old(born) <= born && fresh(born - old(born))
      ensures forall k :: 0 <= k < |nodes| ==> nodes[k] in old(nodes) || fresh(nodes[k])
      ensures released == old(released) + freed
      ensures if ok && IsDynamic(reply, old(State()), arg) then NodeSet(freed) == born - old(born) else freed == []
    {
      currentNode := head;
      var dynamic;
      ok, dynamic := BindAndRun(arg, reply, env, cli);
      freed := [];
      if ok && dynamic {
        freed := nodes;
        FreeParamCache();
      }
    }

    /** `ibm_db_free_result`: nothing is released when SQLFreeStmt fails. */
    method FreeResult(closed: bool) returns (ok: bool)
      requires Valid()
      modifies this, nodes
      ensures Valid() && ok == closed && isFreed == old(isFreed) && born == old(born)
      ensures ok ==> entries == [] && nodes == [] && numParams == 0 && released == old(released) + old(nodes)
      ensures !ok ==> nodes == old(nodes) && entries == old(entries) && numParams == old(numParams)
      ensures !ok ==> released == old(released)
    {
      ok := closed;
      if closed {
        FreeParamCache();
      }
    }

    /** `_ruby_ibm_db_free_stmt_handle_and_resources`, reached from `free_stmt` and from the garbage
        collector. The first call releases every node that is still cached; nodes bound after it stay behind. */
    method FreeHandleAndResources()
      requires Valid()
      modifies this, nodes
      ensures Valid() && isFreed && handleFrees == 1 && born == old(born)
      ensures released == if old(isFreed) then old(released) else old(released) + old(nodes)
      ensures nodes == if old(isFreed) then old(nodes) else []
      ensures old(isFreed) ==> entries == old(entries)
    {
      if !isFreed {
        FreeParamCache();
        isFreed, handleFrees := true, handleFrees + 1;
      }
    }
  }

  lemma ReplaceLast(es: seq<Entry>, e: Entry, v: Value)
    ensures (es + [e])[|es| := AfterBind((es + [e])[|es|], v)] == es + [AfterBind(e, v)]
  {
  }

  /** Only data of markers bound for data-at-execution was asked for, none twice; it was sent in the order asked,
      and for every marker bound by this call it is what that binding owes. */
  ghost predicate SentInOrder(cli: CliStatement, n: nat)
    reads cli
  {
    && Distinct(cli.asks) && |cli.sent| <= |cli.asks| <= |cli.sent| + 1
    && (forall i :: 0 <= i < |cli.asks| ==> cli.asks[i] in Deferred(cli.bound, n))
    && forall i :: 0 <= i < |cli.sent| && InLog(cli.log, cli.asks[i]) ==> cli.sent[i] == Data(cli.bound[cli.asks[i]])
  }

  /** All of it was sent. */
  ghost predicate SentAll(cli: CliStatement, n: nat)
    reads cli
  {
    |cli.sent| == |cli.asks| && forall m :: m in Deferred(cli.bound, n) ==> m in cli.asks
  }

  /** No data was asked for but that of markers bound by this call. */
  ghost predicate OwnDataOnly(cli: CliStatement)
    reads cli
  {
    forall i :: 0 <= i < |cli.asks| ==> InLog(cli.log, cli.asks[i])
  }

  lemma OwnDataIff(cli: CliStatement, n: nat)
    requires cli.Valid() && SentInOrder(cli, n) && SentAll(cli, n)
    ensures OwnDataOnly(cli) <==> Covers(cli.base, cli.log, n)
  {
    OnlyOwnDataIff(cli.base, cli.log, n);
    if OwnDataOnly(cli) {
      forall m | m in Deferred(cli.bound, n) ensures InLog(cli.log, m) {
        var i :| 0 <= i < |cli.asks| && cli.asks[i] == m;
      }
    }
  }

  /** The text of a binding was asked for and sent, in full. */
  ghost predicate Delivered(cli: CliStatement, b: Binding)
    reads cli
  {
    && b.value.Text?
    && exists k :: 0 <= k < |cli.sent| && k < |cli.asks| && cli.asks[k] == b.marker
                   && cli.sent[k] == Chunk(b.marker, Some(b.value.data), |b.value.data|)
  }

  /** What this call leaves for data-at-execution is delivered. */
  lemma OwnTextIsDelivered(cli: CliStatement, n: nat, i: nat)
    requires cli.Valid() && SentInOrder(cli, n) && SentAll(cli, n)
    requires i < |cli.log| && cli.log[i].deferred && cli.log[i].value.Text? && 1 <= cli.log[i].marker <= n
    requires forall j :: i < j < |cli.log| ==> cli.log[j].marker != cli.log[i].marker
    ensures Delivered(cli, cli.log[i])
  {
    var m := cli.log[i].marker;
    LastBindHolds(cli.base, cli.log, i);
    assert m in Deferred(cli.bound, n) && InLog(cli.log, m);
    var k :| 0 <= k < |cli.asks| && cli.asks[k] == m;
  }
}
