/** The CLI library's side of a statement: its parameter bindings and data-at-execution
    (IBM_DB_Driver/ibm_db.c, ruby_ibm_db_cli.c). */
module CliLibrary {
  import opened Sequences
  import opened Parameters
  import opened ExecuteProtocol
  import opened ParamNodes

  datatype Rc = Done | NeedData | Failed

  /** Bindings and tokens are those from before, overwritten marker by marker by the log. */
  ghost predicate InForce(base: map<int, Binding>, baseTokens: map<int, ParamNode>, log: seq<Binding>,
                          bound: map<int, Binding>, tokens: map<int, ParamNode>) {
    && bound == Rebound(base, log)
    && tokens.Keys == bound.Keys && baseTokens.Keys == base.Keys
    && forall m :: m in base && !InLog(log, m) ==> m in tokens && tokens[m] == baseTokens[m]
  }

  lemma BindNext(base: map<int, Binding>, baseTokens: map<int, ParamNode>, log: seq<Binding>,
                 bound: map<int, Binding>, tokens: map<int, ParamNode>, b: Binding, node: ParamNode)
    requires InForce(base, baseTokens, log, bound, tokens)
    ensures InForce(base, baseTokens, log + [b], bound[b.marker := b], tokens[b.marker := node])
  {
    ReboundNext(base, log, b);
    forall m | m in base && !InLog(log + [b], m)
      ensures m in tokens && m != b.marker && tokens[m] == baseTokens[m]
    {
      assert !InLog(log, m);
    }
  }

  class CliStatement {
    var log: seq<Binding>             // the binds of the current execute
    var bound: map<int, Binding>      // the bindings in force, also those of earlier executes
    var tokens: map<int, ParamNode>   // the node each of them was made with
    var pending: set<int>             // markers whose data SQLExecute still waits for
    var asks: seq<int>                // markers whose data SQLParamData has asked for, in order
    var sent: seq<Chunk>              // what SQLPutData has sent, in order
    ghost var base: map<int, Binding>            // the bindings in force when the current execute began
    ghost var baseTokens: map<int, ParamNode>

    ghost predicate Valid()
      reads this
    {
      InForce(base, baseTokens, log, bound, tokens)
    }

    constructor ()
      ensures Valid() && bound == map[]
    {
      log, bound, tokens, pending, asks, sent := [], map[], map[], {}, [], [];
      base, baseTokens := map[], map[];
    }

    /** SQLFreeStmt with SQL_CLOSE: closes the cursor; parameter bindings stay in force. */
    method CloseCursor()
      requires Valid()
      modifies this
      ensures Valid() && log == [] && asks == [] && sent == [] && pending == {}
      ensures bound == base == old(bound) && tokens == baseTokens == old(tokens)
    {
      log, pending, asks, sent := [], {}, [], [];
      base, baseTokens := bound, tokens;
    }

    /** A successful SQLBindParameter or SQLBindFileToParam. */
    method Bind(b: Binding, node: ParamNode)
      requires Valid()
      modifies `log, `bound, `tokens
      ensures Valid() && log == old(log) + [b]
      ensures bound == old(bound)[b.marker := b] && tokens == old(tokens)[b.marker := node]
    {
      var log', bound', tokens' := log + [b], bound[b.marker := b], tokens[b.marker := node];
      assert InForce(base, baseTokens, log', bound', tokens') by {
        BindNext(base, baseTokens, log, bound, tokens, b, node);
      }
      log, bound, tokens := log', bound', tokens';
    }

    /** An SQLExecute that goes ahead waits for the data of every marker bound for data-at-execution. */
    method Start(n: nat)
      modifies `pending
      ensures pending == Deferred(bound, n)
      ensures forall m :: m in pending <==> m in bound && 1 <= m <= n && bound[m].deferred
    {
      pending := Deferred(bound, n);
    }

    /** SQLParamData: asks for any one of the outstanding markers by its token, or fails. */
    method ParamData() returns (rc: Rc, token: ParamNode?)
      requires pending <= tokens.Keys
      modifies `asks
      ensures rc.NeedData? <==> token != null
      ensures rc.NeedData? ==> Asked(token) && asks[..|asks| - 1] == old(asks)
      ensures !rc.NeedData? ==> asks == old(asks)
      ensures rc.Done? ==> pending == {}
    {
      var fails: bool := *;
      var m: int := *;
      rc, token := Failed, null;
      if !fails && pending == {} {
        rc := Done;
      } else if !fails && m in pending {
        asks := asks + [m];
        rc, token := NeedData, tokens[m];
      }
    }

    /** The last question put was for this token. */
    ghost predicate Asked(token: ParamNode?)
      reads this
    {
      && asks != []
      && asks[|asks| - 1] in pending && asks[|asks| - 1] in tokens
      && token == tokens[asks[|asks| - 1]]
    }

    /** SQLPutData of the buffer and length found in the node that the last token points to. */
    method PutData(token: ParamNode) returns (rc: Rc)
      requires Asked(token)
      modifies `sent, `pending
      ensures rc.Done? || rc.Failed?
      ensures rc.Done? ==> sent == old(sent) + [token.Buffered()] && pending == old(pending) - {asks[|asks| - 1]}
      ensures rc.Failed? ==> sent == old(sent) && pending == old(pending)
    {
      var fails: bool := *;
      rc := Failed;
      if !fails {
        rc, sent, pending := Done, sent + [token.Buffered()], pending - {asks[|asks| - 1]};
      }
    }

    /** Every piece of data sent is the buffer of the node asked for, in the order asked; a question may be
        left over when sending failed. */
    ghost predicate Answers()
      reads this, tokens.Values
    {
      && |sent| <= |asks| <= |sent| + 1
      && forall i :: 0 <= i < |sent| ==> asks[i] in tokens && sent[i] == tokens[asks[i]].Buffered()
    }
  }

  /** The markers of `all` are those already served and those outstanding, none of them twice. */
  ghost predicate Served(all: set<int>, asks: seq<int>, k: nat, pending: set<int>)
    requires k <= |asks|
  {
    && Distinct(asks)
    && pending <= all
    && (forall i :: 0 <= i < |asks| ==> asks[i] in all && (asks[i] in pending <==> k <= i))
    && forall m :: m in all ==> m in pending || m in asks
  }

  lemma AskNext(all: set<int>, asks: seq<int>, pending: set<int>, m: int)
    requires Served(all, asks, |asks|, pending) && m in pending
    ensures Served(all, asks + [m], |asks|, pending)
  {
    var next := asks + [m];
    assert forall x :: x in asks ==> x in next;
    assert forall i :: 0 <= i < |asks| ==> asks[i] != m;
  }

  lemma ServeNext(all: set<int>, asks: seq<int>, pending: set<int>)
    requires asks != [] && Served(all, asks, |asks| - 1, pending)
    ensures Served(all, asks, |asks|, pending - {asks[|asks| - 1]})
  {
    assert asks[|asks| - 1] in asks;
  }

  /** The data-at-execution loop: terminates, asks for no marker twice and for outstanding ones only, sends the
      data of each node in the order asked, and when it succeeds has sent all of it. */
  method SendDeferred(cli: CliStatement) returns (ok: bool)
    requires cli.pending <= cli.tokens.Keys && cli.asks == [] && cli.sent == []
    modifies cli`pending, cli`asks, cli`sent
    ensures cli.Answers() && Served(old(cli.pending), cli.asks, |cli.sent|, cli.pending)
    ensures ok ==> cli.pending == {}
  {
    ghost var all := cli.pending;
    ghost var before := cli.asks;
    var rc, token := cli.ParamData();
    if rc.NeedData? {
      AskNext(all, before, all, cli.asks[0]);
      assert cli.asks == before + [cli.asks[0]];
    }
    while rc.NeedData?
      invariant cli.Answers() && Served(all, cli.asks, |cli.sent|, cli.pending)
      invariant cli.pending <= cli.tokens.Keys
      invariant rc.NeedData? ==> token != null && cli.Asked(token) && |cli.asks| == |cli.sent| + 1
      invariant rc.Done? ==> cli.pending == {}
      decreases cli.pending, rc.NeedData?
    {
      var node: ParamNode := token;
      rc := cli.PutData(node);
      if rc.Done? {
        ServeNext(all, cli.asks, cli.pending + {cli.asks[|cli.asks| - 1]});
        before := cli.asks;
        rc, token := cli.ParamData();
        if rc.NeedData? {
          AskNext(all, before, cli.pending, cli.asks[|cli.asks| - 1]);
          assert cli.asks == before + [cli.asks[|cli.asks| - 1]];
        }
      }
    }
    ok := rc.Done?;
  }
}
