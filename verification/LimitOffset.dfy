/** LIMIT and OFFSET in the adapter: the visitor that prints the tail of a SELECT, and the rewriting
    that inlines trailing LIMIT/OFFSET binds (ibm_db_adapter.rb). */
module LimitOffset {
  import opened Options
  import opened Sequences
  import opened SqlTokens

  // ---------- printing the tail of a SELECT ----------

  datatype Expr = BindParam | Literal(n: int)

  /** ORDER BY terms, LIMIT and OFFSET of a SELECT. */
  datatype Tail = Tail(orders: seq<seq<Token>>, limit: Option<Expr>, offset: Option<Expr>)

  function PrintExpr(e: Expr): (r: seq<Token>)
    ensures |r| == 1
  {
    match e
    case BindParam => [Marker]
    case Literal(n) => [Num(n)]
  }

  function PrintLimit(e: Expr): seq<Token> {
    [LimitWord] + PrintExpr(e)
  }

  /** Informix servers get no OFFSET. */
  function PrintOffset(e: Expr, informix: bool): seq<Token> {
    if informix then [] else [OffsetWord] + PrintExpr(e)
  }

  function PrintLimits(t: Tail, informix: bool): seq<Token> {
    match (t.limit, t.offset)
    case (Some(l), Some(o)) => PrintLimit(l) + PrintOffset(o, informix)
    case (None, Some(o)) => if informix then [] else PrintOffset(o, informix) + [RowsWord]
    case (Some(l), None) => PrintLimit(l)
    case (None, None) => []
  }

  function PrintTail(t: Tail, informix: bool): seq<Token> {
    (if t.orders == [] then [] else [OrderByWord] + Joined(t.orders)) + PrintLimits(t, informix)
  }

  /** The ORDER BY loop of `visit_Arel_Nodes_SelectStatement`: a comma behind every term but the last. */
  method VisitOrders(orders: seq<seq<Token>>) returns (printed: seq<Token>)
    requires orders != []
    ensures printed == Joined(orders)
  {
    printed := [];
    var len := |orders| - 1;
    var i := 0;
    while i < |orders|
      invariant 0 <= i <= |orders|
      invariant printed == Joined(orders[..i]) + if 0 < i <= len then [Comma] else []
    {
      JoinedNext(orders, i);
      printed := printed + orders[i];
      if len != i {
        printed := printed + [Comma];
      }
      i := i + 1;
    }
    assert orders[..i] == orders;
  }

  /** `visit_Arel_Nodes_SelectStatement` past the cores: what it appends to the collector. */
  method VisitSelectTail(t: Tail, informix: bool) returns (printed: seq<Token>)
    ensures printed == PrintTail(t, informix)
  {
    printed := [];
    if t.orders != [] {
      var terms := VisitOrders(t.orders);
      printed := [OrderByWord] + terms;
    }
    if t.offset.Some? && t.limit.Some? {
      printed := printed + (PrintLimit(t.limit.value) + PrintOffset(t.offset.value, informix));
    } else if t.offset.Some? {
      if !informix {
        printed := printed + (PrintOffset(t.offset.value, informix) + [RowsWord]);
      }
    } else if t.limit.Some? {
      printed := printed + PrintLimit(t.limit.value);
    }
  }

  // ---------- reading it back ----------

  function DepthAfter(depth: nat, t: Token): nat {
    if t.OpenParen? then depth + 1 else if t.CloseParen? && depth > 0 then depth - 1 else depth
  }

  /** The tokens that end an ORDER BY term outside parentheses. */
  predicate Ends(t: Token) {
    t.Comma? || t.LimitWord? || t.OffsetWord?
  }

  /** `term` continues an ORDER BY term from the given depth: it never closes more than it opened,
      ends outside parentheses and has no comma, LIMIT or OFFSET there. */
  predicate IsTerm(term: seq<Token>, depth: nat) {
    if term == [] then depth == 0
    else
      && !(depth == 0 && (Ends(term[0]) || term[0].CloseParen?))
      && IsTerm(term[1..], DepthAfter(depth, term[0]))
  }

  lemma {:induction false} TermsJoin(a: seq<Token>, b: seq<Token>, depth: nat)
    requires IsTerm(a, depth) && IsTerm(b, 0)
    ensures IsTerm(a + b, depth)
  {
    if a == [] {
      assert a + b == b;
    } else {
      TermsJoin(a[1..], b, DepthAfter(depth, a[0]));
      assert (a + b)[1..] == a[1..] + b;
    }
  }

  lemma {:induction false} InsideParentheses(ts: seq<Token>)
    requires forall i :: 0 <= i < |ts| ==> !ts[i].OpenParen? && !ts[i].CloseParen?
    ensures IsTerm(ts + [CloseParen], 1)
  {
    if ts == [] {
      assert (ts + [CloseParen])[1..] == [];
    } else {
      InsideParentheses(ts[1..]);
      assert (ts + [CloseParen])[1..] == ts[1..] + [CloseParen];
    }
  }

  /** Terms are made of single tokens other than parentheses, commas, LIMIT and OFFSET, and of parentheses around any tokens. */
  lemma TermsAre(t: Token, ts: seq<Token>, a: seq<Token>, b: seq<Token>)
    requires !Ends(t) && !t.OpenParen? && !t.CloseParen?
    requires forall i :: 0 <= i < |ts| ==> !ts[i].OpenParen? && !ts[i].CloseParen?
    requires IsTerm(a, 0) && IsTerm(b, 0)
    ensures IsTerm([t], 0) && IsTerm([OpenParen] + (ts + [CloseParen]), 0) && IsTerm(a + b, 0)
  {
    assert [t][1..] == [];
    assert ([OpenParen] + (ts + [CloseParen]))[1..] == ts + [CloseParen];
    InsideParentheses(ts);
    TermsJoin(a, b, 0);
  }

  /** The terms up to the first LIMIT or OFFSET outside parentheses, and what follows them. */
  function ScanOrders(ts: seq<Token>, depth: nat, term: seq<Token>): (seq<seq<Token>>, seq<Token>) {
    if ts == [] || (depth == 0 && (ts[0].LimitWord? || ts[0].OffsetWord?)) then ([term], ts)
    else if depth == 0 && ts[0].Comma? then
      var (rest, left) := ScanOrders(ts[1..], 0, []);
      ([term] + rest, left)
    else ScanOrders(ts[1..], DepthAfter(depth, ts[0]), term + [ts[0]])
  }

  function ParseExpr(t: Token): Option<Expr> {
    match t
    case Marker => Some(BindParam)
    case Num(n) => Some(Literal(n))
    case _ => None
  }

  function ParseLimits(ts: seq<Token>): Option<(Option<Expr>, Option<Expr>)> {
    if ts == [] then Some((None, None))
    else if |ts| == 2 && ts[0].LimitWord? && ParseExpr(ts[1]).Some? then Some((ParseExpr(ts[1]), None))
    else if |ts| == 4 && ts[0].LimitWord? && ts[2].OffsetWord? && ParseExpr(ts[1]).Some? && ParseExpr(ts[3]).Some? then
      Some((ParseExpr(ts[1]), ParseExpr(ts[3])))
    else if |ts| == 3 && ts[0].OffsetWord? && ts[2].RowsWord? && ParseExpr(ts[1]).Some? then
      Some((None, ParseExpr(ts[1])))
    else None
  }

  function ParseTail(ts: seq<Token>): Option<Tail> {
    var (orders, left) :=
      if ts != [] && ts[0].OrderByWord? then ScanOrders(ts[1..], 0, []) else ([], ts);
    match ParseLimits(left)
    case None => None
    case Some((l, o)) => Some(Tail(orders, l, o))
  }

  /** Scanning one term leaves the scanner outside parentheses, right behind it. */
  lemma {:induction false} ScanTerm(term: seq<Token>, depth: nat, seen: seq<Token>, after: seq<Token>)
    requires IsTerm(term, depth)
    ensures ScanOrders(term + after, depth, seen) == ScanOrders(after, 0, seen + term)
  {
    if term == [] {
      assert term + after == after && seen + term == seen;
    } else {
      ScanTerm(term[1..], DepthAfter(depth, term[0]), seen + [term[0]], after);
      assert (term + after)[1..] == term[1..] + after;
      assert seen + [term[0]] + term[1..] == seen + term;
    }
  }

  predicate StartsLimits(ts: seq<Token>) {
    ts == [] || ts[0].LimitWord? || ts[0].OffsetWord?
  }

  function JoinedFront(orders: seq<seq<Token>>): seq<Token>
    requires orders != []
  {
    if |orders| == 1 then orders[0] else orders[0] + [Comma] + JoinedFront(orders[1..])
  }

  lemma {:induction false} JoinedBothWays(orders: seq<seq<Token>>)
    requires orders != []
    ensures Joined(orders) == JoinedFront(orders)
    decreases |orders|
  {
    var n := |orders| - 1;
    if n == 1 {
      assert orders[..1] == [orders[0]] && orders[1..] == [orders[1]];
    } else if n > 1 {
      JoinedBothWays(orders[..n]);
      JoinedBothWays(orders[1..]);
      JoinedBothWays(orders[1..n]);
      assert orders[..n][1..] == orders[1..n] == orders[1..][..n - 1];
      assert Joined(orders[1..]) == Joined(orders[1..n]) + [Comma] + orders[n];
      assert JoinedFront(orders[..n]) == orders[0] + [Comma] + JoinedFront(orders[1..n]);
    }
  }

  lemma {:induction false} ScanJoined(orders: seq<seq<Token>>, after: seq<Token>)
    requires orders != [] && StartsLimits(after)
    requires forall i :: 0 <= i < |orders| ==> IsTerm(orders[i], 0)
    ensures ScanOrders(JoinedFront(orders) + after, 0, []) == (orders, after)
    decreases |orders|
  {
    var first := orders[0];
    assert [] + first == first;
    if |orders| == 1 {
      ScanTerm(first, 0, [], after);
      assert orders == [first];
    } else {
      var more := [Comma] + (JoinedFront(orders[1..]) + after);
      ScanJoined(orders[1..], after);
      ScanTerm(first, 0, [], more);
      assert JoinedFront(orders) + after == first + more;
      assert more[1..] == JoinedFront(orders[1..]) + after;
      assert orders == [first] + orders[1..];
    }
  }

  lemma LimitsRoundTrip(t: Tail, informix: bool)
    ensures ParseLimits(PrintLimits(t, informix)) == Some((t.limit, if informix then None else t.offset))
  {
  }

  /** Nothing but printed limits is read as limits. */
  lemma LimitsReadAreLimits(ts: seq<Token>)
    ensures match ParseLimits(ts) case None => true case Some((l, o)) => PrintLimits(Tail([], l, o), false) == ts
  {
  }

  lemma ParseOrdered(body: seq<Token>, orders: seq<seq<Token>>, limits: seq<Token>)
    requires ScanOrders(body, 0, []) == (orders, limits)
    ensures ParseTail([OrderByWord] + body) ==
            match ParseLimits(limits) case None => None case Some((l, o)) => Some(Tail(orders, l, o))
  {
    assert ([OrderByWord] + body)[1..] == body;
  }

  lemma ParseUnordered(limits: seq<Token>)
    requires StartsLimits(limits)
    ensures ParseTail(limits) ==
            match ParseLimits(limits) case None => None case Some((l, o)) => Some(Tail([], l, o))
  {
  }

  lemma LimitsStart(t: Tail, informix: bool)
    ensures StartsLimits(PrintLimits(t, informix))
  {
  }

  /** The printed tail reads back as the tail it was printed from; an Informix server loses the offset. */
  lemma TailRoundTrip(t: Tail, informix: bool)
    requires forall i :: 0 <= i < |t.orders| ==> IsTerm(t.orders[i], 0)
    ensures ParseTail(PrintTail(t, informix)) == Some(if informix then t.(offset := None) else t)
  {
    var limits := PrintLimits(t, informix);
    LimitsStart(t, informix);
    LimitsRoundTrip(t, informix);
    if t.orders == [] {
      assert PrintTail(t, informix) == limits;
      ParseUnordered(limits);
    } else {
      JoinedBothWays(t.orders);
      ScanJoined(t.orders, limits);
      Regroup([OrderByWord], Joined(t.orders), limits);
      ParseOrdered(JoinedFront(t.orders) + limits, t.orders, limits);
    }
  }

  // ---------- inlining trailing binds ----------

  const LIMIT_OFFSET := [LimitWord, Marker, OffsetWord, Marker]
  const LIMIT_ONLY := [LimitWord, Marker]

  /** `LIMIT ? OFFSET ?` at the very end. */
  predicate EndsInLimitOffset(ts: seq<Token>) {
    var n := |ts|;
    n >= 4 && ts[n - 4].LimitWord? && ts[n - 3].Marker? && ts[n - 2].OffsetWord? && ts[n - 1].Marker?
  }

  /** `LIMIT ?` at the very end. */
  predicate EndsInLimit(ts: seq<Token>) {
    var n := |ts|;
    n >= 2 && ts[n - 2].LimitWord? && ts[n - 1].Marker?
  }

  /** `Integer(binds.pop) rescue nil`, for the k-th pop. */
  function Popped(bs: seq<Bind>, k: nat): Option<int>
    requires k > 0
  {
    if |bs| < k then None else AsInteger(bs[|bs| - k])
  }

  /** `inline_limit_offset_binds` on a DB2 server. */
  function Inline(ts: seq<Token>, bs: seq<Bind>): (seq<Token>, seq<Bind>) {
    if bs == [] then (ts, bs)
    else if EndsInLimitOffset(ts) then
      match (Popped(bs, 2), Popped(bs, 1))
      case (Some(l), Some(o)) => (ts[..|ts| - 4] + [LimitWord, Num(l), OffsetWord, Num(o)], bs[..|bs| - 2])
      case _ => (ts, bs)
    else if EndsInLimit(ts) then
      match Popped(bs, 1)
      case Some(l) => (ts[..|ts| - 2] + [LimitWord, Num(l)], bs[..|bs| - 1])
      case None => (ts, bs)
    else (ts, bs)
  }

  /** How many trailing binds are inlined. */
  function Inlined(ts: seq<Token>, bs: seq<Bind>): nat {
    if EndsInLimitOffset(ts) then (if Popped(bs, 2).Some? && Popped(bs, 1).Some? then 2 else 0)
    else if EndsInLimit(ts) && Popped(bs, 1).Some? then 1 else 0
  }

  /** What `Integer` makes of a bind. */
  ghost predicate ConvertsTo(b: Bind, n: int) {
    b == IntBind(n) || (b.Convertible? && b.to == n)
  }

  /** The binds with the last k of them replaced by the integers they convert to. */
  ghost function Converted(bs: seq<Bind>, k: nat): seq<Bind> {
    seq(|bs|, i requires 0 <= i < |bs| => if i >= |bs| - k && bs[i].Convertible? then IntBind(bs[i].to) else bs[i])
  }

  lemma LimitClause(e: Token, bs: seq<Bind>)
    requires e.Marker? || e.Num?
    ensures MarkerCount([LimitWord, e]) == if e.Marker? then 1 else 0
    ensures Instantiate([LimitWord, e], bs) == [LimitWord, if e.Marker? && bs != [] then Render(bs[0]) else e]
  {
    FirstToken(LimitWord, [e], bs);
    FirstToken(e, [], bs);
    assert [LimitWord] + [e] == [LimitWord, e] && [e] + [] == [e];
  }

  lemma OffsetClause(e: Token, bs: seq<Bind>)
    requires e.Marker? || e.Num?
    ensures MarkerCount([OffsetWord, e]) == if e.Marker? then 1 else 0
    ensures Instantiate([OffsetWord, e], bs) == [OffsetWord, if e.Marker? && bs != [] then Render(bs[0]) else e]
  {
    FirstToken(OffsetWord, [e], bs);
    FirstToken(e, [], bs);
    assert [OffsetWord] + [e] == [OffsetWord, e] && [e] + [] == [e];
  }

  /** A statement that ends in a LIMIT clause, filled in. */
  lemma WithLimit(head: seq<Token>, e: Token, hs: seq<Bind>, ls: seq<Bind>)
    requires MarkerCount(head) == |hs|
    requires if e.Marker? then |ls| == 1 else e.Num? && ls == []
    ensures MarkerCount(head + [LimitWord, e]) == |hs| + |ls|
    ensures Instantiate(head + [LimitWord, e], hs + ls)
            == Instantiate(head, hs) + [LimitWord, if e.Marker? then Render(ls[0]) else e]
  {
    MarkerCountSplit(head, [LimitWord, e]);
    InstantiateSplit(head, [LimitWord, e], hs, ls);
    LimitClause(e, ls);
  }

  lemma WithOffset(head: seq<Token>, e: Token, hs: seq<Bind>, os: seq<Bind>)
    requires MarkerCount(head) == |hs|
    requires if e.Marker? then |os| == 1 else e.Num? && os == []
    ensures MarkerCount(head + [OffsetWord, e]) == |hs| + |os|
    ensures Instantiate(head + [OffsetWord, e], hs + os)
            == Instantiate(head, hs) + [OffsetWord, if e.Marker? then Render(os[0]) else e]
  {
    MarkerCountSplit(head, [OffsetWord, e]);
    InstantiateSplit(head, [OffsetWord, e], hs, os);
    OffsetClause(e, os);
  }

  /** The statement with both clauses as markers, and with both as integers. */
  lemma InlineTwo(head: seq<Token>, hs: seq<Bind>, l: Bind, o: Bind, n: int, m: int)
    requires MarkerCount(head) == |hs|
    ensures MarkerCount(head + LIMIT_OFFSET) == |hs| + 2
    ensures MarkerCount(head + [LimitWord, Num(n), OffsetWord, Num(m)]) == |hs|
    ensures Instantiate(head + LIMIT_OFFSET, hs + [l, o])
            == Instantiate(head, hs) + [LimitWord, Render(l), OffsetWord, Render(o)]
    ensures Instantiate(head + [LimitWord, Num(n), OffsetWord, Num(m)], hs)
            == Instantiate(head, hs) + [LimitWord, Num(n), OffsetWord, Num(m)]
  {
    var h, h' := head + [LimitWord, Marker], head + [LimitWord, Num(n)];
    WithLimit(head, Marker, hs, [l]);
    WithOffset(h, Marker, hs + [l], [o]);
    assert h + [OffsetWord, Marker] == head + LIMIT_OFFSET && hs + [l] + [o] == hs + [l, o];
    WithLimit(head, Num(n), hs, []);
    assert hs + [] == hs;
    WithOffset(h', Num(m), hs, []);
    assert h' + [OffsetWord, Num(m)] == head + [LimitWord, Num(n), OffsetWord, Num(m)];
  }

  lemma InlineOne(head: seq<Token>, hs: seq<Bind>, l: Bind, n: int)
    requires MarkerCount(head) == |hs|
    ensures MarkerCount(head + LIMIT_ONLY) == |hs| + 1
    ensures MarkerCount(head + [LimitWord, Num(n)]) == |hs|
    ensures Instantiate(head + LIMIT_ONLY, hs + [l]) == Instantiate(head, hs) + [LimitWord, Render(l)]
    ensures Instantiate(head + [LimitWord, Num(n)], hs) == Instantiate(head, hs) + [LimitWord, Num(n)]
  {
    WithLimit(head, Marker, hs, [l]);
    WithLimit(head, Num(n), hs, []);
    assert hs + [] == hs;
  }

  /** The part of a statement in front of its last k markers has k markers fewer. */
  lemma HeadMarkers(ts: seq<Token>, k: nat)
    requires (k == 1 && EndsInLimit(ts)) || (k == 2 && EndsInLimitOffset(ts))
    ensures var head := ts[..|ts| - 2 * k];
            && ts == head + (if k == 1 then LIMIT_ONLY else LIMIT_OFFSET)
            && MarkerCount(ts) == MarkerCount(head) + k
  {
    var head := ts[..|ts| - 2 * k];
    var tail := if k == 1 then LIMIT_ONLY else LIMIT_OFFSET;
    assert ts == head + tail;
    MarkerCountSplit(head, tail);
    LimitClause(Marker, []);
    OffsetClause(Marker, []);
    MarkerCountSplit([LimitWord, Marker], [OffsetWord, Marker]);
    assert LIMIT_OFFSET == [LimitWord, Marker] + [OffsetWord, Marker];
  }

  ghost predicate EndsWith(ts: seq<Token>, tail: seq<Token>) {
    |tail| <= |ts| && ts[|ts| - |tail|..] == tail
  }

  /** Inlining takes the last two binds of a statement that ends in LIMIT and OFFSET markers, or the last one if it ends in a
      LIMIT marker, exactly when all of them are integers or convert to one; otherwise both inputs come
      back unchanged. */
  lemma InlineTakesLastBinds(ts: seq<Token>, bs: seq<Bind>)
    ensures var (ts', bs') := Inline(ts, bs);
            var k := Inlined(ts, bs);
            && k <= |bs| && bs' == bs[..|bs| - k]
            && (k == 0 ==> ts' == ts)
            && (k == 2 <==>
                EndsWith(ts, LIMIT_OFFSET) && |bs| >= 2 && !bs[|bs| - 2].Opaque? && !bs[|bs| - 1].Opaque?)
            && (k == 1 <==> EndsWith(ts, LIMIT_ONLY) && bs != [] && !bs[|bs| - 1].Opaque?)
  {
    assert bs[..|bs|] == bs;
  }

  /** `ts'` with `bs'` means what `ts` with `bs` means once the last k binds are converted to integers,
      and what it means as it stands exactly when they are integers. */
  ghost predicate SameMeaning(ts': seq<Token>, bs': seq<Bind>, ts: seq<Token>, bs: seq<Bind>, k: nat) {
    && k <= |bs| && (forall i :: |bs| - k <= i < |bs| ==> !bs[i].Opaque?)
    && MarkerCount(ts') == |bs'|
    && Instantiate(ts', bs') == Instantiate(ts, Converted(bs, k))
    && (Instantiate(ts', bs') == Instantiate(ts, bs) <==> forall i :: |bs| - k <= i < |bs| ==> bs[i].IntBind?)
  }

  /** The rewritten statement has as many markers as binds, and with the remaining binds it is the original
      with the inlined binds converted to integers; so it is the original itself exactly when those
      binds were integers already. */
  lemma InliningPreservesMeaning(ts: seq<Token>, bs: seq<Bind>)
    requires MarkerCount(ts) == |bs|
    ensures var (ts', bs') := Inline(ts, bs); SameMeaning(ts', bs', ts, bs, Inlined(ts, bs))
  {
    var k := Inlined(ts, bs);
    InlineTakesLastBinds(ts, bs);
    if k == 0 {
      assert Converted(bs, 0) == bs;
    } else if k == 1 {
      var head, hs, l := Rewritable(ts, bs, 1);
      MeaningOne(head, hs, l[0], AsInteger(l[0]).value, ts, bs);
    } else {
      var head, hs, lo := Rewritable(ts, bs, 2);
      MeaningTwo(head, hs, lo[0], lo[1], AsInteger(lo[0]).value, AsInteger(lo[1]).value, ts, bs);
    }
  }

  /** A statement to be rewritten and its binds, cut in front of what is inlined. */
  lemma Rewritable(ts: seq<Token>, bs: seq<Bind>, k: nat) returns (head: seq<Token>, hs: seq<Bind>, last: seq<Bind>)
    requires (k == 1 && EndsInLimit(ts)) || (k == 2 && EndsInLimitOffset(ts))
    requires MarkerCount(ts) == |bs| && k <= |bs|
    ensures head == ts[..|ts| - 2 * k] && hs == bs[..|bs| - k] && last == bs[|bs| - k..]
    ensures ts == head + (if k == 1 then LIMIT_ONLY else LIMIT_OFFSET) && MarkerCount(head) == |hs|
    ensures bs == hs + (if k == 1 then [last[0]] else [last[0], last[1]])
  {
    HeadMarkers(ts, k);
    head, hs, last := ts[..|ts| - 2 * k], bs[..|bs| - k], bs[|bs| - k..];
  }

  lemma MeaningOne(head: seq<Token>, hs: seq<Bind>, l: Bind, n: int, ts: seq<Token>, bs: seq<Bind>)
    requires MarkerCount(head) == |hs| && ConvertsTo(l, n) && ts == head + LIMIT_ONLY && bs == hs + [l]
    ensures SameMeaning(head + [LimitWord, Num(n)], hs, ts, bs, 1)
  {
    assert bs[|hs|] == l;
    assert Converted(bs, 1) == hs + [IntBind(n)];
    PreservedOne(head, hs, l, n);
  }

  lemma MeaningTwo(head: seq<Token>, hs: seq<Bind>, l: Bind, o: Bind, n: int, m: int, ts: seq<Token>, bs: seq<Bind>)
    requires MarkerCount(head) == |hs| && ConvertsTo(l, n) && ConvertsTo(o, m)
    requires ts == head + LIMIT_OFFSET && bs == hs + [l, o]
    ensures SameMeaning(head + [LimitWord, Num(n), OffsetWord, Num(m)], hs, ts, bs, 2)
  {
    assert bs[|hs|] == l && bs[|hs| + 1] == o;
    assert Converted(bs, 2) == hs + [IntBind(n), IntBind(m)];
    PreservedTwo(head, hs, l, o, n, m);
  }

  lemma PreservedOne(head: seq<Token>, hs: seq<Bind>, l: Bind, n: int)
    requires MarkerCount(head) == |hs| && ConvertsTo(l, n)
    ensures MarkerCount(head + [LimitWord, Num(n)]) == |hs|
    ensures Instantiate(head + [LimitWord, Num(n)], hs) == Instantiate(head + LIMIT_ONLY, hs + [IntBind(n)])
    ensures Instantiate(head + [LimitWord, Num(n)], hs) == Instantiate(head + LIMIT_ONLY, hs + [l]) <==> l.IntBind?
  {
    InlineOne(head, hs, l, n);
    InlineOne(head, hs, IntBind(n), n);
    LastDiffers(Instantiate(head, hs), [LimitWord, Render(l)], [LimitWord, Num(n)]);
  }

  lemma PreservedTwo(head: seq<Token>, hs: seq<Bind>, l: Bind, o: Bind, n: int, m: int)
    requires MarkerCount(head) == |hs| && ConvertsTo(l, n) && ConvertsTo(o, m)
    ensures MarkerCount(head + [LimitWord, Num(n), OffsetWord, Num(m)]) == |hs|
    ensures Instantiate(head + [LimitWord, Num(n), OffsetWord, Num(m)], hs)
            == Instantiate(head + LIMIT_OFFSET, hs + [IntBind(n), IntBind(m)])
    ensures Instantiate(head + [LimitWord, Num(n), OffsetWord, Num(m)], hs)
            == Instantiate(head + LIMIT_OFFSET, hs + [l, o])
            <==> l.IntBind? && o.IntBind?
  {
    InlineTwo(head, hs, l, o, n, m);
    InlineTwo(head, hs, IntBind(n), IntBind(m), n, m);
    LastDiffers(Instantiate(head, hs), [LimitWord, Render(l), OffsetWord, Render(o)], [LimitWord, Num(n), OffsetWord, Num(m)]);
  }

  lemma LastDiffers<T>(a: seq<T>, b: seq<T>, c: seq<T>)
    requires |b| == |c|
    ensures a + b == a + c <==> b == c
  {
    if a + b == a + c {
      assert b == (a + b)[|a|..] && c == (a + c)[|a|..];
    }
  }

  /** Printing with bind markers and inlining them afterwards is printing the integers in the first
      place: the printed form is the one the rewriting recognises, limit bound before offset. A lone OFFSET
      marker is printed with ROWS behind it and is left alone. */
  lemma InliningCommutesWithPrinting(core: seq<Token>, orders: seq<seq<Token>>, bs: seq<Bind>, l: Bind, o: Bind, n: int, m: int)
    requires ConvertsTo(l, n) && ConvertsTo(o, m)
    ensures var l', o' := Some(Literal(n)), Some(Literal(m));
            var p := Some(BindParam);
            && Inline(core + PrintTail(Tail(orders, p, p), false), bs + [l, o])
               == (core + PrintTail(Tail(orders, l', o'), false), bs)
            && Inline(core + PrintTail(Tail(orders, p, None), false), bs + [l])
               == (core + PrintTail(Tail(orders, l', None), false), bs)
            && Inline(core + PrintTail(Tail(orders, None, p), false), bs + [o])
               == (core + PrintTail(Tail(orders, None, p), false), bs + [o])
  {
    var head := core + Sorted(orders);
    var l', o' := Some(Literal(n)), Some(Literal(m));
    var p := Some(BindParam);
    PrintedBehind(core, orders, p, p);
    PrintedBehind(core, orders, l', o');
    PrintedBehind(core, orders, p, None);
    PrintedBehind(core, orders, l', None);
    PrintedBehind(core, orders, None, p);
    InlineSuffixes(head, bs, l, o, n, m);
  }

  function Sorted(orders: seq<seq<Token>>): seq<Token> {
    if orders == [] then [] else [OrderByWord] + Joined(orders)
  }

  /** A DB2 tail behind its statement ends in the limits, written out. */
  lemma PrintedBehind(core: seq<Token>, orders: seq<seq<Token>>, limit: Option<Expr>, offset: Option<Expr>)
    ensures core + PrintTail(Tail(orders, limit, offset), false) ==
            core + Sorted(orders) +
            match (limit, offset)
            case (Some(l), Some(o)) => [LimitWord, PrintExpr(l)[0], OffsetWord, PrintExpr(o)[0]]
            case (Some(l), None) => [LimitWord, PrintExpr(l)[0]]
            case (None, Some(o)) => [OffsetWord, PrintExpr(o)[0], RowsWord]
            case (None, None) => []
  {
    Regroup(core, Sorted(orders), PrintLimits(Tail(orders, limit, offset), false));
  }

  lemma InlineSuffixes(head: seq<Token>, bs: seq<Bind>, l: Bind, o: Bind, n: int, m: int)
    requires ConvertsTo(l, n) && ConvertsTo(o, m)
    ensures Inline(head + LIMIT_OFFSET, bs + [l, o])
            == (head + [LimitWord, Num(n), OffsetWord, Num(m)], bs)
    ensures Inline(head + LIMIT_ONLY, bs + [l]) == (head + [LimitWord, Num(n)], bs)
    ensures Inline(head + [OffsetWord, Marker, RowsWord], bs + [o]) == (head + [OffsetWord, Marker, RowsWord], bs + [o])
  {
    var both, one, rows := head + LIMIT_OFFSET, head + LIMIT_ONLY, head + [OffsetWord, Marker, RowsWord];
    var k := |head|;
    assert both[k] == LimitWord && both[k + 1] == Marker && both[k + 2] == OffsetWord && both[k + 3] == Marker;
    assert both[..k] == head;
    assert one[k] == LimitWord && one[k + 1] == Marker && one[..k] == head;
    assert rows[k + 2] == RowsWord;
    assert (bs + [l, o])[..|bs|] == bs && (bs + [l])[..|bs|] == bs;
  }

  /** A limit given as a numeric string is inlined as a number: the statement is no longer what it was. */
  lemma NumericStringChangesMeaning(text: string, n: int)
    ensures var ts, bs := [LimitWord, Marker], [Convertible(text, n)];
            var (ts', bs') := Inline(ts, bs);
            && Instantiate(ts', bs') == [LimitWord, Num(n)]
            && Instantiate(ts, bs) == [LimitWord, Bound(Convertible(text, n))]
  {
    LimitClause(Marker, [Convertible(text, n)]);
    LimitClause(Num(n), []);
    assert [LimitWord, Marker][..0] + [LimitWord, Num(n)] == [LimitWord, Num(n)];
  }
}
