/** The prepared UPDATE by which an after-save callback stores LOB columns (ibm_db_adapter.rb, `handle_lobs`). */
module LobUpdate {
  import opened Options
  import opened SqlTokens

  /** An attribute value, by the cases the callback tells apart. */
  datatype Value = Nil | EmptyHash | EmptyArray | Str(text: string) | Object(yaml: string)

  /** A LOB column; `isText` for CLOB and text columns, where the empty string is a value. */
  datatype Column = Column(name: string, isText: bool, value: Value)

  predicate StoredAsNull(c: Column) {
    c.value.Nil? || c.value.EmptyHash? || c.value.EmptyArray? || (c.value == Str("") && !c.isText)
  }

  function BindOf(v: Value): Bind {
    match v
    case Str(text) => Opaque(text)
    case Object(yaml) => Opaque(yaml)
    case _ => Opaque("")
  }

  const NULL := Word("NULL")

  function Names(cs: seq<Column>): seq<seq<Token>> {
    seq(|cs|, i requires 0 <= i < |cs| => [Word(cs[i].name)])
  }

  /** The parameter list: a marker for a value, NULL otherwise. */
  function Params(cs: seq<Column>): seq<seq<Token>> {
    seq(|cs|, i requires 0 <= i < |cs| => [if StoredAsNull(cs[i]) then NULL else Marker])
  }

  /** The same list with the values themselves. */
  function Literals(cs: seq<Column>): seq<seq<Token>> {
    seq(|cs|, i requires 0 <= i < |cs| => [if StoredAsNull(cs[i]) then NULL else Render(BindOf(cs[i].value))])
  }

  function Values(cs: seq<Column>): seq<Bind> {
    if cs == [] then []
    else
      var last := cs[|cs| - 1];
      Values(cs[..|cs| - 1]) + if StoredAsNull(last) then [] else [BindOf(last.value)]
  }

  /** `UPDATE table SET (names) = (list) WHERE key = id`; a lone NULL goes without parentheses. */
  function UpdateStatement(table: string, cs: seq<Column>, list: seq<seq<Token>>, key: string, id: Token): seq<Token> {
    Front(table, cs) + ListOf(list) + [Word("WHERE"), Word(key), Word("="), id]
  }

  function Front(table: string, cs: seq<Column>): seq<Token> {
    [Word("UPDATE"), Word(table), Word("SET"), OpenParen] + Joined(Names(cs)) + [CloseParen, Word("=")]
  }

  function ListOf(list: seq<seq<Token>>): seq<Token> {
    if list == [[NULL]] then [NULL] else [OpenParen] + Joined(list) + [CloseParen]
  }

  /** The lists of the first i+1 columns from those of the first i. */
  lemma NextColumn(cs: seq<Column>, i: nat)
    requires i < |cs|
    ensures Joined(Names(cs[..i + 1])) ==
            if i == 0 then [Word(cs[i].name)] else Joined(Names(cs[..i])) + [Comma] + [Word(cs[i].name)]
    ensures Params(cs[..i + 1]) == Params(cs[..i]) + [[if StoredAsNull(cs[i]) then NULL else Marker]]
    ensures Values(cs[..i + 1]) == Values(cs[..i]) + if StoredAsNull(cs[i]) then [] else [BindOf(cs[i].value)]
  {
    var names := Names(cs[..i + 1]);
    assert cs[..i + 1][..i] == cs[..i];
    assert names[..i] == Names(cs[..i]) && names[..i + 1] == names;
    JoinedNext(names, i);
  }

  /** The loop over the LOB columns. */
  method CollectColumns(start: seq<Token>, cs: seq<Column>)
    returns (query: seq<Token>, params: seq<seq<Token>>, values: seq<Bind>, counter: nat)
    ensures counter == |cs| && query == start + Joined(Names(cs)) && params == Params(cs) && values == Values(cs)
  {
    query, params, values, counter := start, [], [], 0;
    for i := 0 to |cs|
      invariant counter == i
      invariant query == start + Joined(Names(cs[..i]))
      invariant params == Params(cs[..i])
      invariant values == Values(cs[..i])
    {
      var col := cs[i];
      NextColumn(cs, i);
      if counter == 0 {
        query := query + [Word(col.name)];
      } else {
        query := query + [Comma, Word(col.name)];
      }
      if StoredAsNull(col) {
        params := params + [[NULL]];
      } else {
        values := values + [BindOf(col.value)];
        params := params + [[Marker]];
      }
      counter := counter + 1;
    }
    assert cs[..|cs|] == cs;
  }

  /** The callback for one saved record: no statement when there is no LOB column. */
  method HandleLobs(table: string, cs: seq<Column>, key: string, id: Bind)
    returns (statement: Option<seq<Token>>, values: seq<Bind>)
    ensures cs == [] <==> statement == None
    ensures cs != [] ==>
              && statement == Some(UpdateStatement(table, cs, Params(cs), key, Marker))
              && values == Values(cs) + [id]
  {
    var query, params, counter;
    query, params, values, counter := CollectColumns([Word("UPDATE"), Word(table), Word("SET"), OpenParen], cs);
    if counter == 0 {
      return None, values;
    }
    query := query + [CloseParen, Word("=")];
    if |params| == 1 && params[0] == [NULL] {
      query := query + [NULL];
    } else {
      query := query + ([OpenParen] + Joined(params) + [CloseParen]);
    }
    query := query + [Word("WHERE"), Word(key), Word("="), Marker];
    values := values + [id];
    statement := Some(query);
  }

  // ---------- what the statement means ----------

  lemma {:induction false} PlainTokens(ts: seq<Token>)
    requires forall i :: 0 <= i < |ts| ==> !ts[i].Marker?
    ensures MarkerCount(ts) == 0 && Instantiate(ts, []) == ts
  {
    if ts == [] {
    } else {
      PlainTokens(ts[1..]);
      assert ts == [ts[0]] + ts[1..];
    }
  }

  lemma {:induction false} NamesArePlain(names: seq<seq<Token>>, i: nat)
    requires forall k :: 0 <= k < |names| ==> |names[k]| == 1 && !names[k][0].Marker?
    requires i < |Joined(names)|
    ensures !Joined(names)[i].Marker?
    decreases |names|
  {
    var n := |names| - 1;
    if n > 0 && i < |Joined(names[..n])| {
      NamesArePlain(names[..n], i);
    }
  }

  /** Filling the markers of the parameter list with the collected values puts every value at its own column. */
  lemma {:induction false} ParamsTakeTheirValues(cs: seq<Column>)
    ensures MarkerCount(Joined(Params(cs))) == |Values(cs)|
    ensures Instantiate(Joined(Params(cs)), Values(cs)) == Joined(Literals(cs))
  {
    if cs == [] {
    } else {
      var n := |cs| - 1;
      var init, c := cs[..n], cs[n];
      ParamsTakeTheirValues(init);
      var own := if StoredAsNull(c) then [] else [BindOf(c.value)];
      OneParam(c);
      assert Params(cs)[..n] == Params(init) && Literals(cs)[..n] == Literals(init);
      if n == 0 {
        assert init == [] && Values(cs) == own;
      } else {
        var item := Params(cs)[n];
        ItemTakesValue(Joined(Params(init)), item, Values(init), own);
        assert Joined(Literals(cs)) == Joined(Literals(init)) + [Comma] + Literals(cs)[n];
        assert Joined(Params(cs)) == Joined(Params(init)) + [Comma] + item;
      }
    }
  }

  lemma OneParam(c: Column)
    ensures var t := if StoredAsNull(c) then NULL else Marker;
            var own := if StoredAsNull(c) then [] else [BindOf(c.value)];
            && MarkerCount([t]) == |own|
            && Instantiate([t], own) == [if StoredAsNull(c) then NULL else Render(BindOf(c.value))]
  {
    var t := if StoredAsNull(c) then NULL else Marker;
    FirstToken(t, [], if StoredAsNull(c) then [] else [BindOf(c.value)]);
    assert [t] + [] == [t];
  }

  lemma ItemTakesValue(done: seq<Token>, item: seq<Token>, vs: seq<Bind>, own: seq<Bind>)
    requires MarkerCount(done) == |vs| && MarkerCount(item) == |own|
    ensures MarkerCount(done + [Comma] + item) == |vs + own|
    ensures Instantiate(done + [Comma] + item, vs + own) == Instantiate(done, vs) + [Comma] + Instantiate(item, own)
  {
    PlainTokens([Comma]);
    MarkerCountSplit(done, [Comma]);
    MarkerCountSplit(done + [Comma], item);
    InstantiateSplit(done + [Comma], item, vs, own);
    InstantiateSplit(done, [Comma], vs, []);
    assert vs + [] == vs;
  }

  lemma FilledIn(table: string, cs: seq<Column>, key: string, id: Bind)
    requires cs != []
    ensures var statement := UpdateStatement(table, cs, Params(cs), key, Marker);
            var values := Values(cs) + [id];
            && MarkerCount(statement) == |values|
            && Instantiate(statement, values) == UpdateStatement(table, cs, Literals(cs), key, Render(id))
  {
    var front, list := Front(table, cs), ListOf(Params(cs));
    FrontIsPlain(table, cs);
    ListTakesValues(cs);
    KeyClause(key, id);
    MarkerCountSplit(front, list);
    InstantiateSplit(front, list, [], Values(cs));
    assert [] + Values(cs) == Values(cs);
    var where := [Word("WHERE"), Word(key), Word("="), Marker];
    MarkerCountSplit(front + list, where);
    InstantiateSplit(front + list, where, Values(cs), [id]);
  }

  /** What a column is to be set to: its text or its dump; NULL for nil, an empty hash, an empty array, and the empty
      string of a column that is not text. */
  ghost predicate Assigns(c: Column, item: Token) {
    match c.value
    case Nil => item == Word("NULL")
    case EmptyHash => item == Word("NULL")
    case EmptyArray => item == Word("NULL")
    case Str(text) => item == if text != "" || c.isText then Bound(Opaque(text)) else Word("NULL")
    case Object(yaml) => item == Bound(Opaque(yaml))
  }

  /** The statement has one marker for each collected value, and with the values bound it is the update that
      assigns every LOB column its own value, or NULL, in the row of the given key. */
  lemma UpdateAssignsEveryColumn(table: string, cs: seq<Column>, key: string, id: Bind,
                                 names: seq<seq<Token>>, items: seq<seq<Token>>)
    requires cs != [] && |names| == |items| == |cs|
    requires forall i :: 0 <= i < |cs| ==> names[i] == [Word(cs[i].name)] && |items[i]| == 1 && Assigns(cs[i], items[i][0])
    ensures var statement := UpdateStatement(table, cs, Params(cs), key, Marker);
            var values := Values(cs) + [id];
            && MarkerCount(statement) == |values|
            && Instantiate(statement, values) ==
               [Word("UPDATE"), Word(table), Word("SET"), OpenParen] + Joined(names) + [CloseParen, Word("=")]
               + (if items == [[Word("NULL")]] then [Word("NULL")] else [OpenParen] + Joined(items) + [CloseParen])
               + [Word("WHERE"), Word(key), Word("="), Render(id)]
  {
    FilledIn(table, cs, key, id);
    assert names == Names(cs);
    forall i | 0 <= i < |cs| ensures items[i] == Literals(cs)[i] {
      assert items[i] == [items[i][0]];
    }
    assert items == Literals(cs);
  }

  lemma FrontIsPlain(table: string, cs: seq<Column>)
    ensures MarkerCount(Front(table, cs)) == 0 && Instantiate(Front(table, cs), []) == Front(table, cs)
  {
    var names := Joined(Names(cs));
    forall i | 0 <= i < |names| ensures !names[i].Marker? {
      NamesArePlain(Names(cs), i);
    }
    PlainTokens(Front(table, cs));
  }

  lemma KeyClause(key: string, id: Bind)
    ensures var where := [Word("WHERE"), Word(key), Word("="), Marker];
            && MarkerCount(where) == 1
            && Instantiate(where, [id]) == [Word("WHERE"), Word(key), Word("="), Render(id)]
  {
    var front := [Word("WHERE"), Word(key), Word("=")];
    PlainTokens(front);
    FirstToken(Marker, [], [id]);
    assert [Marker] + [] == [Marker] && [] + [id] == [id];
    MarkerCountSplit(front, [Marker]);
    InstantiateSplit(front, [Marker], [], [id]);
    assert front + [Marker] == [Word("WHERE"), Word(key), Word("="), Marker];
  }

  lemma ListTakesValues(cs: seq<Column>)
    requires cs != []
    ensures MarkerCount(ListOf(Params(cs))) == |Values(cs)|
    ensures Instantiate(ListOf(Params(cs)), Values(cs)) == ListOf(Literals(cs))
  {
    ParamsTakeTheirValues(cs);
    LoneNull(cs);
    if Params(cs) == [[NULL]] {
      assert Joined(Params(cs)) == [NULL] && Joined(Literals(cs)) == [NULL];
    } else {
      var params := Joined(Params(cs));
      PlainTokens([OpenParen]);
      PlainTokens([CloseParen]);
      MarkerCountSplit([OpenParen], params);
      MarkerCountSplit([OpenParen] + params, [CloseParen]);
      InstantiateSplit([OpenParen], params, [], Values(cs));
      InstantiateSplit([OpenParen] + params, [CloseParen], Values(cs), []);
      assert [] + Values(cs) == Values(cs) && Values(cs) + [] == Values(cs);
    }
  }

  lemma LoneNull(cs: seq<Column>)
    requires cs != []
    ensures Params(cs) == [[NULL]] <==> Literals(cs) == [[NULL]]
  {
    assert Params(cs)[0][0] == NULL <==> StoredAsNull(cs[0]);
    assert Literals(cs)[0][0] == NULL <==> StoredAsNull(cs[0]);
    if |cs| == 1 && StoredAsNull(cs[0]) {
      assert Params(cs) == [[NULL]] && Literals(cs) == [[NULL]];
    }
  }
}
