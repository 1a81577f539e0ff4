/** SQL statements as token sequences, and what it means to bind their parameter markers by position. */
module SqlTokens {
  import opened Options
  import opened Sequences

  /** A Ruby bind value, by what `Integer(value)` makes of it: integers stand for themselves, numeric
      strings and floats convert, everything else raises. */
  datatype Bind = IntBind(n: int) | Convertible(text: string, to: int) | Opaque(text: string)

  datatype Token =
    | LimitWord | OffsetWord | OrderByWord | RowsWord
    | Comma | OpenParen | CloseParen
    | Marker
    | Num(n: int)
    | Bound(b: Bind)
    | Word(text: string)

  function AsInteger(b: Bind): Option<int> {
    match b
    case IntBind(n) => Some(n)
    case Convertible(_, n) => Some(n)
    case Opaque(_) => None
  }

  /** The literal a bound marker stands for. */
  function Render(b: Bind): Token {
    if b.IntBind? then Num(b.n) else Bound(b)
  }

  function MarkerCount(ts: seq<Token>): nat {
    if ts == [] then 0 else MarkerCount(ts[1..]) + if ts[0].Marker? then 1 else 0
  }

  /** The statement with its markers filled in from left to right; markers beyond the binds stay. */
  function Instantiate(ts: seq<Token>, bs: seq<Bind>): seq<Token> {
    if ts == [] then []
    else if ts[0].Marker? && bs != [] then [Render(bs[0])] + Instantiate(ts[1..], bs[1..])
    else [ts[0]] + Instantiate(ts[1..], bs)
  }

  /** Both functions one token at a time. */
  lemma FirstToken(t: Token, ts: seq<Token>, bs: seq<Bind>)
    ensures MarkerCount([t] + ts) == MarkerCount(ts) + if t.Marker? then 1 else 0
    ensures Instantiate([t] + ts, bs) ==
            if t.Marker? && bs != [] then [Render(bs[0])] + Instantiate(ts, bs[1..]) else [t] + Instantiate(ts, bs)
  {
    assert ([t] + ts)[1..] == ts;
  }

  lemma {:induction false} MarkerCountSplit(a: seq<Token>, b: seq<Token>)
    ensures MarkerCount(a + b) == MarkerCount(a) + MarkerCount(b)
  {
    if a == [] {
      assert a + b == b;
    } else {
      MarkerCountSplit(a[1..], b);
      assert (a + b)[1..] == a[1..] + b;
    }
  }

  lemma MarkerFirst(ts: seq<Token>, b: Bind, bs: seq<Bind>)
    ensures Instantiate([Marker] + ts, [b] + bs) == [Render(b)] + Instantiate(ts, bs)
  {
    FirstToken(Marker, ts, [b] + bs);
    assert ([b] + bs)[1..] == bs;
  }

  lemma PlainFirst(t: Token, ts: seq<Token>, bs: seq<Bind>)
    requires !t.Marker?
    ensures Instantiate([t] + ts, bs) == [t] + Instantiate(ts, bs)
  {
    FirstToken(t, ts, bs);
  }

  /** Each part of a statement takes the binds of its own markers. */
  lemma {:induction false} InstantiateSplit(a: seq<Token>, b: seq<Token>, as': seq<Bind>, bs: seq<Bind>)
    requires MarkerCount(a) == |as'|
    ensures Instantiate(a + b, as' + bs) == Instantiate(a, as') + Instantiate(b, bs)
    decreases |a|, 1
  {
    if a == [] {
      assert a + b == b && as' + bs == bs;
    } else {
      assert a == [a[0]] + a[1..];
      FirstToken(a[0], a[1..], as');
      Regroup([a[0]], a[1..], b);
      if a[0].Marker? {
        SplitAtMarker(a[1..], b, as', bs);
      } else {
        InstantiateSplit(a[1..], b, as', bs);
        PlainFirst(a[0], a[1..] + b, as' + bs);
        Regroup([a[0]], Instantiate(a[1..], as'), Instantiate(b, bs));
      }
    }
  }

  lemma {:induction false} SplitAtMarker(a: seq<Token>, b: seq<Token>, as': seq<Bind>, bs: seq<Bind>)
    requires MarkerCount(a) + 1 == |as'|
    ensures Instantiate([Marker] + (a + b), as' + bs) == Instantiate([Marker] + a, as') + Instantiate(b, bs)
    decreases |a| + 1, 0
  {
    var first, rest := as'[0], as'[1..];
    assert as' == [first] + rest;
    Regroup([first], rest, bs);
    InstantiateSplit(a, b, rest, bs);
    MarkerFirst(a, first, rest);
    MarkerFirst(a + b, first, rest + bs);
    Regroup([Render(first)], Instantiate(a, rest), Instantiate(b, bs));
  }

  /** Lists of tokens with a comma between one and the next. */
  function Joined(orders: seq<seq<Token>>): seq<Token> {
    if orders == [] then []
    else if |orders| == 1 then orders[0]
    else Joined(orders[..|orders| - 1]) + [Comma] + orders[|orders| - 1]
  }

  lemma JoinedNext(orders: seq<seq<Token>>, i: nat)
    requires i < |orders|
    ensures Joined(orders[..i + 1]) == if i == 0 then orders[0] else Joined(orders[..i]) + [Comma] + orders[i]
  {
    assert orders[..i + 1][..i] == orders[..i];
  }
}
