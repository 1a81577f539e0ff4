/** Index maintenance around a removed or renamed column (ibm_db_adapter.rb, `drop_column_indexes`,
    `create_column_indexes`, `recreate_indexes_after_remove_column`, `remove_column`, `rename_column`). */
module Indexes {
  import opened Sequences
  import opened Strings

  // ---------- names ----------

  /** The catalog's form of a name: double quotes deleted, lower case. */
  function Fold(s: string): (r: string)
    ensures |r| <= |s|
  {
    if s == "" then ""
    else if s[0] == '"' then Fold(s[1..])
    else [Lower(s[0])] + Fold(s[1..])
  }

  predicate Folded(s: string) {
    Fold(s) == s
  }

  lemma {:induction false} FoldTwice(s: string)
    ensures Folded(Fold(s))
  {
    if s == "" {
    } else {
      FoldTwice(s[1..]);
      if s[0] != '"' {
        assert Fold(s)[1..] == Fold(s[1..]);
      }
    }
  }

  lemma FoldFirst(c: char, s: string)
    ensures Fold([c] + s) == (if c == '"' then "" else [Lower(c)]) + Fold(s)
  {
    assert ([c] + s)[1..] == s;
  }

  /** Folding goes letter by letter. */
  lemma {:induction false} FoldJoins(s: string, t: string)
    ensures Fold(s + t) == Fold(s) + Fold(t)
  {
    if s == "" {
      assert s + t == t;
    } else {
      var c, u := s[0], s[1..];
      assert s == [c] + u;
      FoldJoins(u, t);
      FoldFirst(c, u);
      FoldFirst(c, u + t);
      Regroup([c], u, t);
      Regroup(if c == '"' then "" else [Lower(c)], Fold(u), Fold(t));
    }
  }

  /** `quote_column_name`: quotation marks of both kinds deleted. */
  function Unquoted(s: string): string {
    if s == "" then ""
    else if s[0] == '"' || s[0] == '\'' then Unquoted(s[1..])
    else [s[0]] + Unquoted(s[1..])
  }

  lemma UnquotedFirst(c: char, s: string)
    ensures Unquoted([c] + s) == (if c == '"' || c == '\'' then "" else [c]) + Unquoted(s)
  {
    assert ([c] + s)[1..] == s;
  }

  lemma {:induction false} UnquotedJoins(s: string, t: string)
    ensures Unquoted(s + t) == Unquoted(s) + Unquoted(t)
  {
    if s == "" {
      assert s + t == t;
    } else {
      var c, u := s[0], s[1..];
      assert s == [c] + u;
      UnquotedJoins(u, t);
      UnquotedFirst(c, u);
      UnquotedFirst(c, u + t);
      Regroup([c], u, t);
      Regroup(if c == '"' || c == '\'' then "" else [c], Unquoted(u), Unquoted(t));
    }
  }

  function FoldAll(names: seq<string>): seq<string> {
    seq(|names|, i requires 0 <= i < |names| => Fold(names[i]))
  }

  // ---------- the catalog ----------

  datatype Index = Index(columns: seq<string>, unique: bool)

  datatype Catalog = Catalog(columns: set<string>, indexes: map<string, Index>)

  /** What the server demands of an index: some columns, each once, all of them there. */
  predicate Indexable(columns: set<string>, names: seq<string>) {
    && names != []
    && Distinct(names)
    && forall i :: 0 <= i < |names| ==> names[i] in columns
  }

  predicate Sound(c: Catalog) {
    && (forall x | x in c.columns :: Folded(x))
    && (forall n | n in c.indexes :: Folded(n) && Indexable(c.columns, c.indexes[n].columns))
  }

  /** The names with one taken out, order kept. */
  function Without(names: seq<string>, name: string): (r: seq<string>)
    ensures forall x :: x in r <==> x in names && x != name
  {
    if names == [] then []
    else if names[0] == name then Without(names[1..], name)
    else [names[0]] + Without(names[1..], name)
  }

  lemma {:induction false} WithoutKeeps(names: seq<string>, name: string)
    ensures name !in names ==> Without(names, name) == names
    ensures Distinct(names) ==> Distinct(Without(names, name))
  {
    if names == [] {
    } else {
      WithoutKeeps(names[1..], name);
      assert names == [names[0]] + names[1..];
      if Distinct(names) {
        assert Distinct(names[1..]) && names[0] !in names[1..];
      }
    }
  }

  /** The names with one replaced in its place. */
  function Replaced(names: seq<string>, name: string, other: string): seq<string> {
    seq(|names|, i requires 0 <= i < |names| => if names[i] == name then other else names[i])
  }

  function FirstAt(names: seq<string>, name: string): (k: nat)
    requires name in names
    ensures k < |names| && names[k] == name
  {
    if names[0] == name then 0 else 1 + FirstAt(names[1..], name)
  }

  lemma ReplacedAtOnePlace(names: seq<string>, name: string, other: string)
    requires Distinct(names) && name in names
    ensures names[FirstAt(names, name) := other] == Replaced(names, name, other)
  {
  }

  lemma FoldedColumns(c: Catalog, n: string)
    requires Sound(c) && n in c.indexes
    ensures FoldAll(c.indexes[n].columns) == c.indexes[n].columns
  {
    var names := c.indexes[n].columns;
    forall i | 0 <= i < |names| ensures Fold(names[i]) == names[i] {
      assert names[i] in c.columns;
      assert Folded(names[i]);
    }
  }

  // ---------- the server ----------

  /** A table on the server. A statement the server has no reason of its own to refuse may still fail, unless
      the server is `reliable`. */
  class Table {
    const reliable: bool
    /** Index names taken by other tables, and the longest name allowed. */
    const elsewhere: set<string>
    const limit: nat
    /** The adapter's default name for an index over given columns of this table. */
    const generate: seq<string> -> string
    var catalog: Catalog

    ghost predicate Valid()
      reads this
    {
      && Sound(catalog)
      && forall n | n in catalog.indexes :: |n| <= limit && n !in elsewhere
    }

    method Refuses() returns (b: bool)
      ensures reliable ==> !b
    {
      b := *;
      b := b && !reliable;
    }

    method DropIndex(name: string) returns (ok: bool)
      modifies this`catalog
      ensures ok ==> name in old(catalog.indexes)
      ensures catalog == if ok then old(catalog).(indexes := old(catalog).indexes - {name}) else old(catalog)
      ensures reliable && name in old(catalog.indexes) ==> ok
    {
      var refused := Refuses();
      ok := !refused && name in catalog.indexes;
      if ok {
        catalog := catalog.(indexes := catalog.indexes - {name});
      }
    }

    predicate CanCreate(names: seq<string>, name: string)
      reads this
    {
      && |name| <= limit
      && Fold(name) !in elsewhere
      && Fold(name) !in catalog.indexes
      && Indexable(catalog.columns, FoldAll(names))
    }

    /** `add_index`: the adapter checks the length of the name, the server the rest. */
    method AddIndex(names: seq<string>, name: string, unique: bool) returns (ok: bool)
      modifies this`catalog
      ensures ok ==> old(CanCreate(names, name))
      ensures catalog ==
              if ok then old(catalog).(indexes := old(catalog).indexes[Fold(name) := Index(FoldAll(names), unique)])
              else old(catalog)
      ensures reliable && old(CanCreate(names, name)) ==> ok
    {
      var refused := Refuses();
      ok := !refused && CanCreate(names, name);
      if ok {
        catalog := catalog.(indexes := catalog.indexes[Fold(name) := Index(FoldAll(names), unique)]);
      }
    }

    /** ALTER TABLE ... DROP; a table keeps at least one column. Indexes on the column go with it. */
    method DropColumn(column: string) returns (ok: bool)
      modifies this`catalog
      ensures ok ==> Fold(column) in old(catalog.columns) && old(catalog.columns) != {Fold(column)}
      ensures catalog ==
              if ok then Catalog(old(catalog).columns - {Fold(column)}, Untouched(old(catalog).indexes, Fold(column)))
              else old(catalog)
      ensures reliable && Fold(column) in old(catalog.columns) && old(catalog.columns) != {Fold(column)} ==> ok
    {
      var refused := Refuses();
      ok := !refused && Fold(column) in catalog.columns && catalog.columns != {Fold(column)};
      if ok {
        catalog := Catalog(catalog.columns - {Fold(column)}, Untouched(catalog.indexes, Fold(column)));
      }
    }

    /** REORG TABLE after a dropped column: reads and rewrites the rows, not the catalog. */
    method ReorgTable() returns (ok: bool)
      ensures reliable ==> ok
    {
      var refused := Refuses();
      ok := !refused;
    }

    /** ALTER TABLE ... RENAME COLUMN. Indexes on the column follow it. */
    method AlterRename(column: string, other: string) returns (ok: bool)
      modifies this`catalog
      ensures ok ==> Fold(column) in old(catalog.columns) && Fold(other) !in old(catalog.columns)
      ensures catalog == if ok then ServerRenamed(old(catalog), Fold(column), Fold(other)) else old(catalog)
      ensures reliable && Fold(column) in old(catalog.columns) && Fold(other) !in old(catalog.columns) ==> ok
    {
      var refused := Refuses();
      ok := !refused && Fold(column) in catalog.columns && Fold(other) !in catalog.columns;
      if ok {
        catalog := ServerRenamed(catalog, Fold(column), Fold(other));
      }
    }
  }

  /** The indexes that leave a column out. */
  function Untouched(indexes: map<string, Index>, column: string): map<string, Index> {
    map n | n in indexes && column !in indexes[n].columns :: indexes[n]
  }

  function ServerRenamed(c: Catalog, column: string, other: string): Catalog {
    Catalog(c.columns - {column} + {other},
            map n | n in c.indexes :: Index(Replaced(c.indexes[n].columns, column, other), c.indexes[n].unique))
  }

  // ---------- the adapter's list ----------

  datatype IndexDefinition = IndexDefinition(name: string, columns: seq<string>, unique: bool)

  predicate Seen(list: seq<IndexDefinition>, n: nat, name: string)
    requires n <= |list|
  {
    exists i :: 0 <= i < n && list[i].name == name
  }

  /** The list holds every index once, in an order of the server's choosing. */
  ghost predicate Lists(list: seq<IndexDefinition>, indexes: map<string, Index>) {
    && (forall i :: 0 <= i < |list| ==>
          && list[i].name in indexes
          && indexes[list[i].name] == Index(list[i].columns, list[i].unique)
          && !Seen(list, i, list[i].name))
    && forall n | n in indexes :: Seen(list, |list|, n)
  }

  lemma SeenNext(list: seq<IndexDefinition>, n: nat, name: string)
    requires n < |list|
    ensures Seen(list, n + 1, name) <==> Seen(list, n, name) || list[n].name == name
  {
  }

  lemma SeenAppended(list: seq<IndexDefinition>, d: IndexDefinition, n: nat, name: string)
    requires n <= |list|
    ensures Seen(list + [d], n, name) == Seen(list, n, name)
  {
    assert forall i :: 0 <= i < n ==> (list + [d])[i] == list[i];
  }

  lemma ListedNext(list: seq<IndexDefinition>, listed: map<string, Index>, d: IndexDefinition)
    requires Lists(list, listed) && d.name !in listed
    ensures Lists(list + [d], listed[d.name := Index(d.columns, d.unique)])
  {
    var next, now := list + [d], listed[d.name := Index(d.columns, d.unique)];
    forall i | 0 <= i < |next| ensures next[i].name in now && now[next[i].name] == Index(next[i].columns, next[i].unique)
                                       && !Seen(next, i, next[i].name) {
      SeenAppended(list, d, i, next[i].name);
    }
    forall n | n in now ensures Seen(next, |next|, n) {
      SeenNext(next, |list|, n);
      SeenAppended(list, d, |list|, n);
    }
  }

  /** `indexes`. */
  method ListIndexes(t: Table) returns (list: seq<IndexDefinition>)
    ensures Lists(list, t.catalog.indexes)
  {
    var indexes := t.catalog.indexes;
    var rest := indexes.Keys;
    list := [];
    while rest != {}
      invariant rest <= indexes.Keys && Lists(list, indexes - rest)
      decreases rest
    {
      var n :| n in rest;
      var d := IndexDefinition(n, indexes[n].columns, indexes[n].unique);
      ListedNext(list, indexes - rest, d);
      assert indexes - (rest - {n}) == (indexes - rest)[n := indexes[n]];
      list, rest := list + [d], rest - {n};
    }
    assert indexes - {} == indexes;
  }

  // ---------- dropping ----------

  /** One pass of the loop below. */
  method DropOne(t: Table, d: IndexDefinition, column: string, ghost c: Catalog) returns (ok: bool)
    requires t.Valid() && Sound(c) && d.name in c.indexes && c.indexes[d.name].columns == d.columns
    requires d.name in t.catalog.indexes
    modifies t`catalog
    ensures t.Valid() && t.catalog.columns == old(t.catalog.columns)
    ensures t.catalog.indexes ==
            if ok && column in d.columns then old(t.catalog).indexes - {d.name} else old(t.catalog).indexes
    ensures t.reliable ==> ok
  {
    FoldedColumns(c, d.name);
    ok := true;
    if column in FoldAll(d.columns) {
      ok := t.DropIndex(d.name);
    }
  }

  /** Some of the indexes, each as it was. */
  ghost predicate SomeOf(indexes: map<string, Index>, now: map<string, Index>) {
    forall n :: n in now ==> n in indexes && now[n] == indexes[n]
  }

  /** The state of the loop below: of the first n definitions, those on the column are gone. */
  ghost predicate DroppedUpTo(c: Catalog, list: seq<IndexDefinition>, n: nat, column: string, now: map<string, Index>)
    requires n <= |list|
  {
    && (forall m :: m in now <==> m in c.indexes && (column in c.indexes[m].columns ==> !Seen(list, n, m)))
    && forall m :: m in now ==> now[m] == c.indexes[m]
  }

  lemma DroppedNext(c: Catalog, list: seq<IndexDefinition>, n: nat, column: string, now: map<string, Index>)
    requires n < |list| && Lists(list, c.indexes) && DroppedUpTo(c, list, n, column, now)
    ensures list[n].name in now
    ensures DroppedUpTo(c, list, n + 1, column, if column in list[n].columns then now - {list[n].name} else now)
  {
    forall m ensures Seen(list, n + 1, m) <==> Seen(list, n, m) || list[n].name == m {
      SeenNext(list, n, m);
    }
  }

  lemma DroppedAll(c: Catalog, list: seq<IndexDefinition>, n: nat, column: string, now: map<string, Index>)
    requires n <= |list| && Lists(list, c.indexes) && DroppedUpTo(c, list, n, column, now)
    ensures n == |list| ==> now == Untouched(c.indexes, column)
    ensures forall m :: m in now ==> m in c.indexes && now[m] == c.indexes[m]
    ensures forall m :: m in Untouched(c.indexes, column) ==> m in now
  {
  }

  /** `drop_column_indexes`. */
  method DropColumnIndexes(t: Table, list: seq<IndexDefinition>, columnName: string) returns (ok: bool)
    requires t.Valid() && Lists(list, t.catalog.indexes)
    modifies t`catalog
    ensures t.Valid() && t.catalog.columns == old(t.catalog.columns)
    ensures ok ==> t.catalog.indexes == Untouched(old(t.catalog.indexes), Fold(columnName))
    ensures SomeOf(old(t.catalog.indexes), t.catalog.indexes)
    ensures forall n :: n in Untouched(old(t.catalog.indexes), Fold(columnName)) ==> n in t.catalog.indexes
    ensures t.reliable ==> ok
  {
    ghost var c := t.catalog;
    var column := Fold(columnName);
    for i := 0 to |list|
      invariant t.Valid() && t.catalog.columns == c.columns
      invariant DroppedUpTo(c, list, i, column, t.catalog.indexes)
    {
      DroppedNext(c, list, i, column, t.catalog.indexes);
      var done := DropOne(t, list[i], column, c);
      if !done {
        DroppedAll(c, list, i, column, t.catalog.indexes);
        return false;
      }
    }
    ok := true;
    DroppedAll(c, list, |list|, column, t.catalog.indexes);
  }

  // ---------- removing a column ----------

  function Shrunk(ix: Index, column: string): Index {
    Index(Without(ix.columns, column), ix.unique)
  }

  /** What removing a column leaves: every index without it, and none of those left empty. */
  function Removed(c: Catalog, column: string): Catalog {
    Catalog(c.columns - {column},
            map n | n in c.indexes && Without(c.indexes[n].columns, column) != [] :: Shrunk(c.indexes[n], column))
  }

  /** An index without one of its columns: the others stand in their old order, and it is unique if it was. */
  ghost predicate ShrunkInOrder(ix: Index, column: string, now: Index) {
    && now.unique == ix.unique
    && (forall x :: x in now.columns <==> x in ix.columns && x != column)
    && Distinct(now.columns)
    && forall i, j :: 0 <= i < j < |now.columns| ==> FirstAt(ix.columns, now.columns[i]) < FirstAt(ix.columns, now.columns[j])
  }

  /** A table without one of its columns: an index over that column alone is gone, every other one is there, shrunk. */
  ghost predicate ShrunkCatalog(c: Catalog, column: string, now: Catalog) {
    && now.columns == c.columns - {column}
    && (forall n :: n in now.indexes <==> n in c.indexes && c.indexes[n].columns != [column])
    && forall n :: n in now.indexes ==> ShrunkInOrder(c.indexes[n], column, now.indexes[n])
  }

  /** The position in `names` of what stands at position i of the names without the column. */
  function Origin(names: seq<string>, column: string, i: nat): (k: nat)
    requires i < |Without(names, column)|
    ensures k < |names| && names[k] == Without(names, column)[i]
  {
    if names[0] == column then 1 + Origin(names[1..], column, i)
    else if i == 0 then 0
    else 1 + Origin(names[1..], column, i - 1)
  }

  lemma {:induction false} WithoutKeepsOrder(names: seq<string>, column: string, i: nat, j: nat)
    requires i < j < |Without(names, column)|
    ensures Origin(names, column, i) < Origin(names, column, j)
  {
    if names[0] == column {
      WithoutKeepsOrder(names[1..], column, i, j);
    } else if i > 0 {
      WithoutKeepsOrder(names[1..], column, i - 1, j - 1);
    }
  }

  lemma FirstIsOnly(names: seq<string>, k: nat)
    requires Distinct(names) && k < |names|
    ensures FirstAt(names, names[k]) == k
  {
  }

  lemma OnlyColumn(names: seq<string>, column: string)
    requires names != [] && Distinct(names)
    ensures Without(names, column) == [] <==> names == [column]
  {
    var r := Without(names, column);
    if r == [] {
      forall i | 0 <= i < |names| ensures names[i] == column {
        assert names[i] in names && names[i] !in r;
      }
    } else {
      assert r[0] in r;
    }
  }

  lemma RemovedInOrder(c: Catalog, column: string)
    requires Sound(c)
    ensures ShrunkCatalog(c, column, Removed(c, column))
  {
    forall n | n in c.indexes
      ensures Without(c.indexes[n].columns, column) == [] <==> c.indexes[n].columns == [column]
      ensures ShrunkInOrder(c.indexes[n], column, Shrunk(c.indexes[n], column))
    {
      OnlyColumn(c.indexes[n].columns, column);
      var r := Without(c.indexes[n].columns, column);
      WithoutKeeps(c.indexes[n].columns, column);
      forall i, j | 0 <= i < j < |r| ensures FirstAt(c.indexes[n].columns, r[i]) < FirstAt(c.indexes[n].columns, r[j]) {
        WithoutKeepsOrder(c.indexes[n].columns, column, i, j);
        FirstIsOnly(c.indexes[n].columns, Origin(c.indexes[n].columns, column, i));
        FirstIsOnly(c.indexes[n].columns, Origin(c.indexes[n].columns, column, j));
      }
    }
  }

  /** On the way there: indexes on the column are gone, or back in their shrunk form. */
  ghost predicate Between(c: Catalog, column: string, now: map<string, Index>) {
    && (forall n :: n in now ==> n in c.indexes && now[n] == Shrunk(c.indexes[n], column))
    && forall n :: n in Untouched(c.indexes, column) ==> n in now
  }

  lemma ShrunkIsIndexable(c: Catalog, n: string, column: string)
    requires Sound(c) && n in c.indexes
    ensures column !in c.indexes[n].columns ==> Shrunk(c.indexes[n], column) == c.indexes[n]
    ensures var rest := Without(c.indexes[n].columns, column);
            FoldAll(rest) == rest && (rest != [] ==> Indexable(c.columns - {column}, rest))
  {
    var names := c.indexes[n].columns;
    var rest := Without(names, column);
    WithoutKeeps(names, column);
    forall i | 0 <= i < |rest| ensures Fold(rest[i]) == rest[i] && rest[i] in c.columns - {column} {
      assert rest[i] in rest;
      assert rest[i] in names;
      assert Folded(rest[i]);
    }
  }

  /** One pass of the loop below. */
  method RecreateOne(t: Table, d: IndexDefinition, column: string, ghost c: Catalog) returns (ok: bool)
    requires Sound(c) && d.name in c.indexes && c.indexes[d.name] == Index(d.columns, d.unique)
    requires t.Valid() && t.catalog.columns == c.columns - {column}
    requires |d.name| <= t.limit && d.name !in t.elsewhere
    requires column in d.columns ==> d.name !in t.catalog.indexes
    modifies t`catalog
    ensures t.Valid() && t.catalog.columns == old(t.catalog.columns)
    ensures t.catalog.indexes ==
            if ok && column in d.columns && Without(d.columns, column) != []
            then old(t.catalog).indexes[d.name := Shrunk(c.indexes[d.name], column)]
            else old(t.catalog).indexes
    ensures t.reliable ==> ok
  {
    FoldedColumns(c, d.name);
    ShrunkIsIndexable(c, d.name, column);
    assert Folded(d.name);
    ok := true;
    var indexColumns := FoldAll(d.columns);
    if column in indexColumns {
      var remaining := Without(indexColumns, column);
      if remaining != [] {
        ok := t.AddIndex(remaining, d.name, d.unique);
      }
    }
  }

  /** `recreate_indexes_after_remove_column`. */
  method RecreateIndexesAfterRemoveColumn(t: Table, list: seq<IndexDefinition>, column: string, ghost c: Catalog)
    returns (ok: bool)
    requires Sound(c) && Lists(list, c.indexes) && Folded(column)
    requires forall n | n in c.indexes :: |n| <= t.limit && n !in t.elsewhere
    requires t.Valid() && t.catalog == Catalog(c.columns - {column}, Untouched(c.indexes, column))
    modifies t`catalog
    ensures t.Valid() && t.catalog.columns == c.columns - {column}
    ensures ok ==> t.catalog == Removed(c, column)
    ensures Between(c, column, t.catalog.indexes)
    ensures t.reliable ==> ok
  {
    UntouchedStay(c, column);
    for i := 0 to |list|
      invariant t.Valid() && t.catalog.columns == c.columns - {column}
      invariant Between(c, column, t.catalog.indexes)
      invariant forall n :: n in t.catalog.indexes <==>
                            && n in c.indexes
                            && (column in c.indexes[n].columns ==>
                                  Seen(list, i, n) && Without(c.indexes[n].columns, column) != [])
    {
      forall n ensures Seen(list, i + 1, n) <==> Seen(list, i, n) || list[i].name == n {
        SeenNext(list, i, n);
      }
      var done := RecreateOne(t, list[i], column, c);
      if !done {
        return false;
      }
    }
    ok := true;
    RecreatedAll(c, column, t.catalog.indexes);
  }

  lemma RecreatedAll(c: Catalog, column: string, now: map<string, Index>)
    requires Sound(c) && Between(c, column, now)
    requires forall n :: n in now <==>
                         n in c.indexes && (column in c.indexes[n].columns ==> Without(c.indexes[n].columns, column) != [])
    ensures now == Removed(c, column).indexes
  {
    forall n | n in c.indexes && column !in c.indexes[n].columns ensures Without(c.indexes[n].columns, column) != [] {
      WithoutKeeps(c.indexes[n].columns, column);
    }
  }

  datatype Outcome = Done | Skipped | DropRefused | AlterRefused | ReorgRefused | CreateRefused

  /** `remove_column`. */
  method RemoveColumn(t: Table, columnName: string, ifExists: bool) returns (outcome: Outcome)
    requires t.Valid()
    modifies t`catalog
    ensures t.Valid()
    ensures outcome.Skipped? <==> ifExists && columnName !in old(t.catalog.columns)
    ensures outcome.Done? ==> ShrunkCatalog(old(t.catalog), Fold(columnName), t.catalog)
    ensures outcome.Done? ==> t.catalog == Removed(old(t.catalog), Fold(columnName))
    ensures outcome.Skipped? ==> t.catalog == old(t.catalog)
    ensures outcome.DropRefused? ==> t.catalog.columns == old(t.catalog.columns)
    ensures outcome.DropRefused? ==> SomeOf(old(t.catalog).indexes, t.catalog.indexes)
    ensures outcome.AlterRefused? ==>
              t.catalog == old(t.catalog).(indexes := Untouched(old(t.catalog).indexes, Fold(columnName)))
    ensures outcome.ReorgRefused? ==>
              t.catalog == Catalog(old(t.catalog).columns - {Fold(columnName)},
                                   Untouched(old(t.catalog).indexes, Fold(columnName)))
    ensures outcome.CreateRefused? ==>
              && t.catalog.columns == old(t.catalog.columns) - {Fold(columnName)}
              && Between(old(t.catalog), Fold(columnName), t.catalog.indexes)
    ensures forall n :: n in old(t.catalog).indexes && Fold(columnName) !in old(t.catalog).indexes[n].columns ==>
                          n in t.catalog.indexes && t.catalog.indexes[n] == old(t.catalog).indexes[n]
    ensures t.reliable && !outcome.Skipped? ==>
              if Fold(columnName) in old(t.catalog.columns) && old(t.catalog.columns) != {Fold(columnName)}
              then outcome.Done? else outcome.AlterRefused?
  {
    if ifExists && columnName !in t.catalog.columns {
      return Skipped;
    }
    ghost var c := t.catalog;
    var normalized := Fold(columnName);
    FoldTwice(columnName);
    UntouchedStay(c, normalized);
    var list := ListIndexes(t);
    var dropped := DropColumnIndexes(t, list, normalized);
    if !dropped {
      return DropRefused;
    }
    var altered := t.DropColumn(columnName);
    if !altered {
      return AlterRefused;
    }
    assert Untouched(Untouched(c.indexes, normalized), normalized) == Untouched(c.indexes, normalized);
    assert t.catalog == Catalog(c.columns - {normalized}, Untouched(c.indexes, normalized));
    var reorganized := t.ReorgTable();
    if !reorganized {
      return ReorgRefused;
    }
    var recreated := RecreateIndexesAfterRemoveColumn(t, list, normalized, c);
    RemovedInOrder(c, normalized);
    outcome := if recreated then Done else CreateRefused;
  }

  lemma UntouchedStay(c: Catalog, column: string)
    requires Sound(c)
    ensures forall n :: n in Untouched(c.indexes, column) ==> Shrunk(c.indexes[n], column) == c.indexes[n]
    ensures Sound(Catalog(c.columns - {column}, Untouched(c.indexes, column)))
  {
    forall n | n in c.indexes && column !in c.indexes[n].columns
      ensures Shrunk(c.indexes[n], column) == c.indexes[n]
      ensures Indexable(c.columns - {column}, c.indexes[n].columns)
    {
      ShrunkIsIndexable(c, n, column);
    }
  }

  // ---------- renaming a column ----------

  /** The name under which an index is created again: a generated name is generated anew. */
  function NewName(generate: seq<string> -> string, n: string, names: seq<string>, column: string, other: string): string {
    if generate(names) == n then generate(Replaced(names, column, other)) else n
  }

  /** The name of an index once one of its columns is renamed, as the catalog shows it. */
  function NameAfter(generate: seq<string> -> string, c: Catalog, n: string, column: string, other: string): string
    requires n in c.indexes
  {
    var names := c.indexes[n].columns;
    if column in names && generate(names) == n then Fold(generate(Replaced(names, column, other))) else n
  }

  function Renamed(ix: Index, column: string, other: string): Index {
    Index(Replaced(ix.columns, column, other), ix.unique)
  }

  ghost predicate NamesDiffer(generate: seq<string> -> string, c: Catalog, column: string, other: string) {
    forall n, m | n in c.indexes && m in c.indexes && n != m ::
      NameAfter(generate, c, n, column, other) != NameAfter(generate, c, m, column, other)
  }

  /** What renaming a column leaves: the same indexes, the column replaced in its place, under names that differ. */
  ghost predicate IsRenamed(generate: seq<string> -> string, c: Catalog, column: string, other: string, now: Catalog) {
    && now.columns == c.columns - {column} + {Fold(other)}
    && NamesDiffer(generate, c, column, other)
    && now.indexes.Keys == (set n | n in c.indexes :: NameAfter(generate, c, n, column, other))
    && forall n :: n in c.indexes ==>
         now.indexes[NameAfter(generate, c, n, column, other)] == Renamed(c.indexes[n], column, Fold(other))
  }

  /** An index is found again: a name generated from its columns is generated anew, any other is kept; it has as many
      columns in the same places, the renamed one under its new name; and it is unique if it was. */
  ghost predicate FoundAgain(generate: seq<string> -> string, n: string, ix: Index, column: string, other: string,
                             now: map<string, Index>) {
    var names := seq(|ix.columns|, i requires 0 <= i < |ix.columns| => if ix.columns[i] == column then other else ix.columns[i]);
    var m := if column in ix.columns && generate(ix.columns) == n then Fold(generate(names)) else n;
    && m in now
    && now[m].unique == ix.unique
    && |now[m].columns| == |ix.columns|
    && forall i :: 0 <= i < |ix.columns| ==>
         now[m].columns[i] == if ix.columns[i] == column then Fold(other) else ix.columns[i]
  }

  lemma AllFoundAgain(generate: seq<string> -> string, c: Catalog, column: string, other: string, now: Catalog)
    requires IsRenamed(generate, c, column, other, now)
    ensures forall n :: n in c.indexes ==> FoundAgain(generate, n, c.indexes[n], column, other, now.indexes)
  {
    forall n | n in c.indexes ensures FoundAgain(generate, n, c.indexes[n], column, other, now.indexes) {
      var ix := c.indexes[n];
      var names := seq(|ix.columns|, i requires 0 <= i < |ix.columns| => if ix.columns[i] == column then other else ix.columns[i]);
      assert names == Replaced(ix.columns, column, other);
      assert NameAfter(generate, c, n, column, other) in now.indexes.Keys;
    }
  }

  // ---------- creating the indexes again ----------

  lemma ReplacedIsIndexable(c: Catalog, n: string, column: string, other: string)
    requires Sound(c) && n in c.indexes && Fold(other) !in c.columns
    ensures var names := Replaced(c.indexes[n].columns, column, other);
            && FoldAll(names) == Replaced(c.indexes[n].columns, column, Fold(other))
            && Indexable(c.columns - {column} + {Fold(other)}, FoldAll(names))
  {
    var names := c.indexes[n].columns;
    forall i | 0 <= i < |names| ensures Fold(names[i]) == names[i] && names[i] != Fold(other) {
      assert names[i] in c.columns;
      assert Folded(names[i]);
    }
    assert FoldAll(Replaced(names, column, other)) == Replaced(names, column, Fold(other));
  }

  /** Neither another table nor the limit stands in the way of the new name. */
  predicate Nameable(t: Table, c: Catalog, n: string, column: string, other: string)
    requires n in c.indexes
  {
    && NameAfter(t.generate, c, n, column, other) !in t.elsewhere
    && |NewName(t.generate, n, c.indexes[n].columns, column, other)| <= t.limit
  }

  /** The catalog's form of what CreateOne asks for. */
  lemma AskedFor(generate: seq<string> -> string, c: Catalog, n: string, column: string, other: string)
    requires Sound(c) && n in c.indexes && Fold(other) !in c.columns && column in c.indexes[n].columns
    ensures var names := c.indexes[n].columns;
            && FoldAll(names) == names
            && names[FirstAt(names, column) := other] == Replaced(names, column, other)
            && Fold(NewName(generate, n, names, column, other)) == NameAfter(generate, c, n, column, other)
            && FoldAll(Replaced(names, column, other)) == Replaced(names, column, Fold(other))
            && Indexable(c.columns - {column} + {Fold(other)}, FoldAll(Replaced(names, column, other)))
  {
    FoldedColumns(c, n);
    ReplacedIsIndexable(c, n, column, other);
    ReplacedAtOnePlace(c.indexes[n].columns, column, other);
    assert Folded(n);
  }

  /** One pass of the loop below. */
  method CreateOne(t: Table, d: IndexDefinition, column: string, other: string, ghost c: Catalog) returns (ok: bool)
    requires Sound(c) && d.name in c.indexes && c.indexes[d.name] == Index(d.columns, d.unique)
    requires t.Valid() && t.catalog.columns == c.columns - {column} + {Fold(other)} && Fold(other) !in c.columns
    modifies t`catalog
    ensures t.Valid() && t.catalog.columns == old(t.catalog.columns)
    ensures column !in d.columns ==> ok && t.catalog == old(t.catalog)
    ensures ok && column in d.columns ==>
              && Nameable(t, c, d.name, column, other)
              && NameAfter(t.generate, c, d.name, column, other) !in old(t.catalog.indexes)
              && t.catalog.indexes == old(t.catalog.indexes)[NameAfter(t.generate, c, d.name, column, other) :=
                                                             Renamed(c.indexes[d.name], column, Fold(other))]
    ensures !ok ==> t.catalog == old(t.catalog)
    ensures t.reliable && !ok ==>
              Nameable(t, c, d.name, column, other) ==>
                NameAfter(t.generate, c, d.name, column, other) in old(t.catalog.indexes)
  {
    FoldedColumns(c, d.name);
    var generated, custom, columns := t.generate(d.columns), d.name, d.columns;
    var indexColumns := FoldAll(d.columns);
    if column !in indexColumns {
      return true;
    }
    AskedFor(t.generate, c, d.name, column, other);
    var position := FirstAt(indexColumns, column);
    columns := columns[position := other];
    FoldTwice(if generated == custom then t.generate(columns) else custom);
    ok := t.AddIndex(columns, if generated == custom then t.generate(columns) else custom, d.unique);
  }

  /** An index that needs no work, or whose turn has come among the first k. */
  ghost predicate Settled(c: Catalog, list: seq<IndexDefinition>, k: nat, column: string, n: string)
    requires k <= |list|
  {
    n in c.indexes && (column in c.indexes[n].columns ==> Seen(list, k, n))
  }

  ghost predicate CreatedUpTo(generate: seq<string> -> string, c: Catalog, list: seq<IndexDefinition>, k: nat,
                              column: string, other: string, now: map<string, Index>)
    requires k <= |list|
  {
    && (forall n :: Settled(c, list, k, column, n) ==>
          && NameAfter(generate, c, n, column, other) in now
          && now[NameAfter(generate, c, n, column, other)] == Renamed(c.indexes[n], column, Fold(other)))
    && (forall m :: m in now ==>
          exists n :: Settled(c, list, k, column, n) && NameAfter(generate, c, n, column, other) == m)
    && forall n, m :: Settled(c, list, k, column, n) && Settled(c, list, k, column, m) && n != m ==>
         NameAfter(generate, c, n, column, other) != NameAfter(generate, c, m, column, other)
  }

  lemma CreatedNone(generate: seq<string> -> string, c: Catalog, list: seq<IndexDefinition>, column: string, other: string)
    ensures CreatedUpTo(generate, c, list, 0, column, other, Untouched(c.indexes, column))
  {
    forall n | n in c.indexes && column !in c.indexes[n].columns
      ensures Renamed(c.indexes[n], column, Fold(other)) == c.indexes[n] && Settled(c, list, 0, column, n)
    {
      assert Replaced(c.indexes[n].columns, column, Fold(other)) == c.indexes[n].columns;
    }
  }

  lemma SettledNext(c: Catalog, list: seq<IndexDefinition>, k: nat, column: string)
    requires k < |list| && Lists(list, c.indexes)
    ensures forall n :: Settled(c, list, k + 1, column, n) <==> Settled(c, list, k, column, n) || n == list[k].name
    ensures column in list[k].columns <==> !Settled(c, list, k, column, list[k].name)
  {
    forall n ensures Seen(list, k + 1, n) <==> Seen(list, k, n) || list[k].name == n {
      SeenNext(list, k, n);
    }
  }

  lemma CreatedNext(generate: seq<string> -> string, c: Catalog, list: seq<IndexDefinition>, k: nat,
                    column: string, other: string, now: map<string, Index>)
    requires k < |list| && Lists(list, c.indexes) && CreatedUpTo(generate, c, list, k, column, other, now)
    ensures var n, name := list[k].name, NameAfter(generate, c, list[k].name, column, other);
            if column !in list[k].columns then CreatedUpTo(generate, c, list, k + 1, column, other, now)
            else name !in now ==>
                   CreatedUpTo(generate, c, list, k + 1, column, other,
                               now[name := Renamed(c.indexes[n], column, Fold(other))])
  {
    SettledNext(c, list, k, column);
    if column in list[k].columns && NameAfter(generate, c, list[k].name, column, other) !in now {
      CreatedOne(generate, c, list, k, column, other, now);
    }
  }

  lemma CreatedOne(generate: seq<string> -> string, c: Catalog, list: seq<IndexDefinition>, k: nat,
                   column: string, other: string, now: map<string, Index>)
    requires k < |list| && list[k].name in c.indexes && CreatedUpTo(generate, c, list, k, column, other, now)
    requires forall n :: Settled(c, list, k + 1, column, n) <==> Settled(c, list, k, column, n) || n == list[k].name
    requires NameAfter(generate, c, list[k].name, column, other) !in now
    ensures CreatedUpTo(generate, c, list, k + 1, column, other,
                        now[NameAfter(generate, c, list[k].name, column, other) :=
                            Renamed(c.indexes[list[k].name], column, Fold(other))])
  {
    var name := NameAfter(generate, c, list[k].name, column, other);
    var next := now[name := Renamed(c.indexes[list[k].name], column, Fold(other))];
    forall n | Settled(c, list, k + 1, column, n) && n != list[k].name
      ensures NameAfter(generate, c, n, column, other) in now && NameAfter(generate, c, n, column, other) != name
    {
      assert Settled(c, list, k, column, n);
    }
    forall m | m in next
      ensures exists o :: Settled(c, list, k + 1, column, o) && NameAfter(generate, c, o, column, other) == m
    {
      if m == name {
        assert Settled(c, list, k + 1, column, list[k].name);
      } else {
        var o :| Settled(c, list, k, column, o) && NameAfter(generate, c, o, column, other) == m;
        assert Settled(c, list, k + 1, column, o);
      }
    }
  }

  /** A name that is taken is taken by an index already in place: two indexes want the same name. */
  lemma TakenName(generate: seq<string> -> string, c: Catalog, list: seq<IndexDefinition>, k: nat,
                  column: string, other: string, now: map<string, Index>)
    requires k < |list| && Lists(list, c.indexes) && CreatedUpTo(generate, c, list, k, column, other, now)
    requires column in list[k].columns && NameAfter(generate, c, list[k].name, column, other) in now
    ensures !NamesDiffer(generate, c, column, other)
  {
    SettledNext(c, list, k, column);
    var n :| Settled(c, list, k, column, n) &&
             NameAfter(generate, c, n, column, other) == NameAfter(generate, c, list[k].name, column, other);
    assert n != list[k].name;
  }

  /** The indexes so far, wherever the work stopped. */
  ghost predicate PartlyRenamed(generate: seq<string> -> string, c: Catalog, column: string, other: string,
                                now: map<string, Index>) {
    && (forall n :: n in Untouched(c.indexes, column) ==> n in now && now[n] == c.indexes[n])
    && forall m :: m in now ==> exists n :: n in c.indexes && NameAfter(generate, c, n, column, other) == m &&
                                            now[m] == Renamed(c.indexes[n], column, Fold(other))
  }

  lemma CreatedSoFar(generate: seq<string> -> string, c: Catalog, list: seq<IndexDefinition>, k: nat,
                     column: string, other: string, now: map<string, Index>)
    requires k <= |list| && CreatedUpTo(generate, c, list, k, column, other, now)
    ensures PartlyRenamed(generate, c, column, other, now)
  {
    forall n | n in Untouched(c.indexes, column) ensures n in now && now[n] == c.indexes[n] {
      assert Settled(c, list, k, column, n);
      assert Replaced(c.indexes[n].columns, column, Fold(other)) == c.indexes[n].columns;
    }
    forall m | m in now
      ensures exists n :: n in c.indexes && NameAfter(generate, c, n, column, other) == m &&
                          now[m] == Renamed(c.indexes[n], column, Fold(other))
    {
      var n :| Settled(c, list, k, column, n) && NameAfter(generate, c, n, column, other) == m;
    }
  }

  lemma CreatedAll(generate: seq<string> -> string, c: Catalog, list: seq<IndexDefinition>,
                   column: string, other: string, now: Catalog)
    requires Lists(list, c.indexes) && CreatedUpTo(generate, c, list, |list|, column, other, now.indexes)
    requires now.columns == c.columns - {column} + {Fold(other)}
    ensures IsRenamed(generate, c, column, other, now)
  {
    assert forall n :: Settled(c, list, |list|, column, n) <==> n in c.indexes;
  }

  /** No index is refused on account of its name. */
  ghost predicate NamesFree(t: Table, c: Catalog, column: string, other: string) {
    && NamesDiffer(t.generate, c, column, other)
    && forall n | n in c.indexes :: column in c.indexes[n].columns ==> Nameable(t, c, n, column, other)
  }

  /** The loop below, after k passes. */
  ghost predicate CreatedFreely(t: Table, c: Catalog, list: seq<IndexDefinition>, k: nat, column: string, other: string)
    requires k <= |list| && Lists(list, c.indexes)
  {
    forall j :: 0 <= j < k && column in list[j].columns ==> Nameable(t, c, list[j].name, column, other)
  }

  lemma AllCreatedFreely(t: Table, c: Catalog, list: seq<IndexDefinition>, column: string, other: string)
    requires Lists(list, c.indexes) && NamesDiffer(t.generate, c, column, other)
    requires CreatedFreely(t, c, list, |list|, column, other)
    ensures NamesFree(t, c, column, other)
  {
    forall n | n in c.indexes && column in c.indexes[n].columns ensures Nameable(t, c, n, column, other) {
      assert Seen(list, |list|, n);
    }
  }

  /** One pass of the loop below. */
  method CreateStep(t: Table, list: seq<IndexDefinition>, i: nat, column: string, other: string, ghost c: Catalog)
    returns (ok: bool)
    requires Sound(c) && i < |list| && Lists(list, c.indexes) && Fold(other) !in c.columns
    requires t.Valid() && t.catalog.columns == c.columns - {column} + {Fold(other)}
    requires CreatedUpTo(t.generate, c, list, i, column, other, t.catalog.indexes)
    requires CreatedFreely(t, c, list, i, column, other)
    modifies t`catalog
    ensures t.Valid() && t.catalog.columns == old(t.catalog.columns)
    ensures ok ==> CreatedUpTo(t.generate, c, list, i + 1, column, other, t.catalog.indexes)
    ensures ok ==> CreatedFreely(t, c, list, i + 1, column, other)
    ensures !ok ==> PartlyRenamed(t.generate, c, column, other, t.catalog.indexes)
    ensures !ok && t.reliable ==> !NamesFree(t, c, column, other)
  {
    ghost var now := t.catalog.indexes;
    CreatedNext(t.generate, c, list, i, column, other, now);
    ok := CreateOne(t, list[i], column, other, c);
    if !ok {
      StoppedShort(t, c, list, i, column, other, now);
    }
  }

  /** `create_column_indexes`. */
  method CreateColumnIndexes(t: Table, list: seq<IndexDefinition>, column: string, other: string, ghost c: Catalog)
    returns (ok: bool)
    requires Sound(c) && Lists(list, c.indexes) && Fold(other) !in c.columns
    requires t.Valid() && t.catalog == Catalog(c.columns - {column} + {Fold(other)}, Untouched(c.indexes, column))
    modifies t`catalog
    ensures t.Valid() && t.catalog.columns == old(t.catalog.columns)
    ensures ok ==> IsRenamed(t.generate, c, column, other, t.catalog) && NamesFree(t, c, column, other)
    ensures PartlyRenamed(t.generate, c, column, other, t.catalog.indexes)
    ensures t.reliable && NamesFree(t, c, column, other) ==> ok
  {
    CreatedNone(t.generate, c, list, column, other);
    for i := 0 to |list|
      invariant t.Valid() && t.catalog.columns == c.columns - {column} + {Fold(other)}
      invariant CreatedUpTo(t.generate, c, list, i, column, other, t.catalog.indexes)
      invariant CreatedFreely(t, c, list, i, column, other)
    {
      var done := CreateStep(t, list, i, column, other, c);
      if !done {
        return false;
      }
    }
    ok := true;
    CreatedSoFar(t.generate, c, list, |list|, column, other, t.catalog.indexes);
    CreatedAll(t.generate, c, list, column, other, t.catalog);
    AllCreatedFreely(t, c, list, column, other);
  }

  lemma StoppedShort(t: Table, c: Catalog, list: seq<IndexDefinition>, k: nat, column: string, other: string,
                     now: map<string, Index>)
    requires k < |list| && Lists(list, c.indexes) && CreatedUpTo(t.generate, c, list, k, column, other, now)
    requires column in list[k].columns
    ensures PartlyRenamed(t.generate, c, column, other, now)
    ensures NameAfter(t.generate, c, list[k].name, column, other) in now || !Nameable(t, c, list[k].name, column, other)
            ==> !NamesFree(t, c, column, other)
  {
    CreatedSoFar(t.generate, c, list, k, column, other, now);
    if NameAfter(t.generate, c, list[k].name, column, other) in now {
      TakenName(t.generate, c, list, k, column, other, now);
    }
  }

  lemma RenamedServer(c: Catalog, column: string, other: string)
    requires Sound(c) && Fold(other) !in c.columns
    ensures ServerRenamed(c.(indexes := Untouched(c.indexes, column)), column, Fold(other)) ==
            Catalog(c.columns - {column} + {Fold(other)}, Untouched(c.indexes, column))
    ensures Sound(Catalog(c.columns - {column} + {Fold(other)}, Untouched(c.indexes, column)))
  {
    FoldTwice(other);
    forall n | n in c.indexes && column !in c.indexes[n].columns
      ensures Replaced(c.indexes[n].columns, column, Fold(other)) == c.indexes[n].columns
      ensures Indexable(c.columns - {column} + {Fold(other)}, c.indexes[n].columns)
    {
    }
  }

  /** `rename_column`, without its unique constraints and foreign keys. */
  method RenameColumn(t: Table, columnName: string, newColumnName: string) returns (outcome: Outcome)
    requires t.Valid()
    modifies t`catalog
    ensures t.Valid() && !outcome.Skipped? && !outcome.ReorgRefused?
    ensures outcome.Done? ==>
              IsRenamed(t.generate, old(t.catalog), Fold(Unquoted(columnName)), Unquoted(newColumnName), t.catalog)
    ensures outcome.Done? ==>
              forall n :: n in old(t.catalog).indexes ==>
                FoundAgain(t.generate, n, old(t.catalog).indexes[n], Fold(Unquoted(columnName)), Unquoted(newColumnName),
                           t.catalog.indexes)
    ensures outcome.DropRefused? ==> t.catalog.columns == old(t.catalog.columns)
    ensures outcome.DropRefused? ==> SomeOf(old(t.catalog).indexes, t.catalog.indexes)
    ensures outcome.AlterRefused? ==>
              t.catalog == old(t.catalog).(indexes := Untouched(old(t.catalog).indexes, Fold(Unquoted(columnName))))
    ensures outcome.CreateRefused? ==>
              && t.catalog.columns == old(t.catalog.columns) - {Fold(Unquoted(columnName))} + {Fold(Unquoted(newColumnName))}
              && PartlyRenamed(t.generate, old(t.catalog), Fold(Unquoted(columnName)), Unquoted(newColumnName), t.catalog.indexes)
    ensures forall n :: n in old(t.catalog).indexes && Fold(Unquoted(columnName)) !in old(t.catalog).indexes[n].columns ==>
                          n in t.catalog.indexes && t.catalog.indexes[n] == old(t.catalog).indexes[n]
    ensures t.reliable ==>
              if Fold(Unquoted(columnName)) !in old(t.catalog.columns) || Fold(Unquoted(newColumnName)) in old(t.catalog.columns)
              then outcome.AlterRefused?
              else outcome ==
                   if NamesFree(t, old(t.catalog), Fold(Unquoted(columnName)), Unquoted(newColumnName)) then Done else CreateRefused
  {
    var from, other := Unquoted(columnName), Unquoted(newColumnName);
    ghost var c := t.catalog;
    var column := Fold(from);
    var list := ListIndexes(t);
    var dropped := DropColumnIndexes(t, list, from);
    if !dropped {
      return DropRefused;
    }
    var altered := t.AlterRename(from, other);
    if !altered {
      return AlterRefused;
    }
    RenamedServer(c, column, other);
    var created := CreateColumnIndexes(t, list, column, other, c);
    if created {
      AllFoundAgain(t.generate, c, column, other, t.catalog);
    }
    outcome := if created then Done else CreateRefused;
  }

  // ---------- there and back ----------

  lemma RenamedBack(c: Catalog, n: string, column: string, other: string, back: string)
    requires Sound(c) && n in c.indexes && other !in c.columns
    ensures Renamed(Renamed(c.indexes[n], column, other), other, column) == c.indexes[n]
    ensures var names := c.indexes[n].columns;
            && Replaced(Replaced(names, column, other), other, back) == Replaced(names, column, back)
            && (column in names <==> other in Replaced(names, column, other))
  {
    var names := c.indexes[n].columns;
    var now := Replaced(names, column, other);
    assert forall i :: 0 <= i < |names| ==> names[i] in c.columns;
    assert Replaced(now, other, column) == names;
    if column in names {
      assert now[FirstAt(names, column)] == other;
    }
  }

  /** The name of an index after a column was renamed to `other` and renamed `back`. */
  function NameBack(generate: seq<string> -> string, c: Catalog, n: string, column: string, other: string, back: string): string
    requires n in c.indexes
  {
    var names, between := c.indexes[n].columns, NameAfter(generate, c, n, column, other);
    if column in names && generate(Replaced(names, column, Fold(other))) == between
    then Fold(generate(Replaced(names, column, back)))
    else between
  }

  lemma NameThereAndBack(generate: seq<string> -> string, c: Catalog, c1: Catalog, n: string,
                         column: string, other: string, back: string)
    requires Sound(c) && n in c.indexes && Fold(other) !in c.columns && IsRenamed(generate, c, column, other, c1)
    ensures NameAfter(generate, c, n, column, other) in c1.indexes
    ensures NameAfter(generate, c1, NameAfter(generate, c, n, column, other), Fold(other), back) ==
            NameBack(generate, c, n, column, other, back)
  {
    RenamedBack(c, n, column, Fold(other), back);
    assert NameAfter(generate, c, n, column, other) in c1.indexes.Keys;
  }

  lemma IndexThereAndBack(generate: seq<string> -> string, c: Catalog, c1: Catalog, c2: Catalog, n: string,
                          column: string, other: string, back: string)
    requires Sound(c) && column in c.columns && Fold(other) !in c.columns && Fold(back) == column
    requires IsRenamed(generate, c, column, other, c1) && IsRenamed(generate, c1, Fold(other), back, c2)
    requires n in c.indexes
    ensures var n2 := NameBack(generate, c, n, column, other, back); n2 in c2.indexes && c2.indexes[n2] == c.indexes[n]
  {
    var n1 := NameAfter(generate, c, n, column, other);
    NameThereAndBack(generate, c, c1, n, column, other, back);
    RenamedBack(c, n, column, Fold(other), back);
    assert NameAfter(generate, c1, n1, Fold(other), back) in c2.indexes.Keys;
  }

  lemma ComesFrom(generate: seq<string> -> string, c: Catalog, c1: Catalog, c2: Catalog, n2: string,
                  column: string, other: string, back: string) returns (n: string)
    requires Sound(c) && column in c.columns && Fold(other) !in c.columns && Fold(back) == column
    requires IsRenamed(generate, c, column, other, c1) && IsRenamed(generate, c1, Fold(other), back, c2)
    requires n2 in c2.indexes
    ensures n in c.indexes && NameBack(generate, c, n, column, other, back) == n2
  {
    assert n2 in c2.indexes.Keys;
    var n1 :| n1 in c1.indexes && NameAfter(generate, c1, n1, Fold(other), back) == n2;
    assert n1 in c1.indexes.Keys;
    n :| n in c.indexes && NameAfter(generate, c, n, column, other) == n1;
    NameThereAndBack(generate, c, c1, n, column, other, back);
  }

  /** Every index there and back. */
  ghost predicate AllBack(generate: seq<string> -> string, c: Catalog, column: string, other: string, back: string,
                          now: Catalog) {
    forall n {:trigger NameBack(generate, c, n, column, other, back)} :: n in c.indexes ==>
      var m := NameBack(generate, c, n, column, other, back); m in now.indexes && now.indexes[m] == c.indexes[n]
  }

  ghost predicate NoneNew(generate: seq<string> -> string, c: Catalog, column: string, other: string, back: string,
                          now: Catalog) {
    forall m :: m in now.indexes ==> exists n :: n in c.indexes && NameBack(generate, c, n, column, other, back) == m
  }

  ghost predicate BackNamesDiffer(generate: seq<string> -> string, c: Catalog, column: string, other: string, back: string) {
    forall n, m | n in c.indexes && m in c.indexes && n != m ::
      NameBack(generate, c, n, column, other, back) != NameBack(generate, c, m, column, other, back)
  }

  lemma ColumnsAreBack(c: Catalog, c1: Catalog, c2: Catalog, column: string, other: string, back: string)
    requires column in c.columns && Fold(other) !in c.columns && Fold(back) == column
    requires c1.columns == c.columns - {column} + {Fold(other)} && c2.columns == c1.columns - {Fold(other)} + {Fold(back)}
    ensures c2.columns == c.columns
  {
  }

  lemma IndexesAreBack(generate: seq<string> -> string, c: Catalog, c1: Catalog, c2: Catalog,
                       column: string, other: string, back: string)
    requires Sound(c) && column in c.columns && Fold(other) !in c.columns && Fold(back) == column
    requires IsRenamed(generate, c, column, other, c1) && IsRenamed(generate, c1, Fold(other), back, c2)
    ensures AllBack(generate, c, column, other, back, c2)
  {
    forall n | n in c.indexes
      ensures var m := NameBack(generate, c, n, column, other, back); m in c2.indexes && c2.indexes[m] == c.indexes[n]
    {
      IndexThereAndBack(generate, c, c1, c2, n, column, other, back);
    }
  }

  lemma NoIndexIsNew(generate: seq<string> -> string, c: Catalog, c1: Catalog, c2: Catalog,
                     column: string, other: string, back: string)
    requires Sound(c) && column in c.columns && Fold(other) !in c.columns && Fold(back) == column
    requires IsRenamed(generate, c, column, other, c1) && IsRenamed(generate, c1, Fold(other), back, c2)
    ensures NoneNew(generate, c, column, other, back, c2)
  {
    forall m | m in c2.indexes ensures exists n :: n in c.indexes && NameBack(generate, c, n, column, other, back) == m {
      var n := ComesFrom(generate, c, c1, c2, m, column, other, back);
    }
  }

  lemma BackNamesStayApart(generate: seq<string> -> string, c: Catalog, c1: Catalog, c2: Catalog,
                           column: string, other: string, back: string)
    requires Sound(c) && column in c.columns && Fold(other) !in c.columns && Fold(back) == column
    requires IsRenamed(generate, c, column, other, c1) && IsRenamed(generate, c1, Fold(other), back, c2)
    ensures BackNamesDiffer(generate, c, column, other, back)
  {
    forall n, m | n in c.indexes && m in c.indexes && n != m
      ensures NameBack(generate, c, n, column, other, back) != NameBack(generate, c, m, column, other, back)
    {
      var n1, m1 := NameAfter(generate, c, n, column, other), NameAfter(generate, c, m, column, other);
      NameThereAndBack(generate, c, c1, n, column, other, back);
      NameThereAndBack(generate, c, c1, m, column, other, back);
      assert n1 != m1;
    }
  }

  /** Every index on the column has its old name again. Of an index whose columns generate its name: the new columns
      generate the new name and the old ones the old, in the catalog's form. Of any other: its new columns
      do not generate its name, or else its old ones generate it in the catalog's form. */
  ghost predicate NamesComeBack(generate: seq<string> -> string, c: Catalog, column: string, other: string, back: string) {
    forall n | n in c.indexes :: NameBack(generate, c, n, column, other, back) == n
  }

  /** The first renaming of a name x among indexes over the same columns: g is the name those generate, r the one they
      generate afterwards. */
  function There(on: bool, g: string, r: string, x: string): string {
    if on && g == x then r else x
  }

  /** Both renamings: h is the name the renamed columns generate, k the one the columns generate once renamed back. */
  function AndBack(on: bool, g: string, r: string, h: string, k: string, x: string): string {
    if on && h == There(on, g, r, x) then k else There(on, g, r, x)
  }

  lemma NoRotation(on: bool, g: string, r: string, h: string, k: string, n: string, m: string, p: string)
    requires m == AndBack(on, g, r, h, k, n) && p == AndBack(on, g, r, h, k, m)
    requires n != m ==> There(on, g, r, n) != There(on, g, r, m) && AndBack(on, g, r, h, k, n) != AndBack(on, g, r, h, k, m)
    requires n != p ==> There(on, g, r, n) != There(on, g, r, p)
    requires m != p ==> There(on, g, r, m) != There(on, g, r, p)
    ensures m == n
  {
  }

  lemma NamesThere(generate: seq<string> -> string, c: Catalog, x: string, names: seq<string>,
                   column: string, other: string, back: string)
    requires x in c.indexes && c.indexes[x].columns == names
    ensures var on, g, r := column in names, generate(names), Fold(generate(Replaced(names, column, other)));
            var h, k := generate(Replaced(names, column, Fold(other))), Fold(generate(Replaced(names, column, back)));
            && NameAfter(generate, c, x, column, other) == There(on, g, r, x)
            && NameBack(generate, c, x, column, other, back) == AndBack(on, g, r, h, k, x)
  {
  }

  lemma SameColumnsNoRotation(generate: seq<string> -> string, c: Catalog, n: string, m: string, p: string, names: seq<string>,
                              column: string, other: string, back: string)
    requires NamesDiffer(generate, c, column, other) && BackNamesDiffer(generate, c, column, other, back)
    requires n in c.indexes && m in c.indexes && p in c.indexes
    requires c.indexes[n].columns == c.indexes[m].columns == c.indexes[p].columns == names
    requires m == NameBack(generate, c, n, column, other, back) && p == NameBack(generate, c, m, column, other, back)
    ensures m == n
  {
    NamesThere(generate, c, n, names, column, other, back);
    NamesThere(generate, c, m, names, column, other, back);
    NamesThere(generate, c, p, names, column, other, back);
    NoRotation(column in names, generate(names), Fold(generate(Replaced(names, column, other))),
               generate(Replaced(names, column, Fold(other))), Fold(generate(Replaced(names, column, back))), n, m, p);
  }

  /** If the indexes are the same again, none has swapped its name with another. */
  lemma NamesDoNotRotate(generate: seq<string> -> string, c: Catalog, n: string, column: string, other: string, back: string)
    requires n in c.indexes && NamesDiffer(generate, c, column, other) && BackNamesDiffer(generate, c, column, other, back)
    requires AllBack(generate, c, column, other, back, c)
    ensures NameBack(generate, c, n, column, other, back) == n
  {
    var m := NameBack(generate, c, n, column, other, back);
    var p := NameBack(generate, c, m, column, other, back);
    SameColumnsNoRotation(generate, c, n, m, p, c.indexes[n].columns, column, other, back);
  }

  lemma RestoredMeansBack(generate: seq<string> -> string, c: Catalog, column: string, other: string, back: string)
    requires NamesDiffer(generate, c, column, other) && BackNamesDiffer(generate, c, column, other, back)
    requires AllBack(generate, c, column, other, back, c)
    ensures NamesComeBack(generate, c, column, other, back)
  {
    forall n | n in c.indexes ensures NameBack(generate, c, n, column, other, back) == n {
      NamesDoNotRotate(generate, c, n, column, other, back);
    }
  }

  lemma BackMeansRestored(generate: seq<string> -> string, c: Catalog, c2: Catalog, column: string, other: string, back: string)
    requires c2.columns == c.columns && NamesComeBack(generate, c, column, other, back)
    requires AllBack(generate, c, column, other, back, c2) && NoneNew(generate, c, column, other, back, c2)
    ensures c2 == c
  {
    assert c2.indexes == c.indexes;
  }

  lemma BackIsRestoredIff(generate: seq<string> -> string, c: Catalog, c2: Catalog, column: string, other: string, back: string)
    requires c2.columns == c.columns && NamesDiffer(generate, c, column, other)
    requires AllBack(generate, c, column, other, back, c2) && NoneNew(generate, c, column, other, back, c2)
    requires BackNamesDiffer(generate, c, column, other, back)
    ensures c2 == c <==> NamesComeBack(generate, c, column, other, back)
  {
    if NamesComeBack(generate, c, column, other, back) {
      BackMeansRestored(generate, c, c2, column, other, back);
    } else if c2 == c {
      RestoredMeansBack(generate, c, column, other, back);
    }
  }

  /** Renaming a column and renaming it back, by whatever spellings of the two names, restores the table exactly
      when every index name comes back. */
  lemma RenamingBackRestoresIff(generate: seq<string> -> string, c: Catalog, c1: Catalog, c2: Catalog,
                                column: string, other: string, back: string)
    requires Sound(c) && column in c.columns && Fold(other) !in c.columns && Fold(back) == column
    requires IsRenamed(generate, c, column, other, c1) && IsRenamed(generate, c1, Fold(other), back, c2)
    ensures c2 == c <==> NamesComeBack(generate, c, column, other, back)
  {
    ColumnsAreBack(c, c1, c2, column, other, back);
    IndexesAreBack(generate, c, c1, c2, column, other, back);
    NoIndexIsNew(generate, c, c1, c2, column, other, back);
    BackNamesStayApart(generate, c, c1, c2, column, other, back);
    BackIsRestoredIff(generate, c, c2, column, other, back);
  }

  // ---------- lower-case tables ----------

  predicate AllFolded(names: seq<string>) {
    forall i :: 0 <= i < |names| ==> Folded(names[i])
  }

  /** Names generated from columns in the catalog's form are in the catalog's form, as on a lower-case table. */
  ghost predicate GeneratesFolded(generate: seq<string> -> string) {
    forall names :: AllFolded(names) ==> Folded(generate(names))
  }

  lemma GeneratedIsFolded(generate: seq<string> -> string, c: Catalog, n: string, column: string, other: string)
    requires Sound(c) && n in c.indexes && Folded(other) && GeneratesFolded(generate)
    ensures Folded(generate(c.indexes[n].columns)) && Folded(generate(Replaced(c.indexes[n].columns, column, other)))
  {
    var names := c.indexes[n].columns;
    forall i | 0 <= i < |names| ensures Folded(names[i]) {
      assert names[i] in c.columns;
    }
    assert AllFolded(names) && AllFolded(Replaced(names, column, other));
  }

  /** No index was given by hand the name its columns would generate after the renaming. */
  ghost predicate NoNameAnticipated(generate: seq<string> -> string, c: Catalog, column: string, other: string) {
    forall n | n in c.indexes :: column in c.indexes[n].columns && generate(c.indexes[n].columns) != n ==>
      generate(Replaced(c.indexes[n].columns, column, other)) != n
  }

  lemma OneNameComesBackIff(generate: seq<string> -> string, c: Catalog, n: string, column: string, other: string)
    requires Sound(c) && n in c.indexes && Folded(other) && GeneratesFolded(generate)
    ensures NameBack(generate, c, n, column, other, column) == n <==>
            (column in c.indexes[n].columns && generate(c.indexes[n].columns) != n ==>
               generate(Replaced(c.indexes[n].columns, column, other)) != n)
  {
    GeneratedIsFolded(generate, c, n, column, other);
    assert Replaced(c.indexes[n].columns, column, column) == c.indexes[n].columns;
  }

  /** On a lower-case table, and with lower-case names, every name comes back exactly when none was anticipated. */
  lemma NamesComeBackIff(generate: seq<string> -> string, c: Catalog, column: string, other: string)
    requires Sound(c) && Folded(other) && GeneratesFolded(generate)
    ensures NamesComeBack(generate, c, column, other, column) <==> NoNameAnticipated(generate, c, column, other)
  {
    forall n | n in c.indexes
      ensures NameBack(generate, c, n, column, other, column) == n <==>
              (column in c.indexes[n].columns && generate(c.indexes[n].columns) != n ==>
                 generate(Replaced(c.indexes[n].columns, column, other)) != n)
    {
      OneNameComesBackIff(generate, c, n, column, other);
    }
  }

  // ---------- counterexamples ----------

  /** Default names of a table with the columns "a" and "b". */
  function ByColumn(names: seq<string>): string {
    if names == ["a"] then "on_a" else if names == ["b"] then "on_b" else "on_more"
  }

  lemma PlainNames()
    ensures Folded("a") && Folded("b") && Folded("on_a") && Folded("on_b")
  {
    assert "on_a"[1..] == "n_a" && "n_a"[1..] == "_a" && "_a"[1..] == "a";
    assert "on_b"[1..] == "n_b" && "n_b"[1..] == "_b" && "_b"[1..] == "b";
    assert Fold("a") == "a" && Fold("_a") == "_a" && Fold("n_a") == "n_a";
    assert Fold("b") == "b" && Fold("_b") == "_b" && Fold("n_b") == "n_b";
  }

  /** Renaming "a" to "b" wants the name "on_b" for the index generated over "a", and leaves it with the one that
      was given it by hand. */
  lemma TwoIndexesWantOneName()
    ensures var c := Catalog({"a"}, map["on_a" := Index(["a"], false), "on_b" := Index(["a"], true)]);
            Sound(c) && !NamesDiffer(ByColumn, c, "a", "b")
  {
    var c := Catalog({"a"}, map["on_a" := Index(["a"], false), "on_b" := Index(["a"], true)]);
    PlainNames();
    assert Replaced(["a"], "a", "b") == ["b"];
    assert NameAfter(ByColumn, c, "on_a", "a", "b") == "on_b" == NameAfter(ByColumn, c, "on_b", "a", "b");
  }

  /** An index over "a" was named "on_b" by hand. After renaming "a" to "b" and back it is named "on_a". */
  lemma AnticipatedNameIsLost()
    ensures var ix, jx := Index(["a"], true), Index(["b"], true);
            var c, c1, c2 := Catalog({"a"}, map["on_b" := ix]), Catalog({"b"}, map["on_b" := jx]), Catalog({"a"}, map["on_a" := ix]);
            && Sound(c) && IsRenamed(ByColumn, c, "a", "b", c1) && IsRenamed(ByColumn, c1, "b", "a", c2) && c2 != c
  {
    var ix, jx := Index(["a"], true), Index(["b"], true);
    var c, c1, c2 := Catalog({"a"}, map["on_b" := ix]), Catalog({"b"}, map["on_b" := jx]), Catalog({"a"}, map["on_a" := ix]);
    PlainNames();
    assert Replaced(["a"], "a", "b") == ["b"] && Replaced(["b"], "b", "a") == ["a"];
    assert NameAfter(ByColumn, c, "on_b", "a", "b") == "on_b";
    assert NameAfter(ByColumn, c1, "on_b", "b", "a") == "on_a";
    assert "on_b" in c.indexes && "on_b" !in c2.indexes;
  }
}
