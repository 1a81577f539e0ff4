/** Regrouping the rows of the foreign-key catalog into one definition per constraint
    (ibm_db_adapter.rb, `foreign_keys`). */
module ForeignKeys {
  import opened Options
  import opened Sequences

  /** One catalog row: a column of a constraint and the column it references. */
  datatype Row = Row(fromTable: string, toTable: string, name: string, column: string, primaryKey: string,
                     onUpdate: Option<string>, onDelete: Option<string>)

  /** A column option: a name, or an array of names once a second row has been merged in. */
  datatype Columns = One(name: string) | Many(names: seq<string>)

  datatype Definition = Definition(fromTable: string, toTable: string, name: string,
                                   column: Columns, primaryKey: Columns,
                                   onUpdate: Option<string>, onDelete: Option<string>)

  function FromRow(r: Row): Definition {
    Definition(r.fromTable, r.toTable, r.name, One(r.column), One(r.primaryKey), r.onUpdate, r.onDelete)
  }

  /** A row joins the definition of its constraint; the second row turns names into arrays and drops the actions. */
  function Merge(d: Definition, r: Row): Definition {
    if d.column.Many? && d.primaryKey.Many? then
      d.(column := Many(d.column.names + [r.column]), primaryKey := Many(d.primaryKey.names + [r.primaryKey]))
    else if d.column.One? && d.primaryKey.One? then
      Definition(d.fromTable, d.toTable, d.name, Many([d.column.name, r.column]),
                 Many([d.primaryKey.name, r.primaryKey]), None, None)
    else d
  }

  // ---------- grouping by name ----------

  /** The constraint names in order of first appearance. */
  function Names(rows: seq<Row>): seq<string> {
    if rows == [] then []
    else
      var names, last := Names(rows[..|rows| - 1]), rows[|rows| - 1].name;
      if last in names then names else names + [last]
  }

  /** The rows of one constraint, in catalog order. */
  function RowsOf(rows: seq<Row>, name: string): seq<Row> {
    if rows == [] then []
    else RowsOf(rows[..|rows| - 1], name) + if rows[|rows| - 1].name == name then [rows[|rows| - 1]] else []
  }

  function ColumnsOf(rows: seq<Row>): seq<string> {
    seq(|rows|, i requires 0 <= i < |rows| => rows[i].column)
  }

  function PrimaryKeysOf(rows: seq<Row>): seq<string> {
    seq(|rows|, i requires 0 <= i < |rows| => rows[i].primaryKey)
  }

  /** The definition of a constraint from all its rows: columns and referenced columns side by side in row
      order; the actions survive only in a constraint of one row. */
  function Combined(rows: seq<Row>): Definition
    requires rows != []
  {
    if |rows| == 1 then FromRow(rows[0])
    else Definition(rows[0].fromTable, rows[0].toTable, rows[0].name,
                    Many(ColumnsOf(rows)), Many(PrimaryKeysOf(rows)), None, None)
  }

  /** One definition for each name. */
  ghost predicate GroupsByName(rows: seq<Row>, ds: seq<Definition>) {
    var names := Names(rows);
    && |ds| == |names|
    && forall i :: 0 <= i < |ds| ==>
         RowsOf(rows, names[i]) != [] && ds[i] == Combined(RowsOf(rows, names[i])) && ds[i].name == names[i]
  }

  lemma {:induction false} NamesAreDistinct(rows: seq<Row>)
    ensures Distinct(Names(rows))
  {
    if rows == [] {
    } else {
      var before, last := Names(rows[..|rows| - 1]), rows[|rows| - 1].name;
      NamesAreDistinct(rows[..|rows| - 1]);
      assert last !in before ==> Distinct(before + [last]);
    }
  }

  lemma {:induction false} RowsKeepName(rows: seq<Row>, name: string)
    ensures forall i :: 0 <= i < |RowsOf(rows, name)| ==> RowsOf(rows, name)[i].name == name
    ensures name in Names(rows) <==> RowsOf(rows, name) != []
  {
    if rows == [] {
    } else {
      RowsKeepName(rows[..|rows| - 1], name);
    }
  }

  lemma MergeCombines(rows: seq<Row>, r: Row)
    requires rows != []
    ensures Merge(Combined(rows), r) == Combined(rows + [r])
  {
    assert ColumnsOf(rows + [r]) == ColumnsOf(rows) + [r.column];
    assert PrimaryKeysOf(rows + [r]) == PrimaryKeysOf(rows) + [r.primaryKey];
    if |rows| == 1 {
      assert ColumnsOf(rows + [r]) == [rows[0].column, r.column];
      assert PrimaryKeysOf(rows + [r]) == [rows[0].primaryKey, r.primaryKey];
    }
  }

  lemma NextRow(rows: seq<Row>, r: Row, name: string)
    ensures Names(rows + [r]) == if r.name in Names(rows) then Names(rows) else Names(rows) + [r.name]
    ensures RowsOf(rows + [r], name) == if r.name == name then RowsOf(rows, name) + [r] else RowsOf(rows, name)
  {
    assert (rows + [r])[..|rows|] == rows;
  }

  /** A row whose constraint has been seen changes that definition only. */
  lemma MergedIn(rows: seq<Row>, ds: seq<Definition>, r: Row, k: nat)
    requires GroupsByName(rows, ds) && k < |ds| && ds[k].name == r.name
    ensures GroupsByName(rows + [r], ds[k := Merge(ds[k], r)])
  {
    var names := Names(rows);
    NamesAreDistinct(rows);
    NextRow(rows, r, r.name);
    MergeCombines(RowsOf(rows, r.name), r);
    forall i | 0 <= i < |names|
      ensures RowsOf(rows + [r], names[i]) == if i == k then RowsOf(rows, names[i]) + [r] else RowsOf(rows, names[i])
    {
      NextRow(rows, r, names[i]);
    }
  }

  /** A row of a new constraint opens a definition behind all others. */
  lemma AddedBehind(rows: seq<Row>, ds: seq<Definition>, r: Row)
    requires GroupsByName(rows, ds) && forall i :: 0 <= i < |ds| ==> ds[i].name != r.name
    ensures GroupsByName(rows + [r], ds + [FromRow(r)])
  {
    var names, names' := Names(rows), Names(rows + [r]);
    assert r.name !in names;
    RowsKeepName(rows, r.name);
    NextRow(rows, r, r.name);
    forall i | 0 <= i < |names| ensures RowsOf(rows + [r], names[i]) == RowsOf(rows, names[i]) {
      NextRow(rows, r, names[i]);
    }
    assert names' == names + [r.name];
    assert RowsOf(rows + [r], r.name) == [r];
  }

  /** The merging loops of `foreign_keys`. */
  method GroupRows(rows: seq<Row>) returns (foreignKeys: seq<Definition>)
    ensures GroupsByName(rows, foreignKeys)
    ensures forall k :: 0 <= k < |rows| ==> IsHeld(foreignKeys, rows, k)
  {
    foreignKeys := [];
    for n := 0 to |rows|
      invariant GroupsByName(rows[..n], foreignKeys)
    {
      var row := rows[n];
      var comb := false;
      assert rows[..n + 1] == rows[..n] + [row];
      if |foreignKeys| > 0 {
        var ind := 0;
        while ind < |foreignKeys|
          invariant 0 <= ind <= |foreignKeys| && !comb
          invariant forall k :: 0 <= k < ind ==> foreignKeys[k].name != row.name
          invariant GroupsByName(rows[..n], foreignKeys)
        {
          if foreignKeys[ind].name == row.name {
            MergedIn(rows[..n], foreignKeys, row, ind);
            foreignKeys := foreignKeys[ind := Merge(foreignKeys[ind], row)];
            comb := true;
            break;
          }
          ind := ind + 1;
        }
        if !comb {
          AddedBehind(rows[..n], foreignKeys, row);
          foreignKeys := foreignKeys + [FromRow(row)];
        }
      } else {
        AddedBehind(rows[..n], foreignKeys, row);
        foreignKeys := foreignKeys + [FromRow(row)];
      }
    }
    assert rows[..|rows|] == rows;
    forall k | 0 <= k < |rows| ensures IsHeld(foreignKeys, rows, k) {
      EveryRowIsHeld(rows, foreignKeys, k);
    }
  }

  // ---------- where a row is found again ----------

  /** How many of the first k rows belong to a constraint. */
  ghost function Earlier(rows: seq<Row>, k: nat, name: string): nat
    requires k <= |rows|
  {
    if k == 0 then 0 else Earlier(rows, k - 1, name) + if rows[k - 1].name == name then 1 else 0
  }

  /** The definition of the k-th row's constraint: that row with its actions if it is the only one; otherwise, without
      actions, arrays that have its two columns at the place which the row has among its constraint's,
      and the tables of the first of them. */
  ghost predicate HoldsRow(d: Definition, rows: seq<Row>, k: nat)
    requires k < |rows|
  {
    var r, at, count := rows[k], Earlier(rows, k, rows[k].name), Earlier(rows, |rows|, rows[k].name);
    && d.name == r.name
    && if count == 1 then
         d == Definition(r.fromTable, r.toTable, r.name, One(r.column), One(r.primaryKey), r.onUpdate, r.onDelete)
       else
         && d.column.Many? && d.primaryKey.Many? && d.onUpdate == d.onDelete == None
         && at < |d.column.names| == |d.primaryKey.names| == count
         && d.column.names[at] == r.column && d.primaryKey.names[at] == r.primaryKey
         && (at == 0 ==> d.fromTable == r.fromTable && d.toTable == r.toTable)
  }

  ghost predicate IsHeld(ds: seq<Definition>, rows: seq<Row>, k: nat)
    requires k < |rows|
  {
    exists i :: 0 <= i < |ds| && HoldsRow(ds[i], rows, k)
  }

  lemma GroupGrows(rows: seq<Row>, n: nat, name: string)
    requires n < |rows|
    ensures RowsOf(rows[..n + 1], name) == RowsOf(rows[..n], name) + if rows[n].name == name then [rows[n]] else []
  {
    assert rows[..n + 1] == rows[..n] + [rows[n]];
    NextRow(rows[..n], rows[n], name);
  }

  lemma {:induction false} GroupSize(rows: seq<Row>, n: nat, name: string)
    requires n <= |rows|
    ensures |RowsOf(rows[..n], name)| == Earlier(rows, n, name)
    decreases n
  {
    if n > 0 {
      GroupSize(rows, n - 1, name);
      GroupGrows(rows, n - 1, name);
    }
  }

  lemma {:induction false} PlaceInGroup(rows: seq<Row>, k: nat, n: nat)
    requires k < n <= |rows|
    ensures var group, at := RowsOf(rows[..n], rows[k].name), Earlier(rows, k, rows[k].name);
            at < |group| && group[at] == rows[k]
    decreases n
  {
    GroupGrows(rows, n - 1, rows[k].name);
    if k == n - 1 {
      GroupSize(rows, k, rows[k].name);
    } else {
      PlaceInGroup(rows, k, n - 1);
    }
  }

  /** Every row is found again in the definition of its constraint. */
  lemma EveryRowIsHeld(rows: seq<Row>, ds: seq<Definition>, k: nat)
    requires GroupsByName(rows, ds) && k < |rows|
    ensures IsHeld(ds, rows, k)
  {
    var name := rows[k].name;
    var group := RowsOf(rows, name);
    assert rows[..|rows|] == rows;
    GroupSize(rows, |rows|, name);
    PlaceInGroup(rows, k, |rows|);
    RowsKeepName(rows, name);
    var i :| 0 <= i < |Names(rows)| && Names(rows)[i] == name;
    assert ds[i] == Combined(group);
    assert HoldsRow(ds[i], rows, k);
  }

  // ---------- what grouping keeps ----------

  /** Position of the first row of a constraint. */
  function FirstRow(rows: seq<Row>, name: string): nat {
    if rows == [] || rows[0].name == name then 0 else 1 + FirstRow(rows[1..], name)
  }

  lemma {:induction false} FirstRowOfPrefix(rows: seq<Row>, r: Row, name: string)
    ensures FirstRow(rows, name) <= |rows|
    ensures FirstRow(rows, name) < |rows| ==> FirstRow(rows + [r], name) == FirstRow(rows, name)
    ensures FirstRow(rows, name) == |rows| && r.name == name ==> FirstRow(rows + [r], name) == |rows|
  {
    if rows == [] {
      assert rows + [r] == [r];
    } else {
      FirstRowOfPrefix(rows[1..], r, name);
      assert (rows + [r])[1..] == rows[1..] + [r];
    }
  }

  lemma {:induction false} FirstRowFound(rows: seq<Row>, name: string)
    ensures FirstRow(rows, name) < |rows| <==> name in Names(rows)
  {
    if rows == [] {
    } else {
      var init, r := rows[..|rows| - 1], rows[|rows| - 1];
      FirstRowFound(init, name);
      FirstRowOfPrefix(init, r, name);
      assert rows == init + [r];
      if FirstRow(init, name) == |init| && r.name != name {
        NotFirst(init, r, name);
      }
    }
  }

  lemma {:induction false} NotFirst(rows: seq<Row>, r: Row, name: string)
    requires FirstRow(rows, name) == |rows| && r.name != name
    ensures FirstRow(rows + [r], name) == |rows| + 1
  {
    if rows == [] {
      assert rows + [r] == [r] && [r][1..] == [];
    } else {
      NotFirst(rows[1..], r, name);
      assert (rows + [r])[1..] == rows[1..] + [r];
    }
  }

  /** The names stand in the order in which the rows first mention them. */
  lemma {:induction false} NamesInFirstAppearanceOrder(rows: seq<Row>, i: nat, j: nat)
    requires i < j < |Names(rows)|
    ensures FirstRow(rows, Names(rows)[i]) < FirstRow(rows, Names(rows)[j]) < |rows|
  {
    var init, r := rows[..|rows| - 1], rows[|rows| - 1];
    assert rows == init + [r];
    var a, b := Names(rows)[i], Names(rows)[j];
    FirstRowOfPrefix(init, r, a);
    FirstRowOfPrefix(init, r, b);
    FirstRowFound(init, a);
    FirstRowFound(init, b);
    if j < |Names(init)| {
      NamesInFirstAppearanceOrder(init, i, j);
    }
  }

  /** One row as it can be found again in the result. */
  datatype Entry = Entry(name: string, column: string, primaryKey: string)

  function EntryOf(r: Row): Entry {
    Entry(r.name, r.column, r.primaryKey)
  }

  function Entries(rows: seq<Row>): seq<Entry> {
    if rows == [] then [] else Entries(rows[..|rows| - 1]) + [EntryOf(rows[|rows| - 1])]
  }

  /** The entries a definition stands for, position by position. */
  function EntriesIn(d: Definition): seq<Entry> {
    match (d.column, d.primaryKey)
    case (One(c), One(p)) => [Entry(d.name, c, p)]
    case (Many(cs), Many(ps)) =>
      if |cs| == |ps| then seq(|cs|, i requires 0 <= i < |cs| => Entry(d.name, cs[i], ps[i])) else []
    case _ => []
  }

  function AllEntries(ds: seq<Definition>): seq<Entry> {
    if ds == [] then [] else AllEntries(ds[..|ds| - 1]) + EntriesIn(ds[|ds| - 1])
  }

  lemma {:induction false} EntriesAre(rows: seq<Row>)
    ensures Entries(rows) == seq(|rows|, i requires 0 <= i < |rows| => EntryOf(rows[i]))
  {
    if rows == [] {
    } else {
      EntriesAre(rows[..|rows| - 1]);
    }
  }

  lemma {:induction false} CombinedKeepsRows(rows: seq<Row>, name: string)
    requires rows != [] && forall i :: 0 <= i < |rows| ==> rows[i].name == name
    ensures EntriesIn(Combined(rows)) == Entries(rows)
  {
    EntriesAre(rows);
    if |rows| == 1 {
      assert Entries(rows) == [EntryOf(rows[0])];
    } else {
      SeveralRows(rows, name);
    }
  }

  lemma SeveralRows(rows: seq<Row>, name: string)
    requires |rows| > 1 && forall i :: 0 <= i < |rows| ==> rows[i].name == name
    ensures EntriesIn(Combined(rows)) == seq(|rows|, i requires 0 <= i < |rows| => EntryOf(rows[i]))
  {
    assert |ColumnsOf(rows)| == |PrimaryKeysOf(rows)| == |rows|;
    assert forall i :: 0 <= i < |rows| ==> EntriesIn(Combined(rows))[i] == EntryOf(rows[i]);
  }

  /** The entries of the groups of a list of names. */
  function Grouped(rows: seq<Row>, names: seq<string>): seq<Entry> {
    if names == [] then [] else Grouped(rows, names[..|names| - 1]) + Entries(RowsOf(rows, names[|names| - 1]))
  }

  lemma {:induction false} GroupedNext(rows: seq<Row>, r: Row, names: seq<string>)
    requires Distinct(names)
    ensures multiset(Grouped(rows + [r], names)) ==
            if r.name in names then multiset(Grouped(rows, names)) + multiset{EntryOf(r)}
            else multiset(Grouped(rows, names))
  {
    if names == [] {
    } else {
      var before, last := names[..|names| - 1], names[|names| - 1];
      assert names == before + [last] && Distinct(before) && last !in before;
      GroupedNext(rows, r, before);
      GroupedLast(rows, r, before, last);
    }
  }

  lemma GroupedLast(rows: seq<Row>, r: Row, before: seq<string>, last: string)
    requires last !in before
    requires multiset(Grouped(rows + [r], before)) ==
             if r.name in before then multiset(Grouped(rows, before)) + multiset{EntryOf(r)}
             else multiset(Grouped(rows, before))
    ensures multiset(Grouped(rows + [r], before + [last])) ==
            if r.name in before + [last] then multiset(Grouped(rows, before + [last])) + multiset{EntryOf(r)}
            else multiset(Grouped(rows, before + [last]))
  {
    GroupNext(rows, r, last);
    MultisetOfGroups(rows, before, last);
    MultisetOfGroups(rows + [r], before, last);
    SumGrows(multiset(Grouped(rows, before)), multiset(Grouped(rows + [r], before)), multiset(Entries(RowsOf(rows, last))),
             multiset(Entries(RowsOf(rows + [r], last))), EntryOf(r), r.name in before, r.name == last);
    assert r.name in before + [last] <==> r.name in before || r.name == last;
  }

  lemma SumGrows(g: multiset<Entry>, g': multiset<Entry>, h: multiset<Entry>, h': multiset<Entry>, e: Entry, inG: bool, inH: bool)
    requires g' == (if inG then g + multiset{e} else g) && h' == (if inH then h + multiset{e} else h) && !(inG && inH)
    ensures g' + h' == if inG || inH then g + h + multiset{e} else g + h
  {
  }

  lemma MultisetOfGroups(rows: seq<Row>, names: seq<string>, name: string)
    ensures multiset(Grouped(rows, names + [name])) ==
            multiset(Grouped(rows, names)) + multiset(Entries(RowsOf(rows, name)))
  {
    assert (names + [name])[..|names|] == names;
  }

  lemma GroupNext(rows: seq<Row>, r: Row, name: string)
    ensures multiset(Entries(RowsOf(rows + [r], name))) ==
            if r.name == name then multiset(Entries(RowsOf(rows, name))) + multiset{EntryOf(r)}
            else multiset(Entries(RowsOf(rows, name)))
  {
    NextRow(rows, r, name);
    EntriesSnoc(RowsOf(rows, name), r);
  }

  lemma EntriesSnoc(rows: seq<Row>, r: Row)
    ensures Entries(rows + [r]) == Entries(rows) + [EntryOf(r)]
  {
    assert (rows + [r])[..|rows|] == rows;
  }

  lemma {:induction false} GroupingIsPermutation(rows: seq<Row>)
    ensures multiset(Grouped(rows, Names(rows))) == multiset(Entries(rows))
  {
    if rows == [] {
    } else {
      var init, r := rows[..|rows| - 1], rows[|rows| - 1];
      assert rows == init + [r];
      GroupingIsPermutation(init);
      NamesAreDistinct(init);
      GroupedNext(init, r, Names(init));
      if r.name !in Names(init) {
        RowsKeepName(init, r.name);
        NextRow(init, r, r.name);
        EntriesSnoc(RowsOf(init, r.name), r);
        assert Names(rows)[..|Names(init)|] == Names(init);
        assert Entries(RowsOf(init, r.name)) == [];
      }
    }
  }

  lemma NextEntries(ds: seq<Definition>, n: nat)
    requires n < |ds|
    ensures AllEntries(ds[..n + 1]) == AllEntries(ds[..n]) + EntriesIn(ds[n])
  {
    assert ds[..n + 1][..n] == ds[..n];
  }

  lemma NextGroup(rows: seq<Row>, names: seq<string>, n: nat)
    requires n < |names|
    ensures Grouped(rows, names[..n + 1]) == Grouped(rows, names[..n]) + Entries(RowsOf(rows, names[n]))
  {
    assert names[..n + 1][..n] == names[..n];
  }

  lemma GroupEntries(rows: seq<Row>, ds: seq<Definition>, i: nat)
    requires GroupsByName(rows, ds) && i < |ds|
    ensures EntriesIn(ds[i]) == Entries(RowsOf(rows, Names(rows)[i]))
  {
    RowsKeepName(rows, Names(rows)[i]);
    CombinedKeepsRows(RowsOf(rows, Names(rows)[i]), Names(rows)[i]);
  }

  lemma {:induction false} AllEntriesAreGrouped(rows: seq<Row>, ds: seq<Definition>, names: seq<string>, n: nat)
    requires n <= |ds| == |names|
    requires forall i :: 0 <= i < n ==> EntriesIn(ds[i]) == Entries(RowsOf(rows, names[i]))
    ensures AllEntries(ds[..n]) == Grouped(rows, names[..n])
    decreases n
  {
    if n == 0 {
    } else {
      AllEntriesAreGrouped(rows, ds, names, n - 1);
      NextEntries(ds, n - 1);
      NextGroup(rows, names, n - 1);
    }
  }

  /** No row is lost, duplicated or torn apart: the definitions hold exactly the rows' (constraint, column,
      referenced column) triples. */
  lemma GroupingConservesRows(rows: seq<Row>, ds: seq<Definition>)
    requires GroupsByName(rows, ds)
    ensures multiset(AllEntries(ds)) == multiset(Entries(rows))
  {
    forall i | 0 <= i < |ds| ensures EntriesIn(ds[i]) == Entries(RowsOf(rows, Names(rows)[i])) {
      GroupEntries(rows, ds, i);
    }
    AllEntriesAreGrouped(rows, ds, Names(rows), |ds|);
    assert ds[..|ds|] == ds && Names(rows)[..|ds|] == Names(rows);
    GroupingIsPermutation(rows);
  }
}
