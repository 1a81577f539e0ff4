/** Building the Ruby rows of fetch_array, fetch_assoc and fetch_both (ibm_db.c, `strtolower`, `strtoupper`,
    `_ruby_ibm_db_bind_fetch_helper`). */
module Fetch {
  import opened Options
  import opened Strings

  // ---------- column names ----------

  datatype CaseMode = CaseNatural | CaseLower | CaseUpper

  function CaseOf(mode: CaseMode, c: char): char {
    match mode
    case CaseNatural => c
    case CaseLower => Lower(c)
    case CaseUpper => Upper(c)
  }

  function Cased(mode: CaseMode, name: string): string {
    seq(|name|, i requires 0 <= i < |name| => CaseOf(mode, name[i]))
  }

  lemma CasedTwice(mode: CaseMode, name: string)
    ensures Cased(mode, Cased(mode, name)) == Cased(mode, name)
  {
  }

  function AllCased(mode: CaseMode, names: seq<string>): seq<string> {
    seq(|names|, i requires 0 <= i < |names| => Cased(mode, names[i]))
  }

  lemma AllCasedTwice(mode: CaseMode, names: seq<string>)
    ensures AllCased(mode, AllCased(mode, names)) == AllCased(mode, names)
  {
    forall i | 0 <= i < |names| ensures Cased(mode, Cased(mode, names[i])) == Cased(mode, names[i]) {
      CasedTwice(mode, names[i]);
    }
  }

  /** Lower case leaves no capital, upper case no small letter, and both change letters only. */
  lemma CasedFully(name: string)
    ensures Cased(CaseNatural, name) == name
    ensures forall i :: 0 <= i < |name| ==> !('A' <= Cased(CaseLower, name)[i] <= 'Z')
    ensures forall i :: 0 <= i < |name| ==> !('a' <= Cased(CaseUpper, name)[i] <= 'z')
    ensures forall i :: 0 <= i < |name| && !('A' <= name[i] <= 'Z') ==> Cased(CaseLower, name)[i] == name[i]
    ensures forall i :: 0 <= i < |name| && !('a' <= name[i] <= 'z') ==> Cased(CaseUpper, name)[i] == name[i]
    ensures Cased(CaseUpper, Cased(CaseLower, name)) == Cased(CaseUpper, name)
  {
    forall i | 0 <= i < |name| ensures Upper(Lower(name[i])) == Upper(name[i]) {
    }
  }

  /** `strtolower` and `strtoupper`: the buffer is folded in place, from its end. */
  method FoldCase(data: array<char>, length: int, mode: CaseMode)
    requires length <= data.Length && !mode.CaseNatural?
    modifies data
    ensures forall k :: 0 <= k < data.Length ==>
                          data[k] == if k < length then CaseOf(mode, old(data[k])) else old(data[k])
  {
    if length > 0 {
      var max := length;
      while max > 0
        invariant 0 <= max <= length
        invariant forall k :: 0 <= k < data.Length ==>
                                data[k] == if max <= k < length then CaseOf(mode, old(data[k])) else old(data[k])
      {
        max := max - 1;
        data[max] := if mode.CaseLower? then Lower(data[max]) else Upper(data[max]);
      }
    }
  }

  // ---------- rows ----------

  /** What a bound column buffer holds; `Unsupported` for a column type without a case of its own. */
  datatype Cell = NullCell | Characters(text: string) | Bytes(text: string) | Number(n: int) | Float(x: real)
                | DecimalText(text: string) | Unsupported

  datatype Value = Nil | Str(text: string) | Int(n: int) | Real(x: real) | BigDecimal(text: string)

  function ValueOf(cell: Cell, passThrough: bool): Option<Value> {
    match cell
    case NullCell => Some(Nil)
    case Characters(text) => Some(Str(text))
    case Bytes(text) => Some(Str(if passThrough then "" else text))
    case Number(n) => Some(Int(n))
    case Float(x) => Some(Real(x))
    case DecimalText(text) => Some(BigDecimal(text))
    case Unsupported => None
  }

  /** The Ruby value that a fetch answers for a cell; nil where nothing was stored. */
  ghost predicate Shows(cell: Cell, passThrough: bool, v: Value) {
    match cell
    case NullCell => v == Nil
    case Characters(text) => v == Str(text)
    case Bytes(text) => if passThrough then v == Str("") else v == Str(text)
    case Number(n) => v == Int(n)
    case Float(x) => v == Real(x)
    case DecimalText(text) => v == BigDecimal(text)
    case Unsupported => v == Nil
  }

  datatype Key = Name(name: string) | Position(i: int)

  datatype Row = ArrayRow(elements: seq<Value>) | HashRow(entries: map<Key, Value>)

  const FETCH_INDEX := 1
  const FETCH_ASSOC := 2
  const FETCH_BOTH := 3

  /** `op & FETCH_ASSOC`. */
  predicate WantsNames(op: int) {
    op / FETCH_ASSOC % 2 == 1
  }

  /** Storing into a Ruby array, padded with nil up to the position. */
  function Stored(elements: seq<Value>, i: nat, v: Value): seq<Value> {
    if i < |elements| then elements[i := v]
    else elements + seq(i - |elements|, k => Nil) + [v]
  }

  /** Ruby's `row[key]`: nil when there is nothing there. */
  function At(row: Row, key: Key): Value {
    match row
    case ArrayRow(elements) => if key.Position? && 0 <= key.i < |elements| then elements[key.i] else Nil
    case HashRow(entries) => if key in entries then entries[key] else Nil
  }

  function Values(row: seq<Cell>, passThrough: bool): seq<Option<Value>> {
    seq(|row|, i requires 0 <= i < |row| => ValueOf(row[i], passThrough))
  }

  /** The last of the first n columns of that name that stores a value. */
  function LastNamed(names: seq<string>, values: seq<Option<Value>>, n: nat, name: string): Value
    requires n <= |names| == |values|
  {
    if n == 0 then Nil
    else if names[n - 1] == name && values[n - 1].Some? then values[n - 1].value
    else LastNamed(names, values, n - 1, name)
  }

  function ValueAt(values: seq<Option<Value>>, i: int): Value {
    if 0 <= i < |values| && values[i].Some? then values[i].value else Nil
  }

  predicate NameStored(names: seq<string>, values: seq<Option<Value>>, n: nat, name: string)
    requires n <= |names| == |values|
  {
    exists i :: 0 <= i < n && names[i] == name && values[i].Some?
  }

  /** The array of the first n columns: every stored value at its column's position. */
  ghost predicate IsArrayOf(elements: seq<Value>, values: seq<Option<Value>>, n: nat)
    requires n <= |values|
  {
    && |elements| <= n
    && (forall i :: 0 <= i < n ==> (if i < |elements| then elements[i] else Nil) == ValueAt(values, i))
    && ((forall i :: 0 <= i < n ==> values[i].Some?) ==> |elements| == n)
  }

  /** The hash of the first n columns: under each name the last value of that name; under each position, if
      positions are wanted, the value there; and no other keys. */
  ghost predicate IsHashOf(entries: map<Key, Value>, names: seq<string>, values: seq<Option<Value>>, n: nat,
                           positions: bool)
    requires n <= |names| == |values|
  {
    && (forall name :: Name(name) in entries <==> NameStored(names, values, n, name))
    && (forall name :: Name(name) in entries ==> entries[Name(name)] == LastNamed(names, values, n, name))
    && (forall i :: Position(i) in entries <==> positions && 0 <= i < n && values[i].Some?)
    && forall i :: Position(i) in entries ==> entries[Position(i)] == ValueAt(values, i)
  }

  ghost predicate IsRow(row: Row, op: int, names: seq<string>, values: seq<Option<Value>>)
    requires |names| == |values|
  {
    match row
    case ArrayRow(elements) => op == FETCH_INDEX && IsArrayOf(elements, values, |values|)
    case HashRow(entries) => WantsNames(op) && IsHashOf(entries, names, values, |values|, op == FETCH_BOTH)
  }

  lemma NextElement(elements: seq<Value>, values: seq<Option<Value>>, n: nat)
    requires n < |values| && IsArrayOf(elements, values, n)
    ensures IsArrayOf(if values[n].Some? then Stored(elements, n, values[n].value) else elements, values, n + 1)
  {
    if values[n].Some? {
      var next := Stored(elements, n, values[n].value);
      assert forall i :: 0 <= i < n ==> next[i] == if i < |elements| then elements[i] else Nil;
    }
  }

  lemma NextEntry(entries: map<Key, Value>, names: seq<string>, values: seq<Option<Value>>, n: nat, positions: bool)
    requires n < |names| == |values| && IsHashOf(entries, names, values, n, positions)
    ensures var named := if values[n].Some? then entries[Name(names[n]) := values[n].value] else entries;
            IsHashOf(if positions && values[n].Some? then named[Position(n) := values[n].value] else named,
                     names, values, n + 1, positions)
  {
    forall name
      ensures NameStored(names, values, n + 1, name) <==>
              NameStored(names, values, n, name) || (names[n] == name && values[n].Some?)
    {
    }
  }

  /** The row under construction, its first n columns stored. */
  ghost predicate Building(op: int, elements: seq<Value>, entries: map<Key, Value>, names: seq<string>,
                           values: seq<Option<Value>>, n: nat)
    requires n <= |names| == |values|
  {
    if op == FETCH_INDEX then IsArrayOf(elements, values, n)
    else IsHashOf(entries, names, values, n, op == FETCH_BOTH)
  }

  /** The three stores made for a column of any type. */
  function StoreColumn(op: int, elements: seq<Value>, entries: map<Key, Value>, colName: string, value: Option<Value>,
                       i: nat): (seq<Value>, map<Key, Value>)
  {
    match value
    case None => (elements, entries)
    case Some(v) =>
      var named := if WantsNames(op) then entries[Name(colName) := v] else entries;
      if op == FETCH_INDEX then (Stored(elements, i, v), named)
      else if op == FETCH_BOTH then (elements, named[Position(i) := v])
      else (elements, named)
  }

  lemma StoreBuilds(op: int, elements: seq<Value>, entries: map<Key, Value>, names: seq<string>,
                    values: seq<Option<Value>>, i: nat)
    requires FETCH_INDEX <= op <= FETCH_BOTH && i < |names| == |values|
    requires Building(op, elements, entries, names, values, i)
    ensures var next := StoreColumn(op, elements, entries, names[i], values[i], i);
            Building(op, next.0, next.1, names, values, i + 1)
  {
    if op == FETCH_INDEX {
      NextElement(elements, values, i);
    } else {
      NextEntry(entries, names, values, i, op == FETCH_BOTH);
    }
  }

  lemma NothingBuilt(op: int, names: seq<string>, values: seq<Option<Value>>)
    requires |names| == |values|
    ensures Building(op, [], map[], names, values, 0)
  {
  }

  function Finished(op: int, elements: seq<Value>, entries: map<Key, Value>, ghost names: seq<string>,
                    ghost values: seq<Option<Value>>): (row: Row)
    requires FETCH_INDEX <= op <= FETCH_BOTH && |names| == |values|
    requires Building(op, elements, entries, names, values, |values|)
    ensures IsRow(row, op, names, values)
  {
    if WantsNames(op) then HashRow(entries) else ArrayRow(elements)
  }

  class StatementResult {
    const names: seq<array<char>>
    var caseMode: CaseMode
    var passThrough: bool

    /** The name buffers are separate. */
    ghost predicate Valid() {
      forall i, j :: 0 <= i < j < |names| ==> names[i] != names[j]
    }

    ghost function Buffers(): set<array<char>> {
      set i | 0 <= i < |names| :: names[i]
    }

    ghost function ColumnNames(): (r: seq<string>)
      reads Buffers()
      ensures |r| == |names|
    {
      FirstNames(|names|)
    }

    ghost function FirstNames(n: nat): (r: seq<string>)
      requires n <= |names|
      reads Buffers()
      ensures |r| == n
    {
      if n == 0 then [] else FirstNames(n - 1) + [names[n - 1][..]]
    }

    lemma {:induction false} NamesAre(n: nat)
      requires n <= |names|
      ensures forall i :: 0 <= i < n ==> FirstNames(n)[i] == names[i][..]
    {
      if n > 0 {
        NamesAre(n - 1);
      }
    }

    /** The folding of one name buffer. */
    method FoldName(i: nat) returns (colName: string)
      requires Valid() && i < |names|
      modifies names[i]
      ensures colName == Cased(caseMode, old(ColumnNames()[i]))
      ensures ColumnNames() == old(ColumnNames())[i := colName]
    {
      NamesAre(|names|);
      if !caseMode.CaseNatural? {
        FoldCase(names[i], names[i].Length, caseMode);
      }
      NamesAre(|names|);
      colName := names[i][..];
    }

    ghost predicate FoldedUpTo(before: seq<string>, target: seq<string>, n: nat)
      reads Buffers()
    {
      && |before| == |target| == |names|
      && forall j :: 0 <= j < |names| ==> ColumnNames()[j] == if j < n then target[j] else before[j]
    }

    /** One pass of the loop below. */
    method FetchColumn(op: int, i: nat, cell: Cell, elements: seq<Value>, entries: map<Key, Value>,
                       ghost before: seq<string>, ghost target: seq<string>, ghost values: seq<Option<Value>>)
      returns (elements': seq<Value>, entries': map<Key, Value>)
      requires Valid() && i < |names| == |before| == |values| && values[i] == ValueOf(cell, passThrough)
      requires target == AllCased(caseMode, before)
      requires FETCH_INDEX <= op <= FETCH_BOTH && FoldedUpTo(before, target, i)
      requires Building(op, elements, entries, target, values, i)
      modifies names[i]
      ensures FoldedUpTo(before, target, i + 1)
      ensures Building(op, elements', entries', target, values, i + 1)
    {
      ghost var folded := ColumnNames();
      assert folded[i] == before[i];
      var colName := FoldName(i);
      assert colName == target[i] && ColumnNames() == folded[i := colName];
      StoreBuilds(op, elements, entries, target, values, i);
      var next := StoreColumn(op, elements, entries, colName, ValueOf(cell, passThrough), i);
      elements', entries' := next.0, next.1;
    }

    /** `_ruby_ibm_db_bind_fetch_helper`, once the row is in the column buffers. */
    method FetchRow(op: int, cells: seq<Cell>) returns (row: Row)
      requires Valid() && |cells| == |names| && FETCH_INDEX <= op <= FETCH_BOTH
      modifies Buffers()
      ensures ColumnNames() == AllCased(caseMode, old(ColumnNames()))
      ensures IsRow(row, op, ColumnNames(), Values(cells, passThrough))
      ensures RowShows(row, op, ColumnNames(), cells, passThrough)
    {
      var elements: seq<Value>, entries: map<Key, Value> := [], map[];
      ghost var values, before := Values(cells, passThrough), ColumnNames();
      ghost var target := AllCased(caseMode, before);
      NothingBuilt(op, target, values);
      for i := 0 to |names|
        invariant FoldedUpTo(before, target, i)
        invariant Building(op, elements, entries, target, values, i)
      {
        elements, entries := FetchColumn(op, i, cells[i], elements, entries, before, target, values);
      }
      assert ColumnNames() == target;
      row := Finished(op, elements, entries, target, values);
      RowShowsCells(row, op, target, cells, passThrough);
    }

    /** The three fetches of one row on one handle, in this order: by position fetch_both answers like fetch_array, by
        name like fetch_assoc, and under both for the last column of a name. */
    method FetchThreeWays(cells: seq<Cell>) returns (indexed: Row, assoc: Row, both: Row)
      requires Valid() && |cells| == |names|
      modifies Buffers()
      ensures forall i :: At(both, Position(i)) == At(indexed, Position(i)) == ValueAt(Values(cells, passThrough), i)
      ensures forall name :: At(both, Name(name)) == At(assoc, Name(name))
                             == LastNamed(AllCased(caseMode, old(ColumnNames())), Values(cells, passThrough), |cells|, name)
    {
      ghost var values, folded := Values(cells, passThrough), AllCased(caseMode, ColumnNames());
      AllCasedTwice(caseMode, ColumnNames());
      indexed := FetchRow(FETCH_INDEX, cells);
      assert ColumnNames() == folded;
      assoc := FetchRow(FETCH_ASSOC, cells);
      assert ColumnNames() == folded;
      both := FetchRow(FETCH_BOTH, cells);
      assert ColumnNames() == folded;
      FetchesAgree(indexed, assoc, both, folded, values);
    }

    /** Fetching the same row again builds a row with the same keys: the names have settled. */
    method FetchTwice(op: int, cells: seq<Cell>) returns (first: Row, second: Row)
      requires Valid() && |cells| == |names| && FETCH_INDEX <= op <= FETCH_BOTH
      modifies Buffers()
      ensures forall key :: At(first, key) == At(second, key)
    {
      first := FetchRow(op, cells);
      ghost var once := ColumnNames();
      second := FetchRow(op, cells);
      AllCasedTwice(caseMode, old(ColumnNames()));
      assert ColumnNames() == once;
      forall key ensures At(first, key) == At(second, key) {
        RowsAgree(first, second, op, once, Values(cells, passThrough), key);
      }
    }
  }

  lemma {:induction false} NotStored(names: seq<string>, values: seq<Option<Value>>, n: nat, name: string)
    requires n <= |names| == |values| && !NameStored(names, values, n, name)
    ensures LastNamed(names, values, n, name) == Nil
  {
    if n == 0 {
    } else {
      NotStored(names, values, n - 1, name);
    }
  }

  lemma RowsAgree(a: Row, b: Row, op: int, names: seq<string>, values: seq<Option<Value>>, key: Key)
    requires |names| == |values| && IsRow(a, op, names, values) && IsRow(b, op, names, values)
    ensures At(a, key) == At(b, key)
  {
    FoundInRow(a, op, names, values, key);
    FoundInRow(b, op, names, values, key);
  }

  /** What a row shows under a key. */
  function Shown(op: int, names: seq<string>, values: seq<Option<Value>>, key: Key): Value
    requires |names| == |values|
  {
    match key
    case Name(name) => if WantsNames(op) then LastNamed(names, values, |values|, name) else Nil
    case Position(i) => if op == FETCH_INDEX || op == FETCH_BOTH then ValueAt(values, i) else Nil
  }

  lemma FoundInRow(row: Row, op: int, names: seq<string>, values: seq<Option<Value>>, key: Key)
    requires |names| == |values| && IsRow(row, op, names, values)
    ensures At(row, key) == Shown(op, names, values, key)
  {
    if key.Name? && !NameStored(names, values, |values|, key.name) {
      NotStored(names, values, |values|, key.name);
    }
  }

  /** The i-th column is the last of its name that stores a value. */
  ghost predicate LastOfName(names: seq<string>, cells: seq<Cell>, i: nat)
    requires i < |names| == |cells|
  {
    !cells[i].Unsupported? && forall j :: i < j < |cells| ==> names[j] != names[i] || cells[j].Unsupported?
  }

  /** What the row of a fetch answers: to a position, unless only names were asked for, the value of the cell there;
      to a name, unless only positions were asked for, the value of the last cell of that name. */
  ghost predicate RowShows(row: Row, op: int, names: seq<string>, cells: seq<Cell>, passThrough: bool)
    requires |names| == |cells|
  {
    && (row.ArrayRow? <==> op == 1)
    && (op == 2 ==> forall i :: At(row, Position(i)) == Nil)
    && (op == 1 || op == 3 ==>
          && (forall i :: 0 <= i < |cells| ==> Shows(cells[i], passThrough, At(row, Position(i))))
          && forall i :: !(0 <= i < |cells|) ==> At(row, Position(i)) == Nil)
    && (op == 2 || op == 3 ==>
          && (forall i :: 0 <= i < |cells| && LastOfName(names, cells, i) ==>
                Shows(cells[i], passThrough, At(row, Name(names[i]))))
          && forall name :: name !in names ==> At(row, Name(name)) == Nil)
  }

  lemma CellShown(cells: seq<Cell>, passThrough: bool, i: nat)
    requires i < |cells|
    ensures Shows(cells[i], passThrough, ValueAt(Values(cells, passThrough), i))
    ensures Values(cells, passThrough)[i].Some? <==> !cells[i].Unsupported?
  {
  }

  lemma PositionShown(row: Row, op: int, names: seq<string>, cells: seq<Cell>, passThrough: bool, i: int)
    requires |names| == |cells| && IsRow(row, op, names, Values(cells, passThrough))
    ensures op == 2 ==> At(row, Position(i)) == Nil
    ensures op == 1 || op == 3 ==>
              if 0 <= i < |cells| then Shows(cells[i], passThrough, At(row, Position(i))) else At(row, Position(i)) == Nil
  {
    FoundInRow(row, op, names, Values(cells, passThrough), Position(i));
    if 0 <= i < |cells| {
      CellShown(cells, passThrough, i);
    }
  }

  lemma NameShown(row: Row, op: int, names: seq<string>, cells: seq<Cell>, passThrough: bool, i: nat)
    requires |names| == |cells| && IsRow(row, op, names, Values(cells, passThrough)) && (op == 2 || op == 3)
    requires i < |cells| && LastOfName(names, cells, i)
    ensures Shows(cells[i], passThrough, At(row, Name(names[i])))
  {
    var values := Values(cells, passThrough);
    FoundInRow(row, op, names, values, Name(names[i]));
    CellShown(cells, passThrough, i);
    forall j | i < j < |cells| ensures names[j] != names[i] || values[j].None? {
      CellShown(cells, passThrough, j);
    }
    LastColumnWins(names, values, |values|, i);
  }

  lemma NoSuchName(row: Row, op: int, names: seq<string>, cells: seq<Cell>, passThrough: bool, name: string)
    requires |names| == |cells| && IsRow(row, op, names, Values(cells, passThrough)) && name !in names
    ensures At(row, Name(name)) == Nil
  {
    FoundInRow(row, op, names, Values(cells, passThrough), Name(name));
    NotStored(names, Values(cells, passThrough), |cells|, name);
  }

  lemma RowShowsCells(row: Row, op: int, names: seq<string>, cells: seq<Cell>, passThrough: bool)
    requires |names| == |cells| && FETCH_INDEX <= op <= FETCH_BOTH
    requires IsRow(row, op, names, Values(cells, passThrough))
    ensures RowShows(row, op, names, cells, passThrough)
  {
    forall i
      ensures op == 2 ==> At(row, Position(i)) == Nil
      ensures op == 1 || op == 3 ==>
                if 0 <= i < |cells| then Shows(cells[i], passThrough, At(row, Position(i))) else At(row, Position(i)) == Nil
    {
      PositionShown(row, op, names, cells, passThrough, i);
    }
    if op == 2 || op == 3 {
      forall i | 0 <= i < |cells| && LastOfName(names, cells, i)
        ensures Shows(cells[i], passThrough, At(row, Name(names[i])))
      {
        NameShown(row, op, names, cells, passThrough, i);
      }
      forall name | name !in names ensures At(row, Name(name)) == Nil {
        NoSuchName(row, op, names, cells, passThrough, name);
      }
    }
  }

  /** The three fetches agree on every row, whatever the column types, names and case mode. */
  lemma FetchesAgree(indexed: Row, assoc: Row, both: Row, names: seq<string>, values: seq<Option<Value>>)
    requires |names| == |values|
    requires IsRow(indexed, FETCH_INDEX, names, values)
    requires IsRow(assoc, FETCH_ASSOC, names, values)
    requires IsRow(both, FETCH_BOTH, names, values)
    ensures forall i :: At(both, Position(i)) == At(indexed, Position(i)) == ValueAt(values, i)
    ensures forall name :: At(both, Name(name)) == At(assoc, Name(name)) == LastNamed(names, values, |values|, name)
  {
    forall i ensures At(both, Position(i)) == At(indexed, Position(i)) == ValueAt(values, i) {
      FoundInRow(indexed, FETCH_INDEX, names, values, Position(i));
      FoundInRow(both, FETCH_BOTH, names, values, Position(i));
    }
    forall name ensures At(both, Name(name)) == At(assoc, Name(name)) == LastNamed(names, values, |values|, name) {
      FoundInRow(assoc, FETCH_ASSOC, names, values, Name(name));
      FoundInRow(both, FETCH_BOTH, names, values, Name(name));
    }
  }

  /** A name shared by several columns stands for the last of them that stores a value. */
  lemma {:induction false} LastColumnWins(names: seq<string>, values: seq<Option<Value>>, n: nat, k: nat)
    requires k < n <= |names| == |values| && values[k].Some?
    requires forall j :: k < j < n ==> names[j] != names[k] || values[j].None?
    ensures LastNamed(names, values, n, names[k]) == values[k].value
  {
    if k < n - 1 {
      LastColumnWins(names, values, n - 1, k);
    }
  }
}
