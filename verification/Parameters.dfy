/** Parameter markers, the values bound to them, and the ordered parameter cache
    of a statement seen as a sequence of entries (IBM_DB_Driver/ibm_db.c). */
module Parameters {
  import opened Options

  datatype SqlType = Clob | Blob | CLong | CDouble | OtherType(code: int)

  datatype Direction = Input | Output | InputOutput | FileInput

  /** What SQLDescribeParam reports about one marker. */
  datatype Description = Description(dataType: SqlType, precision: nat, scale: int, nullable: int)

  /** A Ruby value given to `execute`, by the T_* classes the binder distinguishes. */
  datatype Value =
    | Text(data: string)
    | Bignum(digits: string)
    | Fixnum(n: int)
    | Flag(b: bool)
    | Float(r: real)
    | Nil
    | Unsupported

  /** The cached facts about one marker: the persistent fields of a `param_node`. */
  datatype Entry = Entry(num: int, desc: Description, direction: Direction, varName: Option<string>, size: int)

  // ---------- the ordered cache ----------

  ghost predicate Ascending(es: seq<Entry>) {
    forall i, j :: 0 <= i < j < |es| ==> es[i].num < es[j].num
  }

  /** Insertion at the place the driver's search loop stops at. */
  function Insert(es: seq<Entry>, e: Entry): seq<Entry> {
    if es == [] || e.num < es[0].num then [e] + es
    else if es[0].num == e.num then [e] + es[1..]
    else [es[0]] + Insert(es[1..], e)
  }

  /** The one case the driver's linking code does not cover is a marker below the first cached one:
      there `prev` still equals the head. */
  predicate Links(es: seq<Entry>, num: int) {
    es == [] || es[0].num <= num
  }

  ghost function AsMap(es: seq<Entry>): map<int, Entry> {
    if es == [] then map[] else AsMap(es[1..])[es[0].num := es[0]]
  }

  /** What a run of `bind_param` calls means: the last call for each marker wins. */
  ghost function LastBindings(calls: seq<Entry>): map<int, Entry> {
    if calls == [] then map[]
    else LastBindings(calls[..|calls| - 1])[calls[|calls| - 1].num := calls[|calls| - 1]]
  }

  /** The cache after a run of `bind_param` calls, None once a call has linked a cycle. */
  function BindRun(calls: seq<Entry>): Option<seq<Entry>> {
    if calls == [] then Some([])
    else
      var last := calls[|calls| - 1];
      match BindRun(calls[..|calls| - 1])
      case None => None
      case Some(es) => if Links(es, last.num) then Some(Insert(es, last)) else None
  }

  /** `r` is `s` with `x` put in at position `i`. */
  ghost predicate Spliced<T(!new)>(s: seq<T>, i: nat, x: T, r: seq<T>) {
    && i <= |s| && |r| == |s| + 1
    && r[i] == x
    && (forall k :: 0 <= k < i ==> r[k] == s[k])
    && (forall k :: i < k < |r| ==> r[k] == s[k - 1])
  }

  lemma {:induction false} InsertAt(es: seq<Entry>, i: nat, e: Entry)
    requires i <= |es|
    requires forall k :: 0 <= k < i ==> es[k].num < e.num
    requires i < |es| ==> e.num <= es[i].num
    ensures if i < |es| && es[i].num == e.num then Insert(es, e) == es[i := e] else Spliced(es, i, e, Insert(es, e))
  {
    if i == 0 {
      assert es != [] && es[0].num == e.num ==> es[0 := e] == [e] + es[1..];
    } else {
      InsertAt(es[1..], i - 1, e);
      if i < |es| && es[i].num == e.num {
        assert es[i := e] == [es[0]] + es[1..][i - 1 := e];
      }
    }
  }

  lemma {:induction false} AsMapKeys(es: seq<Entry>)
    ensures forall m :: m in AsMap(es) <==> exists i :: 0 <= i < |es| && es[i].num == m
  {
    if es == [] {
    } else {
      AsMapKeys(es[1..]);
      forall m | m in AsMap(es)
        ensures exists i :: 0 <= i < |es| && es[i].num == m
      {
        if m != es[0].num {
          assert m in AsMap(es[1..]);
          var i :| 0 <= i < |es[1..]| && es[1..][i].num == m;
          assert es[i + 1].num == m;
        }
      }
      forall i | 0 <= i < |es|
        ensures es[i].num in AsMap(es)
      {
        if i > 0 {
          assert es[1..][i - 1].num in AsMap(es[1..]);
        }
      }
    }
  }

  lemma {:induction false} AscendingSize(es: seq<Entry>)
    requires Ascending(es)
    ensures |AsMap(es)| == |es|
  {
    if es == [] {
    } else {
      assert Ascending(es[1..]) by {
        forall i, j | 0 <= i < j < |es[1..]| ensures es[1..][i].num < es[1..][j].num {
          assert es[i + 1].num < es[j + 1].num;
        }
      }
      AscendingSize(es[1..]);
      AsMapKeys(es[1..]);
      assert es[0].num !in AsMap(es[1..]);
    }
  }

  lemma AscendingCons(e: Entry, es: seq<Entry>)
    requires Ascending(es) && (es == [] || e.num < es[0].num)
    ensures Ascending([e] + es)
  {
    forall i, j | 0 <= i < j < |[e] + es| ensures ([e] + es)[i].num < ([e] + es)[j].num {
      assert es[0].num <= es[j - 1].num;
    }
  }

  lemma {:induction false} InsertAscends(es: seq<Entry>, e: Entry)
    requires Ascending(es)
    ensures Ascending(Insert(es, e))
    ensures Insert(es, e)[0].num == if es == [] || e.num < es[0].num then e.num else es[0].num
  {
    if es == [] {
    } else if e.num < es[0].num {
      AscendingCons(e, es);
    } else {
      var rest := es[1..];
      assert Ascending(rest);
      assert rest != [] ==> es[0].num < rest[0].num;
      if es[0].num == e.num {
        AscendingCons(e, rest);
      } else {
        InsertAscends(rest, e);
        AscendingCons(es[0], Insert(rest, e));
      }
    }
  }

  lemma {:induction false} InsertUpdates(es: seq<Entry>, e: Entry)
    ensures Ascending(es) ==> AsMap(Insert(es, e)) == AsMap(es)[e.num := e]
  {
    if es == [] || e.num < es[0].num {
      assert ([e] + es)[1..] == es;
    } else if es[0].num == e.num {
      assert ([e] + es[1..])[1..] == es[1..];
    } else {
      InsertUpdates(es[1..], e);
      assert ([es[0]] + Insert(es[1..], e))[1..] == Insert(es[1..], e);
      assert Ascending(es) ==> Ascending(es[1..]);
    }
  }

  /** Insertion keeps the cache ordered and represents a map update. */
  lemma InsertRefinesUpdate(es: seq<Entry>, e: Entry)
    requires Ascending(es)
    ensures Ascending(Insert(es, e))
    ensures AsMap(Insert(es, e)) == AsMap(es)[e.num := e]
    ensures |Insert(es, e)| == |es| + if e.num in AsMap(es) then 0 else 1
    ensures Insert(es, e)[0].num == if es == [] || e.num < es[0].num then e.num else es[0].num
  {
    InsertAscends(es, e);
    InsertUpdates(es, e);
    AscendingSize(es);
    AscendingSize(Insert(es, e));
  }

  /** A run of `bind_param` calls leaves a proper list exactly when no call names a marker
      below the first one ever bound; the list then is the ascending listing of "last call wins". */
  lemma {:induction false} BindRunIsLastWins(calls: seq<Entry>)
    ensures BindRun(calls).Some? <==> forall i :: 0 <= i < |calls| ==> calls[0].num <= calls[i].num
    ensures BindRun(calls).Some? ==>
              var es := BindRun(calls).value;
              && Ascending(es)
              && AsMap(es) == LastBindings(calls)
              && |es| == |LastBindings(calls)|
              && (calls != [] ==> es != [] && es[0].num == calls[0].num)
  {
    if calls == [] {
    } else {
      var init, last := calls[..|calls| - 1], calls[|calls| - 1];
      BindRunIsLastWins(init);
      assert forall i :: 0 <= i < |init| ==> init[i] == calls[i];
      if BindRun(init).Some? {
        var es := BindRun(init).value;
        InsertRefinesUpdate(es, last);
        if BindRun(calls).Some? {
          AscendingSize(BindRun(calls).value);
          if init != [] {
            assert es[0].num == calls[0].num;
          }
        }
      }
    }
  }

  /** Binding marker 2 and then marker 1 closes a cycle. */
  lemma BindingBackwardsIsNoList(two: Entry, one: Entry)
    requires two.num == 2 && one.num == 1
    ensures BindRun([two, one]) == None
  {
    BindRunIsLastWins([two, one]);
    assert [two, one][1].num == 1;
  }
}
