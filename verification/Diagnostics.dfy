/** The two record trackers behind `getErrormsg` and `getErrorstate` (IBM_DB_Driver/ibm_db.c). */
module Diagnostics {

  /** Which part of a diagnostic record a call reads. */
  datatype Kind = Message | State

  /** The next record each kind of call will read. */
  datatype Trackers = Trackers(message: nat, state: nat)

  const RESET := Trackers(1, 1)

  /** A call on a tracked path. `cached`: the handle holds the text of the first record. */
  datatype Call = Call(kind: Kind, cached: bool)

  function Next(t: Trackers, k: Kind): nat {
    if k.Message? then t.message else t.state
  }

  function Other(k: Kind): Kind {
    if k.Message? then State else Message
  }

  /** The first record is served from the handle when it is held there, without touching the other
      tracker; any other record drags a tracker that lags along. */
  function Step(t: Trackers, c: Call): Trackers {
    match c.kind
    case Message =>
      if t.message == 1 && c.cached then t.(message := 2)
      else if t.message - t.state >= 1 then Trackers(t.message + 1, t.message)
      else t.(message := t.message + 1)
    case State =>
      if t.state == 1 && c.cached then t.(state := 2)
      else if t.state - t.message >= 1 then Trackers(t.state, t.state + 1)
      else t.(state := t.state + 1)
  }

  function Run(cs: seq<Call>): Trackers {
    if cs == [] then RESET else Step(Run(cs[..|cs| - 1]), cs[|cs| - 1])
  }

  /** The record the i-th call of a trace reads. */
  function Record(cs: seq<Call>, i: nat): nat
    requires i < |cs|
  {
    Next(Run(cs[..i]), cs[i].kind)
  }

  // ---------- a reference without trackers ----------

  /** The newest record read so far, and which kinds of call have read it. */
  datatype Reader = Reader(latest: nat, seenBy: set<Kind>)

  /** A kind that has not read the newest record reads that; otherwise it opens the next one. */
  function Reads(r: Reader, k: Kind): nat {
    if k in r.seenBy then r.latest + 1 else r.latest
  }

  function ReaderStep(r: Reader, k: Kind): Reader {
    if k in r.seenBy then Reader(r.latest + 1, {k}) else Reader(r.latest, r.seenBy + {k})
  }

  function ReaderRun(cs: seq<Call>): Reader {
    if cs == [] then Reader(0, {Message, State}) else ReaderStep(ReaderRun(cs[..|cs| - 1]), cs[|cs| - 1].kind)
  }

  ghost predicate Tracks(t: Trackers, r: Reader) {
    && r.seenBy != {}
    && t.message == (if Message in r.seenBy then r.latest + 1 else r.latest)
    && t.state == (if State in r.seenBy then r.latest + 1 else r.latest)
    && (r.latest == 0 ==> r.seenBy == {Message, State})
  }

  /** Over any interleaving of calls, cached or not, the trackers implement the reference reader. */
  lemma {:induction false} TrackersRefineReader(cs: seq<Call>)
    ensures Tracks(Run(cs), ReaderRun(cs))
  {
    if cs == [] {
    } else {
      TrackersRefineReader(cs[..|cs| - 1]);
      var r, k := ReaderRun(cs[..|cs| - 1]), cs[|cs| - 1].kind;
      assert forall x :: x in r.seenBy ==> x == Message || x == State;
    }
  }

  /** The trackers never drift apart by more than one record. */
  lemma TrackersStayClose(cs: seq<Call>)
    ensures -1 <= Run(cs).message - Run(cs).state <= 1
  {
    TrackersRefineReader(cs);
  }

  /** The newest record read, by the trackers. */
  function Newest(t: Trackers): int {
    (if t.message < t.state then t.state else t.message) - 1
  }

  ghost predicate WasRead(cs: seq<Call>, n: int) {
    exists i :: 0 <= i < |cs| && Record(cs, i) == n
  }

  lemma SamePrefix(cs: seq<Call>, m: nat, i: nat)
    requires i < m <= |cs|
    ensures Record(cs[..m], i) == Record(cs, i)
  {
    assert cs[..m][..i] == cs[..i];
  }

  /** The records read are exactly those from the first to the newest: none is skipped. */
  lemma {:induction false} NoRecordIsSkipped(cs: seq<Call>, n: int)
    ensures WasRead(cs, n) <==> 1 <= n <= Newest(Run(cs))
  {
    TrackersRefineReader(cs);
    if cs == [] {
    } else {
      var m := |cs| - 1;
      var init := cs[..m];
      NoRecordIsSkipped(init, n);
      TrackersRefineReader(init);
      assert Record(cs, m) == Reads(ReaderRun(init), cs[m].kind);
      forall i | 0 <= i < m ensures Record(cs, i) == Record(init, i) {
        SamePrefix(cs, m, i);
      }
      if WasRead(init, n) {
        var i :| 0 <= i < |init| && Record(init, i) == n;
        assert Record(cs, i) == n;
      } else if WasRead(cs, n) {
        var i :| 0 <= i < |cs| && Record(cs, i) == n;
        assert i == m;
      }
    }
  }

  lemma {:induction false} TrackersOnlyGrow(cs: seq<Call>, i: nat, j: nat)
    requires i <= j <= |cs|
    ensures Run(cs[..i]).message <= Run(cs[..j]).message && Run(cs[..i]).state <= Run(cs[..j]).state
    decreases j
  {
    if i < j {
      TrackersOnlyGrow(cs, i, j - 1);
      assert cs[..j][..j - 1] == cs[..j - 1];
    }
  }

  /** One kind of call reads each record at most once, and in order. */
  lemma EachKindReadsForward(cs: seq<Call>, i: nat, j: nat)
    requires i < j < |cs| && cs[i].kind == cs[j].kind
    ensures Record(cs, i) < Record(cs, j)
  {
    assert cs[..i + 1][..i] == cs[..i];
    TrackersOnlyGrow(cs, i + 1, j);
  }

  /** Right after a call that opened a new record, a call of the other kind reads that same record. */
  lemma OtherKindPairsUp(cs: seq<Call>, i: nat)
    requires i + 1 < |cs| && cs[i + 1].kind == Other(cs[i].kind)
    requires forall j :: 0 <= j < i ==> Record(cs, j) != Record(cs, i)
    ensures Record(cs, i + 1) == Record(cs, i)
  {
    var before := cs[..i];
    TrackersRefineReader(before);
    assert cs[..i + 1][..i] == before;
    var r, k := ReaderRun(before), cs[i].kind;
    if k !in r.seenBy {
      if r.latest >= 1 {
        NoRecordIsSkipped(before, r.latest);
        var j :| 0 <= j < |before| && Record(before, j) == r.latest;
        SamePrefix(cs, i, j);
      }
    }
    TrackersRefineReader(cs[..i + 1]);
  }

  // ---------- the handle ----------

  /** The diagnostic fields of a connection or statement handle. */
  class Diagnosed {
    var errormsgRecno: nat
    var errorRecno: nat
    var message: string   // the cached text of the first record, "" if none was stored
    var sqlstate: string

    function Now(): Trackers
      reads this
    {
      Trackers(errormsgRecno, errorRecno)
    }

    /** `_ruby_ibm_db_init_error_info` and the initial values of a new handle. */
    method InitErrorInfo()
      modifies `errormsgRecno, `errorRecno
      ensures Now() == RESET
    {
      errorRecno := 1;
      errormsgRecno := 1;
    }

    /** `ibm_db_getErrormsg` on a tracked path: the record number it reads. */
    method GetErrormsg() returns (record: nat)
      modifies `errormsgRecno, `errorRecno
      ensures record == Next(old(Now()), Message)
      ensures Now() == Step(old(Now()), Call(Message, message != ""))
    {
      record := errormsgRecno;
      if !(errormsgRecno == 1 && message != "") {
        if errormsgRecno - errorRecno >= 1 {
          errorRecno := errormsgRecno;
        }
      }
      errormsgRecno := errormsgRecno + 1;
    }

    /** `ibm_db_getErrorstate` on a tracked path. */
    method GetErrorstate() returns (record: nat)
      modifies `errormsgRecno, `errorRecno
      ensures record == Next(old(Now()), State)
      ensures Now() == Step(old(Now()), Call(State, sqlstate != ""))
    {
      record := errorRecno;
      if !(errorRecno == 1 && sqlstate != "") {
        if errorRecno - errormsgRecno >= 1 {
          errormsgRecno := errorRecno;
        }
      }
      errorRecno := errorRecno + 1;
    }
  }
}
