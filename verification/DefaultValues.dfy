/** Quoting a string for SQL and reading a column default back (ibm_db_adapter.rb, `quote_string` and
    `extract_value_from_default`). */
module DefaultValues {
  import opened Options
  import opened Sequences
  import opened Strings

  const QUOTE := '\''

  /** Every quote of one kind doubled. */
  function Doubled(s: string, q: char): string {
    if s == "" then ""
    else (if s[0] == q then [q, q] else [s[0]]) + Doubled(s[1..], q)
  }

  /** `gsub(/'/, "''")`. */
  function QuoteString(s: string): string {
    Doubled(s, QUOTE)
  }

  /** `gsub` of a doubled quote by a single one. */
  function Undouble(s: string, q: char): string {
    if s == "" then ""
    else if |s| > 1 && s[0] == q && s[1] == q then [q] + Undouble(s[2..], q)
    else [s[0]] + Undouble(s[1..], q)
  }

  // ---------- the patterns of extract_value_from_default ----------

  const IDENTITY_PHRASE := "identity generated by default"

  predicate ContainsNoCase(s: string, p: string) {
    StartsNoCase(s, p) || (s != "" && ContainsNoCase(s[1..], p))
  }

  /** A line reading NULL, `/^null$/i`; `start` says that the text starts a line. */
  predicate HasNullLine(s: string, start: bool) {
    || (start && StartsNoCase(s, "null") && (|s| == 4 || s[4] == '\n'))
    || (s != "" && HasNullLine(s[1..], s[0] == '\n'))
  }

  /** The greatest position in [from, hi) that holds a quote and ends a line, or -1. */
  function LastClosing(s: string, q: char, from: nat, hi: nat): (j: int)
    requires from <= hi <= |s|
    ensures j == -1 || from <= j < hi
    decreases hi
  {
    if hi == from then -1
    else if s[hi - 1] == q && (hi == |s| || s[hi] == '\n') then hi - 1
    else LastClosing(s, q, from, hi - 1)
  }

  /** `/^q(.*)q$/m`: the first line that starts with the quote, up to the last line that ends in it. */
  function Quoted(s: string, q: char, i: nat): Option<string>
    requires i <= |s|
    decreases |s| - i
  {
    if i == |s| then None
    else
      var j := if s[i] == q && (i == 0 || s[i - 1] == '\n') then LastClosing(s, q, i + 1, |s|) else -1;
      if j == -1 then Quoted(s, q, i + 1) else Some(s[i + 1..j])
  }

  predicate Digits(s: string) {
    forall i :: 0 <= i < |s| ==> '0' <= s[i] <= '9'
  }

  /** `/\A-?\d+(\.\d*)?\z/`. */
  predicate IsNumeric(s: string) {
    var t := if s != "" && s[0] == '-' then s[1..] else s;
    exists k :: 1 <= k <= |t| && Digits(t[..k]) && (k == |t| || (t[k] == '.' && Digits(t[k + 1..])))
  }

  /** The default of a column, None when it has none that can be known. */
  function ExtractValueFromDefault(default: Option<string>): Option<string> {
    match default
    case None => None
    case Some(s) =>
      if ContainsNoCase(s, IDENTITY_PHRASE) then None
      else if HasNullLine(s, true) then None
      else if Quoted(s, QUOTE, 0).Some? then Some(Undouble(Quoted(s, QUOTE, 0).value, QUOTE))
      else if Quoted(s, '"', 0).Some? then Some(Undouble(Quoted(s, '"', 0).value, '"'))
      else if IsNumeric(s) then Some(s)
      else None
  }

  // ---------- quoting is undone ----------

  function InQuotes(s: string, q: char): string {
    [q] + Doubled(s, q) + [q]
  }

  /** A line reading NULL between two line breaks of the text. */
  predicate HasInnerNullLine(s: string, start: bool) {
    || (start && StartsNoCase(s, "null\n"))
    || (s != "" && HasInnerNullLine(s[1..], s[0] == '\n'))
  }

  lemma {:induction false} UndoubleQuoted(s: string, q: char)
    ensures Undouble(Doubled(s, q), q) == s
  {
    if s == "" {
    } else {
      var r := Doubled(s[1..], q);
      UndoubleQuoted(s[1..], q);
      if s[0] == q {
        assert ([q, q] + r)[2..] == r;
        assert s == [q] + s[1..];
      } else {
        assert ([s[0]] + r)[1..] == r;
        assert s == [s[0]] + s[1..];
      }
    }
  }

  /** A quote that stands alone stays. */
  lemma {:induction false} LoneQuotesStay(s: string, q: char)
    requires forall i :: 0 <= i < |s| - 1 ==> s[i] != q || s[i + 1] != q
    ensures Undouble(s, q) == s
  {
    if s == "" {
    } else {
      var t := s[1..];
      forall i | 0 <= i < |t| - 1 ensures t[i] != q || t[i + 1] != q {
        var j := i + 1;
        assert t[i] == s[j] && t[i + 1] == s[j + 1];
      }
      LoneQuotesStay(t, q);
      assert s == [s[0]] + t;
    }
  }

  /** A prefix without quotes starts the quoted text, closing quote included, exactly when it starts the text. */
  lemma {:induction false} SamePrefix(s: string, q: char, p: string)
    requires Lower(q) == q && forall i :: 0 <= i < |p| ==> p[i] != q
    ensures StartsNoCase(Doubled(s, q) + [q], p) <==> StartsNoCase(s, p)
    decreases |p|
  {
    var t := Doubled(s, q) + [q];
    if p == "" {
    } else {
      if s == "" || s[0] == q {
        assert t == [q] + t[1..];
        StartsWithQuote(t[1..], q, p);
        if s != "" {
          assert s == [q] + s[1..];
          StartsWithQuote(s[1..], q, p);
        }
      } else {
        var t' := Doubled(s[1..], q) + [q];
        SamePrefix(s[1..], q, p[1..]);
        assert t == [s[0]] + t';
        PrefixByParts(s[0], t', p);
        PrefixByParts(s[0], s[1..], p);
        assert s == [s[0]] + s[1..];
      }
    }
  }

  lemma PrefixByParts(c: char, s: string, p: string)
    requires p != ""
    ensures StartsNoCase([c] + s, p) <==> Lower(c) == p[0] && StartsNoCase(s, p[1..])
  {
    var t := [c] + s;
    if StartsNoCase(t, p) {
      assert Lower(t[0]) == p[0];
      forall i | 0 <= i < |p| - 1 ensures Lower(s[i]) == p[1..][i] {
        assert Lower(t[i + 1]) == p[i + 1];
      }
    }
    if Lower(c) == p[0] && StartsNoCase(s, p[1..]) {
      forall i | 0 <= i < |p| ensures Lower(t[i]) == p[i] {
        if i > 0 {
          assert Lower(s[i - 1]) == p[1..][i - 1];
        }
      }
    }
  }

  lemma StartsWithQuote(t: string, q: char, p: string)
    requires Lower(q) == q && p != "" && p[0] != q
    ensures !StartsNoCase([q] + t, p)
  {
    PrefixByParts(q, t, p);
  }

  lemma {:induction false} SameContents(s: string, q: char, p: string)
    requires Lower(q) == q && p != "" && forall i :: 0 <= i < |p| ==> p[i] != q
    ensures ContainsNoCase(Doubled(s, q) + [q], p) <==> ContainsNoCase(s, p)
  {
    SamePrefix(s, q, p);
    var t := Doubled(s, q) + [q];
    if s == "" {
      assert t[1..] == "";
    } else {
      var t' := Doubled(s[1..], q) + [q];
      SameContents(s[1..], q, p);
      if s[0] == q {
        assert t[1..] == [q] + t' && ([q] + t')[1..] == t';
        StartsWithQuote(t', q, p);
      } else {
        assert t[1..] == t';
      }
    }
  }

  lemma {:induction false} SameNullLines(s: string, q: char, start: bool)
    requires q == QUOTE || q == '"'
    ensures HasNullLine(Doubled(s, q) + [q], start) <==> HasInnerNullLine(s, start)
  {
    var t := Doubled(s, q) + [q];
    assert t[|t| - 1] == q;
    LineEnds(t, q);
    SamePrefix(s, q, "null\n");
    if s == "" {
      assert t[1..] == "";
    } else {
      var t' := Doubled(s[1..], q) + [q];
      SameNullLines(s[1..], q, s[0] == '\n');
      if s[0] == q {
        assert t[1..] == [q] + t' && ([q] + t')[1..] == t';
        StartsWithQuote(t', q, "null");
      } else {
        assert t[1..] == t';
      }
    }
  }

  /** In a text that ends in a quote, a line reading NULL has a line break behind it. */
  lemma LineEnds(t: string, q: char)
    requires (q == QUOTE || q == '"') && t != "" && t[|t| - 1] == q
    ensures StartsNoCase(t, "null") && (|t| == 4 || t[4] == '\n') <==> StartsNoCase(t, "null\n")
  {
    assert StartsNoCase(t, "null") ==> Lower(t[3]) == "null"[3];
    if StartsNoCase(t, "null\n") {
      assert Lower(t[4]) == "null\n"[4];
      forall i | 0 <= i < 4 ensures Lower(t[i]) == "null"[i] {
        assert Lower(t[i]) == "null\n"[i];
      }
    }
    if StartsNoCase(t, "null") && |t| > 4 && t[4] == '\n' {
      forall i | 0 <= i < 5 ensures Lower(t[i]) == "null\n"[i] {
        assert i < 4 ==> Lower(t[i]) == "null"[i];
      }
    }
  }

  /** The tests in front of the quoted types, on a quoted text. */
  lemma QuotedTests(s: string, q: char)
    requires q == QUOTE || q == '"'
    ensures var d := InQuotes(s, q);
            && (ContainsNoCase(d, IDENTITY_PHRASE) <==> ContainsNoCase(s, IDENTITY_PHRASE))
            && (HasNullLine(d, true) <==> HasInnerNullLine(s, false))
            && Quoted(d, q, 0) == Some(Doubled(s, q))
  {
    var t := Doubled(s, q) + [q];
    var d := InQuotes(s, q);
    assert d == [q] + t && d[1..] == t;
    SameContents(s, q, IDENTITY_PHRASE);
    StartsWithQuote(t, q, IDENTITY_PHRASE);
    SameNullLines(s, q, false);
    StartsWithQuote(t, q, "null");
    assert d[0] == q && d[|d| - 1] == q;
    assert d[1..|d| - 1] == Doubled(s, q);
  }

  /** The text holds a phrase, in any case. */
  ghost predicate Mentions(s: string, phrase: string) {
    exists i :: 0 <= i <= |s| && StartsNoCase(s[i..], phrase)
  }

  /** A line between two line breaks reads NULL, in any case. */
  ghost predicate HasNullBetweenBreaks(s: string) {
    exists i :: 0 <= i < |s| && s[i] == '\n' && StartsNoCase(s[i + 1..], "null\n")
  }

  lemma {:induction false} ContainsIff(s: string, p: string)
    ensures ContainsNoCase(s, p) <==> Mentions(s, p)
  {
    assert s[0..] == s;
    if s != "" {
      var t := s[1..];
      ContainsIff(t, p);
      if Mentions(t, p) {
        var i :| 0 <= i <= |t| && StartsNoCase(t[i..], p);
        assert s[i + 1..] == t[i..];
      }
      if i :| 1 <= i <= |s| && StartsNoCase(s[i..], p) {
        assert t[i - 1..] == s[i..];
      }
    }
  }

  lemma {:induction false} InnerNullLineIff(s: string, start: bool)
    ensures HasInnerNullLine(s, start) <==> (start && StartsNoCase(s, "null\n")) || HasNullBetweenBreaks(s)
  {
    if s != "" {
      var t := s[1..];
      InnerNullLineIff(t, s[0] == '\n');
      if HasNullBetweenBreaks(t) {
        var i :| 0 <= i < |t| && t[i] == '\n' && StartsNoCase(t[i + 1..], "null\n");
        var j := i + 1;
        assert s[j] == t[i] && s[j + 1..] == t[i + 1..];
      }
      if j :| 1 <= j < |s| && s[j] == '\n' && StartsNoCase(s[j + 1..], "null\n") {
        var i := j - 1;
        assert t[i] == s[j] && t[i + 1..] == s[j + 1..];
      }
    }
  }

  /** Reading a quoted default gives the string back exactly when it does not mention the identity phrase and has no
      line between two line breaks that reads NULL. */
  lemma DefaultRoundTripIff(s: string)
    ensures ExtractValueFromDefault(Some("'" + QuoteString(s) + "'")) == Some(s)
            <==> !Mentions(s, "identity generated by default") && !HasNullBetweenBreaks(s)
  {
    QuotedTests(s, QUOTE);
    UndoubleQuoted(s, QUOTE);
    ContainsIff(s, IDENTITY_PHRASE);
    InnerNullLineIff(s, false);
  }

  // ---------- defaults in double quotes ----------

  function Breaks(s: string): nat {
    if s == "" then 0 else Breaks(s[1..]) + if s[0] == '\n' then 1 else 0
  }

  lemma {:induction false} BreaksJoin(s: string, t: string)
    ensures Breaks(s + t) == Breaks(s) + Breaks(t)
  {
    if s == "" {
      assert s + t == t;
    } else {
      BreaksJoin(s[1..], t);
      assert (s + t)[1..] == s[1..] + t;
    }
  }

  lemma {:induction false} SameBreaks(s: string, q: char)
    requires q != '\n'
    ensures Breaks(Doubled(s, q)) == Breaks(s) && Breaks(Undouble(s, q)) == Breaks(s)
    decreases |s|
  {
    if s == "" {
    } else {
      SameBreaks(s[1..], q);
      BreaksJoin(if s[0] == q then [q, q] else [s[0]], Doubled(s[1..], q));
      if |s| > 1 && s[0] == q && s[1] == q {
        SameBreaks(s[2..], q);
        assert s[1..][1..] == s[2..];
      }
    }
  }

  lemma PartHasFewerBreaks(s: string, k: nat, j: nat)
    requires 0 < k < j <= |s| && s[k - 1] == '\n'
    ensures Breaks(s[k + 1..j]) < Breaks(s)
  {
    assert s == s[..k - 1] + ([s[k - 1]] + ([s[k]] + (s[k + 1..j] + s[j..])));
    BreaksJoin(s[..k - 1], [s[k - 1]] + ([s[k]] + (s[k + 1..j] + s[j..])));
    BreaksJoin([s[k - 1]], [s[k]] + (s[k + 1..j] + s[j..]));
    BreaksJoin([s[k]], s[k + 1..j] + s[j..]);
    BreaksJoin(s[k + 1..j], s[j..]);
  }

  /** A line starts with a quote and a line, the same or a later one, ends in another. */
  ghost predicate HasQuotedLines(s: string, q: char) {
    exists k, j :: 0 <= k < j < |s| && OpensLine(s, q, k) && ClosesLine(s, q, j)
  }

  ghost predicate OpensLine(s: string, q: char, k: nat)
    requires k < |s|
  {
    s[k] == q && (k == 0 || s[k - 1] == '\n')
  }

  ghost predicate ClosesLine(s: string, q: char, j: nat)
    requires j < |s|
  {
    s[j] == q && (j + 1 == |s| || s[j + 1] == '\n')
  }

  lemma {:induction false} LastClosingIs(s: string, q: char, from: nat, hi: nat)
    requires from <= hi <= |s|
    ensures var last := LastClosing(s, q, from, hi);
            && (last != -1 ==> ClosesLine(s, q, last))
            && forall j :: from <= j < hi && last < j ==> !ClosesLine(s, q, j)
    decreases hi
  {
    if from < hi && !ClosesLine(s, q, hi - 1) {
      LastClosingIs(s, q, from, hi - 1);
    }
  }

  /** The quoted text stands between the first quote that opens a line and the last that closes one. */
  ghost predicate Between(s: string, q: char, k: nat, j: nat) {
    && k < j < |s| && OpensLine(s, q, k) && ClosesLine(s, q, j)
    && (forall k' :: 0 <= k' < k ==> !OpensLine(s, q, k'))
    && forall j' :: j < j' < |s| ==> !ClosesLine(s, q, j')
  }

  lemma {:induction false} QuotedIs(s: string, q: char, i: nat) returns (k: nat, j: nat)
    requires i <= |s| && forall k' :: 0 <= k' < i ==> !OpensLine(s, q, k')
    ensures Quoted(s, q, i).Some? <==> HasQuotedLines(s, q)
    ensures Quoted(s, q, i).Some? ==> Between(s, q, k, j) && Quoted(s, q, i) == Some(s[k + 1..j])
    decreases |s| - i
  {
    k, j := 0, 0;
    if i < |s| {
      LastClosingIs(s, q, i + 1, |s|);
      if !OpensLine(s, q, i) {
        k, j := QuotedIs(s, q, i + 1);
      } else if LastClosing(s, q, i + 1, |s|) == -1 {
        NoneBehind(s, q, i);
      } else {
        k, j := i, LastClosing(s, q, i + 1, |s|);
      }
    }
  }

  lemma {:induction false} NoneBehind(s: string, q: char, i: nat)
    requires i <= |s| && forall j :: i < j < |s| ==> !ClosesLine(s, q, j)
    ensures Quoted(s, q, i).None?
    decreases |s| - i
  {
    if i < |s| {
      LastClosingIs(s, q, i + 1, |s|);
      NoneBehind(s, q, i + 1);
    }
  }

  /** A line reads NULL, in any case. */
  ghost predicate HasLineNull(s: string) {
    exists i :: 0 <= i <= |s| && (i == 0 || s[i - 1] == '\n') && StartsNoCase(s[i..], "null") && (i + 4 == |s| || s[i + 4] == '\n')
  }

  lemma {:induction false} NullLineIff(s: string, start: bool)
    ensures HasNullLine(s, start) <==>
            || (start && StartsNoCase(s, "null") && (|s| == 4 || s[4] == '\n'))
            || exists i :: 1 <= i <= |s| && s[i - 1] == '\n' && StartsNoCase(s[i..], "null") && (i + 4 == |s| || s[i + 4] == '\n')
  {
    if s != "" {
      var t := s[1..];
      NullLineIff(t, s[0] == '\n');
      if i :| 1 <= i <= |t| && t[i - 1] == '\n' && StartsNoCase(t[i..], "null") && (i + 4 == |t| || t[i + 4] == '\n') {
        var j := i + 1;
        assert s[j - 1] == t[i - 1] && s[j..] == t[i..];
      }
      if j :| 1 <= j <= |s| && s[j - 1] == '\n' && StartsNoCase(s[j..], "null") && (j + 4 == |s| || s[j + 4] == '\n') {
        var i := j - 1;
        assert s[j..] == t[i..];
        assert i > 0 ==> t[i - 1] == s[j - 1];
        if i == 0 {
          assert t[0..] == t;
        }
      }
    }
  }

  lemma LineNullIff(s: string)
    ensures HasNullLine(s, true) <==> HasLineNull(s)
  {
    NullLineIff(s, true);
    assert s[0..] == s;
  }

  /** Reading back a default in double quotes has one condition more: no line of it starts with a single quote up to a
      line that ends in one, for single quotes are looked for first. */
  lemma DoubleQuotedRoundTripIff(s: string)
    ensures var d := "\"" + Doubled(s, '"') + "\"";
            ExtractValueFromDefault(Some(d)) == Some(s)
            <==> && !Mentions(s, "identity generated by default") && !HasNullBetweenBreaks(s)
                 && !HasQuotedLines(d, QUOTE)
  {
    var d := InQuotes(s, '"');
    QuotedTests(s, '"');
    UndoubleQuoted(s, '"');
    ContainsIff(s, IDENTITY_PHRASE);
    InnerNullLineIff(s, false);
    var k, j := QuotedIs(d, QUOTE, 0);
    if Quoted(d, QUOTE, 0).Some? {
      PartHasFewerBreaks(d, k, j);
      SameBreaks(d[k + 1..j], QUOTE);
      SameBreaks(s, '"');
      BreaksJoin(['"'], Doubled(s, '"'));
      BreaksJoin(['"'] + Doubled(s, '"'), ['"']);
    }
  }

  /** A default in double quotes with a line in single quotes is read back as that line. */
  lemma SingleQuotesComeFirst()
    ensures ExtractValueFromDefault(Some("\"" + Doubled("\n'a'\n", '"') + "\"")) != Some("\n'a'\n")
  {
    var s := "\n'a'\n";
    assert s[1..] == "'a'\n" && s[1..][1..] == "a'\n" && s[1..][1..][1..] == "'\n" && s[1..][1..][1..][1..] == "\n";
    assert Doubled(s, '"') == s;
    var d := "\"" + s + "\"";
    assert OpensLine(d, QUOTE, 2) && ClosesLine(d, QUOTE, 4);
    DoubleQuotedRoundTripIff(s);
  }

  // ---------- defaults of any kind ----------

  /** A number as it is written: a minus sign or none, digits, and digits behind a point or nothing. */
  ghost predicate SpellsNumber(sign: string, whole: string, fraction: string) {
    && (sign == "" || sign == "-")
    && whole != "" && (forall i :: 0 <= i < |whole| ==> whole[i] in "0123456789")
    && (fraction == "" || (fraction[0] == '.' && forall i :: 1 <= i < |fraction| ==> fraction[i] in "0123456789"))
  }

  ghost predicate IsSpelledNumber(s: string) {
    exists sign, whole, fraction :: SpellsNumber(sign, whole, fraction) && s == sign + (whole + fraction)
  }

  lemma DigitsSpelled(s: string)
    ensures Digits(s) <==> forall i :: 0 <= i < |s| ==> s[i] in "0123456789"
  {
    assert forall c: char :: c in "0123456789" <==> '0' <= c <= '9';
  }

  lemma NumericIff(s: string)
    ensures IsNumeric(s) <==> IsSpelledNumber(s)
  {
    if IsNumeric(s) {
      var t := if s != "" && s[0] == '-' then s[1..] else s;
      var k :| 1 <= k <= |t| && Digits(t[..k]) && (k == |t| || (t[k] == '.' && Digits(t[k + 1..])));
      DigitsSpelled(t[..k]);
      var fraction := t[k..];
      if k < |t| {
        DigitsSpelled(t[k + 1..]);
        assert forall i :: 1 <= i < |fraction| ==> fraction[i] == t[k + 1..][i - 1];
      }
      assert SpellsNumber(if t == s then "" else "-", t[..k], fraction);
      assert s == (if t == s then "" else "-") + (t[..k] + fraction);
    }
    if IsSpelledNumber(s) {
      var sign, whole, fraction :| SpellsNumber(sign, whole, fraction) && s == sign + (whole + fraction);
      SpelledIsNumeric(sign, whole, fraction);
    }
  }

  lemma SpelledIsNumeric(sign: string, whole: string, fraction: string)
    requires SpellsNumber(sign, whole, fraction)
    ensures IsNumeric(sign + (whole + fraction))
  {
    var t := whole + fraction;
    var s := sign + t;
    DigitsSpelled(whole);
    assert whole[0] in "0123456789";
    assert t[..|whole|] == whole;
    if fraction != "" {
      assert t[|whole|] == '.' && t[|whole| + 1..] == fraction[1..];
      DigitsSpelled(fraction[1..]);
    }
    assert t == if s != "" && s[0] == '-' then s[1..] else s;
  }

  lemma {:induction false} NoFirstLetter(s: string, start: bool)
    requires forall i :: 0 <= i < |s| ==> Lower(s[i]) != 'i' && Lower(s[i]) != 'n'
    ensures !ContainsNoCase(s, IDENTITY_PHRASE) && !HasNullLine(s, start)
  {
    assert IDENTITY_PHRASE[0] == 'i' && "null"[0] == 'n';
    if s != "" {
      NoFirstLetter(s[1..], s[0] == '\n');
    }
  }

  lemma {:induction false} NothingQuoted(s: string, q: char, i: nat)
    requires i <= |s| && q !in s
    ensures Quoted(s, q, i).None?
    decreases |s| - i
  {
    if i < |s| {
      NothingQuoted(s, q, i + 1);
    }
  }

  ghost predicate IsQuotedValue(s: string, q: char, value: Option<string>) {
    exists k: nat, j: nat :: Between(s, q, k, j) && value == Some(Undouble(s[k + 1..j], q))
  }

  /** What a default is taken for, whatever the text: nothing if it mentions the identity phrase or has a line reading
      NULL; else the text between single quotes, if there are any that open and close lines; else that
      between double quotes; else a number as it stands; else nothing. */
  lemma DefaultIs(s: string)
    ensures var value := ExtractValueFromDefault(Some(s));
            if Mentions(s, "identity generated by default") || HasLineNull(s) then value == None
            else if HasQuotedLines(s, '\'') then IsQuotedValue(s, '\'', value)
            else if HasQuotedLines(s, '"') then IsQuotedValue(s, '"', value)
            else value == if IsSpelledNumber(s) then Some(s) else None
  {
    ContainsIff(s, IDENTITY_PHRASE);
    LineNullIff(s);
    var k, j := QuotedIs(s, QUOTE, 0);
    var k', j' := QuotedIs(s, '"', 0);
    NumericIff(s);
  }

  /** Every number is a default that is known. */
  lemma NumbersAreKnown(s: string)
    requires IsSpelledNumber(s)
    ensures ExtractValueFromDefault(Some(s)) == Some(s)
  {
    NumericIff(s);
    assert forall i :: 0 <= i < |s| ==> s[i] == '-' || s[i] == '.' || '0' <= s[i] <= '9';
    NoFirstLetter(s, true);
    NothingQuoted(s, QUOTE, 0);
    NothingQuoted(s, '"', 0);
  }

  // ---------- the quoted form is one literal ----------

  /** The value of a character string literal behind its opening quote and the text behind its closing
      quote (section 5.3 of ISO/IEC 9075-2); None when it is not closed. */
  function LexLiteral(t: string): Option<(string, string)> {
    if t == "" then None
    else if t[0] == QUOTE then
      if |t| > 1 && t[1] == QUOTE then Prefixed(QUOTE, LexLiteral(t[2..])) else Some(("", t[1..]))
    else Prefixed(t[0], LexLiteral(t[1..]))
  }

  function Prefixed(c: char, r: Option<(string, string)>): Option<(string, string)> {
    match r
    case None => None
    case Some((value, rest)) => Some(([c] + value, rest))
  }

  lemma QuotedFirst(s: string, t: string)
    requires s != ""
    ensures QuoteString(s) + t == (if s[0] == QUOTE then "''" else [s[0]]) + (QuoteString(s[1..]) + t)
  {
    Regroup(if s[0] == QUOTE then "''" else [s[0]], QuoteString(s[1..]), t);
  }

  lemma LexFirst(c: char, u: string)
    ensures LexLiteral((if c == QUOTE then "''" else [c]) + u) == Prefixed(c, LexLiteral(u))
  {
    if c == QUOTE {
      assert ("''" + u)[2..] == u;
    } else {
      assert ([c] + u)[1..] == u;
    }
  }

  lemma {:induction false} LexQuoted(s: string, t: string)
    ensures LexLiteral(QuoteString(s) + t) ==
            match LexLiteral(t) case None => None case Some((v, rest)) => Some((s + v, rest))
  {
    if s == "" {
      assert QuoteString(s) + t == t;
      assert LexLiteral(t).Some? ==> "" + LexLiteral(t).value.0 == LexLiteral(t).value.0;
    } else {
      QuotedFirst(s, t);
      LexFirst(s[0], QuoteString(s[1..]) + t);
      LexQuoted(s[1..], t);
      if LexLiteral(t).Some? {
        Regroup([s[0]], s[1..], LexLiteral(t).value.0);
        assert [s[0]] + s[1..] == s;
      }
    }
  }

  /** Whatever follows it, the quoted form lexes as one literal with the string as its value, unless the
      following text goes on with a quote. */
  lemma QuotedLexesAsOneLiteralIff(s: string, rest: string)
    ensures LexLiteral(QuoteString(s) + "'" + rest) == Some((s, rest)) <==> rest == "" || rest[0] != QUOTE
  {
    var t := "'" + rest;
    LexQuoted(s, t);
    assert QuoteString(s) + "'" + rest == QuoteString(s) + t;
    assert t[1..] == rest;
    if rest == "" || rest[0] != QUOTE {
      assert LexLiteral(t) == Some(("", rest)) && s + "" == s;
    } else if LexLiteral(t).Some? {
      assert |LexLiteral(t).value.0| > 0;
    }
  }

  /** A default with a line reading NULL between two line breaks is read back as no default. */
  lemma InnerNullLineIsLost()
    ensures ExtractValueFromDefault(Some("'" + QuoteString("\nnull\n") + "'")) != Some("\nnull\n")
  {
    var s := "\nnull\n";
    assert s[1..] == "null\n";
    assert s[0] == '\n' && StartsNoCase(s[1..], "null\n");
    assert HasNullBetweenBreaks(s);
    DefaultRoundTripIff(s);
  }
}
