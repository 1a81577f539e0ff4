/** Rewriting of `= NULL` and `IN (NULL)` behind WHERE, character by character (ibm_db_adapter.rb,
    `normalize_null_predicates` and its copy in `update`). */
module NullPredicates {
  import opened Sequences
  import opened Strings

  // ---------- gsub(/(=\s*NULL|IN\s*\(NULL\))/i, 'IS NULL') ----------

  /** `=\s*NULL` at the start of the text. */
  predicate EqualsNull(s: string) {
    s != "" && s[0] == '=' && StartsNoCase(Skip(s[1..]), "null")
  }

  /** `IN\s*\(NULL\)` at the start of the text. */
  predicate InNull(s: string) {
    StartsNoCase(s, "in") && StartsNoCase(Skip(s[2..]), "(null)")
  }

  predicate Matches(s: string) {
    EqualsNull(s) || InNull(s)
  }

  /** The text behind the match. */
  function Rest(s: string): (r: string)
    requires Matches(s)
    ensures |r| < |s|
  {
    if EqualsNull(s) then Skip(s[1..])[4..] else Skip(s[2..])[6..]
  }

  function Replace(s: string): string
    decreases |s|
  {
    if s == "" then ""
    else if Matches(s) then "IS NULL" + Replace(Rest(s))
    else [s[0]] + Replace(s[1..])
  }

  /** No match at any position. */
  predicate Clean(s: string) {
    s == "" || (!Matches(s) && Clean(s[1..]))
  }

  predicate MayStart(c: char) {
    c == '=' || c == 'i' || c == 'I'
  }

  lemma PrependPlain(c: char, s: string)
    requires !MayStart(c) && Clean(s)
    ensures Clean([c] + s)
  {
    assert ([c] + s)[1..] == s;
    assert StartsNoCase([c] + s, "in") ==> Lower(([c] + s)[0]) == 'i';
  }

  lemma {:induction false} PrependPlainText(p: string, s: string)
    requires Clean(s) && forall i :: 0 <= i < |p| ==> !MayStart(p[i])
    ensures Clean(p + s)
  {
    if p == "" {
      assert p + s == s;
    } else {
      PrependPlainText(p[1..], s);
      PrependPlain(p[0], p[1..] + s);
      assert p + s == [p[0]] + (p[1..] + s);
    }
  }

  lemma PrependReplacement(s: string)
    requires Clean(s)
    ensures Clean("IS NULL" + s)
  {
    PrependPlainText("S NULL", s);
    var t := "IS NULL" + s;
    assert t[1..] == "S NULL" + s;
    assert t[0] == 'I' && t[1] == 'S';
    assert !StartsNoCase(t, "in") by {
      assert Lower(t[1]) != "in"[1];
    }
  }

  /** A prefix without the letter I cannot come from a replacement. */
  lemma {:induction false} PrefixBack(s: string, p: string)
    requires StartsNoCase(Replace(s), p) && forall i :: 0 <= i < |p| ==> p[i] != 'i'
    ensures StartsNoCase(s, p)
    decreases |p|
  {
    if p == "" {
    } else {
      assert Lower(Replace(s)[0]) == p[0];
      assert !Matches(s);
      var r := Replace(s[1..]);
      forall i | 0 <= i < |p| - 1 ensures Lower(r[i]) == p[1..][i] {
        assert Replace(s)[i + 1] == r[i];
      }
      PrefixBack(s[1..], p[1..]);
      forall i | 0 <= i < |p| ensures Lower(s[i]) == p[i] {
        if i > 0 {
          assert Lower(s[1..][i - 1]) == p[1..][i - 1];
        }
      }
    }
  }

  lemma {:induction false} SkipKept(s: string)
    ensures Skip(Replace(s)) == Replace(Skip(s))
  {
    if s != "" && IsSpace(s[0]) {
      SkipKept(s[1..]);
      assert Replace(s)[1..] == Replace(s[1..]);
    }
  }

  /** Replacing behind a character creates no match at that character. */
  lemma NoNewEquals(s: string)
    requires !EqualsNull("=" + s)
    ensures !EqualsNull("=" + Replace(s))
  {
    assert ("=" + s)[1..] == s && ("=" + Replace(s))[1..] == Replace(s);
    SkipKept(s);
    if StartsNoCase(Replace(Skip(s)), "null") {
      PrefixBack(Skip(s), "null");
    }
  }

  lemma InNullBehind(c: char, d: char, s: string)
    ensures InNull([c, d] + s) <==> Lower(c) == 'i' && Lower(d) == 'n' && StartsNoCase(Skip(s), "(null)")
  {
    var t := [c, d] + s;
    assert t[0] == c && t[1] == d && t[2..] == s;
    assert StartsNoCase(t, "in") <==> Lower(t[0]) == "in"[0] && Lower(t[1]) == "in"[1];
  }

  lemma NoNewIn(c: char, d: char, s: string)
    requires !InNull([c, d] + s)
    ensures !InNull([c, d] + Replace(s))
  {
    InNullBehind(c, d, s);
    InNullBehind(c, d, Replace(s));
    SkipKept(s);
    if StartsNoCase(Replace(Skip(s)), "(null)") {
      PrefixBack(Skip(s), "(null)");
    }
  }

  lemma NoNewMatch(c: char, s: string)
    requires !Matches([c] + s)
    ensures !Matches([c] + Replace(s))
  {
    if c == '=' {
      NoNewEquals(s);
    } else if StartsNoCase([c] + Replace(s), "in") {
      BehindI(c, s);
    }
  }

  lemma BehindI(c: char, s: string)
    requires !InNull([c] + s) && StartsNoCase([c] + Replace(s), "in")
    ensures !InNull([c] + Replace(s))
  {
    var r := Replace(s);
    assert Lower(([c] + r)[0]) == "in"[0] && Lower(([c] + r)[1]) == "in"[1];
    assert s != "" && !Matches(s) && Lower(s[0]) == 'n';
    NoNewIn(c, s[0], s[1..]) by {
      assert [c] + s == [c, s[0]] + s[1..];
    }
    assert [c] + r == [c, s[0]] + Replace(s[1..]);
  }

  /** After the replacement nothing is left to replace. */
  lemma {:induction false} ReplaceLeavesNothing(s: string)
    ensures Clean(Replace(s))
    decreases |s|
  {
    if s == "" {
    } else {
      if Matches(s) {
        ReplaceLeavesNothing(Rest(s));
        PrependReplacement(Replace(Rest(s)));
      } else {
        ReplaceLeavesNothing(s[1..]);
        assert s == [s[0]] + s[1..];
        NoNewMatch(s[0], s[1..]);
        assert Replace(s)[1..] == Replace(s[1..]);
      }
    }
  }

  lemma {:induction false} CleanIsFixed(s: string)
    requires Clean(s)
    ensures Replace(s) == s
  {
    if s == "" {
    } else {
      CleanIsFixed(s[1..]);
    }
  }

  // ---------- every test and nothing else is replaced ----------

  /** A text seen as characters that stay and tests that are replaced, each as it is spelled. */
  datatype Part =
    | Kept(c: char)
    | EqualsTest(blanks: string, word: string)
    | InTest(inWord: string, blanks: string, word: string)

  function Spelled(p: Part): string {
    match p
    case Kept(c) => [c]
    case EqualsTest(blanks, word) => "=" + blanks + word
    case InTest(inWord, blanks, word) => inWord + blanks + word
  }

  function Text(ps: seq<Part>): string {
    if ps == [] then "" else Spelled(ps[0]) + Text(ps[1..])
  }

  function Rewritten(ps: seq<Part>): string {
    if ps == [] then "" else (if ps[0].Kept? then [ps[0].c] else "IS NULL") + Rewritten(ps[1..])
  }

  ghost predicate Blanks(w: string) {
    forall i :: 0 <= i < |w| ==> w[i] in " \t\n\r\U{000B}\U{000C}"
  }

  ghost predicate InAnyCase(t: string, lower: string, upper: string)
    requires |lower| == |upper|
  {
    |t| == |lower| && forall i :: 0 <= i < |t| ==> t[i] == lower[i] || t[i] == upper[i]
  }

  /** A test is an equals sign and NULL, or IN and NULL in parentheses, in any case and with blanks between the two. */
  ghost predicate IsTest(p: Part) {
    match p
    case Kept(_) => false
    case EqualsTest(blanks, word) => Blanks(blanks) && InAnyCase(word, "null", "NULL")
    case InTest(inWord, blanks, word) =>
      InAnyCase(inWord, "in", "IN") && Blanks(blanks) && InAnyCase(word, "(null)", "(NULL)")
  }

  ghost predicate StartsTest(s: string) {
    exists p, rest :: IsTest(p) && s == Spelled(p) + rest
  }

  /** The parts of a text, found from left to right: a character stays only where no test starts. */
  ghost predicate Scanned(ps: seq<Part>) {
    ps == [] || ((IsTest(ps[0]) || (ps[0].Kept? && !StartsTest(Text(ps)))) && Scanned(ps[1..]))
  }

  lemma BlanksAreSpaces(w: string)
    ensures Blanks(w) <==> forall i :: 0 <= i < |w| ==> IsSpace(w[i])
  {
    assert forall c: char :: c in " \t\n\r\U{000B}\U{000C}" <==> IsSpace(c);
  }

  lemma {:induction false} SkipsBlanks(w: string, s: string)
    requires Blanks(w)
    ensures Skip(w + s) == Skip(s)
  {
    BlanksAreSpaces(w);
    if w == "" {
      assert w + s == s;
    } else {
      assert (w + s)[1..] == w[1..] + s;
      SkipsBlanks(w[1..], s);
    }
  }

  lemma {:induction false} SkippedAreBlanks(s: string) returns (w: string)
    ensures Blanks(w) && s == w + Skip(s)
  {
    if s == "" || !IsSpace(s[0]) {
      w := "";
    } else {
      var v := SkippedAreBlanks(s[1..]);
      w := [s[0]] + v;
      BlanksAreSpaces(v);
      BlanksAreSpaces(w);
      assert s == [s[0]] + s[1..];
    }
  }

  lemma AnyCase(t: string, rest: string, lower: string, upper: string)
    requires (lower, upper) in {("null", "NULL"), ("in", "IN"), ("(null)", "(NULL)")}
    ensures |t| == |lower| ==> (InAnyCase(t, lower, upper) <==> StartsNoCase(t + rest, lower))
  {
    if |t| == |lower| {
      forall i | 0 <= i < |t| ensures (t[i] == lower[i] || t[i] == upper[i]) <==> Lower((t + rest)[i]) == lower[i] {
        assert (t + rest)[i] == t[i];
      }
    }
  }

  lemma EqualsTestMatches(blanks: string, word: string, rest: string)
    requires Blanks(blanks) && InAnyCase(word, "null", "NULL")
    ensures var s := "=" + (blanks + (word + rest)); EqualsNull(s) && Rest(s) == rest
  {
    var s := "=" + (blanks + (word + rest));
    AnyCase(word, rest, "null", "NULL");
    assert s[1..] == blanks + (word + rest);
    SkipsBlanks(blanks, word + rest);
    assert (word + rest)[4..] == rest;
  }

  lemma InTestMatches(inWord: string, blanks: string, word: string, rest: string)
    requires InAnyCase(inWord, "in", "IN") && Blanks(blanks) && InAnyCase(word, "(null)", "(NULL)")
    ensures var s := inWord + (blanks + (word + rest)); !EqualsNull(s) && InNull(s) && Rest(s) == rest
  {
    var t := blanks + (word + rest);
    AnyCase(inWord, t, "in", "IN");
    AnyCase(word, rest, "(null)", "(NULL)");
    assert (inWord + t)[0] == inWord[0] && (inWord + t)[2..] == t;
    SkipsBlanks(blanks, word + rest);
    assert (word + rest)[6..] == rest;
  }

  lemma TestMatches(p: Part, rest: string)
    requires IsTest(p)
    ensures Matches(Spelled(p) + rest) && Rest(Spelled(p) + rest) == rest
  {
    Regroup(if p.EqualsTest? then "=" else p.inWord, p.blanks, p.word);
    Regroup(if p.EqualsTest? then "=" else p.inWord, p.blanks + p.word, rest);
    Regroup(p.blanks, p.word, rest);
    if p.EqualsTest? {
      EqualsTestMatches(p.blanks, p.word, rest);
    } else {
      InTestMatches(p.inWord, p.blanks, p.word, rest);
    }
  }

  lemma CutWord(t: string, lower: string, upper: string) returns (word: string, rest: string)
    requires (lower, upper) in {("null", "NULL"), ("in", "IN"), ("(null)", "(NULL)")} && StartsNoCase(t, lower)
    ensures t == word + rest && |word| == |lower| && InAnyCase(word, lower, upper) && rest == t[|lower|..]
  {
    word, rest := t[..|lower|], t[|lower|..];
    AnyCase(word, rest, lower, upper);
  }

  lemma MatchIsTest(s: string) returns (p: Part)
    requires Matches(s)
    ensures IsTest(p) && s == Spelled(p) + Rest(s)
  {
    var first, behind, rest;
    if EqualsNull(s) {
      first, behind := "=", s[1..];
    } else {
      first, behind := CutWord(s, "in", "IN");
    }
    var blanks := SkippedAreBlanks(behind);
    var word;
    if EqualsNull(s) {
      word, rest := CutWord(Skip(behind), "null", "NULL");
      p := EqualsTest(blanks, word);
    } else {
      word, rest := CutWord(Skip(behind), "(null)", "(NULL)");
      p := InTest(first, blanks, word);
    }
    Regroup(first, blanks, word);
    Regroup(first, blanks + word, rest);
    Regroup(blanks, word, rest);
  }

  lemma MatchesIff(s: string)
    ensures Matches(s) <==> StartsTest(s)
  {
    if Matches(s) {
      var p := MatchIsTest(s);
    }
    if StartsTest(s) {
      var p, rest :| IsTest(p) && s == Spelled(p) + rest;
      TestMatches(p, rest);
    }
  }

  /** In a text scanned from left to right every test becomes IS NULL and every other character stays as it is. */
  lemma {:induction false} ReplaceRewritesTests(ps: seq<Part>)
    requires Scanned(ps)
    ensures Replace(Text(ps)) == Rewritten(ps)
  {
    if ps == [] {
    } else {
      var p, rest := ps[0], Text(ps[1..]);
      ReplaceRewritesTests(ps[1..]);
      if p.Kept? {
        MatchesIff(Text(ps));
        assert Text(ps)[1..] == rest;
      } else {
        TestMatches(p, rest);
      }
    }
  }

  /** Every text is scanned in one way or another, so the law above says what becomes of it. */
  lemma {:induction false} EveryTextIsScanned(s: string) returns (ps: seq<Part>)
    ensures Scanned(ps) && Text(ps) == s
    decreases |s|
  {
    MatchesIff(s);
    if s == "" {
      ps := [];
    } else {
      var p: Part;
      var rest;
      if Matches(s) {
        p := MatchIsTest(s);
        rest := Rest(s);
      } else {
        p, rest := Kept(s[0]), s[1..];
        assert s == [s[0]] + s[1..];
      }
      var tail := EveryTextIsScanned(rest);
      ps := [p] + tail;
      assert ps[1..] == tail;
    }
  }

  lemma PlainStays(c: char, s: string)
    requires !MayStart(c)
    ensures Replace([c] + s) == [c] + Replace(s)
  {
    var t := [c] + s;
    assert t[0] == c && t[1..] == s;
    assert StartsNoCase(t, "in") ==> Lower(t[0]) == 'i';
  }

  /** Text in which no test can start stands as it is in front of what is replaced behind it. */
  lemma {:induction false} PlainTextStays(t: string, rest: string)
    requires forall i :: 0 <= i < |t| ==> t[i] != '=' && t[i] != 'i' && t[i] != 'I'
    ensures Replace(t + rest) == t + Replace(rest)
  {
    if t == "" {
      assert t + rest == rest;
    } else {
      var c, u := t[0], t[1..];
      assert t == [c] + u;
      PlainTextStays(u, rest);
      PlainStays(c, u + rest);
      Regroup([c], u, rest);
      Regroup([c], u, Replace(rest));
    }
  }

  // ---------- split(/\s*WHERE\s*/) ----------

  const WHERE := "WHERE"

  /** `\s*WHERE` at the start of the text. */
  predicate AtWhere(s: string) {
    WHERE <= Skip(s)
  }

  /** The text behind `\s*WHERE\s*`. */
  function PastWhere(s: string): (r: string)
    requires AtWhere(s)
    ensures |r| < |s|
    ensures r != "" ==> !IsSpace(r[0])
  {
    Skip(Skip(s)[5..])
  }

  /** The pieces between one WHERE and the next. */
  function Pieces(s: string): (ps: seq<string>)
    ensures ps != []
    decreases |s|
  {
    if s == "" then [""]
    else if AtWhere(s) then [""] + Pieces(PastWhere(s))
    else
      var ps := Pieces(s[1..]);
      [[s[0]] + ps[0]] + ps[1..]
  }

  /** `split` drops trailing empty pieces. */
  function Trim(ps: seq<string>): (r: seq<string>)
    ensures r <= ps
    ensures r != [] ==> r[|r| - 1] != ""
  {
    if ps != [] && ps[|ps| - 1] == "" then Trim(ps[..|ps| - 1]) else ps
  }

  function Split(s: string): seq<string> {
    Trim(Pieces(s))
  }

  /** Every piece behind its own ` WHERE `. */
  function Join(ps: seq<string>): string {
    if ps == [] then "" else " WHERE " + ps[0] + Join(ps[1..])
  }

  function ReplaceAll(ps: seq<string>): seq<string> {
    seq(|ps|, i requires 0 <= i < |ps| => Replace(ps[i]))
  }

  function Normalize(s: string): string {
    var ps := Split(s);
    if |ps| <= 1 then s else ps[0] + Join(ReplaceAll(ps[1..]))
  }

  lemma {:induction false} JoinSnoc(ps: seq<string>, q: string)
    ensures Join(ps + [q]) == Join(ps) + " WHERE " + q
  {
    if ps == [] {
      assert [q][1..] == [];
      assert ps + [q] == [q];
      assert Join([q]) == " WHERE " + q + "";
    } else {
      JoinSnoc(ps[1..], q);
      assert (ps + [q])[1..] == ps[1..] + [q];
      assert " WHERE " + ps[0] + (Join(ps[1..]) + " WHERE " + q) == " WHERE " + ps[0] + Join(ps[1..]) + " WHERE " + q;
    }
  }

  lemma NextClause(first: string, rs: seq<string>, i: nat, built: string)
    requires i < |rs| && built == first + Join(rs[..i]) + " WHERE "
    ensures built + rs[i] == first + Join(rs[..i + 1])
  {
    assert rs[..i + 1] == rs[..i] + [rs[i]];
    JoinSnoc(rs[..i], rs[i]);
  }

  /** `normalize_null_predicates`: the pieces but the last in a loop, the last one behind it. */
  method NormalizeNullPredicates(sql: string) returns (normalized: string)
    ensures normalized == Normalize(sql)
  {
    var pieces := Split(sql);
    var size := |pieces|;
    if size <= 1 {
      return sql;
    }
    ghost var replaced := ReplaceAll(pieces[1..]);
    normalized := pieces[0] + " WHERE ";
    assert pieces[0] + "" == pieces[0] && Join(replaced[..0]) == "";
    for index := 1 to size - 1
      invariant normalized == pieces[0] + Join(replaced[..index - 1]) + " WHERE "
    {
      NextClause(pieces[0], replaced, index - 1, normalized);
      normalized := normalized + Replace(pieces[index]);
      normalized := normalized + " WHERE ";
    }
    NextClause(pieces[0], replaced, size - 2, normalized);
    assert replaced[..size - 1] == replaced;
    normalized := normalized + Replace(pieces[size - 1]);
  }

  // ---------- the pieces of a text ----------

  /** No WHERE at any position. */
  predicate NoWhere(s: string) {
    s == "" || (!AtWhere(s) && NoWhere(s[1..]))
  }

  predicate StartsTight(s: string) {
    s == "" || !IsSpace(s[0])
  }

  predicate EndsTight(s: string) {
    s == "" || !IsSpace(s[|s| - 1])
  }

  /** What `split` guarantees of the pieces of a text that does (`inside`) or does not follow a WHERE. */
  predicate Tight(ps: seq<string>, inside: bool) {
    && (forall i :: 0 <= i < |ps| ==> NoWhere(ps[i]))
    && (forall i :: 0 <= i < |ps| - 1 ==> EndsTight(ps[i]))
    && (forall i :: (if inside then 0 else 1) <= i < |ps| ==> StartsTight(ps[i]))
  }

  lemma PrependBlank(c: char, s: string)
    ensures AtWhere([c] + s) <==> (IsSpace(c) && AtWhere(s)) || (c == 'W' && "HERE" <= s)
  {
    var t := [c] + s;
    assert t[1..] == s;
    if !IsSpace(c) {
      assert Skip(t) == t;
      assert WHERE == ['W'] + "HERE";
      assert c == 'W' && "HERE" <= s ==> WHERE <= t;
      assert WHERE <= t ==> t[0] == WHERE[0] && t[1..][..4] == "HERE";
    }
  }

  /** The first piece of a text is a prefix of it; if more follow, a WHERE stands behind it. */
  lemma {:induction false} FirstPiece(s: string)
    ensures var p := Pieces(s)[0];
            && p <= s
            && (|Pieces(s)| > 1 ==> AtWhere(s[|p|..]) && Pieces(s)[1..] == Pieces(PastWhere(s[|p|..])))
            && (|Pieces(s)| == 1 ==> p == s)
  {
    if s != "" && !AtWhere(s) {
      FirstPiece(s[1..]);
      var q := Pieces(s[1..])[0];
      assert Pieces(s)[0] == [s[0]] + q && Pieces(s)[1..] == Pieces(s[1..])[1..];
      assert s == [s[0]] + s[1..];
      assert s[|q| + 1..] == s[1..][|q|..];
    } else {
      assert s[0..] == s;
    }
  }

  lemma {:induction false} NoWhereInFirst(s: string)
    ensures NoWhere(Pieces(s)[0])
    ensures |Pieces(s)| > 1 ==> EndsTight(Pieces(s)[0])
    ensures StartsTight(s) ==> StartsTight(Pieces(s)[0])
  {
    if s != "" && !AtWhere(s) {
      var c, t := s[0], s[1..];
      NoWhereInFirst(t);
      FirstPiece(t);
      var q := Pieces(t)[0];
      assert s == [c] + t && Pieces(s)[0] == [c] + q && ([c] + q)[1..] == q;
      PrependBlank(c, t);
      PrependBlank(c, q);
      assert "HERE" <= q ==> "HERE" <= t;
      if |Pieces(s)| > 1 && q == "" {
        assert t[0..] == t;
      }
    }
  }

  lemma {:induction false} PiecesAreTight(s: string, inside: bool)
    requires inside ==> StartsTight(s)
    ensures Tight(Pieces(s), inside)
    decreases |s|
  {
    var ps := Pieces(s);
    FirstPiece(s);
    NoWhereInFirst(s);
    if |ps| > 1 {
      var rest := PastWhere(s[|ps[0]|..]);
      PiecesAreTight(rest, true);
      assert forall i :: 1 <= i < |ps| ==> ps[i] == Pieces(rest)[i - 1];
    }
  }

  // ---------- splitting what was joined ----------

  /** A clause as it is written: the blanks around its WHERE, and the text behind it. */
  datatype Clause = Clause(before: string, behind: string, text: string)

  function Written(cs: seq<Clause>): string {
    if cs == [] then "" else cs[0].before + (WHERE + (cs[0].behind + (cs[0].text + Written(cs[1..]))))
  }

  function Texts(cs: seq<Clause>): seq<string> {
    seq(|cs|, i requires 0 <= i < |cs| => cs[i].text)
  }

  /** WHERE between blanks splits off what stands behind it. */
  lemma SplitsOff(before: string, behind: string, s: string)
    requires Blanks(before) && Blanks(behind) && (StartsTight(s) || AtWhere(s))
    ensures var t := before + (WHERE + (behind + s)); AtWhere(t) && Pieces(t) == [""] + Pieces(s)
  {
    var t, u := before + (WHERE + (behind + s)), WHERE + (behind + s);
    SkipsBlanks(before, u);
    SkipsBlanks(behind, s);
    assert u[5..] == behind + s;
    assert PastWhere(t) == Skip(s);
    if !StartsTight(s) {
      SkippedWhere(s);
    }
  }

  lemma {:induction false} SkippedWhere(s: string)
    requires AtWhere(s)
    ensures Pieces(Skip(s)) == Pieces(s)
  {
    if IsSpace(s[0]) {
      SkippedWhere(s[1..]);
      assert s == [s[0]] + s[1..];
      assert Skip(Skip(s)) == Skip(s);
      assert PastWhere(s) == PastWhere(Skip(s));
    }
  }

  /** A tight piece and the WHERE behind it form no WHERE between them. */
  lemma {:induction false} NoWhereAcross(q: string, rest: string)
    requires q != "" && !AtWhere(q)
    requires rest == "" || (EndsTight(q) && AtWhere(rest))
    ensures !AtWhere(q + rest)
  {
    var c, q' := q[0], q[1..];
    assert q == [c] + q' && q + rest == [c] + (q' + rest);
    PrependBlank(c, q');
    PrependBlank(c, q' + rest);
    if IsSpace(c) {
      if q' == "" {
        assert rest == "";
        assert q' + rest == "";
      } else {
        NoWhereAcross(q', rest);
      }
    } else if c == 'W' && "HERE" <= q' + rest {
      HereStays(q', rest);
    }
  }

  lemma WhereStarts(rest: string)
    requires AtWhere(rest)
    ensures rest != "" && (IsSpace(rest[0]) || rest[0] == 'W')
  {
  }

  lemma HereStays(q: string, rest: string)
    requires "HERE" <= q + rest && (rest == "" || AtWhere(rest))
    ensures "HERE" <= q
  {
    if rest != "" {
      WhereStarts(rest);
      assert (q + rest)[|q|] == rest[0];
    }
    assert forall i :: 0 <= i < 4 ==> (q + rest)[i] == "HERE"[i];
  }

  lemma PlainFirst(c: char, s: string)
    requires !AtWhere([c] + s)
    ensures Pieces([c] + s) == [[c] + Pieces(s)[0]] + Pieces(s)[1..]
  {
    assert ([c] + s)[1..] == s;
  }

  lemma {:induction false} PieceThen(q: string, rest: string)
    requires NoWhere(q) && (rest == "" || (EndsTight(q) && AtWhere(rest)))
    ensures Pieces(q + rest) == [q + Pieces(rest)[0]] + Pieces(rest)[1..]
  {
    if q == "" {
      assert q + rest == rest && "" + Pieces(rest)[0] == Pieces(rest)[0];
    } else {
      var c, tail := q[0], q[1..];
      assert q == [c] + tail;
      Regroup([c], tail, rest);
      Regroup([c], tail, Pieces(rest)[0]);
      NoWhereAcross(q, rest);
      PieceThen(tail, rest);
      PlainFirst(c, tail + rest);
    }
  }

  /** Pieces that may follow a WHERE, the last of them not empty. */
  predicate Clauses(ps: seq<string>) {
    && (forall i :: 0 <= i < |ps| ==> NoWhere(ps[i]) && StartsTight(ps[i]))
    && (forall i :: 0 <= i < |ps| - 1 ==> EndsTight(ps[i]))
    && (ps != [] ==> ps[|ps| - 1] != "")
  }

  /** Clauses that are read back as they were written. */
  ghost predicate Readable(cs: seq<Clause>) {
    Clauses(Texts(cs)) && forall i :: 0 <= i < |cs| ==> Blanks(cs[i].before) && Blanks(cs[i].behind)
  }

  lemma ReadableNext(cs: seq<Clause>)
    requires cs != [] && Readable(cs)
    ensures Readable(cs[1..]) && Texts(cs) == [cs[0].text] + Texts(cs[1..])
    ensures NoWhere(cs[0].text) && StartsTight(cs[0].text) && Blanks(cs[0].before) && Blanks(cs[0].behind)
    ensures |cs| > 1 ==> EndsTight(cs[0].text)
    ensures |cs| == 1 ==> cs[0].text != ""
  {
    var ps, more := Texts(cs), Texts(cs[1..]);
    assert ps[0] == cs[0].text;
    assert forall i :: 0 <= i < |more| ==> more[i] == ps[i + 1];
  }

  /** A text splits at every WHERE written in it, whatever blanks stand around it. */
  lemma {:induction false} WrittenSplits(q: string, cs: seq<Clause>)
    requires NoWhere(q) && (cs != [] ==> EndsTight(q)) && Readable(cs)
    ensures cs != [] ==> AtWhere(Written(cs))
    ensures Pieces(q + Written(cs)) == [q] + Texts(cs)
    decreases |cs|
  {
    assert q + "" == q;
    if cs == [] {
      PieceThen(q, "");
    } else {
      var more := cs[1..];
      ReadableNext(cs);
      WrittenSplits(cs[0].text, more);
      TextStarts(cs[0].text, more);
      SplitsOff(cs[0].before, cs[0].behind, cs[0].text + Written(more));
      PieceThen(q, Written(cs));
    }
  }

  lemma TextStarts(text: string, more: seq<Clause>)
    requires StartsTight(text) && (text == "" ==> more != []) && (more != [] ==> AtWhere(Written(more)))
    ensures var s := text + Written(more); StartsTight(s) || AtWhere(s)
  {
    if text == "" {
      assert text + Written(more) == Written(more);
    }
  }

  /** The clauses as they are joined again. */
  function Spaced(ps: seq<string>): seq<Clause> {
    seq(|ps|, i requires 0 <= i < |ps| => Clause(" ", " ", ps[i]))
  }

  lemma SpacedWhere(s: string)
    ensures " WHERE " + s == " " + (WHERE + (" " + s))
  {
    assert " WHERE " == " " + (WHERE + " ");
  }

  lemma {:induction false} JoinIsWritten(ps: seq<string>)
    ensures Join(ps) == Written(Spaced(ps))
  {
    if ps == [] {
    } else {
      JoinIsWritten(ps[1..]);
      assert Spaced(ps)[1..] == Spaced(ps[1..]);
      Regroup(" WHERE ", ps[0], Join(ps[1..]));
      SpacedWhere(ps[0] + Join(ps[1..]));
    }
  }

  /** Tight pieces are what their joined text splits into. */
  lemma JoinedSplits(q: string, ps: seq<string>)
    requires NoWhere(q) && (ps != [] ==> EndsTight(q)) && Clauses(ps)
    ensures Pieces(q + Join(ps)) == [q] + ps
  {
    JoinIsWritten(ps);
    assert Texts(Spaced(ps)) == ps;
    WrittenSplits(q, Spaced(ps));
  }

  /** What normalising makes of a text with clauses: the text in front of the first WHERE stays, every clause has its
      tests replaced, and one blank stands on either side of each WHERE. Without a clause nothing changes. */
  lemma NormalizeRewritesClauses(q: string, cs: seq<Clause>)
    requires NoWhere(q) && (cs != [] ==> EndsTight(q)) && Readable(cs)
    ensures Normalize(q + Written(cs)) == q + Join(ReplaceAll(Texts(cs)))
  {
    WrittenSplits(q, cs);
    var ps := [q] + Texts(cs);
    if cs == [] {
      assert q + "" == q && Pieces(q) == [q];
    } else {
      assert ps[|ps| - 1] == Texts(cs)[|cs| - 1];
      TrimIsFixed(ps);
      assert ps[1..] == Texts(cs);
    }
  }

  lemma OneClause(c: Clause)
    ensures Written([c]) == c.before + (WHERE + (c.behind + c.text))
    ensures Join(ReplaceAll(Texts([c]))) == " WHERE " + Replace(c.text)
  {
    assert c.text + "" == c.text;
    var rs := ReplaceAll(Texts([c]));
    assert rs == [Replace(c.text)] && rs[1..] == [];
    assert " WHERE " + rs[0] + "" == " WHERE " + rs[0];
  }

  /** The same for one clause, its text scanned. */
  lemma NormalizeOneClause(q: string, before: string, behind: string, ps: seq<Part>)
    requires NoWhere(q) && EndsTight(q) && Blanks(before) && Blanks(behind) && Scanned(ps)
    requires Text(ps) != "" && NoWhere(Text(ps)) && StartsTight(Text(ps))
    ensures Normalize(q + (before + ("WHERE" + (behind + Text(ps))))) == q + (" WHERE " + Rewritten(ps))
  {
    var c := Clause(before, behind, Text(ps));
    assert Readable([c]);
    OneClause(c);
    NormalizeRewritesClauses(q, [c]);
    ReplaceRewritesTests(ps);
  }

  // ---------- replacing keeps pieces tight ----------

  lemma {:induction false} ExactBack(s: string, p: string)
    requires p <= Replace(s) && forall i :: 0 <= i < |p| ==> p[i] != 'I'
    ensures p <= s
    decreases |p|
  {
    if p == "" {
    } else {
      assert Replace(s)[0] == p[0];
      assert !Matches(s);
      assert Replace(s)[1..] == Replace(s[1..]);
      assert p[1..] <= Replace(s[1..]);
      ExactBack(s[1..], p[1..]);
      assert p == [p[0]] + p[1..] && s == [s[0]] + s[1..];
    }
  }

  lemma {:induction false} NoWhereDrop(s: string, k: nat)
    requires NoWhere(s) && k <= |s|
    ensures NoWhere(s[k..])
  {
    if k > 0 {
      NoWhereDrop(s[1..], k - 1);
      assert s[1..][k - 1..] == s[k..];
    } else {
      assert s[0..] == s;
    }
  }

  lemma {:induction false} NoWhereBehind(p: string, s: string)
    requires NoWhere(s) && forall i :: 0 <= i < |p| ==> !IsSpace(p[i]) && p[i] != 'W'
    ensures NoWhere(p + s)
  {
    if p == "" {
      assert p + s == s;
    } else {
      NoWhereBehind(p[1..], s);
      PrependBlank(p[0], p[1..] + s);
      assert p + s == [p[0]] + (p[1..] + s) && (p + s)[1..] == p[1..] + s;
    }
  }

  /** What a match leaves is the text behind the blanks behind its first word, without its last word. */
  lemma RestParts(s: string) returns (k: nat, d: nat)
    requires Matches(s)
    ensures k <= |s| && d <= |Skip(s[k..])| && Rest(s) == Skip(s[k..])[d..]
  {
    if EqualsNull(s) {
      k, d := 1, 4;
    } else {
      k, d := 2, 6;
    }
  }

  lemma RestIsSuffix(s: string)
    requires Matches(s)
    ensures Rest(s) == s[|s| - |Rest(s)|..]
  {
    var k, d := RestParts(s);
    SkippedIsSuffix(s, k);
    SuffixOfSuffix(s, Skip(s[k..]), d);
  }

  lemma SkippedIsSuffix(s: string, k: nat)
    requires k <= |s|
    ensures |Skip(s[k..])| <= |s| && Skip(s[k..]) == s[|s| - |Skip(s[k..])|..]
  {
    var u := s[k..];
    SkipIsSuffix(u);
    assert u[|u| - |Skip(u)|..] == s[k + |u| - |Skip(u)|..];
  }

  lemma SuffixOfSuffix(s: string, v: string, d: nat)
    requires |v| <= |s| && v == s[|s| - |v|..] && d <= |v|
    ensures v[d..] == s[|s| - |v[d..]|..]
  {
  }

  lemma RestHasNoWhere(s: string)
    requires NoWhere(s) && Matches(s)
    ensures NoWhere(Rest(s))
  {
    RestIsSuffix(s);
    NoWhereDrop(s, |s| - |Rest(s)|);
  }

  lemma BehindNull(r: string)
    requires NoWhere(r)
    ensures NoWhere(" " + ("NULL" + r))
  {
    var t := "NULL" + r;
    NoWhereBehind("NULL", r);
    PrependBlank(' ', t);
    assert (" " + t)[1..] == t;
  }

  lemma BehindReplacement(r: string)
    requires NoWhere(r)
    ensures NoWhere("IS NULL" + r)
  {
    var t := " " + ("NULL" + r);
    BehindNull(r);
    NoWhereBehind("IS", t);
    assert "IS NULL" + r == "IS" + t;
  }

  lemma {:induction false} ReplaceKeepsNoWhere(s: string)
    requires NoWhere(s)
    ensures NoWhere(Replace(s))
    decreases |s|
  {
    if s == "" {
    } else {
      if Matches(s) {
        RestHasNoWhere(s);
        ReplaceKeepsNoWhere(Rest(s));
        BehindReplacement(Replace(Rest(s)));
      } else {
        var c, t := s[0], s[1..];
        ReplaceKeepsNoWhere(t);
        assert s == [c] + t && Replace(s)[1..] == Replace(t);
        PrependBlank(c, t);
        PrependBlank(c, Replace(t));
        if "HERE" <= Replace(t) {
          ExactBack(t, "HERE");
        }
      }
    }
  }

  lemma {:induction false} ReplaceKeepsEnds(s: string)
    ensures Replace(s) == "" <==> s == ""
    ensures StartsTight(s) ==> StartsTight(Replace(s))
    ensures EndsTight(s) ==> EndsTight(Replace(s))
    decreases |s|
  {
    if s == "" {
    } else {
      if Matches(s) {
        RestIsSuffix(s);
        ReplaceKeepsEnds(Rest(s));
      } else {
        ReplaceKeepsEnds(s[1..]);
      }
    }
  }

  lemma ReplaceKeepsPiece(s: string)
    requires NoWhere(s)
    ensures NoWhere(Replace(s)) && (Replace(s) == "" <==> s == "")
    ensures StartsTight(s) ==> StartsTight(Replace(s))
    ensures EndsTight(s) ==> EndsTight(Replace(s))
  {
    ReplaceKeepsNoWhere(s);
    ReplaceKeepsEnds(s);
  }

  lemma ReplaceKeepsClauses(ps: seq<string>)
    requires Clauses(ps)
    ensures Clauses(ReplaceAll(ps))
  {
    forall i | 0 <= i < |ps|
      ensures NoWhere(Replace(ps[i])) && StartsTight(Replace(ps[i])) && (EndsTight(ps[i]) ==> EndsTight(Replace(ps[i])))
      ensures Replace(ps[i]) == "" <==> ps[i] == ""
    {
      ReplaceKeepsPiece(ps[i]);
    }
  }

  lemma {:induction false} TrimIsFixed(ps: seq<string>)
    requires ps == [] || ps[|ps| - 1] != ""
    ensures Trim(ps) == ps
  {
  }

  lemma ReplaceAllTwice(ps: seq<string>)
    ensures ReplaceAll(ReplaceAll(ps)) == ReplaceAll(ps)
  {
    forall i | 0 <= i < |ps| ensures Replace(Replace(ps[i])) == Replace(ps[i]) {
      ReplaceLeavesNothing(ps[i]);
      CleanIsFixed(Replace(ps[i]));
    }
  }

  /** A rewritten text splits into its own rewritten pieces. */
  lemma NormalizedSplits(s: string)
    requires |Split(s)| > 1
    ensures var ps := Split(s); Split(Normalize(s)) == [ps[0]] + ReplaceAll(ps[1..])
  {
    var ps := Split(s);
    PiecesAreTight(s, false);
    var clauses := ps[1..];
    assert forall i :: 0 <= i < |clauses| ==> clauses[i] == Pieces(s)[i + 1];
    ReplaceKeepsClauses(clauses);
    JoinedSplits(ps[0], ReplaceAll(clauses));
    TrimIsFixed([ps[0]] + ReplaceAll(clauses));
  }

  /** Normalising a second time changes nothing, whatever the text. */
  lemma NormalizeTwice(s: string)
    ensures Normalize(Normalize(s)) == Normalize(s)
  {
    var ps := Split(s);
    if |ps| > 1 {
      var qs := ReplaceAll(ps[1..]);
      NormalizedSplits(s);
      ReplaceAllTwice(ps[1..]);
      assert ([ps[0]] + qs)[1..] == qs;
    }
  }

  /** The copy of the rewriting in `update`. */
  method UnrolledCopy(first: string) returns (sql: string)
    ensures sql == Normalize(first)
  {
    sql := first;
    var pieces := Split(sql);
    var size := |pieces|;
    if size > 1 {
      sql := pieces[0] + " WHERE ";
      sql := RewritePieces(pieces, sql);
    }
  }

  /** Its loop, and the last piece behind it. */
  method RewritePieces(pieces: seq<string>, start: string) returns (sql: string)
    requires |pieces| > 1 && start == pieces[0] + " WHERE "
    ensures sql == pieces[0] + Join(ReplaceAll(pieces[1..]))
  {
    ghost var replaced := ReplaceAll(pieces[1..]);
    var size := |pieces|;
    sql := start;
    assert pieces[0] + "" == pieces[0] && Join(replaced[..0]) == "";
    for index := 1 to size - 1
      invariant sql == pieces[0] + Join(replaced[..index - 1]) + " WHERE "
    {
      NextClause(pieces[0], replaced, index - 1, sql);
      sql := sql + Replace(pieces[index]);
      sql := sql + " WHERE ";
    }
    NextClause(pieces[0], replaced, size - 2, sql);
    assert replaced[..size - 1] == replaced;
    sql := sql + Replace(pieces[size - 1]);
  }

  /** `update`: the statement comes normalised from `to_sql_and_binds` and goes through the copy of the
      rewriting in the method itself. */
  method UpdateRewrites(arel: string) returns (sql: string)
    ensures sql == Normalize(arel)
  {
    var normalized := NormalizeNullPredicates(arel);
    sql := UnrolledCopy(normalized);
    NormalizeTwice(arel);
  }

  // ---------- what is left ----------

  predicate StartsClause(s: string) {
    " WHERE" <= s
  }

  lemma {:induction false} SkipAppend(q: string, rest: string)
    ensures Skip(q + rest) == if Skip(q) != "" then Skip(q) + rest else Skip(rest)
  {
    if q == "" {
      assert q + rest == rest;
    } else {
      assert (q + rest)[1..] == q[1..] + rest;
      SkipAppend(q[1..], rest);
    }
  }

  /** A word without blanks cannot run from one piece into the next clause. */
  lemma WordStays(u: string, rest: string, p: string)
    requires StartsNoCase(u + rest, p) && (rest == "" || StartsClause(rest))
    requires forall i :: 0 <= i < |p| ==> p[i] != ' '
    ensures StartsNoCase(u, p)
  {
    assert rest != "" ==> rest[0] == " WHERE"[0] && (u + rest)[|u|] == rest[0];
    assert forall i :: 0 <= i < |u| ==> (u + rest)[i] == u[i];
  }

  lemma SkipClause(rest: string)
    requires rest == "" || StartsClause(rest)
    ensures Skip(rest) != "" ==> Skip(rest)[0] == 'W'
  {
    if rest != "" {
      assert rest[0] == " WHERE"[0] && rest[1] == " WHERE"[1];
    }
  }

  lemma WordBehindBlanks(q: string, rest: string, p: string)
    requires StartsNoCase(Skip(q + rest), p) && (rest == "" || StartsClause(rest))
    requires p != "" && p[0] != 'w' && forall i :: 0 <= i < |p| ==> p[i] != ' '
    ensures StartsNoCase(Skip(q), p)
  {
    SkipAppend(q, rest);
    if Skip(q) != "" {
      WordStays(Skip(q), rest, p);
    } else {
      SkipClause(rest);
    }
  }

  lemma NoEqualsAcross(c: char, q: string, rest: string)
    requires rest == "" || StartsClause(rest)
    ensures EqualsNull([c] + (q + rest)) ==> EqualsNull([c] + q)
  {
    assert ([c] + (q + rest))[1..] == q + rest && ([c] + q)[1..] == q;
    if EqualsNull([c] + (q + rest)) {
      WordBehindBlanks(q, rest, "null");
    }
  }

  lemma NoInAcross(q: string, rest: string)
    requires rest == "" || StartsClause(rest)
    ensures InNull(q + rest) ==> InNull(q)
  {
    if InNull(q + rest) {
      WordStays(q, rest, "in");
      assert (q + rest)[2..] == q[2..] + rest;
      WordBehindBlanks(q[2..], rest, "(null)");
    }
  }

  lemma {:induction false} CleanThen(q: string, rest: string)
    requires Clean(q) && Clean(rest) && (rest == "" || StartsClause(rest))
    ensures Clean(q + rest)
  {
    if q == "" {
      assert q + rest == rest;
    } else {
      var c, t := q[0], q[1..];
      CleanThen(t, rest);
      NoEqualsAcross(c, t, rest);
      NoInAcross(q, rest);
      assert q == [c] + t && q + rest == [c] + (t + rest) && (q + rest)[1..] == t + rest;
    }
  }

  lemma {:induction false} CleanJoin(qs: seq<string>)
    requires forall i :: 0 <= i < |qs| ==> Clean(qs[i])
    ensures Clean(Join(qs))
  {
    if qs == [] {
    } else {
      var rest := Join(qs[1..]);
      CleanJoin(qs[1..]);
      assert rest == "" || StartsClause(rest);
      CleanThen(qs[0], rest);
      PrependPlainText(" WHERE ", qs[0] + rest);
      Regroup(" WHERE ", qs[0], rest);
    }
  }

  /** A text that is rewritten keeps everything in front of its first WHERE, and behind that no
      `= NULL` or `IN (NULL)` is left anywhere. */
  lemma NothingLeftBehindWhere(s: string)
    requires |Split(s)| > 1
    ensures var p := Split(s)[0];
            && p <= s && AtWhere(s[|p|..]) && NoWhere(p)
            && p <= Normalize(s)
            && Clean(Normalize(s)[|p|..])
  {
    var ps := Split(s);
    FirstPiece(s);
    NoWhereInFirst(s);
    var qs := ReplaceAll(ps[1..]);
    forall i | 0 <= i < |qs| ensures Clean(qs[i]) {
      ReplaceLeavesNothing(ps[1..][i]);
    }
    CleanJoin(qs);
    assert Normalize(s)[|ps[0]|..] == Join(qs);
  }
}
