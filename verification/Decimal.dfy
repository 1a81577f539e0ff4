/** The character buffer of a DECIMAL or NUMERIC column (ibm_db.c, `_ruby_ibm_db_bind_column_helper` and
    `_ruby_ibm_db_result_helper`). */
module Decimal {

  function Pow10(k: nat): (r: nat)
    ensures r >= 1
  {
    if k == 0 then 1 else 10 * Pow10(k - 1)
  }

  // ---------- the printer ----------

  function Digit(d: nat): char
    requires d < 10
  {
    '0' + d as char
  }

  /** Decimal digits without leading zeros; "0" for zero. */
  function Digits(n: nat): (r: string)
    ensures |r| >= 1
  {
    if n < 10 then [Digit(n)] else Digits(n / 10) + [Digit(n % 10)]
  }

  /** The last k decimal digits. */
  function Padded(n: nat, k: nat): (r: string)
    ensures |r| == k
  {
    if k == 0 then "" else Padded(n / 10, k - 1) + [Digit(n % 10)]
  }

  /** The number without its last k decimal digits. */
  function Dropped(n: nat, k: nat): nat {
    if k == 0 then n else Dropped(n / 10, k - 1)
  }

  /** The value unscaled / 10^scale: a sign if negative, at least one digit before the point. */
  function Printed(unscaled: int, scale: nat): string {
    var n := if unscaled < 0 then -unscaled else unscaled;
    (if unscaled < 0 then "-" else "") + Digits(Dropped(n, scale)) + (if scale == 0 then "" else "." + Padded(n, scale))
  }

  predicate FitsType(unscaled: int, precision: nat) {
    0 < unscaled + Pow10(precision) && unscaled < Pow10(precision)
  }

  // ---------- reading it back ----------

  predicate IsDigit(c: char) {
    '0' <= c <= '9'
  }

  /** The number spelled by the digits of a text, whatever stands between them. */
  function Read(s: string): nat {
    if s == "" then 0
    else if IsDigit(s[|s| - 1]) then 10 * Read(s[..|s| - 1]) + (s[|s| - 1] - '0') as nat
    else Read(s[..|s| - 1])
  }

  lemma ReadNext(s: string, d: nat)
    requires d < 10
    ensures Read(s + [Digit(d)]) == 10 * Read(s) + d
  {
    var t := s + [Digit(d)];
    assert t[..|t| - 1] == s && t[|t| - 1] == Digit(d);
  }

  lemma {:induction false} ReadDigits(sign: string, n: nat)
    requires sign == "" || sign == "-"
    ensures Read(sign + Digits(n)) == n
  {
    assert Read(sign) == 0;
    if n < 10 {
      ReadNext(sign, n);
    } else {
      ReadDigits(sign, n / 10);
      ReadNext(sign + Digits(n / 10), n % 10);
      assert sign + Digits(n) == sign + Digits(n / 10) + [Digit(n % 10)];
    }
  }

  lemma ReadPoint(s: string, point: string)
    requires point == "" || point == "."
    ensures Read(s + point) == Read(s)
  {
    if point == "" {
      assert s + point == s;
    } else {
      assert (s + point)[..|s|] == s;
    }
  }

  lemma {:induction false} ReadPadded(front: string, n: nat, k: nat)
    requires Read(front) == Dropped(n, k)
    ensures Read(front + Padded(n, k)) == n
  {
    if k == 0 {
      assert front + "" == front;
    } else {
      ReadPadded(front, n / 10, k - 1);
      ReadNext(front + Padded(n / 10, k - 1), n % 10);
      assert front + Padded(n, k) == front + Padded(n / 10, k - 1) + [Digit(n % 10)];
    }
  }

  lemma ReadParts(sign: string, n: nat, scale: nat, point: string)
    requires (sign == "" || sign == "-") && (point == "" || point == ".")
    ensures Read(sign + Digits(Dropped(n, scale)) + point + Padded(n, scale)) == n
  {
    ReadDigits(sign, Dropped(n, scale));
    ReadPoint(sign + Digits(Dropped(n, scale)), point);
    ReadPadded(sign + Digits(Dropped(n, scale)) + point, n, scale);
  }

  /** The printed text determines the value: its digits spell the unscaled number, it starts with a sign
      exactly for a negative value, the point stands in front of the last `scale` digits, all else is digits, and the
      first of them is zero only right in front of the point or alone. */
  lemma PrintedReadsBack(unscaled: int, scale: nat)
    ensures var t := Printed(unscaled, scale);
            && Read(t) == (if unscaled < 0 then -unscaled else unscaled)
            && (t[0] == '-' <==> unscaled < 0)
            && (scale > 0 ==> |t| > scale && t[|t| - 1 - scale] == '.')
            && (forall i :: 0 <= i < |t| ==>
                  IsDigit(t[i]) || (i == 0 && unscaled < 0) || (scale > 0 && i == |t| - 1 - scale))
            && var first := if unscaled < 0 then 1 else 0;
               first < |t| && (t[first] == '0' ==> first + 1 == |t| || t[first + 1] == '.')
  {
    var n := if unscaled < 0 then -unscaled else unscaled;
    var sign, point := if unscaled < 0 then "-" else "", if scale == 0 then "" else ".";
    ReadParts(sign, n, scale, point);
    assert Printed(unscaled, scale) == sign + Digits(Dropped(n, scale)) + point + Padded(n, scale);
    DigitsOnly(Dropped(n, scale), n, scale);
  }

  lemma {:induction false} DigitsOnly(n: nat, m: nat, k: nat)
    ensures forall i :: 0 <= i < |Digits(n)| ==> IsDigit(Digits(n)[i])
    ensures forall i :: 0 <= i < k ==> IsDigit(Padded(m, k)[i])
    ensures Digits(n)[0] == '0' ==> |Digits(n)| == 1
    decreases n + k
  {
    if n >= 10 {
      DigitsOnly(n / 10, m, 0);
      NotZero(n / 10);
    }
    if k > 0 {
      DigitsOnly(0, m / 10, k - 1);
    }
  }

  lemma {:induction false} NotZero(n: nat)
    requires n > 0
    ensures Digits(n)[0] != '0'
  {
    if n >= 10 {
      NotZero(n / 10);
    }
  }

  // ---------- its length ----------

  lemma {:induction false} DigitsAtMost(n: nat, k: nat)
    requires n < Pow10(k) && k >= 1
    ensures |Digits(n)| <= k
  {
    if n >= 10 {
      DigitsAtMost(n / 10, k - 1);
    }
  }

  lemma {:induction false} DigitsAtLeast(n: nat, k: nat)
    requires n >= Pow10(k)
    ensures |Digits(n)| >= k + 1
  {
    if k == 0 {
    } else {
      DigitsAtLeast(n / 10, k - 1);
    }
  }

  lemma {:induction false} DroppedBelow(n: nat, a: nat, k: nat)
    ensures n < Pow10(a + k) ==> Dropped(n, k) < Pow10(a)
    ensures n >= Pow10(a + k) ==> Dropped(n, k) >= Pow10(a)
  {
    if k == 0 {
    } else {
      DroppedBelow(n / 10, a, k - 1);
    }
  }

  /** The bytes the longest value of a type takes, terminator included. */
  function Needed(precision: nat, scale: nat): int {
    1 + (if scale == precision then 1 else precision - scale) + (if scale == 0 then 0 else 1 + scale) + 1
  }

  lemma NothingNeedsMore(unscaled: int, precision: nat, scale: nat)
    requires scale <= precision && precision >= 1 && FitsType(unscaled, precision)
    ensures |Printed(unscaled, scale)| + 1 <= Needed(precision, scale)
  {
    var n := if unscaled < 0 then -unscaled else unscaled;
    DroppedBelow(n, precision - scale, scale);
    if scale < precision {
      DigitsAtMost(Dropped(n, scale), precision - scale);
    }
  }

  lemma LongestIsNeeded(precision: nat, scale: nat)
    requires scale <= precision && precision >= 1
    ensures FitsType(1 - Pow10(precision), precision)
    ensures |Printed(1 - Pow10(precision), scale)| + 1 == Needed(precision, scale)
  {
    var n := Pow10(precision) - 1;
    NothingNeedsMore(-n, precision, scale);
    if scale < precision {
      DroppedBelow(n, precision - scale - 1, scale);
      DigitsAtLeast(Dropped(n, scale), precision - scale - 1);
    }
  }

  /** Bytes allocated when the column is bound, and again when a single value is fetched. */
  function BufferLength(size: nat, scale: nat): nat {
    size + scale + 2 + 1
  }

  /** The buffer holds every value of its type, and is exactly filled by one only for DECIMAL(1,1). */
  lemma BufferSuffices(precision: nat, scale: nat)
    requires scale <= precision && precision >= 1
    ensures forall unscaled | FitsType(unscaled, precision) ::
              |Printed(unscaled, scale)| + 1 <= BufferLength(precision, scale)
    ensures (exists unscaled :: FitsType(unscaled, precision) &&
                                |Printed(unscaled, scale)| + 1 == BufferLength(precision, scale))
            <==> precision == scale == 1
  {
    forall unscaled | FitsType(unscaled, precision) ensures |Printed(unscaled, scale)| + 1 <= Needed(precision, scale) {
      NothingNeedsMore(unscaled, precision, scale);
    }
    LongestIsNeeded(precision, scale);
  }

  // ---------- the buffer ----------

  /** A C string: what stands before the first NUL. */
  function CString(buffer: seq<char>): string {
    if buffer == [] || buffer[0] == '\0' then "" else [buffer[0]] + CString(buffer[1..])
  }

  lemma {:induction false} CStringOf(text: string, buffer: seq<char>)
    requires |text| < |buffer| && buffer[..|text|] == text && buffer[|text|] == '\0' && '\0' !in text
    ensures CString(buffer) == text
  {
    if text == "" {
    } else {
      assert buffer[0] == text[0];
      assert buffer[1..][..|text| - 1] == text[1..];
      CStringOf(text[1..], buffer[1..]);
    }
  }

  lemma {:induction false} DigitsHaveNoNul(n: nat, k: nat)
    ensures '\0' !in Digits(n) && '\0' !in Padded(n, k)
    decreases n, k
  {
    if n >= 10 {
      DigitsHaveNoNul(n / 10, 0);
    }
    if k > 0 {
      PaddedHasNoNul(n, k);
    }
  }

  lemma {:induction false} PaddedHasNoNul(n: nat, k: nat)
    ensures '\0' !in Padded(n, k)
  {
    if k == 0 {
    } else {
      PaddedHasNoNul(n / 10, k - 1);
    }
  }

  /** The CLI copies the text, cut to leave room for its terminator, into the buffer the driver allocated. */
  method FetchDecimal(size: nat, scale: nat, unscaled: int) returns (buffer: array<char>)
    requires scale <= size && size >= 1 && FitsType(unscaled, size)
    ensures fresh(buffer) && buffer.Length == BufferLength(size, scale)
    ensures CString(buffer[..]) == Printed(unscaled, scale)
  {
    buffer := new char[BufferLength(size, scale)](_ => '\0');
    var text := Printed(unscaled, scale);
    var room := buffer.Length - 1;
    var count := if |text| <= room then |text| else room;
    for i := 0 to count
      invariant buffer[..i] == text[..i]
      invariant forall j :: i <= j < buffer.Length ==> buffer[j] == '\0'
    {
      buffer[i] := text[i];
    }
    NothingNeedsMore(unscaled, size, scale);
    var n := if unscaled < 0 then -unscaled else unscaled;
    DigitsHaveNoNul(Dropped(n, scale), 0);
    DigitsHaveNoNul(n, scale);
    CStringOf(text, buffer[..]);
  }
}
