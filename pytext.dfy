/**
 * The two Python text conversions that client input goes through before the
 * task tracker sees it: `str.strip()` (the serializer's whitespace trimming)
 * and `int(str)` (how a primary key given as text is turned into an id).
 */
module PyText {
  import opened Wrappers

  /** Python 3's `str.isspace()`. */
  predicate IsSpace(c: char) {
    || ('\t' <= c <= '\r')
    || ('\U{1C}' <= c <= '\U{1F}')
    || c == ' '
    || c == '\U{85}'
    || c == '\U{A0}'
    || c == '\U{1680}'
    || ('\U{2000}' <= c <= '\U{200A}')
    || c == '\U{2028}'
    || c == '\U{2029}'
    || c == '\U{202F}'
    || c == '\U{205F}'
    || c == '\U{3000}'
  }

  /** True when `s` neither starts nor ends with whitespace. */
  predicate Trimmed(s: string) {
    s == [] || (!IsSpace(s[0]) && !IsSpace(s[|s| - 1]))
  }

  /** `s` without its leading whitespace. */
  function TrimStart(s: string): (r: string)
    ensures |r| <= |s| && r == s[|s| - |r|..]
    ensures r == [] || !IsSpace(r[0])
    ensures forall k :: 0 <= k < |s| - |r| ==> IsSpace(s[k])
  {
    if s != [] && IsSpace(s[0]) then TrimStart(s[1..]) else s
  }

  /** `s` without its trailing whitespace. */
  function TrimEnd(s: string): (r: string)
    ensures |r| <= |s| && r == s[..|r|]
    ensures r == [] || !IsSpace(r[|r| - 1])
    ensures forall k :: |r| <= k < |s| ==> IsSpace(s[k])
  {
    if s != [] && IsSpace(s[|s| - 1]) then TrimEnd(s[..|s| - 1]) else s
  }

  /** How many whitespace characters `s` starts with. */
  function Indent(s: string): nat {
    |s| - |TrimStart(s)|
  }

  /**
   * Python's `s.strip()`: the part of `s` that starts at its first
   * non-whitespace character and ends at its last one; everything before
   * and after that part is whitespace.
   */
  function Strip(s: string): (r: string)
    ensures |r| <= |s|
    ensures Trimmed(r)
    ensures Indent(s) + |r| <= |s| && forall k :: 0 <= k < |r| ==> r[k] == s[Indent(s) + k]
    ensures forall k :: 0 <= k < Indent(s) ==> IsSpace(s[k])
    ensures forall k :: Indent(s) + |r| <= k < |s| ==> IsSpace(s[k])
    ensures r == [] <==> forall k :: 0 <= k < |s| ==> IsSpace(s[k])
    ensures Trimmed(s) ==> r == s
  {
    var front := TrimStart(s);
    var r := TrimEnd(front);
    assert r != [] ==> r[0] == front[0];
    TrimmedPart(s);
    r
  }

  /** The trimmed part of `s` is the slice after its indent, followed only by whitespace. */
  lemma TrimmedPart(s: string)
    ensures var r := TrimEnd(TrimStart(s));
            && Indent(s) + |r| <= |s| && (forall k :: 0 <= k < |r| ==> r[k] == s[Indent(s) + k])
            && forall k :: Indent(s) + |r| <= k < |s| ==> IsSpace(s[k])
  {
    var front := TrimStart(s);
    var i := Indent(s);
    var r := TrimEnd(front);
    assert front == s[i..];
    forall k | i + |r| <= k < |s|
      ensures IsSpace(s[k])
    {
      assert s[k] == front[k - i];
    }
  }

  predicate IsDigit(c: char) {
    '0' <= c <= '9'
  }

  predicate AllDigits(s: string) {
    forall k :: 0 <= k < |s| ==> IsDigit(s[k])
  }

  /** The number that a string of decimal digits denotes. */
  function DigitsValue(s: string): nat
    requires AllDigits(s)
  {
    if s == [] then 0
    else DigitsValue(s[..|s| - 1]) * 10 + (s[|s| - 1] as int - '0' as int)
  }

  /** A digit string has no surrounding whitespace and no sign. */
  lemma DigitsAreStripped(text: string)
    ensures text != [] && AllDigits(text) ==> Strip(text) == text && IsDigit(text[0])
  {
    if text != [] && AllDigits(text) {
      assert IsDigit(text[0]) && IsDigit(text[|text| - 1]);
    }
  }

  predicate IsSign(c: char) {
    c == '+' || c == '-'
  }

  /** The value of an optional sign followed by digits. */
  function SignedValue(s: string): int
    requires s != [] && IsSign(s[0]) ==> AllDigits(s[1..])
    requires s != [] && !IsSign(s[0]) ==> AllDigits(s)
  {
    if s != [] && s[0] == '-' then 0 - DigitsValue(s[1..])
    else if s != [] && s[0] == '+' then DigitsValue(s[1..])
    else DigitsValue(s)
  }

  /** A well-formed base-10 numeral: an optional sign followed by at least one digit. */
  predicate Numeral(s: string) {
    if s != [] && IsSign(s[0]) then |s| >= 2 && AllDigits(s[1..]) else s != [] && AllDigits(s)
  }

  /**
   * Python's `int(text)` in base 10: surrounding whitespace is ignored, an
   * optional sign is followed by at least one ASCII digit; anything else is
   * a ValueError, here `None`.
   */
  function ParseInt(text: string): (r: Option<int>)
    ensures Strip(text) == [] ==> r == None
    ensures text != [] && AllDigits(text) ==> r == Some(DigitsValue(text))
  {
    DigitsAreStripped(text);
    var s := Strip(text);
    if s == [] then None
    else if s[0] == '+' || s[0] == '-' then
      var digits := s[1..];
      if digits != [] && AllDigits(digits) then
        var magnitude: int := DigitsValue(digits);
        Some(if s[0] == '-' then -magnitude else magnitude)
      else None
    else if AllDigits(s) then Some(DigitsValue(s))
    else None
  }

  /**
   * `int()` accepts exactly the texts that are a numeral once stripped, and
   * reads them as their signed value.
   */
  lemma ParseIntNumeral(text: string)
    ensures ParseInt(text).Some? <==> Numeral(Strip(text))
    ensures ParseInt(text).Some? ==> ParseInt(text).value == SignedValue(Strip(text))
  {
    var s := Strip(text);
    if s != [] && IsSign(s[0]) {
      assert Numeral(s) <==> s[1..] != [] && AllDigits(s[1..]);
    }
  }

  /** Whitespace around a numeral does not change what `int()` reads. */
  lemma ParseIntIgnoresPadding(text: string)
    ensures ParseInt(text) == ParseInt(Strip(text))
  {
    var s := Strip(text);
    assert Strip(s) == s;
    ParseIntNumeral(text);
    ParseIntNumeral(s);
  }

  /**
   * A character that is neither a digit, whitespace nor a sign anywhere in
   * the text makes `int()` refuse it.
   */
  lemma ForeignCharRefused(text: string, k: int)
    requires 0 <= k < |text| && !IsDigit(text[k]) && !IsSpace(text[k]) && !IsSign(text[k])
    ensures ParseInt(text) == None
  {
    var s, i := Strip(text), Indent(text);
    assert i <= k < i + |s|;
    assert s[k - i] == text[k];
    if s[0] == '+' || s[0] == '-' {
      assert k - i != 0;
      assert s[1..][k - i - 1] == text[k];
    }
  }

  function DigitChar(d: nat): (c: char)
    requires d < 10
    ensures IsDigit(c) && c as int - '0' as int == d
  {
    ('0' as int + d) as char
  }

  /** Python's `str(n)` for a natural number. */
  function Decimal(n: nat): (s: string)
    ensures s != [] && AllDigits(s)
    ensures n > 0 ==> s[0] != '0'
    ensures n == 0 ==> s == "0"
  {
    if n < 10 then [DigitChar(n)] else Decimal(n / 10) + [DigitChar(n % 10)]
  }

  lemma {:induction false} DecimalValue(n: nat)
    ensures DigitsValue(Decimal(n)) == n
  {
    if n >= 10 {
      var s := Decimal(n);
      assert s[..|s| - 1] == Decimal(n / 10);
      DecimalValue(n / 10);
    } else {
      assert Decimal(n)[..0] == [];
    }
  }

  /** An id written out in decimal converts back to the same id. */
  lemma ParseDecimal(n: nat)
    ensures ParseInt(Decimal(n)) == Some(n)
  {
    DecimalValue(n);
  }
}
