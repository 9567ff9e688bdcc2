/**
 * `getAnswerCode` of `Utils`: the sum of the code points of `string`, plus the
 * last two characters of `key` read by Python's `int(..., 16)`, rendered by
 * `str`. A suffix that `int` rejects raises `ValueError`, modelled as `None`.
 */
module AnswerCode {
  import opened Wrappers

  /** `sum(ord(c) for c in s)`. */
  function CodePointSum(s: string): nat
  {
    if s == [] then 0 else CodePointSum(s[..|s| - 1]) + s[|s| - 1] as int
  }

  /** The code-point sum distributes over concatenation. */
  lemma {:induction false} CodePointSumAppend(a: string, b: string)
    ensures CodePointSum(a + b) == CodePointSum(a) + CodePointSum(b)
    decreases |b|
  {
    if b == [] {
      assert a + b == a;
    } else {
      assert (a + b)[..|a + b| - 1] == a + b[..|b| - 1];
      CodePointSumAppend(a, b[..|b| - 1]);
    }
  }

  /**
   * The sum taken front to back, as the generator over `range(len(string))`
   * does: the first code point plus the sum of the rest.
   */
  lemma CodePointSumFromFront(s: string)
    requires s != []
    ensures CodePointSum(s) == s[0] as int + CodePointSum(s[1..])
  {
    assert s == [s[0]] + s[1..];
    CodePointSumAppend([s[0]], s[1..]);
    assert [s[0]][..0] == [];
  }

  /** The ASCII whitespace that `int()` skips around its digits. */
  predicate IsSpace(c: char)
  {
    c == ' ' || c == '\t' || c == '\n' || c == '\r' || c == '\U{0B}' || c == '\U{0C}'
  }

  predicate IsHexDigit(c: char)
  {
    '0' <= c <= '9' || 'a' <= c <= 'f' || 'A' <= c <= 'F'
  }

  function HexDigitValue(c: char): (v: nat)
    requires IsHexDigit(c)
    ensures v < 16
  {
    if '0' <= c <= '9' then c as int - '0' as int
    else if 'a' <= c <= 'f' then c as int - 'a' as int + 10
    else c as int - 'A' as int + 10
  }

  /** `key[-2:]`: the last two characters, or all of a shorter key. */
  function LastTwo(key: string): (s: string)
    ensures |s| == if |key| < 2 then |key| else 2
    ensures forall i :: 0 <= i < |s| ==> s[i] == key[|key| - |s| + i]
  {
    if |key| < 2 then key else key[|key| - 2..]
  }

  predicate AllHex(s: string)
  {
    forall i :: 0 <= i < |s| ==> IsHexDigit(s[i])
  }

  /** The value of a run of hex digits, most significant first. */
  function HexValue(s: string): (v: nat)
    requires AllHex(s)
    ensures |s| <= 1 ==> v < 16
    ensures |s| <= 2 ==> v < 256
  {
    if s == [] then 0 else 16 * HexValue(s[..|s| - 1]) + HexDigitValue(s[|s| - 1])
  }

  /** Leading and trailing whitespace removed, as `int()` does first. */
  function Strip(s: string): (r: string)
    ensures |r| <= |s|
    ensures r != [] ==> !IsSpace(r[0]) && !IsSpace(r[|r| - 1])
    decreases |s|
  {
    if s == [] then []
    else if IsSpace(s[0]) then Strip(s[1..])
    else if IsSpace(s[|s| - 1]) then Strip(s[..|s| - 1])
    else s
  }

  predicate AllSpace(s: string)
  {
    forall i :: 0 <= i < |s| ==> IsSpace(s[i])
  }

  /** `Strip` removes leading and trailing whitespace and nothing else. */
  lemma StripRemovesOnlySpace(s: string)
    ensures exists i, j :: 0 <= i <= j <= |s| && Strip(s) == s[i..j] && AllSpace(s[..i]) && AllSpace(s[j..])
  {
    var i, j := StripBounds(s);
  }

  /** Where in `s` the stripped part lies. */
  lemma {:induction false} StripBounds(s: string) returns (i: nat, j: nat)
    ensures i <= j <= |s| && Strip(s) == s[i..j] && AllSpace(s[..i]) && AllSpace(s[j..])
    decreases |s|
  {
    if s == [] {
      i, j := 0, 0;
    } else if IsSpace(s[0]) {
      var i', j' := StripBounds(s[1..]);
      i, j := i' + 1, j' + 1;
      SpaceInFront(s, i', j');
    } else if IsSpace(s[|s| - 1]) {
      i, j := StripBounds(s[..|s| - 1]);
      SpaceAtBack(s, i, j);
    } else {
      i, j := 0, |s|;
      assert s[0..|s|] == s;
    }
  }

  /** Bounds for `s[1..]` move one place right in `s` when `s[0]` is whitespace. */
  lemma SpaceInFront(s: string, i: nat, j: nat)
    requires s != [] && IsSpace(s[0])
    requires i <= j <= |s| - 1 && AllSpace(s[1..][..i]) && AllSpace(s[1..][j..])
    ensures s[1..][i..j] == s[i + 1..j + 1] && AllSpace(s[..i + 1]) && AllSpace(s[j + 1..])
  {
    var t := s[1..];
    forall k | 0 <= k < i + 1 ensures IsSpace(s[k]) {
      if k > 0 { assert s[k] == t[..i][k - 1]; }
    }
    assert s[j + 1..] == t[j..];
  }

  /** Bounds for `s[..|s| - 1]` stay valid in `s` when its last character is whitespace. */
  lemma SpaceAtBack(s: string, i: nat, j: nat)
    requires s != [] && IsSpace(s[|s| - 1])
    requires i <= j <= |s| - 1 && AllSpace(s[..|s| - 1][..i]) && AllSpace(s[..|s| - 1][j..])
    ensures s[..|s| - 1][i..j] == s[i..j] && AllSpace(s[..i]) && AllSpace(s[j..])
  {
    var t := s[..|s| - 1];
    assert s[..i] == t[..i];
    assert s[j..] == t[j..] + [s[|s| - 1]];
  }

  /**
   * `int(s, 16)` for the strings of at most two characters that `LastTwo`
   * yields: surrounding whitespace, then an optional sign, then at least one
   * hex digit. (Longer forms, the "0x" prefix and digit-separating underscores,
   * need at least three characters to be accepted.)
   */
  function ParseHex(s: string): (r: Option<int>)
    requires |s| <= 2
    ensures r.Some? ==> -15 <= r.value <= 255
  {
    var t := Strip(s);
    var negative := t != [] && t[0] == '-';
    var digits := if t != [] && (t[0] == '-' || t[0] == '+') then t[1..] else t;
    if digits == [] || !AllHex(digits) then None
    else
      var v: int := HexValue(digits);
      Some(if negative then -v else v)
  }

  function DigitChar(d: nat): (c: char)
    requires d < 10
    ensures '0' <= c <= '9' && c as int - '0' as int == d
  {
    ('0' as int + d) as char
  }

  predicate IsDigit(c: char) { '0' <= c <= '9' }

  predicate AllDigits(s: string)
  {
    forall i :: 0 <= i < |s| ==> IsDigit(s[i])
  }

  /** `str(n)` for a natural number: decimal digits without leading zeros. */
  function NatToDecimal(n: nat): (s: string)
    ensures |s| >= 1 && AllDigits(s)
    ensures s[0] == '0' ==> n == 0 && s == "0"
  {
    if n < 10 then [DigitChar(n)] else NatToDecimal(n / 10) + [DigitChar(n % 10)]
  }

  /** `str(i)` for any integer: a minus sign in front of a negative one. */
  function IntToDecimal(i: int): (s: string)
    ensures s != [] && (s[0] == '-' <==> i < 0)
    ensures if i < 0 then s[1..] != [] && AllDigits(s[1..]) else AllDigits(s)
  {
    if i < 0 then "-" + NatToDecimal(-i) else NatToDecimal(i)
  }

  /** The value of a run of decimal digits. */
  function DecimalValue(s: string): nat
    requires AllDigits(s)
  {
    if s == [] then 0 else 10 * DecimalValue(s[..|s| - 1]) + (s[|s| - 1] as int - '0' as int)
  }

  /** `int(s)` for the strings `str` produces on integers. */
  function ParseDecimal(s: string): Option<int>
  {
    if s != [] && s[0] == '-' && s[1..] != [] && AllDigits(s[1..]) then Some(-(DecimalValue(s[1..]) as int))
    else if s != [] && AllDigits(s) then Some(DecimalValue(s))
    else None
  }

  /** Reading back the digits of `NatToDecimal(n)` gives `n`. */
  lemma {:induction false} NatDecimalRoundTrip(n: nat)
    ensures DecimalValue(NatToDecimal(n)) == n
  {
    if n >= 10 {
      var s := NatToDecimal(n);
      assert s[..|s| - 1] == NatToDecimal(n / 10);
      NatDecimalRoundTrip(n / 10);
    }
  }

  /** `int(str(i)) == i`. */
  lemma DecimalRoundTrip(i: int)
    ensures ParseDecimal(IntToDecimal(i)) == Some(i)
  {
    if i < 0 {
      var m: nat := -i;
      var digits := NatToDecimal(m);
      assert IntToDecimal(i) == "-" + digits;
      NatDecimalRoundTrip(m);
      ParseSigned(digits);
    } else {
      var m: nat := i;
      var digits := NatToDecimal(m);
      assert IntToDecimal(i) == digits;
      NatDecimalRoundTrip(m);
      ParseUnsigned(digits);
    }
  }

  lemma ParseSigned(digits: string)
    requires digits != [] && AllDigits(digits)
    ensures ParseDecimal("-" + digits) == Some(-(DecimalValue(digits) as int))
  {
    assert ("-" + digits)[1..] == digits;
  }

  lemma ParseUnsigned(digits: string)
    requires digits != [] && AllDigits(digits)
    ensures ParseDecimal(digits) == Some(DecimalValue(digits))
  {
    assert IsDigit(digits[0]);
  }

  /** `getAnswerCode(key, string)`. */
  function GetAnswerCode(key: string, s: string): (r: Option<string>)
    ensures r.None? <==> ParseHex(LastTwo(key)).None?
    ensures r.Some? ==> r.value != [] && (r.value[0] == '-' ==> CodePointSum(s) < 15)
  {
    match ParseHex(LastTwo(key))
    case None => None
    case Some(h) => Some(IntToDecimal(CodePointSum(s) + h))
  }

  /**
   * The code fails (ValueError) exactly when the key's suffix is not a hex
   * number, and otherwise reads back as the code-point sum plus that number.
   */
  lemma AnswerCodeReadsBack(key: string, s: string)
    ensures match ParseHex(LastTwo(key))
            case None => GetAnswerCode(key, s) == None
            case Some(h) =>
              && GetAnswerCode(key, s) == Some(IntToDecimal(CodePointSum(s) + h))
              && ParseDecimal(IntToDecimal(CodePointSum(s) + h)) == Some(CodePointSum(s) + h)
  {
    match ParseHex(LastTwo(key))
    case None =>
    case Some(h) => DecimalRoundTrip(CodePointSum(s) + h);
  }

  /** `str(n)` for a natural number, read back. */
  lemma NatDecimalFacts(n: nat)
    ensures var code := NatToDecimal(n);
            AllDigits(code) && (code[0] == '0' ==> code == "0") && ParseDecimal(code) == Some(n)
  {
    NatDecimalRoundTrip(n);
    ParseUnsigned(NatToDecimal(n));
  }

  /**
   * When `key` ends in two hex digits, the added term is their value, at most
   * 255, and the code is the plain decimal rendering (see `NatDecimalFacts`)
   * of the code-point sum plus that value.
   */
  lemma AnswerCodeOfHexKey(key: string, s: string)
    requires |key| >= 2 && IsHexDigit(key[|key| - 2]) && IsHexDigit(key[|key| - 1])
    ensures var h := 16 * HexDigitValue(key[|key| - 2]) + HexDigitValue(key[|key| - 1]);
            h <= 255 && GetAnswerCode(key, s) == Some(NatToDecimal(CodePointSum(s) + h))
  {
    var hi, lo := key[|key| - 2], key[|key| - 1];
    var n: nat := CodePointSum(s) + 16 * HexDigitValue(hi) + HexDigitValue(lo);
    assert LastTwo(key) == [hi, lo];
    TwoHexDigits(hi, lo);
    assert IntToDecimal(n) == NatToDecimal(n);
  }

  /** `int(hi + lo, 16)` for two hex digits. */
  lemma TwoHexDigits(hi: char, lo: char)
    requires IsHexDigit(hi) && IsHexDigit(lo)
    ensures ParseHex([hi, lo]) == Some(16 * HexDigitValue(hi) + HexDigitValue(lo))
  {
    var two := [hi, lo];
    assert Strip(two) == two;
    assert AllHex(two);
    assert [hi][..0] == [];
    assert HexValue([hi]) == HexDigitValue(hi);
    assert two[..1] == [hi];
    assert HexValue(two) == 16 * HexValue([hi]) + HexDigitValue(lo);
  }

  /** A key of fewer than one usable hex digit (here: an empty key) raises `ValueError`. */
  lemma AnswerCodeOfEmptyKey(s: string)
    ensures GetAnswerCode("", s) == None
  {
  }
}
