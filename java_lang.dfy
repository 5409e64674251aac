/** The two pieces of the Java platform the converter leans on: `String.trim`
    and `Integer.parseInt`, restricted to what the converter can observe.
    Characters are Unicode scalar values; surrogate code units are not
    modelled, and they would behave as any other character that is not a
    symbol, a digit or a blank. Digits are the ASCII digits only. */
module JavaLang {

  /** Range of a Java `int`. */
  const MinInt: int := -0x8000_0000
  const MaxInt: int := 0x7fff_ffff

  datatype Option<+T> = None | Some(value: T)

  /** `String.trim` strips every character at or below U+0020 from both ends. */
  predicate IsBlank(c: char) {
    c <= ' '
  }

  function TrimStart(s: string): (r: string)
    ensures |r| <= |s| && r == s[|s| - |r|..]
    ensures r != [] ==> !IsBlank(r[0])
    ensures forall i | 0 <= i < |s| - |r| :: IsBlank(s[i])
  {
    if s != [] && IsBlank(s[0]) then TrimStart(s[1..]) else s
  }

  function TrimEnd(s: string): (r: string)
    ensures |r| <= |s| && r == s[..|r|]
    ensures r != [] ==> !IsBlank(r[|r| - 1])
    ensures forall i | |r| <= i < |s| :: IsBlank(s[i])
  {
    if s != [] && IsBlank(s[|s| - 1]) then TrimEnd(s[..|s| - 1]) else s
  }

  /** `String.trim`: drop blanks from both ends; interior characters are
      kept as they are. */
  function Trim(s: string): (r: string)
    ensures |r| <= |s|
    ensures r != [] ==> !IsBlank(r[0]) && !IsBlank(r[|r| - 1])
    ensures s != [] && !IsBlank(s[0]) && !IsBlank(s[|s| - 1]) ==> r == s
  {
    var t := TrimStart(s);
    var r := TrimEnd(t);
    assert r != [] ==> r[0] == t[0];
    r
  }

  /** Trimming leaves nothing exactly when every character is a blank. */
  lemma TrimEmpty(s: string)
    ensures Trim(s) == [] <==> forall i | 0 <= i < |s| :: IsBlank(s[i])
  {
    var t := TrimStart(s);
    assert t != [] ==> t[0] == s[|s| - |t|];
    if Trim(s) == [] {
      assert t == [];
    }
  }

  predicate IsDigit(c: char) {
    '0' <= c <= '9'
  }

  predicate AllDigits(s: string) {
    forall i | 0 <= i < |s| :: IsDigit(s[i])
  }

  function DigitValue(c: char): (d: nat)
    requires IsDigit(c)
    ensures d < 10
  {
    (c as int) - ('0' as int)
  }

  function DigitChar(d: nat): (c: char)
    requires d < 10
    ensures IsDigit(c) && DigitValue(c) == d
  {
    ('0' as int + d) as char
  }

  /** The magnitude written by a string of decimal digits, most significant first. */
  function DigitsValue(s: string): nat
    requires AllDigits(s)
  {
    if s == [] then 0 else 10 * DigitsValue(s[..|s| - 1]) + DigitValue(s[|s| - 1])
  }

  /** `Integer.parseInt(s)` (radix 10): an optional '+' or '-', then at least
      one digit, and the value must fit in an `int`; `None` stands for the
      `NumberFormatException` it throws otherwise. */
  function ParseInt(s: string): (r: Option<int>)
    ensures r.Some? ==> MinInt <= r.value <= MaxInt
    ensures r.Some? ==> s != [] && (s[0] == '+' || s[0] == '-' || IsDigit(s[0]))
    ensures r.Some? ==> forall i | 0 < i < |s| :: IsDigit(s[i])
    ensures r.Some? ==> IsDigit(s[|s| - 1])
  {
    if s == [] then None
    else
      var signed := s[0] == '-' || s[0] == '+';
      var digits := if signed then s[1..] else s;
      if digits == [] || !AllDigits(digits) then None
      else
        var magnitude: int := DigitsValue(digits);
        var n: int := if s[0] == '-' then -magnitude else magnitude;
        if MinInt <= n <= MaxInt then Some(n) else None
  }

  /** The plain decimal text of a non-negative number (`Integer.toString`). */
  function DecimalText(n: nat): (r: string)
    ensures r != [] && AllDigits(r)
    ensures DigitsValue(r) == n
  {
    if n < 10 then [DigitChar(n)]
    else
      var r := DecimalText(n / 10) + [DigitChar(n % 10)];
      assert r[..|r| - 1] == DecimalText(n / 10);
      r
  }

  /** Any non-empty run of ASCII digits whose value fits in an `int` parses
      to that value, leading zeros included ("0042" is 42). */
  lemma ParseDigits(s: string)
    requires s != [] && AllDigits(s) && DigitsValue(s) <= MaxInt
    ensures ParseInt(s) == Some(DigitsValue(s))
  {
    assert !(s[0] == '-' || s[0] == '+') by {
      assert IsDigit(s[0]);
    }
  }

  /** Leading zeros are read past: "0042" parses to 42. */
  lemma ParseLeadingZeros()
    ensures ParseInt("0042") == Some(42)
  {
    var s := "0042";
    assert AllDigits(s);
    assert "0"[..0] == [] && DigitsValue("0") == 0;
    assert "00"[..1] == "0" && DigitsValue("00") == 0;
    assert "004"[..2] == "00" && DigitsValue("004") == 4;
    assert s[..3] == "004" && DigitsValue(s) == 42;
    ParseDigits(s);
  }

  /** `Integer.parseInt` reads back the decimal text of every non-negative `int`. */
  lemma ParseDecimalText(n: nat)
    requires n <= MaxInt
    ensures ParseInt(DecimalText(n)) == Some(n)
  {
    ParseDigits(DecimalText(n));
  }
}
