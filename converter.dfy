/** The converter object: the checks its constructor makes, the validator
    loop, and the two conversions, with what they promise together. */
module Converter {
  import opened JavaLang
  import opened Numerals

  /** The exceptions that leave the converter: the two it declares, and the
      `NumberFormatException` that `Integer.parseInt` throws out of the
      conversions. */
  datatype Exception = MalformedNumber | ValueOutOfBounds | NumberFormat

  datatype Result<T> = Ok(value: T) | Err(error: Exception)

  /** The range `isArabic` admits: strictly between 0 and 10000. */
  predicate InBounds(n: int) {
    0 < n < 10000
  }

  /** What construction does with its argument. The blank and space checks
      look at the trimmed text, but the number is parsed, and stored, as
      given. Text that does not parse is accepted whatever the validator
      says of it: its verdict is computed and dropped. */
  function Construct(raw: string): (r: Result<string>)
    ensures r.Ok? ==> r.value == raw
    ensures r.Err? ==> r.error != NumberFormat
    ensures r == Err(MalformedNumber) <==> Trim(raw) == [] || ' ' in Trim(raw)
    ensures r == Err(ValueOutOfBounds)
            <==> Trim(raw) != [] && ' ' !in Trim(raw)
                 && ParseInt(raw).Some? && !InBounds(ParseInt(raw).value)
    ensures r.Ok? ==> raw != [] && (ParseInt(raw).None? || InBounds(ParseInt(raw).value))
  {
    var trimmed := Trim(raw);
    if trimmed == [] then Err(MalformedNumber)
    else if ' ' in trimmed then Err(MalformedNumber)
    else match ParseInt(raw)
      case Some(n) => if InBounds(n) then Ok(raw) else Err(ValueOutOfBounds)
      case None => Ok(raw)
  }

  /** What `toArabic` yields for the stored text: the decoder's sum for a
      numeral the validator accepts, otherwise the parsed integer. */
  function ArabicOf(s: string): (r: Result<int>)
    ensures ValidElbonian(s) ==> r == Ok(Value(s))
    ensures !ValidElbonian(s) && ParseInt(s).Some? ==> r == Ok(ParseInt(s).value)
    ensures r.Err? ==> r.error == NumberFormat
  {
    if ValidElbonian(s) then
      TallyIsValue(s);
      Ok(Tally(s))
    else match ParseInt(s)
      case Some(n) => Ok(n)
      case None => Err(NumberFormat)
  }

  /** What `toElbonian` yields for the stored text: the text itself for a
      numeral the validator accepts, otherwise the greedy numeral of the
      parsed integer. */
  function ElbonianOf(s: string): (r: Result<string>)
    ensures ValidElbonian(s) ==> r == Ok(s)
    ensures !ValidElbonian(s) && ParseInt(s).Some? ==> r == Ok(Encode(ParseInt(s).value))
    ensures r.Ok? <==> ArabicOf(s).Ok?
    ensures r.Ok? && ArabicOf(s).value >= 0 ==> Tally(r.value) == ArabicOf(s).value
    ensures r.Err? ==> r.error == NumberFormat
  {
    if ValidElbonian(s) then
      TallyIsValue(s);
      Ok(s)
    else match ParseInt(s)
      case Some(n) =>
        if n >= 0 then
          EncodeDecodes(n);
          Ok(Encode(n))
        else Ok(Encode(n))
      case None => Err(NumberFormat)
  }

  class ElbonianArabicConverter {
    /** The text the converter was built from, exactly as it was given. */
    const number: string

    /** The stored text passed the constructor's checks. */
    ghost predicate Valid() {
      Construct(number) == Ok(number)
    }

    /** The final assignment of the Java constructor; the checks before it
        are made by `Create`. */
    constructor (number: string)
      requires Construct(number) == Ok(number)
      ensures this.number == number && Valid()
    {
      this.number := number;
    }

    /** The Java constructor: trim, reject empty and spaced text, parse the
        untrimmed text and bound it, otherwise run the validator and
        disregard its verdict. */
    static method Create(raw: string) returns (r: Result<ElbonianArabicConverter>)
      ensures r.Ok? <==> Construct(raw).Ok?
      ensures r.Err? ==> Construct(raw) == Err(r.error)
      ensures r.Ok? ==> fresh(r.value) && r.value.number == raw && r.value.Valid()
    {
      var trimmed := Trim(raw);
      if trimmed == [] {
        return Err(MalformedNumber);
      }
      var spaced := IllegalSpace(trimmed);
      if spaced {
        return Err(MalformedNumber);
      }
      match ParseInt(raw) {
        case Some(n) =>
          if !InBounds(n) {
            return Err(ValueOutOfBounds);
          }
        case None =>
          var verdict := IsElbonian(raw);
      }
      var converter := new ElbonianArabicConverter(raw);
      r := Ok(converter);
    }

    /** `illegalSpace`: scans for the space character. */
    static method IllegalSpace(s: string) returns (found: bool)
      ensures found <==> ' ' in s
    {
      var k := 0;
      while k < |s|
        invariant 0 <= k <= |s|
        invariant ' ' !in s[..k]
      {
        if s[k] == ' ' {
          return true;
        }
        assert s[..k + 1] == s[..k] + [s[k]];
        k := k + 1;
      }
      assert s[..k] == s;
      return false;
    }

    /** `isElbonian`: counts each symbol, stops at the first character that
        is not one, then checks the multiplicity limits and the place pairs.
        The ordering conditions of the Java loop compare `String` objects by
        identity and never hold, so they are not part of this loop. */
    static method IsElbonian(s: string) returns (ok: bool)
      ensures ok == ValidElbonian(s)
    {
      var m, c, x, i, n, d, y, j := 0, 0, 0, 0, 0, 0, 0, 0;
      var k := 0;
      while k < |s|
        invariant 0 <= k <= |s|
        invariant InAlphabet(s[..k])
        invariant m == Count(s[..k], 'M') && c == Count(s[..k], 'C')
        invariant x == Count(s[..k], 'X') && i == Count(s[..k], 'I')
        invariant n == Count(s[..k], 'N') && d == Count(s[..k], 'D')
        invariant y == Count(s[..k], 'Y') && j == Count(s[..k], 'J')
      {
        forall sym: char
          ensures Count(s[..k + 1], sym) == Count(s[..k], sym) + (if s[k] == sym then 1 else 0)
        {
          CountPrefix(s, k, sym);
        }
        match s[k] {
          case 'M' => m := m + 1;
          case 'C' => c := c + 1;
          case 'X' => x := x + 1;
          case 'I' => i := i + 1;
          case 'N' => n := n + 1;
          case 'D' => d := d + 1;
          case 'Y' => y := y + 1;
          case 'J' => j := j + 1;
          case _ =>
            assert !IsSymbol(s[k]);
            return false;
        }
        assert s[..k + 1][k] == s[k];
        k := k + 1;
      }
      assert s[..k] == s;
      if m > 2 || c > 2 || x > 2 || i > 2 {
        return false;
      } else if n > 3 || d > 3 || y > 3 || j > 3 {
        return false;
      } else if (n >= 3 && m > 0) || (d >= 3 && c > 0) || (y >= 3 && x > 0) || (j >= 3 && i > 0) {
        return false;
      } else {
        return true;
      }
    }

    /** `toArabic`: the parsed integer when the validator rejects the stored
        text, otherwise the weighted sum of the symbol counts. */
    method ToArabic() returns (r: Result<int>)
      requires Valid()
      ensures r == ArabicOf(number)
      ensures r.Ok? ==> 1 <= r.value <= 9999
      ensures r.Err? ==> !ValidElbonian(number) && ParseInt(number).None?
    {
      var elbonian := IsElbonian(number);
      if !elbonian {
        match ParseInt(number) {
          case Some(v) => return Ok(v);
          case None => return Err(NumberFormat);
        }
      }
      var sum := Decode(number);
      TallyRange(number);
      return Ok(sum);
    }

    /** The counting branch of `toArabic`: count each symbol, skipping any
        other character, then add up the counts times their weights. */
    static method Decode(s: string) returns (sum: int)
      ensures sum == Tally(s)
    {
      var m, c, x, i, n, d, y, j := 0, 0, 0, 0, 0, 0, 0, 0;
      var k := 0;
      while k < |s|
        invariant 0 <= k <= |s|
        invariant m == Count(s[..k], 'M') && c == Count(s[..k], 'C')
        invariant x == Count(s[..k], 'X') && i == Count(s[..k], 'I')
        invariant n == Count(s[..k], 'N') && d == Count(s[..k], 'D')
        invariant y == Count(s[..k], 'Y') && j == Count(s[..k], 'J')
      {
        forall sym: char
          ensures Count(s[..k + 1], sym) == Count(s[..k], sym) + (if s[k] == sym then 1 else 0)
        {
          CountPrefix(s, k, sym);
        }
        match s[k] {
          case 'M' => m := m + 1;
          case 'C' => c := c + 1;
          case 'X' => x := x + 1;
          case 'I' => i := i + 1;
          case 'N' => n := n + 1;
          case 'D' => d := d + 1;
          case 'Y' => y := y + 1;
          case 'J' => j := j + 1;
          case _ =>
        }
        k := k + 1;
      }
      assert s[..k] == s;
      sum := 0;
      sum := sum + m * 1000;
      sum := sum + c * 100;
      sum := sum + x * 10;
      sum := sum + i;
      sum := sum + n * 3000;
      sum := sum + d * 300;
      sum := sum + y * 30;
      sum := sum + j * 3;
    }

    /** `toElbonian`: the stored text when the validator accepts it,
        otherwise the parsed integer spelled greedily, one loop per symbol
        from N down to I. */
    method ToElbonian() returns (r: Result<string>)
      requires Valid()
      ensures r == ElbonianOf(number)
      ensures r.Ok? ==> r.value != [] && ValidElbonian(r.value)
      ensures r.Ok? ==> ArabicOf(r.value) == ArabicOf(number)
    {
      var elbonian := IsElbonian(number);
      if elbonian {
        return Ok(number);
      }
      var parsed := ParseInt(number);
      if parsed.None? {
        return Err(NumberFormat);
      }
      var letters := Spell(parsed.value);
      ConversionsAgree(number);
      return Ok(letters);
    }

    /** The spelling branch of `toElbonian`: the eight loops, N down to I,
        each taking its symbol while its weight fits in what is left. */
    static method Spell(number: int) returns (letters: string)
      ensures letters == Encode(number)
    {
      var value := number;
      letters := [];
      assert letters + Greedy(value, 0) == Encode(number);
      letters, value := AppendRun(letters, value, 0);
      letters, value := AppendRun(letters, value, 1);
      letters, value := AppendRun(letters, value, 2);
      letters, value := AppendRun(letters, value, 3);
      letters, value := AppendRun(letters, value, 4);
      letters, value := AppendRun(letters, value, 5);
      letters, value := AppendRun(letters, value, 6);
      letters, value := AppendRun(letters, value, 7);
      assert letters + Greedy(value, 8) == Encode(number);
      assert letters + [] == letters;
    }

    /** One of the loops of `toElbonian`: append the symbol of rank `k` while
        its weight still fits in what is left. */
    static method AppendRun(letters: string, value: int, k: nat) returns (out: string, rest: int)
      requires k < 8
      ensures rest < Weight(k)
      ensures out + Greedy(rest, k + 1) == letters + Greedy(value, k)
    {
      out, rest := letters, value;
      while rest >= Weight(k)
        invariant out + Greedy(rest, k) == letters + Greedy(value, k)
        decreases rest
      {
        assert Greedy(rest, k) == [Symbol(k)] + Greedy(rest - Weight(k), k);
        assert out + Greedy(rest, k) == (out + [Symbol(k)]) + Greedy(rest - Weight(k), k);
        out := out + [Symbol(k)];
        rest := rest - Weight(k);
      }
    }
  }

  // ---------------------------------------------------------------------
  // What construction accepts

  /** Any non-empty text made of Elbonian symbols passes construction,
      whether or not the validator accepts it. */
  lemma ConstructAcceptsSymbols(s: string)
    requires s != [] && InAlphabet(s)
    ensures Construct(s) == Ok(s)
  {
    SymbolIsLetter(s[0]);
    SymbolIsLetter(s[|s| - 1]);
    assert Trim(s) == s;
    forall k | 0 <= k < |s| ensures s[k] != ' ' {
      SymbolIsLetter(s[k]);
    }
    assert ParseInt(s).None?;
  }

  /** The decimal text of every value in 1..9999 passes construction, and
      the validator rejects it. */
  lemma ConstructAcceptsDecimal(v: nat)
    requires 1 <= v <= 9999
    ensures Construct(DecimalText(v)) == Ok(DecimalText(v))
    ensures !ValidElbonian(DecimalText(v))
    ensures ParseInt(DecimalText(v)) == Some(v)
  {
    var s := DecimalText(v);
    ParseDecimalText(v);
    assert IsDigit(s[0]) && IsDigit(s[|s| - 1]);
    assert !IsSymbol(s[0]);
    assert ' ' !in s by {
      forall k | 0 <= k < |s| ensures s[k] != ' ' {
        assert IsDigit(s[k]);
      }
    }
  }

  /** Decimal text of a value outside 1..9999 that still fits in an `int`
      is refused as out of bounds. */
  lemma ConstructRejectsOutOfBounds(v: nat)
    requires v == 0 || 10000 <= v <= MaxInt
    ensures Construct(DecimalText(v)) == Err(ValueOutOfBounds)
  {
    var s := DecimalText(v);
    ParseDecimalText(v);
    assert IsDigit(s[0]) && IsDigit(s[|s| - 1]);
    assert ' ' !in s by {
      forall k | 0 <= k < |s| ensures s[k] != ' ' {
        assert IsDigit(s[k]);
      }
    }
  }

  /** A leading '+' is accepted and read as the plain number; a leading
      '-' makes the number out of bounds. */
  lemma SignedDecimal(v: nat)
    requires 1 <= v <= 9999
    ensures Construct("+" + DecimalText(v)) == Ok("+" + DecimalText(v))
    ensures ArabicOf("+" + DecimalText(v)) == Ok(v)
    ensures Construct("-" + DecimalText(v)) == Err(ValueOutOfBounds)
  {
    var plus, minus := "+" + DecimalText(v), "-" + DecimalText(v);
    assert plus[0] == '+' && plus[1..] == DecimalText(v);
    assert minus[0] == '-' && minus[1..] == DecimalText(v);
    SignedTextShape(plus, v);
    SignedTextParse(plus, v);
    SignedTextShape(minus, v);
    SignedTextParse(minus, v);
  }

  /** Decimal text behind a sign: nothing to trim, no space, and not a
      numeral. */
  lemma SignedTextShape(t: string, v: nat)
    requires t != [] && (t[0] == '+' || t[0] == '-') && t[1..] == DecimalText(v)
    ensures Trim(t) == t && ' ' !in t
    ensures !ValidElbonian(t)
  {
    var d := DecimalText(v);
    assert Trim(t) == t && ' ' !in t by {
      assert IsDigit(d[|d| - 1]) && t[|t| - 1] == d[|d| - 1];
      forall k | 0 <= k < |t| ensures t[k] != ' ' {
        if k > 0 {
          assert t[k] == d[k - 1];
          assert IsDigit(d[k - 1]);
        }
      }
    }
    assert !IsSymbol(t[0]);
  }

  /** Decimal text behind a sign parses to the signed value. */
  lemma SignedTextParse(t: string, v: nat)
    requires t != [] && (t[0] == '+' || t[0] == '-') && t[1..] == DecimalText(v)
    requires v <= 9999
    ensures t[0] == '+' ==> ParseInt(t) == Some(v)
    ensures t[0] == '-' ==> ParseInt(t) == Some(-(v as int))
  {
    assert AllDigits(t[1..]) && DigitsValue(t[1..]) == v;
  }

  /** A string of digits too large for an `int` does not parse, so it is
      accepted as if it were a numeral, and both conversions then fail. */
  lemma OverflowAccepted(v: nat)
    requires v > MaxInt
    ensures Construct(DecimalText(v)) == Ok(DecimalText(v))
    ensures ArabicOf(DecimalText(v)) == Err(NumberFormat)
    ensures ElbonianOf(DecimalText(v)) == Err(NumberFormat)
  {
    var d := DecimalText(v);
    assert IsDigit(d[0]) && IsDigit(d[|d| - 1]);
    forall k | 0 <= k < |d| ensures d[k] != ' ' {
      assert IsDigit(d[k]);
    }
    assert !IsSymbol(d[0]);
  }

  /** The validator accepts the empty text, but construction never lets it
      through: it is refused as malformed before the validator runs. */
  lemma EmptyText()
    ensures ValidElbonian("")
    ensures Construct("") == Err(MalformedNumber)
  {
  }

  /** Blanks around a decimal number are let through by construction, but
      the stored text is then neither a numeral nor an integer, so both
      conversions fail. */
  lemma PaddedDecimalUnusable(v: nat)
    requires 1 <= v <= 9999
    ensures Construct(" " + DecimalText(v)) == Ok(" " + DecimalText(v))
    ensures ArabicOf(" " + DecimalText(v)) == Err(NumberFormat)
    ensures ElbonianOf(" " + DecimalText(v)) == Err(NumberFormat)
  {
    var d := DecimalText(v);
    var s := " " + d;
    assert IsDigit(d[0]) && IsDigit(d[|d| - 1]);
    assert s[1..] == d;
    assert TrimStart(s) == d;
    assert Trim(s) == d;
    assert ' ' !in d by {
      forall k | 0 <= k < |d| ensures d[k] != ' ' {
        assert IsDigit(d[k]);
      }
    }
    assert !IsSymbol(s[0]);
    assert !AllDigits(s) by {
      assert !IsDigit(s[0]);
    }
  }

  /** The validator's verdict does not stop construction: "MMM" breaks the
      limit on M and is not an integer, yet it is stored, and both
      conversions then fail. */
  lemma VerdictIgnored()
    ensures !ValidElbonian("MMM") && Construct("MMM") == Ok("MMM")
    ensures ArabicOf("MMM") == Err(NumberFormat) && ElbonianOf("MMM") == Err(NumberFormat)
  {
    assert Count("MMM", 'M') == 3;
    assert !AllDigits("MMM") by {
      assert !IsDigit("MMM"[0]);
    }
  }

  // ---------------------------------------------------------------------
  // The conversions together

  /** On a constructed converter both conversions succeed or fail together,
      they fail exactly when the text is neither an accepted numeral nor an
      integer, and a success yields a value in 1..9999 and a numeral the
      validator accepts that converts back to that value. */
  lemma ConversionsAgree(s: string)
    requires Construct(s) == Ok(s)
    ensures ArabicOf(s).Ok? <==> ElbonianOf(s).Ok?
    ensures ArabicOf(s).Err? <==> !ValidElbonian(s) && ParseInt(s).None?
    ensures ArabicOf(s).Ok? ==> 1 <= ArabicOf(s).value <= 9999
    ensures ElbonianOf(s).Ok? ==> ValidElbonian(ElbonianOf(s).value) && ElbonianOf(s).value != []
    ensures ElbonianOf(s).Ok? ==> ArabicOf(ElbonianOf(s).value) == ArabicOf(s)
  {
    if ValidElbonian(s) {
      TallyRange(s);
      TallyIsValue(s);
    } else if ParseInt(s).Some? {
      var n := ParseInt(s).value;
      EncodeValid(n);
      EncodeDecodes(n);
      TallyIsValue(Encode(n));
    }
  }

  /** Arabic to Elbonian and back: every value in 1..9999, given as decimal
      text, converts to its greedy numeral, which construction accepts and
      which converts back to the value. */
  lemma ArabicRoundTrip(v: nat)
    requires 1 <= v <= 9999
    ensures ElbonianOf(DecimalText(v)) == Ok(Encode(v))
    ensures Construct(Encode(v)) == Ok(Encode(v))
    ensures ArabicOf(Encode(v)) == Ok(v)
  {
    ConstructAcceptsDecimal(v);
    EncodeValid(v);
    EncodeDecodes(v);
    TallyIsValue(Encode(v));
    ConstructAcceptsSymbols(Encode(v));
  }

  /** Elbonian to Arabic and back: a numeral in canonical order converts to
      a value whose decimal text converts back to the same numeral. */
  lemma CanonicalRoundTrip(s: string)
    requires s != [] && ValidElbonian(s) && Ordered(s)
    ensures ArabicOf(s) == Ok(Tally(s))
    ensures 1 <= Tally(s) <= 9999
    ensures ElbonianOf(DecimalText(Tally(s))) == Ok(s)
  {
    TallyRange(s);
    TallyIsValue(s);
    ConstructAcceptsDecimal(Tally(s));
    CanonicalUnique(s);
  }

  /** Converting to Elbonian a second time changes nothing. */
  lemma ElbonianIdempotent(s: string)
    requires Construct(s) == Ok(s) && ElbonianOf(s).Ok?
    ensures ElbonianOf(ElbonianOf(s).value) == ElbonianOf(s)
  {
    ConversionsAgree(s);
  }

  /** Order is not checked: "IX" is stored and converted as it stands, worth
      11, although no integer ever converts to it. */
  lemma OutOfOrderKept()
    ensures Construct("IX") == Ok("IX")
    ensures ArabicOf("IX") == Ok(11) && ElbonianOf("IX") == Ok("IX")
    ensures forall n: int :: Encode(n) != "IX"
  {
    OrderNotChecked();
    ConstructAcceptsSymbols("IX");
    assert "IX"[1..] == "X";
    assert Value("IX") == 11;
    forall n: int ensures Encode(n) != "IX" {
      GreedyOrdered(n, 0);
    }
  }

  /** Decoder sample: "II" is worth 2. */
  lemma DecoderSampleTwo()
    ensures ArabicOf("II") == Ok(2)
  {
    assert "II"[1..] == "I";
    assert !IsDigit("II"[0]);
  }

  /** Decoder sample: "NI" is worth 3001. */
  lemma DecoderSampleMixed()
    ensures ArabicOf("NI") == Ok(3001)
  {
    assert "NI"[1..] == "I";
    assert !IsDigit("NI"[0]);
  }

  /** A space between two non-blank ends is refused as malformed, whether
      the text around it looks Arabic or Elbonian ("9 9", "I I"). */
  lemma InteriorSpaceRejected(a: string, b: string)
    requires a != [] && b != [] && !IsBlank(a[0]) && !IsBlank(b[|b| - 1])
    ensures Construct(a + " " + b) == Err(MalformedNumber)
  {
    var s := a + " " + b;
    assert s[0] == a[0] && s[|s| - 1] == b[|b| - 1];
    assert s[|a|] == ' ';
  }
}
