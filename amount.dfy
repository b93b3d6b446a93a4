/** The amount parser (parse_amount): a comma is read as the decimal point,
    surrounding whitespace is trimmed, the text is read as an exact decimal
    numeral, a value that is not positive is refused, and the value is then
    quantized to two fractional digits with ROUND_HALF_EVEN. Amounts leave
    the parser as an integer number of cents. */
module Amount {
  import opened Rounding

  datatype Option<T> = None | Some(value: T)

  /** Why an amount is refused. NotPositive is the ValueError of the
      positivity check and QuantizeOverflow the InvalidOperation of quantize.
      InvalidNumeral is any text the model's numeral grammar refuses: mostly
      the constructor's InvalidOperation, but also "-Infinity", which the
      source refuses at the positivity check, and "Infinity" or "NaN", which
      it refuses later; the callers catch both exceptions alike. */
  datatype ParseError = InvalidNumeral | NotPositive | QuantizeOverflow

  datatype Result<T> = Ok(value: T) | Err(error: ParseError)

  /** The exact value coefficient * 10^(-exponent) that Decimal(text) holds. */
  datatype DecimalValue = DecimalValue(coefficient: int, exponent: nat)

  /** Python's default decimal context has 28 digits of precision: quantize
      refuses a result whose coefficient needs more digits than that, i.e.
      one of 10^28 cents or more. */
  const CentsLimit: nat := 10_000_000_000_000_000_000_000_000_000

  /** Python's str.isspace, which decides what str.strip removes. */
  predicate IsSpace(c: char)
  {
    c == ' ' || ('\t' <= c <= '\r') || ('\U{1C}' <= c <= '\U{1F}')
    || c == '\U{85}' || c == '\U{A0}' || c == '\U{1680}'
    || ('\U{2000}' <= c <= '\U{200A}') || c == '\U{2028}' || c == '\U{2029}'
    || c == '\U{202F}' || c == '\U{205F}' || c == '\U{3000}'
  }

  predicate IsDigit(c: char)
  {
    '0' <= c <= '9'
  }

  predicate AllDigits(s: string)
  {
    forall i :: 0 <= i < |s| ==> IsDigit(s[i])
  }

  predicate AllSpaces(s: string)
  {
    forall i :: 0 <= i < |s| ==> IsSpace(s[i])
  }

  /** The comma replacement: every comma becomes a decimal point. */
  function ReplaceCommas(s: string): (r: string)
    ensures |r| == |s|
    ensures forall i :: 0 <= i < |s| ==> r[i] == (if s[i] == ',' then '.' else s[i])
  {
    if s == [] then []
    else [if s[0] == ',' then '.' else s[0]] + ReplaceCommas(s[1..])
  }

  /** str.lstrip: the text without its leading whitespace. */
  function StripLeft(s: string): (r: string)
    ensures |r| <= |s|
    ensures r == [] || !IsSpace(r[0])
  {
    if s != [] && IsSpace(s[0]) then StripLeft(s[1..]) else s
  }

  /** What str.lstrip removes is a run of whitespace in front of what it keeps. */
  lemma {:induction false} StripLeftSplits(s: string)
    ensures s[|s| - |StripLeft(s)|..] == StripLeft(s)
    ensures AllSpaces(s[..|s| - |StripLeft(s)|])
  {
    if s != [] && IsSpace(s[0]) {
      var t := s[1..];
      StripLeftSplits(t);
      var k := |t| - |StripLeft(t)|;
      assert StripLeft(s) == StripLeft(t);
      assert s[k + 1..] == t[k..];
      var spaces, rest := s[..k + 1], t[..k];
      forall i | 0 <= i < |spaces|
        ensures IsSpace(spaces[i])
      {
        if i > 0 {
          assert spaces[i] == rest[i - 1];
        }
      }
    } else {
      assert s[..0] == [];
    }
  }

  /** str.rstrip: the text without its trailing whitespace. */
  function StripRight(s: string): (r: string)
    ensures |r| <= |s| && r == s[..|r|]
    ensures r == [] || !IsSpace(r[|r| - 1])
  {
    if s != [] && IsSpace(s[|s| - 1]) then StripRight(s[..|s| - 1]) else s
  }

  /** What str.rstrip removes is a run of whitespace behind what it keeps. */
  lemma {:induction false} StripRightSplits(s: string)
    ensures AllSpaces(s[|StripRight(s)|..])
  {
    if s != [] && IsSpace(s[|s| - 1]) {
      var t := s[..|s| - 1];
      StripRightSplits(t);
      var k := |StripRight(t)|;
      assert StripRight(s) == StripRight(t);
      var spaces, rest := s[k..], t[k..];
      forall i | 0 <= i < |spaces|
        ensures IsSpace(spaces[i])
      {
        if i < |rest| {
          assert spaces[i] == rest[i];
        }
      }
    } else {
      assert s[|s|..] == [];
    }
  }

  /** str.strip: the text without its leading and trailing whitespace. */
  function Strip(s: string): (r: string)
    ensures r == [] || (!IsSpace(r[0]) && !IsSpace(r[|r| - 1]))
  {
    StripRight(StripLeft(s))
  }

  /** The text that is handed to the Decimal constructor: no comma is left,
      and neither end is whitespace. */
  function Normalize(raw: string): (t: string)
    ensures |t| <= |raw|
    ensures forall i :: 0 <= i < |t| ==> t[i] != ','
    ensures t == [] || (!IsSpace(t[0]) && !IsSpace(t[|t| - 1]))
  {
    var s := ReplaceCommas(raw);
    StripLeftSplits(s);
    var l := StripLeft(s);
    assert forall i :: 0 <= i < |l| ==> l[i] == s[|s| - |l| + i];
    Strip(s)
  }

  function DigitValue(c: char): nat
    requires IsDigit(c)
  {
    (c as int) - ('0' as int)
  }

  /** The value of a string of decimal digits, most significant first. */
  function DigitsValue(s: string): (v: nat)
    requires AllDigits(s)
    ensures v < Pow10(|s|)
  {
    if s == [] then 0
    else DigitsValue(s[..|s| - 1]) * 10 + DigitValue(s[|s| - 1])
  }

  /** Index of the first '.', or |t| when there is none. */
  function FindDot(t: string): (k: nat)
    ensures k <= |t|
    ensures forall j :: 0 <= j < k ==> t[j] != '.'
    ensures k < |t| ==> t[k] == '.'
  {
    if t == [] || t[0] == '.' then 0 else 1 + FindDot(t[1..])
  }

  /** The exact value of the numeral intPart '.' fracPart. */
  function NumeralValue(intPart: string, fracPart: string): (d: DecimalValue)
    requires AllDigits(intPart) && AllDigits(fracPart)
    ensures d.exponent == |fracPart| && d.coefficient >= 0
  {
    DecimalValue(DigitsValue(intPart) * Pow10(|fracPart|) + DigitsValue(fracPart), |fracPart|)
  }

  /** An unsigned decimal numeral: digits, digits '.', digits '.' digits or '.' digits. */
  function ParseUnsigned(t: string): (r: Option<DecimalValue>)
    ensures r.Some? ==> r.value.coefficient >= 0
  {
    var k := FindDot(t);
    var intPart := t[..k];
    var fracPart := if k < |t| then t[k + 1..] else [];
    if AllDigits(intPart) && AllDigits(fracPart) && |intPart| + |fracPart| > 0 then
      Some(NumeralValue(intPart, fracPart))
    else
      None
  }

  /** Decimal(t) for a finite numeral with an optional sign and no exponent.
      The grammar it accepts is pinned down by NumeralGrammar. */
  function ParseNumeral(t: string): (r: Option<DecimalValue>)
    ensures r.Some? && r.value.coefficient < 0 ==> |t| > 0 && t[0] == '-'
    ensures r.Some? && |t| > 0 && t[0] == '-' ==> r.value.coefficient <= 0
  {
    if |t| > 0 && t[0] == '-' then
      match ParseUnsigned(t[1..])
      case None => None
      case Some(d) => Some(DecimalValue(-d.coefficient, d.exponent))
    else if |t| > 0 && t[0] == '+' then ParseUnsigned(t[1..])
    else ParseUnsigned(t)
  }

  /** Quantizing to two fractional digits: the value in cents, rounded half
      to even. */
  function QuantizeCents(d: DecimalValue): (c: int)
    ensures 2 * Abs(d.coefficient * 100 - c * Pow10(d.exponent)) <= Pow10(d.exponent)
    ensures 2 * Abs(d.coefficient * 100 - c * Pow10(d.exponent)) == Pow10(d.exponent) ==> c % 2 == 0
    ensures d.coefficient >= 0 ==> c >= 0
  {
    RoundHalfEven(d.coefficient * 100, Pow10(d.exponent))
  }

  /** What parse_amount does with the normalized text t. */
  function ParseNormalized(t: string): (r: Result<int>)
    ensures r == Err(InvalidNumeral) <==> ParseNumeral(t).None?
    ensures r == Err(NotPositive) <==> ParseNumeral(t).Some? && ParseNumeral(t).value.coefficient <= 0
    ensures r.Ok? <==>
      ParseNumeral(t).Some? && ParseNumeral(t).value.coefficient > 0
      && QuantizeCents(ParseNumeral(t).value) < CentsLimit
    ensures r.Ok? ==> 0 <= r.value < CentsLimit
    ensures r.Ok? ==> r.value == QuantizeCents(ParseNumeral(t).value)
  {
    match ParseNumeral(t)
    case None => Err(InvalidNumeral)
    case Some(d) =>
      if d.coefficient <= 0 then Err(NotPositive)
      else
        var c := QuantizeCents(d);
        if c >= CentsLimit then Err(QuantizeOverflow) else Ok(c)
  }

  /** parse_amount(raw), with the result as a number of cents. */
  function ParseAmount(raw: string): (r: Result<int>)
    ensures r.Ok? <==>
      ParseNumeral(Normalize(raw)).Some? && ParseNumeral(Normalize(raw)).value.coefficient > 0
      && QuantizeCents(ParseNumeral(Normalize(raw)).value) < CentsLimit
    ensures r.Ok? ==> 0 <= r.value < CentsLimit
    ensures r.Ok? ==> r.value == QuantizeCents(ParseNumeral(Normalize(raw)).value)
  {
    ParseNormalized(Normalize(raw))
  }

  // ---- The numeral grammar ----

  /** t is the unsigned numeral ip, or ip '.' fp, with at least one digit. */
  predicate NumeralParts(t: string, ip: string, fp: string)
  {
    AllDigits(ip) && AllDigits(fp) && |ip| + |fp| > 0
    && ((t == ip && fp == []) || t == ip + ['.'] + fp)
  }

  /** t is an optional sign followed by an unsigned numeral ip '.' fp. */
  predicate SignedParts(t: string, sign: string, ip: string, fp: string)
  {
    (sign == [] || sign == ['+'] || sign == ['-'])
    && |sign| <= |t| && t[..|sign|] == sign && NumeralParts(t[|sign|..], ip, fp)
  }

  function Signed(sign: string, d: DecimalValue): DecimalValue
  {
    if sign == ['-'] then DecimalValue(-d.coefficient, d.exponent) else d
  }

  /** An unsigned numeral is read as the value of its parts. */
  lemma PartsParse(t: string, ip: string, fp: string)
    requires NumeralParts(t, ip, fp)
    ensures ParseUnsigned(t) == Some(NumeralValue(ip, fp))
  {
    if t == ip && fp == [] {
      NoDot(ip, []);
      assert ip + [] == ip;
      assert t[..|ip|] == ip;
    } else {
      NoDot(ip, ['.'] + fp);
      assert t == ip + (['.'] + fp);
      assert t[..|ip|] == ip && t[|ip| + 1..] == fp;
    }
  }

  /** An unsigned numeral starts with a digit or the point. */
  lemma PartsStart(t: string, ip: string, fp: string)
    requires NumeralParts(t, ip, fp)
    ensures |t| > 0 && (IsDigit(t[0]) || t[0] == '.')
  {
    if ip != [] {
      assert t[0] == ip[0];
    }
  }

  /** ParseUnsigned accepts exactly the unsigned numerals, with their value. */
  lemma UnsignedGrammar(t: string)
    ensures ParseUnsigned(t).Some? <==> exists ip, fp :: NumeralParts(t, ip, fp)
    ensures forall ip, fp :: NumeralParts(t, ip, fp) ==> ParseUnsigned(t) == Some(NumeralValue(ip, fp))
  {
    forall ip, fp | NumeralParts(t, ip, fp)
      ensures ParseUnsigned(t) == Some(NumeralValue(ip, fp))
    {
      PartsParse(t, ip, fp);
    }
    if ParseUnsigned(t).Some? {
      var k := FindDot(t);
      var ip := t[..k];
      var fp := if k < |t| then t[k + 1..] else [];
      if k < |t| {
        assert t == ip + ['.'] + fp;
      } else {
        assert t == ip;
      }
      assert NumeralParts(t, ip, fp);
    }
  }

  /** The leading sign of t, if it has one. */
  function SignOf(t: string): (sign: string)
    ensures |sign| <= |t| && t[..|sign|] == sign
  {
    if |t| > 0 && (t[0] == '-' || t[0] == '+') then [t[0]] else []
  }

  /** ParseNumeral reads the sign, then the unsigned numeral after it. */
  lemma SignThenUnsigned(t: string)
    ensures ParseNumeral(t) ==
      if ParseUnsigned(t[|SignOf(t)|..]).Some?
      then Some(Signed(SignOf(t), ParseUnsigned(t[|SignOf(t)|..]).value))
      else None
  {
  }

  /** The sign of a signed numeral is its leading sign. */
  lemma SignedPartsSign(t: string, sign: string, ip: string, fp: string)
    requires SignedParts(t, sign, ip, fp)
    ensures sign == SignOf(t)
  {
    PartsStart(t[|sign|..], ip, fp);
    if sign != [] {
      assert t[0] == sign[0];
    }
  }

  /** Decimal(t) accepts exactly a sign or none followed by an unsigned
      numeral, and its value is the numeral's, negated after a minus. */
  lemma NumeralGrammar(t: string)
    ensures ParseNumeral(t).Some? <==> exists sign, ip, fp :: SignedParts(t, sign, ip, fp)
    ensures forall sign, ip, fp :: SignedParts(t, sign, ip, fp) ==>
      ParseNumeral(t) == Some(Signed(sign, NumeralValue(ip, fp)))
  {
    var sign0 := SignOf(t);
    var u := t[|sign0|..];
    UnsignedGrammar(u);
    SignThenUnsigned(t);
    forall sign, ip, fp | SignedParts(t, sign, ip, fp)
      ensures ParseNumeral(t) == Some(Signed(sign, NumeralValue(ip, fp)))
    {
      SignedPartsSign(t, sign, ip, fp);
    }
    if ParseNumeral(t).Some? {
      var ip, fp :| NumeralParts(u, ip, fp);
      assert SignedParts(t, sign0, ip, fp);
    }
  }

  /** "-" and "+" are each a sign, not a numeral; ".5" is one half. */
  lemma GrammarExamples()
    ensures ParseNumeral("-") == None && ParseNumeral("+") == None
    ensures ParseNumeral(".5") == Some(DecimalValue(5, 1))
    ensures ParseNumeral("5.") == Some(DecimalValue(5, 0))
  {
    assert NumeralParts(".5", "", "5");
    PartsParse(".5", "", "5");
    assert NumeralParts("5.", "5", "");
    PartsParse("5.", "5", "");
  }

  // ---- Properties of the parser ----

  lemma {:induction false} ReplaceCommasConcat(a: string, b: string)
    ensures ReplaceCommas(a + b) == ReplaceCommas(a) + ReplaceCommas(b)
  {
    if a == [] {
      assert a + b == b;
    } else {
      assert (a + b)[0] == a[0] && (a + b)[1..] == a[1..] + b;
      ReplaceCommasConcat(a[1..], b);
    }
  }

  lemma ReplaceCommasPadded(pre: string, s: string, post: string)
    requires AllSpaces(pre) && AllSpaces(post)
    ensures ReplaceCommas(pre + s + post) == pre + ReplaceCommas(s) + post
  {
    ReplaceCommasConcat(pre + s, post);
    ReplaceCommasConcat(pre, s);
    NoCommas(pre);
    NoCommas(post);
  }

  lemma {:induction false} StripLeftSpaces(pre: string, x: string)
    requires AllSpaces(pre)
    ensures StripLeft(pre + x) == StripLeft(x)
  {
    if pre != [] {
      var s := pre + x;
      assert s[0] == pre[0];
      assert s[1..] == pre[1..] + x;
      assert AllSpaces(pre[1..]) by {
        forall i | 0 <= i < |pre| - 1 ensures IsSpace(pre[1..][i]) {
          assert pre[1..][i] == pre[i + 1];
        }
      }
      StripLeftSpaces(pre[1..], x);
    } else {
      assert pre + x == x;
    }
  }

  lemma {:induction false} StripRightSpaces(x: string, post: string)
    requires AllSpaces(post)
    ensures StripRight(x + post) == StripRight(x)
  {
    if post != [] {
      var p := post[..|post| - 1];
      var s := x + post;
      assert s[|s| - 1] == post[|post| - 1] && IsSpace(s[|s| - 1]);
      assert StripRight(s) == StripRight(s[..|s| - 1]);
      assert forall i :: 0 <= i < |p| ==> p[i] == post[i];
      assert s[..|s| - 1] == x + p;
      StripRightSpaces(x, p);
    } else {
      assert x + post == x;
    }
  }

  /** Once the left pass reaches a non-space, whatever follows is kept. */
  lemma {:induction false} StripLeftAppend(x: string, post: string)
    requires StripLeft(x) != []
    ensures StripLeft(x + post) == StripLeft(x) + post
  {
    var s := x + post;
    assert s[0] == x[0];
    if IsSpace(x[0]) {
      assert StripLeft(x) == StripLeft(x[1..]);
      assert StripLeft(s) == StripLeft(s[1..]);
      assert s[1..] == x[1..] + post;
      StripLeftAppend(x[1..], post);
    } else {
      assert StripLeft(x) == x;
      assert StripLeft(s) == s;
    }
  }

  lemma StripPadded(pre: string, t: string, post: string)
    requires AllSpaces(pre) && AllSpaces(post)
    ensures Strip(pre + t + post) == Strip(t)
  {
    assert pre + t + post == pre + (t + post);
    StripLeftSpaces(pre, t + post);
    if StripLeft(t) != [] {
      StripLeftAppend(t, post);
      StripRightSpaces(StripLeft(t), post);
    } else {
      StripLeftSplits(t);
      assert t == t[..|t|];
      assert AllSpaces(t + post);
      StripLeftSpaces(t + post, []);
      assert t + post + [] == t + post;
    }
  }

  /** Surrounding whitespace never changes the outcome of the parser. */
  lemma PaddingIgnored(pre: string, s: string, post: string)
    requires AllSpaces(pre) && AllSpaces(post)
    ensures ParseAmount(pre + s + post) == ParseAmount(s)
  {
    ReplaceCommasPadded(pre, s, post);
    StripPadded(pre, ReplaceCommas(s), post);
    assert Normalize(pre + s + post) == Normalize(s);
  }

  /** A comma and a point are the same decimal separator. */
  lemma CommaIsPoint(s: string, i: nat)
    requires i < |s| && s[i] == ','
    ensures ParseAmount(s[i := '.']) == ParseAmount(s)
  {
    assert ReplaceCommas(s[i := '.']) == ReplaceCommas(s);
  }

  function DigitChar(d: nat): (c: char)
    requires d < 10
    ensures IsDigit(c) && DigitValue(c) == d
  {
    (('0' as int) + d) as char
  }

  /** The decimal digits of n, without leading zeros. */
  function NatDigits(n: nat): (s: string)
    ensures |s| >= 1 && AllDigits(s) && DigitsValue(s) == n
  {
    if n < 10 then [DigitChar(n)]
    else
      var s := NatDigits(n / 10) + [DigitChar(n % 10)];
      assert s[..|s| - 1] == NatDigits(n / 10);
      s
  }

  /** The two fractional digits of c cents. */
  function CentDigits(c: nat): string
  {
    [DigitChar(c % 100 / 10), DigitChar(c % 10)]
  }

  /** c cents written with two fractional digits after the given separator. */
  function FormatCents(c: nat, point: char): string
  {
    NatDigits(c / 100) + [point] + CentDigits(c)
  }

  /** Text without commas passes the comma replacement unchanged. */
  lemma NoCommas(s: string)
    requires forall i :: 0 <= i < |s| ==> s[i] != ','
    ensures ReplaceCommas(s) == s
  {
  }

  /** Text with non-space ends passes str.strip unchanged. */
  lemma StripClean(t: string)
    requires t != [] && !IsSpace(t[0]) && !IsSpace(t[|t| - 1])
    ensures Strip(t) == t
  {
    assert StripLeft(t) == t;
  }

  /** A numeral of digits alone. */
  lemma ParseWhole(ip: string)
    requires |ip| >= 1 && AllDigits(ip)
    ensures ParseNumeral(ip) == Some(NumeralValue(ip, ""))
  {
    NoDot(ip, []);
    assert ip + [] == ip;
    assert ip[..|ip|] == ip;
    assert IsDigit(ip[0]);
    assert ParseNumeral(ip) == ParseUnsigned(ip);
  }

  /** A point search passes over a run of digits. */
  lemma {:induction false} NoDot(ip: string, rest: string)
    requires AllDigits(ip)
    requires rest == [] || rest[0] == '.'
    ensures FindDot(ip + rest) == |ip|
  {
    if ip != [] {
      assert IsDigit(ip[0]);
      assert (ip + rest)[1..] == ip[1..] + rest;
      NoDot(ip[1..], rest);
    }
  }

  /** A numeral with digits on both sides of the point (the right side may be empty). */
  lemma ParsePointed(ip: string, fp: string)
    requires |ip| >= 1 && AllDigits(ip) && AllDigits(fp)
    ensures ParseNumeral(ip + ['.'] + fp) == Some(NumeralValue(ip, fp))
  {
    var t := ip + ['.'] + fp;
    assert t[0] == ip[0];
    assert forall j :: 0 <= j < |ip| ==> t[j] == ip[j];
    assert t[|ip|] == '.';
    NoDot(ip, ['.'] + fp);
    assert t == ip + (['.'] + fp);
    assert t[..|ip|] == ip && t[|ip| + 1..] == fp;
    assert IsDigit(t[0]);
    assert ParseNumeral(t) == ParseUnsigned(t);
  }

  lemma Hundred()
    ensures Pow10(2) == 100
  {
  }

  lemma NumeralOfCents(c: nat)
    ensures NumeralValue(NatDigits(c / 100), CentDigits(c)) == DecimalValue(c, 2)
  {
    var whole, cents := c / 100, c % 100;
    CentDigitsValue(c);
    Hundred();
    assert |CentDigits(c)| == 2;
    assert DigitsValue(NatDigits(whole)) * Pow10(2) == whole * 100;
    assert whole * 100 + cents == c;
  }

  lemma CentDigitsValue(c: nat)
    ensures AllDigits(CentDigits(c)) && DigitsValue(CentDigits(c)) == c % 100
  {
    var s := CentDigits(c);
    assert s[..1] == [s[0]];
    assert s[..1][..0] == [];
  }

  lemma FormattedText(c: nat, point: char)
    requires point == '.' || point == ','
    ensures Normalize(FormatCents(c, point)) == FormatCents(c, '.')
  {
    var whole, cents := NatDigits(c / 100), CentDigits(c);
    CentDigitsValue(c);
    PointReplaced(whole, cents, point);
    var t := whole + ['.'] + cents;
    assert IsDigit(whole[0]) && IsDigit(cents[1]);
    StripClean(t);
  }

  /** Digits around a point or a comma read as digits around a point. */
  lemma PointReplaced(whole: string, cents: string, point: char)
    requires AllDigits(whole) && AllDigits(cents)
    requires point == '.' || point == ','
    ensures ReplaceCommas(whole + [point] + cents) == whole + ['.'] + cents
  {
    var f, t := whole + [point] + cents, whole + ['.'] + cents;
    assert forall i :: 0 <= i < |f| ==> f[i] == ',' ==> i == |whole|;
  }

  /** Every amount the parser can produce is read back from its written form,
      whether the separator is a point or a comma. */
  lemma FormatCentsRoundTrip(c: nat, point: char)
    requires 0 < c < CentsLimit
    requires point == '.' || point == ','
    ensures ParseAmount(FormatCents(c, point)) == Ok(c)
  {
    var digits, frac := NatDigits(c / 100), CentDigits(c);
    FormattedText(c, point);
    CentDigitsValue(c);
    Hundred();
    ParsePointed(digits, frac);
    NumeralOfCents(c);
    RoundHalfEvenExact(c, 100);
  }

  // The examples the ledger's users type: "1000", "1000,00" and " 1000.00 "
  // are the same amount; a negative amount and a word are refused.

  lemma ThousandDigits()
    ensures NatDigits(1000) == "1000"
  {
  }

  lemma ThousandPlain()
    ensures ParseAmount("1000") == Ok(100000)
  {
    ThousandDigits();
    WholeAmount("1000", 1000);
  }

  /** A whole number of units is that many hundred cents. */
  lemma WholeAmount(t: string, v: nat)
    requires |t| >= 1 && AllDigits(t) && DigitsValue(t) == v
    requires 0 < v && 100 * v < CentsLimit
    ensures ParseAmount(t) == Ok(100 * v)
  {
    assert IsDigit(t[0]) && IsDigit(t[|t| - 1]);
    NoCommas(t);
    StripClean(t);
    ParseWhole(t);
    assert NumeralValue(t, "") == DecimalValue(v, 0);
    RoundHalfEvenExact(v * 100, 1);
    assert QuantizeCents(DecimalValue(v, 0)) == 100 * v;
    NumeralAccepted(Normalize(t));
  }

  lemma ThousandComma()
    ensures ParseAmount("1000,00") == Ok(100000)
  {
    ThousandDigits();
    assert FormatCents(100000, ',') == "1000,00";
    FormatCentsRoundTrip(100000, ',');
  }

  lemma ThousandPoint()
    ensures ParseAmount("1000.00") == Ok(100000)
  {
    ThousandDigits();
    assert FormatCents(100000, '.') == "1000.00";
    FormatCentsRoundTrip(100000, '.');
  }

  lemma ThousandPadded()
    ensures ParseAmount(" 1000.00 ") == Ok(100000)
  {
    ThousandPoint();
    assert AllSpaces(" ");
    PaddingIgnored(" ", "1000.00", " ");
    PaddedText();
  }

  lemma PaddedText()
    ensures " " + "1000.00" + " " == " 1000.00 "
  {
  }

  lemma NegativeRefused()
    ensures ParseAmount("-5") == Err(NotPositive)
  {
    NoCommas("-5");
    StripClean("-5");
    assert "-5"[1..] == "5";
    ParseWhole("5");
    assert NumeralValue("5", "") == DecimalValue(5, 0);
  }

  lemma WordRefused()
    ensures ParseAmount("abc") == Err(InvalidNumeral)
  {
    NoCommas("abc");
    StripClean("abc");
    assert FindDot("abc") == 3;
    assert !IsDigit("abc"[0]);
  }

  /** Positivity is checked before quantizing: 0.004 passes the check and
      becomes 0.00. */
  lemma TinyAmountBecomesZero()
    ensures ParseAmount("0.004") == Ok(0)
  {
    ThreeDigits('0', '0', '4');
    SmallAmount("0.004", "004", 4);
    RoundHalfEvenUnique(400, 1000, 0);
  }

  /** A tie goes to the even cent: 0.005 becomes 0.00. */
  lemma TieRoundsDown()
    ensures ParseAmount("0.005") == Ok(0)
  {
    ThreeDigits('0', '0', '5');
    SmallAmount("0.005", "005", 5);
    RoundHalfEvenUnique(500, 1000, 0);
  }

  /** A tie goes to the even cent: 0.015 becomes 0.02. */
  lemma TieRoundsUp()
    ensures ParseAmount("0.015") == Ok(2)
  {
    ThreeDigits('0', '1', '5');
    SmallAmount("0.015", "015", 15);
    RoundHalfEvenUnique(1500, 1000, 2);
  }

  lemma ThreeDigits(a: char, b: char, c: char)
    requires IsDigit(a) && IsDigit(b) && IsDigit(c)
    ensures AllDigits([a, b, c])
    ensures DigitsValue([a, b, c]) == DigitValue(a) * 100 + DigitValue(b) * 10 + DigitValue(c)
  {
    var s := [a, b, c];
    assert s[..2] == [a, b];
    assert [a, b][..1] == [a];
    assert [a][..0] == [];
    assert DigitsValue([a]) == DigitValue(a);
    assert DigitsValue([a, b]) == DigitValue(a) * 10 + DigitValue(b);
  }

  /** "0." followed by three digits, a positive amount below one cent per unit. */
  lemma SmallAmount(t: string, fp: string, v: nat)
    requires |fp| == 3 && AllDigits(fp) && DigitsValue(fp) == v && v > 0
    requires t == "0" + ['.'] + fp
    ensures ParseAmount(t) == Ok(RoundHalfEven(100 * v, 1000))
  {
    SmallNumeral(t, fp, v);
    QuantizeThree(v);
    SmallQuantized(v);
    NumeralAccepted(Normalize(t));
  }

  /** A positive numeral whose cents fit the decimal context is accepted. */
  lemma NumeralAccepted(t: string)
    ensures ParseNumeral(t).Some? && ParseNumeral(t).value.coefficient > 0
            && QuantizeCents(ParseNumeral(t).value) < CentsLimit
            ==> ParseNormalized(t) == Ok(QuantizeCents(ParseNumeral(t).value))
  {
  }

  lemma QuantizeThree(v: nat)
    ensures QuantizeCents(DecimalValue(v, 3)) == RoundHalfEven(100 * v, 1000)
  {
    Thousand();
    assert v * 100 == 100 * v;
  }

  lemma SmallNumeral(t: string, fp: string, v: nat)
    requires |fp| == 3 && AllDigits(fp) && DigitsValue(fp) == v
    requires t == "0" + ['.'] + fp
    ensures ParseNumeral(Normalize(t)) == Some(DecimalValue(v, 3))
  {
    NoCommas(t);
    StripClean(t);
    ParsePointed("0", fp);
    Thousand();
  }

  lemma SmallQuantized(v: nat)
    requires v < 1000
    ensures 0 <= RoundHalfEven(100 * v, 1000) < CentsLimit
  {
    var q := RoundHalfEven(100 * v, 1000);
    assert q * 1000 <= 100 * v + 500;
  }

  lemma Thousand()
    ensures Pow10(3) == 1000
  {
  }
}
