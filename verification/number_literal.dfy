/**
 The literals Rust's `str::parse::<f64>` accepts, following the grammar the
 Rust standard library documents for `f64::from_str`:

   Float  ::= Sign? ( 'inf' | 'infinity' | 'nan' | Number )
   Number ::= ( Digit+ | Digit+ '.' Digit* | Digit* '.' Digit+ ) Exp?
   Exp    ::= 'e' Sign? Digit+
   Sign   ::= [+-]

 with the letters matched without regard to ASCII case. Only acceptance is
 modelled; the floating-point value itself is not.
 */
module NumberLiteral {
  import opened Strings

  predicate IsDigit(c: char) {
    '0' <= c <= '9'
  }

  predicate AllDigits(s: string) {
    forall i :: 0 <= i < |s| ==> IsDigit(s[i])
  }

  function StripSign(s: string): (r: string)
    ensures r == s || (|s| > 0 && r == s[1..] && (s[0] == '+' || s[0] == '-'))
  {
    if |s| > 0 && (s[0] == '+' || s[0] == '-') then s[1..] else s
  }

  /** `inf`, `infinity` or `nan` in any ASCII case. */
  predicate IsSpecial(b: string) {
    EqualsIgnoringCase(b, "inf") || EqualsIgnoringCase(b, "infinity") || EqualsIgnoringCase(b, "nan")
  }

  /** Length of the run of digits at the front of `s`. */
  function LeadingDigits(s: string): (n: nat)
    ensures n <= |s| && AllDigits(s[..n])
    ensures n < |s| ==> !IsDigit(s[n])
    decreases |s|
  {
    if s != [] && IsDigit(s[0]) then
      var n := 1 + LeadingDigits(s[1..]);
      assert forall i :: 0 < i < n ==> s[..n][i] == s[1..][..n - 1][i - 1];
      n
    else 0
  }

  predicate IsExponent(x: string) {
    var t := StripSign(x);
    |t| >= 1 && LeadingDigits(t) == |t|
  }

  /** Nothing, or `e`/`E` followed by an exponent. */
  predicate IsExponentPart(x: string) {
    x == [] || ((x[0] == 'e' || x[0] == 'E') && IsExponent(x[1..]))
  }

  /**
   Integer digits, then an optional point and fraction digits (at least one
   digit in all), then an optional exponent part.
   */
  predicate IsDecimal(b: string) {
    var a := LeadingDigits(b);
    var rest := b[a..];
    if rest != [] && rest[0] == '.' then
      var c := LeadingDigits(rest[1..]);
      a + c >= 1 && IsExponentPart(rest[1 + c..])
    else
      a >= 1 && IsExponentPart(rest)
  }

  /** `s.parse::<f64>().is_ok()`. */
  predicate IsF64Literal(s: string) {
    var b := StripSign(s);
    IsSpecial(b) || IsDecimal(b)
  }

  /** The characters a float literal is made of. */
  predicate IsLiteralChar(c: char) {
    IsDigit(c) || c == '+' || c == '-' || c == '.' || 'a' <= c <= 'z' || 'A' <= c <= 'Z'
  }

  predicate AllLiteralChars(s: string) {
    forall i :: 0 <= i < |s| ==> IsLiteralChar(s[i])
  }

  lemma {:induction false} SpecialChars(a: string, w: string)
    requires EqualsIgnoringCase(a, w)
    requires forall i :: 0 <= i < |w| ==> 'a' <= w[i] <= 'z'
    ensures |a| == |w| && AllLiteralChars(a)
    decreases |a|
  {
    if a != [] {
      SpecialChars(a[1..], w[1..]);
      assert forall i :: 0 < i < |a| ==> a[i] == a[1..][i - 1];
    }
  }

  lemma DigitsAreLiteralChars(s: string, n: nat)
    requires n <= |s| && AllDigits(s[..n])
    ensures AllLiteralChars(s[..n])
  {
  }

  /** Gluing two literal-character strings gives one. */
  lemma ConcatLiteralChars(x: string, y: string)
    requires AllLiteralChars(x) && AllLiteralChars(y)
    ensures AllLiteralChars(x + y)
  {
    forall i | 0 <= i < |x + y| ensures IsLiteralChar((x + y)[i]) {
      if i >= |x| {
        assert (x + y)[i] == y[i - |x|];
      }
    }
  }

  lemma ExponentPartChars(x: string)
    requires IsExponentPart(x)
    ensures AllLiteralChars(x)
  {
    if x != [] {
      var t := StripSign(x[1..]);
      assert t[..|t|] == t;
      DigitsAreLiteralChars(t, |t|);
      assert x == [x[0]] + (x[1..][..|x[1..]| - |t|] + t);
      ConcatLiteralChars(x[1..][..|x[1..]| - |t|], t);
      ConcatLiteralChars([x[0]], x[1..][..|x[1..]| - |t|] + t);
    }
  }

  lemma FractionChars(rest: string)
    requires rest != [] && rest[0] == '.'
    requires IsExponentPart(rest[1 + LeadingDigits(rest[1..])..])
    ensures AllLiteralChars(rest)
  {
    var f := rest[1..];
    var c := LeadingDigits(f);
    DigitsAreLiteralChars(f, c);
    ExponentPartChars(f[c..]);
    assert f[c..] == rest[1 + c..];
    assert f == f[..c] + f[c..];
    ConcatLiteralChars(f[..c], f[c..]);
    assert rest == [rest[0]] + f;
    ConcatLiteralChars([rest[0]], f);
  }

  lemma DecimalChars(b: string)
    requires IsDecimal(b)
    ensures |b| >= 1 && AllLiteralChars(b)
  {
    var a := LeadingDigits(b);
    DigitsAreLiteralChars(b, a);
    DecimalRestChars(b);
    assert b == b[..a] + b[a..];
    ConcatLiteralChars(b[..a], b[a..]);
  }

  /** What follows the integer digits of a decimal is literal characters, and the decimal is not empty. */
  lemma DecimalRestChars(b: string)
    requires IsDecimal(b)
    ensures |b| >= 1 && AllLiteralChars(b[LeadingDigits(b)..])
  {
    var rest := b[LeadingDigits(b)..];
    if rest != [] && rest[0] == '.' {
      FractionChars(rest);
    } else {
      ExponentPartChars(rest);
    }
  }

  /**
   A float literal is non-empty and made only of digits, signs, points and
   ASCII letters, so it holds no quote, colon, comma, brace or white space.
   */
  lemma LiteralAlphabet(s: string)
    requires IsF64Literal(s)
    ensures |s| >= 1 && AllLiteralChars(s)
  {
    var b := StripSign(s);
    if IsSpecial(b) {
      if EqualsIgnoringCase(b, "inf") {
        SpecialChars(b, "inf");
      } else if EqualsIgnoringCase(b, "infinity") {
        SpecialChars(b, "infinity");
      } else {
        SpecialChars(b, "nan");
      }
    } else {
      DecimalChars(b);
    }
    if b != s {
      assert s == [s[0]] + b;
      ConcatLiteralChars([s[0]], b);
    }
  }

  /** Integer, fractional and exponent forms are numbers. */
  lemma AcceptsIntegers()
    ensures IsF64Literal("0")
    ensures IsF64Literal("3")
    ensures IsF64Literal("50")
  {
    assert LeadingDigits("50") == 2 by {
      assert "50"[1..] == "0";
    }
  }

  lemma AcceptsFractions()
    ensures IsF64Literal("100.5") && IsF64Literal(".5") && IsF64Literal("5.")
  {
    AcceptsFullFraction();
    AcceptsBareFraction();
    AcceptsBarePoint();
  }

  lemma AcceptsFullFraction()
    ensures IsF64Literal("100.5")
  {
  }

  lemma AcceptsBareFraction()
    ensures IsF64Literal(".5")
  {
  }

  lemma AcceptsBarePoint()
    ensures IsF64Literal("5.")
  {
  }

  lemma AcceptsExponents()
    ensures IsF64Literal("-2.5e10")
  {
    var b := StripSign("-2.5e10");
    assert b == "2.5e10";
    assert LeadingDigits(b) == 1;
    assert b[1..] == ".5e10";
    assert LeadingDigits(b[2..]) == 1;
    assert b[3..] == "e10";
    assert IsExponent("10");
  }

  /** Rust's float parser also accepts infinities and NaN, in any case. */
  lemma AcceptsSpecialLiterals()
    ensures IsF64Literal("inf") && IsF64Literal("-Infinity") && IsF64Literal("NaN")
  {
    AcceptsInf();
    AcceptsNegativeInfinity();
    AcceptsNan();
  }

  lemma AcceptsInf()
    ensures IsF64Literal("inf")
  {
  }

  lemma AcceptsNegativeInfinity()
    ensures IsF64Literal("-Infinity")
  {
    InfinityInAnyCase();
    assert StripSign("-Infinity") == "Infinity";
  }

  lemma InfinityInAnyCase()
    ensures EqualsIgnoringCase("Infinity", "infinity")
  {
  }

  lemma AcceptsNan()
    ensures IsF64Literal("NaN")
  {
  }

  /** Empty text, a lone point and incomplete exponents are not numbers. */
  lemma RejectsMalformedNumbers()
    ensures !IsF64Literal("") && !IsF64Literal(".") && !IsF64Literal("e5") && !IsF64Literal("1e")
  {
  }

  /** The boolean words, the empty braces and other words are not numbers. */
  lemma RejectsWords()
    ensures !IsF64Literal("true") && !IsF64Literal("false")
  {
    RejectsTrue();
    RejectsFalse();
  }

  lemma RejectsTrue()
    ensures !IsF64Literal("true")
  {
  }

  lemma RejectsFalse()
    ensures !IsF64Literal("false")
  {
  }

  lemma RejectsBracesAndNames()
    ensures !IsF64Literal("{}") && !IsF64Literal("not_valid")
  {
    RejectsBraces();
    RejectsName();
  }

  lemma RejectsBraces()
    ensures !IsF64Literal("{}")
  {
  }

  lemma RejectsName()
    ensures !IsF64Literal("not_valid")
  {
  }
}
