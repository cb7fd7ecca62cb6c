/** The numeric conversion header values go through: `parseFloat` followed by
    the `isNaN` test (src/read.js). Restricted to an optional sign, decimal
    digits and an optional fraction; like `parseFloat` it reads the longest
    such prefix and ignores whatever follows. */
module Decimal {
  import opened Wrappers
  import opened Chars

  function DigitValue(c: char): int
    requires IsDigit(c)
  {
    c as int - '0' as int
  }

  /** The number a string of decimal digits denotes. */
  function DigitsValue(ds: string): (v: int)
    requires forall i :: 0 <= i < |ds| ==> IsDigit(ds[i])
    ensures v >= 0
  {
    if |ds| == 0 then 0
    else DigitsValue(ds[..|ds| - 1]) * 10 + DigitValue(ds[|ds| - 1])
  }

  function Pow10(n: nat): (p: int)
    ensures p >= 1
  {
    if n == 0 then 1 else 10 * Pow10(n - 1)
  }

  /** The length of a leading `+` or `-`, if any. */
  function SignLength(s: string): (n: int)
    ensures n == 0 || n == 1
  {
    if |s| > 0 && (s[0] == '+' || s[0] == '-') then 1 else 0
  }

  /** The shape of a string `parseFloat` reads a number from: after an
      optional sign, a digit, or a point followed by a digit. */
  predicate StartsNumeric(s: string)
  {
    var body := s[SignLength(s)..];
    (|body| > 0 && IsDigit(body[0]))
    || (|body| > 1 && body[0] == '.' && IsDigit(body[1]))
  }

  /** The run of digits at the start of `s`. */
  function LeadingDigits(s: string): (ds: string)
    ensures |ds| <= |s| && ds == s[..|ds|]
    ensures forall i :: 0 <= i < |ds| ==> IsDigit(ds[i])
    ensures |ds| == |s| || !IsDigit(s[|ds|])
  {
    s[..Span(s, IsDigit)]
  }

  /** The digits after a leading point, if `s` starts with one. */
  function FractionDigits(s: string): (ds: string)
    ensures forall i :: 0 <= i < |ds| ==> IsDigit(ds[i])
    ensures |s| == 0 || s[0] != '.' ==> ds == ""
  {
    if |s| > 0 && s[0] == '.' then LeadingDigits(s[1..]) else ""
  }

  /** The value of `whole.fraction`. */
  function Magnitude(whole: string, fraction: string): real
    requires forall i :: 0 <= i < |whole| ==> IsDigit(whole[i])
    requires forall i :: 0 <= i < |fraction| ==> IsDigit(fraction[i])
  {
    DigitsValue(whole) as real + DigitsValue(fraction) as real / Pow10(|fraction|) as real
  }

  /** `parseFloat(s)` when it is a number, `None` when it is `NaN`. */
  function ParseNumber(s: string): (r: Option<real>)
    ensures r.Some? <==> StartsNumeric(s)
  {
    var sign := SignLength(s);
    var body := s[sign..];
    var whole := LeadingDigits(body);
    var fraction := FractionDigits(body[|whole|..]);
    if |whole| == 0 && |fraction| == 0 then
      None
    else
      var magnitude := Magnitude(whole, fraction);
      Some(if sign == 1 && s[0] == '-' then -magnitude else magnitude)
  }

  /** The decimal digits of a natural number, most significant first. */
  function NatToDigits(n: nat): (ds: string)
    ensures |ds| > 0
    ensures forall i :: 0 <= i < |ds| ==> IsDigit(ds[i])
  {
    var d := ['0' + (n % 10) as char];
    if n < 10 then d else NatToDigits(n / 10) + d
  }

  /** An integer written in decimal, with a `-` when negative. */
  function IntToDecimal(n: int): string
  {
    if n < 0 then "-" + NatToDigits(-n) else NatToDigits(n)
  }

  /** Reading back the digits of `n` gives `n`. */
  lemma {:induction false} DigitsRoundTrip(n: nat)
    ensures DigitsValue(NatToDigits(n)) == n
  {
    var ds := NatToDigits(n);
    if n >= 10 {
      DigitsRoundTrip(n / 10);
      assert ds[..|ds| - 1] == NatToDigits(n / 10);
    }
  }

  /** Round trip: the number parsed from a decimal integer is that integer. */
  lemma ParseIntRoundTrip(n: int)
    ensures ParseNumber(IntToDecimal(n)) == Some(n as real)
  {
    var ds := if n < 0 then NatToDigits(-n) else NatToDigits(n);
    DigitsRoundTrip(if n < 0 then -n else n);
    ParseSignedDigits(IntToDecimal(n), n < 0, ds);
  }

  /** An optional minus sign followed by digits alone reads as the integer
      those digits denote, negated after the sign. */
  lemma ParseSignedDigits(s: string, negative: bool, ds: string)
    requires |ds| > 0 && forall i :: 0 <= i < |ds| ==> IsDigit(ds[i])
    requires s == (if negative then "-" else "") + ds
    ensures ParseNumber(s) == Some(if negative then -(DigitsValue(ds) as real) else DigitsValue(ds) as real)
  {
    var sign := if negative then 1 else 0;
    SignedParts(s, negative, ds);
    DigitsOnlyParts(ds);
    ParseNumberSteps(s, sign, ds, ds, "");
  }

  lemma SignedParts(s: string, negative: bool, ds: string)
    requires |ds| > 0 && IsDigit(ds[0])
    requires s == (if negative then "-" else "") + ds
    ensures SignLength(s) == (if negative then 1 else 0)
    ensures s[SignLength(s)..] == ds
    ensures negative <==> s[0] == '-'
  {
  }

  lemma DigitsOnlyParts(ds: string)
    requires forall i :: 0 <= i < |ds| ==> IsDigit(ds[i])
    ensures LeadingDigits(ds) == ds
    ensures FractionDigits(ds[|ds|..]) == ""
    ensures Magnitude(ds, "") == DigitsValue(ds) as real
  {
    SpanIsLongestRun(ds, IsDigit, |ds|);
  }

  /** ParseNumber in terms of its intermediate results. */
  lemma ParseNumberSteps(s: string, sign: int, body: string, whole: string, fraction: string)
    requires sign == SignLength(s) && body == s[sign..]
    requires whole == LeadingDigits(body) && fraction == FractionDigits(body[|whole|..])
    ensures ParseNumber(s)
            == if |whole| == 0 && |fraction| == 0 then None
               else Some(if sign == 1 && s[0] == '-' then -Magnitude(whole, fraction)
                         else Magnitude(whole, fraction))
  {
  }

  /** A fraction is read, and text after the number is ignored. */
  lemma ParseFractionExample()
    ensures ParseNumber("-124.5W") == Some(-124.5)
  {
    var s := "-124.5W";
    ExampleParts();
    ParseNumberSteps(s, 1, "124.5W", "124", "5");
    ExampleMagnitude();
  }

  lemma ExampleParts()
    ensures SignLength("-124.5W") == 1 && "-124.5W"[1..] == "124.5W"
    ensures LeadingDigits("124.5W") == "124"
    ensures "124.5W"[3..] == ".5W" && FractionDigits(".5W") == "5"
  {
    assert Span("124.5W", IsDigit) == 3;
    assert ".5W"[1..] == "5W";
    assert Span("5W", IsDigit) == 1;
  }

  lemma ExampleMagnitude()
    ensures Magnitude("124", "5") == 124.5
  {
    assert DigitsValue("124") == 124 by {
      assert "124"[..2] == "12";
      assert "12"[..1] == "1";
      assert "1"[..0] == "";
    }
    assert DigitsValue("5") == 5 by {
      assert "5"[..0] == "";
    }
  }
}
