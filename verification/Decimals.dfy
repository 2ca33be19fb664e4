/** Decimal text and the numbers it stands for. */
module Decimals {
  function Pow10(n: nat): (p: nat)
    ensures p >= 1
  {
    if n == 0 then 1 else 10 * Pow10(n - 1)
  }

  lemma {:induction false} Pow10Add(m: nat, n: nat)
    ensures Pow10(m + n) == Pow10(m) * Pow10(n)
  {
    if m > 0 {
      Pow10Add(m - 1, n);
      assert Pow10(m + n) == 10 * Pow10(m - 1 + n);
    }
  }

  const TRILLION: nat := 1_000_000_000_000

  lemma TrillionIsPow10()
    ensures Pow10(12) == TRILLION
  {
    assert Pow10(4) == 10_000;
    Pow10Add(4, 4);
    Pow10Add(8, 4);
  }

  predicate IsDigit(c: char) { 48 <= c as int <= 57 }

  predicate AllDigits(s: string) { forall i :: 0 <= i < |s| ==> IsDigit(s[i]) }

  function CharOf(d: nat): char
    requires d < 10
  {
    (48 + d) as char
  }

  function DigitOf(c: char): nat
    requires IsDigit(c)
  {
    c as int - 48
  }

  /** The number a string of digits denotes; the empty string denotes zero. */
  function ValueOf(s: string): nat
    requires AllDigits(s)
  {
    if s == "" then 0 else 10 * ValueOf(s[..|s|-1]) + DigitOf(s[|s|-1])
  }

  /** The shortest digits of a number. */
  function Digits(n: nat): string {
    if n < 10 then [CharOf(n)] else Digits(n / 10) + [CharOf(n % 10)]
  }

  function Zeros(n: nat): string {
    if n == 0 then "" else Zeros(n - 1) + "0"
  }

  function PadStart(s: string, width: nat): string {
    if |s| >= width then s else Zeros(width - |s|) + s
  }

  function PadEnd(s: string, width: nat): string {
    if |s| >= width then s else s + Zeros(width - |s|)
  }

  lemma {:induction false} DigitsDenote(n: nat)
    ensures AllDigits(Digits(n)) && Digits(n) != "" && ValueOf(Digits(n)) == n
    ensures n > 0 ==> Digits(n)[0] != '0'
  {
    if n >= 10 {
      DigitsDenote(n / 10);
      var s := Digits(n);
      assert s[..|s|-1] == Digits(n / 10);
    }
  }

  lemma {:induction false} ValueJoin(a: string, b: string)
    requires AllDigits(a) && AllDigits(b)
    ensures AllDigits(a + b) && ValueOf(a + b) == ValueOf(a) * Pow10(|b|) + ValueOf(b)
  {
    if b == "" {
      assert a + b == a;
    } else {
      var init := b[..|b|-1];
      ValueJoin(a, init);
      assert (a + b)[..|a + b|-1] == a + init;
      assert 10 * (ValueOf(a) * Pow10(|init|)) == ValueOf(a) * Pow10(|b|);
    }
  }

  lemma {:induction false} ZerosDenote(n: nat)
    ensures |Zeros(n)| == n && AllDigits(Zeros(n)) && ValueOf(Zeros(n)) == 0
  {
    if n > 0 {
      ZerosDenote(n - 1);
      assert Zeros(n)[..n-1] == Zeros(n - 1);
    }
  }

  lemma {:induction false} ValueBelow(s: string)
    requires AllDigits(s)
    ensures ValueOf(s) < Pow10(|s|)
  {
    if s != "" {
      ValueBelow(s[..|s|-1]);
    }
  }

  lemma {:induction false} DigitsLength(n: nat, width: nat)
    requires n < Pow10(width) && width > 0
    ensures |Digits(n)| <= width
  {
    if n >= 10 {
      assert Pow10(width) == 10 * Pow10(width - 1);
      assert Pow10(0) == 1;
      DigitsLength(n / 10, width - 1);
    }
  }

  /** A number below `10^width`, padded: exactly `width` digits that denote it. */
  lemma PaddedDenotes(n: nat, width: nat)
    requires n < Pow10(width) && width > 0
    ensures var s := PadStart(Digits(n), width); |s| == width && AllDigits(s) && ValueOf(s) == n
  {
    DigitsDenote(n);
    DigitsLength(n, width);
    hide Digits, ValueOf, Zeros, Pow10;
    var z := width - |Digits(n)|;
    ZerosDenote(z);
    ValueJoin(Zeros(z), Digits(n));
    assert 0 * Pow10(|Digits(n)|) == 0;
    if z == 0 { assert PadStart(Digits(n), width) == Digits(n); }
  }

  lemma {:induction false} SameWidthSameValue(a: string, b: string)
    requires AllDigits(a) && AllDigits(b) && |a| == |b| && ValueOf(a) == ValueOf(b)
    ensures a == b
  {
    if a != "" {
      SameWidthSameValue(a[..|a|-1], b[..|b|-1]);
      assert a == a[..|a|-1] + [a[|a|-1]] && b == b[..|b|-1] + [b[|b|-1]];
    }
  }

  /** No leading zero, except for zero itself. */
  predicate Shortest(s: string) { s != "" && AllDigits(s) && (s[0] == '0' ==> |s| == 1) }

  lemma {:induction false} ShortestIsDigits(s: string)
    requires Shortest(s)
    ensures Digits(ValueOf(s)) == s
  {
    var init := s[..|s|-1];
    if |s| > 1 {
      ShortestIsDigits(init);
      assert ValueOf(s) / 10 == ValueOf(init) && ValueOf(s) % 10 == DigitOf(s[|s|-1]);
      assert Digits(0) == "0";
      assert s == init + [s[|s|-1]];
    } else {
      assert init == "";
      assert s == [s[0]];
    }
  }

  // ---------------------------------------------------------------- splitting at a dot

  /** The text before the first dot, and the text between the first and the second. */
  function SplitDot(s: string): (string, string) {
    var dot := IndexOf(s, '.');
    if dot == |s| then (s, "") else (s[..dot], s[dot+1..][..IndexOf(s[dot+1..], '.')])
  }

  function IndexOf(s: string, c: char): (i: nat)
    ensures i <= |s| && c !in s[..i] && (i < |s| ==> s[i] == c)
  {
    if s == "" then 0
    else if s[0] == c then 0
    else
      var i := IndexOf(s[1..], c);
      assert s[..1+i] == [s[0]] + s[1..][..i];
      1 + i
  }

  lemma {:induction false} IndexIs(s: string, c: char, i: nat)
    requires i <= |s| && (forall j :: 0 <= j < i ==> s[j] != c) && (i < |s| ==> s[i] == c)
    ensures IndexOf(s, c) == i
  {
    if i > 0 {
      IndexIs(s[1..], c, i - 1);
    }
  }

  lemma SplitAtDot(whole: string, fraction: string)
    requires AllDigits(whole) && AllDigits(fraction)
    ensures SplitDot(whole + "." + fraction) == (whole, fraction)
    ensures SplitDot(whole) == (whole, "")
  {
    var s := whole + "." + fraction;
    assert forall c: char :: IsDigit(c) ==> c != '.';
    IndexIs(s, '.', |whole|);
    IndexIs(fraction, '.', |fraction|);
    IndexIs(whole, '.', |whole|);
    assert s[..|whole|] == whole && s[|whole|+1..] == fraction;
    assert fraction[..|fraction|] == fraction;
  }

  // ---------------------------------------------------------------- src/blocks/volumeMath.ts

  function IntText(n: int): string { if n < 0 then "-" + Digits(-n) else Digits(n) }

  /** Fixed twelve-decimal text of a value scaled by 10^12. */
  function FormatDecimal128(value: int): string {
    var unsigned := if value < 0 then -value else value;
    (if value < 0 then "-" else "") + Digits(unsigned / TRILLION) + "." + PadStart(Digits(unsigned % TRILLION), 12)
  }

  /** The scaled integer a decimal text denotes, cut to twelve decimals; absent for text that is no number. */
  function DecimalToScaled(s: string): (r: Parsed) {
    var negative := s != "" && s[0] == '-';
    var unsigned := if negative then s[1..] else s;
    var (whole, rawFraction) := SplitDot(unsigned);
    PadEndLongEnough(rawFraction, 12);
    var fraction := PadEnd(rawFraction, 12)[..12];
    var digits := (if whole == "" then "0" else whole) + fraction;
    if !AllDigits(digits) then NotANumber
    else
      var v: int := ValueOf(digits);
      Number(if negative then -v else v)
  }

  datatype Parsed = NotANumber | Number(value: int)

  lemma PadEndLongEnough(s: string, width: nat)
    ensures |PadEnd(s, width)| >= width
  {
    hide Zeros, ValueOf;
    if |s| < width { ZerosDenote(width - |s|); }
  }

  lemma {:induction false} ZerosAre(n: nat)
    ensures |Zeros(n)| == n && forall i :: 0 <= i < n ==> Zeros(n)[i] == '0'
  {
    if n > 0 { ZerosAre(n - 1); }
  }

  lemma ZeroText()
    ensures Digits(0) == "0" && FormatDecimal128(0) == "0.000000000000"
  {
    hide Zeros;
    ZerosAre(11);
    var zeros := "00000000000";
    assert forall i :: 0 <= i < 11 ==> zeros[i] == '0';
    assert Zeros(11) == zeros;
    assert PadStart("0", 12) == "000000000000";
  }

  /** A whole part and twelve decimals, as one scaled number. */
  lemma WholeAndFraction(n: nat)
    ensures var whole, fraction := Digits(n / TRILLION), PadStart(Digits(n % TRILLION), 12);
            && AllDigits(whole) && AllDigits(fraction) && |fraction| == 12 && whole != ""
            && AllDigits(whole + fraction) && ValueOf(whole + fraction) == n
  {
    TrillionIsPow10();
    DigitsDenote(n / TRILLION);
    PaddedDenotes(n % TRILLION, 12);
    hide Digits, ValueOf, PadStart, Pow10;
    ValueJoin(Digits(n / TRILLION), PadStart(Digits(n % TRILLION), 12));
  }

  /** Parsing undoes formatting on every integer, negative ones included. */
  lemma ScaledRoundTrip(value: int)
    ensures DecimalToScaled(FormatDecimal128(value)) == Number(value)
  {
    hide Digits, PadStart, ValueOf;
    var n := if value < 0 then -value else value;
    var whole, fraction := Digits(n / TRILLION), PadStart(Digits(n % TRILLION), 12);
    WholeAndFraction(n);
    SplitAtDot(whole, fraction);
    assert PadEnd(fraction, 12)[..12] == fraction;
    var s := FormatDecimal128(value);
    if value < 0 {
      assert s[1..] == whole + "." + fraction;
    } else {
      assert s == whole + "." + fraction;
      assert s[0] == whole[0] && IsDigit(whole[0]);
    }
  }
}
