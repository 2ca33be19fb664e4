/** Exact sums over volume rows whose fields are decimal texts: parsing, formatting, adding. */
module VolumeMath {
  import opened Options
  import opened Decimals

  /** `BigInt(text)`: an optional sign and digits; the empty text is zero. */
  function BigIntOf(s: string): Parsed {
    var negative := s != "" && s[0] == '-';
    var digits := if negative then s[1..] else s;
    if !AllDigits(digits) || (negative && digits == "") then NotANumber
    else
      var v: int := ValueOf(digits);
      Number(if negative then -v else v)
  }

  lemma BigIntRoundTrip(n: int)
    ensures BigIntOf(IntText(n)) == Number(n)
  {
    DigitsDenote(if n < 0 then -n else n);
    assert n < 0 ==> IntText(n)[1..] == Digits(-n);
    assert n >= 0 ==> IsDigit(IntText(n)[0]);
  }

  function SumBigIntStrings(l: string, r: string): Option<string> {
    if BigIntOf(l).Number? && BigIntOf(r).Number? then Some(IntText(BigIntOf(l).value + BigIntOf(r).value)) else None
  }

  function SumDecimal128Strings(l: string, r: string): Option<string> {
    if DecimalToScaled(l).Number? && DecimalToScaled(r).Number?
    then Some(FormatDecimal128(DecimalToScaled(l).value + DecimalToScaled(r).value)) else None
  }

  /** The four volume fields of a row, as texts. */
  datatype Fields = Fields(nativeBuy: string, nativeSell: string, usdBuy: string, usdSell: string)

  /** The numbers behind them; USD scaled by 10^12. */
  datatype Total = Total(nativeBuy: int, nativeSell: int, usdBuy: int, usdSell: int)

  const ZERO := Total(0, 0, 0, 0)

  function Plus(a: Total, b: Total): Total {
    Total(a.nativeBuy + b.nativeBuy, a.nativeSell + b.nativeSell, a.usdBuy + b.usdBuy, a.usdSell + b.usdSell)
  }

  function TextOf(t: Total): Fields {
    Fields(IntText(t.nativeBuy), IntText(t.nativeSell), FormatDecimal128(t.usdBuy), FormatDecimal128(t.usdSell))
  }

  /** Two rows' fields, summed text by text; absent when a text is no number. */
  function SumVolumeFields(l: Fields, r: Fields): Option<Fields> {
    var nb, ns := SumBigIntStrings(l.nativeBuy, r.nativeBuy), SumBigIntStrings(l.nativeSell, r.nativeSell);
    var ub, us := SumDecimal128Strings(l.usdBuy, r.usdBuy), SumDecimal128Strings(l.usdSell, r.usdSell);
    if nb.Some? && ns.Some? && ub.Some? && us.Some? then Some(Fields(nb.value, ns.value, ub.value, us.value)) else None
  }

  lemma SumsAreExact(a: int, b: int)
    ensures SumBigIntStrings(IntText(a), IntText(b)) == Some(IntText(a + b))
    ensures SumDecimal128Strings(FormatDecimal128(a), FormatDecimal128(b)) == Some(FormatDecimal128(a + b))
  {
    hide BigIntOf, DecimalToScaled, IntText, FormatDecimal128;
    BigIntRoundTrip(a);
    BigIntRoundTrip(b);
    ScaledRoundTrip(a);
    ScaledRoundTrip(b);
  }

  /** Summing texts is summing the numbers they stand for. */
  lemma FieldSumsAreExact(a: Total, b: Total)
    ensures SumVolumeFields(TextOf(a), TextOf(b)) == Some(TextOf(Plus(a, b)))
  {
    hide SumBigIntStrings, SumDecimal128Strings, IntText, FormatDecimal128;
    SumsAreExact(a.nativeBuy, b.nativeBuy);
    SumsAreExact(a.nativeSell, b.nativeSell);
    SumsAreExact(a.usdBuy, b.usdBuy);
    SumsAreExact(a.usdSell, b.usdSell);
  }

  /** Different numbers have different texts. */
  lemma TextsAreFaithful(a: Total, b: Total)
    requires TextOf(a) == TextOf(b)
    ensures a == b
  {
    hide IntText, FormatDecimal128;
    BigIntRoundTrip(a.nativeBuy);
    BigIntRoundTrip(b.nativeBuy);
    BigIntRoundTrip(a.nativeSell);
    BigIntRoundTrip(b.nativeSell);
    ScaledRoundTrip(a.usdBuy);
    ScaledRoundTrip(b.usdBuy);
    ScaledRoundTrip(a.usdSell);
    ScaledRoundTrip(b.usdSell);
  }

  const ZERO_TEXT := Fields("0", "0", "0.000000000000", "0.000000000000")

  lemma ZeroFields()
    ensures TextOf(ZERO) == ZERO_TEXT
  {
    hide FormatDecimal128, Digits;
    ZeroText();
  }

  // ---------------------------------------------------------------- rows and aggregation

  /** What rows are summed by: market rows have no account. */
  datatype Key = Key(asset: int, block: int, account: Option<string>)

  /** A row under its key, with its number of trades. */
  datatype Row = Row(key: Key, fields: Fields, count: nat)

  datatype Entry = Entry(fields: Fields, count: nat)

  /** The loop all three aggregations share: first row copied, later ones summed in. */
  method Aggregate(rows: seq<Row>, ghost totals: seq<Total>) returns (m: map<Key, Entry>)
    requires |totals| == |rows| && forall i :: 0 <= i < |rows| ==> rows[i].fields == TextOf(totals[i])
    ensures forall k :: k in m <==> exists i :: 0 <= i < |rows| && rows[i].key == k
    ensures forall k <- m :: m[k] == Entry(TextOf(TotalAt(rows, totals, k)), CountAt(rows, k))
  {
    hide TextOf, SumVolumeFields;
    m := map[];
    for i := 0 to |rows|
      invariant forall k :: k in m <==> exists j :: 0 <= j < i && rows[j].key == k
      invariant forall k <- m :: m[k] == Entry(TextOf(TotalAt(rows[..i], totals[..i], k)), CountAt(rows[..i], k))
    {
      ghost var k := rows[i].key;
      assert rows[..i+1][..i] == rows[..i] && totals[..i+1][..i] == totals[..i];
      if rows[i].key in m {
        FieldSumsAreExact(TotalAt(rows[..i], totals[..i], k), totals[i]);
        var sum := SumVolumeFields(m[rows[i].key].fields, rows[i].fields);
        m := m[rows[i].key := Entry(sum.value, m[rows[i].key].count + rows[i].count)];
      } else {
        NothingThere(rows[..i], totals[..i], k);
        m := m[rows[i].key := Entry(rows[i].fields, rows[i].count)];
      }
    }
    assert rows[..|rows|] == rows && totals[..|rows|] == totals;
  }

  /** The sum of the totals filed under a key. */
  ghost function TotalAt(rows: seq<Row>, totals: seq<Total>, k: Key): Total
    requires |totals| == |rows|
  {
    if rows == [] then ZERO
    else
      var rest := TotalAt(rows[..|rows|-1], totals[..|rows|-1], k);
      if rows[|rows|-1].key == k then Plus(rest, totals[|rows|-1]) else rest
  }

  ghost function CountAt(rows: seq<Row>, k: Key): nat {
    if rows == [] then 0
    else CountAt(rows[..|rows|-1], k) + (if rows[|rows|-1].key == k then rows[|rows|-1].count else 0)
  }

  lemma {:induction false} NothingThere(rows: seq<Row>, totals: seq<Total>, k: Key)
    requires |totals| == |rows| && forall i :: 0 <= i < |rows| ==> rows[i].key != k
    ensures TotalAt(rows, totals, k) == ZERO && CountAt(rows, k) == 0
  {
    if rows != [] {
      NothingThere(rows[..|rows|-1], totals[..|rows|-1], k);
    }
  }
}
