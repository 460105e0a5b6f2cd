/** Display formatting of amounts (src/config/utils.ts): the precision lookup in the
    currency table and `formatAmount`, which writes roubles as a rounded integer and every
    other currency with `toFixed` at its precision, trailing zeros stripped. */
module AmountFormat {
  import opened Outcome
  import opened Currencies
  import opened Decimal

  /** The position of the first entry with the symbol, or |table| when no entry has it. */
  function FindIndex(table: seq<Currency>, symbol: string): (i: nat)
    ensures i <= |table|
    ensures i < |table| ==> table[i].symbol == symbol
    ensures forall j :: 0 <= j < i ==> table[j].symbol != symbol
  {
    if |table| == 0 then 0
    else if table[0].symbol == symbol then 0
    else 1 + FindIndex(table[1..], symbol)
  }

  /** `currencies.find(c => c.symbol === currency)`: the first entry with the symbol. */
  function Find(table: seq<Currency>, symbol: string): (r: Option<Currency>)
    ensures r.Some? ==> r.value in table && r.value.symbol == symbol
    ensures r.None? <==> forall c :: c in table ==> c.symbol != symbol
  {
    var i := FindIndex(table, symbol);
    if i < |table| then Some(table[i]) else None
  }

  /** `getDecimalPlaces`: the listed precision of the symbol, 6 for an unlisted symbol. */
  function GetDecimalPlaces(symbol: string): (d: nat)
    ensures forall c :: c in Table && c.symbol == symbol ==> d == c.decimalPlaces
    ensures (forall c :: c in Table ==> c.symbol != symbol) ==> d == 6
  {
    SymbolsDistinct();
    match Find(Table, symbol)
    case Some(c) => c.decimalPlaces
    case None => 6
  }

  /** `formatAmount`: roubles as `Math.round(amount).toString()`, any other currency as
      `amount.toFixed(places).replace(/\.?0+$/, '')`. */
  function FormatAmount(amount: real, currency: string): string {
    if currency == "RUB" then IntToString(RoundHalfUp(amount))
    else StripZeros(ToFixed(amount, GetDecimalPlaces(currency)))
  }

  /** Every currency other than the rouble is written with at least two places, so the
      strip never meets a `toFixed` text without a point. */
  lemma PrecisionAtLeastTwo(currency: string)
    requires currency != "RUB"
    ensures GetDecimalPlaces(currency) >= 2
  {
    var i := FindIndex(Table, currency);
    assert i != 0;
    assert forall k :: 1 <= k < |Table| ==> Table[k].decimalPlaces >= 2;
  }

  /** Roubles are written as a whole number: no point, and the text reads back as the
      amount rounded half up, within half a rouble of the amount. */
  lemma RubAmount(amount: real)
    ensures var s := FormatAmount(amount, "RUB");
      '.' !in s && Parse(s) == Some(RoundHalfUp(amount) as real)
    ensures Abs(RoundHalfUp(amount) as real - amount) <= 0.5
  {
    IntToStringValue(RoundHalfUp(amount));
  }

  /** For any other currency the strip drops exactly the zeros that end the fraction `toFixed`
      writes, and the point when no fraction digit is left. */
  lemma NonRubAmount(amount: real, currency: string)
    requires currency != "RUB"
    ensures FormatAmount(amount, currency) == Trimmed(Fixed(amount, GetDecimalPlaces(currency))).Text()
  {
    var d := GetDecimalPlaces(currency);
    PrecisionAtLeastTwo(currency);
    assert FormatAmount(amount, currency) == StripZeros(ToFixed(amount, d));
    StripFixed(amount, d);
  }

  /** The text reads back as the amount rounded half up to the currency's precision, which is
      within half a unit of the last place of the amount. */
  lemma NonRubAmountValue(amount: real, currency: string)
    requires currency != "RUB"
    ensures var d := GetDecimalPlaces(currency);
      Parse(FormatAmount(amount, currency)) == Some(Rounded(amount, d))
      && Abs(Rounded(amount, d) - amount) <= 0.5 / Pow10(d) as real
  {
    var d := GetDecimalPlaces(currency);
    PrecisionAtLeastTwo(currency);
    assert FormatAmount(amount, currency) == StripZeros(ToFixed(amount, d));
    StrippedValue(amount, d);
    RoundedIsClose(amount, d);
  }

  /** The text is never left ending in a point, and ends in '0' only when it has no point. */
  lemma NonRubAmountShape(amount: real, currency: string)
    requires currency != "RUB"
    ensures var s := FormatAmount(amount, currency);
      |s| > 0 && s[|s| - 1] != '.' && ('.' in s ==> s[|s| - 1] != '0')
  {
    var d := GetDecimalPlaces(currency);
    PrecisionAtLeastTwo(currency);
    assert FormatAmount(amount, currency) == StripZeros(ToFixed(amount, d));
    StrippedShape(amount, d);
  }

  /** Why roubles take their own branch: with no places, the strip would also eat the zeros
      of a whole number. */
  lemma StripWithoutPlaces()
    ensures ToFixed(100.0, 0) == "100" && StripZeros("100") == "1"
  {
    assert ScaledDigits(100.0, 0) == 100;
    assert NatToDigits(100) == "100";
    assert MatchesAt("100", 1) && !MatchesAt("100", 0);
    LeftmostIs("100", 1);
  }
}
