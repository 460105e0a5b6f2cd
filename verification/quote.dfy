/** The quote handler (POST on src/routes/rates.ts): validates a request, reads the latest
    rate snapshot, derives the pair rate from the two RUB rates and applies one of four
    commission formulas, chosen by the direction of the pair and by which side the client
    last edited. */
module Quote {
  import opened Outcome
  import opened Commission
  import opened Decimal

  /** The price of one unit of a currency in roubles; the snapshot only holds positive ones. */
  type RubRate = r: real | r > 0.0 witness 1.0

  /** The latest snapshot as the handler reads it: symbol to RUB rate. */
  type Snapshot = map<string, RubRate>

  /** The request body. A missing field is modelled by its falsy value ("" or 0). */
  datatype Request = Request(fromCurrency: string, toCurrency: string, amount: real, lastChanged: string)

  /** The successful answer: the pair rate and the computed amount on the other side. */
  datatype Quotation = Quotation(rate: real, resultAmount: real)

  /** The answer as written to the client: both numbers through `toFixed(6)`. */
  datatype Response = Response(rate: string, resultAmount: string)

  /** Which side the client last edited: "give", "receive", or anything else. */
  datatype Direction = Give | Receive | Other

  function DirectionOf(lastChanged: string): Direction {
    if lastChanged == "give" then Give
    else if lastChanged == "receive" then Receive
    else Other
  }

  /** Some field is missing or falsy (`!amount` holds for 0). */
  predicate MissingField(req: Request) {
    req.fromCurrency == "" || req.toCurrency == "" || req.amount == 0.0 || req.lastChanged == ""
  }

  /** `isFromFiat ? fromRate / toRate : isToFiat ? toRate / fromRate : 0`: units of the
      non-rouble currency per rouble, and 0 when neither side is the rouble. */
  function PairRate(fromCurrency: string, toCurrency: string, s: Snapshot): (rate: real)
    requires fromCurrency in s && toCurrency in s
    ensures rate >= 0.0
    ensures rate > 0.0 <==> fromCurrency == "RUB" || toCurrency == "RUB"
  {
    if fromCurrency == "RUB" then s[fromCurrency] / s[toCurrency]
    else if toCurrency == "RUB" then s[toCurrency] / s[fromCurrency]
    else 0.0
  }

  /** The four formulas, chosen by direction and by which side is the rouble (the rouble
      source is tested first); any other direction leaves the result at 0. `cFrom` and `cTo`
      are the commissions of the source and target currency. */
  function ResultAmount(dir: Direction, fromRub: bool, toRub: bool, amount: real, rate: real,
                        cFrom: real, cTo: real): real
    requires rate > 0.0 && cTo < 1.0
  {
    match dir
    case Give =>
      if fromRub then
        var commission := amount * cTo;
        (amount - commission) * rate
      else if toRub then
        var gross := amount / rate;
        gross - gross * cFrom
      else 0.0
    case Receive =>
      if fromRub then
        var net := amount / rate;
        GrossedUp(net, cTo)
      else if toRub then
        var net := amount * (1.0 - cFrom);
        net * rate
      else 0.0
    case Other => 0.0
  }

  /** `netAmount + netAmount * c / (1 - c)`: the net amount plus the commission that grosses
      it up. */
  function GrossedUp(net: real, c: real): real
    requires c < 1.0
  {
    var commission := net * c / (1.0 - c);
    net + commission
  }

  /** Both symbols are in the snapshot and one side of the pair is the rouble. */
  predicate Priceable(req: Request, s: Snapshot) {
    req.fromCurrency in s && req.toCurrency in s && (req.fromCurrency == "RUB" || req.toCurrency == "RUB")
  }

  /** The quotation of a priceable pair given the commissions of its source and target
      currency: the pair rate and the formula result. */
  function QuoteFor(req: Request, s: Snapshot, cFrom: real, cTo: real): (q: Quotation)
    requires Priceable(req, s) && cTo < 1.0
    ensures q.rate > 0.0
  {
    var rate := PairRate(req.fromCurrency, req.toCurrency, s);
    Quotation(rate, ResultAmount(DirectionOf(req.lastChanged), req.fromCurrency == "RUB",
                                 req.toCurrency == "RUB", req.amount, rate, cFrom, cTo))
  }

  /** The handler, in the order of its checks: missing field 400 (before the snapshot is
      read), no snapshot 500, unknown symbol 400, pair without a rouble side (rate 0) 400;
      otherwise the quotation, with both commissions looked up with the raw amount, whatever
      currency it is in. */
  function Handle(req: Request, latest: Option<Snapshot>): (r: Result<Quotation>)
    ensures MissingField(req) ==> r == Fail(BadRequest)
    ensures !MissingField(req) && latest.None? ==> r == Fail(ServerError)
    ensures (!MissingField(req) && latest.Some? && !Priceable(req, latest.value)) ==> r == Fail(BadRequest)
    ensures r.Ok? <==> (!MissingField(req) && latest.Some? && Priceable(req, latest.value))
    ensures r.Ok? ==> r.value == QuoteFor(req, latest.value, GetCommission(req.fromCurrency, req.amount),
                                          GetCommission(req.toCurrency, req.amount))
    ensures r.Fail? ==> r.error != NotFound
  {
    if MissingField(req) then Fail(BadRequest)
    else if latest.None? then Fail(ServerError)
    else
      var s := latest.value;
      if req.fromCurrency !in s || req.toCurrency !in s then Fail(BadRequest)
      else
        var rate := PairRate(req.fromCurrency, req.toCurrency, s);
        if rate == 0.0 then Fail(BadRequest)
        else
          var cFrom := GetCommission(req.fromCurrency, req.amount);
          var cTo := GetCommission(req.toCurrency, req.amount);
          Ok(QuoteFor(req, s, cFrom, cTo))
  }

  /** The response body: `rate.toFixed(6)` and `resultAmount.toFixed(6)`. */
  function Render(q: Quotation): Response {
    Response(ToFixed(q.rate, 6), ToFixed(q.resultAmount, 6))
  }

  lemma MulDivCancel(a: real, b: real)
    requires b != 0.0
    ensures a * b / b == a
  {
  }

  /** Grossing up is dividing by the share left after commission. */
  lemma GrossUp(net: real, c: real)
    requires c < 1.0
    ensures GrossedUp(net, c) == net / (1.0 - c)
  {
    var d := 1.0 - c;
    MulDivCancel(net, d);
    assert net * c / d + net * d / d == (net * c + net * d) / d;
    assert net * c + net * d == net;
  }

  /** A pair with neither side the rouble is refused, even when both symbols are known. */
  lemma NoRoubleSideRefused(req: Request, s: Snapshot)
    requires !MissingField(req) && req.fromCurrency in s && req.toCurrency in s
    requires req.fromCurrency != "RUB" && req.toCurrency != "RUB"
    ensures Handle(req, Some(s)) == Fail(BadRequest)
  {
  }

  /** A rouble-to-rouble request is not refused: its rate is 1. */
  lemma RubToRub(req: Request, s: Snapshot)
    requires !MissingField(req) && req.fromCurrency == "RUB" && req.toCurrency == "RUB" && "RUB" in s
    ensures Handle(req, Some(s)).Ok? && Handle(req, Some(s)).value.rate == 1.0
  {
    MulDivCancel(1.0, s["RUB"]);
  }

  /** Giving roubles: the commission of the target currency comes off the amount before
      conversion. */
  lemma GiveFromRub(req: Request, s: Snapshot, cFrom: real, cTo: real)
    requires Priceable(req, s) && cTo < 1.0 && req.lastChanged == "give" && req.fromCurrency == "RUB"
    ensures var q := QuoteFor(req, s, cFrom, cTo);
      q.rate == s["RUB"] / s[req.toCurrency] && q.resultAmount == req.amount * (1.0 - cTo) * q.rate
  {
    assert req.amount - req.amount * cTo == req.amount * (1.0 - cTo);
  }

  /** Giving crypto for roubles: the amount is converted, then the commission of the source
      currency comes off. */
  lemma GiveToRub(req: Request, s: Snapshot, cFrom: real, cTo: real)
    requires Priceable(req, s) && cTo < 1.0 && req.lastChanged == "give" && req.fromCurrency != "RUB"
    ensures var q := QuoteFor(req, s, cFrom, cTo);
      q.rate == s["RUB"] / s[req.fromCurrency] && q.resultAmount == (req.amount / q.rate) * (1.0 - cFrom)
  {
    var rate := PairRate(req.fromCurrency, req.toCurrency, s);
    var g := req.amount / rate;
    assert g - g * cFrom == g * (1.0 - cFrom);
  }

  /** Asking to receive crypto for roubles: the converted amount is grossed up by the target
      currency's commission. */
  lemma ReceiveFromRub(req: Request, s: Snapshot, cFrom: real, cTo: real)
    requires Priceable(req, s) && cTo < 1.0 && req.lastChanged == "receive" && req.fromCurrency == "RUB"
    ensures var q := QuoteFor(req, s, cFrom, cTo);
      q.rate == s["RUB"] / s[req.toCurrency] && q.resultAmount == (req.amount / q.rate) / (1.0 - cTo)
  {
    var rate := PairRate(req.fromCurrency, req.toCurrency, s);
    assert DirectionOf(req.lastChanged) == Receive;
    GrossUpFormula(req.amount, rate, cFrom, cTo, req.toCurrency == "RUB");
  }

  lemma GrossUpFormula(amount: real, rate: real, cFrom: real, cTo: real, toRub: bool)
    requires rate > 0.0 && cTo < 1.0
    ensures ResultAmount(Receive, true, toRub, amount, rate, cFrom, cTo) == (amount / rate) / (1.0 - cTo)
  {
    GrossUp(amount / rate, cTo);
  }

  /** Asking to receive roubles for crypto: the amount loses the source currency's commission
      and is then converted. */
  lemma ReceiveToRub(req: Request, s: Snapshot, cFrom: real, cTo: real)
    requires Priceable(req, s) && cTo < 1.0 && req.lastChanged == "receive" && req.fromCurrency != "RUB"
    ensures var q := QuoteFor(req, s, cFrom, cTo);
      q.rate == s["RUB"] / s[req.fromCurrency] && q.resultAmount == req.amount * (1.0 - cFrom) * q.rate
  {
  }

  /** Any direction other than "give" and "receive" is accepted and quotes 0. */
  lemma UnknownDirection(req: Request, s: Snapshot, cFrom: real, cTo: real)
    requires Priceable(req, s) && cTo < 1.0 && req.lastChanged != "give" && req.lastChanged != "receive"
    ensures QuoteFor(req, s, cFrom, cTo).resultAmount == 0.0
  {
  }

  /** A positive amount gives a positive quote in both "give" directions, for commissions
      below 100% (every table rate is). */
  lemma GivePositive(req: Request, s: Snapshot, cFrom: real, cTo: real)
    requires Priceable(req, s) && cFrom < 1.0 && cTo < 1.0 && req.lastChanged == "give" && req.amount > 0.0
    ensures QuoteFor(req, s, cFrom, cTo).resultAmount > 0.0
  {
    var q := QuoteFor(req, s, cFrom, cTo);
    if req.fromCurrency == "RUB" {
      GiveFromRub(req, s, cFrom, cTo);
      PositiveProduct(req.amount, 1.0 - cTo, q.rate);
    } else {
      GiveToRub(req, s, cFrom, cTo);
      PositiveQuotient(req.amount, q.rate);
      PositiveProduct(req.amount / q.rate, 1.0 - cFrom, 1.0);
    }
  }

  lemma PositiveProduct(a: real, b: real, c: real)
    requires a > 0.0 && b > 0.0 && c > 0.0
    ensures a * b * c > 0.0 && a * b > 0.0
  {
    assert a * b > 0.0;
  }

  lemma PositiveQuotient(a: real, b: real)
    requires a > 0.0 && b > 0.0
    ensures a / b > 0.0
  {
  }

  /** Receiving from roubles undoes giving roubles: asking to receive what a "give" of x
      roubles quoted costs exactly x roubles, when both requests select the same target
      commission. */
  lemma ReceiveUndoesGive(give: Request, s: Snapshot, cFrom: real, cFrom': real, cTo: real)
    requires Priceable(give, s) && cTo < 1.0 && give.lastChanged == "give" && give.fromCurrency == "RUB"
    ensures var receive := give.(lastChanged := "receive", amount := QuoteFor(give, s, cFrom, cTo).resultAmount);
      Priceable(receive, s) && QuoteFor(receive, s, cFrom', cTo).resultAmount == give.amount
  {
    var q := QuoteFor(give, s, cFrom, cTo);
    var receive := give.(lastChanged := "receive", amount := q.resultAmount);
    GiveFromRub(give, s, cFrom, cTo);
    ReceiveFromRub(receive, s, cFrom', cTo);
    Undo(q.resultAmount, q.rate, 1.0 - cTo, give.amount);
  }

  lemma Undo(y: real, rate: real, d: real, x: real)
    requires rate != 0.0 && d != 0.0 && y == x * d * rate
    ensures (y / rate) / d == x
  {
    assert y / rate == x * d;
  }

  lemma Twice(x: real, rate: real, d: real, y: real)
    requires rate != 0.0 && x == y * d * rate
    ensures (x / rate) * d == y * d * d
  {
    assert x / rate == y * d;
  }

  /** The rouble-target branches are not inverse to each other: giving back the crypto that a
      "receive" of y roubles quoted yields y·(1−c)² roubles, not y, when both requests select
      the same source commission c. */
  lemma ReceiveToRubThenGive(receive: Request, s: Snapshot, cFrom: real, cTo: real, cTo': real)
    requires Priceable(receive, s) && cTo < 1.0 && cTo' < 1.0
    requires receive.lastChanged == "receive" && receive.fromCurrency != "RUB"
    ensures var give := receive.(lastChanged := "give", amount := QuoteFor(receive, s, cFrom, cTo).resultAmount);
      Priceable(give, s)
      && QuoteFor(give, s, cFrom, cTo').resultAmount == receive.amount * (1.0 - cFrom) * (1.0 - cFrom)
  {
    var q := QuoteFor(receive, s, cFrom, cTo);
    var give := receive.(lastChanged := "give", amount := q.resultAmount);
    ReceiveToRub(receive, s, cFrom, cTo);
    GiveToRub(give, s, cFrom, cTo');
    Twice(q.resultAmount, q.rate, 1.0 - cFrom, receive.amount);
  }

  /** An amount with two commissions taken off in turn. */
  function AfterBoth(amount: real, c1: real, c2: real): real {
    amount * (1.0 - c1) * (1.0 - c2)
  }

  /** The first leg of the round trip quotes a non-zero amount of x. */
  lemma GiveThere(x: string, amount: real, s: Snapshot, cRub: real, c1: real)
    requires x in s && "RUB" in s && amount != 0.0 && 0.0 <= c1 < 1.0
    ensures QuoteFor(Request("RUB", x, amount, "give"), s, cRub, c1).resultAmount != 0.0
  {
    var req := Request("RUB", x, amount, "give");
    GiveFromRub(req, s, cRub, c1);
    NonZeroProduct(amount, 1.0 - c1, QuoteFor(req, s, cRub, c1).rate);
  }

  /** The second leg of the round trip, in terms of the commissions of both legs. */
  lemma GiveBack(x: string, amount: real, s: Snapshot, cRub: real, c1: real, c2: real, cRub2: real)
    requires x in s && "RUB" in s && c1 < 1.0 && c2 < 1.0 && cRub2 < 1.0
    requires x == "RUB" ==> cRub2 == c2
    ensures var y := QuoteFor(Request("RUB", x, amount, "give"), s, cRub, c1).resultAmount;
      QuoteFor(Request(x, "RUB", y, "give"), s, c2, cRub2).resultAmount == AfterBoth(amount, c1, c2)
  {
    var req := Request("RUB", x, amount, "give");
    var q := QuoteFor(req, s, cRub, c1);
    GiveFromRub(req, s, cRub, c1);
    var y := q.resultAmount;
    var req' := Request(x, "RUB", y, "give");
    if x == "RUB" {
      MulDivCancel(1.0, s["RUB"]);
      GiveFromRub(req', s, c2, cRub2);
    } else {
      GiveToRub(req', s, c2, cRub2);
      Undo(y, q.rate, 1.0 - c1, amount);
    }
  }

  lemma NonZeroProduct(a: real, b: real, c: real)
    requires a != 0.0 && b != 0.0 && c != 0.0
    ensures a * b * c != 0.0
  {
    assert a * b != 0.0;
  }

  /** Giving roubles for x and then giving the x received back for roubles never returns
      more roubles than were given, for a positive amount: both legs are accepted and each
      takes its own commission off. */
  lemma GiveRoundTrip(x: string, amount: real, s: Snapshot)
    requires x != "" && x in s && "RUB" in s && amount > 0.0
    ensures var there := Handle(Request("RUB", x, amount, "give"), Some(s));
      there.Ok?
      && var back := Handle(Request(x, "RUB", there.value.resultAmount, "give"), Some(s));
      back.Ok? && back.value.resultAmount <= amount
  {
    var cRub, c1 := GetCommission("RUB", amount), GetCommission(x, amount);
    var there := Request("RUB", x, amount, "give");
    var q := QuoteFor(there, s, cRub, c1);
    assert Handle(there, Some(s)) == Ok(q);
    GiveThere(x, amount, s, cRub, c1);
    var back := Request(x, "RUB", q.resultAmount, "give");
    var c2, cRub2 := GetCommission(x, q.resultAmount), GetCommission("RUB", q.resultAmount);
    assert Handle(back, Some(s)) == Ok(QuoteFor(back, s, c2, cRub2));
    GiveBackBound(x, amount, s, cRub, c1, c2, cRub2);
  }

  /** The handler also quotes negative amounts, and then the same round trip returns
      strictly more than was given. */
  lemma NegativeRoundTripGains(x: string, amount: real, s: Snapshot)
    requires x != "" && x in s && "RUB" in s && amount < 0.0
    ensures var there := Handle(Request("RUB", x, amount, "give"), Some(s));
      there.Ok?
      && var back := Handle(Request(x, "RUB", there.value.resultAmount, "give"), Some(s));
      back.Ok? && back.value.resultAmount > amount
  {
    var cRub, c1 := GetCommission("RUB", amount), GetCommission(x, amount);
    var there := Request("RUB", x, amount, "give");
    var q := QuoteFor(there, s, cRub, c1);
    assert Handle(there, Some(s)) == Ok(q);
    GiveThere(x, amount, s, cRub, c1);
    var back := Request(x, "RUB", q.resultAmount, "give");
    var c2, cRub2 := GetCommission(x, q.resultAmount), GetCommission("RUB", q.resultAmount);
    assert Handle(back, Some(s)) == Ok(QuoteFor(back, s, c2, cRub2));
    GiveBackGain(x, amount, s, cRub, c1, c2, cRub2);
  }

  /** The round trip in terms of the commissions: at most the amount for a positive one. */
  lemma GiveBackBound(x: string, amount: real, s: Snapshot, cRub: real, c1: real, c2: real, cRub2: real)
    requires x in s && "RUB" in s && amount > 0.0
    requires 0.0 <= c1 < 1.0 && 0.0 <= c2 < 1.0 && cRub2 < 1.0 && (x == "RUB" ==> cRub2 == c2)
    ensures var y := QuoteFor(Request("RUB", x, amount, "give"), s, cRub, c1).resultAmount;
      QuoteFor(Request(x, "RUB", y, "give"), s, c2, cRub2).resultAmount <= amount
  {
    GiveBack(x, amount, s, cRub, c1, c2, cRub2);
    Shrink(amount, c1, c2);
  }

  /** The round trip in terms of the commissions: more than the amount for a negative one. */
  lemma GiveBackGain(x: string, amount: real, s: Snapshot, cRub: real, c1: real, c2: real, cRub2: real)
    requires x in s && "RUB" in s && amount < 0.0
    requires 0.0 < c1 < 1.0 && 0.0 < c2 < 1.0 && cRub2 < 1.0 && (x == "RUB" ==> cRub2 == c2)
    ensures var y := QuoteFor(Request("RUB", x, amount, "give"), s, cRub, c1).resultAmount;
      QuoteFor(Request(x, "RUB", y, "give"), s, c2, cRub2).resultAmount > amount
  {
    GiveBack(x, amount, s, cRub, c1, c2, cRub2);
    Grow(amount, c1, c2);
  }

  lemma Shrink(a: real, c1: real, c2: real)
    requires a > 0.0 && 0.0 <= c1 < 1.0 && 0.0 <= c2 < 1.0
    ensures AfterBoth(a, c1, c2) <= a
  {
    var m := a * (1.0 - c1);
    assert m == a - a * c1 && a * c1 >= 0.0;
    PositiveProduct(a, 1.0 - c1, 1.0);
    assert m * (1.0 - c2) == m - m * c2;
    NonNegativeProduct(m, c2);
  }

  lemma NonNegativeProduct(a: real, b: real)
    requires a >= 0.0 && b >= 0.0
    ensures a * b >= 0.0
  {
  }

  lemma Grow(a: real, c1: real, c2: real)
    requires a < 0.0 && 0.0 < c1 < 1.0 && 0.0 < c2 < 1.0
    ensures AfterBoth(a, c1, c2) > a
  {
    var m := a * (1.0 - c1);
    assert m == a - a * c1 && a * c1 < 0.0;
    PositiveProduct(-a, 1.0 - c1, 1.0);
    assert m * (1.0 - c2) == m - m * c2;
    PositiveProduct(-m, c2, 1.0);
  }

  /** Both numbers of the response read back as the quotation rounded to six places. */
  lemma RenderValue(q: Quotation)
    ensures Parse(Render(q).rate) == Some(Rounded(q.rate, 6))
    ensures Parse(Render(q).resultAmount) == Some(Rounded(q.resultAmount, 6))
  {
    ParseText(Fixed(q.rate, 6));
    ParseText(Fixed(q.resultAmount, 6));
    FixedValue(q.rate, 6);
    FixedValue(q.resultAmount, 6);
  }
}
