/** The rate service (src/services/exchangeRateService.ts): the filter that turns the
    provider's answer into a symbol-to-rouble-price map, the single-document upsert that
    stores it, and the read of the latest snapshot. */
module ExchangeRates {
  import opened Outcome
  import Currencies
  import AmountFormat

  /** The symbols asked of the provider, all priced in roubles. */
  const Requested: seq<string> := ["BTC", "ETH", "USDT", "LTC", "TON", "XMR", "TRX", "DOGE",
                                   "USDC", "SOL", "DAI", "ADA", "RUB"]

  /** The symbols asked for are exactly the symbols of the precision table. */
  lemma RequestedAreListed()
    ensures forall s :: s in Requested <==> exists k :: 0 <= k < |Currencies.Table| && Currencies.Table[k].symbol == s
  {
    var t := Currencies.Table;
    assert Requested == [t[1].symbol, t[2].symbol, t[3].symbol, t[9].symbol, t[4].symbol, t[5].symbol,
                         t[6].symbol, t[7].symbol, t[8].symbol, t[10].symbol, t[11].symbol, t[12].symbol,
                         t[0].symbol];
  }

  /** So none of them falls back to the default precision of 6. */
  lemma RequestedPrecision(s: string)
    requires s in Requested
    ensures AmountFormat.GetDecimalPlaces(s) in {0, 2, 4, 8}
  {
    RequestedAreListed();
    var t := Currencies.Table;
    var k :| 0 <= k < |t| && t[k].symbol == s;
    assert t[k] in t;
    assert t[k].decimalPlaces in {0, 2, 4, 8};
  }

  /** A value of the parsed response body; an object keeps its members in order. */
  datatype Json = JNull | JBool(b: bool) | JNum(n: real) | JStr(s: string)
                | JArr(items: seq<Json>) | JObj(members: seq<(string, Json)>)

  /** `object[key]` on a parsed object: the value of the last member with the key. */
  function Member(members: seq<(string, Json)>, key: string): (r: Option<Json>)
    ensures r.None? <==> forall i :: 0 <= i < |members| ==> members[i].0 != key
    ensures r.Some? ==> exists i :: (0 <= i < |members| && members[i] == (key, r.value)
                                     && forall j :: i < j < |members| ==> members[j].0 != key)
  {
    if |members| == 0 then None
    else if members[|members| - 1].0 == key then Some(members[|members| - 1].1)
    else Member(members[..|members| - 1], key)
  }

  /** The price an entry contributes: its value must be an object with a RUB member whose
      value is a number. Arrays, null, numbers and strings contribute nothing. */
  function RubPrice(v: Json): (r: Option<real>)
    ensures r.Some? <==> v.JObj? && Member(v.members, "RUB").Some? && Member(v.members, "RUB").value.JNum?
    ensures r.Some? ==> r.value == Member(v.members, "RUB").value.n
  {
    match v
    case JObj(members) =>
      (match Member(members, "RUB")
       case Some(JNum(n)) => Some(n)
       case _ => None)
    case _ => None
  }

  /** The entries of the response, in order. */
  type Entries = seq<(string, Json)>

  /** The map the loop leaves, defined entry by entry from the end: a later entry with the
      same symbol overwrites an earlier one. */
  function KeptRates(entries: Entries): map<string, real> {
    if |entries| == 0 then map[]
    else
      var (k, v) := entries[|entries| - 1];
      match RubPrice(v)
      case Some(n) => KeptRates(entries[..|entries| - 1])[k := n]
      case None => KeptRates(entries[..|entries| - 1])
  }

  /** Some entry for the symbol carries a price. */
  predicate Priced(entries: Entries, k: string) {
    exists i :: 0 <= i < |entries| && entries[i].0 == k && RubPrice(entries[i].1).Some?
  }

  /** A symbol is kept exactly when some entry for it carries a price: nothing is
      invented. */
  lemma {:induction false} KeptKey(entries: Entries, k: string)
    ensures k in KeptRates(entries) <==> Priced(entries, k)
  {
    if |entries| > 0 {
      var last := |entries| - 1;
      var prefix := entries[..last];
      if entries[last].0 == k && RubPrice(entries[last].1).Some? {
        assert k in KeptRates(entries);
      } else {
        KeptKey(prefix, k);
        assert (k in KeptRates(entries)) == (k in KeptRates(prefix));
        if Priced(entries, k) {
          var i :| 0 <= i < |entries| && entries[i].0 == k && RubPrice(entries[i].1).Some?;
          assert prefix[i] == entries[i];
        }
        if Priced(prefix, k) {
          var i :| 0 <= i < |prefix| && prefix[i].0 == k && RubPrice(prefix[i].1).Some?;
          assert entries[i] == prefix[i];
        }
      }
    }
  }

  /** The rate kept for a symbol is the price of one of its entries. */
  lemma {:induction false} KeptValue(entries: Entries, k: string)
    requires k in KeptRates(entries)
    ensures exists i :: 0 <= i < |entries| && entries[i].0 == k && RubPrice(entries[i].1) == Some(KeptRates(entries)[k])
  {
    var last := |entries| - 1;
    var prefix := entries[..last];
    if entries[last].0 == k && RubPrice(entries[last].1).Some? {
      assert RubPrice(entries[last].1) == Some(KeptRates(entries)[k]);
    } else {
      KeptValue(prefix, k);
      var i :| 0 <= i < |prefix| && prefix[i].0 == k && RubPrice(prefix[i].1) == Some(KeptRates(prefix)[k]);
      assert entries[i] == prefix[i];
    }
  }

  /** With distinct symbols, as `Object.entries` yields them, every kept entry maps its symbol
      to exactly its RUB price. */
  lemma {:induction false} KeptExactly(entries: Entries, i: nat)
    requires forall a, b :: 0 <= a < b < |entries| ==> entries[a].0 != entries[b].0
    requires i < |entries| && RubPrice(entries[i].1).Some?
    ensures entries[i].0 in KeptRates(entries)
    ensures KeptRates(entries)[entries[i].0] == RubPrice(entries[i].1).value
  {
    if i < |entries| - 1 {
      var prefix := entries[..|entries| - 1];
      assert prefix[i] == entries[i];
      KeptExactly(prefix, i);
    }
  }

  /** The filter loop of `fetchAndSaveExchangeRates`. */
  method ParseRates(entries: Entries) returns (rates: map<string, real>)
    ensures rates == KeptRates(entries)
  {
    rates := map[];
    var i := 0;
    while i < |entries|
      invariant 0 <= i <= |entries|
      invariant rates == KeptRates(entries[..i])
    {
      var (currency, rateData) := entries[i];
      assert entries[..i + 1][..i] == entries[..i];
      if rateData.JObj? {
        var rub := Member(rateData.members, "RUB");
        if rub.Some? && rub.value.JNum? {
          rates := rates[currency := rub.value.n];
        }
      }
      i := i + 1;
    }
    assert entries[..i] == entries;
  }

  /** A stored snapshot: the rates and the time they were saved. */
  datatype Snapshot = Snapshot(rates: map<string, real>, timestamp: int)

  /** `findOneAndUpdate({}, { rates, timestamp }, { upsert: true })`: the first document of the
      collection gets the new rates and time, old rates dropped; an empty collection gets one
      document. */
  function Upsert(docs: seq<Snapshot>, rates: map<string, real>, now: int): (r: seq<Snapshot>)
    ensures |r| == if |docs| == 0 then 1 else |docs|
    ensures r[0] == Snapshot(rates, now)
    ensures r[1..] == if |docs| == 0 then [] else docs[1..]
  {
    if |docs| == 0 then [Snapshot(rates, now)] else docs[0 := Snapshot(rates, now)]
  }

  /** One run of `fetchAndSaveExchangeRates`: a failed request (None) stores nothing; an
      answer is filtered and upserted. */
  function FetchAndSave(docs: seq<Snapshot>, response: Option<Entries>, now: int): (r: seq<Snapshot>)
    ensures response.None? ==> r == docs
    ensures response.Some? ==> (|r| >= 1 && r[0] == Snapshot(KeptRates(response.value), now)
                                && r[1..] == if |docs| == 0 then [] else docs[1..])
  {
    match response
    case None => docs
    case Some(entries) => Upsert(docs, KeptRates(entries), now)
  }

  /** `findOne().sort({ timestamp: -1 })`: a snapshot with the greatest time, None when the
      collection is empty. */
  function Latest(docs: seq<Snapshot>): (r: Option<Snapshot>)
    ensures r.None? <==> |docs| == 0
    ensures r.Some? ==> r.value in docs && forall d :: d in docs ==> d.timestamp <= r.value.timestamp
  {
    if |docs| == 0 then None
    else
      assert docs == [docs[0]] + docs[1..];
      var rest := Latest(docs[1..]);
      if rest.None? || docs[0].timestamp >= rest.value.timestamp then Some(docs[0]) else rest
  }

  /** The service only ever upserts, so the collection never holds more than one snapshot. */
  lemma SaveKeepsOneSnapshot(docs: seq<Snapshot>, response: Option<Entries>, now: int)
    requires |docs| <= 1
    ensures |FetchAndSave(docs, response, now)| <= 1
  {
  }

  /** After a successful run the latest snapshot is the one just saved, with exactly the
      rates kept from the answer: nothing of the previous rates survives. */
  lemma SaveThenLatest(docs: seq<Snapshot>, entries: Entries, now: int)
    requires |docs| <= 1
    ensures Latest(FetchAndSave(docs, Some(entries), now)) == Some(Snapshot(KeptRates(entries), now))
  {
    var r := FetchAndSave(docs, Some(entries), now);
    assert r == [Snapshot(KeptRates(entries), now)];
  }

  /** After a failed run the latest snapshot is unchanged. */
  lemma FailedFetchKeepsLatest(docs: seq<Snapshot>, now: int)
    ensures Latest(FetchAndSave(docs, None, now)) == Latest(docs)
  {
  }
}
