/** The commission tiers of the quote handler (src/routes/rates.ts) and `getCommission`,
    which picks the rate of the first tier whose half-open range holds the amount. */
module Commission {
  import opened Outcome

  /** A commission band: amounts in [min, max) pay `commission` (a fraction, 0.04 = 4%). */
  datatype Tier = Tier(min: real, max: real, commission: real) {
    predicate Contains(amount: real) {
      min <= amount < max
    }
  }

  const UsdtTiers: seq<Tier> := [
    Tier(5000.0, 50000.0, 0.04),
    Tier(50001.0, 100000.0, 0.03),
    Tier(100001.0, 10000000.0, 0.025)
  ]

  const BtcTiers: seq<Tier> := [
    Tier(5000.0, 50000.0, 0.06),
    Tier(50001.0, 100000.0, 0.05),
    Tier(100001.0, 10000000.0, 0.04)
  ]

  /** The table for every currency other than USDT and BTC, the rouble included. */
  const AltTiers: seq<Tier> := [
    Tier(5000.0, 100000.0, 0.05),
    Tier(100001.0, 10000000.0, 0.06)
  ]

  /** The table `getCommission` scans for a currency. */
  function TableFor(currency: string): (t: seq<Tier>)
    ensures |t| >= 2
  {
    if currency == "USDT" then UsdtTiers
    else if currency == "BTC" then BtcTiers
    else AltTiers
  }

  /** The first tier, from position k on, that holds the amount. */
  function FirstMatch(tiers: seq<Tier>, amount: real, k: nat): (r: Option<nat>)
    requires k <= |tiers|
    ensures r.Some? ==> k <= r.value < |tiers| && tiers[r.value].Contains(amount)
    ensures r.Some? ==> forall j :: k <= j < r.value ==> !tiers[j].Contains(amount)
    ensures r.None? <==> forall j :: k <= j < |tiers| ==> !tiers[j].Contains(amount)
    decreases |tiers| - k
  {
    if k == |tiers| then None
    else if tiers[k].Contains(amount) then Some(k)
    else FirstMatch(tiers, amount, k + 1)
  }

  /** The scan of `getCommission` over one table: the first tier holding the amount, and when
      none does, the first tier for amounts below 5000 and the last tier otherwise. */
  function Lookup(tiers: seq<Tier>, amount: real): (c: real)
    requires |tiers| > 0
    ensures exists i :: 0 <= i < |tiers| && c == tiers[i].commission
  {
    match FirstMatch(tiers, amount, 0)
    case Some(i) => tiers[i].commission
    case None => if amount < 5000.0 then tiers[0].commission else tiers[|tiers| - 1].commission
  }

  /** `getCommission(currency, amount)`. */
  function GetCommission(currency: string, amount: real): (c: real)
    ensures 0.025 <= c <= 0.06
  {
    Lookup(TableFor(currency), amount)
  }

  /** The USDT rate written as bands over the whole line: 4% below 50000, 3% on
      [50001, 100000), 2.5% everywhere else (the gaps fall through to the last tier). */
  function UsdtRate(amount: real): real {
    if amount < 50000.0 then 0.04
    else if 50001.0 <= amount < 100000.0 then 0.03
    else 0.025
  }

  /** The BTC rate as bands: 6% below 50000, 5% on [50001, 100000), 4% everywhere else. */
  function BtcRate(amount: real): real {
    if amount < 50000.0 then 0.06
    else if 50001.0 <= amount < 100000.0 then 0.05
    else 0.04
  }

  /** The rate of every other currency: 5% below 100000, 6% from there on. */
  function AltRate(amount: real): real {
    if amount < 100000.0 then 0.05 else 0.06
  }

  /** The scan over USDT's tiers agrees with the bands. */
  lemma UsdtBands(amount: real)
    ensures GetCommission("USDT", amount) == UsdtRate(amount)
  {
    var r := FirstMatch(UsdtTiers, amount, 0);
    if 5000.0 <= amount < 50000.0 {
      assert r == Some(0);
    } else if 50001.0 <= amount < 100000.0 {
      assert !UsdtTiers[0].Contains(amount);
      assert r == Some(1);
    } else if 100001.0 <= amount < 10000000.0 {
      assert !UsdtTiers[0].Contains(amount) && !UsdtTiers[1].Contains(amount);
      assert r == Some(2);
    } else {
      assert r == None;
    }
  }

  /** The scan over BTC's tiers agrees with the bands. */
  lemma BtcBands(amount: real)
    ensures GetCommission("BTC", amount) == BtcRate(amount)
  {
    var r := FirstMatch(BtcTiers, amount, 0);
    if 5000.0 <= amount < 50000.0 {
      assert r == Some(0);
    } else if 50001.0 <= amount < 100000.0 {
      assert !BtcTiers[0].Contains(amount);
      assert r == Some(1);
    } else if 100001.0 <= amount < 10000000.0 {
      assert !BtcTiers[0].Contains(amount) && !BtcTiers[1].Contains(amount);
      assert r == Some(2);
    } else {
      assert r == None;
    }
  }

  /** The scan over the altcoin tiers agrees with the bands, for every currency other than
      USDT and BTC. */
  lemma AltBands(currency: string, amount: real)
    requires currency != "USDT" && currency != "BTC"
    ensures GetCommission(currency, amount) == AltRate(amount)
  {
    var r := FirstMatch(AltTiers, amount, 0);
    if 5000.0 <= amount < 100000.0 {
      assert r == Some(0);
    } else if 100001.0 <= amount < 10000000.0 {
      assert !AltTiers[0].Contains(amount);
      assert r == Some(1);
    } else {
      assert r == None;
    }
  }

  /** The tier bounds are read as half-open, so the whole amounts 50000 and 100000 sit in no
      tier and take the last tier's rate: the cheapest for USDT and BTC. */
  lemma BoundaryAmounts()
    ensures GetCommission("USDT", 50000.0) == 0.025 && GetCommission("USDT", 100000.0) == 0.025
    ensures GetCommission("BTC", 50000.0) == 0.04 && GetCommission("BTC", 100000.0) == 0.04
    ensures GetCommission("BTC", 49999.0) == 0.06
  {
    UsdtBands(50000.0);
    UsdtBands(100000.0);
    BtcBands(50000.0);
    BtcBands(100000.0);
    BtcBands(49999.0);
  }
}
