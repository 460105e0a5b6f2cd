/** The stored commission schedule (src/models/CommissionConfig.ts) and its admin routes
    (src/routes/adminCommissionRoutes.ts). The collection is modelled by the document
    `findOne()` returns, if any; the quote handler never reads it. */
module CommissionConfig {
  import opened Outcome
  import opened Commission

  /** One schedule: a tier list per table. `Tier` is the shape of `ITier`. */
  datatype Config = Config(usdt: seq<Tier>, btc: seq<Tier>, alt: seq<Tier>)

  /** The document `findOne()` returns, or None when the collection is empty. */
  type Store = Option<Config>

  /** A schedule built without lists: the schema default for each list is empty. */
  const Empty: Config := Config([], [], [])

  /** The schedule `getCommissionConfig` creates when none is stored. */
  const Defaults: Config := Config(
    [Tier(5000.0, 50000.0, 0.04), Tier(50001.0, 100000.0, 0.03), Tier(100001.0, 10000000.0, 0.025)],
    [Tier(5000.0, 50000.0, 0.06), Tier(50001.0, 100000.0, 0.05), Tier(100001.0, 10000000.0, 0.04)],
    [Tier(5000.0, 100000.0, 0.05), Tier(100001.0, 10000000.0, 0.06)])

  /** `getCommissionConfig`: the stored schedule, written nowhere; or, when none is stored,
      the defaults, saved. */
  function GetCommissionConfig(store: Store): (r: (Config, Store))
    ensures r.1 == Some(r.0)
    ensures store.Some? ==> r.0 == store.value && r.1 == store
    ensures store.None? ==> r.0 == Defaults
  {
    match store
    case Some(c) => (c, store)
    case None => (Defaults, Some(Defaults))
  }

  /** GET: the stored schedule, or 404 when none is stored; nothing is created. */
  function AdminGet(store: Store): (r: (Result<Config>, Store))
    ensures r.1 == store
    ensures r.0.Fail? <==> store.None?
    ensures r.0.Fail? ==> r.0.error == NotFound
    ensures r.0.Ok? ==> r.0.value == store.value
  {
    match store
    case Some(c) => (Ok(c), store)
    case None => (Fail(NotFound), store)
  }

  /** PATCH: starts from the stored schedule, or from an empty one when none is stored (not
      from the defaults), replaces each list that is supplied, wholesale and unchecked, and
      saves. An absent list is None; any array, the empty one included, replaces. */
  function AdminPatch(store: Store, usdt: Option<seq<Tier>>, btc: Option<seq<Tier>>,
                      alt: Option<seq<Tier>>): (r: (Config, Store))
    ensures r.1 == Some(r.0)
    ensures r.0.usdt == if usdt.Some? then usdt.value else if store.Some? then store.value.usdt else []
    ensures r.0.btc == if btc.Some? then btc.value else if store.Some? then store.value.btc else []
    ensures r.0.alt == if alt.Some? then alt.value else if store.Some? then store.value.alt else []
  {
    var base := if store.Some? then store.value else Empty;
    var c := base.(usdt := if usdt.Some? then usdt.value else base.usdt)
                 .(btc := if btc.Some? then btc.value else base.btc)
                 .(alt := if alt.Some? then alt.value else base.alt);
    (c, Some(c))
  }

  /** Reading the schedule twice: the second read returns the same schedule and writes
      nothing. */
  lemma GetCommissionConfigIdempotent(store: Store)
    ensures var (c1, s1) := GetCommissionConfig(store);
      var (c2, s2) := GetCommissionConfig(s1);
      c2 == c1 && s2 == s1
  {
  }

  /** The defaults are the tables the quote handler uses. */
  lemma DefaultsMatchQuoteTables()
    ensures Defaults.usdt == UsdtTiers && Defaults.btc == BtcTiers && Defaults.alt == AltTiers
  {
  }

  /** Tiers in ascending order, each a non-empty range ending before the next one starts,
      with rates between 2.5% and 6%. */
  predicate WellFormed(tiers: seq<Tier>) {
    && (forall i :: 0 <= i < |tiers| ==> tiers[i].min < tiers[i].max)
    && (forall i :: 0 <= i < |tiers| ==> 0.025 <= tiers[i].commission <= 0.06)
    && (forall i :: 0 <= i < |tiers| - 1 ==> tiers[i].max < tiers[i + 1].min)
  }

  /** No tier of the list holds the amount. */
  predicate Uncovered(tiers: seq<Tier>, amount: real) {
    forall i :: 0 <= i < |tiers| ==> !tiers[i].Contains(amount)
  }

  /** Every default list is well formed. */
  lemma DefaultsWellFormed()
    ensures WellFormed(Defaults.usdt) && WellFormed(Defaults.btc) && WellFormed(Defaults.alt)
  {
    TiersWellFormed(Defaults.usdt);
    TiersWellFormed(Defaults.btc);
    assert WellFormed(Defaults.alt);
  }

  /** A three-tier list with the default bounds is well formed when its rates are in range. */
  lemma TiersWellFormed(tiers: seq<Tier>)
    requires tiers == Defaults.usdt || tiers == Defaults.btc
    ensures WellFormed(tiers)
  {
    assert |tiers| == 3;
    assert tiers[0].max < tiers[1].min && tiers[1].max < tiers[2].min;
  }

  /** Between 5000 and 10000000 the USDT and BTC defaults leave exactly [50000, 50001) and
      [100000, 100001) uncovered. */
  lemma ThreeTierGaps(tiers: seq<Tier>, amount: real)
    requires tiers == Defaults.usdt || tiers == Defaults.btc
    requires 5000.0 <= amount < 10000000.0
    ensures Uncovered(tiers, amount) <==> (50000.0 <= amount < 50001.0 || 100000.0 <= amount < 100001.0)
  {
    if !(50000.0 <= amount < 50001.0 || 100000.0 <= amount < 100001.0) {
      if amount < 50000.0 {
        assert tiers[0].Contains(amount);
      } else if amount < 100000.0 {
        assert tiers[1].Contains(amount);
      } else {
        assert tiers[2].Contains(amount);
      }
    }
  }

  /** Between 5000 and 10000000 the altcoin defaults leave exactly [100000, 100001)
      uncovered. */
  lemma AltGap(amount: real)
    requires 5000.0 <= amount < 10000000.0
    ensures Uncovered(Defaults.alt, amount) <==> 100000.0 <= amount < 100001.0
  {
    var tiers := Defaults.alt;
    if !(100000.0 <= amount < 100001.0) {
      if amount < 100000.0 {
        assert tiers[0].Contains(amount);
      } else {
        assert tiers[1].Contains(amount);
      }
    }
  }

  /** PATCH then GET: the read returns what the patch saved. */
  lemma PatchThenGet(store: Store, usdt: Option<seq<Tier>>, btc: Option<seq<Tier>>, alt: Option<seq<Tier>>)
    ensures var (c, s) := AdminPatch(store, usdt, btc, alt);
      AdminGet(s).0 == Ok(c)
  {
  }

  /** Repeating a PATCH changes nothing more. */
  lemma PatchIdempotent(store: Store, usdt: Option<seq<Tier>>, btc: Option<seq<Tier>>, alt: Option<seq<Tier>>)
    ensures var (c, s) := AdminPatch(store, usdt, btc, alt);
      AdminPatch(s, usdt, btc, alt) == (c, s)
  {
  }

  /** With nothing stored, a PATCH that supplies only the USDT list leaves the other lists
      empty, where the lazily created defaults would have had them filled. */
  lemma PatchOnEmptyStore(usdt: seq<Tier>)
    ensures var (c, _) := AdminPatch(None, Some(usdt), None, None);
      c == Config(usdt, [], []) && c.btc != Defaults.btc
  {
  }

  /** PATCH checks nothing about the tiers it stores: an inverted range with a rate above
      100% is saved as given. */
  lemma PatchStoresUnchecked()
    ensures var bad := [Tier(10.0, 1.0, 2.0)];
      !WellFormed(bad) && AdminPatch(Some(Defaults), Some(bad), None, None).0 == Defaults.(usdt := bad)
  {
    var bad := [Tier(10.0, 1.0, 2.0)];
    assert !(bad[0].min < bad[0].max);
  }
}
