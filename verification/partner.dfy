/** The partner statistics of `GET /info` (src/routes/partnerRoutes.ts): the caller's
    referrals, the completed orders they placed, and the sums over those orders' rouble
    legs. */
module Partner {
  import opened Outcome
  import opened Collection
  import opened Records
  import Orders
  import Withdrawals

  /** `toUpperCase` on one character, for the ASCII letters. */
  function UpperChar(c: char): char {
    if 'a' <= c <= 'z' then (c as int - 32) as char else c
  }

  function Upper(s: string): (r: string)
    ensures |r| == |s|
    ensures forall k :: 0 <= k < |s| ==> r[k] == UpperChar(s[k])
  {
    seq(|s|, k requires 0 <= k < |s| => UpperChar(s[k]))
  }

  /** `s.toUpperCase() === "RUB"`. */
  predicate IsRub(s: string) {
    Upper(s) == "RUB"
  }

  /** The comparison ignores case and nothing else: exactly the eight spellings of RUB. */
  lemma IsRubSpellings(s: string)
    ensures IsRub(s) <==> (|s| == 3 && (s[0] == 'R' || s[0] == 'r') && (s[1] == 'U' || s[1] == 'u')
                          && (s[2] == 'B' || s[2] == 'b'))
  {
    if |s| == 3 && (s[0] == 'R' || s[0] == 'r') && (s[1] == 'U' || s[1] == 'u') && (s[2] == 'B' || s[2] == 'b') {
      assert Upper(s) == "RUB";
    }
    if IsRub(s) {
      assert UpperChar(s[0]) == 'R' && UpperChar(s[1]) == 'U' && UpperChar(s[2]) == 'B';
    }
  }

  /** The rouble leg of an order: the amount given when roubles are given, else the amount
      received when roubles are received, else 0. */
  function RubLeg(o: Order): real {
    if IsRub(o.currencyGive) then o.amountGive
    else if IsRub(o.currencyReceive) then o.amountReceive
    else 0.0
  }

  /** The users the caller referred, in natural order. */
  function Referrals(users: seq<User>, caller: UserId): seq<User> {
    Select(users, (u: User) => u.referrer == Some(caller))
  }

  /** The ids of the caller's referrals. */
  function ReferralIds(users: seq<User>, caller: UserId): set<UserId> {
    set u | u in Referrals(users, caller) :: u.id
  }

  /** An order that counts: placed by one of the referrals and completed. */
  predicate Counted(o: Order, referrals: set<UserId>) {
    o.user.Some? && o.user.value in referrals && o.status == Some(Completed)
  }

  /** The counted orders, in natural order. */
  function CountedOrders(db: Db, caller: UserId): seq<Order> {
    Select(db.orders, (o: Order) => Counted(o, ReferralIds(db.users, caller)))
  }

  /** The sum of the rouble legs. */
  function SumLegs(os: seq<Order>): real {
    if |os| == 0 then 0.0 else SumLegs(os[..|os| - 1]) + RubLeg(os[|os| - 1])
  }

  /** The sum of the per-order bonuses, 0.1% of each rouble leg. */
  function SumEarned(os: seq<Order>): real {
    if |os| == 0 then 0.0 else SumEarned(os[..|os| - 1]) + RubLeg(os[|os| - 1]) * 0.001
  }

  /** Adding the bonuses order by order earns 0.1% of the sum. */
  lemma {:induction false} EarnedIsTenthPercent(os: seq<Order>)
    ensures SumEarned(os) == 0.001 * SumLegs(os)
  {
    if |os| > 0 {
      EarnedIsTenthPercent(os[..|os| - 1]);
    }
  }

  /** `bonusBalance || 0`. */
  function Balance(u: User): real {
    match u.bonusBalance
    case Some(b) => b
    case None => 0.0
  }

  /** The numeric part of the answer. */
  datatype Stats = Stats(partnerPercent: real, referralCount: nat, visitors: nat,
                         exchangesCount: nat, totalExchangesSum: real, earnedAllTime: real,
                         pendingPayout: real, totalPaid: real, currentBalance: real,
                         availableForPayout: real)

  /** The statistics as sums over the counted orders: 404 when the caller is no user; no
      payout has been made, so nothing is pending or paid and the whole balance is
      available. */
  function Info(db: Db, caller: UserId): (r: Result<Stats>)
    ensures r.Fail? <==> forall i :: 0 <= i < |db.users| ==> db.users[i].id != caller
    ensures r.Fail? ==> r.error == NotFound
    ensures r.Ok? ==> (r.value.earnedAllTime == 0.001 * r.value.totalExchangesSum
                       && r.value.pendingPayout == 0.0 && r.value.totalPaid == 0.0
                       && r.value.availableForPayout == r.value.currentBalance
                       && r.value.exchangesCount == |CountedOrders(db, caller)|
                       && r.value.referralCount == |Referrals(db.users, caller)|)
  {
    var i := FirstWithId(db.users, UserIdOf, caller);
    if i == |db.users| then Fail(NotFound)
    else
      var os := CountedOrders(db, caller);
      EarnedIsTenthPercent(os);
      var balance := Balance(db.users[i]);
      Ok(Stats(0.1, |Referrals(db.users, caller)|, 0, |os|, SumLegs(os), SumEarned(os),
               0.0, 0.0, balance, balance))
  }

  /** The handler: the user lookup, the referral count, and the `forEach` over the counted
      orders keeping both running sums. */
  method PartnerInfo(db: Db, caller: UserId) returns (r: Result<Stats>)
    ensures r == Info(db, caller)
  {
    var i := FirstWithId(db.users, UserIdOf, caller);
    if i == |db.users| {
      return Fail(NotFound);
    }
    var user := db.users[i];
    var referralCount := |Referrals(db.users, caller)|;
    var referralOrders := CountedOrders(db, caller);
    var totalExchangesSum := 0.0;
    var earnedAllTime := 0.0;
    var k := 0;
    while k < |referralOrders|
      invariant 0 <= k <= |referralOrders|
      invariant totalExchangesSum == SumLegs(referralOrders[..k])
      invariant earnedAllTime == SumEarned(referralOrders[..k])
    {
      var order := referralOrders[k];
      var rubAmount := 0.0;
      if IsRub(order.currencyGive) {
        rubAmount := order.amountGive;
      } else if IsRub(order.currencyReceive) {
        rubAmount := order.amountReceive;
      }
      assert referralOrders[..k + 1][..k] == referralOrders[..k];
      totalExchangesSum := totalExchangesSum + rubAmount;
      earnedAllTime := earnedAllTime + rubAmount * 0.001;
      k := k + 1;
    }
    assert referralOrders[..k] == referralOrders;
    var currentBalance := Balance(user);
    r := Ok(Stats(0.1, referralCount, 0, |referralOrders|, totalExchangesSum, earnedAllTime,
                  0.0, 0.0, currentBalance, currentBalance));
  }

  /** An order that does not count changes nothing in the statistics. */
  lemma UncountedOrderIgnored(db: Db, caller: UserId, o: Order)
    requires !Counted(o, ReferralIds(db.users, caller))
    ensures Info(db.(orders := db.orders + [o]), caller) == Info(db, caller)
  {
    SelectAppendDropped(db.orders, (x: Order) => Counted(x, ReferralIds(db.users, caller)), o);
  }

  /** A counted order adds one exchange and its rouble leg; one without a rouble leg adds
      nothing to the sums. */
  lemma CountedOrderAdded(db: Db, caller: UserId, o: Order)
    requires Counted(o, ReferralIds(db.users, caller)) && Info(db, caller).Ok?
    ensures var before := Info(db, caller).value;
      var after := Info(db.(orders := db.orders + [o]), caller).value;
      && after.exchangesCount == before.exchangesCount + 1
      && after.totalExchangesSum == before.totalExchangesSum + RubLeg(o)
      && (!IsRub(o.currencyGive) && !IsRub(o.currencyReceive) ==> after.totalExchangesSum == before.totalExchangesSum)
  {
    var db1 := db.(orders := db.orders + [o]);
    SelectAppendKept(db.orders, (x: Order) => Counted(x, ReferralIds(db.users, caller)), o);
    var os := CountedOrders(db, caller);
    assert CountedOrders(db1, caller) == os + [o];
    assert (os + [o])[..|os|] == os;
  }

  /** Completing an order credits no bonus: the caller's balance is what it was. */
  lemma CompletionCreditsNothing(db: Db, caller: UserId, orderId: string)
    requires Info(db, caller).Ok?
    ensures var db1 := Orders.UpdateOrderStatus(db, orderId, "completed").1;
      Info(db1, caller).Ok? && Info(db1, caller).value.currentBalance == Info(db, caller).value.currentBalance
  {
  }

  /** Asking for a withdrawal debits nothing: the statistics are what they were. */
  lemma WithdrawalDebitsNothing(db: Db, caller: UserId, amount: real, contact: string, withdrawalId: string, now: int)
    ensures Info(Withdrawals.CreateWithdrawal(db, caller, amount, contact, withdrawalId, now).1, caller) == Info(db, caller)
  {
    var db1 := Withdrawals.CreateWithdrawal(db, caller, amount, contact, withdrawalId, now).1;
    assert db1.users == db.users && db1.orders == db.orders;
    assert CountedOrders(db1, caller) == CountedOrders(db, caller);
  }
}
