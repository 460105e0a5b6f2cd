/** The stored records the bookkeeping routes work on (src/models/Order.ts,
    src/models/Withdrawal.ts, src/models/User.ts) and the status enumeration they share. */
module Records {
  import opened Outcome
  import opened Collection

  /** The four states of an order or a withdrawal request. */
  datatype Status = New | InProgress | Completed | Cancelled {
    /** The stored spelling. */
    function Name(): string {
      match this
      case New => "new"
      case InProgress => "in_progress"
      case Completed => "completed"
      case Cancelled => "cancelled"
    }
  }

  /** `validStatuses.includes(status)`: the status spelled by the text, if any. */
  function ParseStatus(s: string): (r: Option<Status>)
    ensures r.Some? ==> r.value.Name() == s
    ensures r.None? <==> forall st: Status :: st.Name() != s
  {
    if s == "new" then Some(New)
    else if s == "in_progress" then Some(InProgress)
    else if s == "completed" then Some(Completed)
    else if s == "cancelled" then Some(Cancelled)
    else None
  }

  /** Every status reads back from its spelling, so no two share one. */
  lemma StatusNameRoundTrip(st: Status)
    ensures ParseStatus(st.Name()) == Some(st)
  {
  }

  /** A user id (`ObjectId`). */
  type UserId = string

  /** The fields of a user the bookkeeping reads; `bonusBalance` is None when unset. */
  datatype User = User(id: UserId, referrer: Option<UserId>, bonusBalance: Option<real>)

  /** An order. The schema declares no `user` or `status`; the admin and partner routes read
      and write them all the same, so they are here, None until set. */
  datatype Order = Order(orderId: string, amountGive: real, currencyGive: string,
                         amountReceive: real, currencyReceive: string,
                         telegramNickname: Option<string>, user: Option<UserId>,
                         status: Option<Status>, createdAt: int)

  /** A withdrawal request; `status` is one of the four by construction. */
  datatype Withdrawal = Withdrawal(withdrawalId: string, user: UserId, amount: real,
                                   contact: string, status: Status, createdAt: int)

  /** The three collections, each in natural order. */
  datatype Db = Db(users: seq<User>, orders: seq<Order>, withdrawals: seq<Withdrawal>)

  function UserIdOf(u: User): string { u.id }

  function OrderIdOf(o: Order): string { o.orderId }

  function WithdrawalIdOf(w: Withdrawal): string { w.withdrawalId }

  function OrderCreatedAt(o: Order): int { o.createdAt }

  function WithdrawalCreatedAt(w: Withdrawal): int { w.createdAt }

  /** The required-field check the order schema runs on every `save`: every required string
      non-empty and a nickname present. */
  predicate OrderValid(o: Order) {
    && o.orderId != "" && o.currencyGive != "" && o.currencyReceive != ""
    && o.telegramNickname.Some? && o.telegramNickname.value != ""
  }

  /** What the order schema lets `save` store as a new document: a valid order whose id no
      stored order has. */
  predicate OrderSaveable(o: Order, orders: seq<Order>) {
    && OrderValid(o)
    && forall i :: 0 <= i < |orders| ==> orders[i].orderId != o.orderId
  }

  /** The required-field check the withdrawal schema runs on every `save`: a non-empty id
      and a non-empty contact. */
  predicate WithdrawalValid(w: Withdrawal) {
    w.withdrawalId != "" && w.contact != ""
  }

  /** What the withdrawal schema lets `save` store as a new document: a valid request whose
      id no stored request has. */
  predicate WithdrawalSaveable(w: Withdrawal, withdrawals: seq<Withdrawal>) {
    && WithdrawalValid(w)
    && forall i :: 0 <= i < |withdrawals| ==> withdrawals[i].withdrawalId != w.withdrawalId
  }

  /** Appending a saveable request keeps the withdrawal ids unique. */
  lemma SaveKeepsWithdrawalIdsUnique(w: Withdrawal, withdrawals: seq<Withdrawal>)
    requires UniqueIds(withdrawals, WithdrawalIdOf) && WithdrawalSaveable(w, withdrawals)
    ensures UniqueIds(withdrawals + [w], WithdrawalIdOf)
  {
    var s := withdrawals + [w];
    forall i, j | 0 <= i < j < |s|
      ensures WithdrawalIdOf(s[i]) != WithdrawalIdOf(s[j])
    {
      if j == |withdrawals| {
        assert s[i] == withdrawals[i];
      } else {
        assert s[i] == withdrawals[i] && s[j] == withdrawals[j];
      }
    }
  }

  /** Appending a saveable order keeps the order ids unique. */
  lemma SaveKeepsOrderIdsUnique(o: Order, orders: seq<Order>)
    requires UniqueIds(orders, OrderIdOf) && OrderSaveable(o, orders)
    ensures UniqueIds(orders + [o], OrderIdOf)
  {
    var s := orders + [o];
    forall i, j | 0 <= i < j < |s|
      ensures OrderIdOf(s[i]) != OrderIdOf(s[j])
    {
      if j == |orders| {
        assert s[i] == orders[i];
      } else {
        assert s[i] == orders[i] && s[j] == orders[j];
      }
    }
  }

  /** The two status routes: the value is checked before the lookup, then the first document
      with the id takes the status and is saved in place, which re-runs the schema's
      required-field check `valid` and answers 500 when it fails; every other document is
      kept, and a failure changes nothing. */
  function UpdateStatus<T>(docs: seq<T>, id: string, status: string, idOf: T -> string,
                           withStatus: (T, Status) -> T, valid: T -> bool): (r: (Result<T>, seq<T>))
    ensures ParseStatus(status).None? ==> r == (Fail(BadRequest), docs)
    ensures (ParseStatus(status).Some? && forall j :: 0 <= j < |docs| ==> idOf(docs[j]) != id)
            ==> r == (Fail(NotFound), docs)
    ensures r.0.Fail? ==> r.1 == docs
    ensures r.0 == Fail(ServerError) <==> (ParseStatus(status).Some?
                                           && exists i :: (0 <= i < |docs| && idOf(docs[i]) == id
                                                           && (forall j :: 0 <= j < i ==> idOf(docs[j]) != id)
                                                           && !valid(withStatus(docs[i], ParseStatus(status).value))))
    ensures r.0.Ok? <==> (ParseStatus(status).Some?
                          && exists i :: (0 <= i < |docs| && idOf(docs[i]) == id
                                          && (forall j :: 0 <= j < i ==> idOf(docs[j]) != id)
                                          && valid(withStatus(docs[i], ParseStatus(status).value))))
    ensures r.0.Ok? ==> exists i :: (0 <= i < |docs| && idOf(docs[i]) == id
                                     && (forall j :: 0 <= j < i ==> idOf(docs[j]) != id)
                                     && r.0.value == withStatus(docs[i], ParseStatus(status).value)
                                     && r.1 == docs[i := r.0.value])
  {
    match ParseStatus(status)
    case None => (Fail(BadRequest), docs)
    case Some(st) =>
      var i := FirstWithId(docs, idOf, id);
      if i == |docs| then (Fail(NotFound), docs)
      else
        var d := withStatus(docs[i], st);
        if valid(d) then (Ok(d), docs[i := d]) else (Fail(ServerError), docs)
  }

  /** A status update that is repeated changes nothing more, provided setting a status keeps
      the id and setting the same status twice is setting it once. */
  lemma UpdateStatusIdempotent<T>(docs: seq<T>, id: string, status: string, idOf: T -> string,
                                  withStatus: (T, Status) -> T, valid: T -> bool)
    requires forall d: T, st: Status :: idOf(withStatus(d, st)) == idOf(d)
    requires forall d: T, st: Status :: withStatus(withStatus(d, st), st) == withStatus(d, st)
    ensures var docs1 := UpdateStatus(docs, id, status, idOf, withStatus, valid).1;
      UpdateStatus(docs1, id, status, idOf, withStatus, valid).1 == docs1
  {
    var i := FirstWithId(docs, idOf, id);
    if ParseStatus(status).Some? && i < |docs| && valid(withStatus(docs[i], ParseStatus(status).value)) {
      var d := withStatus(docs[i], ParseStatus(status).value);
      FoundAfterReplace(docs, idOf, id, d);
      assert docs[i := d][i := withStatus(d, ParseStatus(status).value)] == docs[i := d];
    }
  }
}
