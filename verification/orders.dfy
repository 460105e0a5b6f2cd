/** Order creation (src/routes/order.ts) and the admin order routes
    (src/routes/adminOrdersRoutes.ts): the status-filtered listing and the status update. */
module Orders {
  import opened Outcome
  import opened Collection
  import opened Records

  /** The body of `POST /`: a missing number is 0.0 and a missing string is "". */
  datatype OrderRequest = OrderRequest(amountGive: real, currencyGive: string,
                                       amountReceive: real, currencyReceive: string)

  /** One of the four fields is falsy. */
  predicate Incomplete(req: OrderRequest) {
    req.amountGive == 0.0 || req.currencyGive == "" || req.amountReceive == 0.0 || req.currencyReceive == ""
  }

  /** `new Order({...})`: the four fields as given, the id, the creation time, and nothing
      else: no nickname, no user and no status. */
  function BuildOrder(req: OrderRequest, orderId: string, now: int): (o: Order)
    ensures o.orderId == orderId && o.createdAt == now
    ensures o.amountGive == req.amountGive && o.currencyGive == req.currencyGive
    ensures o.amountReceive == req.amountReceive && o.currencyReceive == req.currencyReceive
    ensures o.telegramNickname.None? && o.user.None? && o.status.None?
  {
    Order(orderId, req.amountGive, req.currencyGive, req.amountReceive, req.currencyReceive,
          None, None, None, now)
  }

  /** `POST /`: 400 on a falsy field; otherwise the record is built with the given id and
      saved, answering the id, or 500 when the schema refuses it. Only the orders can
      change. */
  function CreateOrder(db: Db, req: OrderRequest, orderId: string, now: int): (r: (Result<string>, Db))
    ensures r.1.users == db.users && r.1.withdrawals == db.withdrawals
    ensures r.0 == Fail(BadRequest) <==> Incomplete(req)
    ensures r.0.Fail? ==> r.1 == db
    ensures r.0.Ok? ==> (r.0.value == orderId
                         && r.1.orders == db.orders + [BuildOrder(req, orderId, now)])
  {
    if Incomplete(req) then (Fail(BadRequest), db)
    else
      var o := BuildOrder(req, orderId, now);
      if OrderSaveable(o, db.orders) then (Ok(orderId), db.(orders := db.orders + [o]))
      else (Fail(ServerError), db)
  }

  /** The schema requires a nickname the route never sets, so every complete request is
      answered 500 and no order is ever stored. */
  lemma CreateOrderNeverStores(db: Db, req: OrderRequest, orderId: string, now: int)
    requires !Incomplete(req)
    ensures CreateOrder(db, req, orderId, now) == (Fail(ServerError), db)
  {
    assert !OrderSaveable(BuildOrder(req, orderId, now), db.orders);
  }

  /** The listing filter: a non-empty string `status` query selects that spelling; any other
      query (absent, empty, not a string) selects everything. */
  predicate ListedBy(query: Option<string>, o: Order) {
    query.None? || query.value == "" || (o.status.Some? && o.status.value.Name() == query.value)
  }

  /** `GET /`: the orders the filter keeps, newest first. */
  function ListOrders(db: Db, query: Option<string>): (r: seq<Order>)
    ensures multiset(r) == multiset(Select(db.orders, o => ListedBy(query, o)))
    ensures NewestFirst(r, OrderCreatedAt)
  {
    SortNewest(Select(db.orders, o => ListedBy(query, o)), OrderCreatedAt)
  }

  /** An order is listed exactly when it is stored and has the queried status; without a
      query every stored order is listed. */
  lemma ListOrdersMembers(db: Db, query: Option<string>, o: Order)
    ensures o in ListOrders(db, query) <==> o in db.orders && ListedBy(query, o)
    ensures (query.None? || query == Some("")) ==> (o in ListOrders(db, query) <==> o in db.orders)
  {
    var r := ListOrders(db, query);
    assert o in r <==> multiset(r)[o] > 0;
    SelectMembers(db.orders, o => ListedBy(query, o), o);
  }

  /** A query that spells no status lists nothing. */
  lemma UnknownStatusListsNothing(db: Db, query: string)
    requires query != "" && ParseStatus(query).None?
    ensures ListOrders(db, Some(query)) == []
  {
    var r := ListOrders(db, Some(query));
    if |r| > 0 {
      ListOrdersMembers(db, Some(query), r[0]);
    }
  }

  function WithOrderStatus(o: Order, st: Status): Order {
    o.(status := Some(st))
  }

  /** `PATCH /:orderId/status`: 400 for a value outside the four, checked before the lookup;
      404 for an unknown id; otherwise the first order with the id takes the status, whatever
      it was before, and is saved again: an order the schema's required-field check refuses
      (no nickname, say) answers 500 and nothing changes. No user and no withdrawal changes. */
  function UpdateOrderStatus(db: Db, orderId: string, status: string): (r: (Result<Order>, Db))
    ensures r.1.users == db.users && r.1.withdrawals == db.withdrawals
    ensures r.0.Fail? ==> r.1 == db
    ensures ParseStatus(status).None? ==> r.0 == Fail(BadRequest)
    ensures (ParseStatus(status).Some? && forall j :: 0 <= j < |db.orders| ==> db.orders[j].orderId != orderId)
            ==> r.0 == Fail(NotFound)
    ensures r.0 == Fail(ServerError) <==> (ParseStatus(status).Some?
                                           && exists i :: (0 <= i < |db.orders| && db.orders[i].orderId == orderId
                                                           && (forall j :: 0 <= j < i ==> db.orders[j].orderId != orderId)
                                                           && !OrderValid(db.orders[i])))
    ensures r.0.Ok? <==> (ParseStatus(status).Some?
                          && exists i :: (0 <= i < |db.orders| && db.orders[i].orderId == orderId
                                          && (forall j :: 0 <= j < i ==> db.orders[j].orderId != orderId)
                                          && OrderValid(db.orders[i])))
    ensures r.0.Ok? ==> exists i :: (0 <= i < |db.orders| && db.orders[i].orderId == orderId
                                     && r.0.value == db.orders[i].(status := ParseStatus(status))
                                     && r.1.orders == db.orders[i := r.0.value])
  {
    var (res, orders) := UpdateStatus(db.orders, orderId, status, OrderIdOf, WithOrderStatus, OrderValid);
    (res, db.(orders := orders))
  }

  /** An order stored without a nickname, as `POST /` would build it, can never change
      status: when it is the first order with its id, the re-save fails. */
  lemma NicknamelessOrderStuck(db: Db, orderId: string, status: string, i: nat)
    requires ParseStatus(status).Some?
    requires i < |db.orders| && db.orders[i].orderId == orderId && db.orders[i].telegramNickname.None?
    requires forall j :: 0 <= j < i ==> db.orders[j].orderId != orderId
    ensures UpdateOrderStatus(db, orderId, status) == (Fail(ServerError), db)
  {
    assert !OrderValid(db.orders[i]);
  }

  /** Repeating a status update changes nothing more. */
  lemma UpdateOrderStatusIdempotent(db: Db, orderId: string, status: string)
    ensures var db1 := UpdateOrderStatus(db, orderId, status).1;
      UpdateOrderStatus(db1, orderId, status).1 == db1
  {
    UpdateStatusIdempotent(db.orders, orderId, status, OrderIdOf, WithOrderStatus, OrderValid);
  }
}
