/**
 * What the order handlers of controllers/orderController.js do to the two collections,
 * as functions from the stores before a request to the stores after it and the reply.
 * The imperative handlers in OrderController are proved to compute exactly these.
 */
module OrderSpec {
  import opened Wrappers
  import opened Text
  import opened ProductModel
  import opened OrderModel
  import opened Store
  import opened Http
  import opened Paging

  /** The body of a create-order request, each field possibly absent. */
  datatype OrderRequest = OrderRequest(
    productId: Option<Id>,
    productName: Option<string>,
    boxCount: Option<int>,
    totalPrice: Option<int>,
    fullName: Option<string>,
    phone: Option<string>,
    address: Option<string>,
    note: Option<string>)

  /** JavaScript falsiness: an absent value, the empty string, the number 0. */
  predicate FalsyText(v: Option<string>) { v.None? || v.value == [] }
  predicate FalsyNumber(v: Option<int>) { v.None? || v.value == 0 }

  /** The required-fields test of createOrder, by falsiness; note is optional. */
  predicate MissingRequired(r: OrderRequest) {
    || r.productId.None?
    || FalsyText(r.productName)
    || FalsyNumber(r.boxCount)
    || FalsyNumber(r.totalPrice)
    || FalsyText(r.fullName)
    || FalsyText(r.phone)
    || FalsyText(r.address)
  }

  /** `discountedPrice || originalPrice`: a discount of 0 counts as no discount. */
  function ExpectedPrice(p: Product): (r: int)
    ensures p.discountedPrice.Some? && p.discountedPrice.value != 0 ==> r == p.discountedPrice.value
    ensures p.discountedPrice.None? || p.discountedPrice.value == 0 ==> r == p.originalPrice
    ensures ValidProduct(p) ==> r >= 0
  {
    match p.discountedPrice
    case Some(d) => if d != 0 then d else p.originalPrice
    case None => p.originalPrice
  }

  /** `Product.findOne({ _id, status: 'active' })` finds it. */
  predicate Orderable(s: Stores, pid: Id) {
    pid in s.products && s.products[pid].status == Active
  }

  /** `boxCount` units leave stock and are counted as sold. */
  function Reserve(p: Product, n: int): Product {
    p.(stock := p.stock - n, sold := p.sold + n)
  }

  /** `boxCount` units go back from sold to stock. */
  function Restore(p: Product, n: int): Product {
    p.(stock := p.stock + n, sold := p.sold - n)
  }

  /** The order document createOrder builds from a request that passed the required-fields test. */
  function OrderOf(req: OrderRequest): Order
    requires !MissingRequired(req)
  {
    NewOrder(req.productId.value, req.productName.value, req.boxCount.value, req.totalPrice.value,
             req.fullName.value, req.phone.value, req.address.value, req.note)
  }

  /** createOrder, with `newId` the id the database gives the new order. */
  function CreateOrder(s: Stores, req: OrderRequest, newId: Id): (Stores, Reply) {
    if MissingRequired(req) then (s, Failure(400, MissingFields))
    else if !PhoneOk(req.phone.value) then (s, Failure(400, InvalidPhone))
    else if req.boxCount.value < 1 then (s, Failure(400, InvalidBoxCount))
    else if !Orderable(s, req.productId.value) then (s, Failure(404, ProductUnavailable))
    else
      var pid := req.productId.value;
      var p := s.products[pid];
      var n := req.boxCount.value;
      if p.stock < n then (s, Failure(400, InsufficientStock))
      else if req.totalPrice.value != ExpectedPrice(p) then (s, Failure(400, InvalidTotalPrice))
      else
        Place(s, pid, Reserve(p, n), newId, OrderOf(req))
  }

  /** The two writes of createOrder: the product with its boxes reserved, then the new order. */
  function Place(s: Stores, pid: Id, reserved: Product, newId: Id, o: Order): (Stores, Reply) {
    match PutProduct(s, pid, reserved)
    case None => (s, Failure(400, SaveRejected))
    case Some(s1) =>
      match PutOrder(s1, newId, o)
      case None => (s1, Failure(400, SaveRejected))
      case Some(s2) => (s2, Success(201))
  }

  /** Whether a transition from `from` to `to` gives the order's boxes back to stock. */
  predicate RestoresOnUpdate(from: OrderStatus, to: OrderStatus) {
    to == Cancelled && from != Cancelled && from != Delivered
  }

  /** Give an order's boxes back to its product; skipped when the product no longer exists. */
  function RestoreStock(s: Stores, o: Order): Option<Stores> {
    if o.productId in s.products
    then PutProduct(s, o.productId, Restore(s.products[o.productId], o.boxCount))
    else Some(s)
  }

  function ParseStatusField(status: Option<string>): Option<OrderStatus> {
    if status.Some? then ParseStatus(status.value) else None
  }

  /** updateOrderStatus. */
  function UpdateOrderStatus(s: Stores, id: Id, status: Option<string>): (Stores, Reply) {
    var st := ParseStatusField(status);
    if st.None? then (s, Failure(400, InvalidStatus))
    else if id !in s.orders then (s, Failure(404, OrderNotFound))
    else
      var o := s.orders[id];
      var restored := if RestoresOnUpdate(o.status, st.value) then RestoreStock(s, o) else Some(s);
      match restored
      case None => (s, Failure(400, SaveRejected))
      case Some(s1) =>
        match PutOrder(s1, id, o.(status := st.value))
        case None => (s1, Failure(400, SaveRejected))
        case Some(s2) => (s2, Success(200))
  }

  /** deleteOrder: every order not delivered gives its boxes back, even one already cancelled. */
  function DeleteOrder(s: Stores, id: Id): (Stores, Reply) {
    if id !in s.orders then (s, Failure(404, OrderNotFound))
    else
      var o := s.orders[id];
      var restored := if o.status != Delivered then RestoreStock(s, o) else Some(s);
      match restored
      case None => (s, Failure(500, ServerError))
      case Some(s1) => (s1.(orders := s1.orders - {id}), Success(200))
  }

  /** An order as the read endpoints return it, with its display label. */
  datatype LabelledOrder = LabelledOrder(order: Order, statusLabel: string)

  function Labelled(o: Order): LabelledOrder {
    LabelledOrder(o, StatusLabel(StatusName(o.status)))
  }

  /** getOrderById: None is the 404 reply. */
  function GetOrderById(s: Stores, id: Id): (r: Option<LabelledOrder>)
    ensures r.Some? <==> id in s.orders
    ensures r.Some? ==> r.value.order == s.orders[id] && r.value.statusLabel == Label(s.orders[id].status)
  {
    if id in s.orders then Some(Labelled(s.orders[id])) else None
  }

  /** The `{ status }` query: with a truthy status, only orders whose status string equals it. */
  predicate MatchesStatus(o: Order, status: Option<string>) {
    FalsyText(status) || StatusName(o.status) == status.value
  }

  /**
   * The listed orders the query matches: every one of them, and only orders that match.
   * That they are all listed orders, in the order of the listing, FilterOnlyListed and
   * FilterKeepsOrder state.
   */
  function Filter(s: Stores, listing: seq<Id>, status: Option<string>): (r: seq<Order>)
    requires forall i :: 0 <= i < |listing| ==> listing[i] in s.orders
    ensures |r| <= |listing|
    ensures forall o :: o in r ==> MatchesStatus(o, status)
    ensures forall i :: 0 <= i < |listing| && MatchesStatus(s.orders[listing[i]], status)
                        ==> s.orders[listing[i]] in r
  {
    if listing == [] then []
    else
      var o := s.orders[listing[0]];
      var rest := Filter(s, listing[1..], status);
      assert forall i :: 1 <= i < |listing| ==> listing[i] == listing[1..][i - 1];
      if MatchesStatus(o, status) then [o] + rest else rest
  }

  /** Every order the filter keeps is the order of some listed id. */
  lemma {:induction false} FilterOnlyListed(s: Stores, listing: seq<Id>, status: Option<string>)
    requires IsListing(listing, s.orders.Keys)
    ensures forall o :: o in Filter(s, listing, status) ==>
              exists i :: 0 <= i < |listing| && o == s.orders[listing[i]]
  {
    if listing != [] {
      assert forall i :: 1 <= i < |listing| ==> listing[i] == listing[1..][i - 1];
      FilterOnlyListed(s, listing[1..], status);
      forall o | o in Filter(s, listing[1..], status)
        ensures exists i :: 0 <= i < |listing| && o == s.orders[listing[i]]
      {
        var j :| 0 <= j < |listing[1..]| && o == s.orders[listing[1..][j]];
        assert o == s.orders[listing[j + 1]];
      }
    }
  }

  /**
   * Filtering keeps the order of the listing: one more listed id adds its order at the end
   * of the result when it matches, and nothing when it does not.
   */
  lemma {:induction false} FilterKeepsOrder(s: Stores, listing: seq<Id>, x: Id, status: Option<string>)
    requires IsListing(listing, s.orders.Keys) && x in s.orders
    ensures IsListing(listing + [x], s.orders.Keys)
    ensures Filter(s, listing + [x], status)
            == Filter(s, listing, status) + (if MatchesStatus(s.orders[x], status) then [s.orders[x]] else [])
  {
    var ext := listing + [x];
    assert forall i :: 0 <= i < |listing| ==> ext[i] == listing[i];
    if listing == [] {
      assert ext == [x];
    } else {
      assert ext[1..] == listing[1..] + [x];
      FilterKeepsOrder(s, listing[1..], x, status);
    }
  }

  function LabelAll(os: seq<Order>): (r: seq<LabelledOrder>)
    ensures |r| == |os| && forall i :: 0 <= i < |os| ==> r[i] == Labelled(os[i])
  {
    if os == [] then [] else [Labelled(os[0])] + LabelAll(os[1..])
  }

  datatype OrderPage = OrderPage(orders: seq<LabelledOrder>, totalPages: Option<int>, currentPage: int)

  /** The reply of getOrders for the matching orders: None is the 500 reply of a negative skip. */
  function PageOf(matching: seq<Order>, page: Option<int>, limit: Option<int>): Option<OrderPage> {
    var pg, lim := PageOrDefault(page), LimitOrDefault(limit);
    match Window(matching, pg, lim)
    case None => None
    case Some(w) => Some(OrderPage(LabelAll(w), TotalPages(|matching|, lim), pg))
  }

  /** getOrders: the page of the listed orders the status query matches. */
  function GetOrders(s: Stores, listing: seq<Id>, page: Option<int>, limit: Option<int>, status: Option<string>): Option<OrderPage>
    requires IsListing(listing, s.orders.Keys)
  {
    PageOf(Filter(s, listing, status), page, limit)
  }

  // ---------------------------------------------------------------------------------
  // createOrder

  /** Check k (0 to 5) of createOrder, in the order they run; false when it fails. */
  predicate Check(s: Stores, req: OrderRequest, k: nat) {
    var found := req.productId.Some? && Orderable(s, req.productId.value);
    match k
    case 0 => !MissingRequired(req)
    case 1 => req.phone.Some? && PhoneOk(req.phone.value)
    case 2 => req.boxCount.Some? && req.boxCount.value >= 1
    case 3 => found
    case 4 => found && req.boxCount.Some? && s.products[req.productId.value].stock >= req.boxCount.value
    case _ => found && req.totalPrice.Some? && req.totalPrice.value == ExpectedPrice(s.products[req.productId.value])
  }

  /** The reply each check gives when it is the first to fail. */
  function CheckReply(k: nat): Reply {
    match k
    case 0 => Failure(400, MissingFields)
    case 1 => Failure(400, InvalidPhone)
    case 2 => Failure(400, InvalidBoxCount)
    case 3 => Failure(404, ProductUnavailable)
    case 4 => Failure(400, InsufficientStock)
    case _ => Failure(400, InvalidTotalPrice)
  }

  predicate PassesChecks(s: Stores, req: OrderRequest) {
    && Check(s, req, 0) && Check(s, req, 1) && Check(s, req, 2)
    && Check(s, req, 3) && Check(s, req, 4) && Check(s, req, 5)
  }

  /** The index of the first check, from `from` on, that fails; 6 when none does. */
  function FirstFailing(s: Stores, req: OrderRequest, from: nat): (k: nat)
    requires from <= 6
    ensures from <= k <= 6
    ensures forall j :: from <= j < k ==> Check(s, req, j)
    ensures k < 6 ==> !Check(s, req, k)
    decreases 6 - from
  {
    if from == 6 then 6
    else if !Check(s, req, from) then from
    else FirstFailing(s, req, from + 1)
  }

  /** The first failing check decides the reply, and neither collection changes. */
  lemma CreateOrderFailFast(s: Stores, req: OrderRequest, newId: Id, k: nat)
    requires k < 6
    requires forall j :: 0 <= j < k ==> Check(s, req, j)
    requires !Check(s, req, k)
    ensures CreateOrder(s, req, newId) == (s, CheckReply(k))
  {
    if k > 0 { assert Check(s, req, 0); }
    if k > 1 { assert Check(s, req, 1); }
    if k > 2 { assert Check(s, req, 2); }
    if k > 3 { assert Check(s, req, 3); }
    if k > 4 { assert Check(s, req, 4); }
  }

  /** A request that fails some check gets the reply of the first one that fails. */
  lemma CreateOrderFirstFailure(s: Stores, req: OrderRequest, newId: Id)
    requires !PassesChecks(s, req)
    ensures FirstFailing(s, req, 0) < 6
    ensures forall j :: 0 <= j < FirstFailing(s, req, 0) ==> Check(s, req, j)
    ensures CreateOrder(s, req, newId) == (s, CheckReply(FirstFailing(s, req, 0)))
  {
    var k := FirstFailing(s, req, 0);
    CreateOrderFailFast(s, req, newId, k);
  }

  /** Zero boxes or a zero total are "missing": the falsy test runs before the range checks. */
  lemma ZeroCountsAsMissing(s: Stores, req: OrderRequest, newId: Id)
    requires req.boxCount == Some(0) || req.totalPrice == Some(0)
    ensures CreateOrder(s, req, newId) == (s, Failure(400, MissingFields))
  {
  }

  /** A product whose effective price is 0 can never be ordered. */
  lemma FreeProductUnorderable(s: Stores, req: OrderRequest, newId: Id)
    requires req.productId.Some? && req.productId.value in s.products
    requires ExpectedPrice(s.products[req.productId.value]) == 0
    ensures CreateOrder(s, req, newId).1 != Success(201)
  {
  }

  /** When every check passes, createOrder comes down to its two writes. */
  lemma PassingChecksPlace(s: Stores, req: OrderRequest, newId: Id)
    requires PassesChecks(s, req)
    ensures !MissingRequired(req) && req.productId.value in s.products
    ensures var pid, n := req.productId.value, req.boxCount.value;
            CreateOrder(s, req, newId) == Place(s, pid, Reserve(s.products[pid], n), newId, OrderOf(req))
  {
    assert Check(s, req, 0) && Check(s, req, 1) && Check(s, req, 2);
    assert Check(s, req, 4) && Check(s, req, 5);
  }

  /**
   * On valid stores, reserving units of a stored product keeps its code; so the product
   * write succeeds when the reservation leaves the counters valid, and the order write
   * then decides the reply.
   */
  lemma PlaceSpec(s: Stores, pid: Id, n: int, newId: Id, o: Order)
    requires ValidStores(s) && pid in s.products && 1 <= n <= s.products[pid].stock
    ensures var s1 := s.(products := s.products[pid := Reserve(s.products[pid], n)]);
            && ValidStores(s1)
            && Place(s, pid, Reserve(s.products[pid], n), newId, o) ==
                 if ValidOrder(o) then (s1.(orders := s.orders[newId := o]), Success(201))
                 else (s1, Failure(400, SaveRejected))
  {
    var p := Reserve(s.products[pid], n);
    SameCodeAvailable(s, pid, p);
    PutProductSpec(s, pid, p);
  }

  /**
   * On valid stores, createOrder succeeds exactly when all six checks pass and the new
   * order document validates. Then the total equals the effective price whatever the
   * number of boxes, the product has moved boxCount units from stock to sold (stock stays
   * at least 0), and the new order is pending under the fresh id; nothing else changes.
   */
  lemma CreateOrderSuccess(s: Stores, req: OrderRequest, newId: Id)
    requires ValidStores(s)
    ensures CreateOrder(s, req, newId).1 == Success(201) <==>
              !MissingRequired(req) && PassesChecks(s, req) && ValidOrder(OrderOf(req))
    ensures CreateOrder(s, req, newId).1 == Success(201) ==>
              var pid, n := req.productId.value, req.boxCount.value;
              var p := s.products[pid];
              var s' := CreateOrder(s, req, newId).0;
              && req.totalPrice.value == ExpectedPrice(p)
              && s'.products == s.products[pid := Reserve(p, n)]
              && s'.products[pid].stock >= 0
              && s'.orders == s.orders[newId := OrderOf(req)]
              && s'.orders[newId].status == Pending
  {
    if PassesChecks(s, req) {
      PassingChecksPlace(s, req, newId);
      assert Check(s, req, 4) && Check(s, req, 5);
      PlaceSpec(s, req.productId.value, req.boxCount.value, newId, OrderOf(req));
    } else {
      CreateOrderFirstFailure(s, req, newId);
    }
  }

  /**
   * As written, the required-fields test looks at the untrimmed strings while the schema
   * trims them: a product name, full name or address of only white space passes every
   * check, the product write (with the reservation) happens, and then the order write is
   * refused. The reply is 400, no order exists, yet the units stay reserved.
   */
  lemma BlankFieldKeepsReservation(s: Stores, req: OrderRequest, newId: Id)
    requires ValidStores(s) && PassesChecks(s, req)
    requires Trim(req.fullName.value) == []
    ensures var (s', reply) := CreateOrder(s, req, newId);
            var pid, n := req.productId.value, req.boxCount.value;
            && reply == Failure(400, SaveRejected)
            && s'.orders == s.orders
            && s'.products == s.products[pid := Reserve(s.products[pid], n)]
            && s'.products[pid].stock == s.products[pid].stock - n
            && s'.products != s.products
  {
    PassingChecksPlace(s, req, newId);
    assert Check(s, req, 4);
    assert !ValidOrder(OrderOf(req));
    PlaceSpec(s, req.productId.value, req.boxCount.value, newId, OrderOf(req));
  }

  /** A full name of one space is not falsy, so it passes the required-fields test, but trims to empty. */
  lemma OneSpaceIsNotMissing()
    ensures !FalsyText(Some(" ")) && Trim(" ") == []
  {
    assert AllSpace(" ");
    TrimEmptyIffAllSpace(" ");
  }

  /**
   * The evidently intended createOrder: the order document is validated before any write,
   * so that a refused request leaves both collections as they were.
   */
  function CreateOrderChecked(s: Stores, req: OrderRequest, newId: Id): (Stores, Reply) {
    if !MissingRequired(req) && PassesChecks(s, req) && !ValidOrder(OrderOf(req))
    then (s, Failure(400, SaveRejected))
    else CreateOrder(s, req, newId)
  }

  /** With the order validated first, every failure of the corrected createOrder changes nothing. */
  lemma CreateOrderCheckedFailureUnchanged(s: Stores, req: OrderRequest, newId: Id)
    requires ValidStores(s)
    ensures CreateOrderChecked(s, req, newId).1.Failure? ==> CreateOrderChecked(s, req, newId).0 == s
    ensures CreateOrderChecked(s, req, newId).1.Success? ==> CreateOrderChecked(s, req, newId) == CreateOrder(s, req, newId)
  {
    CreateOrderSuccess(s, req, newId);
    if !PassesChecks(s, req) {
      CreateOrderFirstFailure(s, req, newId);
    }
  }

  // ---------------------------------------------------------------------------------
  // Conservation

  /**
   * The product collection keeps its ids, and each product keeps every field except stock
   * and sold, whose sum is unchanged.
   */
  predicate CountersOnlyMoved(s: Stores, s': Stores) {
    && s'.products.Keys == s.products.Keys
    && forall id :: id in s.products ==>
         && Units(s'.products[id]) == Units(s.products[id])
         && s'.products[id] == s.products[id].(stock := s'.products[id].stock, sold := s'.products[id].sold)
  }

  lemma PutCounterMoves(s: Stores, pid: Id, p: Product)
    requires pid in s.products && PutProduct(s, pid, p).Some?
    requires Units(p) == Units(s.products[pid])
    requires p == s.products[pid].(stock := p.stock, sold := p.sold)
    ensures CountersOnlyMoved(s, PutProduct(s, pid, p).value)
  {
  }

  lemma RestoreStockMoves(s: Stores, o: Order)
    requires RestoreStock(s, o).Some?
    ensures CountersOnlyMoved(s, RestoreStock(s, o).value)
    ensures RestoreStock(s, o).value.orders == s.orders
  {
    if o.productId in s.products {
      PutCounterMoves(s, o.productId, Restore(s.products[o.productId], o.boxCount));
    }
  }

  /** createOrder only moves units between stock and sold, whatever the outcome. */
  lemma CreateOrderConserves(s: Stores, req: OrderRequest, newId: Id)
    ensures CountersOnlyMoved(s, CreateOrder(s, req, newId).0)
  {
    if !MissingRequired(req) && PhoneOk(req.phone.value) && req.boxCount.value >= 1 && Orderable(s, req.productId.value) {
      var pid, n := req.productId.value, req.boxCount.value;
      if PutProduct(s, pid, Reserve(s.products[pid], n)).Some? {
        PutCounterMoves(s, pid, Reserve(s.products[pid], n));
      }
    }
  }

  /** updateOrderStatus only moves units between stock and sold. */
  lemma UpdateOrderStatusConserves(s: Stores, id: Id, status: Option<string>)
    ensures CountersOnlyMoved(s, UpdateOrderStatus(s, id, status).0)
  {
    var st := ParseStatusField(status);
    if st.Some? && id in s.orders && RestoresOnUpdate(s.orders[id].status, st.value) && RestoreStock(s, s.orders[id]).Some? {
      RestoreStockMoves(s, s.orders[id]);
    }
  }

  /** deleteOrder only moves units between stock and sold. */
  lemma DeleteOrderConserves(s: Stores, id: Id)
    ensures CountersOnlyMoved(s, DeleteOrder(s, id).0)
  {
    if id in s.orders && s.orders[id].status != Delivered && RestoreStock(s, s.orders[id]).Some? {
      RestoreStockMoves(s, s.orders[id]);
    }
  }

  // ---------------------------------------------------------------------------------
  // updateOrderStatus

  /** A status outside the enum is refused before the order is looked up, whether or not it exists. */
  lemma UpdateRejectsUnknownStatus(s: Stores, id: Id, status: Option<string>)
    requires status.None? || status.value !in StatusNames
    ensures UpdateOrderStatus(s, id, status) == (s, Failure(400, InvalidStatus))
  {
  }

  /** A missing order with a valid status is a 404 with nothing changed. */
  lemma UpdateMissingOrder(s: Stores, id: Id, status: Option<string>)
    requires status.Some? && status.value in StatusNames && id !in s.orders
    ensures UpdateOrderStatus(s, id, status) == (s, Failure(404, OrderNotFound))
  {
  }

  /**
   * On valid stores and a known order and status: the product gets the boxes back exactly
   * when the order moves into cancelled from a state other than cancelled or delivered and
   * the product still exists; the order's status becomes the requested one. The write of the
   * restored product is refused only when sold would drop below 0, and then nothing changes.
   */
  lemma UpdateOrderStatusEffect(s: Stores, id: Id, status: Option<string>)
    requires ValidStores(s) && id in s.orders && ParseStatusField(status).Some?
    ensures var (s', reply) := UpdateOrderStatus(s, id, status);
            var o, st := s.orders[id], ParseStatusField(status).value;
            var pid := o.productId;
            var restores := RestoresOnUpdate(o.status, st) && pid in s.products;
            if restores && s.products[pid].sold < o.boxCount then
              s' == s && reply == Failure(400, SaveRejected)
            else
              && reply == Success(200)
              && s'.orders == s.orders[id := o.(status := st)]
              && s'.orders[id].status == st
              && s'.products == (if restores then s.products[pid := Restore(s.products[pid], o.boxCount)] else s.products)
  {
    var o, st := s.orders[id], ParseStatusField(status).value;
    var pid := o.productId;
    if RestoresOnUpdate(o.status, st) && pid in s.products {
      var q := Restore(s.products[pid], o.boxCount);
      SameCodeAvailable(s, pid, q);
      PutProductSpec(s, pid, q);
      if PutProduct(s, pid, q).Some? {
        PutOrderSpec(PutProduct(s, pid, q).value, id, o.(status := st));
      }
    } else {
      PutOrderSpec(s, id, o.(status := st));
    }
  }

  /** Cancelling an order that has already been cancelled changes nothing but answers 200. */
  lemma CancelTwiceRestoresOnce(s: Stores, id: Id)
    requires ValidStores(s)
    requires UpdateOrderStatus(s, id, Some("cancelled")).1 == Success(200)
    ensures var s1 := UpdateOrderStatus(s, id, Some("cancelled")).0;
            UpdateOrderStatus(s1, id, Some("cancelled")) == (s1, Success(200))
  {
    UpdateOrderStatusEffect(s, id, Some("cancelled"));
    var s1 := UpdateOrderStatus(s, id, Some("cancelled")).0;
    UpdateOrderStatusPreservesValid(s, id, Some("cancelled"));
    UpdateOrderStatusEffect(s1, id, Some("cancelled"));
    assert s1.orders[id := s1.orders[id].(status := Cancelled)] == s1.orders;
  }

  /** When the product is gone, cancelling skips the restore but still updates the status. */
  lemma CancelWithoutProduct(s: Stores, id: Id)
    requires ValidStores(s) && id in s.orders && s.orders[id].productId !in s.products
    ensures UpdateOrderStatus(s, id, Some("cancelled")) ==
              (s.(orders := s.orders[id := s.orders[id].(status := Cancelled)]), Success(200))
  {
    UpdateOrderStatusEffect(s, id, Some("cancelled"));
  }

  // ---------------------------------------------------------------------------------
  // deleteOrder

  /** Deleting a missing order is a 404 with nothing changed. */
  lemma DeleteMissingOrder(s: Stores, id: Id)
    requires id !in s.orders
    ensures DeleteOrder(s, id) == (s, Failure(404, OrderNotFound))
  {
  }

  /**
   * On valid stores: a delivered order is removed with inventory untouched; any other order,
   * cancelled ones included, gives its boxes back to an existing product before it is removed.
   * If that product write is refused (sold would drop below 0) the reply is 500 and the order stays.
   */
  lemma DeleteOrderEffect(s: Stores, id: Id)
    requires ValidStores(s) && id in s.orders
    ensures var (s', reply) := DeleteOrder(s, id);
            var o := s.orders[id];
            var pid := o.productId;
            var restores := o.status != Delivered && pid in s.products;
            if restores && s.products[pid].sold < o.boxCount then
              s' == s && reply == Failure(500, ServerError)
            else
              && reply == Success(200)
              && s'.orders == s.orders - {id}
              && s'.products == (if restores then s.products[pid := Restore(s.products[pid], o.boxCount)] else s.products)
  {
    var o := s.orders[id];
    if o.status != Delivered && o.productId in s.products {
      var q := Restore(s.products[o.productId], o.boxCount);
      SameCodeAvailable(s, o.productId, q);
      PutProductSpec(s, o.productId, q);
    }
  }

  /**
   * The asymmetry between cancel and delete: cancelling an open order and then deleting it
   * gives its boxes back twice, while deleting it directly gives them back once.
   */
  lemma CancelThenDeleteRestoresTwice(s: Stores, id: Id)
    requires ValidStores(s) && id in s.orders
    requires s.orders[id].status != Cancelled && s.orders[id].status != Delivered
    requires s.orders[id].productId in s.products
    requires s.products[s.orders[id].productId].sold >= 2 * s.orders[id].boxCount
    ensures var o := s.orders[id];
            var p := s.products[o.productId];
            var s1 := UpdateOrderStatus(s, id, Some("cancelled")).0;
            var s2 := DeleteOrder(s1, id).0;
            var direct := DeleteOrder(s, id).0;
            && s2.orders == direct.orders == s.orders - {id}
            && s2.products[o.productId].stock == p.stock + 2 * o.boxCount
            && direct.products[o.productId].stock == p.stock + o.boxCount
  {
    var o := s.orders[id];
    var pid := o.productId;
    UpdateOrderStatusEffect(s, id, Some("cancelled"));
    UpdateOrderStatusPreservesValid(s, id, Some("cancelled"));
    var s1 := UpdateOrderStatus(s, id, Some("cancelled")).0;
    assert s1.orders[id] == o.(status := Cancelled);
    DeleteOrderEffect(s1, id);
    DeleteOrderEffect(s, id);
    assert s1.orders[id := o.(status := Cancelled)] - {id} == s.orders - {id};
  }

  // ---------------------------------------------------------------------------------
  // Validity of the stores

  lemma CreateOrderPreservesValid(s: Stores, req: OrderRequest, newId: Id)
    requires ValidStores(s)
    ensures ValidStores(CreateOrder(s, req, newId).0)
  {
    if !MissingRequired(req) && PhoneOk(req.phone.value) && req.boxCount.value >= 1 && Orderable(s, req.productId.value) {
      var pid, n := req.productId.value, req.boxCount.value;
      PutProductSpec(s, pid, Reserve(s.products[pid], n));
      if PutProduct(s, pid, Reserve(s.products[pid], n)).Some? {
        PutOrderSpec(PutProduct(s, pid, Reserve(s.products[pid], n)).value, newId, OrderOf(req));
      }
    }
  }

  lemma UpdateOrderStatusPreservesValid(s: Stores, id: Id, status: Option<string>)
    requires ValidStores(s)
    ensures ValidStores(UpdateOrderStatus(s, id, status).0)
  {
    var st := ParseStatusField(status);
    if st.Some? && id in s.orders {
      var o := s.orders[id];
      if RestoresOnUpdate(o.status, st.value) && o.productId in s.products {
        var q := Restore(s.products[o.productId], o.boxCount);
        PutProductSpec(s, o.productId, q);
        if PutProduct(s, o.productId, q).Some? {
          PutOrderSpec(PutProduct(s, o.productId, q).value, id, o.(status := st.value));
        }
      } else {
        PutOrderSpec(s, id, o.(status := st.value));
      }
    }
  }

  lemma DeleteOrderPreservesValid(s: Stores, id: Id)
    requires ValidStores(s)
    ensures ValidStores(DeleteOrder(s, id).0)
  {
    if id in s.orders && s.orders[id].status != Delivered && s.orders[id].productId in s.products {
      var o := s.orders[id];
      PutProductSpec(s, o.productId, Restore(s.products[o.productId], o.boxCount));
    }
  }

  // ---------------------------------------------------------------------------------
  // getOrders

  /**
   * A page of orders holds at most `limit` orders (10 by default), each matching the status
   * filter and carrying its label; totalPages counts the pages of all matching orders.
   */
  lemma GetOrdersPage(s: Stores, listing: seq<Id>, page: Option<int>, limit: Option<int>, status: Option<string>)
    requires IsListing(listing, s.orders.Keys)
    ensures GetOrders(s, listing, page, limit, status).Some? ==>
              var r := GetOrders(s, listing, page, limit, status).value;
              var lim := LimitOrDefault(limit);
              var matching := Filter(s, listing, status);
              var skip := Skip(PageOrDefault(page), lim);
              && (lim != 0 ==> |r.orders| <= if lim < 0 then -lim else lim)
              && r.totalPages == TotalPages(|matching|, lim)
              && r.currentPage == PageOrDefault(page)
              && forall i :: 0 <= i < |r.orders| ==>
                   && skip + i < |matching| && r.orders[i] == Labelled(matching[skip + i])
                   && MatchesStatus(r.orders[i].order, status)
  {
    PageOfSpec(Filter(s, listing, status), page, limit, status);
  }

  /**
   * The page of a sequence of matching orders: at most as many as the absolute value of
   * the limit (when it is not 0), position i showing the order at position skip + i with
   * its label, every one of them matching, and totalPages counting the pages of all of them.
   */
  lemma PageOfSpec(matching: seq<Order>, page: Option<int>, limit: Option<int>, status: Option<string>)
    requires forall o :: o in matching ==> MatchesStatus(o, status)
    ensures PageOf(matching, page, limit).Some? ==>
              var r := PageOf(matching, page, limit).value;
              var lim := LimitOrDefault(limit);
              var skip := Skip(PageOrDefault(page), lim);
              && (lim != 0 ==> |r.orders| <= if lim < 0 then -lim else lim)
              && r.totalPages == TotalPages(|matching|, lim)
              && r.currentPage == PageOrDefault(page)
              && (forall i :: 0 <= i < |r.orders| ==>
                    && skip + i < |matching| && r.orders[i] == Labelled(matching[skip + i])
                    && MatchesStatus(r.orders[i].order, status))
  {
    var pg, lim := PageOrDefault(page), LimitOrDefault(limit);
    if Window(matching, pg, lim).Some? {
      var w := Window(matching, pg, lim).value;
      var r := OrderPage(LabelAll(w), TotalPages(|matching|, lim), pg);
      assert PageOf(matching, page, limit) == Some(r);
      LabelledPage(matching, pg, lim, status);
    } else {
      assert PageOf(matching, page, limit) == None;
    }
  }

  /** The orders of one page, labelled: those at positions skip, skip + 1, ..., all matching. */
  lemma LabelledPage(matching: seq<Order>, pg: int, lim: int, status: Option<string>)
    requires forall o :: o in matching ==> MatchesStatus(o, status)
    ensures Window(matching, pg, lim).Some? ==>
              var r := LabelAll(Window(matching, pg, lim).value);
              && (lim != 0 ==> |r| <= if lim < 0 then -lim else lim)
              && (forall i :: 0 <= i < |r| ==>
                    && Skip(pg, lim) + i < |matching| && r[i] == Labelled(matching[Skip(pg, lim) + i])
                    && MatchesStatus(r[i].order, status))
  {
    WindowIsSlice(matching, pg, lim);
    if Window(matching, pg, lim).Some? {
      var r := LabelAll(Window(matching, pg, lim).value);
      forall i | 0 <= i < |r| ensures MatchesStatus(r[i].order, status) {
        assert matching[Skip(pg, lim) + i] in matching;
      }
    }
  }
}
