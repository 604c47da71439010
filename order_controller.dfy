/**
 * The order handlers of controllers/orderController.js as imperative code over the
 * database: each reads the documents it needs, checks in the source's order, updates the
 * fetched product record in place and writes product before order. Each is proved to
 * leave the database, and to reply, exactly as its function in OrderSpec says.
 */
module OrderController {
  import opened Wrappers
  import opened ProductModel
  import opened OrderModel
  import opened Store
  import opened Http
  import OrderSpec

  method CreateOrder(db: Database, req: OrderSpec.OrderRequest) returns (reply: Reply)
    requires db.Valid()
    modifies db
    ensures db.Valid()
    ensures (db.Contents(), reply) == OrderSpec.CreateOrder(old(db.Contents()), req, old(db.nextId))
  {
    ghost var s, newId := db.Contents(), db.nextId;
    if OrderSpec.MissingRequired(req) {
      OrderSpec.CreateOrderFailFast(s, req, newId, 0);
      return Failure(400, MissingFields);
    }
    assert OrderSpec.Check(s, req, 0);
    if !PhoneOk(req.phone.value) {
      OrderSpec.CreateOrderFailFast(s, req, newId, 1);
      return Failure(400, InvalidPhone);
    }
    assert OrderSpec.Check(s, req, 1);
    var boxCount := req.boxCount.value;
    if boxCount < 1 {
      OrderSpec.CreateOrderFailFast(s, req, newId, 2);
      return Failure(400, InvalidBoxCount);
    }
    assert OrderSpec.Check(s, req, 2);
    reply := ReserveAndPlace(db, req);
  }

  /** The part of createOrder after the checks on the request alone: the product checks and the writes. */
  method ReserveAndPlace(db: Database, req: OrderSpec.OrderRequest) returns (reply: Reply)
    requires db.Valid()
    requires OrderSpec.Check(db.Contents(), req, 0) && OrderSpec.Check(db.Contents(), req, 1)
    requires OrderSpec.Check(db.Contents(), req, 2)
    modifies db
    ensures db.Valid()
    ensures (db.Contents(), reply) == OrderSpec.CreateOrder(old(db.Contents()), req, old(db.nextId))
  {
    ghost var s, newId := db.Contents(), db.nextId;
    var boxCount := req.boxCount.value;
    var productId := req.productId.value;
    if !(productId in db.products && db.products[productId].status == Active) {
      OrderSpec.CreateOrderFailFast(s, req, newId, 3);
      return Failure(404, ProductUnavailable);
    }
    assert OrderSpec.Check(s, req, 3);
    var product := db.products[productId];
    if product.stock < boxCount {
      OrderSpec.CreateOrderFailFast(s, req, newId, 4);
      return Failure(400, InsufficientStock);
    }
    assert OrderSpec.Check(s, req, 4);
    if req.totalPrice.value != OrderSpec.ExpectedPrice(product) {
      OrderSpec.CreateOrderFailFast(s, req, newId, 5);
      return Failure(400, InvalidTotalPrice);
    }
    assert OrderSpec.Check(s, req, 5);
    OrderSpec.PassingChecksPlace(s, req, newId);
    var order := OrderSpec.OrderOf(req);
    product := OrderSpec.Reserve(product, boxCount);
    reply := Place(db, productId, product, order);
  }

  /** The writes of createOrder: save the reserved product, then insert the order. */
  method Place(db: Database, productId: Id, product: Product, order: Order) returns (reply: Reply)
    requires db.Valid() && productId in db.products
    modifies db
    ensures db.Valid()
    ensures (db.Contents(), reply) == OrderSpec.Place(old(db.Contents()), productId, product, old(db.nextId), order)
  {
    var saved := db.SaveProduct(productId, product);
    if !saved {
      return Failure(400, SaveRejected);
    }
    var id := db.InsertOrder(order);
    if id.None? {
      return Failure(400, SaveRejected);
    }
    reply := Success(201);
  }

  method UpdateOrderStatus(db: Database, id: Id, status: Option<string>) returns (reply: Reply)
    requires db.Valid()
    modifies db
    ensures db.Valid() && db.nextId == old(db.nextId)
    ensures (db.Contents(), reply) == OrderSpec.UpdateOrderStatus(old(db.Contents()), id, status)
  {
    var newStatus := OrderSpec.ParseStatusField(status);
    if newStatus.None? {
      return Failure(400, InvalidStatus);
    }
    if id !in db.orders {
      return Failure(404, OrderNotFound);
    }
    var order := db.orders[id];
    if newStatus.value == Cancelled && order.status != Cancelled && order.status != Delivered {
      if order.productId in db.products {
        var product := db.products[order.productId];
        product := OrderSpec.Restore(product, order.boxCount);
        var saved := db.SaveProduct(order.productId, product);
        if !saved {
          return Failure(400, SaveRejected);
        }
      }
    }
    assert id in db.orders;
    order := order.(status := newStatus.value);
    var saved := db.SaveOrder(id, order);
    if !saved {
      return Failure(400, SaveRejected);
    }
    reply := Success(200);
  }

  method DeleteOrder(db: Database, id: Id) returns (reply: Reply)
    requires db.Valid()
    modifies db
    ensures db.Valid() && db.nextId == old(db.nextId)
    ensures (db.Contents(), reply) == OrderSpec.DeleteOrder(old(db.Contents()), id)
  {
    if id !in db.orders {
      return Failure(404, OrderNotFound);
    }
    var order := db.orders[id];
    if order.status != Delivered {
      if order.productId in db.products {
        var product := db.products[order.productId];
        product := OrderSpec.Restore(product, order.boxCount);
        var saved := db.SaveProduct(order.productId, product);
        if !saved {
          return Failure(500, ServerError);
        }
      }
    }
    db.DeleteOrder(id);
    reply := Success(200);
  }
}
