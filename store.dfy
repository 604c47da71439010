/**
 * The two collections, products and orders keyed by id, and the database writes the
 * handlers use. A write of a product or order runs the schema's validators (and, for
 * products, the unique index on productCode); a refused write changes nothing.
 */
module Store {
  import opened Wrappers
  import opened ProductModel
  import opened OrderModel

  datatype Stores = Stores(products: map<Id, Product>, orders: map<Id, Order>)

  /** What every write keeps: stored documents pass validation and product codes are unique. */
  predicate ValidStores(s: Stores) {
    && (forall id :: id in s.products ==> ValidProduct(s.products[id]))
    && UniqueCodes(s.products)
    && (forall id :: id in s.orders ==> ValidOrder(s.orders[id]))
  }

  /** Writing product `p` under `id`: refused unless it validates and its code is free. */
  function PutProduct(s: Stores, id: Id, p: Product): Option<Stores> {
    if ValidProduct(p) && CodeAvailable(s.products, id, p.productCode)
    then Some(s.(products := s.products[id := p]))
    else None
  }

  /** Writing order `o` under `id`: refused unless it validates. */
  function PutOrder(s: Stores, id: Id, o: Order): Option<Stores> {
    if ValidOrder(o) then Some(s.(orders := s.orders[id := o])) else None
  }

  /** A product write succeeds exactly on a valid document with a free code, and keeps the stores valid. */
  lemma PutProductSpec(s: Stores, id: Id, p: Product)
    requires ValidStores(s)
    ensures PutProduct(s, id, p).Some? <==> ValidProduct(p) && CodeAvailable(s.products, id, p.productCode)
    ensures PutProduct(s, id, p).Some? ==>
              && ValidStores(PutProduct(s, id, p).value)
              && PutProduct(s, id, p).value.products[id] == p
              && PutProduct(s, id, p).value.orders == s.orders
  {
    if PutProduct(s, id, p).Some? {
      CodeAvailableKeepsUnique(s.products, id, p);
    }
  }

  /** Rewriting a stored product with its code unchanged never violates the unique index. */
  lemma SameCodeAvailable(s: Stores, id: Id, p: Product)
    requires ValidStores(s) && id in s.products && p.productCode == s.products[id].productCode
    ensures CodeAvailable(s.products, id, p.productCode)
  {
  }

  /** An order write succeeds exactly on a valid document, and keeps the stores valid. */
  lemma PutOrderSpec(s: Stores, id: Id, o: Order)
    requires ValidStores(s)
    ensures PutOrder(s, id, o).Some? <==> ValidOrder(o)
    ensures PutOrder(s, id, o).Some? ==>
              && ValidStores(PutOrder(s, id, o).value)
              && PutOrder(s, id, o).value.products == s.products
  {
  }

  /**
   * The database's answer to a list query: ids of stored documents (those the query
   * matches), in the order the database sorts them, newest first.
   */
  predicate IsListing(listing: seq<Id>, keys: set<Id>) {
    forall i :: 0 <= i < |listing| ==> listing[i] in keys
  }

  class Database {
    var products: map<Id, Product>
    var orders: map<Id, Order>
    /** The id the next inserted document receives. */
    var nextId: Id

    function Contents(): Stores
      reads this
    {
      Stores(products, orders)
    }

    ghost predicate Valid()
      reads this
    {
      && ValidStores(Contents())
      && (forall id :: id in products ==> id < nextId)
      && (forall id :: id in orders ==> id < nextId)
    }

    constructor ()
      ensures Valid() && Contents() == Stores(map[], map[])
    {
      products, orders, nextId := map[], map[], 0;
    }

    /** `product.save()` on a fetched document, or `findByIdAndUpdate` with validators. */
    method SaveProduct(id: Id, p: Product) returns (ok: bool)
      requires Valid() && id in products
      modifies this
      ensures Valid() && nextId == old(nextId)
      ensures ok == PutProduct(old(Contents()), id, p).Some?
      ensures Contents() == PutProduct(old(Contents()), id, p).GetOr(old(Contents()))
    {
      ok := ValidProduct(p) && CodeAvailable(products, id, p.productCode);
      if ok {
        CodeAvailableKeepsUnique(products, id, p);
        products := products[id := p];
      }
    }

    /** `save()` of a new product document, which receives a fresh id. */
    method InsertProduct(p: Product) returns (id: Option<Id>)
      requires Valid()
      modifies this
      ensures Valid()
      ensures id.Some? <==> PutProduct(old(Contents()), old(nextId), p).Some?
      ensures id.Some? ==> id.value == old(nextId) && old(nextId) !in old(products)
      ensures Contents() == PutProduct(old(Contents()), old(nextId), p).GetOr(old(Contents()))
    {
      if ValidProduct(p) && CodeAvailable(products, nextId, p.productCode) {
        CodeAvailableKeepsUnique(products, nextId, p);
        products := products[nextId := p];
        id := Some(nextId);
        nextId := nextId + 1;
      } else {
        id := None;
      }
    }

    /** `order.save()` on a fetched order document. */
    method SaveOrder(id: Id, o: Order) returns (ok: bool)
      requires Valid() && id in orders
      modifies this
      ensures Valid() && nextId == old(nextId)
      ensures ok == PutOrder(old(Contents()), id, o).Some?
      ensures Contents() == PutOrder(old(Contents()), id, o).GetOr(old(Contents()))
    {
      ok := ValidOrder(o);
      if ok {
        orders := orders[id := o];
      }
    }

    /** `save()` of a new order document, which receives a fresh id. */
    method InsertOrder(o: Order) returns (id: Option<Id>)
      requires Valid()
      modifies this
      ensures Valid()
      ensures id.Some? <==> PutOrder(old(Contents()), old(nextId), o).Some?
      ensures id.Some? ==> id.value == old(nextId) && old(nextId) !in old(orders)
      ensures Contents() == PutOrder(old(Contents()), old(nextId), o).GetOr(old(Contents()))
    {
      if ValidOrder(o) {
        orders := orders[nextId := o];
        id := Some(nextId);
        nextId := nextId + 1;
      } else {
        id := None;
      }
    }

    /** `findByIdAndUpdate` of the status path alone, after its enum validator passed. */
    method SetProductStatus(id: Id, st: ProductStatus)
      requires Valid() && id in products
      modifies this
      ensures Valid() && nextId == old(nextId)
      ensures Contents() == old(Contents()).(products := old(products)[id := old(products)[id].(status := st)])
    {
      var p := products[id].(status := st);
      assert CodeAvailable(products, id, p.productCode);
      CodeAvailableKeepsUnique(products, id, p);
      products := products[id := p];
    }

    /** `findByIdAndDelete` on the orders. */
    method DeleteOrder(id: Id)
      requires Valid()
      modifies this
      ensures Valid() && nextId == old(nextId)
      ensures Contents() == old(Contents()).(orders := old(orders) - {id})
    {
      orders := orders - {id};
    }

    /** `findByIdAndDelete` on the products; reports whether a product was there. */
    method DeleteProduct(id: Id) returns (found: bool)
      requires Valid()
      modifies this
      ensures Valid() && nextId == old(nextId)
      ensures found == (id in old(products))
      ensures Contents() == old(Contents()).(products := old(products) - {id})
    {
      found := id in products;
      products := products - {id};
    }
  }
}
