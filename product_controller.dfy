/**
 * The product handlers of controllers/productController.js that write to the database,
 * as imperative code: each checks in the source's order and issues the same database
 * operation, and is proved to leave the database, and to reply, exactly as its function
 * in ProductSpec says.
 */
module ProductController {
  import opened Wrappers
  import opened ProductModel
  import opened OrderModel
  import opened Store
  import opened Http
  import ProductSpec

  method CreateProduct(db: Database, d: Payload, paths: seq<string>) returns (reply: Reply)
    requires db.Valid()
    modifies db
    ensures db.Valid()
    ensures (db.Contents(), reply) == ProductSpec.CreateProduct(old(db.Contents()), d, paths, old(db.nextId))
  {
    if |paths| == 0 {
      return Failure(400, ImagesRequired);
    }
    var product := BuildProduct(d, paths);
    if product.None? {
      return Failure(400, SaveRejected);
    }
    var id := db.InsertProduct(product.value);
    if id.None? {
      return Failure(400, SaveRejected);
    }
    reply := Success(201);
  }

  method UpdateProduct(db: Database, id: Id, d: Payload, paths: seq<string>) returns (reply: Reply)
    requires db.Valid()
    modifies db
    ensures db.Valid() && db.nextId == old(db.nextId)
    ensures (db.Contents(), reply) == ProductSpec.UpdateProduct(old(db.Contents()), id, d, paths)
  {
    var images := d.images;
    if |paths| > 0 {
      images := Some(paths);
    }
    if ProductSpec.DiscountAboveOriginalInPatch(d) {
      return Failure(400, DiscountAboveOriginal);
    }
    if !PatchValid(d, images) {
      return Failure(400, SaveRejected);
    }
    if id !in db.products {
      return Failure(404, ProductNotFound);
    }
    var saved := db.SaveProduct(id, Merge(db.products[id], d, images));
    if !saved {
      return Failure(400, SaveRejected);
    }
    reply := Success(200);
  }

  method DeleteProduct(db: Database, id: Id) returns (reply: Reply)
    requires db.Valid()
    modifies db
    ensures db.Valid() && db.nextId == old(db.nextId)
    ensures (db.Contents(), reply) == ProductSpec.DeleteProduct(old(db.Contents()), id)
  {
    var found := db.DeleteProduct(id);
    if !found {
      assert old(db.products) - {id} == old(db.products);
      return Failure(404, ProductNotFound);
    }
    reply := Success(200);
  }

  method SetStatus(db: Database, id: Id, status: Option<string>) returns (reply: Reply)
    requires db.Valid()
    modifies db
    ensures db.Valid() && db.nextId == old(db.nextId)
    ensures (db.Contents(), reply) == ProductSpec.SetStatus(old(db.Contents()), id, status)
  {
    if status.None? || ParseProductStatus(status.value).None? {
      return Failure(400, InvalidStatus);
    }
    if id !in db.products {
      return Failure(404, ProductNotFound);
    }
    db.SetProductStatus(id, ParseProductStatus(status.value).value);
    reply := Success(200);
  }
}
