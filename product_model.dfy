/**
 * The product document (models/product.js): its fields, the defaults and trimming that
 * Mongoose applies when a document is built, and the validators that `save` runs.
 * Stored string fields hold their trimmed value; the validators see that value.
 */
module ProductModel {
  import opened Wrappers
  import opened Text

  const MaxNameLength := 100
  const MaxOriginLength := 50
  const MaxCodeLength := 20
  const MaxSpecificationLength := 200
  const MinImages := 1
  const MaxImages := 4

  datatype ProductStatus = Active | Inactive

  function ProductStatusName(st: ProductStatus): string {
    match st
    case Active => "active"
    case Inactive => "inactive"
  }

  /** The `enum: ['active', 'inactive']` check on a status string. */
  function ParseProductStatus(s: string): (r: Option<ProductStatus>)
    ensures r.Some? <==> s == "active" || s == "inactive"
    ensures r.Some? ==> ProductStatusName(r.value) == s
  {
    if s == "active" then Some(Active)
    else if s == "inactive" then Some(Inactive)
    else None
  }

  lemma ParseProductStatusName(st: ProductStatus)
    ensures ParseProductStatus(ProductStatusName(st)) == Some(st)
  {
  }

  datatype Product = Product(
    name: string,
    stock: int,
    sold: int,
    origin: string,
    productCode: string,
    usage: string,
    originalPrice: int,
    discountedPrice: Option<int>,
    note: Option<string>,
    specification: string,
    description: Option<string>,
    additionalInfo: Option<string>,
    status: ProductStatus,
    images: seq<string>)

  /** A required, trimmed string path with an optional `maxlength`. */
  predicate TextOk(s: string, maxLength: int) {
    s != [] && |s| <= maxLength
  }

  predicate NameOk(s: string) { TextOk(s, MaxNameLength) }
  predicate OriginOk(s: string) { TextOk(s, MaxOriginLength) }
  predicate CodeOk(s: string) { TextOk(s, MaxCodeLength) }
  predicate UsageOk(s: string) { s != [] }
  predicate SpecificationOk(s: string) { TextOk(s, MaxSpecificationLength) }
  /** `min: 0` on stock, sold and originalPrice. */
  predicate CountOk(n: int) { n >= 0 }
  /** `discountedPrice` is optional; when present it has `min: 0`. Nothing relates it to originalPrice. */
  predicate DiscountOk(d: Option<int>) { d.None? || d.value >= 0 }
  /** The custom `images` validator: between 1 and 4 references. */
  predicate ImagesOk(v: seq<string>) { MinImages <= |v| <= MaxImages }

  /** Every validator of the schema holds of the document. */
  predicate ValidProduct(p: Product) {
    && NameOk(p.name)
    && CountOk(p.stock)
    && CountOk(p.sold)
    && OriginOk(p.origin)
    && CodeOk(p.productCode)
    && UsageOk(p.usage)
    && CountOk(p.originalPrice)
    && DiscountOk(p.discountedPrice)
    && SpecificationOk(p.specification)
    && ImagesOk(p.images)
  }

  /** Units of the product in the shop: in stock or sold. Order handling only moves units between the two. */
  function Units(p: Product): int {
    p.stock + p.sold
  }

  /**
   * The body of a create or update request: every field may be absent.
   * Numbers are modelled as integers; the status is the raw string the client sent;
   * `images` is an image list sent in the body itself, which uploaded files replace.
   */
  datatype Payload = Payload(
    name: Option<string>,
    stock: Option<int>,
    sold: Option<int>,
    origin: Option<string>,
    productCode: Option<string>,
    usage: Option<string>,
    originalPrice: Option<int>,
    discountedPrice: Option<int>,
    note: Option<string>,
    specification: Option<string>,
    description: Option<string>,
    additionalInfo: Option<string>,
    status: Option<string>,
    images: Option<seq<string>>)

  function TrimOpt(o: Option<string>): Option<string> {
    match o
    case Some(s) => Some(Trim(s))
    case None => None
  }

  /** A status that is absent, or one of the two enum values. */
  predicate StatusAccepted(s: Option<string>) {
    s.None? || ParseProductStatus(s.value).Some?
  }

  /**
   * `new Product(data)`: string setters trim, `stock` and `sold` default to 0 and
   * `status` to active. None when a required path (name, origin, productCode, usage,
   * originalPrice, specification) is absent or the status is outside the enum;
   * the remaining validators are left to `save`. `images` are the uploaded paths, which
   * take the place of any image list in the body.
   */
  function BuildProduct(d: Payload, images: seq<string>): Option<Product> {
    if && d.name.Some? && d.origin.Some? && d.productCode.Some? && d.usage.Some?
       && d.originalPrice.Some? && d.specification.Some? && StatusAccepted(d.status)
    then
      Some(Product(
        Trim(d.name.value),
        d.stock.GetOr(0),
        d.sold.GetOr(0),
        Trim(d.origin.value),
        Trim(d.productCode.value),
        Trim(d.usage.value),
        d.originalPrice.value,
        d.discountedPrice,
        TrimOpt(d.note),
        Trim(d.specification.value),
        TrimOpt(d.description),
        TrimOpt(d.additionalInfo),
        if d.status.Some? then ParseProductStatus(d.status.value).value else Active,
        images))
    else None
  }

  /**
   * What a create request must satisfy, stated on the request itself: required fields
   * present and, after trimming, non-empty and within their length limits; numbers at
   * least 0; status in the enum; 1 to 4 images.
   */
  predicate AcceptableForCreate(d: Payload, images: seq<string>) {
    && d.name.Some? && NameOk(Trim(d.name.value))
    && (d.stock.None? || d.stock.value >= 0)
    && (d.sold.None? || d.sold.value >= 0)
    && d.origin.Some? && OriginOk(Trim(d.origin.value))
    && d.productCode.Some? && CodeOk(Trim(d.productCode.value))
    && d.usage.Some? && UsageOk(Trim(d.usage.value))
    && d.originalPrice.Some? && d.originalPrice.value >= 0
    && DiscountOk(d.discountedPrice)
    && d.specification.Some? && SpecificationOk(Trim(d.specification.value))
    && StatusAccepted(d.status)
    && ImagesOk(images)
  }

  /**
   * A built document passes validation exactly when the request was acceptable; it then
   * holds every field of the request, strings trimmed, the defaults for absent stock, sold
   * and status, and the images in order.
   */
  lemma BuildProductValid(d: Payload, images: seq<string>)
    ensures (BuildProduct(d, images).Some? && ValidProduct(BuildProduct(d, images).value))
            <==> AcceptableForCreate(d, images)
    ensures BuildProduct(d, images).Some? ==>
              var p := BuildProduct(d, images).value;
              && p.name == Trim(d.name.value)
              && p.stock == (if d.stock.Some? then d.stock.value else 0)
              && p.sold == (if d.sold.Some? then d.sold.value else 0)
              && p.origin == Trim(d.origin.value)
              && p.productCode == Trim(d.productCode.value)
              && p.usage == Trim(d.usage.value)
              && p.originalPrice == d.originalPrice.value
              && p.discountedPrice == d.discountedPrice
              && (d.note.None? ==> p.note.None?)
              && (d.note.Some? ==> p.note == Some(Trim(d.note.value)))
              && p.specification == Trim(d.specification.value)
              && (d.description.None? ==> p.description.None?)
              && (d.description.Some? ==> p.description == Some(Trim(d.description.value)))
              && (d.additionalInfo.None? ==> p.additionalInfo.None?)
              && (d.additionalInfo.Some? ==> p.additionalInfo == Some(Trim(d.additionalInfo.value)))
              && (d.status.None? ==> p.status == Active)
              && (d.status.Some? ==> ProductStatusName(p.status) == d.status.value)
              && p.images == images
  {
  }

  /**
   * The update validators (`runValidators: true`) check only the paths present in the
   * update, each after its setter has trimmed it.
   */
  predicate PatchValid(d: Payload, images: Option<seq<string>>) {
    && (d.name.Some? ==> NameOk(Trim(d.name.value)))
    && (d.stock.Some? ==> CountOk(d.stock.value))
    && (d.sold.Some? ==> CountOk(d.sold.value))
    && (d.origin.Some? ==> OriginOk(Trim(d.origin.value)))
    && (d.productCode.Some? ==> CodeOk(Trim(d.productCode.value)))
    && (d.usage.Some? ==> UsageOk(Trim(d.usage.value)))
    && (d.originalPrice.Some? ==> CountOk(d.originalPrice.value))
    && DiscountOk(d.discountedPrice)
    && (d.specification.Some? ==> SpecificationOk(Trim(d.specification.value)))
    && StatusAccepted(d.status)
    && (images.Some? ==> ImagesOk(images.value))
  }

  function Override<T>(current: T, given: Option<T>): T {
    if given.Some? then given.value else current
  }

  /**
   * `$set` of the payload fields onto a stored document; absent fields keep their value.
   * `images` is the image list of the update (the uploaded paths, else the body's own list).
   */
  function Merge(p: Product, d: Payload, images: Option<seq<string>>): Product {
    Product(
      Override(p.name, TrimOpt(d.name)),
      Override(p.stock, d.stock),
      Override(p.sold, d.sold),
      Override(p.origin, TrimOpt(d.origin)),
      Override(p.productCode, TrimOpt(d.productCode)),
      Override(p.usage, TrimOpt(d.usage)),
      Override(p.originalPrice, d.originalPrice),
      if d.discountedPrice.Some? then d.discountedPrice else p.discountedPrice,
      if d.note.Some? then TrimOpt(d.note) else p.note,
      Override(p.specification, TrimOpt(d.specification)),
      if d.description.Some? then TrimOpt(d.description) else p.description,
      if d.additionalInfo.Some? then TrimOpt(d.additionalInfo) else p.additionalInfo,
      if d.status.Some? && ParseProductStatus(d.status.value).Some? then ParseProductStatus(d.status.value).value else p.status,
      Override(p.images, images))
  }

  /** A valid document stays valid under a valid patch: checking the patched paths suffices. */
  lemma MergePreservesValid(p: Product, d: Payload, images: Option<seq<string>>)
    requires ValidProduct(p)
    ensures PatchValid(d, images) ==> ValidProduct(Merge(p, d, images))
    ensures ValidProduct(Merge(p, d, images)) && StatusAccepted(d.status) ==> PatchValid(d, images)
  {
  }

  /**
   * A field absent from the payload keeps its stored value; a present one takes the new
   * value, trimmed for strings. A status outside the enum (which the validators refuse)
   * leaves the stored status.
   */
  lemma MergeOverwritesOnlyPresent(p: Product, d: Payload, images: Option<seq<string>>)
    ensures var q := Merge(p, d, images);
            && (d.name.None? ==> q.name == p.name)
            && (d.name.Some? ==> q.name == Trim(d.name.value))
            && (d.stock.None? ==> q.stock == p.stock)
            && (d.stock.Some? ==> q.stock == d.stock.value)
            && (d.sold.None? ==> q.sold == p.sold)
            && (d.sold.Some? ==> q.sold == d.sold.value)
            && (d.origin.None? ==> q.origin == p.origin)
            && (d.origin.Some? ==> q.origin == Trim(d.origin.value))
            && (d.productCode.None? ==> q.productCode == p.productCode)
            && (d.productCode.Some? ==> q.productCode == Trim(d.productCode.value))
            && (d.usage.None? ==> q.usage == p.usage)
            && (d.usage.Some? ==> q.usage == Trim(d.usage.value))
            && (d.originalPrice.None? ==> q.originalPrice == p.originalPrice)
            && (d.originalPrice.Some? ==> q.originalPrice == d.originalPrice.value)
            && (d.discountedPrice.None? ==> q.discountedPrice == p.discountedPrice)
            && (d.discountedPrice.Some? ==> q.discountedPrice == d.discountedPrice)
            && (d.note.None? ==> q.note == p.note)
            && (d.note.Some? ==> q.note == Some(Trim(d.note.value)))
            && (d.specification.None? ==> q.specification == p.specification)
            && (d.specification.Some? ==> q.specification == Trim(d.specification.value))
            && (d.description.None? ==> q.description == p.description)
            && (d.description.Some? ==> q.description == Some(Trim(d.description.value)))
            && (d.additionalInfo.None? ==> q.additionalInfo == p.additionalInfo)
            && (d.additionalInfo.Some? ==> q.additionalInfo == Some(Trim(d.additionalInfo.value)))
            && (!StatusAccepted(d.status) || d.status.None? ==> q.status == p.status)
            && (d.status.Some? && StatusAccepted(d.status) ==> ProductStatusName(q.status) == d.status.value)
            && (images.None? ==> q.images == p.images)
            && (images.Some? ==> q.images == images.value)
  {
  }

  /** `d` changes nothing when it carries no field and no images. */
  lemma MergeEmptyPatch(p: Product)
    ensures Merge(p, Payload(None, None, None, None, None, None, None, None, None, None, None, None, None, None), None) == p
  {
  }

  /** `unique: true` on productCode: no two stored products share a code. */
  predicate UniqueCodes<K>(ps: map<K, Product>) {
    forall a, b :: a in ps && b in ps && a != b ==> ps[a].productCode != ps[b].productCode
  }

  /** No stored product other than `id` already uses `code`. */
  predicate CodeAvailable<K>(ps: map<K, Product>, id: K, code: string) {
    forall k :: k in ps && k != id ==> ps[k].productCode != code
  }

  /** Writing a product whose code is available keeps the codes unique. */
  lemma CodeAvailableKeepsUnique<K>(ps: map<K, Product>, id: K, p: Product)
    requires UniqueCodes(ps) && CodeAvailable(ps, id, p.productCode)
    ensures UniqueCodes(ps[id := p])
  {
  }
}
