# CanxiBE order and inventory core, in Dafny

This project models the back end of a small shop that sells boxed products. The shop
keeps two collections, products and orders.

- A customer places an order. That reserves boxes: they move from the product's `stock`
  to its `sold` counter.
- An admin moves the order through its statuses. Cancelling an open order gives its boxes
  back to stock.
- Deleting an order that was not delivered also gives its boxes back, even when the order
  was already cancelled.
- Around this sit the product and order schemas, the product handlers (create, list, read
  with admin or public visibility, update, delete, status toggle) and the image-upload filter.

The model is split into one module per part of the program:

| module | models |
|---|---|
| `Text` | `String.prototype.trim`, ASCII `toLowerCase`, the `\d` class |
| `ProductModel`, `OrderModel` | the two schemas: fields, defaults, trimming setters, validators, the status-label table |
| `Store` | the two collections as maps (`Stores`) and a `Database` class. Its write methods validate like Mongoose `save`: a refused write changes nothing |
| `Paging` | the `skip`/`limit` window and `totalPages` of the list endpoints |
| `OrderSpec`, `ProductSpec` | each handler as a function from the stores before a request to the stores after it and the reply, with the lemmas about it |
| `OrderController`, `ProductController` | the handlers that write, as imperative methods on `Database`. They check in the source's order, build the updated record as a new value and write it back with `SaveProduct` or `SaveOrder` |
| `Upload` | `path.extname`, the file filter, the storage parameters, multer's limits and the upload error handler |

Each imperative handler is proved to leave the database, and to reply, exactly as its
function in `OrderSpec` or `ProductSpec` says. The properties are then proved about those
functions:

- which check decides a refused request;
- conservation of `stock + sold`;
- the cancel and delete inventory rules;
- that the stores stay valid;
- visibility;
- pagination bounds.

Ids are natural numbers. The database hands out fresh ones (`Database.nextId`), and the
functions take the new id as a parameter. Prices, counts, page and limit are integers.
A field that may be absent from a request is an `Option`.

## Model

| member | source | states |
|---|---|---|
| Text.TrimStart | models/product.js:4-9 | the result is a suffix of the input, and only white space was cut in front of it |
| Text.TrimEnd | models/product.js:4-9 | the result is a prefix of the input, and only white space was cut after it |
| Text.Trim | models/product.js:4-9 | the `trim: true` setter: both ends cut; TrimIsSlice, TrimIdempotent and TrimEmptyIffAllSpace state what it keeps |
| Text.TrimIsSlice | models/product.js:4-9 | a trimmed string is a contiguous slice of the input, with only white space cut on either side |
| Text.TrimmedEnds | models/product.js:21-26 | a non-empty trimmed string neither starts nor ends with white space |
| Text.TrimIdempotent | models/product.js:27-33 | trimming twice is trimming once |
| Text.TrimEmptyIffAllSpace | models/order.js:24-28 | a string trims to empty exactly when it is all white space, so `required` refuses a blank value |
| Text.LowerChar | middlewares/upload.js:27 | an upper-case ASCII letter becomes the same letter in lower case, 32 code points up; any other character is unchanged |
| Text.ToLower | middlewares/upload.js:27 | lowering keeps the length and lowers each character in place |
| Text.ToLowerIdempotent | middlewares/upload.js:27 | lowering twice is lowering once |
| ProductModel.ParseProductStatus | models/product.js:66-71 | the enum accepts exactly "active" and "inactive", and the parsed status has the given name |
| ProductModel.ParseProductStatusName | models/product.js:66-71 | every status parses back from its name |
| ProductModel.TextOk | models/product.js:4-9 | a required string path with a `maxlength`: non-empty and at most that many characters |
| ProductModel.ValidProduct | models/product.js:3-81 | every validator of the product schema: required texts non-empty within their limits, stock, sold and originalPrice at least 0, a present discountedPrice at least 0, 1 to 4 images |
| ProductModel.BuildProduct | models/product.js:3-81 | `new Product(data)`: trimmed texts, defaults 0 for stock and sold and active for status; none when a required path is absent or the status is outside the enum |
| ProductModel.PatchValid | controllers/productController.js:81-85 | the validators `runValidators` runs on an update: only those of the paths the payload carries |
| ProductModel.Merge | controllers/productController.js:81-85 | `$set` of the payload onto the stored document; MergeOverwritesOnlyPresent states field by field what changes |
| ProductModel.BuildProductValid | models/product.js:3-81 | a new document passes validation exactly when the request is acceptable (required fields present; lengths after trimming; minimums; status enum; 1 to 4 images). It then holds every field of the request: required strings trimmed, optional texts trimmed when present and absent otherwise, both prices as given, stock and sold as given or 0, the given status or active, and the images in order |
| ProductModel.MergePreservesValid | controllers/productController.js:81-85 | validating only the patched paths keeps a valid document valid, and a valid merge with an accepted status had a valid patch |
| ProductModel.MergeOverwritesOnlyPresent | controllers/productController.js:69-85 | for each of the fourteen fields: absent from the payload, it keeps its stored value; present, it takes the new value, trimmed for strings. The status changes only to an enum value, and the images only when the update carries an image list |
| ProductModel.MergeEmptyPatch | controllers/productController.js:81-85 | an empty payload without an image list changes nothing |
| ProductModel.CodeAvailableKeepsUnique | models/product.js:27-33 | writing a product whose code no other product uses keeps product codes unique |
| OrderModel.ParseStatus | models/order.js:44-49 | the enum accepts exactly the five status names, and the parsed status has the given name |
| OrderModel.ParseStatusName | models/order.js:44-49 | every status parses back from its name |
| OrderModel.StatusLabelTable | models/order.js:55-64 | a known status maps to its own label, distinct per status and unlike any status name; any other string is returned unchanged |
| OrderModel.PhoneOk | models/order.js:29-34 | the phone pattern: 10 or 11 characters, all ASCII digits |
| OrderModel.ValidOrder | models/order.js:3-49 | every validator of the order schema on the stored (trimmed) values: productName, fullName and address non-empty, boxCount at least 1, totalPrice at least 0, the phone pattern |
| OrderModel.StatusLabel | models/order.js:55-64 | `getStatusLabel`: the label of a known status name, any other string itself; StatusLabelTable states the table |
| OrderModel.NewOrder | models/order.js:4-49 | a new order is pending; it validates exactly when the trimmed names and address are non-empty, boxCount ≥ 1, totalPrice ≥ 0 and the trimmed phone is 10 or 11 digits |
| OrderModel.DigitsAreTrimmed | models/order.js:29-34 | a phone that matches the pattern is unchanged by trimming |
| Store.PutProduct | models/product.js:3-81 | a product write: refused unless the document validates and no other product has its code |
| Store.PutOrder | models/order.js:3-52 | an order write: refused unless the document validates |
| Store.PutProductSpec | models/product.js:3-81 | a product write succeeds exactly on a valid document with a code no other product uses; it stores that document, keeps the orders and keeps the stores valid |
| Store.SameCodeAvailable | models/product.js:27-33 | rewriting a stored product without changing its code never clashes on the unique index |
| Store.PutOrderSpec | models/order.js:3-52 | an order write succeeds exactly on a valid document, keeps the products and keeps the stores valid |
| Store.Database.SaveProduct | controllers/orderController.js:57 | `product.save()`: the database changes exactly as the product write says, and reports whether it succeeded |
| Store.Database.InsertProduct | controllers/productController.js:12-13 | saving a new product stores it under the fresh id exactly when the write succeeds |
| Store.Database.SaveOrder | controllers/orderController.js:139-140 | `order.save()` on a fetched order changes the database exactly as the order write says |
| Store.Database.InsertOrder | controllers/orderController.js:60 | saving a new order stores it under the fresh id exactly when it validates |
| Store.Database.SetProductStatus | controllers/productController.js:118-122 | only the status of that one product changes, and the database stays valid |
| Store.Database.DeleteOrder | controllers/orderController.js:167 | exactly that order is removed |
| Store.Database.DeleteProduct | controllers/productController.js:99 | exactly that product is removed, and the method reports whether it existed |
| Paging.Window | controllers/productController.js:29-32 | `skip((page-1)*limit).limit(limit)`, none for a negative skip; WindowIsSlice states which items it returns |
| Paging.TotalPages | controllers/productController.js:38 | `Math.ceil(total / limit)`, none for limit 0; TotalPagesIsCeiling states the ceiling |
| Paging.WindowIsSlice | controllers/productController.js:29-32 | a page exists unless the skip is negative. It holds at most as many items as the absolute value of limit (all remaining items for limit 0), taken in order from position (page-1)·limit |
| Paging.TotalPagesIsCeiling | controllers/productController.js:38 | for a positive limit, totalPages is the least page count that holds every item |
| Paging.EveryItemOnItsPage | controllers/productController.js:29-40 | for a positive limit, item i is at position i mod limit of page i / limit + 1, which is among the totalPages pages |
| Paging.PagesBeyondLastAreEmpty | controllers/productController.js:29-38 | a page after the last one is empty |
| OrderSpec.CreateOrder | controllers/orderController.js:6-67 | createOrder from stores and request to stores and reply: the six checks in order, then the two writes; the lemmas below state its outcomes |
| OrderSpec.Place | controllers/orderController.js:54-60 | the product write with the boxes reserved, then the order write |
| OrderSpec.UpdateOrderStatus | controllers/orderController.js:115-147 | updateOrderStatus: the enum check, the lookup, the restore on a move into cancelled, the status write; UpdateOrderStatusEffect states its outcome |
| OrderSpec.DeleteOrder | controllers/orderController.js:150-174 | deleteOrder: the lookup, the restore for any order not delivered, the removal; DeleteOrderEffect states its outcome |
| OrderSpec.GetOrders | controllers/orderController.js:70-97 | getOrders: the page of the matching orders; GetOrdersPage states its contents |
| OrderSpec.CreateOrderChecked | controllers/orderController.js:42-60 | corrected createOrder: the order document is validated before any write |
| OrderSpec.ExpectedPrice | controllers/orderController.js:37 | the expected price is a non-zero discounted price if there is one, else the original price; it is never negative on a valid product |
| OrderSpec.FirstFailing | controllers/orderController.js:11-40 | the index of the first of the six createOrder checks that fails: every earlier check passes |
| OrderSpec.CreateOrderFailFast | controllers/orderController.js:11-40 | when check k is the first to fail, its reply is returned and both collections are unchanged |
| OrderSpec.CreateOrderFirstFailure | controllers/orderController.js:11-40 | a request that fails any check gets the reply of the first failing check, with nothing changed |
| OrderSpec.ZeroCountsAsMissing | controllers/orderController.js:11-13 | boxCount 0 or totalPrice 0 is refused as a missing field, before the range checks |
| OrderSpec.FreeProductUnorderable | controllers/orderController.js:37-40 | a product whose effective price is 0 can never be ordered |
| OrderSpec.PassingChecksPlace | controllers/orderController.js:42-60 | when all checks pass, createOrder is the product write with the boxes reserved, then the order write |
| OrderSpec.PlaceSpec | controllers/orderController.js:54-60 | on valid stores the reserving product write succeeds; the reply is 201 with the order stored exactly when the order document validates |
| OrderSpec.CreateOrderSuccess | controllers/orderController.js:32-62 | on valid stores, creation succeeds exactly when all checks pass and the order validates. Then the total is the effective price whatever the box count, stock drops by boxCount and sold rises by it, stock stays ≥ 0, and a pending order is stored under the fresh id |
| OrderSpec.BlankFieldKeepsReservation | controllers/orderController.js:11-60 | as written: a white-space full name passes the checks, the product write reserves the boxes, the order write is refused, and the reply is 400 with no order but the boxes still reserved |
| OrderSpec.OneSpaceIsNotMissing | controllers/orderController.js:11-13 | " " is not falsy, so it passes the required-fields test, yet it trims to empty |
| OrderSpec.CreateOrderCheckedFailureUnchanged | controllers/orderController.js:42-60 | corrected: every refused request leaves both collections unchanged, and success agrees with createOrder as written |
| OrderSpec.PutCounterMoves | controllers/orderController.js:55-57 | a product write that keeps stock + sold and every other field only moves units |
| OrderSpec.RestoreStockMoves | controllers/orderController.js:131-136 | giving an order's boxes back only moves units, and leaves the orders as they were |
| OrderSpec.CreateOrderConserves | controllers/orderController.js:55-57 | createOrder keeps every product's stock + sold and every other product field, whatever the outcome |
| OrderSpec.UpdateOrderStatusConserves | controllers/orderController.js:130-137 | updateOrderStatus keeps every product's stock + sold and every other product field |
| OrderSpec.DeleteOrderConserves | controllers/orderController.js:158-165 | deleteOrder keeps every product's stock + sold and every other product field |
| OrderSpec.UpdateRejectsUnknownStatus | controllers/orderController.js:120-122 | a status outside the enum is refused with 400 before the lookup, with nothing changed |
| OrderSpec.UpdateMissingOrder | controllers/orderController.js:124-127 | a missing order with a valid status gives 404, with nothing changed |
| OrderSpec.UpdateOrderStatusEffect | controllers/orderController.js:129-140 | the boxes go back exactly on a move into cancelled from a state that is neither cancelled nor delivered, when the product still exists. The status becomes the requested one. The reply is 200, unless sold would drop below 0, in which case it is 400 with nothing changed |
| OrderSpec.CancelTwiceRestoresOnce | controllers/orderController.js:130-140 | cancelling an already cancelled order answers 200 and changes nothing |
| OrderSpec.CancelWithoutProduct | controllers/orderController.js:131-140 | when the product is gone, cancelling skips the restore but still sets the status |
| OrderSpec.DeleteMissingOrder | controllers/orderController.js:152-155 | deleting a missing order gives 404, with nothing changed |
| OrderSpec.DeleteOrderEffect | controllers/orderController.js:157-167 | a delivered order is removed with inventory untouched. Any other order, a cancelled one included, first gives its boxes back to an existing product. If that write is refused, the reply is 500 and the order stays |
| OrderSpec.CancelThenDeleteRestoresTwice | controllers/orderController.js:130-167 | for an open order whose product exists and has sold at least twice its box count: cancelling and then deleting it gives its boxes back twice, deleting it directly gives them back once, and both remove just that order |
| OrderSpec.CreateOrderPreservesValid | controllers/orderController.js:42-60 | createOrder keeps the stores valid |
| OrderSpec.UpdateOrderStatusPreservesValid | controllers/orderController.js:129-140 | updateOrderStatus keeps the stores valid |
| OrderSpec.DeleteOrderPreservesValid | controllers/orderController.js:157-167 | deleteOrder keeps the stores valid |
| OrderSpec.GetOrderById | controllers/orderController.js:100-111 | a stored order is found with the label of its status; a missing one gives 404 |
| OrderSpec.Filter | controllers/orderController.js:73-75 | every listed order the status query matches is kept, and every kept order matches: with a truthy status the orders with that status, without one all of them |
| OrderSpec.FilterOnlyListed | controllers/orderController.js:73-75 | every kept order is the order of a listed id |
| OrderSpec.FilterKeepsOrder | controllers/orderController.js:73-78 | filtering keeps the listing's order: one more listed id adds its order at the end exactly when it matches |
| OrderSpec.LabelAll | controllers/orderController.js:81-84 | every listed order is returned with its status label, in order |
| OrderSpec.GetOrdersPage | controllers/orderController.js:70-92 | a page holds at most as many orders as the absolute value of limit (10 by default). Position i holds the matching order at position (page-1)·limit + i, with its label, and it matches the status query. totalPages counts the pages of all matching orders, and the current page is the requested one |
| OrderSpec.PageOfSpec | controllers/orderController.js:76-92 | the same page facts for any sequence of matching orders |
| OrderSpec.LabelledPage | controllers/orderController.js:76-84 | the labelled window: at most as many orders as the absolute value of limit, position i the order at position skip + i with its label, each matching |
| OrderController.CreateOrder | controllers/orderController.js:6-67 | the imperative createOrder leaves the database, and replies, exactly as `OrderSpec.CreateOrder` says |
| OrderController.ReserveAndPlace | controllers/orderController.js:25-60 | after the request checks, the product lookup, stock and price checks, and the in-place reservation with both writes, agree with `OrderSpec.CreateOrder` |
| OrderController.Place | controllers/orderController.js:54-60 | the product is written before the order, as `OrderSpec.Place` says |
| OrderController.UpdateOrderStatus | controllers/orderController.js:115-147 | the imperative updateOrderStatus agrees with `OrderSpec.UpdateOrderStatus` |
| OrderController.DeleteOrder | controllers/orderController.js:150-174 | the imperative deleteOrder agrees with `OrderSpec.DeleteOrder` |
| ProductSpec.CreateProduct | controllers/productController.js:4-19 | createProduct: 400 without files, else build and save; CreateProductSpec states its outcome |
| ProductSpec.CreateProductSpec | controllers/productController.js:4-19 | without files the reply is 400 and nothing is stored. Otherwise the product is stored under the fresh id exactly when the request is acceptable and its trimmed code is unused, with the file paths as images in upload order. Any failure changes nothing |
| ProductSpec.Documents | controllers/productController.js:29-32 | the listed products, in listing order |
| ProductSpec.GetProducts | controllers/productController.js:22-45 | getProducts: the page of the listed products; GetProductsPage states its contents |
| ProductSpec.GetProductsPage | controllers/productController.js:22-45 | a page exists unless the skip is negative. It holds at most as many products as the absolute value of limit (10 by default), those from position (page-1)·limit of the listing in order. totalPages comes from the number of matches, and the page is 1 by default |
| ProductSpec.EveryProductListed | controllers/productController.js:29-40 | for a positive limit, every listed product is on a page numbered from 1 to totalPages |
| ProductSpec.GetProductById | controllers/productController.js:48-64 | a product is returned exactly when it exists and the caller is an admin or it is active |
| ProductSpec.VisibilityOrdering | controllers/productController.js:50-58 | an admin sees everything the public sees, and the public sees exactly the active products |
| ProductSpec.UpdateProduct | controllers/productController.js:67-94 | updateProduct: the price check, the patch validators, the lookup, the merge and its write |
| ProductSpec.UpdateProductSpec | controllers/productController.js:67-94 | success exactly when the price check and the patch validators pass, the product exists and its code stays unique. The one product becomes the merge. Its images become the uploaded paths; without files, the body's image list; without either, they stay. The stores stay valid. A missing id gives 404, and any failure changes nothing |
| ProductSpec.UpdateWithoutCodeSucceeds | controllers/productController.js:81-89 | a valid patch without a code always succeeds on an existing product |
| ProductSpec.StoredDiscountNotChecked | controllers/productController.js:74-79 | as written: a discount above the stored original price, sent alone, is accepted and stored |
| ProductSpec.UpdateProductChecked | controllers/productController.js:74-85 | corrected updateProduct: the discount is also compared with the original price after the merge |
| ProductSpec.UpdateProductCheckedKeepsDiscount | controllers/productController.js:74-85 | corrected: a successful update never stores a discount above the original price. It differs from the written update only by refusing such a merge, and agrees on every update that stores a consistent product |
| ProductSpec.DeleteProduct | controllers/productController.js:97-108 | deleteProduct: 404 for a missing id, else the removal |
| ProductSpec.DeleteProductSpec | controllers/productController.js:97-108 | a missing id gives 404 with nothing changed. Otherwise exactly that product goes, referring orders stay, and the stores stay valid |
| ProductSpec.SetStatus | controllers/productController.js:111-131 | the status toggle: 400 outside the enum, 404 for a missing id, else the new status |
| ProductSpec.SetStatusSpec | controllers/productController.js:111-131 | any status but "active" or "inactive" gives 400, and a missing id 404, with nothing changed. Otherwise only that product's status changes, to the requested one, and the stores stay valid |
| ProductSpec.ToggleVisibility | controllers/productController.js:111-125 | hiding a product takes it out of public view but not the admin's, and showing it brings it back |
| ProductSpec.SetStatusIdempotent | controllers/productController.js:118-122 | setting the same status twice is setting it once |
| ProductController.CreateProduct | controllers/productController.js:4-19 | the imperative createProduct agrees with `ProductSpec.CreateProduct` |
| ProductController.UpdateProduct | controllers/productController.js:67-94 | the imperative updateProduct agrees with `ProductSpec.UpdateProduct` |
| ProductController.DeleteProduct | controllers/productController.js:97-108 | the imperative deleteProduct agrees with `ProductSpec.DeleteProduct` |
| ProductController.SetStatus | controllers/productController.js:111-131 | the imperative status toggle agrees with `ProductSpec.SetStatus` |
| Upload.StripTrailingSlashesSpec | middlewares/upload.js:27 | stripping trailing slashes keeps a prefix that is empty or does not end in '/', and cuts off nothing but slashes |
| Upload.LastIndexOf | middlewares/upload.js:27 | a found index lies inside the string |
| Upload.LastIndexOfSpec | middlewares/upload.js:27 | a character is found exactly when the string holds it. The found position holds it, and no later position does |
| Upload.BasenameSpec | middlewares/upload.js:27 | the base name is the '/'-free suffix of the path without trailing slashes that starts right after its last '/', or all of it when it has none; a path without '/' is its own base name |
| Upload.ExtName | middlewares/upload.js:27 | `path.extname`: the extension of the base name; BasenameSpec and ExtensionSpec state both parts |
| Upload.ExtensionSpec | middlewares/upload.js:27 | a base name has a non-empty extension exactly when it holds a '.' after its first character and is not ".."; a non-empty extension is a proper suffix of the base name that starts with its only '.' |
| Upload.PhotoExtension | middlewares/upload.js:27 | `path.extname("photo.JPG")` is ".JPG" |
| Upload.FileFilter | middlewares/upload.js:24-34 | the file filter: accept when both the type and the lowercased extension are allowed, else refuse with the message |
| Upload.AcceptedFileIsImage | middlewares/upload.js:24-34 | an accepted file has an allowed type and an allowed extension, and its base name ends (up to ASCII case) in that extension after at least one other character. A refused file gets the filter's error message |
| Upload.UpperCaseExtensionAccepted | middlewares/upload.js:27-29 | "photo.JPG" of type image/jpeg passes the filter |
| Upload.RemoveFirstDot | middlewares/upload.js:13 | a string without '.' is unchanged, and a leading '.' is dropped |
| Upload.Params | middlewares/upload.js:12-20 | the upload goes to folder products as an image, under the given public id |
| Upload.StoredFormat | middlewares/upload.js:13 | the lowercased extension without its first '.', or jpg when that is empty |
| Upload.StoredFormatSpec | middlewares/upload.js:13 | the stored format is never empty and holds no '.'. It is jpg when there is no extension or only a bare '.', and otherwise the lowercased extension after its dot |
| Upload.AcceptedFormat | middlewares/upload.js:13 | an accepted file is stored in one of the allowed formats: the compared extension without its dot |
| Upload.FirstInadmissible | middlewares/upload.js:36-49 | the first file that exceeds the count, uses another field, is refused by the filter or is too large |
| Upload.ReceiveFrom | middlewares/upload.js:36-49 | multer's per-file checks from position i on: count, field, filter, size |
| Upload.ReceiveFromSpec | middlewares/upload.js:36-49 | receiving stops at the first file that does not get through, and reports that file's refusal |
| Upload.ReceiveSpec | middlewares/upload.js:36-49 | the files get through exactly when there are at most 4, all in the images field, all accepted by the filter and none over 100 MiB. They are kept in upload order; otherwise the first failing file decides the error |
| Upload.HandleUploadError | middlewares/upload.js:52-65 | `handleMulterError`: size, count, other library error, other error with a message, else pass on |
| Upload.HandleUploadErrorSpec | middlewares/upload.js:52-65 | every library error gets 400: size and count each have their own answer, and any other code carries the library message. Another error gets 400 with its message when it has one, and is passed on otherwise |
| Upload.RefusedUploadAnswered400 | middlewares/upload.js:49-65 | every refused upload is answered with 400; too many files, the first four admissible, gives the count answer |

## Left out

- Persistence: MongoDB queries, `populate`, `countDocuments`, the `createdAt` sort and the index on status. The database's answer to a list query is a parameter `listing`: ids of stored documents in the database's order, whose length is the count.
- ProductSpec.GetProducts: the regular-expression name search is not interpreted. It is part of how the `listing` parameter was chosen.
- Concurrency: each handler is one sequential step. The two writes of createOrder keep their order, product then order. Races between requests and crashes between two writes are not modelled.
- Number coercion: `Number`, `parseFloat`, `NaN`, floating-point prices and a malformed id (`CastError`) are not modelled. Prices, counts, page and limit are integers, and "present in the payload" is an `Option`.
- A body `images` field is an image list; how a form string is cast to an array is not modelled. On create the uploaded paths always replace it, as the controller does before building the document.
- Image storage: Cloudinary is not modelled, and neither are multer's streaming internals nor the `console.log` lines. The time-and-random public id is the `publicId` parameter of `Upload.Params`.
- Upload.ReceiveFrom: the order in which multer applies its checks to one file is fixed here: count, then field, then filter, then size. Multer's own order is not part of this model.
- Routing and authentication are not part of this model; whether the caller is an admin is the `isAdmin` input of `ProductSpec.GetProductById`.
- Response bodies: the Vietnamese messages and the JSON envelope are not modelled. A reply is a status code and an error kind, and the filter's message is an English paraphrase.
- ProductModel.TextOk: `maxlength` counts UTF-16 code units, while the model counts Unicode scalar values, so a name with characters outside the Basic Multilingual Plane is measured shorter than Mongoose measures it.
- Text.ToLower: lowers ASCII letters only, where JavaScript's `toLowerCase` lowers all of Unicode. Characters are Unicode scalar values, not UTF-16 code units.
- `getStatusLabel` with a status such as "constructor" would read an inherited property of the label object. Here any other string is returned unchanged.
- Whole-document validation on `save` is modelled for every write. `findByIdAndUpdate` runs only the validators of the patched paths, before its lookup. On valid stores the two agree, which `ProductModel.MergePreservesValid` states.
- getProducts, getProductById, getOrders and getOrderById change nothing, so they are functions rather than methods.
- The documents' `createdAt`/`updatedAt` timestamps are not modelled.
- Nothing in the code enforces the documented rule discountedPrice ≤ originalPrice, on create or on update; the model follows the code (see Findings).
- The documented effective price is "discountedPrice if set". The code uses `discountedPrice || originalPrice`, so a discount of 0 falls back to the original price; `OrderSpec.ExpectedPrice` follows the code.

## Findings

| source | as written | input that shows it | evidently intended | confidence | as-written member | corrected member |
|---|---|---|---|---|---|---|
| controllers/orderController.js:11-60 | The required-fields test runs on the untrimmed strings. The schema trims them, and the order is written only after the product write has reserved the boxes | fullName " " on an order that passes every other check: the reply is 400 and no order exists, but stock has dropped by boxCount | a refused order leaves the inventory unchanged, for example by validating the order before the product write | not executed | OrderSpec.BlankFieldKeepsReservation | OrderSpec.CreateOrderCheckedFailureUnchanged |
| controllers/productController.js:74-79 | The price check compares only the prices in the payload | a product with originalPrice 100 and an update carrying only discountedPrice 101: the update succeeds and stores a discount above the original price | the discount is checked against the original price the product has after the update | not executed | ProductSpec.StoredDiscountNotChecked | ProductSpec.UpdateProductCheckedKeepsDiscount |
