/** The response of a handler: a status code and, on failure, what went wrong. */
module Http {

  datatype Error =
    | MissingFields          // a required order field is absent or falsy
    | InvalidPhone           // the phone is not 10 or 11 digits
    | InvalidBoxCount        // fewer than one box
    | ProductUnavailable     // no active product with that id
    | InsufficientStock      // fewer units in stock than boxes ordered
    | InvalidTotalPrice      // the total differs from the product's effective price
    | InvalidStatus          // a status outside the enum
    | OrderNotFound
    | ProductNotFound
    | ImagesRequired         // a product created without uploaded images
    | DiscountAboveOriginal  // both prices in an update, the discounted one higher
    | SaveRejected           // the database refused a write (validation or duplicate code)
    | ServerError            // an unexpected failure reported as 500

  datatype Reply = Success(code: int) | Failure(code: int, error: Error)
}
