/** Values shared by every module: optional values, and the outcome of a service
    call, which either yields a value or fails with one of the HTTP errors the
    service throws. */
module Common {

  /** A value that may be absent (`undefined` / `null` in the service). */
  datatype Option<+T> = None | Some(value: T)

  /** Why a call was refused with 400 Bad Request. One constructor per distinct
      message the service throws, in the order the service can throw them. */
  datatype Reason =
    | InvalidMonth        // listByMonth: the argument is not "YYYY-MM"
    | InvalidStartAt      // createAdmin: startAt does not parse to an instant
    | InvalidEndAt        // createAdmin: endAt was given but does not parse
    | TitleRequired       // createAdmin: the trimmed title is empty
    | InvalidCapacity     // createAdmin: capacity is not finite or not > 0
    | InvalidPrice        // createAdmin: priceArs is not finite or is < 0
    | EventUnavailable    // reserve: the event is not PUBLISHED
    | UserNameRequired    // reserve: the trimmed userName is empty
    | NoSeatsLeft         // reserve: the RESERVED count has reached capacity

  /** The two exception kinds the service throws. */
  datatype Failure = BadRequest(reason: Reason) | NotFound

  /** The outcome of a service call: its value, or the exception it throws. */
  datatype Result<+T> = Ok(value: T) | Err(error: Failure)
}
