/** The exceptions the service throws, as values (the classes under exception/). */
module Errors {

  datatype Error =
    | UserMileageNotFound(userId: int)      // UserMileageNotFoundException
    | ChargeRequestNotFound(requestId: int) // ChargeRequestNotFoundException
    | InsufficientMileage(userId: int)      // InsufficientMileageException
}
