/** A top-up request (entity/ChargeRequest.kt), with the request date as a
    timestamp in seconds. */
module ChargeRequests {
  import opened RequestStatus

  datatype ChargeRequest = ChargeRequest(
    userId: int,
    status: ChargeRequestStatus,
    requestDate: int,
    depositorName: string,
    requestedMileage: int,
    id: int)
}
