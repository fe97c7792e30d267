/** The approval toggle of processMileageRechargeRequest as a pure step
    (status, approve) -> (new status, balance delta). */
module Approval {
  import opened RequestStatus

  datatype Outcome = Outcome(status: ChargeRequestStatus, delta: int)

  /** The guard at MileageServiceImpl.kt:179: the request is touched only when
      the wanted outcome differs from "is currently APPROVED", that is, exactly
      when the call would change whether the request's amount is credited. */
  predicate Changes(status: ChargeRequestStatus, approve: bool): (c: bool)
    ensures c <==> forall m :: m != 0 ==>
      Credited(status, m) != Credited(if approve then APPROVED else REJECTED, m)
  {
    var target := if approve then APPROVED else REJECTED;
    assert Credited(status, 1) != Credited(target, 1) <==> approve != (status == APPROVED);
    approve != (status == APPROVED)
  }

  /** What the balance holds on account of a request in this status. */
  function Credited(status: ChargeRequestStatus, requestedMileage: int): int {
    if status == APPROVED then requestedMileage else 0
  }

  /** One call of processMileageRechargeRequest, as written. */
  function Step(status: ChargeRequestStatus, approve: bool, requestedMileage: int): (o: Outcome)
    // the request ends APPROVED exactly when approval was asked for
    ensures o.status == APPROVED <==> approve
    // the balance moves by exactly what keeps it in line with the recorded status
    ensures Credited(o.status, requestedMileage) == Credited(status, requestedMileage) + o.delta
    // no status change, no balance change; and a request never goes back to REQUESTED
    ensures o.status == status ==> o.delta == 0
    ensures o.status == REQUESTED ==> status == REQUESTED
    // the guard lets no rejection of a REQUESTED request through
    ensures status == REQUESTED && !approve ==> o == Outcome(REQUESTED, 0)
  {
    if Changes(status, approve) then
      Outcome(if approve then APPROVED else REJECTED,
              if approve then requestedMileage else -requestedMileage)
    else
      Outcome(status, 0)
  }

  /** Repeating a call with the same flag changes nothing. */
  lemma StepIdempotent(status: ChargeRequestStatus, approve: bool, m: int)
    ensures Step(Step(status, approve, m).status, approve, m) == Outcome(Step(status, approve, m).status, 0)
  {
  }

  /** A series of calls with the given flags: the final status and the sum of
      the balance deltas. */
  function Run(status: ChargeRequestStatus, flags: seq<bool>, m: int): (o: Outcome)
    ensures Credited(o.status, m) == Credited(status, m) + o.delta
    ensures |flags| > 0 ==> (o.status == APPROVED <==> flags[|flags| - 1])
    decreases |flags|
  {
    if flags == [] then Outcome(status, 0)
    else
      var first := Step(status, flags[0], m);
      var rest := Run(first.status, flags[1..], m);
      assert |flags| > 1 ==> flags[1..][|flags[1..]| - 1] == flags[|flags| - 1];
      Outcome(rest.status, first.delta + rest.delta)
  }

  /** However many times a request is processed, the balance has moved by the
      requested amount if it ends APPROVED and by nothing otherwise, counting
      from an unprocessed request. */
  lemma RunFromRequested(flags: seq<bool>, m: int)
    ensures Run(REQUESTED, flags, m).delta == Credited(Run(REQUESTED, flags, m).status, m)
  {
  }

  /** Splitting a series of calls. */
  lemma {:induction false} RunAppend(status: ChargeRequestStatus, a: seq<bool>, b: seq<bool>, m: int)
    ensures Run(status, a + b, m).status == Run(Run(status, a, m).status, b, m).status
    ensures Run(status, a + b, m).delta == Run(status, a, m).delta + Run(Run(status, a, m).status, b, m).delta
    decreases |a|
  {
    if a == [] {
      assert a + b == b;
    } else {
      assert (a + b)[0] == a[0];
      assert (a + b)[1..] == a[1..] + b;
      RunAppend(Step(status, a[0], m).status, a[1..], b, m);
    }
  }

  /** Approve then reject, from a request not yet approved, nets zero. */
  lemma ApproveThenRejectNetsZero(status: ChargeRequestStatus, m: int)
    requires status != APPROVED
    ensures Run(status, [true, false], m) == Outcome(REJECTED, 0)
  {
  }

  /** The sequence approve, approve, reject, approve on a request of 1000. */
  lemma ToggleExample()
    ensures Run(REQUESTED, [true], 1000) == Outcome(APPROVED, 1000)
    ensures Run(REQUESTED, [true, true], 1000) == Outcome(APPROVED, 1000)
    ensures Run(REQUESTED, [true, true, false], 1000) == Outcome(REJECTED, 0)
    ensures Run(REQUESTED, [true, true, false, true], 1000) == Outcome(APPROVED, 1000)
  {
    RunAppend(REQUESTED, [true], [true], 1000);
    assert [true] + [true] == [true, true];
    RunAppend(REQUESTED, [true, true], [false], 1000);
    assert [true, true] + [false] == [true, true, false];
    RunAppend(REQUESTED, [true, true, false], [true], 1000);
    assert [true, true, false] + [true] == [true, true, false, true];
  }

  /** The table the tests expect (MileageServiceImplUnitTest.kt:221-228):
      rejecting a REQUESTED request makes it REJECTED. */
  function ExpectedStep(status: ChargeRequestStatus, approve: bool, requestedMileage: int): (o: Outcome)
    ensures o.status == (if approve then APPROVED else REJECTED)
    ensures Credited(o.status, requestedMileage) == Credited(status, requestedMileage) + o.delta
  {
    match (status, approve)
    case (APPROVED, true) => Outcome(APPROVED, 0)
    case (APPROVED, false) => Outcome(REJECTED, -requestedMileage)
    case (_, true) => Outcome(APPROVED, requestedMileage)
    case (_, false) => Outcome(REJECTED, 0)
  }

  /** The code agrees with the tests' table everywhere except on rejecting a
      REQUESTED request, where the guard keeps it REQUESTED. */
  lemma StepAgreesWithExpectedExceptRequestedReject(status: ChargeRequestStatus, approve: bool, m: int)
    ensures Step(status, approve, m) == ExpectedStep(status, approve, m)
        <==> !(status == REQUESTED && !approve)
    ensures status == REQUESTED && !approve ==> Step(status, approve, m) == Outcome(REQUESTED, 0)
  {
  }
}
