/** MileageServiceImpl: the ledger store and the charge-request store as
    fields of one object, with each service operation as a method that
    updates them the way the source's repositories and managed entities do. */
module Service {
  import opened Wrappers
  import opened Errors
  import opened RequestStatus
  import opened SortOptions
  import opened ChargeRequests
  import opened MileageLedger
  import Approval
  import Dates
  import Query = ChargeRequestQuery

  class MileageServiceImpl {
    /** mileageRepository: one record per user id. */
    var ledgers: map<int, Mileage>
    /** chargeRequestRepository: the request with id k + 1 at index k (ids are
        assigned in order and requests are never deleted). */
    var requests: seq<ChargeRequest>

    ghost predicate Valid()
      reads this
    {
      && (forall u :: u in ledgers ==> ledgers[u].userId == u)
      && (forall k :: 0 <= k < |requests| ==> requests[k].id == k + 1 && requests[k].requestedMileage >= 0)
    }

    constructor ()
      ensures Valid()
      ensures ledgers == map[] && requests == []
    {
      ledgers := map[];
      requests := [];
    }

    /** createMileage: a fresh record with both buckets 0, joined today. The
        code does not check for an existing record, and save() on an existing
        id overwrites it. */
    method CreateMileage(userId: int, today: Dates.Date) returns (created: Mileage)
      requires Valid()
      modifies this
      ensures Valid()
      ensures created == Mileage(userId, 0, 0, today)
      ensures ledgers == old(ledgers)[userId := created]
      ensures requests == old(requests)
    {
      created := Mileage(userId, 0, 0, today);
      ledgers := ledgers[userId := created];
    }

    /** getMileage: the stored record, or NotFound. */
    method GetMileage(userId: int) returns (r: Result<Mileage, Error>)
      requires Valid()
      ensures r.Ok? <==> userId in ledgers
      ensures r.Ok? ==> r.value == ledgers[userId] && r.value.userId == userId
      ensures r.Err? ==> r.error == UserMileageNotFound(userId)
    {
      if userId in ledgers {
        r := Ok(ledgers[userId]);
      } else {
        r := Err(UserMileageNotFound(userId));
      }
    }

    /** deleteMileage: remove the record, or fail NotFound and change nothing. */
    method DeleteMileage(userId: int) returns (r: Result<(), Error>)
      requires Valid()
      modifies this
      ensures Valid()
      ensures r.Ok? <==> userId in old(ledgers)
      ensures r.Ok? ==> ledgers == old(ledgers) - {userId}
      ensures r.Err? ==> r.error == UserMileageNotFound(userId) && ledgers == old(ledgers)
      ensures requests == old(requests)
    {
      if userId in ledgers {
        ledgers := ledgers - {userId};
        r := Ok(());
      } else {
        r := Err(UserMileageNotFound(userId));
      }
    }

    /** consumeMileage: spend from the annual bucket first, then the personal
        one; on any failure nothing changes. */
    method ConsumeMileage(userId: int, amount: int) returns (r: Result<(), Error>)
      requires Valid()
      modifies this
      ensures Valid()
      ensures requests == old(requests)
      ensures userId !in old(ledgers) ==> r == Err(UserMileageNotFound(userId)) && ledgers == old(ledgers)
      ensures userId in old(ledgers) ==>
        var c := Consume(old(ledgers)[userId], amount);
        && (c.Err? ==> r == Err(c.error) && ledgers == old(ledgers))
        && (c.Ok? ==> r == Ok(()) && ledgers == old(ledgers)[userId := c.value])
    {
      if userId !in ledgers {
        return Err(UserMileageNotFound(userId));
      }
      var info := ledgers[userId];
      var totalMileage := info.mileage + info.personalChargedMileage;
      if amount > totalMileage {
        return Err(InsufficientMileage(userId));
      }
      var remaining := info.mileage - amount;
      if remaining < 0 {
        info := info.(mileage := 0);
        info := info.(personalChargedMileage := info.personalChargedMileage + remaining);
      } else {
        info := info.(mileage := remaining);
      }
      ledgers := ledgers[userId := info];
      r := Ok(());
    }

    /** refundMileage: the amount goes back to the annual bucket. */
    method RefundMileage(userId: int, amount: int) returns (r: Result<(), Error>)
      requires Valid()
      modifies this
      ensures Valid()
      ensures requests == old(requests)
      ensures userId !in old(ledgers) ==> r == Err(UserMileageNotFound(userId)) && ledgers == old(ledgers)
      ensures userId in old(ledgers) ==>
        r == Ok(()) && ledgers == old(ledgers)[userId := CreditAnnual(old(ledgers)[userId], amount)]
    {
      if userId !in ledgers {
        return Err(UserMileageNotFound(userId));
      }
      var info := ledgers[userId];
      info := info.(mileage := info.mileage + amount);
      ledgers := ledgers[userId := info];
      r := Ok(());
    }

    /** requestMileageRecharge: store a new REQUESTED request dated now. No
        ledger is read or changed, so an unknown user is accepted. */
    method RequestMileageRecharge(userId: int, amount: int, depositor: string, now: int)
      returns (saved: ChargeRequest)
      requires Valid()
      requires amount >= 0
      modifies this
      ensures Valid()
      ensures saved == ChargeRequest(userId, REQUESTED, now, depositor, amount, |old(requests)| + 1)
      ensures requests == old(requests) + [saved]
      ensures ledgers == old(ledgers)
    {
      saved := ChargeRequest(userId, REQUESTED, now, depositor, amount, |requests| + 1);
      requests := requests + [saved];
    }

    /** The service's own unpaged search: timestamps are compared as given,
        and the result holds exactly the matching requests, in the order of
        the sort option. */
    method GetRechargeMileageRequests(userId: Option<int>, status: Option<ChargeRequestStatus>,
                                      startDate: Option<int>, endDate: Option<int>,
                                      depositorName: Option<string>, sortOption: SortOption)
      returns (list: seq<ChargeRequest>)
      ensures Query.Sorted(Query.GetSortOption(sortOption), list)
      ensures forall x :: multiset(list)[x] ==
                          if Query.Matches(userId, status, startDate, endDate, depositorName, x)
                          then multiset(requests)[x] else 0
    {
      var builder := Query.Conditions(userId, status, startDate, endDate, depositorName);
      var matching := Query.Select(builder, requests);
      list := Query.OrderBy(Query.GetSortOption(sortOption), matching);
    }

    /** processMileageRechargeRequest: the toggle of Approval.Step. The ledger
        is looked up only when the status changes, and the delta goes to the
        annual bucket. */
    method ProcessMileageRechargeRequest(id: int, approve: bool) returns (r: Result<ChargeRequest, Error>)
      requires Valid()
      modifies this
      ensures Valid()
      ensures !(1 <= id <= |old(requests)|) ==>
        r == Err(ChargeRequestNotFound(id)) && ledgers == old(ledgers) && requests == old(requests)
      ensures 1 <= id <= |old(requests)| ==>
        var request := old(requests)[id - 1];
        var step := Approval.Step(request.status, approve, request.requestedMileage);
        if !Approval.Changes(request.status, approve) then
          r == Ok(request) && ledgers == old(ledgers) && requests == old(requests)
        else if request.userId !in old(ledgers) then
          r == Err(UserMileageNotFound(request.userId)) && ledgers == old(ledgers) && requests == old(requests)
        else
          && r == Ok(request.(status := step.status))
          && requests == old(requests)[id - 1 := r.value]
          && ledgers == old(ledgers)[request.userId := CreditAnnual(old(ledgers)[request.userId], step.delta)]
    {
      if !(1 <= id <= |requests|) {
        return Err(ChargeRequestNotFound(id));
      }
      var chargeRequest := requests[id - 1];
      if approve != (chargeRequest.status == APPROVED) {
        if chargeRequest.userId !in ledgers {
          return Err(UserMileageNotFound(chargeRequest.userId));
        }
        var mileage := ledgers[chargeRequest.userId];
        var requestedMileage := chargeRequest.requestedMileage;
        mileage := mileage.(mileage := mileage.mileage + if approve then requestedMileage else -requestedMileage);
        ledgers := ledgers[chargeRequest.userId := mileage];
        chargeRequest := chargeRequest.(status := if approve then APPROVED else REJECTED);
        requests := requests[id - 1 := chargeRequest];
      }
      r := Ok(chargeRequest);
    }

    /** chargeAnnualMileage: every record's annual bucket becomes 1,000,000. */
    method ChargeAnnualMileage()
      requires Valid()
      modifies this
      ensures Valid()
      ensures ledgers == ChargeAnnualAll(old(ledgers))
      ensures requests == old(requests)
    {
      ghost var before := ledgers;
      var pending := ledgers.Keys;
      while pending != {}
        invariant pending <= ledgers.Keys && ledgers.Keys == before.Keys
        invariant forall u :: u in ledgers ==>
          ledgers[u] == if u in pending then before[u] else ChargeAnnual(before[u])
        invariant requests == old(requests)
        decreases pending
      {
        NonEmptyHasElement(pending);
        var u :| u in pending;
        var mileage := ledgers[u];
        mileage := mileage.(mileage := ANNUAL_MILEAGE);
        ledgers := ledgers[u := mileage];
        pending := pending - {u};
      }
      assert forall u :: u in ledgers ==> ledgers[u] == ChargeAnnualAll(before)[u];
    }

    /** chargeQuarterlyMileageBasedOnTenure: every record's annual bucket grows
        by 10,000 per whole year between its join date and today. */
    method ChargeQuarterlyMileageBasedOnTenure(today: Dates.Date)
      requires Valid()
      modifies this
      ensures Valid()
      ensures ledgers == ChargeTenureAll(old(ledgers), today)
      ensures requests == old(requests)
    {
      ghost var before := ledgers;
      var pending := ledgers.Keys;
      while pending != {}
        invariant pending <= ledgers.Keys && ledgers.Keys == before.Keys
        invariant forall u :: u in ledgers ==>
          ledgers[u] == if u in pending then before[u] else ChargeTenure(before[u], today)
        invariant requests == old(requests)
        decreases pending
      {
        NonEmptyHasElement(pending);
        var u :| u in pending;
        var mileage := ledgers[u];
        var yearsOfTenure := Dates.PeriodYears(mileage.joinDate, today);
        var chargeMileage := yearsOfTenure * MILEAGE_PER_TENURE_YEAR;
        mileage := mileage.(mileage := mileage.mileage + chargeMileage);
        ledgers := ledgers[u := mileage];
        pending := pending - {u};
      }
      assert forall u :: u in ledgers ==> ledgers[u] == ChargeTenureAll(before, today)[u];
    }
  }

  /** A set without elements is the empty set. */
  lemma NoElementIsEmpty(s: set<int>)
    requires forall y :: y !in s
    ensures s == {}
  {
    assert forall y :: y in s <==> y in {};
  }

  /** A non-empty set has an element to pick. */
  lemma NonEmptyHasElement(s: set<int>)
    requires s != {}
    ensures exists u :: u in s
  {
    if forall y :: y !in s {
      NoElementIsEmpty(s);
    }
  }

  // ---- the integration tests' scenarios, replayed on the model as verified methods ----

  /** Create, get, delete, get (MileageServiceImplIntegrationTest.kt:43-59). */
  method CreateGetDeleteScenario(userId: int, today: Dates.Date)
    returns (created: Mileage, got: Result<Mileage, Error>, afterDelete: Result<Mileage, Error>)
    ensures created == Mileage(userId, 0, 0, today)
    ensures got == Ok(created)
    ensures afterDelete == Err(UserMileageNotFound(userId))
  {
    var service := new MileageServiceImpl();
    created := service.CreateMileage(userId, today);
    got := service.GetMileage(userId);
    var deleted := service.DeleteMileage(userId);
    afterDelete := service.GetMileage(userId);
  }

  /** Creating a record twice does not fail: the second call replaces the
      first, and what the user held is lost. */
  method CreateTwiceScenario(userId: int, today: Dates.Date)
    returns (second: Mileage, got: Result<Mileage, Error>)
    ensures second == Mileage(userId, 0, 0, today)
    ensures got == Ok(second)
  {
    var service := new MileageServiceImpl();
    var first := service.CreateMileage(userId, today);
    var refunded := service.RefundMileage(userId, 500);
    second := service.CreateMileage(userId, today);
    got := service.GetMileage(userId);
  }

  /** Request 10,000 and approve it (MileageServiceImplIntegrationTest.kt:63-81):
      the request is APPROVED, but the 10,000 lands in the annual bucket and
      the personal bucket stays 0. */
  method RechargeApprovalScenario(today: Dates.Date, now: int)
    returns (processed: Result<ChargeRequest, Error>, got: Result<Mileage, Error>)
    ensures processed.Ok? && processed.value.status == APPROVED
    ensures got == Ok(Mileage(1, 10000, 0, today))
  {
    var service := new MileageServiceImpl();
    var created := service.CreateMileage(1, today);
    var saved := service.RequestMileageRecharge(1, 10000, "depositor", now);
    processed := service.ProcessMileageRechargeRequest(saved.id, true);
    got := service.GetMileage(1);
  }

  /** Approve the same request twice (MileageServiceImplIntegrationTest.kt:112-134):
      the second call changes nothing, so 10,000 is credited once, to the
      annual bucket. */
  method RepeatApprovalScenario(today: Dates.Date, now: int)
    returns (first: Result<ChargeRequest, Error>, second: Result<ChargeRequest, Error>,
             got: Result<Mileage, Error>)
    ensures first.Ok? && first.value.status == APPROVED
    ensures second == first
    ensures got == Ok(Mileage(1, 10000, 0, today))
  {
    var service := new MileageServiceImpl();
    var created := service.CreateMileage(1, today);
    var saved := service.RequestMileageRecharge(1, 10000, "depositor", now);
    first := service.ProcessMileageRechargeRequest(saved.id, true);
    second := service.ProcessMileageRechargeRequest(saved.id, true);
    got := service.GetMileage(1);
  }

  /** Reject a fresh request (MileageServiceImplIntegrationTest.kt:94-108): the
      guard sees no change, so the request stays REQUESTED. */
  method RejectRequestedScenario(today: Dates.Date, now: int)
    returns (processed: Result<ChargeRequest, Error>)
    ensures processed.Ok? && processed.value.status == REQUESTED
  {
    var service := new MileageServiceImpl();
    var created := service.CreateMileage(1, today);
    var saved := service.RequestMileageRecharge(1, 10000, "depositor", now);
    processed := service.ProcessMileageRechargeRequest(saved.id, false);
  }

  /** A recharge request for a user with no record is stored
      (MileageServiceImplIntegrationTest.kt:84-90). */
  method RechargeUnknownUserScenario(now: int) returns (saved: ChargeRequest)
    ensures saved == ChargeRequest(-1, REQUESTED, now, "depositor", 10000, 1)
  {
    var service := new MileageServiceImpl();
    saved := service.RequestMileageRecharge(-1, 10000, "depositor", now);
  }
}
