# Mileage server core, modelled in Dafny

The mileage server keeps one mileage record per user. Each record holds two
buckets: `mileage`, the annual bucket granted by the batch jobs, and
`personalChargedMileage`, the bucket meant for approved top-ups. Users submit
charge requests, which an administrator approves or rejects. Two scheduled jobs
grant mileage to everyone. One resets the annual bucket to 1,000,000; the other
adds 10,000 per whole year of tenure. Charge requests can be searched with
optional filters, a sort option and a page window.

The model has these modules:

- `Service.MileageServiceImpl` (service.dfy) is a class. Its field `ledgers: map<int, Mileage>`
  stands for the mileage repository. Its field `requests: seq<ChargeRequest>` stands for
  the charge-request repository: the request with id k+1 sits at index k. Each service
  operation is a method that updates these fields the way the Kotlin code updates its
  managed entities. Thrown exceptions become `Err` results, and every error path
  leaves both stores unchanged. The two batch jobs are `while` loops over the user ids.
- `MileageLedger` (mileage.dfy) holds the record `Mileage` and the pure per-record
  updates that specify the methods: consume, credit to the annual bucket, annual reset
  and tenure accrual. It also has the store-wide forms of the two jobs and their lemmas.
- `Approval` (approval.dfy) is the toggle of `processMileageRechargeRequest` as a pure
  step `(status, approve) -> (new status, delta)`. `Run` folds the step over a series
  of calls.
- `ChargeRequestQuery` (query.dfy) is the search. The BooleanBuilder's conjuncts become
  a `seq<Condition>`. The ORDER BY is an insertion sort keyed by `getSortOption`, and
  OFFSET/LIMIT becomes `Slice`. `PageTotal` is the total that Spring Data's `PageImpl`
  constructor reports: with a non-empty page whose window reaches past the total it
  is given, it reports offset + the number of records on the page instead.
- `Dates` (dates.dfy) holds dates as (year, month, day) triples and models
  `Period.between(...).years`. `StartOfDay` maps a day number to a timestamp in seconds.
- `RequestStatus`, `SortOptions` and `Ascii` are the two enums and their `fromString`
  parsers, which upper-case their input. `SortOptions.SortOptionParameter` is how the
  listing's `sortOption` request parameter is bound instead: Spring's enum conversion
  trims the text and calls `valueOf`, so it is case-sensitive.

Clock reads are parameters: `today` is a `Date`, and `now` and `requestDate` are
timestamps in seconds.

## Code versus its tests

The model follows the code where the code differs from its tests. Each difference is
shown by a member:

- Processing a charge request moves `mileage`, the annual bucket, at
  MileageServiceImpl.kt:186. The tests expect `personalChargedMileage` to move
  instead. This shows in `Service.MileageServiceImpl.ProcessMileageRechargeRequest`,
  `Service.RechargeApprovalScenario` and `Service.RepeatApprovalScenario`.
- Rejecting a REQUESTED request fails the guard at MileageServiceImpl.kt:179, so the
  request stays REQUESTED. The tests expect REJECTED. See
  `Approval.StepAgreesWithExpectedExceptRequestedReject` and
  `Service.RejectRequestedScenario`. `Approval.ExpectedStep` is the tests' table.
- `createMileage` does not check for an existing record, and `save` on an existing id
  overwrites it, so `UserMileageAlreadyExistsException` is never thrown. See
  `Service.CreateTwiceScenario`.
- `requestMileageRecharge` never looks up the user's record, so a request for an
  unknown user is stored. See `Service.RechargeUnknownUserScenario`.
- The reject path subtracts without a balance check, so a bucket can go negative.
  See `MileageLedger.RejectAfterSpendingGoesNegative`. Non-negativity is proved only
  for consume, refund and the batch jobs.
- `Mileage.kt` declares no `joinDate`, but the service writes and reads one and the
  tests construct it, so the model's record has it.

## Model

| member | source | states |
|---|---|---|
| Ascii.Upper | src/main/kotlin/kea/dpang/mileage/entity/ChargeRequestStatus.kt:14 | upper-casing keeps the length and maps each character to its ASCII capital |
| RequestStatus.ValueOf | src/main/kotlin/kea/dpang/mileage/entity/ChargeRequestStatus.kt:14 | valueOf gives status st exactly when the text is st's name, case-sensitively, and None (it throws) exactly when no name matches |
| RequestStatus.FromString | src/main/kotlin/kea/dpang/mileage/entity/ChargeRequestStatus.kt:13-15 | gives status st exactly when upper-case(s) is st's name, and None (valueOf throws) exactly when no name matches |
| RequestStatus.ExactlyThreeStatuses | src/main/kotlin/kea/dpang/mileage/entity/ChargeRequestStatus.kt:5-8 | every status is REQUESTED, APPROVED or REJECTED, and those are three distinct values |
| RequestStatus.FromStringName | src/main/kotlin/kea/dpang/mileage/entity/ChargeRequestStatus.kt:13-15 | round trip: parsing a status's name gives the status back |
| RequestStatus.FromStringIgnoresCase | src/main/kotlin/kea/dpang/mileage/entity/ChargeRequestStatus.kt:13-15 | strings equal up to case parse to the same result |
| RequestStatus.FromStringMixedCase | src/main/kotlin/kea/dpang/mileage/entity/ChargeRequestStatus.kt:13-15 | "approved" and "Approved" both give APPROVED |
| SortOptions.ValueOf | src/main/kotlin/kea/dpang/mileage/dto/SortOption.kt:15 | valueOf gives option o exactly when the text is o's name, case-sensitively, and None (it throws) exactly when no name matches |
| SortOptions.FromString | src/main/kotlin/kea/dpang/mileage/dto/SortOption.kt:14-16 | gives option o exactly when upper-case(s) is o's name, and None exactly when no name matches |
| SortOptions.ExactlyFourOptions | src/main/kotlin/kea/dpang/mileage/dto/SortOption.kt:5-9 | every option is one of the four, and the four are distinct |
| SortOptions.FromStringName | src/main/kotlin/kea/dpang/mileage/dto/SortOption.kt:14-16 | round trip: parsing an option's name gives the option back |
| SortOptions.SortOptionParameter | src/main/kotlin/kea/dpang/mileage/controller/MileageControllerImpl.kt:135 | a missing or empty sortOption parameter gives the default RECENT; any other text binds to option o exactly when the trimmed text is o's name, case-sensitively |
| SortOptions.SortOptionParameterName | src/main/kotlin/kea/dpang/mileage/controller/MileageControllerImpl.kt:135 | each option's own name binds to that option |
| SortOptions.SortOptionParameterExamples | src/main/kotlin/kea/dpang/mileage/controller/MileageControllerImpl.kt:135 | " OLDEST " binds to OLDEST, "oldest" fails to bind, and "" takes the default RECENT |
| Dates.PeriodYears | src/main/kotlin/kea/dpang/mileage/service/MileageServiceImpl.kt:217 | Period.between(joinDate, today).years is never negative for a join date on or before today, and never positive for a join date on or after it |
| Dates.PeriodYearsIsWholeYears | src/main/kotlin/kea/dpang/mileage/service/MileageServiceImpl.kt:217 | for joinDate on or before today, Period.between(...).years is (y2-y1) minus 1 if (m2,d2) < (m1,d1), and is never negative |
| Dates.UnderOneYearIsZero | src/main/kotlin/kea/dpang/mileage/service/MileageServiceImpl.kt:217 | under one year of tenure counts as 0 years |
| Dates.AnniversaryTenure | src/main/kotlin/kea/dpang/mileage/service/MileageServiceImpl.kt:217 | on the n-th anniversary of the join date the tenure is n |
| Approval.Changes | src/main/kotlin/kea/dpang/mileage/service/MileageServiceImpl.kt:179 | the guard lets a call through exactly when it would change whether the request's amount is credited |
| Approval.Step | src/main/kotlin/kea/dpang/mileage/service/MileageServiceImpl.kt:178-189 | after a call the request is APPROVED exactly when approve was asked; rejecting a REQUESTED request leaves it REQUESTED with no delta, since the guard does not let it through; the balance delta keeps the credited amount equal to requestedMileage if APPROVED and 0 otherwise; no status change means no delta; nothing returns to REQUESTED |
| Approval.StepIdempotent | src/main/kotlin/kea/dpang/mileage/service/MileageServiceImpl.kt:179 | repeating a call with the same flag changes neither status nor balance |
| Approval.Run | src/main/kotlin/kea/dpang/mileage/service/MileageServiceImpl.kt:173-194 | over any series of calls, the sum of deltas is the change in credited amount, and the final status is APPROVED exactly when the last flag was approve |
| Approval.RunFromRequested | src/main/kotlin/kea/dpang/mileage/service/MileageServiceImpl.kt:173-194 | from a fresh request, the total delta equals requestedMileage if the request ends APPROVED and 0 otherwise |
| Approval.RunAppend | src/main/kotlin/kea/dpang/mileage/service/MileageServiceImpl.kt:173-194 | a series of calls split in two composes: statuses chain and deltas add |
| Approval.ApproveThenRejectNetsZero | src/main/kotlin/kea/dpang/mileage/service/MileageServiceImpl.kt:179-189 | from a request not yet approved, approve then reject ends REJECTED with net delta 0 |
| Approval.ToggleExample | src/test/kotlin/kea/dpang/mileage/service/MileageServiceImplUnitTest.kt:232-274 | approve, approve, reject, approve on 1000 gives APPROVED/+1000, APPROVED/+1000, REJECTED/0, APPROVED/+1000 |
| Approval.ExpectedStep | src/test/kotlin/kea/dpang/mileage/service/MileageServiceImplUnitTest.kt:210-274 | the tests' table: the status is APPROVED or REJECTED as asked, and the delta keeps the credited amount in line |
| Approval.StepAgreesWithExpectedExceptRequestedReject | src/main/kotlin/kea/dpang/mileage/service/MileageServiceImpl.kt:179 | the code's step equals the tests' table exactly except on rejecting a REQUESTED request, which stays REQUESTED |
| MileageLedger.Consume | src/main/kotlin/kea/dpang/mileage/service/MileageServiceImpl.kt:73-91 | fails InsufficientMileage exactly when amount > both buckets together; otherwise the total falls by amount, the annual bucket is spent first and the personal one takes the shortfall, and non-negative buckets stay non-negative |
| MileageLedger.ConsumeExamples | src/test/kotlin/kea/dpang/mileage/service/MileageServiceImplUnitTest.kt:123-153 | from (1000, 500): 2000 is refused, 1200 gives (0, 300), 800 gives (200, 500) |
| MileageLedger.CreditAnnual | src/main/kotlin/kea/dpang/mileage/service/MileageServiceImpl.kt:103 | the total rises by amount, and the personal bucket, user and join date are unchanged; a non-negative amount keeps a non-negative record non-negative |
| MileageLedger.RefundThenConsume | src/main/kotlin/kea/dpang/mileage/service/MileageServiceImpl.kt:74-103 | after a refund, consuming the same amount succeeds and restores the total |
| MileageLedger.ChargeAnnual | src/main/kotlin/kea/dpang/mileage/service/MileageServiceImpl.kt:202 | the annual bucket becomes exactly 1,000,000 and the rest of the record is unchanged |
| MileageLedger.ChargeTenure | src/main/kotlin/kea/dpang/mileage/service/MileageServiceImpl.kt:217-223 | the annual bucket grows by 10,000 times Period.between(joinDate, today).years; nothing else changes |
| MileageLedger.ChargeTenureWholeYears | src/main/kotlin/kea/dpang/mileage/service/MileageServiceImpl.kt:217-223 | for joinDate on or before today, the accrual is 10,000 per whole year and keeps the record non-negative |
| MileageLedger.ChargeTenureExamples | src/test/kotlin/kea/dpang/mileage/service/MileageServiceImplUnitTest.kt:295-312 | joined one and two years ago, an empty annual bucket receives 10,000 and 20,000 |
| MileageLedger.ChargeAnnualAll | src/main/kotlin/kea/dpang/mileage/service/MileageServiceImpl.kt:196-205 | every user keeps a record, each annual bucket is 1,000,000 and everything else is unchanged |
| MileageLedger.ChargeAnnualAllIdempotent | src/main/kotlin/kea/dpang/mileage/service/MileageServiceImpl.kt:196-205 | running the annual job twice equals running it once |
| MileageLedger.ChargeAnnualAllNonNegative | src/main/kotlin/kea/dpang/mileage/service/MileageServiceImpl.kt:196-205 | the annual job keeps every record non-negative |
| MileageLedger.ChargeTenureAll | src/main/kotlin/kea/dpang/mileage/service/MileageServiceImpl.kt:207-226 | every user keeps a record, and each annual bucket grows by that user's tenure mileage |
| MileageLedger.ChargeTenureAllNonNegative | src/main/kotlin/kea/dpang/mileage/service/MileageServiceImpl.kt:207-226 | when no join date is after today, the quarterly job keeps every record non-negative |
| MileageLedger.ChargeTenureAllTwice | src/main/kotlin/kea/dpang/mileage/service/MileageServiceImpl.kt:207-226 | the quarterly job is additive: twice on one day adds the tenure mileage twice |
| MileageLedger.ChargeTenureAllNotIdempotent | src/main/kotlin/kea/dpang/mileage/service/MileageServiceImpl.kt:207-226 | a user with two years' tenure is charged again on a second run, so the job is not idempotent |
| MileageLedger.RejectAfterSpendingGoesNegative | src/main/kotlin/kea/dpang/mileage/service/MileageServiceImpl.kt:186 | from an empty record, approve a request of any positive amount, spend that amount and reject, with Step's own deltas: the annual bucket ends at minus the amount |
| ChargeRequestQuery.DateConditions | src/main/kotlin/kea/dpang/mileage/service/MileageServiceImpl.kt:139-148 | both bounds give an inclusive range, a lone lower bound is strict "after" and a lone upper bound strict "before"; no bound imposes nothing |
| ChargeRequestQuery.Conditions | src/main/kotlin/kea/dpang/mileage/service/MileageServiceImpl.kt:132-151 | the accumulated conjuncts match a record exactly when each given userId, status and depositorName is equal and the date bounds hold as DateConditions says |
| ChargeRequestQuery.NoConditionMatchesAll | src/main/kotlin/kea/dpang/mileage/repository/ChargeRequestRepositoryImpl.kt:50-69 | with every filter absent, every record matches |
| ChargeRequestQuery.RepositoryConditions | src/main/kotlin/kea/dpang/mileage/repository/ChargeRequestRepositoryImpl.kt:50-69 | the repository's builder matches exactly when each given userId, status and depositorName is equal and, with both dates, startDate 00:00 <= requestDate <= (endDate+1) 00:00; with only startDate, strictly after its 00:00; with only endDate, strictly before (endDate+1) 00:00 |
| ChargeRequestQuery.Select | src/main/kotlin/kea/dpang/mileage/repository/ChargeRequestRepositoryImpl.kt:72-74 | the WHERE keeps every matching record as often as it occurs in the store, and nothing else |
| ChargeRequestQuery.GetSortOption | src/main/kotlin/kea/dpang/mileage/repository/ChargeRequestRepositoryImpl.kt:89-97 | RECENT and OLDEST order by requestDate, the other two by requestedMileage; RECENT and MILEAGE_DESC descend, the other two ascend |
| ChargeRequestQuery.SortOptionMeaning | src/main/kotlin/kea/dpang/mileage/repository/ChargeRequestRepositoryImpl.kt:89-97 | RECENT sorts by requestDate descending, OLDEST by requestDate ascending, MILEAGE_ASC and MILEAGE_DESC by requestedMileage ascending and descending |
| ChargeRequestQuery.OrderBy | src/main/kotlin/kea/dpang/mileage/repository/ChargeRequestRepositoryImpl.kt:77 | the ORDER BY result is sorted under the specifier and is a permutation of its input |
| ChargeRequestQuery.Slice | src/main/kotlin/kea/dpang/mileage/repository/ChargeRequestRepositoryImpl.kt:75-76 | the page holds at most pageSize elements, exactly those from position offset on |
| ChargeRequestQuery.PageTotalOfWindow | src/main/kotlin/kea/dpang/mileage/repository/ChargeRequestRepositoryImpl.kt:80 | for a window of the ordered matches, PageImpl's total is 0 for an empty page and offset + the number of records on the page otherwise, and it equals the number of matches exactly when there are none or the window reaches the last one |
| ChargeRequestQuery.GetRechargeMileageRequests | src/main/kotlin/kea/dpang/mileage/repository/ChargeRequestRepositoryImpl.kt:37-81 | the page is exactly the window [offset, offset + pageSize) of the matches in the option's order, so it has at most pageSize records, each from the store and matching the filter, and is sorted; the reported total is PageImpl's: 0 for an empty page, otherwise offset + the number of records on the page, which is the true number of matches only when the window reaches the last match |
| Service.MileageServiceImpl.CreateMileage | src/main/kotlin/kea/dpang/mileage/service/MileageServiceImpl.kt:37-47 | stores and returns a record with both buckets 0 and joinDate = today, replacing any existing one; charge requests are untouched |
| Service.MileageServiceImpl.GetMileage | src/main/kotlin/kea/dpang/mileage/service/MileageServiceImpl.kt:49-55 | returns the stored record exactly when there is one, and fails UserMileageNotFound otherwise |
| Service.MileageServiceImpl.DeleteMileage | src/main/kotlin/kea/dpang/mileage/service/MileageServiceImpl.kt:57-65 | removes exactly that user's record, or fails UserMileageNotFound and changes nothing |
| Service.MileageServiceImpl.ConsumeMileage | src/main/kotlin/kea/dpang/mileage/service/MileageServiceImpl.kt:67-95 | fails UserMileageNotFound or InsufficientMileage with nothing changed; otherwise only that user's record changes, as Consume says |
| Service.MileageServiceImpl.RefundMileage | src/main/kotlin/kea/dpang/mileage/service/MileageServiceImpl.kt:97-104 | fails UserMileageNotFound with nothing changed; otherwise only that user's annual bucket grows by amount |
| Service.MileageServiceImpl.RequestMileageRecharge | src/main/kotlin/kea/dpang/mileage/service/MileageServiceImpl.kt:106-118 | appends and returns a REQUESTED request with the given user, amount and depositor, dated now, with the next id; no record is read or changed |
| Service.MileageServiceImpl.GetRechargeMileageRequests | src/main/kotlin/kea/dpang/mileage/service/MileageServiceImpl.kt:120-171 | returns exactly the matching requests, each as often as stored, sorted by the option |
| Service.MileageServiceImpl.ProcessMileageRechargeRequest | src/main/kotlin/kea/dpang/mileage/service/MileageServiceImpl.kt:173-194 | fails ChargeRequestNotFound for an unknown id; with no toggle, returns the request and changes nothing; on a toggle, fails UserMileageNotFound with nothing changed, or sets the status from Step and moves the annual bucket by Step's delta |
| Service.MileageServiceImpl.ChargeAnnualMileage | src/main/kotlin/kea/dpang/mileage/service/MileageServiceImpl.kt:196-205 | the loop over all records leaves exactly the store-wide annual reset; charge requests are untouched |
| Service.MileageServiceImpl.ChargeQuarterlyMileageBasedOnTenure | src/main/kotlin/kea/dpang/mileage/service/MileageServiceImpl.kt:207-226 | the loop over all records leaves exactly the store-wide tenure accrual; charge requests are untouched |
| Service.CreateGetDeleteScenario | src/test/kotlin/kea/dpang/mileage/service/MileageServiceImplIntegrationTest.kt:43-59 | create gives (0, 0, today), get returns it, and get after delete fails UserMileageNotFound |
| Service.CreateTwiceScenario | src/test/kotlin/kea/dpang/mileage/service/MileageServiceImplUnitTest.kt:50-57 | a second create does not fail; it replaces the record with an empty one |
| Service.RechargeApprovalScenario | src/test/kotlin/kea/dpang/mileage/service/MileageServiceImplIntegrationTest.kt:63-81 | approving a 10,000 request makes it APPROVED and leaves the record at annual 10,000 and personal 0 |
| Service.RepeatApprovalScenario | src/test/kotlin/kea/dpang/mileage/service/MileageServiceImplIntegrationTest.kt:112-134 | a second approval returns the same request, and 10,000 is credited once |
| Service.RejectRequestedScenario | src/test/kotlin/kea/dpang/mileage/service/MileageServiceImplIntegrationTest.kt:94-108 | rejecting a fresh request leaves it REQUESTED |
| Service.RechargeUnknownUserScenario | src/test/kotlin/kea/dpang/mileage/service/MileageServiceImplIntegrationTest.kt:85-90 | a recharge request for user -1, who has no record, is stored as REQUESTED |

## Left out

- HTTP layer, authorization rules, the exception handler's status mapping, Swagger annotations and logging: none of them affects the stored state.
- The remote user lookup (UserFeignClient.kt) and the enriched ChargeRequestDetailDTO.kt: they need a remote call.
- The field-copying DTOs and the JPA repository interfaces: the model's map and sequence stand in for the repositories.
- Transactions, locking and the @UpdateTimestamp `updatedAt` field: the model is single-threaded, and each method changes nothing on an error path, as a rollback would.
- Clock reads: `LocalDate.now()` and `LocalDateTime.now()` are the parameters `today` and `now`.
- Ascii.Upper: only ASCII letters are upper-cased. Kotlin's full Unicode mapping (for example 'ſ' to 'S') is not modelled.
- Kotlin's 32-bit `Int` wrap-around: balances, amounts and tenure mileage are unbounded integers.
- Service.MileageServiceImpl.RequestMileageRecharge: the `@Min(0)` constraint on `requestedMileage` is a precondition. The model does not include a failing persist for a negative amount.
- ChargeRequestQuery.OrderBy: the order of requests with equal sort keys is the database's choice. The model uses one valid order. `OrderBy` and the service's unpaged search promise only sortedness and permutation, but the repository page is a window of the model's own order: when sort keys tie across a page boundary, the database may put other tied requests on the page.
- Pageable: only its offset and page size are modelled; a Page's page number and size metadata are not.
- Dates.ValidDate only checks the month and day ranges, not month lengths or leap years. Period.between's day remainder is not modelled, because only `.years` is used.
- The signatures in MileageService.kt and the controller call disagree with the implementation; the implementation's bodies are modelled.
