/** One user's mileage record (entity/Mileage.kt, plus the joinDate the service
    reads and writes) and the per-record updates the service performs on it. */
module MileageLedger {
  import opened Wrappers
  import opened Errors
  import Dates
  import RequestStatus
  import Approval

  /** `mileage` is the annual bucket, `personalChargedMileage` the personal one. */
  datatype Mileage = Mileage(userId: int, mileage: int, personalChargedMileage: int, joinDate: Dates.Date)

  const ANNUAL_MILEAGE := 1_000_000
  const MILEAGE_PER_TENURE_YEAR := 10_000

  function Total(m: Mileage): int {
    m.mileage + m.personalChargedMileage
  }

  predicate NonNegative(m: Mileage) {
    m.mileage >= 0 && m.personalChargedMileage >= 0
  }

  /** consumeMileage on a found record: reject when the amount exceeds the
      total, else spend the annual bucket first and the personal one after. */
  function Consume(m: Mileage, amount: int): (r: Result<Mileage, Error>)
    ensures r.Err? <==> amount > Total(m)
    ensures r.Err? ==> r.error == InsufficientMileage(m.userId)
    ensures r.Ok? ==> Total(r.value) == Total(m) - amount
    ensures r.Ok? ==> r.value.userId == m.userId && r.value.joinDate == m.joinDate
    ensures r.Ok? && amount <= m.mileage ==>
      r.value.mileage == m.mileage - amount && r.value.personalChargedMileage == m.personalChargedMileage
    ensures r.Ok? && amount > m.mileage ==>
      r.value.mileage == 0 && r.value.personalChargedMileage == m.personalChargedMileage - (amount - m.mileage)
    ensures r.Ok? && NonNegative(m) ==> NonNegative(r.value)
  {
    if amount > Total(m) then Err(InsufficientMileage(m.userId))
    else
      var remaining := m.mileage - amount;
      if remaining < 0 then
        Ok(m.(mileage := 0, personalChargedMileage := m.personalChargedMileage + remaining))
      else
        Ok(m.(mileage := remaining))
  }

  /** From annual 1000 and personal 500: 2000 is refused, 1200 empties the
      annual bucket and leaves 300 personal, 800 leaves 200 annual. */
  lemma ConsumeExamples(join: Dates.Date)
    ensures Consume(Mileage(1, 1000, 500, join), 2000) == Err(InsufficientMileage(1))
    ensures Consume(Mileage(1, 1000, 500, join), 1200) == Ok(Mileage(1, 0, 300, join))
    ensures Consume(Mileage(1, 1000, 500, join), 800) == Ok(Mileage(1, 200, 500, join))
  {
  }

  /** `mileage.mileage += amount`: the annual bucket takes refunds and, as the
      code is written, the deltas of charge-request processing too. */
  function CreditAnnual(m: Mileage, amount: int): (r: Mileage)
    ensures Total(r) == Total(m) + amount
    ensures r.personalChargedMileage == m.personalChargedMileage
    ensures r.userId == m.userId && r.joinDate == m.joinDate
    ensures amount >= 0 && NonNegative(m) ==> NonNegative(r)
  {
    m.(mileage := m.mileage + amount)
  }

  /** Refund then consume of the same amount restores the total. */
  lemma RefundThenConsume(m: Mileage, amount: int)
    requires amount >= 0 && NonNegative(m)
    ensures Consume(CreditAnnual(m, amount), amount).Ok?
    ensures Total(Consume(CreditAnnual(m, amount), amount).value) == Total(m)
  {
  }

  /** The annual job's update: the annual bucket is set, not added to. */
  function ChargeAnnual(m: Mileage): (r: Mileage)
    ensures r.mileage == ANNUAL_MILEAGE
    ensures r.personalChargedMileage == m.personalChargedMileage
    ensures r.userId == m.userId && r.joinDate == m.joinDate
    ensures NonNegative(m) ==> NonNegative(r)
  {
    m.(mileage := ANNUAL_MILEAGE)
  }

  /** Mileage earned by tenure on the given day (may be negative for a join
      date in the future, as Period.between is). */
  function TenureMileage(m: Mileage, today: Dates.Date): int {
    Dates.PeriodYears(m.joinDate, today) * MILEAGE_PER_TENURE_YEAR
  }

  /** The quarterly job's update: add 10,000 per whole year since joining. */
  function ChargeTenure(m: Mileage, today: Dates.Date): (r: Mileage)
    ensures r.mileage == m.mileage + TenureMileage(m, today)
    ensures r.personalChargedMileage == m.personalChargedMileage
    ensures r.userId == m.userId && r.joinDate == m.joinDate
  {
    CreditAnnual(m, TenureMileage(m, today))
  }

  /** For a join date on or before today the accrual is 10,000 times the whole
      years of tenure and keeps the record non-negative. */
  lemma ChargeTenureWholeYears(m: Mileage, today: Dates.Date)
    requires Dates.ValidDate(m.joinDate) && Dates.ValidDate(today)
    requires Dates.OnOrBefore(m.joinDate, today)
    ensures ChargeTenure(m, today).mileage
        == m.mileage + Dates.WholeYears(m.joinDate, today) * MILEAGE_PER_TENURE_YEAR
    ensures NonNegative(m) ==> NonNegative(ChargeTenure(m, today))
  {
    Dates.PeriodYearsIsWholeYears(m.joinDate, today);
  }

  /** One and two years after joining, an empty annual bucket receives
      10,000 and 20,000. */
  lemma ChargeTenureExamples(today: Dates.Date)
    requires Dates.ValidDate(today)
    ensures var joined1 := Dates.Date(today.year - 1, today.month, today.day);
      ChargeTenure(Mileage(1, 0, 20_000, joined1), today) == Mileage(1, 10_000, 20_000, joined1)
    ensures var joined2 := Dates.Date(today.year - 2, today.month, today.day);
      ChargeTenure(Mileage(2, 0, 300_000, joined2), today) == Mileage(2, 20_000, 300_000, joined2)
  {
    Dates.AnniversaryTenure(Dates.Date(today.year - 1, today.month, today.day), 1);
    Dates.AnniversaryTenure(Dates.Date(today.year - 2, today.month, today.day), 2);
  }

  // ---- the batch jobs over the whole store ----

  predicate AllNonNegative(ledgers: map<int, Mileage>) {
    forall u :: u in ledgers ==> NonNegative(ledgers[u])
  }

  predicate JoinedBy(ledgers: map<int, Mileage>, today: Dates.Date) {
    forall u :: u in ledgers ==>
      Dates.ValidDate(ledgers[u].joinDate) && Dates.OnOrBefore(ledgers[u].joinDate, today)
  }

  /** chargeAnnualMileage over every record. */
  function ChargeAnnualAll(ledgers: map<int, Mileage>): (r: map<int, Mileage>)
    ensures r.Keys == ledgers.Keys
    ensures forall u :: u in r ==> r[u].mileage == ANNUAL_MILEAGE
    ensures forall u :: u in r ==> r[u] == ledgers[u].(mileage := ANNUAL_MILEAGE)
  {
    map u | u in ledgers :: ChargeAnnual(ledgers[u])
  }

  /** Running the annual job twice is running it once. */
  lemma ChargeAnnualAllIdempotent(ledgers: map<int, Mileage>)
    ensures ChargeAnnualAll(ChargeAnnualAll(ledgers)) == ChargeAnnualAll(ledgers)
  {
  }

  /** The annual job keeps every record non-negative. */
  lemma ChargeAnnualAllNonNegative(ledgers: map<int, Mileage>)
    requires AllNonNegative(ledgers)
    ensures AllNonNegative(ChargeAnnualAll(ledgers))
  {
  }

  /** chargeQuarterlyMileageBasedOnTenure over every record. */
  function ChargeTenureAll(ledgers: map<int, Mileage>, today: Dates.Date): (r: map<int, Mileage>)
    ensures r.Keys == ledgers.Keys
    ensures forall u :: u in r ==>
      r[u] == ledgers[u].(mileage := ledgers[u].mileage + TenureMileage(ledgers[u], today))
  {
    map u | u in ledgers :: ChargeTenure(ledgers[u], today)
  }

  /** The quarterly job keeps every record non-negative when nobody's join
      date lies after today. */
  lemma ChargeTenureAllNonNegative(ledgers: map<int, Mileage>, today: Dates.Date)
    requires Dates.ValidDate(today)
    requires AllNonNegative(ledgers) && JoinedBy(ledgers, today)
    ensures AllNonNegative(ChargeTenureAll(ledgers, today))
  {
    forall u | u in ledgers
      ensures NonNegative(ChargeTenureAll(ledgers, today)[u])
    {
      ChargeTenureWholeYears(ledgers[u], today);
    }
  }

  /** The quarterly job is additive: running it twice on the same day adds the
      tenure mileage twice. */
  lemma ChargeTenureAllTwice(ledgers: map<int, Mileage>, today: Dates.Date)
    ensures ChargeTenureAll(ChargeTenureAll(ledgers, today), today).Keys == ledgers.Keys
    ensures forall u :: u in ledgers ==>
      ChargeTenureAll(ChargeTenureAll(ledgers, today), today)[u].mileage
        == ledgers[u].mileage + 2 * TenureMileage(ledgers[u], today)
  {
  }

  /** ... so it is not idempotent: a user of two years' tenure is charged again. */
  lemma ChargeTenureAllNotIdempotent(today: Dates.Date)
    requires Dates.ValidDate(today)
    ensures var ledgers := map[1 := Mileage(1, 0, 0, Dates.Date(today.year - 2, today.month, today.day))];
      ChargeTenureAll(ChargeTenureAll(ledgers, today), today) != ChargeTenureAll(ledgers, today)
  {
    var join := Dates.Date(today.year - 2, today.month, today.day);
    var ledgers := map[1 := Mileage(1, 0, 0, join)];
    Dates.AnniversaryTenure(join, 2);
    assert ChargeTenureAll(ledgers, today)[1].mileage == 20_000;
    assert ChargeTenureAll(ChargeTenureAll(ledgers, today), today)[1].mileage == 40_000;
  }

  /** As written, rejecting an approved request takes the amount back from the
      annual bucket without a balance check: approve a request, spend its
      amount, reject it, and the annual bucket ends at minus the amount. The
      deltas are the approval step's own. */
  lemma RejectAfterSpendingGoesNegative(m: Mileage, amount: int)
    requires m.mileage == 0 && m.personalChargedMileage == 0 && amount > 0
    ensures var approve := Approval.Step(RequestStatus.REQUESTED, true, amount);
      var approved := CreditAnnual(m, approve.delta);
      var spent := Consume(approved, amount);
      var reject := Approval.Step(approve.status, false, amount);
      && spent.Ok?
      && CreditAnnual(spent.value, reject.delta).mileage == -amount
      && !NonNegative(CreditAnnual(spent.value, reject.delta))
  {
  }
}
