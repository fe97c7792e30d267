/** The charge-request search: an AND of optional conditions, an ordering by
    sort option, then an offset/limit page (ChargeRequestRepositoryImpl.kt,
    and the unpaged copy in MileageServiceImpl.kt). */
module ChargeRequestQuery {
  import opened Wrappers
  import opened RequestStatus
  import opened SortOptions
  import opened ChargeRequests
  import Dates

  // ---- filtering ----

  /** One conjunct added to the BooleanBuilder. Timestamps are in seconds. */
  datatype Condition =
    | UserIdEq(userId: int)
    | StatusEq(status: ChargeRequestStatus)
    | Between(from: int, to: int)   // QueryDSL between: inclusive at both ends
    | After(t: int)                 // strictly later
    | Before(t: int)                // strictly earlier
    | DepositorNameEq(name: string)

  predicate Holds(c: Condition, r: ChargeRequest) {
    match c
    case UserIdEq(u) => r.userId == u
    case StatusEq(st) => r.status == st
    case Between(a, b) => a <= r.requestDate <= b
    case After(t) => r.requestDate > t
    case Before(t) => r.requestDate < t
    case DepositorNameEq(n) => r.depositorName == n
  }

  /** The builder's predicate: every accumulated conjunct holds (an empty
      builder matches everything). */
  predicate HoldsAll(cs: seq<Condition>, r: ChargeRequest) {
    forall i :: 0 <= i < |cs| ==> Holds(cs[i], r)
  }

  /** Both bounds give one `between`; otherwise each given bound is strict. */
  function DateConditions(from: Option<int>, to: Option<int>): (cs: seq<Condition>)
    ensures |cs| <= 2
    ensures forall r :: HoldsAll(cs, r) <==>
      && (from.Some? && to.Some? ==> from.value <= r.requestDate <= to.value)
      && (from.Some? && to.None? ==> r.requestDate > from.value)
      && (from.None? && to.Some? ==> r.requestDate < to.value)
  {
    var lower := if from.Some? then [After(from.value)] else [];
    var upper := if to.Some? then [Before(to.value)] else [];
    HoldsAllAtMostOne(lower);
    HoldsAllAtMostOne(upper);
    HoldsAllConcat(lower, upper);
    if from.Some? && to.Some? then
      HoldsAllAtMostOne([Between(from.value, to.value)]);
      [Between(from.value, to.value)]
    else lower + upper
  }

  /** The if-chain that fills the builder, with the bounds already turned
      into timestamps: the builder matches a record exactly when the
      declarative filter does. */
  function Conditions(userId: Option<int>, status: Option<ChargeRequestStatus>,
                      from: Option<int>, to: Option<int>, depositorName: Option<string>): (cs: seq<Condition>)
    ensures forall r :: HoldsAll(cs, r) <==> Matches(userId, status, from, to, depositorName, r)
  {
    var byUser := if userId.Some? then [UserIdEq(userId.value)] else [];
    var byStatus := if status.Some? then [StatusEq(status.value)] else [];
    var byDate := DateConditions(from, to);
    var byName := if depositorName.Some? then [DepositorNameEq(depositorName.value)] else [];
    HoldsAllAtMostOne(byUser);
    HoldsAllAtMostOne(byStatus);
    HoldsAllAtMostOne(byName);
    HoldsAllConcat(byUser, byStatus);
    HoldsAllConcat(byUser + byStatus, byDate);
    HoldsAllConcat(byUser + byStatus + byDate, byName);
    byUser + byStatus + byDate + byName
  }

  /** The declarative reading of the filter: each given field must match, an
      absent one imposes nothing. */
  predicate Matches(userId: Option<int>, status: Option<ChargeRequestStatus>,
                    from: Option<int>, to: Option<int>, depositorName: Option<string>,
                    r: ChargeRequest)
  {
    && (userId.Some? ==> r.userId == userId.value)
    && (status.Some? ==> r.status == status.value)
    && (from.Some? && to.Some? ==> from.value <= r.requestDate <= to.value)
    && (from.Some? && to.None? ==> r.requestDate > from.value)
    && (from.None? && to.Some? ==> r.requestDate < to.value)
    && (depositorName.Some? ==> r.depositorName == depositorName.value)
  }

  lemma HoldsAllAppend(a: seq<Condition>, b: seq<Condition>, r: ChargeRequest)
    ensures HoldsAll(a + b, r) <==> HoldsAll(a, r) && HoldsAll(b, r)
  {
    if HoldsAll(a, r) && HoldsAll(b, r) {
      forall i | 0 <= i < |a + b| ensures Holds((a + b)[i], r) {
        if i >= |a| { assert (a + b)[i] == b[i - |a|]; }
      }
    }
    if HoldsAll(a + b, r) {
      forall i | 0 <= i < |a| ensures Holds(a[i], r) {
        assert (a + b)[i] == a[i];
      }
      forall i | 0 <= i < |b| ensures Holds(b[i], r) {
        assert (a + b)[i + |a|] == b[i];
      }
    }
  }

  /** Appending conjuncts is conjunction, for every record. */
  lemma HoldsAllConcat(a: seq<Condition>, b: seq<Condition>)
    ensures forall r :: HoldsAll(a + b, r) <==> HoldsAll(a, r) && HoldsAll(b, r)
  {
    forall r ensures HoldsAll(a + b, r) <==> HoldsAll(a, r) && HoldsAll(b, r) {
      HoldsAllAppend(a, b, r);
    }
  }

  lemma HoldsAllAtMostOne(cs: seq<Condition>)
    requires |cs| <= 1
    ensures forall r :: HoldsAll(cs, r) <==> (|cs| == 1 ==> Holds(cs[0], r))
  {
  }

  /** With no condition given, every record matches. */
  lemma NoConditionMatchesAll(r: ChargeRequest)
    ensures HoldsAll(Conditions(None, None, None, None, None), r)
  {
  }

  /** The repository's conditions: dates are day numbers; the start bound is
      that day's midnight and the end bound the next day's midnight. With both
      dates the range is inclusive at both midnights; a lone date is strict. */
  function RepositoryConditions(userId: Option<int>, status: Option<ChargeRequestStatus>,
                                startDate: Option<int>, endDate: Option<int>,
                                depositorName: Option<string>): (cs: seq<Condition>)
    ensures forall r :: HoldsAll(cs, r) <==>
      && (userId.Some? ==> r.userId == userId.value)
      && (status.Some? ==> r.status == status.value)
      && (startDate.Some? && endDate.Some? ==>
            Dates.StartOfDay(startDate.value) <= r.requestDate <= Dates.StartOfDay(endDate.value + 1))
      && (startDate.Some? && endDate.None? ==> r.requestDate > Dates.StartOfDay(startDate.value))
      && (startDate.None? && endDate.Some? ==> r.requestDate < Dates.StartOfDay(endDate.value + 1))
      && (depositorName.Some? ==> r.depositorName == depositorName.value)
  {
    Conditions(userId, status,
               if startDate.Some? then Some(Dates.StartOfDay(startDate.value)) else None,
               if endDate.Some? then Some(Dates.StartOfDay(endDate.value + 1)) else None,
               depositorName)
  }

  /** Filtering by the store's order. */
  function Select(cs: seq<Condition>, store: seq<ChargeRequest>): (r: seq<ChargeRequest>)
    ensures forall i :: 0 <= i < |r| ==> HoldsAll(cs, r[i])
    ensures forall x :: multiset(r)[x] == if HoldsAll(cs, x) then multiset(store)[x] else 0
    ensures |r| <= |store|
  {
    if store == [] then []
    else
      var rest := Select(cs, store[1..]);
      assert store == [store[0]] + store[1..];
      if HoldsAll(cs, store[0]) then [store[0]] + rest else rest
  }

  // ---- ordering ----

  datatype Field = RequestDate | RequestedMileage
  datatype OrderSpecifier = Asc(field: Field) | Desc(field: Field)

  function FieldValue(f: Field, r: ChargeRequest): int {
    match f
    case RequestDate => r.requestDate
    case RequestedMileage => r.requestedMileage
  }

  /** getSortOption: the ORDER BY of each sort option. */
  function GetSortOption(o: SortOption): (spec: OrderSpecifier)
    // the dates for RECENT and OLDEST, the amounts otherwise
    ensures spec.field == RequestDate <==> (o == RECENT || o == OLDEST)
    // newest and largest first; the other two ascending
    ensures spec.Desc? <==> (o == RECENT || o == MILEAGE_DESC)
  {
    match o
    case RECENT => Desc(RequestDate)
    case OLDEST => Asc(RequestDate)
    case MILEAGE_ASC => Asc(RequestedMileage)
    case MILEAGE_DESC => Desc(RequestedMileage)
  }

  /** a may come before b under the ordering. */
  predicate InOrder(spec: OrderSpecifier, a: ChargeRequest, b: ChargeRequest) {
    match spec
    case Asc(f) => FieldValue(f, a) <= FieldValue(f, b)
    case Desc(f) => FieldValue(f, a) >= FieldValue(f, b)
  }

  predicate Sorted(spec: OrderSpecifier, s: seq<ChargeRequest>) {
    forall i, j :: 0 <= i < j < |s| ==> InOrder(spec, s[i], s[j])
  }

  /** What each sort option promises about the order of its results. */
  lemma SortOptionMeaning(o: SortOption, s: seq<ChargeRequest>)
    ensures o == RECENT ==>
      (Sorted(GetSortOption(o), s) <==> forall i, j :: 0 <= i < j < |s| ==> s[i].requestDate >= s[j].requestDate)
    ensures o == OLDEST ==>
      (Sorted(GetSortOption(o), s) <==> forall i, j :: 0 <= i < j < |s| ==> s[i].requestDate <= s[j].requestDate)
    ensures o == MILEAGE_ASC ==>
      (Sorted(GetSortOption(o), s) <==> forall i, j :: 0 <= i < j < |s| ==> s[i].requestedMileage <= s[j].requestedMileage)
    ensures o == MILEAGE_DESC ==>
      (Sorted(GetSortOption(o), s) <==> forall i, j :: 0 <= i < j < |s| ==> s[i].requestedMileage >= s[j].requestedMileage)
  {
  }

  /** A sorted sequence's first element may come before all of it. */
  lemma HeadFirst(spec: OrderSpecifier, s: seq<ChargeRequest>)
    requires Sorted(spec, s) && s != []
    ensures forall y :: y in s ==> InOrder(spec, s[0], y)
  {
  }

  /** Prefixing an element that may come before all of a sorted sequence. */
  lemma SortedCons(spec: OrderSpecifier, a: ChargeRequest, t: seq<ChargeRequest>)
    requires Sorted(spec, t)
    requires forall y :: y in t ==> InOrder(spec, a, y)
    ensures Sorted(spec, [a] + t)
  {
    forall i, j | 0 <= i < j < |[a] + t|
      ensures InOrder(spec, ([a] + t)[i], ([a] + t)[j])
    {
      assert ([a] + t)[j] == t[j - 1];
      assert t[j - 1] in t;
      if i > 0 {
        assert ([a] + t)[i] == t[i - 1];
      }
    }
  }

  /** Insert x into a sorted sequence. */
  function Insert(spec: OrderSpecifier, x: ChargeRequest, s: seq<ChargeRequest>): (r: seq<ChargeRequest>)
    requires Sorted(spec, s)
    ensures Sorted(spec, r)
    ensures multiset(r) == multiset(s) + multiset{x}
    ensures forall y :: y in r <==> y == x || y in s
  {
    if s == [] then [x]
    else if InOrder(spec, x, s[0]) then
      HeadFirst(spec, s);
      SortedCons(spec, x, s);
      [x] + s
    else
      assert s == [s[0]] + s[1..];
      var rest := Insert(spec, x, s[1..]);
      HeadFirst(spec, s);
      SortedCons(spec, s[0], rest);
      [s[0]] + rest
  }

  /** The database's ORDER BY, realised as an insertion sort. The order among
      equal keys is the database's choice; what is proved below is only that
      the result is sorted and a permutation of its input. */
  function OrderBy(spec: OrderSpecifier, s: seq<ChargeRequest>): (r: seq<ChargeRequest>)
    ensures Sorted(spec, r)
    ensures multiset(r) == multiset(s)
  {
    if s == [] then []
    else
      assert s == [s[0]] + s[1..];
      Insert(spec, s[0], OrderBy(spec, s[1..]))
  }

  // ---- paging ----

  datatype Page = Page(content: seq<ChargeRequest>, totalElements: int)

  function Min(a: int, b: int): int {
    if a <= b then a else b
  }

  /** OFFSET offset LIMIT pageSize. */
  function Slice(s: seq<ChargeRequest>, offset: nat, pageSize: nat): (r: seq<ChargeRequest>)
    ensures |r| <= pageSize
    ensures |r| == if offset >= |s| then 0 else Min(pageSize, |s| - offset)
    ensures forall i :: 0 <= i < |r| ==> r[i] == s[offset + i]
  {
    s[Min(offset, |s|)..Min(offset + pageSize, |s|)]
  }

  /** Spring Data's PageImpl(content, pageable, total): when the content is
      non-empty and the window offset + pageSize reaches past the given total,
      the reported total becomes offset + |content|; otherwise it is the given
      total. */
  function PageTotal(content: seq<ChargeRequest>, offset: nat, pageSize: nat, total: int): int {
    if content != [] && offset + pageSize > total then offset + |content| else total
  }

  /** PageImpl's total for a page that is the window at offset of the ordered
      matches, given that page's own size as the total. */
  lemma PageTotalOfWindow(ordered: seq<ChargeRequest>, offset: nat, pageSize: nat)
    ensures var content := Slice(ordered, offset, pageSize);
      var total := PageTotal(content, offset, pageSize, |content|);
      && total == (if content == [] then 0 else offset + |content|)
      && (total == |ordered| <==> |ordered| == 0 || offset < |ordered| <= offset + pageSize)
  {
  }

  /** Every request in a window of the ordered matches is a stored request
      that matches. */
  lemma WindowOfMatches(cs: seq<Condition>, store: seq<ChargeRequest>, spec: OrderSpecifier,
                        offset: nat, pageSize: nat)
    ensures var content := Slice(OrderBy(spec, Select(cs, store)), offset, pageSize);
      forall i :: 0 <= i < |content| ==> content[i] in store && HoldsAll(cs, content[i])
  {
    var matching := Select(cs, store);
    var ordered := OrderBy(spec, matching);
    var content := Slice(ordered, offset, pageSize);
    forall i | 0 <= i < |content|
      ensures content[i] in store && HoldsAll(cs, content[i])
    {
      assert content[i] == ordered[offset + i];
      assert content[i] in multiset(ordered);
      assert multiset(matching)[content[i]] > 0;
    }
  }

  /** ChargeRequestRepositoryImpl.getRechargeMileageRequests over the store.
      The total handed to PageImpl is the size of the fetched page itself. */
  function GetRechargeMileageRequests(store: seq<ChargeRequest>,
                                      userId: Option<int>, status: Option<ChargeRequestStatus>,
                                      startDate: Option<int>, endDate: Option<int>,
                                      depositorName: Option<string>, sortOption: SortOption,
                                      offset: nat, pageSize: nat): (page: Page)
    ensures |page.content| <= pageSize
    ensures forall i :: 0 <= i < |page.content| ==>
      page.content[i] in store
      && HoldsAll(RepositoryConditions(userId, status, startDate, endDate, depositorName), page.content[i])
    ensures Sorted(GetSortOption(sortOption), page.content)
    // the page is exactly the window [offset, offset + pageSize) of the ordered matches
    ensures var ordered := OrderBy(GetSortOption(sortOption),
                                   Select(RepositoryConditions(userId, status, startDate, endDate, depositorName), store));
      && page.content == Slice(ordered, offset, pageSize)
      // the reported total counts the matches only when the page is the last non-empty one
      && (page.totalElements == |ordered| <==> |ordered| == 0 || offset < |ordered| <= offset + pageSize)
    // PageImpl's adjusted total: 0 for an empty page, else offset plus the page's size
    ensures page.totalElements == if page.content == [] then 0 else offset + |page.content|
  {
    var cs := RepositoryConditions(userId, status, startDate, endDate, depositorName);
    var matching := Select(cs, store);
    var ordered := OrderBy(GetSortOption(sortOption), matching);
    var content := Slice(ordered, offset, pageSize);
    WindowOfMatches(cs, store, GetSortOption(sortOption), offset, pageSize);
    PageTotalOfWindow(ordered, offset, pageSize);
    Page(content, PageTotal(content, offset, pageSize, |content|))
  }
}
