/** The status of a charge request and its case-insensitive parser
    (entity/ChargeRequestStatus.kt). */
module RequestStatus {
  import opened Wrappers
  import Ascii

  datatype ChargeRequestStatus = REQUESTED | APPROVED | REJECTED

  /** The enum constant's name, as Kotlin's `name` gives it. */
  function Name(st: ChargeRequestStatus): string {
    match st
    case REQUESTED => "REQUESTED"
    case APPROVED => "APPROVED"
    case REJECTED => "REJECTED"
  }

  /** Enum valueOf: the constant with exactly this name, None where valueOf throws. */
  function ValueOf(name: string): (r: Option<ChargeRequestStatus>)
    ensures forall st :: r == Some(st) <==> Name(st) == name
    ensures r == None <==> forall st :: Name(st) != name
  {
    if name == "REQUESTED" then Some(REQUESTED)
    else if name == "APPROVED" then Some(APPROVED)
    else if name == "REJECTED" then Some(REJECTED)
    else None
  }

  /** fromString(value) = valueOf(value.uppercase()). */
  function FromString(value: string): (r: Option<ChargeRequestStatus>)
    ensures forall st :: r == Some(st) <==> Name(st) == Ascii.Upper(value)
    ensures r == None <==> forall st :: Name(st) != Ascii.Upper(value)
  {
    ValueOf(Ascii.Upper(value))
  }

  /** The three statuses, and no others. */
  const AllStatuses: set<ChargeRequestStatus> := {REQUESTED, APPROVED, REJECTED}

  lemma ExactlyThreeStatuses(st: ChargeRequestStatus)
    ensures st in AllStatuses
    ensures |AllStatuses| == 3
  {
  }

  /** Every name is upper-case, so upper-casing it changes nothing. */
  lemma NameIsUpperCase(st: ChargeRequestStatus)
    ensures Ascii.IsUpperCase(Name(st))
  {
  }

  /** Parsing a status's own name gives that status back. */
  lemma FromStringName(st: ChargeRequestStatus)
    ensures FromString(Name(st)) == Some(st)
  {
    NameIsUpperCase(st);
    Ascii.UpperOfUpperCase(Name(st));
  }

  /** Two strings that agree up to case parse alike. */
  lemma FromStringIgnoresCase(s: string, t: string)
    requires Ascii.Upper(s) == Ascii.Upper(t)
    ensures FromString(s) == FromString(t)
  {
  }

  /** "approved" and "Approved" both parse to APPROVED. */
  lemma FromStringMixedCase()
    ensures FromString("approved") == Some(APPROVED)
    ensures FromString("Approved") == Some(APPROVED)
  {
    assert Ascii.Upper("approved") == "APPROVED";
    assert Ascii.Upper("Approved") == "APPROVED";
  }
}
