/** The sort orders a charge-request query accepts, and their
    case-insensitive parser (dto/SortOption.kt). */
module SortOptions {
  import opened Wrappers
  import Ascii

  datatype SortOption = RECENT | OLDEST | MILEAGE_ASC | MILEAGE_DESC

  function Name(o: SortOption): string {
    match o
    case RECENT => "RECENT"
    case OLDEST => "OLDEST"
    case MILEAGE_ASC => "MILEAGE_ASC"
    case MILEAGE_DESC => "MILEAGE_DESC"
  }

  /** Enum valueOf: the constant with exactly this name, None where valueOf throws. */
  function ValueOf(name: string): (r: Option<SortOption>)
    ensures forall o :: r == Some(o) <==> Name(o) == name
    ensures r == None <==> forall o :: Name(o) != name
  {
    if name == "RECENT" then Some(RECENT)
    else if name == "OLDEST" then Some(OLDEST)
    else if name == "MILEAGE_ASC" then Some(MILEAGE_ASC)
    else if name == "MILEAGE_DESC" then Some(MILEAGE_DESC)
    else None
  }

  /** fromString(value) = valueOf(value.uppercase()). */
  function FromString(value: string): (r: Option<SortOption>)
    ensures forall o :: r == Some(o) <==> Name(o) == Ascii.Upper(value)
    ensures r == None <==> forall o :: Name(o) != Ascii.Upper(value)
  {
    ValueOf(Ascii.Upper(value))
  }

  const AllSortOptions: set<SortOption> := {RECENT, OLDEST, MILEAGE_ASC, MILEAGE_DESC}

  lemma ExactlyFourOptions(o: SortOption)
    ensures o in AllSortOptions
    ensures |AllSortOptions| == 4
  {
  }

  /** Parsing an option's own name gives that option back. */
  lemma FromStringName(o: SortOption)
    ensures FromString(Name(o)) == Some(o)
  {
    assert Ascii.IsUpperCase(Name(o));
    Ascii.UpperOfUpperCase(Name(o));
  }

  /** The request parameter `sortOption` of the charge-request listing, as
      Spring binds an enum: a missing or empty value takes the default
      "RECENT"; any other text is trimmed and must then be exactly a constant's
      name (Enum.valueOf, case-sensitive). None where binding fails. */
  function SortOptionParameter(param: Option<string>): (r: Option<SortOption>)
    ensures param == None || param == Some("") ==> r == Some(RECENT)
    ensures param.Some? && param.value != "" ==>
      forall o :: r == Some(o) <==> Name(o) == Ascii.Trim(param.value)
  {
    if param == None || param == Some("") then Some(RECENT)
    else ValueOf(Ascii.Trim(param.value))
  }

  /** An option's own name binds to that option. */
  lemma SortOptionParameterName(o: SortOption)
    ensures SortOptionParameter(Some(Name(o))) == Some(o)
  {
    match o
    case RECENT => Ascii.TrimUnpadded("RECENT");
    case OLDEST => Ascii.TrimUnpadded("OLDEST");
    case MILEAGE_ASC => Ascii.TrimUnpadded("MILEAGE_ASC");
    case MILEAGE_DESC => Ascii.TrimUnpadded("MILEAGE_DESC");
  }

  /** The binder ignores surrounding blanks but not case, and an empty value
      takes the default. */
  lemma SortOptionParameterExamples()
    ensures SortOptionParameter(Some(" OLDEST ")) == Some(OLDEST)
    ensures SortOptionParameter(Some("oldest")) == None
    ensures SortOptionParameter(Some("")) == Some(RECENT)
  {
    var padded := " OLDEST ";
    assert padded[1..] == "OLDEST ";
    assert Ascii.TrimStart(padded) == "OLDEST ";
    assert "OLDEST "[..6] == "OLDEST";
    assert Ascii.TrimEnd("OLDEST ") == "OLDEST";
    assert Ascii.Trim(padded) == "OLDEST";
    Ascii.TrimUnpadded("oldest");
  }
}
