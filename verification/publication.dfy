/** One publication record: the bibliographic fields read from a filled
    record, the fixed output schema, and the mapping between the two. */
module Publication {
  import opened Wrappers
  import opened Digits
  import opened Names

  /** The bibliographic `author` field: one string, or a list of names. */
  datatype AuthorField = Name(name: string) | NameList(names: seq<string>)

  /** The `bib` mapping; for each field `None` is a missing key or a key
      holding `None`, which `dict.get` does not tell apart. */
  datatype Bib = Bib(
    title: Option<string>,
    author: Option<AuthorField>,
    pubYear: Option<string>,
    venue: Option<string>,
    journal: Option<string>,
    booktitle: Option<string>,
    doi: Option<string>)

  /** The `bib` key of a filled record. A missing key reads as an empty
      mapping; a key holding `None` makes the first `bib.get` raise. */
  datatype BibSlot = MissingBib | NullBib | BibMap(fields: Bib)

  /** A fully filled publication as the metadata service returns it. */
  datatype Filled = Filled(bib: BibSlot, eprintUrl: Option<string>)

  datatype Links = Links(pdf: Option<string>, doi: Option<string>)

  /** The output record, one per input publication. */
  datatype Pub = Pub(
    title: Option<string>,
    authors: Option<string>,
    year: Option<int>,
    venue: Option<string>,
    links: Links)

  /** What aborts the run: `bib.get` on a `bib` holding `None` raises
      `AttributeError`, and `int(pub_year)` raises `ValueError` on the
      offending text. */
  datatype FetchError = BibIsNone | YearNotInteger(text: string)

  const EmptyBib := Bib(None, None, None, None, None, None, None)

  /** Python truthiness of an optional string. */
  predicate Truthy(s: Option<string>) {
    s.Some? && |s.value| > 0
  }

  /** Python's `a or b` on optional strings. */
  function Or(a: Option<string>, b: Option<string>): Option<string> {
    if Truthy(a) then a else b
  }

  /** `filled.get("bib", {})` when that is a mapping. */
  function BibOf(f: Filled): Bib
    requires !f.bib.NullBib?
  {
    if f.bib.BibMap? then f.bib.fields else EmptyBib
  }

  /** A list of names is joined with `", "`; a scalar or a missing value
      passes through. */
  function Authors(a: Option<AuthorField>): (r: Option<string>)
    ensures a.None? ==> r.None?
    ensures a.Some? && a.value.Name? ==> r == Some(a.value.name)
    ensures a.Some? && a.value.NameList? ==> r == Some(Join(a.value.names))
  {
    match a
    case None => None
    case Some(Name(s)) => Some(s)
    case Some(NameList(ns)) => Some(Join(ns))
  }

  /** The joined author string of comma-free names splits back into exactly
      those names, in order: the join loses, merges and reorders nothing. */
  lemma AuthorsSplitBack(ns: seq<string>)
    requires |ns| > 0 && forall i :: 0 <= i < |ns| ==> NoComma(ns[i])
    ensures Authors(Some(NameList(ns))).Some?
    ensures Split(Authors(Some(NameList(ns))).value) == ns
  {
    SplitJoin(ns);
  }

  /** `int(pub_year) if pub_year else None`. */
  function Year(text: Option<string>): (r: Result<Option<int>, FetchError>)
    ensures !Truthy(text) ==> r == Success(None)
    ensures Truthy(text) && AllDigits(text.value) ==> r == Success(Some(ValueOf(text.value)))
    ensures Truthy(text) && !AllDigits(text.value) ==> r == Failure(YearNotInteger(text.value))
  {
    if !Truthy(text) then Success(None)
    else match ParseNat(text.value)
      case Some(n) => Success(Some(n))
      case None => Failure(YearNotInteger(text.value))
  }

  /** `venue or journal or booktitle`. */
  function Venue(b: Bib): (r: Option<string>)
    ensures Truthy(b.venue) ==> r == b.venue
    ensures !Truthy(b.venue) && Truthy(b.journal) ==> r == b.journal
    ensures !Truthy(b.venue) && !Truthy(b.journal) ==> r == b.booktitle
    ensures r == b.venue || r == b.journal || r == b.booktitle
    ensures Truthy(r) <==> Truthy(b.venue) || Truthy(b.journal) || Truthy(b.booktitle)
  {
    Or(Or(b.venue, b.journal), b.booktitle)
  }

  /** The mapping of one filled record to its output record. */
  function Normalize(f: Filled): (r: Result<Pub, FetchError>)
    ensures f.bib.NullBib? ==> r == Failure(BibIsNone)
    ensures r.Success? <==> !f.bib.NullBib? && Year(BibOf(f).pubYear).Success?
    ensures r.Success? ==>
      && r.value.title == BibOf(f).title
      && r.value.authors == Authors(BibOf(f).author)
      && Year(BibOf(f).pubYear) == Success(r.value.year)
      && r.value.venue == Venue(BibOf(f))
      && r.value.links == Links(f.eprintUrl, BibOf(f).doi)
    ensures r.Success? ==> (r.value.year.Some? <==> Truthy(BibOf(f).pubYear))
    ensures r.Success? && r.value.year.Some? ==> r.value.year.value >= 0
    ensures r.Failure? && !f.bib.NullBib? ==> r.error == YearNotInteger(BibOf(f).pubYear.value)
  {
    if f.bib.NullBib? then Failure(BibIsNone)
    else
      var b := BibOf(f);
      match Year(b.pubYear)
      case Failure(e) => Failure(e)
      case Success(y) => Success(Pub(b.title, Authors(b.author), y, Venue(b), Links(f.eprintUrl, b.doi)))
  }

  /** A list of three names is joined in order with ", "; a single string
      and a missing field pass through. */
  lemma AuthorsExamples()
    ensures Authors(Some(NameList(["A", "B", "C"]))) == Some("A, B, C")
    ensures Authors(Some(Name("Solo"))) == Some("Solo")
    ensures Authors(None) == None
  {
    assert ["A", "B", "C"][1..] == ["B", "C"] && ["B", "C"][1..] == ["C"];
    assert Join(["B", "C"]) == "B" + ", " + "C" == "B, C";
    assert Join(["A", "B", "C"]) == "A" + ", " + "B, C" == "A, B, C";
  }

  /** `journal` is used when `venue` is missing; `venue` wins over it. */
  lemma VenueExamples(j: string, v: string)
    requires j != "" && v != ""
    ensures Venue(Bib(None, None, None, None, Some(j), None, None)) == Some(j)
    ensures Venue(Bib(None, None, None, Some(v), Some(j), None, None)) == Some(v)
    ensures Venue(Bib(None, None, None, Some(""), Some(""), Some(""), None)) == Some("")
  {
  }
}
