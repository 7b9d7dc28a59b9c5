/** The pure part of `fetch_publications`: the filled publication records the
    metadata service returned, in its order, are mapped one by one and the
    list is sorted. A `bib` holding `None` or a year that does not parse
    aborts the whole run. */
module Fetch {
  import opened Wrappers
  import opened Publication
  import opened PubSort
  import opened Digits

  /** Record `i` is the first one whose mapping fails, and it fails with `e`. */
  ghost predicate FirstFailure(fs: seq<Filled>, i: int, e: FetchError) {
    && 0 <= i < |fs|
    && Normalize(fs[i]) == Failure(e)
    && forall j :: 0 <= j < i ==> Normalize(fs[j]).Success?
  }

  /** A first failure in the tail, after a good head, is a first failure
      of the whole sequence, one position later. */
  lemma FirstFailureLater(fs: seq<Filled>, e: FetchError)
    requires |fs| > 0 && Normalize(fs[0]).Success?
    requires exists i :: FirstFailure(fs[1..], i, e)
    ensures exists i :: FirstFailure(fs, i, e)
  {
    var i :| FirstFailure(fs[1..], i, e);
    forall j | 0 < j < i + 1 ensures Normalize(fs[j]).Success? {
      assert fs[j] == fs[1..][j - 1];
    }
    assert FirstFailure(fs, i + 1, e);
  }

  /** The loop over the publications: one output record per input record,
      in input order, or the error of the first record whose year fails. */
  function NormalizeAll(fs: seq<Filled>): (r: Result<seq<Pub>, FetchError>)
    ensures r.Success? <==> forall i :: 0 <= i < |fs| ==> Normalize(fs[i]).Success?
    ensures r.Success? ==>
      && |r.value| == |fs|
      && forall i :: 0 <= i < |fs| ==> Normalize(fs[i]) == Success(r.value[i])
    ensures r.Failure? ==> exists i :: FirstFailure(fs, i, r.error)
  {
    if |fs| == 0 then Success([])
    else match Normalize(fs[0])
      case Failure(e) =>
        assert FirstFailure(fs, 0, e);
        Failure(e)
      case Success(p) =>
        match NormalizeAll(fs[1..])
        case Failure(e) =>
          FirstFailureLater(fs, e);
          Failure(e)
        case Success(ps) => Success([p] + ps)
  }

  /** The whole run: map every record, then sort descending by
      (year or 0, title or ""), keeping ties in input order. */
  function FetchPublications(fs: seq<Filled>): (r: Result<seq<Pub>, FetchError>)
    ensures r.Failure? <==> exists i :: 0 <= i < |fs| && Normalize(fs[i]).Failure?
    ensures r.Failure? ==> exists i :: FirstFailure(fs, i, r.error)
    ensures r.Success? ==>
      && NormalizeAll(fs).Success?
      && |r.value| == |fs|
      && SortedDesc(r.value)
      && multiset(r.value) == multiset(NormalizeAll(fs).value)
      && SameTies(r.value, NormalizeAll(fs).value)
  {
    match NormalizeAll(fs)
    case Failure(e) => Failure(e)
    case Success(ps) =>
      SortPermutes(ps);
      SortKeepsTies(ps);
      Success(Sort(ps))
  }

  /** Each input record's mapping is in the output: nothing is dropped. */
  lemma OutputsContainInputs(fs: seq<Filled>, i: int)
    requires FetchPublications(fs).Success?
    requires 0 <= i < |fs|
    ensures Normalize(fs[i]).value in FetchPublications(fs).value
  {
    var ps := NormalizeAll(fs).value;
    assert ps[i] in multiset(ps);
  }

  /** Each output record is the mapping of some input record: nothing is
      made up. */
  lemma OutputsComeFromInputs(fs: seq<Filled>)
    requires FetchPublications(fs).Success?
    ensures forall p :: p in FetchPublications(fs).value ==>
              exists j :: 0 <= j < |fs| && Normalize(fs[j]) == Success(p)
  {
    var out := FetchPublications(fs).value;
    var ps := NormalizeAll(fs).value;
    forall p | p in out
      ensures exists j :: 0 <= j < |fs| && Normalize(fs[j]) == Success(p)
    {
      assert p in multiset(out);
      var j :| 0 <= j < |ps| && ps[j] == p;
      assert Normalize(fs[j]) == Success(p);
    }
  }

  /** The output is the only arrangement of the mapped records that is
      sorted and keeps ties in input order. */
  lemma OutputIsDetermined(fs: seq<Filled>, r: seq<Pub>)
    requires FetchPublications(fs).Success?
    requires SortedDesc(r) && SameTies(r, NormalizeAll(fs).value)
    ensures r == FetchPublications(fs).value
  {
    SortIsUnique(NormalizeAll(fs).value, r);
  }

  /** Running the sort again on the output changes nothing. */
  lemma OutputSortIdempotent(fs: seq<Filled>)
    requires FetchPublications(fs).Success?
    ensures Sort(FetchPublications(fs).value) == FetchPublications(fs).value
  {
    SortSorted(FetchPublications(fs).value);
  }

  function TitleYear(title: string, year: Option<string>): Filled {
    Filled(BibMap(Bib(Some(title), None, year, None, None, None, None)), None)
  }

  function Output(title: string, year: Option<int>): Pub {
    Pub(Some(title), None, year, None, Links(None, None))
  }

  lemma SortPair(p1: Pub, p2: Pub)
    ensures Sort([p1, p2]) == if Ordered(p1, p2) then [p1, p2] else [p2, p1]
  {
  }

  /** Two records that both map: the result is the two outputs, in order. */
  lemma FetchTwo(f1: Filled, f2: Filled, p1: Pub, p2: Pub)
    requires Normalize(f1) == Success(p1) && Normalize(f2) == Success(p2)
    ensures FetchPublications([f1, f2])
         == Success(if Ordered(p1, p2) then [p1, p2] else [p2, p1])
  {
    var r := NormalizeAll([f1, f2]);
    assert r.Success? && r.value[0] == p1 && r.value[1] == p2;
    assert r.value == [p1, p2];
    SortPair(p1, p2);
  }

  /** A record whose year is the decimal text of `n` maps to year `n`. */
  lemma TitleYearMaps(title: string, n: nat, text: string)
    requires ShowNat(n) == text
    ensures Normalize(TitleYear(title, Some(text))) == Success(Output(title, Some(n)))
  {
    ParseShowNat(n);
  }

  /** The decimal texts of the years the scenarios use. */
  lemma YearTexts()
    ensures ShowNat(2000) == "2000" && ShowNat(2019) == "2019"
    ensures ShowNat(2020) == "2020" && ShowNat(2021) == "2021"
  {
    assert ShowNat(20) == "20";
    assert ShowNat(200) == "200" && ShowNat(201) == "201" && ShowNat(202) == "202";
  }

  /** `B` from 2019 and `A` from 2021 come out as `A`, then `B`. */
  lemma NewerYearFirst()
    ensures FetchPublications([TitleYear("B", Some("2019")), TitleYear("A", Some("2021"))])
         == Success([Output("A", Some(2021)), Output("B", Some(2019))])
  {
    YearTexts();
    TitleYearMaps("B", 2019, "2019");
    TitleYearMaps("A", 2021, "2021");
    FetchTwo(TitleYear("B", Some("2019")), TitleYear("A", Some("2021")),
             Output("B", Some(2019)), Output("A", Some(2021)));
  }

  /** A record without a year sorts as year 0, after one from 2000. */
  lemma MissingYearLast()
    ensures FetchPublications([TitleYear("X", None), TitleYear("Y", Some("2000"))])
         == Success([Output("Y", Some(2000)), Output("X", None)])
  {
    YearTexts();
    TitleYearMaps("Y", 2000, "2000");
    FetchTwo(TitleYear("X", None), TitleYear("Y", Some("2000")),
             Output("X", None), Output("Y", Some(2000)));
  }

  /** Two records of which the second fails: the run fails with its error. */
  lemma FetchTwoFails(f1: Filled, f2: Filled, e: FetchError)
    requires Normalize(f1).Success? && Normalize(f2) == Failure(e)
    ensures FetchPublications([f1, f2]) == Failure(e)
  {
    var fs := [f1, f2];
    assert fs[1] == f2;
    var r := FetchPublications(fs);
    assert r.Failure?;
    var i :| FirstFailure(fs, i, r.error);
    assert i == 1;
  }

  /** A year that is not a number aborts the run with that text. */
  lemma BadYearAborts()
    ensures FetchPublications([TitleYear("A", Some("2020")), TitleYear("B", Some("abc"))])
         == Failure(YearNotInteger("abc"))
  {
  }

  /** A `bib` holding `None` aborts the run, even after a good record. */
  lemma NullBibAborts()
    ensures FetchPublications([TitleYear("A", Some("2020")), Filled(NullBib, None)])
         == Failure(BibIsNone)
  {
  }
}
