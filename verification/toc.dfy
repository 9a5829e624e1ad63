/**
 * The table of contents of the results page
 * (src/components/app/ResultsTOC.tsx): the offices are split into the
 * districts of the United States House of Representatives, sorted by
 * district number and shown in an accordion, and the other offices, shown
 * in input order. Every office links to its own results page.
 */
module ResultsToc {
  import opened Types
  import opened Text
  import opened Slug
  import opened Sorting

  const HousePrefix := "United States House of Representatives"
  const ResultsPath := "/results/"
  const AnswersQuery := "?answers="

  predicate IsHouseOffice(office: string) {
    StartsWith(office, HousePrefix)
  }

  function IsHouseResult(): OfficeResult -> bool {
    (r: OfficeResult) => IsHouseOffice(r.office)
  }

  function IsOtherResult(): OfficeResult -> bool {
    (r: OfficeResult) => !IsHouseOffice(r.office)
  }

  /** `parseInt(office.replace(/[^0-9]/g, ''), 10)`: the number all the digits spell, or NaN without one. */
  function DistrictNumber(office: string): (r: Option<nat>)
    ensures r.None? <==> forall c :: c in office ==> !IsDigit(c)
  {
    KeepDigitsEmpty(office);
    var digits := KeepDigits(office);
    if |digits| == 0 then None else Some(DecimalValue(digits))
  }

  /**
   * The comparator of the house districts: the difference of the district
   * numbers when both exist, else the locale comparison of the names, which
   * is a parameter of the model.
   */
  function CompareDistricts(fallback: (string, string) -> int): (OfficeResult, OfficeResult) -> int {
    (a: OfficeResult, b: OfficeResult) =>
      var an := DistrictNumber(a.office);
      var bn := DistrictNumber(b.office);
      if an.Some? && bn.Some? then an.value - bn.value else fallback(a.office, b.office)
  }

  /** The district number as a sort key, for offices that have one. */
  function DistrictKey(r: OfficeResult): int {
    DistrictNumber(r.office).GetOr(0)
  }

  function HouseDistricts(rs: seq<OfficeResult>, fallback: (string, string) -> int): (house: seq<OfficeResult>)
    ensures multiset(house) == multiset(Filter(rs, IsHouseResult()))
  {
    SortWith(Filter(rs, IsHouseResult()), CompareDistricts(fallback))
  }

  function OtherOffices(rs: seq<OfficeResult>): (others: seq<OfficeResult>)
    ensures forall r :: r in others <==> r in rs && !IsHouseOffice(r.office)
  {
    Filter(rs, IsOtherResult())
  }

  /** The search parameter `answers` is carried over only when it is present and non-empty. */
  function CarriedQuery(answersQuery: Option<string>): (r: Option<string>)
    ensures r.Some? <==> answersQuery.Some? && answersQuery.value != ""
    ensures r.Some? ==> r == answersQuery
  {
    if answersQuery.Some? && answersQuery.value != "" then answersQuery else None
  }

  /** The link target of an office; it reads back as the office's slug and the carried-over query. */
  function Href(office: string, answersQuery: Option<string>): (href: string)
    ensures ParseHref(href) == Some(Route(Slugify(office), CarriedQuery(answersQuery)))
  {
    var base := ResultsPath + Slugify(office);
    SlugHasNoQuestionMark(Slugify(office));
    match CarriedQuery(answersQuery)
    case None =>
      ParsePlainHref(Slugify(office));
      base
    case Some(q) =>
      ParseQueryHref(Slugify(office), q);
      base + AnswersQuery + q
  }

  /** The text of a house-district link: the office without the prefix's first occurrence, trimmed. */
  function DistrictLabel(office: string): (shown: string)
    ensures |shown| > 0 ==> !IsWhitespace(shown[0]) && !IsWhitespace(shown[|shown| - 1])
  {
    Trim(ReplaceFirst(office, HousePrefix, ""))
  }

  datatype Link = Link(href: string, text: string)

  /** What the component renders: the other offices' links, then the accordion of districts when there is one. */
  datatype Toc = Toc(offices: seq<Link>, houseDistricts: Option<seq<Link>>)

  function ResultsToc(rs: seq<OfficeResult>, answersQuery: Option<string>, fallback: (string, string) -> int): (t: Toc)
    ensures var others := OtherOffices(rs);
      && |t.offices| == |others|
      && forall i :: 0 <= i < |others| ==> t.offices[i] == Link(Href(others[i].office, answersQuery), others[i].office)
    ensures var house := HouseDistricts(rs, fallback);
      && (t.houseDistricts.Some? <==> |house| > 0)
      && (t.houseDistricts.Some? ==>
        && |t.houseDistricts.value| == |house|
        && forall i :: 0 <= i < |house| ==>
          t.houseDistricts.value[i] == Link(Href(house[i].office, answersQuery), DistrictLabel(house[i].office)))
  {
    var others := OtherOffices(rs);
    var house := HouseDistricts(rs, fallback);
    Toc(
      seq(|others|, i requires 0 <= i < |others| => Link(Href(others[i].office, answersQuery), others[i].office)),
      if |house| > 0 then
        Some(seq(|house|, i requires 0 <= i < |house| => Link(Href(house[i].office, answersQuery), DistrictLabel(house[i].office))))
      else None)
  }

  // ---------------------------------------------------------------------------
  // Parsing a link back
  // ---------------------------------------------------------------------------

  datatype Route = Route(slug: string, answers: Option<string>)

  /** Reads a link back: the slug after `/results/`, up to the first `?`, and the query after `?answers=`. */
  function ParseHref(href: string): Option<Route> {
    if StartsWith(href, ResultsPath) then ParseRoute(href[|ResultsPath|..]) else None
  }

  function ParseRoute(rest: string): Option<Route> {
    match IndexOf(rest, "?")
    case None => Some(Route(rest, None))
    case Some(i) =>
      if StartsWith(rest[i..], AnswersQuery) then Some(Route(rest[..i], Some(rest[i + |AnswersQuery|..])))
      else None
  }

  // ---------------------------------------------------------------------------
  // Lemmas
  // ---------------------------------------------------------------------------

  lemma StartsWithAppend(a: string, b: string)
    ensures StartsWith(a + b, a)
    ensures (a + b)[|a|..] == b
  {
    assert (a + b)[..|a|] == a;
  }

  /** A string without `?` has none to find. */
  lemma {:induction false} NoQuestionMark(s: string)
    requires '?' !in s
    ensures IndexOf(s, "?") == None
  {
    if |s| > 0 {
      assert s[..1][0] == s[0];
      assert forall c :: c in s[1..] ==> c in s;
      NoQuestionMark(s[1..]);
    }
  }

  /** In `s + t` with no `?` in `s` and `t` starting with one, the first `?` is where `t` starts. */
  lemma FirstQuestionMark(s: string, t: string)
    requires '?' !in s
    requires |t| > 0 && t[0] == '?'
    ensures IndexOf(s + t, "?") == Some(|s|)
  {
    var x := s + t;
    assert x[|s|..][..1] == [t[0]];
    assert forall j :: 0 <= j < |s| ==> x[j] == s[j];
  }

  /** A slug has no `?`. */
  lemma SlugHasNoQuestionMark(slug: string)
    requires IsSlug(slug)
    ensures '?' !in slug
  {
    assert !IsSlugChar('?');
  }

  lemma ParsePlainHref(slug: string)
    requires '?' !in slug
    ensures ParseHref(ResultsPath + slug) == Some(Route(slug, None))
  {
    StartsWithAppend(ResultsPath, slug);
    NoQuestionMark(slug);
  }

  lemma ParseQueryRoute(slug: string, q: string)
    requires '?' !in slug
    ensures ParseRoute(slug + (AnswersQuery + q)) == Some(Route(slug, Some(q)))
  {
    var tail := AnswersQuery + q;
    var rest := slug + tail;
    FirstQuestionMark(slug, tail);
    StartsWithAppend(slug, tail);
    StartsWithAppend(AnswersQuery, q);
    assert rest[..|slug|] == slug;
    assert rest[|slug| + |AnswersQuery|..] == q;
  }

  lemma ParseQueryHref(slug: string, q: string)
    requires '?' !in slug
    ensures ParseHref(ResultsPath + slug + AnswersQuery + q) == Some(Route(slug, Some(q)))
  {
    var rest := slug + (AnswersQuery + q);
    assert ResultsPath + slug + AnswersQuery + q == ResultsPath + rest;
    StartsWithAppend(ResultsPath, rest);
    ParseQueryRoute(slug, q);
  }

  /** Two offices get the same link only when their slugs and carried queries agree. */
  lemma HrefInjective(o1: string, q1: Option<string>, o2: string, q2: Option<string>)
    requires Href(o1, q1) == Href(o2, q2)
    ensures Slugify(o1) == Slugify(o2)
    ensures CarriedQuery(q1) == CarriedQuery(q2)
  {
    assert ParseHref(Href(o1, q1)) == ParseHref(Href(o2, q2));
  }

  /** For a house district the label is what follows the prefix, trimmed. */
  lemma DistrictLabelOfHouseOffice(office: string)
    requires IsHouseOffice(office)
    ensures DistrictLabel(office) == Trim(office[|HousePrefix|..])
  {
    ReplaceFirstPrefix(office, HousePrefix);
  }

  /** Trimming a single leading space off a string with no whitespace at either end. */
  lemma TrimLeadingSpace(d: string)
    requires |d| > 0 && !IsWhitespace(d[0]) && !IsWhitespace(d[|d| - 1])
    ensures Trim(" " + d) == d
  {
    assert (" " + d)[1..] == d;
    assert TrimStart(" " + d, IsWhitespace) == TrimStart(d, IsWhitespace) == d;
  }

  /** The label of `HousePrefix + " " + d` is `d`, for a `d` with no whitespace at either end. */
  lemma DistrictLabelRoundTrip(d: string)
    requires |d| > 0 && !IsWhitespace(d[0]) && !IsWhitespace(d[|d| - 1])
    ensures DistrictLabel(HousePrefix + " " + d) == d
  {
    var tail := " " + d;
    assert HousePrefix + " " + d == HousePrefix + tail;
    StartsWithAppend(HousePrefix, tail);
    DistrictLabelOfHouseOffice(HousePrefix + tail);
    TrimLeadingSpace(d);
  }

  /** The house districts are exactly the offices that start with the prefix. */
  lemma HouseDistrictsMembers(rs: seq<OfficeResult>, fallback: (string, string) -> int)
    ensures forall r :: r in HouseDistricts(rs, fallback) <==> r in rs && IsHouseOffice(r.office)
  {
    var h := HouseDistricts(rs, fallback);
    var f := Filter(rs, IsHouseResult());
    assert forall r :: r in h <==> r in multiset(h);
    assert forall r :: r in f <==> r in multiset(f);
  }

  /** The other list is built entry by entry in input order: concatenation distributes, and one entry stays exactly when it is not a house office. */
  lemma OtherOfficesAppend(a: seq<OfficeResult>, b: seq<OfficeResult>, r: OfficeResult)
    ensures OtherOffices(a + b) == OtherOffices(a) + OtherOffices(b)
    ensures OtherOffices([r]) == if IsHouseOffice(r.office) then [] else [r]
  {
    FilterAppend(a, b, IsOtherResult());
  }

  /** Without any house district, the other offices are the input itself, in its order. */
  lemma OtherOfficesWithoutHouse(rs: seq<OfficeResult>)
    requires forall i :: 0 <= i < |rs| ==> !IsHouseOffice(rs[i].office)
    ensures OtherOffices(rs) == rs
  {
    FilterAll(rs, IsOtherResult());
  }

  /** The house districts and the other offices split the input, with nothing lost or repeated. */
  lemma TocPartition(rs: seq<OfficeResult>, fallback: (string, string) -> int)
    ensures multiset(HouseDistricts(rs, fallback)) + multiset(OtherOffices(rs)) == multiset(rs)
    ensures |HouseDistricts(rs, fallback)| + |OtherOffices(rs)| == |rs|
  {
    FilterPartition(rs, IsHouseResult(), IsOtherResult());
  }

  /** When every house office holds a digit, the comparator orders them by district number. */
  lemma CompareDistrictsOrders(s: seq<OfficeResult>, fallback: (string, string) -> int)
    requires forall r :: r in s ==> DistrictNumber(r.office).Some?
    ensures OrdersByKey(CompareDistricts(fallback), DistrictKey, s)
  {
  }

  /**
   * When every house office holds a digit, the districts come in ascending
   * order of district number, and offices with the same number keep their
   * input order.
   */
  lemma HouseDistrictsSorted(rs: seq<OfficeResult>, fallback: (string, string) -> int)
    requires forall r :: r in rs && IsHouseOffice(r.office) ==> DistrictNumber(r.office).Some?
    ensures SortedBy(HouseDistricts(rs, fallback), DistrictKey)
    ensures KeepsTies(HouseDistricts(rs, fallback), Filter(rs, IsHouseResult()), DistrictKey)
  {
    var h := Filter(rs, IsHouseResult());
    CompareDistrictsOrders(h, fallback);
    SortWithSorted(h, CompareDistricts(fallback), DistrictKey);
  }

  /** The accordion is rendered exactly when some office is a house district. */
  lemma AccordionIffHouseDistrict(rs: seq<OfficeResult>, answersQuery: Option<string>, fallback: (string, string) -> int)
    ensures ResultsToc(rs, answersQuery, fallback).houseDistricts.Some?
      <==> exists i :: 0 <= i < |rs| && IsHouseOffice(rs[i].office)
  {
    var house := HouseDistricts(rs, fallback);
    HouseDistrictsMembers(rs, fallback);
    if exists i :: 0 <= i < |rs| && IsHouseOffice(rs[i].office) {
      var i :| 0 <= i < |rs| && IsHouseOffice(rs[i].office);
      assert rs[i] in house;
    }
    if |house| > 0 {
      assert house[0] in house;
    }
  }
}
