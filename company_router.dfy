/** The logic of the two company endpoints of routers/company.py, taken out
    of the web framework: pagination arithmetic, the description of a
    company, the assembly of a page of the company list and the lookup of a
    company by its slug. The database is not modelled: the row count and the
    fetched page are inputs, and so is the table the lookup scans. */
module CompanyRouter {
  import opened Wrappers
  import Config
  import opened Decimal
  import opened SlugUtils
  import opened Models
  import opened Schemas

  // ---------------------------------------------------------------------
  // Errors
  // ---------------------------------------------------------------------

  /** The HTTP errors the endpoints raise: 400 and 404, each with its detail text. */
  datatype ApiError = BadRequest(detail: string) | NotFound(detail: string)

  /** The HTTP status code the framework sends for an error. */
  function StatusCode(e: ApiError): int {
    match e
    case BadRequest(_) => 400
    case NotFound(_) => 404
  }

  /** The detail of the 400 answer to a page past the last one (routers/company.py:68). */
  function PageDetail(page: nat, totalPages: nat): string {
    "Page " + NatToString(page) + " does not exist. Total pages: " + NatToString(totalPages)
  }

  /** The detail of the 404 answer to an unknown slug (routers/company.py:175). */
  function SlugDetail(slug: string): string {
    "Company with slug '" + slug + "' not found"
  }

  // ---------------------------------------------------------------------
  // Pagination arithmetic
  // ---------------------------------------------------------------------

  /** The page size after the cap at `settings.max_page_size`. */
  function CappedPerPage(perPage: int): (r: int)
    ensures r <= Config.MaxPageSize
    ensures perPage <= Config.MaxPageSize ==> r == perPage
    ensures perPage > Config.MaxPageSize ==> r == Config.MaxPageSize
  {
    if perPage > 100 then 100 else perPage
  }

  /** On the page sizes the endpoint accepts (at least 1), the router's cap
      and the schema's validator agree. */
  lemma CapAgreesWithValidator(perPage: int)
    requires perPage >= 1
    ensures CappedPerPage(perPage) == ValidatePerPage(perPage)
  {
  }

  /** The number of rows before the first row of `page`. */
  function Offset(page: int, perPage: int): (r: int)
    requires page >= 1 && perPage >= 1
    ensures r >= 0
  {
    (page - 1) * perPage
  }

  /** Consecutive pages follow one another without gap or overlap. */
  lemma OffsetsAdjacent(page: int, perPage: int)
    requires page >= 1 && perPage >= 1
    ensures Offset(page + 1, perPage) == Offset(page, perPage) + perPage
  {
  }

  /** `ceil(total / per_page)` for a positive total, 0 for none. */
  function TotalPages(total: nat, perPage: int): (r: nat)
    requires perPage >= 1
    ensures total == 0 <==> r == 0
    ensures r * perPage >= total
    ensures r > 0 ==> (r - 1) * perPage < total
  {
    if total > 0 then (total + perPage - 1) / perPage else 0
  }

  /** TotalPages is the least number of pages that holds every row. */
  lemma TotalPagesLeast(total: nat, perPage: int, n: nat)
    requires perPage >= 1 && n * perPage >= total
    ensures TotalPages(total, perPage) <= n
  {
    var r := TotalPages(total, perPage);
    if r > n {
      assert (r - 1) * perPage >= n * perPage by {
        MultiplyMonotone(n, r - 1, perPage);
      }
    }
  }

  lemma MultiplyMonotone(a: nat, b: nat, c: nat)
    requires a <= b
    ensures a * c <= b * c
  {
  }

  /** The page-overflow rule: a page past the last is refused, but only
      when there is at least one page. */
  predicate PageOutOfRange(page: int, totalPages: nat) {
    page > totalPages && totalPages > 0
  }

  /** An accepted page of a non-empty list starts at a row that exists. */
  lemma AcceptedPageStartsInside(page: int, perPage: int, total: nat)
    requires page >= 1 && perPage >= 1 && total > 0
    requires !PageOutOfRange(page, TotalPages(total, perPage))
    ensures Offset(page, perPage) < total
  {
    var tp := TotalPages(total, perPage);
    MultiplyMonotone(page - 1, tp - 1, perPage);
  }

  /** The last page reaches the last row. */
  lemma LastPageReachesEnd(perPage: int, total: nat)
    requires perPage >= 1 && total > 0
    ensures Offset(TotalPages(total, perPage), perPage) + perPage >= total
  {
  }

  // ---------------------------------------------------------------------
  // The description of a company
  // ---------------------------------------------------------------------

  const TruncationLength: nat := 200
  const Ellipsis: string := "..."
  const Placeholder: string := "Company profile information available"
  const PartSeparator: string := " | "

  /** `s[:200] + "..."` when `s` is longer than 200 characters, `s` itself otherwise. */
  function Truncate(s: string): (r: string)
    ensures |r| <= TruncationLength + |Ellipsis|
    ensures |s| <= TruncationLength ==> r == s
    ensures |s| > TruncationLength ==> |r| == TruncationLength + |Ellipsis| && r[..TruncationLength] == s[..TruncationLength] && r[TruncationLength..] == Ellipsis
    ensures s != [] ==> r != []
  {
    if |s| > 200 then s[..200] + "..." else s
  }

  /** `sep.join(parts)`. */
  function Join(parts: seq<string>, sep: string): string {
    if parts == [] then ""
    else if |parts| == 1 then parts[0]
    else parts[0] + sep + Join(parts[1..], sep)
  }

  /** Joining non-empty parts never gives the empty string. */
  lemma JoinNonEmpty(parts: seq<string>, sep: string)
    requires parts != [] && parts[0] != ""
    ensures Join(parts, sep) != ""
  {
  }

  /** The labelled size and revenue parts, in their fixed order, each present only when its column is truthy. */
  function ProfileParts(c: Company): seq<string> {
    (if Truthy(c.marketSize) then ["Market Size: " + c.marketSize.value] else [])
    + (if Truthy(c.companySize) then ["Company Size: " + c.companySize.value] else [])
    + (if Truthy(c.revenueThreshold) then ["Revenue: " + c.revenueThreshold.value] else [])
  }

  predicate HasProfile(c: Company) {
    Truthy(c.marketSize) || Truthy(c.companySize) || Truthy(c.revenueThreshold)
  }

  /** The description the list shows for a company (routers/company.py:83-100). */
  function Description(c: Company): string {
    var parts := ProfileParts(c);
    if parts != [] then Join(parts, PartSeparator)
    else if Truthy(c.painPoints) then Truncate(c.painPoints.value)
    else if Truthy(c.buyingTriggers) then Truncate(c.buyingTriggers.value)
    else Placeholder
  }

  /** There are profile parts exactly when one of the three columns is truthy. */
  lemma ProfilePartsIff(c: Company)
    ensures ProfileParts(c) != [] <==> HasProfile(c)
    ensures |ProfileParts(c)| <= 3
  {
  }

  /** With size or revenue data, the description is made of those parts
      alone: pain points and buying triggers do not change it. */
  lemma DescriptionIgnoresNotes(c: Company, painPoints: Option<string>, buyingTriggers: Option<string>)
    requires HasProfile(c)
    ensures Description(c.(painPoints := painPoints, buyingTriggers := buyingTriggers)) == Description(c)
    ensures Description(c) == Join(ProfileParts(c), PartSeparator)
  {
    ProfilePartsIff(c);
    ProfilePartsIff(c.(painPoints := painPoints, buyingTriggers := buyingTriggers));
  }

  /** With all three columns present the parts appear in the fixed order
      market size, company size, revenue, separated by " | ". */
  lemma DescriptionFullProfile(c: Company)
    requires Truthy(c.marketSize) && Truthy(c.companySize) && Truthy(c.revenueThreshold)
    ensures Description(c) ==
      "Market Size: " + c.marketSize.value + " | Company Size: " + c.companySize.value + " | Revenue: " + c.revenueThreshold.value
  {
    var m, z, v := "Market Size: " + c.marketSize.value, "Company Size: " + c.companySize.value, "Revenue: " + c.revenueThreshold.value;
    assert ProfileParts(c) == [m, z, v];
    assert [m, z, v][1..] == [z, v] && [z, v][1..] == [v];
    assert Join([z, v], PartSeparator) == z + PartSeparator + v;
    assert Join([m, z, v], PartSeparator) == m + PartSeparator + (z + PartSeparator + v);
  }

  /** Without size or revenue data the description comes from the pain
      points, else the buying triggers, else the placeholder; it is never
      longer than 203 characters, and begins with the first 200 characters
      of the text it comes from. */
  lemma DescriptionWithoutProfile(c: Company)
    requires !HasProfile(c)
    ensures |Description(c)| <= TruncationLength + |Ellipsis|
    ensures Truthy(c.painPoints) ==> Description(c) == Truncate(c.painPoints.value)
    ensures !Truthy(c.painPoints) && Truthy(c.buyingTriggers) ==> Description(c) == Truncate(c.buyingTriggers.value)
    ensures !Truthy(c.painPoints) && !Truthy(c.buyingTriggers) ==> Description(c) == Placeholder
  {
    ProfilePartsIff(c);
  }

  /** Every company gets a non-empty description. */
  lemma DescriptionNonEmpty(c: Company)
    ensures Description(c) != ""
  {
    ProfilePartsIff(c);
    var parts := ProfileParts(c);
    if parts != [] {
      JoinNonEmpty(parts, PartSeparator);
    }
  }

  /** The source's construction: collect the parts one append at a time,
      then join them or fall back to the notes. */
  method BuildDescription(c: Company) returns (description: string)
    ensures description == Description(c)
  {
    var parts: seq<string> := [];
    if Truthy(c.marketSize) {
      parts := parts + ["Market Size: " + c.marketSize.value];
    }
    if Truthy(c.companySize) {
      parts := parts + ["Company Size: " + c.companySize.value];
    }
    if Truthy(c.revenueThreshold) {
      parts := parts + ["Revenue: " + c.revenueThreshold.value];
    }
    assert parts == ProfileParts(c);
    if parts == [] {
      if Truthy(c.painPoints) {
        description := Truncate(c.painPoints.value);
      } else if Truthy(c.buyingTriggers) {
        description := Truncate(c.buyingTriggers.value);
      } else {
        description := Placeholder;
      }
    } else {
      description := Join(parts, PartSeparator);
    }
  }

  // ---------------------------------------------------------------------
  // The company list
  // ---------------------------------------------------------------------

  /** The list entry of one fetched row. */
  function ListItem(c: Company): CompanyListItem {
    CompanyListItem(c.name, c.website, Some(Description(c)), Slug(Some(c.name)))
  }

  /** Every list entry carries a well-formed, non-empty slug. */
  lemma ListItemSlugWellFormed(c: Company)
    ensures WellFormedSlug(ListItem(c).companySlug)
    ensures c.name != "" ==> ListItem(c).companySlug != ""
  {
    SlugIsWellFormed(Some(c.name));
    SlugIsHyphenatedWords(Some(c.name));
  }

  /** The body of the source's loop for one row: its slug, its description, its entry. */
  method BuildListItem(company: Company) returns (item: CompanyListItem)
    ensures item == ListItem(company)
  {
    var slug := GenerateSlug(Some(company.name));
    var description := BuildDescription(company);
    item := CompanyListItem(company.name, company.website, Some(description), slug);
  }

  /** `get_companies` after validation of its query parameters. `count` is
      the result of the count query (`None` when it returned no value) and
      `fetch(offset, limit)` the rows of the page query. */
  method GetCompanies(page: int, perPage: int, count: Option<nat>, fetch: (nat, nat) -> seq<Company>)
    returns (r: Result<CompanyListResponse, ApiError>)
    requires page >= 1 && perPage >= 1
    ensures
      var pp := CappedPerPage(perPage);
      var total := if count.Some? then count.value else 0;
      var tp := TotalPages(total, pp);
      && (r.Failure? <==> PageOutOfRange(page, tp))
      && (r.Failure? ==> r.error == BadRequest(PageDetail(page, tp)) && StatusCode(r.error) == 400)
      && (r.Success? ==>
        var rows := fetch(Offset(page, pp), pp);
        && r.value.companiesTotal == total
        && r.value.totalPages == tp
        && r.value.currentPage == page
        && r.value.perPage == pp
        && |r.value.companies| == |rows|
        && forall i :: 0 <= i < |rows| ==> r.value.companies[i] == ListItem(rows[i]))
  {
    var pp := perPage;
    if pp > Config.MaxPageSize {
      pp := Config.MaxPageSize;
    }
    assert pp == CappedPerPage(perPage);
    var offset := Offset(page, pp);
    var totalCount := if count.Some? then count.value else 0;
    var totalPages := TotalPages(totalCount, pp);
    if page > totalPages && totalPages > 0 {
      return Failure(BadRequest(PageDetail(page, totalPages)));
    }
    var rows := fetch(offset, pp);
    var companyList: seq<CompanyListItem> := [];
    for i := 0 to |rows|
      invariant |companyList| == i
      invariant forall j :: 0 <= j < i ==> companyList[j] == ListItem(rows[j])
    {
      var item := BuildListItem(rows[i]);
      companyList := companyList + [item];
    }
    r := Success(CompanyListResponse(totalCount, companyList, totalPages, page, pp));
  }

  /** With no rows there are no pages, and no page is refused. */
  lemma EmptyTableAcceptsEveryPage(page: int, perPage: int)
    requires page >= 1 && perPage >= 1
    ensures !PageOutOfRange(page, TotalPages(0, CappedPerPage(perPage)))
  {
  }

  // ---------------------------------------------------------------------
  // Lookup by slug
  // ---------------------------------------------------------------------

  /** What `get_company_by_slug` returns for a found company: every
      column, and the requested slug. */
  datatype CompanyDetail = CompanyDetail(
    rowId: int,
    companyName: string,
    companyWebsite: Option<string>,
    linkedinCompanyUrl: Option<string>,
    isProfiled: Option<bool>,
    marketSize: Option<string>,
    companySize: Option<string>,
    revenueThreshold: Option<string>,
    painPoints: Option<string>,
    buyingTriggers: Option<string>,
    lastProfiledOn: Option<string>,
    companySlug: string)

  function DetailOf(c: Company, slug: string): CompanyDetail {
    CompanyDetail(c.rowId, c.name, c.website, c.linkedinUrl, c.isProfiled, c.marketSize,
      c.companySize, c.revenueThreshold, c.painPoints, c.buyingTriggers, c.lastProfiledOn, slug)
  }

  /** `companies[i]` is the first company whose name has slug `slug`. */
  predicate FirstMatch(companies: seq<Company>, slug: string, i: int) {
    && 0 <= i < |companies|
    && Slug(Some(companies[i].name)) == slug
    && forall j :: 0 <= j < i ==> Slug(Some(companies[j].name)) != slug
  }

  /** The scan of `get_company_by_slug` over every company, in the order
      the table returns them. */
  method GetCompanyBySlug(slug: string, companies: seq<Company>) returns (r: Result<CompanyDetail, ApiError>)
    ensures r.Failure? <==> forall i :: 0 <= i < |companies| ==> Slug(Some(companies[i].name)) != slug
    ensures r.Failure? ==> r.error == NotFound(SlugDetail(slug)) && StatusCode(r.error) == 404
    ensures r.Success? ==> exists i :: FirstMatch(companies, slug, i) && r.value == DetailOf(companies[i], slug)
  {
    for i := 0 to |companies|
      invariant forall j :: 0 <= j < i ==> Slug(Some(companies[j].name)) != slug
    {
      var candidate := GenerateSlug(Some(companies[i].name));
      if candidate == slug {
        assert FirstMatch(companies, slug, i);
        return Success(DetailOf(companies[i], slug));
      }
    }
    return Failure(NotFound(SlugDetail(slug)));
  }

  /** A string that is not a well-formed slug is never found (the empty
      string aside, which is the slug of an empty name). */
  lemma MalformedSlugNotFound(slug: string, companies: seq<Company>)
    requires !WellFormedSlug(slug)
    ensures forall i :: 0 <= i < |companies| ==> Slug(Some(companies[i].name)) != slug
  {
    forall i | 0 <= i < |companies|
      ensures Slug(Some(companies[i].name)) != slug
    {
      SlugIsWellFormed(Some(companies[i].name));
    }
  }

  /** The found company is unique as a first match. */
  lemma FirstMatchUnique(companies: seq<Company>, slug: string, i: int, j: int)
    requires FirstMatch(companies, slug, i) && FirstMatch(companies, slug, j)
    ensures i == j
  {
  }
}
