/** The response records and the two validators of schemas/schemas.py. */
module Schemas {
  import opened Wrappers
  import Config

  /** One entry of the company list (schemas/schemas.py:17-22). */
  datatype CompanyListItem = CompanyListItem(
    companyName: string,
    companyWebsite: Option<string>,
    companyDescription: Option<string>,
    companySlug: string)

  /** A page of the company list (schemas/schemas.py:27-33). */
  datatype CompanyListResponse = CompanyListResponse(
    companiesTotal: int,
    companies: seq<CompanyListItem>,
    totalPages: int,
    currentPage: int,
    perPage: int)

  /** `PaginationParams.validate_per_page`: too large a page size is capped
      at the maximum, one below 1 is replaced by the default. */
  function ValidatePerPage(v: int): (r: int)
    ensures 1 <= r <= Config.MaxPageSize
    ensures v > Config.MaxPageSize ==> r == Config.MaxPageSize
    ensures v < 1 ==> r == Config.DefaultPageSize
    ensures 1 <= v <= Config.MaxPageSize ==> r == v
  {
    if v > 100 then 100
    else if v < 1 then 10
    else v
  }

  /** A validated page size passes validation unchanged. */
  lemma ValidatePerPageIdempotent(v: int)
    ensures ValidatePerPage(ValidatePerPage(v)) == ValidatePerPage(v)
  {
  }

  /** Validation changes exactly the values outside [1, 100]. */
  lemma ValidatePerPageFixedPoints(v: int)
    ensures ValidatePerPage(v) == v <==> 1 <= v <= Config.MaxPageSize
  {
  }

  /** `convert_to_int` on the integer fields of the responses: `None`
      becomes 0 and an integer is kept. */
  function ConvertToInt(v: Option<int>): (r: int)
    ensures v.None? ==> r == 0
    ensures v.Some? ==> r == v.value
  {
    if v.Some? then v.value else 0
  }
}
