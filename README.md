# Company slugs and the company list, modelled in Dafny

This project models the core of a lead-generation backend API: the slug
derivation of `utils/slug_utils.py`, the pagination, description and lookup
logic of the two company endpoints in `routers/company.py`, and the two
validators of `schemas/schemas.py`. It proves properties of each.

* `generate_slug` turns a company name into a URL slug. It lowercases the
  name, drops non-ASCII characters, and replaces `& @ # $ % +` by padded
  words. It then deletes everything outside `[a-z0-9\s-]`, collapses and
  trims whitespace, turns spaces into hyphens, collapses and trims hyphens,
  and falls back to `"unnamed"`.
  * `SlugUtils.Slug` is the specification. `SlugUtils.GenerateSlug` runs the
    passes one after another, with the loop over the replacement table, and
    is proved to compute `Slug`.
  * The independent reference `Hyphenation.Hyphenated` is "the words of the
    text joined by single hyphens". The lemmas show that every finishing
    pass leaves `Hyphenated` unchanged. So a slug is the hyphenated words of
    the filtered text, or the fallback.
  * From this follow:
    * the alphabet `[a-z0-9-]`;
    * no `--` and no hyphen at either end;
    * idempotence;
    * each symbol becoming a word of its own;
    * the concrete examples.
* `generate_unique_slug` returns the base slug when it is free. Otherwise it
  returns `base-k` for the smallest free counter `k`. The counter is bounded
  by the size of the set, because the candidates `base-1`, `base-2`, … are
  pairwise different (the decimal text of a number is injective, proved
  through its inverse).
* `get_companies`:
  * caps the page size at 100;
  * computes the offset and `ceil(total / per_page)`;
  * refuses (400) a page past the last when there is at least one page;
  * otherwise returns one list entry per fetched row, in order, each with
    its slug and description.
* `get_company_by_slug` returns the first company whose name has the
  requested slug, or a 404.

Modules:
* `Wrappers` for Option/Result.
* `Config` for the page-size settings.
* `Decimal` for `str(n)`.
* `SlugText`, the character classes and the string passes.
* `Hyphenation`, the reference and its invariance lemmas.
* `SlugUtils`.
* `SlugExamples`.
* `Models`, the company row.
* `Schemas`.
* `CompanyRouter`.

Where the code and its own documentation disagree, the model follows the code:

* The `generate_slug` docstring (utils/slug_utils.py:17-18) gives
  `"Tech@Corp Solutions!" -> "techcorp-solutions"` and
  `"ABC & XYZ Company" -> "abc-xyz-company"`. The code replaces `@` and `&`
  by words, so it yields `"tech-at-corp-solutions"` and
  `"abc-and-xyz-company"`. `SlugExamples.TechAtCorp` and
  `SlugExamples.AbcAndXyz` prove these values.
* A falsy input (`None` or `""`) gives `""`, not `"unnamed"`
  (utils/slug_utils.py:20-21).
* "`"unnamed"` exactly when nothing survives the filtering" is not literally
  true: the name "Unnamed" gives "unnamed" too. The model states the exact
  condition: the fallback is taken exactly when no letter or digit survives
  the character filter (`SlugUtils.SlugIsHyphenatedWords`).

## Model

| member | source | states |
|---|---|---|
| SlugText.LowerAscii | utils/slug_utils.py:24 | same length; each uppercase ASCII letter becomes its lowercase letter (code point + 32); every other character is kept |
| SlugText.StripNonAscii | utils/slug_utils.py:28 | the result is no longer than the input and holds only ASCII characters |
| SlugText.StripNonAsciiChar | utils/slug_utils.py:28 | one character is kept exactly when it is ASCII and dropped otherwise; with `StripNonAsciiAppend` this fixes the filter on every text |
| SlugText.ReplaceAll | utils/slug_utils.py:41 | definition: `str.replace(sym, repl)` for a one-character `sym`, every occurrence replaced, left to right |
| SlugText.SymbolText | utils/slug_utils.py:31-41 | definition: what one character becomes after the table's replacements in order (its padded word when it is a symbol, itself otherwise) |
| SlugText.ExpandWith | utils/slug_utils.py:31-41 | definition: the text after replacing every symbol of a table by its padded word, character by character, with the six entries of `Replacements` (`& @ # $ % +` to `and at number dollar percent plus`) in the dict's order |
| SlugText.ReplacementsWellFormed | utils/slug_utils.py:31-38 | the six symbols are distinct and none is a letter, digit, space or hyphen; the six words are non-empty lowercase words |
| SlugText.ReplaceAllAbsent | utils/slug_utils.py:41 | replacing a symbol that does not occur leaves the text unchanged |
| SlugText.ReplaceAllRemoves | utils/slug_utils.py:41 | after replacing a symbol by a text without it, the symbol no longer occurs |
| SlugText.ExpandWithStep | utils/slug_utils.py:40-41 | applying one more table entry by `str.replace` to the text expanded with the earlier entries gives the text expanded with the longer table, when the new symbol is fresh |
| SlugText.TablePrefixFresh | utils/slug_utils.py:40-41 | each symbol of a well-formed table differs from the earlier symbols and occurs in none of their padded words, so the entries can be applied one by one |
| SlugText.ExpandWithOfNoSymbols | utils/slug_utils.py:40-41 | a text of allowed characters is unchanged by the symbol replacements |
| SlugText.KeepAllowed | utils/slug_utils.py:44 | the result holds only `[a-z0-9\s-]` characters, and a text already made of them is unchanged |
| SlugText.KeepAllowedChar | utils/slug_utils.py:44 | one character is kept exactly when it is in `[a-z0-9\s-]` and deleted otherwise; with `KeepAllowedAppend` this fixes the filter on every text |
| SlugText.CollapseRuns | utils/slug_utils.py:47 | the result is empty exactly when the input is, and begins with the input's first character or with the run's representative |
| SlugText.CollapseRunsLeavesSingles | utils/slug_utils.py:56 | after collapsing, every class character is the representative (`' '` or `'-'`) and no two class characters are adjacent |
| SlugText.CollapseRunsKeepsAlphabet | utils/slug_utils.py:56 | collapsing keeps the allowed alphabet, keeps a text free of whitespace, and keeps the slug alphabet |
| SlugText.StripStart | utils/slug_utils.py:50 | the result is a suffix of the input that does not begin with a class character |
| SlugText.StripEnd | utils/slug_utils.py:59 | the result is a prefix of the input that does not end with a class character |
| SlugText.StripStartRemovesOnlyClass | utils/slug_utils.py:50 | every character removed in front of the remaining suffix is a class character |
| SlugText.StripEndRemovesOnlyClass | utils/slug_utils.py:59 | every character removed behind the remaining prefix is a class character |
| SlugText.Strip | utils/slug_utils.py:50 | definition: `str.strip()` for whitespace and `str.strip('-')` for hyphens, the front trimmed and then the back |
| SlugText.ReplaceChar | utils/slug_utils.py:53 | definition: `str.replace(' ', '-')`, each occurrence of one character replaced by another, position by position |
| SlugText.StripTrimsEnds | utils/slug_utils.py:59 | after `strip` no class character remains at either end |
| SlugText.StripIsPiece | utils/slug_utils.py:50 | the stripped text is a contiguous piece of the input |
| SlugText.StripKeepsChars | utils/slug_utils.py:50 | any property true of every character of the input is true of every character of the stripped text |
| SlugText.StripKeepsNoAdjacent | utils/slug_utils.py:59 | stripping cannot bring two class characters together |
| SlugText.LowerAsciiAppend | utils/slug_utils.py:24 | lowercasing distributes over concatenation |
| SlugText.StripNonAsciiAppend | utils/slug_utils.py:28 | the ASCII filter distributes over concatenation |
| SlugText.ExpandWithAppend | utils/slug_utils.py:40-41 | the symbol replacement distributes over concatenation |
| SlugText.KeepAllowedAppend | utils/slug_utils.py:44 | the character filter distributes over concatenation |
| SlugText.ReplaceAllAppend | utils/slug_utils.py:41 | `str.replace` of one character distributes over concatenation |
| SlugText.StripNonAsciiOfAscii | utils/slug_utils.py:28 | an ASCII text passes the ASCII filter unchanged |
| SlugText.LowerAsciiOfSlugChars | utils/slug_utils.py:24 | a text of slug characters is unchanged by lowercasing |
| Hyphenation.HyphenatedSplit | utils/slug_utils.py:46-59 | splitting a text at any separator splits its hyphenated words: the two halves are hyphenated independently and joined by one hyphen |
| Hyphenation.CollapseRunsKeepsWords | utils/slug_utils.py:47 | collapsing runs of whitespace or of hyphens does not change the words |
| Hyphenation.StripKeepsWords | utils/slug_utils.py:50 | `strip()` and `strip('-')` do not change the words |
| Hyphenation.ReplaceCharKeepsWords | utils/slug_utils.py:53 | turning spaces into hyphens does not change the words |
| Hyphenation.HyphenatedOfCanonical | utils/slug_utils.py:53-59 | a text without whitespace, without `--` and without edge hyphens is its own hyphenation |
| Hyphenation.HyphenatedEmptyIff | utils/slug_utils.py:61 | the hyphenated words are empty exactly when every character is a separator |
| Wrappers.Truthy | utils/slug_utils.py:20 | definition: Python truthiness of an optional string, present and non-empty; also used at routers/company.py:83-98 |
| SlugUtils.Slug | utils/slug_utils.py:20-61 | definition: `""` for a falsy input, otherwise the finishing passes applied to the filtered text, with `"unnamed"` when that is empty |
| SlugUtils.Finish | utils/slug_utils.py:46-59 | definition: collapse whitespace, strip, spaces to hyphens, collapse hyphens, strip hyphens, in that order |
| SlugUtils.Filtered | utils/slug_utils.py:24-44 | the text after lowercasing, the ASCII filter, the symbol words and the character filter holds only `[a-z0-9\s-]` |
| SlugUtils.GenerateSlug | utils/slug_utils.py:20-61 | the pass-by-pass pipeline, with the table applied one entry at a time in the dict's order, returns `Slug(text)` |
| SlugUtils.WhitespacePasses | utils/slug_utils.py:47-50 | after collapsing and stripping whitespace, the only whitespace left is the space, the alphabet is kept, and the words are unchanged |
| SlugUtils.SpacesToHyphens | utils/slug_utils.py:53 | after turning spaces into hyphens no whitespace remains, the slug alphabet holds, and the words are unchanged |
| SlugUtils.HyphenPasses | utils/slug_utils.py:56-59 | collapsing and stripping hyphens of a text without whitespace leaves no `--` and no edge hyphen, and keeps the words |
| SlugUtils.FinishIsHyphenated | utils/slug_utils.py:46-59 | the five finishing passes compute exactly the words of their input joined by single hyphens, in slug shape |
| SlugUtils.SlugIsHyphenatedWords | utils/slug_utils.py:20-61 | a falsy input gives `""`; any other input gives a non-empty slug, equal to the hyphenated words of the filtered text, or `"unnamed"` exactly when no letter or digit survives the filter |
| SlugUtils.SlugIsWellFormed | utils/slug_utils.py:44-61 | every slug holds only `[a-z0-9-]`, never contains `--`, and never begins or ends with `-` |
| SlugUtils.FilteredOfAllowed | utils/slug_utils.py:24-44 | the first four passes leave a text of allowed characters unchanged |
| SlugUtils.SlugOfWellFormed | utils/slug_utils.py:20-61 | a non-empty well-formed slug is its own slug |
| SlugUtils.SlugIdempotent | utils/slug_utils.py:20-61 | `generate_slug(generate_slug(x)) == generate_slug(x)` |
| SlugUtils.FilteredAppend | utils/slug_utils.py:24-44 | the first four passes distribute over concatenation |
| SlugUtils.FilteredSymbol | utils/slug_utils.py:31-41 | each table symbol on its own filters to its word padded with spaces |
| SlugUtils.FilteredAroundSymbol | utils/slug_utils.py:31-44 | a symbol between two texts filters to its word between the two filtered texts, with a space either side |
| SlugUtils.SymbolBecomesWord | utils/slug_utils.py:31-61 | a table symbol between texts `u` and `v` becomes its word, hyphen-delimited from the words of `u` before it and those of `v` after it |
| SlugUtils.GenerateUniqueSlug | utils/slug_utils.py:63-81 | the result is not in the set; a free base is returned unchanged; otherwise the result is `base-k` for the smallest free `k >= 1`, and `k <= |existing| + 1` |
| SlugUtils.Suffixed | utils/slug_utils.py:78 | definition: the candidate `f"{base}-{counter}"` |
| SlugUtils.SuffixedInjective | utils/slug_utils.py:78 | `base-j` and `base-k` are equal exactly when `j == k` |
| SlugUtils.FirstAlternativesCount | utils/slug_utils.py:77-79 | the candidates `base-1` … `base-n` are `n` different strings, which bounds the loop |
| Decimal.NatToString | utils/slug_utils.py:81 | the decimal text of a number is a non-empty string of digits with no leading zero |
| Decimal.DigitsValueOfNatToString | utils/slug_utils.py:81 | reading the decimal text back gives the number |
| Decimal.NatToStringInjective | utils/slug_utils.py:78 | two numbers have the same decimal text exactly when they are equal |
| SlugExamples.CedarFinancial | utils/slug_utils.py:16 | `"Cedar Financial"` gives `"cedar-financial"` |
| SlugExamples.TechAtCorp | utils/slug_utils.py:17 | `"Tech@Corp Solutions!"` gives `"tech-at-corp-solutions"` |
| SlugExamples.AbcAndXyz | utils/slug_utils.py:18 | `"ABC & XYZ Company"` gives `"abc-and-xyz-company"` |
| SlugExamples.OnlyPunctuation | utils/slug_utils.py:61 | `"!!!"` gives the fallback `"unnamed"` |
| SlugExamples.SlugOfTwoWords | utils/slug_utils.py:46-59 | a name that lowercases to two words separated by one space gives the two words joined by a hyphen |
| SlugExamples.SlugOfWordSymbolPhrase | utils/slug_utils.py:31-61 | a word, a table symbol, two words and a dropped punctuation mark give the three words and the symbol's word joined by hyphens |
| SlugExamples.SlugOfSpacedSymbol | utils/slug_utils.py:31-61 | a word, a spaced table symbol and two words give the words and the symbol's word joined by hyphens |
| Schemas.ValidatePerPage | schemas/schemas.py:46-52 | the result lies in [1, 100]; values above 100 give 100, values below 1 give the default 10, the others are kept |
| Schemas.ValidatePerPageIdempotent | schemas/schemas.py:46-52 | validating twice is validating once |
| Schemas.ValidatePerPageFixedPoints | schemas/schemas.py:46-52 | validation keeps a value exactly when it lies in [1, 100] |
| Schemas.ConvertToInt | schemas/schemas.py:35-38 | `None` becomes 0 and an integer is kept |
| CompanyRouter.StatusCode | routers/company.py:67 | definition: 400 for the page error, 404 for the slug error (also routers/company.py:174) |
| CompanyRouter.PageDetail | routers/company.py:68 | definition: `f"Page {page} does not exist. Total pages: {total_pages}"` |
| CompanyRouter.SlugDetail | routers/company.py:175 | definition: `f"Company with slug '{slug}' not found"` |
| CompanyRouter.CappedPerPage | routers/company.py:41-42 | the effective page size never exceeds 100, and a size at or below the cap is kept |
| CompanyRouter.CapAgreesWithValidator | routers/company.py:41-42 | on accepted page sizes (at least 1) the router's cap agrees with `validate_per_page` |
| CompanyRouter.Offset | routers/company.py:45 | the offset `(page - 1) * per_page` is never negative |
| CompanyRouter.OffsetsAdjacent | routers/company.py:45 | each page starts where the previous one ends |
| CompanyRouter.TotalPages | routers/company.py:62 | 0 exactly when there are no rows; otherwise the pages hold every row and one page fewer would not |
| CompanyRouter.TotalPagesLeast | routers/company.py:62 | no smaller number of pages holds every row |
| CompanyRouter.LastPageReachesEnd | routers/company.py:62 | the last page reaches the last row |
| CompanyRouter.PageOutOfRange | routers/company.py:65 | definition: the page is past the last and there is at least one page |
| CompanyRouter.AcceptedPageStartsInside | routers/company.py:65-72 | a page the overflow rule accepts, of a non-empty table, starts at an existing row |
| CompanyRouter.EmptyTableAcceptsEveryPage | routers/company.py:62-65 | with no rows, no page is refused |
| CompanyRouter.Truncate | routers/company.py:94 | at most 203 characters; a text of at most 200 characters is kept; a longer one becomes its first 200 characters followed by `"..."`; non-empty stays non-empty |
| CompanyRouter.Join | routers/company.py:100 | definition: `" | ".join(parts)` for any separator, the parts in order with the separator between neighbours |
| CompanyRouter.JoinNonEmpty | routers/company.py:100 | joining parts whose first part is non-empty gives a non-empty text |
| CompanyRouter.ProfileParts | routers/company.py:83-89 | definition: the labelled market size, company size and revenue, each present when its column is truthy, in that order |
| CompanyRouter.ProfilePartsIff | routers/company.py:83-89 | there are size or revenue parts exactly when one of the three columns is truthy, and at most three |
| CompanyRouter.DescriptionIgnoresNotes | routers/company.py:83-100 | with size or revenue data the description is the `" | "`-join of those parts, and pain points and buying triggers do not affect it |
| CompanyRouter.DescriptionFullProfile | routers/company.py:83-100 | with all three columns the description is market size, company size and revenue, labelled, in that order, separated by `" | "` |
| CompanyRouter.DescriptionWithoutProfile | routers/company.py:91-98 | without size or revenue data the description is the truncated pain points, else the truncated buying triggers, else the placeholder, and is at most 203 characters |
| CompanyRouter.Description | routers/company.py:83-100 | definition: the join of the profile parts when there are any, else the truncated pain points, else the truncated buying triggers, else the placeholder |
| CompanyRouter.DescriptionNonEmpty | routers/company.py:83-100 | every company gets a non-empty description |
| CompanyRouter.BuildDescription | routers/company.py:83-100 | building the parts by successive appends and joining them returns `Description(c)` |
| CompanyRouter.ListItem | routers/company.py:102-107 | definition: the entry of one row, with its name, website, `Description(row)` and `Slug(name)` |
| CompanyRouter.ListItemSlugWellFormed | routers/company.py:80 | every list entry's slug is well-formed, and non-empty for a non-empty name |
| CompanyRouter.BuildListItem | routers/company.py:79-107 | the entry built for a row is `ListItem(row)`, whose slug is `Slug(name)` and whose description is `Description(row)` |
| CompanyRouter.GetCompanies | routers/company.py:39-119 | fails, with status 400 and the detail naming the page and the page count, exactly when the page is past the last and there is a page; otherwise answers the total, the page count, the page, the capped size and one entry per fetched row of that page, in order |
| CompanyRouter.DetailOf | routers/company.py:158-171 | definition: the row's eleven columns with the requested slug |
| CompanyRouter.GetCompanyBySlug | routers/company.py:150-176 | fails with status 404 and the detail naming the slug exactly when no company's name has that slug; otherwise returns the first such company's columns with the requested slug |
| CompanyRouter.MalformedSlugNotFound | routers/company.py:156-157 | no company's slug is a string with a character outside `[a-z0-9-]`, a `--` or an edge hyphen, so such a lookup always fails |
| CompanyRouter.FirstMatchUnique | routers/company.py:156-171 | there is only one first match |

## Left out

- Unicode: `str.lower()` is modelled on ASCII letters only, NFKD normalisation (utils/slug_utils.py:27) is not modelled, and `encode('ascii', 'ignore')` is modelled as dropping every non-ASCII character. For a non-ASCII name the model's slug can therefore differ from the source's: an accented letter the source decomposes into an ASCII letter is simply dropped here.
- String lengths and slicing count Dafny characters; the 200-character cut of routers/company.py:94 is modelled on that count.
- `math.ceil(total_count / per_page)` goes through floating point in the source; `CompanyRouter.TotalPages` is the exact integer ceiling, which differs only for counts beyond 2^53.
- The database: the count query, the page query, the `ilike` search filter, the `order_by(company_name)` collation and the `offset`/`limit` execution (routers/company.py:48-59, 72-74, 152-153). The count (`scalar() or 0`) and the fetched rows are inputs of `GetCompanies`, the fetch as a function of offset and limit; the table is an input sequence of `GetCompanyBySlug`. The `search` parameter does not appear.
- FastAPI: routing, `Depends`, async execution and the query-parameter validation `ge=1` / `le=100`. `GetCompanies` requires `page >= 1` and `perPage >= 1` (what FastAPI guarantees) and applies the cap of lines 41-42 to any larger size.
- The 500 answers and the logging for database and unexpected errors (routers/company.py:121-134, 178-185).
- main.py, db/session.py and the rest of config.py (application settings, connection strings, engines, sessions); only the two page-size settings are modelled.
- The job schemas (schemas/schemas.py:55-80) apart from `convert_to_int`, which is the same function as at lines 35-38.
- Schemas.ConvertToInt: models `int(v)` on integers only; pydantic's coercion of other types is not modelled.
- The `last_profiled_on` timestamp is kept as an opaque text; the router only passes it through.
- The HTTP response as the framework sends it: errors are the `ApiError` values `BadRequest` and `NotFound`, with the source's status codes (`StatusCode`) and detail texts.
