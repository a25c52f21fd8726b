/** The `company` table row as the router reads it (models/models.py:7-21).
    Nullable columns are options; the timestamp is kept as its text, since
    the router only passes it through. */
module Models {
  import opened Wrappers

  datatype Company = Company(
    rowId: int,
    name: string,
    website: Option<string>,
    linkedinUrl: Option<string>,
    isProfiled: Option<bool>,
    marketSize: Option<string>,
    companySize: Option<string>,
    revenueThreshold: Option<string>,
    painPoints: Option<string>,
    buyingTriggers: Option<string>,
    lastProfiledOn: Option<string>)
}
