/** The pagination settings of the application (config.py:22-24). */
module Config {
  const DefaultPageSize: int := 10
  const MaxPageSize: int := 100
}
