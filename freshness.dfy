/** When the cached category tree is downloaded again. */
module Freshness {

  /** A calendar date, compared as Python compares dates. */
  datatype Date = Date(year: int, month: int, day: int)

  predicate Before(a: Date, b: Date)
  {
    a.year < b.year ||
    (a.year == b.year && (a.month < b.month || (a.month == b.month && a.day < b.day)))
  }

  /** The refresh condition as written: download when there is no cached file, or
      when the file's modification date is later than the run date. */
  predicate NeedsRefresh(fileExists: bool, modified: Date, runDate: Date)
  {
    !fileExists || Before(runDate, modified)
  }

  /** The refresh condition as evidently intended: download when there is no cached
      file, or when it was last written before the run date. */
  predicate NeedsRefreshIntended(fileExists: bool, modified: Date, runDate: Date)
  {
    !fileExists || Before(modified, runDate)
  }

  /** As written, a cached file from an earlier day is never downloaded again. */
  lemma StaleCacheKept(modified: Date, runDate: Date)
    requires Before(modified, runDate)
    ensures !NeedsRefresh(true, modified, runDate)
  {
  }

  /** As intended, a cached file from an earlier day is downloaded again, and one
      written on the run date (as the download leaves it) is kept. */
  lemma StaleCacheRefreshed(modified: Date, runDate: Date)
    ensures Before(modified, runDate) ==> NeedsRefreshIntended(true, modified, runDate)
    ensures !NeedsRefreshIntended(true, runDate, runDate)
    ensures NeedsRefreshIntended(false, modified, runDate)
  {
  }
}
