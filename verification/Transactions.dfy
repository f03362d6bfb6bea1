/** All-or-nothing commits: a body runs on a copy that replaces the database only when it succeeds. */
module Transactions {
  import opened Wrappers

  datatype Failure = Stale | Duplicate | Refused

  function Within<D>(db: D, body: D -> Result<D, Failure>): D {
    match body(db)
    case Ok(after) => after
    case Err(_) => db
  }
}
