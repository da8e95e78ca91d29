/** What the route labeler and the garbage collector know about a revision. */
module Revisions {
  import opened Common

  /** The metadata the labeler patches: the routes annotation, the routing-state label
      ("" when absent) and the routing-state-modified annotation, as the time it parses to. */
  datatype Meta = Meta(routes: Option<string>, state: string, modified: Option<int>)

  /** A revision: its owning configuration ("" when none), the patched metadata, the
      preserved annotation and the creation time. */
  datatype Revision = Revision(name: string, config: string, meta: Meta, preserved: string, created: int)

  const ACTIVE: string := "active"

  const RESERVE: string := "reserve"
}
