/**
 * The two value mappings of the catalogue listing (`getList`): the sort order to the `order[...]`
 * query clause, and the manga's `status` attribute to its publication state.
 */
module Listing {
  import opened Wrappers

  /** The sort orders the parser is asked for; `Other` stands for every constant of the shared
    * `SortOrder` enum this parser does not list. */
  datatype SortOrder = Updated | Alphabetical | Newest | Popularity | Other(name: string)

  /** `sortOrders`: the orders the parser offers. */
  predicate Supported(order: SortOrder) {
    order.Updated? || order.Alphabetical? || order.Newest? || order.Popularity?
  }

  /** The text appended after "&order" for a sort order: each offered order has a clause of its own,
    * which reads back as that order, and anything unlisted sorts by followers. */
  function OrderClause(order: SortOrder): (r: string)
    ensures OrderOfClause(r) == Some(if Supported(order) then order else Popularity)
  {
    match order
    case Updated => "[latestUploadedChapter]=desc"
    case Alphabetical => "[title]=asc"
    case Newest => "[createdAt]=desc"
    case Popularity => "[followedCount]=desc"
    case Other(_) => "[followedCount]=desc"
  }

  /** The offered order a clause asks for. */
  function OrderOfClause(clause: string): (r: Option<SortOrder>)
    ensures r.Some? ==> Supported(r.value)
  {
    if clause == "[latestUploadedChapter]=desc" then Some(Updated)
    else if clause == "[title]=asc" then Some(Alphabetical)
    else if clause == "[createdAt]=desc" then Some(Newest)
    else if clause == "[followedCount]=desc" then Some(Popularity)
    else None
  }

  /** Two offered orders never share a clause; an unlisted order behaves as `Popularity`. */
  lemma OfferedClausesDistinct(a: SortOrder, b: SortOrder)
    ensures Supported(a) && Supported(b) && a != b ==> OrderClause(a) != OrderClause(b)
    ensures !Supported(a) ==> OrderClause(a) == OrderClause(Popularity)
  {
  }

  /** `MangaState`, restricted to the two states the listing produces. */
  datatype MangaState = Ongoing | Finished

  /** The state for the `status` attribute: "ongoing" and "completed" are known, anything else
    * (including a missing attribute) leaves the state unknown. */
  function StateOfStatus(status: Option<string>): (r: Option<MangaState>)
    ensures r.Some? <==> status == Some("ongoing") || status == Some("completed")
  {
    match status
    case Some("ongoing") => Some(Ongoing)
    case Some("completed") => Some(Finished)
    case _ => None
  }

  /** The attribute text the site uses for a state. */
  function StatusOfState(state: MangaState): string {
    match state
    case Ongoing => "ongoing"
    case Finished => "completed"
  }

  /** Reading the site's own text for a state gives that state back, and a recognised status is the
    * site's text for the state it maps to. */
  lemma StatusRoundTrip(state: MangaState, status: Option<string>)
    ensures StateOfStatus(Some(StatusOfState(state))) == Some(state)
    ensures StateOfStatus(status).Some? ==> status == Some(StatusOfState(StateOfStatus(status).value))
  {
  }
}
