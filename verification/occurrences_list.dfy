/** The occurrence management page of the operator application
    (src/pages/OccurrencesList.tsx): the status, category and protocol
    filters over the occurrence list, and which actions each row offers. */
module OccurrencesList {

  import opened Common
  import opened Text
  import opened MockData

  /** The row filter, one early `return false` per select box or search
      field, in the order of the component. */
  function Keep(statusFilter: string, categoryFilter: string, search: string, lower: string -> string): Occurrence -> bool
  {
    (o: Occurrence) =>
      if statusFilter != "ALL" && StatusKey(o.status) != statusFilter then false
      else if categoryFilter != "ALL" && o.categoryId != categoryFilter then false
      else if search != "" && !IncludesFolded(lower, o.protocol, search) then false
      else true
  }

  /** The search field matches an occurrence when it is empty or occurs,
      case-folded, in the protocol. */
  predicate SearchAdmits(search: string, lower: string -> string, o: Occurrence)
  {
    search == "" || IncludesFolded(lower, o.protocol, search)
  }

  /** The rows the page lists: the occurrences that pass all three
      filters, in list order. */
  function Filtered(occs: seq<Occurrence>, statusFilter: string, categoryFilter: string, search: string,
                    lower: string -> string): (r: seq<Occurrence>)
    ensures forall o :: o in r <==>
      && o in occs
      && SelectAdmits(statusFilter, StatusKey(o.status))
      && SelectAdmits(categoryFilter, o.categoryId)
      && SearchAdmits(search, lower, o)
    ensures IsSubsequence(r, occs)
  {
    Filter(occs, Keep(statusFilter, categoryFilter, search, lower))
  }

  /** With "ALL" in both select boxes and an empty search every occurrence
      is listed. */
  lemma FiltersOff(occs: seq<Occurrence>, lower: string -> string)
    ensures Filtered(occs, "ALL", "ALL", "", lower) == occs
  {
    FilterAll(occs, Keep("ALL", "ALL", "", lower));
  }

  /** The three filters are independent: narrowing by status first and
      then by category and search lists the same rows. */
  lemma FiltersCompose(occs: seq<Occurrence>, statusFilter: string, categoryFilter: string, search: string,
                       lower: string -> string)
    ensures Filtered(Filtered(occs, statusFilter, "ALL", "", lower), "ALL", categoryFilter, search, lower)
         == Filtered(occs, statusFilter, categoryFilter, search, lower)
  {
    FilterFilter(occs, Keep(statusFilter, "ALL", "", lower), Keep("ALL", categoryFilter, search, lower),
                 Keep(statusFilter, categoryFilter, search, lower));
  }

  /** Choosing a status lists only occurrences in that status. */
  lemma StatusFilterExact(occs: seq<Occurrence>, s: OccurrenceStatus, categoryFilter: string, search: string,
                          lower: string -> string)
    ensures forall o :: o in Filtered(occs, StatusKey(s), categoryFilter, search, lower) ==> o.status == s
  {
    forall o | o in Filtered(occs, StatusKey(s), categoryFilter, search, lower)
      ensures o.status == s
    {
      StatusKeyRoundTrip(s);
      StatusKeyRoundTrip(o.status);
    }
  }

  /** The buttons of a row. */
  datatype Action = Approve | Reject | Assign | Details

  /** Approve and reject for an occurrence awaiting approval, assign for an
      approved one, and the details dialog for every row. */
  function Actions(o: Occurrence): (r: seq<Action>)
    ensures Approve in r <==> o.status == PendenteAprovacao
    ensures Reject in r <==> o.status == PendenteAprovacao
    ensures Assign in r <==> o.status == Aprovada
    ensures Details in r
    ensures Distinct(r)
  {
    (if o.status == PendenteAprovacao then [Approve, Reject] else [])
    + (if o.status == Aprovada then [Assign] else [])
    + [Details]
  }

  /** No row offers both approval and assignment. */
  lemma ApproveOrAssign(o: Occurrence)
    ensures !(Approve in Actions(o) && Assign in Actions(o))
  {
  }
}
