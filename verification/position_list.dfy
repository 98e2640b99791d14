/** The position list view (app/components/PositionList.tsx): a
    case-insensitive search on the position name or its parent's name, and
    the payload of its `handleSave`. */
module PositionList {
  import opened Js
  import opened Seqs
  import opened Records
  import opened Listing

  /** The position name includes the term, or the position has a truthy
      parent name that includes it, both compared lower-cased. */
  predicate Matches(p: Position, term: string) {
    || Includes(Lower(p.position), Lower(term))
    || (if Truthy(p.parentPosition) then Includes(Lower(p.parentPosition.s), Lower(term)) else false)
  }

  /** The truthiness test on the parent name changes nothing: an empty parent
      name only includes the empty term, which every position name includes too. */
  lemma MatchesNameOrParent(p: Position, term: string)
    ensures Matches(p, term) <==>
      Includes(Lower(p.position), Lower(term)) || (p.parentPosition.Str? && Includes(Lower(p.parentPosition.s), Lower(term)))
  {
    if p.parentPosition.Str? && p.parentPosition.s == "" && Includes(Lower(p.parentPosition.s), Lower(term)) {
      var i :| OccursAt(Lower(p.parentPosition.s), Lower(term), i);
      assert Lower(term) == "";
      IncludesEmpty(Lower(p.position));
    }
  }

  /** Typing `term` into the search box. */
  function Search(v: ListView<Position>, data: seq<Position>, term: string): (r: ListView<Position>)
    ensures r.searchTerm == term && r.page == 1
    ensures r.noResultsFound <==> forall i :: 0 <= i < |data| ==> !Matches(data[i], term)
  {
    ApplySearch(v.(searchTerm := term), data, p => Matches(p, term))
  }

  /** The search result is exactly the matching positions, each as often as
      fetched, in fetched order. */
  lemma SearchFindsExactlyMatches(v: ListView<Position>, data: seq<Position>, term: string)
    ensures forall p :: p in Search(v, data, term).filtered <==> p in data && Matches(p, term)
    ensures forall p :: multiset(Search(v, data, term).filtered)[p] == if Matches(p, term) then multiset(data)[p] else 0
    ensures IsSubsequence(Search(v, data, term).filtered, data)
  {
    FilterMembers(data, p => Matches(p, term));
    FilterCounts(data, p => Matches(p, term));
    FilterOrder(data, p => Matches(p, term));
  }

  /** The empty term keeps the whole list. */
  lemma EmptyTermKeepsAll(v: ListView<Position>, data: seq<Position>)
    ensures Search(v, data, "").filtered == data
  {
    forall i | 0 <= i < |data|
      ensures Matches(data[i], "")
    {
      IncludesEmpty(Lower(data[i].position));
    }
    FilterAll(data, p => Matches(p, ""));
  }

  /** `handleSave`: always an update, keyed by the position's own id, with the
      parent name and id defaulted to `""`. */
  function SaveCall(p: Position): (c: PositionCall)
    ensures c.UpdatePosition?
    ensures c.payload.id == Str(p.id) && c.payload.position == p.position
    ensures c.payload.parentPosition == "" <==> !Truthy(p.parentPosition)
    ensures c.payload.parentPosition != "" ==> p.parentPosition == Str(c.payload.parentPosition)
    ensures c.payload.parentPositionId == "" <==> !Truthy(p.parentPositionId)
    ensures c.payload.parentPositionId != "" ==> p.parentPositionId == Str(c.payload.parentPositionId)
  {
    UpdatePosition(PositionPayload(Str(p.id), p.position, OrEmpty(p.parentPosition), OrEmpty(p.parentPositionId)))
  }
}
