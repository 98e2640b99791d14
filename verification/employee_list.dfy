/** The employee list view (app/components/Employeelist.tsx): a
    case-insensitive search on the employee's name over the shared list state. */
module EmployeeList {
  import opened Js
  import opened Seqs
  import opened Records
  import opened Listing

  /** `user.name.toLowerCase().includes(term.toLowerCase())`. */
  predicate Matches(e: Employee, term: string) {
    Includes(Lower(e.name), Lower(term))
  }

  /** Typing `term` into the search box: the term is shown at once and the
      (debounced) filter runs over the fetched employees. */
  function Search(v: ListView<Employee>, data: seq<Employee>, term: string): (r: ListView<Employee>)
    ensures r.searchTerm == term && r.page == 1
    ensures r.noResultsFound <==> forall i :: 0 <= i < |data| ==> !Matches(data[i], term)
  {
    ApplySearch(v.(searchTerm := term), data, e => Matches(e, term))
  }

  /** The search result is exactly the matching employees: each one as often
      as it was fetched, no other, in fetched order. */
  lemma SearchFindsExactlyMatches(v: ListView<Employee>, data: seq<Employee>, term: string)
    ensures forall e :: e in Search(v, data, term).filtered <==> e in data && Matches(e, term)
    ensures forall e :: multiset(Search(v, data, term).filtered)[e] == if Matches(e, term) then multiset(data)[e] else 0
    ensures IsSubsequence(Search(v, data, term).filtered, data)
  {
    FilterMembers(data, e => Matches(e, term));
    FilterCounts(data, e => Matches(e, term));
    FilterOrder(data, e => Matches(e, term));
  }

  /** The empty term matches every employee, so it keeps the whole list. */
  lemma EmptyTermKeepsAll(v: ListView<Employee>, data: seq<Employee>)
    ensures Search(v, data, "").filtered == data
    ensures Search(v, data, "").noResultsFound <==> |data| == 0
  {
    forall i | 0 <= i < |data|
      ensures Matches(data[i], "")
    {
      IncludesEmpty(Lower(data[i].name));
    }
    FilterAll(data, e => Matches(e, ""));
  }

  /** Matching ignores case on both sides: names and terms that lower-case
      alike match alike. */
  lemma MatchIgnoresCase(e1: Employee, e2: Employee, t1: string, t2: string)
    requires Lower(e1.name) == Lower(e2.name) && Lower(t1) == Lower(t2)
    ensures Matches(e1, t1) <==> Matches(e2, t2)
  {
  }

  /** Typing a term in lower case finds the same employees as typing it in
      any other case. */
  lemma LowerCasedTermMatchesAlike(e: Employee, term: string)
    ensures Matches(e, Lower(term)) <==> Matches(e, term)
  {
    LowerIdempotent(term);
    MatchIgnoresCase(e, e, Lower(term), term);
  }
}
