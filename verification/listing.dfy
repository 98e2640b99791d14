/** The state shared by the two list views (app/components/Employeelist.tsx and
    app/components/PositionList.tsx): the search term, the filtered list, the
    no-results flag and the current page, with the operations both views
    perform on it in the same way. */
module Listing {
  import opened Js
  import opened Seqs
  import opened Records

  const ItemsPerPage: nat := 10

  datatype ListView<T> = ListView(searchTerm: string, filtered: seq<T>, noResultsFound: bool, page: int)

  /** The state a view starts in. */
  function Initial<T>(): ListView<T> {
    ListView("", [], false, 1)
  }

  function Min(a: int, b: int): int {
    if a < b then a else b
  }

  /** `Math.ceil(n / itemsPerPage)`. */
  function TotalPages(n: nat): (r: nat)
    ensures r * ItemsPerPage >= n
    ensures r > 0 ==> (r - 1) * ItemsPerPage < n
  {
    (n + ItemsPerPage - 1) / ItemsPerPage
  }

  /** `filtered.slice((p - 1) * itemsPerPage, p * itemsPerPage)`. */
  function Page<T>(s: seq<T>, p: int): (r: seq<T>)
    ensures |r| <= ItemsPerPage
    ensures p >= 1 ==> r == s[Min((p - 1) * ItemsPerPage, |s|)..Min(p * ItemsPerPage, |s|)]
    ensures p == 0 ==> r == []
    ensures p > TotalPages(|s|) ==> r == []
  {
    Slice(s, (p - 1) * ItemsPerPage, p * ItemsPerPage)
  }

  /** The rows a view shows. */
  function Displayed<T>(v: ListView<T>): seq<T> {
    Page(v.filtered, v.page)
  }

  /** Pages 1 to `k`, one after the other. */
  function PagesThrough<T>(s: seq<T>, k: nat): seq<T> {
    if k == 0 then [] else PagesThrough(s, k - 1) + Page(s, k)
  }

  /** The first `k` pages are the first `k * itemsPerPage` items. */
  lemma {:induction false} PagesThroughPrefix<T>(s: seq<T>, k: nat)
    ensures PagesThrough(s, k) == s[..Min(k * ItemsPerPage, |s|)]
  {
    if k > 0 {
      PagesThroughPrefix(s, k - 1);
      var a := Min((k - 1) * ItemsPerPage, |s|);
      var b := Min(k * ItemsPerPage, |s|);
      assert s[..a] + s[a..b] == s[..b];
    }
  }

  /** The pages 1 to `totalPages` partition the list: together they are the
      list, in order. */
  lemma PagesCoverList<T>(s: seq<T>)
    ensures PagesThrough(s, TotalPages(|s|)) == s
  {
    PagesThroughPrefix(s, TotalPages(|s|));
  }

  /** 25 items make 3 pages, the last of which holds the final 5. */
  lemma TwentyFiveItems<T>(s: seq<T>)
    requires |s| == 25
    ensures TotalPages(|s|) == 3
    ensures Page(s, 3) == s[20..] && |Page(s, 3)| == 5
  {
  }

  /** The body of the debounced search: filter the fetched data, set the
      no-results flag and go back to page 1. */
  function ApplySearch<T(!new)>(v: ListView<T>, data: seq<T>, keep: T -> bool): (r: ListView<T>)
    ensures r.page == 1
    ensures r.searchTerm == v.searchTerm
    ensures forall i :: 0 <= i < |r.filtered| ==> keep(r.filtered[i])
    ensures r.noResultsFound <==> forall i :: 0 <= i < |data| ==> !keep(data[i])
  {
    var filtered := Filter(data, keep);
    FilterMembers(data, keep);
    assert |filtered| > 0 ==> filtered[0] in filtered;
    ListView(v.searchTerm, filtered, |filtered| == 0, 1)
  }

  /** `clearSearch`: the whole fetched list on page 1, with no term and no flag. */
  function ClearSearch<T>(v: ListView<T>, data: seq<T>): (r: ListView<T>)
    ensures r.searchTerm == "" && r.filtered == data && !r.noResultsFound && r.page == 1
  {
    ListView("", data, false, 1)
  }

  /** Clearing after any search restores the state of clearing directly, and
      shows the first page of the whole list. */
  lemma ClearSearchUndoesSearch<T(!new)>(v: ListView<T>, data: seq<T>, keep: T -> bool)
    ensures ClearSearch(ApplySearch(v, data, keep), data) == ClearSearch(v, data)
    ensures Displayed(ClearSearch(v, data)) == data[..Min(ItemsPerPage, |data|)]
  {
  }

  /** The effect that copies freshly fetched data into the filtered list: only
      a non-empty fetch replaces it, and the term, flag and page are kept. */
  function SyncData<T>(v: ListView<T>, data: seq<T>): (r: ListView<T>)
    ensures |data| > 0 ==> r.filtered == data
    ensures |data| == 0 ==> r == v
    ensures r.searchTerm == v.searchTerm && r.noResultsFound == v.noResultsFound && r.page == v.page
  {
    if |data| > 0 then v.(filtered := data) else v
  }

  /** A view starts with no rows; the first non-empty fetch shows its first
      page of up to 10 rows. */
  lemma FirstFetchShowsFirstPage<T>(data: seq<T>)
    ensures Displayed(Initial<T>()) == []
    ensures |data| > 0 ==> Displayed(SyncData(Initial(), data)) == data[..Min(ItemsPerPage, |data|)]
  {
  }

  /** After the last record is deleted the refetch returns nothing, so the
      view keeps showing the rows it showed before. */
  lemma EmptyFetchKeepsStaleRows<T>(v: ListView<T>)
    ensures Displayed(SyncData(v, [])) == Displayed(v)
  {
  }

  /** A fetch that returns something replaces the rows even while a search
      term is active: the new rows are not filtered by it. */
  lemma FetchIgnoresActiveTerm<T>(v: ListView<T>, data: seq<T>)
    requires |data| > 0
    ensures SyncData(v, data).filtered == data && SyncData(v, data).searchTerm == v.searchTerm
  {
  }

  /** What `handleDelete` of a list view does once the dialog settles. */
  datatype DeleteEffect = DeleteEffect(refetch: bool, toast: Toast)

  /** The request is sent only when the dialog is confirmed; the list is
      refetched only when the request returns a truthy value, and anything
      else after a confirmation shows the error toast. */
  function HandleDelete(confirmed: bool, reply: Reply): (r: DeleteEffect)
    ensures r.refetch <==> confirmed && reply == Returned(true)
    ensures r.toast == SuccessToast <==> r.refetch
    ensures r.toast == ErrorToast <==> confirmed && reply != Returned(true)
    ensures r.toast == NoToast <==> !confirmed
  {
    if !confirmed then DeleteEffect(false, NoToast)
    else if reply == Returned(true) then DeleteEffect(true, SuccessToast)
    else DeleteEffect(false, ErrorToast)
  }
}
