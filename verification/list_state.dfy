/**
 * The module state of index.js (lines 7-13) and the operations that change
 * it: loading the fetched records, the Next and Previous listeners with
 * changePage, the sort select listener with sortUsers, and the search input
 * listener. displayUsers and updatePagination only read the state; what they
 * compute from it is Shown, PageCount and the button predicates of Paging.
 */
module ListStates {
  import opened Users
  import opened Paging
  import opened Search
  import opened Sorting
  import opened SortUsers

  class ListState {
    /** users: the records the list pages through, in display order. */
    var users: seq<User>
    /** currentPage: the page shown, counted from 1. */
    var currentPage: int
    /** currentSortAttribute: the value of the sort select. */
    var currentSortAttribute: string

    /** The page number never drops below 1. */
    ghost predicate Valid()
      reads this
    {
      1 <= currentPage
    }

    /** The page is one that exists, or page 1 when there are none. */
    ghost predicate PageInRange()
      reads this
    {
      InRange(currentPage, |users|)
    }

    /** The script's start: no records, page 1, sorting by name. */
    constructor ()
      ensures Valid() && PageInRange()
      ensures users == [] && currentPage == 1 && currentSortAttribute == "name"
    {
      users := [];
      currentPage := 1;
      currentSortAttribute := "name";
    }

    /** fetchRandomUsers on success: the fetched records replace the list; the page stays. */
    method Load(fetched: seq<User>)
      requires Valid()
      modifies this
      ensures Valid()
      ensures users == fetched
      ensures currentPage == old(currentPage) && currentSortAttribute == old(currentSortAttribute)
    {
      users := fetched;
    }

    /** The records displayUsers lists for the current page. */
    function Shown(): (r: seq<User>)
      reads this
      requires Valid()
      ensures |r| <= PageSize
      ensures r == users[Min(PageStart(currentPage), |users|)..Min(PageStart(currentPage) + PageSize, |users|)]
      ensures r == [] <==> |users| <= PageStart(currentPage)
    {
      PageSlice(users, currentPage)
    }

    /** totalPages in updatePagination. */
    function PageCount(): (n: nat)
      reads this
      ensures |users| <= n * PageSize
      ensures n == 0 || (n - 1) * PageSize < |users|
    {
      TotalPages(|users|)
    }

    /** changePage: move by delta, then clamp from below only. */
    method ChangePage(delta: int)
      modifies this
      ensures Valid()
      ensures currentPage == if old(currentPage) + delta < 1 then 1 else old(currentPage) + delta
      ensures users == old(users) && currentSortAttribute == old(currentSortAttribute)
    {
      currentPage := currentPage + delta;
      if currentPage < 1 {
        currentPage := 1;
      }
    }

    /** The Next listener: one page on, when there is a later page; otherwise nothing changes. */
    method Next()
      requires Valid()
      modifies this
      ensures Valid()
      ensures currentPage == if CanGoNext(old(currentPage), |users|) then old(currentPage) + 1 else old(currentPage)
      ensures users == old(users) && currentSortAttribute == old(currentSortAttribute)
      ensures old(PageInRange()) ==> PageInRange()
    {
      if currentPage < TotalPages(|users|) {
        ChangePage(1);
      }
    }

    /** The Previous listener: one page back, when there is an earlier page; otherwise nothing changes. */
    method Prev()
      requires Valid()
      modifies this
      ensures Valid()
      ensures currentPage == if CanGoPrev(old(currentPage)) then old(currentPage) - 1 else old(currentPage)
      ensures users == old(users) && currentSortAttribute == old(currentSortAttribute)
      ensures old(PageInRange()) ==> PageInRange()
    {
      if currentPage > 1 {
        ChangePage(-1);
      }
    }

    /**
     * The sort select listener: remember the attribute, sort the records
     * stably with its comparator, and go back to page 1. The records are a
     * permutation of the old ones, in comparator order. `collate` is
     * String.prototype.localeCompare of the host's locale.
     */
    method SortBy(attribute: string, collate: (string, string) -> int)
      requires Valid()
      requires attribute == "name" ==> IsCollation(collate)
      modifies this
      ensures Valid() && PageInRange()
      ensures currentSortAttribute == attribute && currentPage == 1
      ensures users == StableSort(old(users), Comparator(attribute, collate))
      ensures multiset(users) == multiset(old(users))
      ensures Sorted(users, Comparator(attribute, collate))
      ensures attribute != "name" && attribute != "size" ==> users == old(users)
    {
      currentSortAttribute := attribute;
      ComparatorConsistent(attribute, collate);
      StableSortSorted(users, Comparator(attribute, collate));
      if attribute != "name" && attribute != "size" {
        OtherSortUnchanged(users, attribute, collate);
      }
      users := StableSort(users, Comparator(attribute, collate));
      currentPage := 1;
    }

    /**
     * The search input listener. A non-empty query overwrites the records
     * with those whose lower-cased first name contains the lower-cased
     * query; an empty one leaves them to the refetch it starts (Load).
     * Either way the page goes back to 1.
     */
    method Filter(query: string)
      requires Valid()
      modifies this
      ensures Valid() && PageInRange()
      ensures users == if query == "" then old(users) else Matching(old(users), query)
      ensures currentPage == 1 && currentSortAttribute == old(currentSortAttribute)
      ensures IsSubsequence(users, old(users))
    {
      if query != "" {
        MatchingIsSubsequence(users, query);
        users := Matching(users, query);
      } else {
        assert Embeds(seq(|users|, i => i), users, users);
      }
      currentPage := 1;
    }
  }
}
