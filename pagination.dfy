/** The block explorer's pagination buttons: 20 items a page, a previous and a next button. */
module Pagination {
  const ItemsPerPage: nat := 20

  /** `Math.ceil(totalItems / ITEMS_PER_PAGE)`. */
  function PageCount(totalItems: nat): (pages: nat)
    ensures totalItems <= ItemsPerPage * pages
    ensures pages > 0 ==> ItemsPerPage * (pages - 1) < totalItems
  {
    (totalItems + ItemsPerPage - 1) / ItemsPerPage
  }

  /** `currentPage === 0`. */
  predicate PrevDisabled(currentPage: int) {
    currentPage == 0
  }

  /** `currentPage + 1 >= Math.ceil(totalItems / ITEMS_PER_PAGE)`. */
  predicate NextDisabled(currentPage: int, totalItems: nat) {
    currentPage + 1 >= PageCount(totalItems)
  }

  /** The component renders nothing when both buttons are disabled. */
  predicate Hidden(currentPage: int, totalItems: nat) {
    NextDisabled(currentPage, totalItems) && PrevDisabled(currentPage)
  }

  /** The label `Page {currentPage + 1}`. */
  function PageLabel(currentPage: int): int {
    currentPage + 1
  }

  /** There are no pages for no items, and a page more for each further 20 items. */
  lemma PageCountValues(totalItems: nat)
    ensures PageCount(0) == 0
    ensures totalItems > 0 ==> PageCount(totalItems) >= 1
    ensures PageCount(totalItems + ItemsPerPage) == PageCount(totalItems) + 1
  {
  }

  /** On the first page the buttons are hidden exactly when everything fits on one page. */
  lemma HiddenOnFirstPage(totalItems: nat)
    ensures Hidden(0, totalItems) <==> totalItems <= ItemsPerPage
  {
  }

  /** On a page in range, next is disabled exactly on the last page. */
  lemma NextDisabledOnLastPage(currentPage: int, totalItems: nat)
    requires 0 <= currentPage < PageCount(totalItems)
    ensures NextDisabled(currentPage, totalItems) <==> currentPage == PageCount(totalItems) - 1
  {
  }

  /** From a page in range, an enabled button moves to a page in range, whose label is between 1 and the page count. */
  lemma MovesStayInRange(currentPage: int, totalItems: nat)
    requires 0 <= currentPage < PageCount(totalItems)
    ensures !PrevDisabled(currentPage) ==> 0 <= currentPage - 1 < PageCount(totalItems)
    ensures !NextDisabled(currentPage, totalItems) ==> 0 <= currentPage + 1 < PageCount(totalItems)
    ensures 1 <= PageLabel(currentPage) <= PageCount(totalItems)
  {
  }
}
