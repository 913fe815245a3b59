/**
 * The pagination component (pagination.component.ts): a current page bounded by
 * the page buttons it was given, and the page-change events it emits.
 */
module Pagination {

  class PaginationComponent {
    /** The `pages` input; only its length is read. */
    var pages: seq<int>
    var currentPage: int
    /** Every value emitted on `pageChanged`, oldest first. */
    var emitted: seq<int>

    /** The current page names one of the buttons. */
    predicate InRange()
      reads this
    {
      1 <= currentPage <= |pages|
    }

    /** Every page ever emitted named one of the buttons. */
    ghost predicate Valid()
      reads this
    {
      forall e | e in emitted :: 1 <= e <= |pages|
    }

    /** The component with its inputs bound and nothing emitted yet. */
    constructor (pages: seq<int>, currentPage: int)
      ensures Valid()
      ensures this.pages == pages && this.currentPage == currentPage && emitted == []
    {
      this.pages := pages;
      this.currentPage := currentPage;
      emitted := [];
    }

    /** `goToPage(page)`: moves to and emits a page that names a button; any other
        page changes nothing and emits nothing. */
    method GoToPage(page: int)
      requires Valid()
      modifies this
      ensures Valid()
      ensures pages == old(pages)
      ensures 1 <= page <= |pages| ==> currentPage == page && emitted == old(emitted) + [page]
      ensures !(1 <= page <= |pages|) ==> currentPage == old(currentPage) && emitted == old(emitted)
      ensures old(InRange()) ==> InRange()
    {
      if 1 <= page <= |pages| {
        currentPage := page;
        emitted := emitted + [page];
      }
    }

    /** `goToPreviousPage()`: one page back, except from page 1; a current page more
        than one past the last button moves nowhere, since the target names no button. */
    method GoToPreviousPage()
      requires Valid()
      modifies this
      ensures Valid()
      ensures pages == old(pages)
      ensures 1 < old(currentPage) <= |pages| + 1 ==>
        currentPage == old(currentPage) - 1 && emitted == old(emitted) + [currentPage]
      ensures !(1 < old(currentPage) <= |pages| + 1) ==> currentPage == old(currentPage) && emitted == old(emitted)
      ensures old(InRange()) ==> InRange()
    {
      if currentPage > 1 {
        GoToPage(currentPage - 1);
      }
    }

    /** `goToNextPage()`: one page on, except from the last page; a current page below
        0 moves nowhere, since the target names no button. */
    method GoToNextPage()
      requires Valid()
      modifies this
      ensures Valid()
      ensures pages == old(pages)
      ensures 0 <= old(currentPage) < |pages| ==>
        currentPage == old(currentPage) + 1 && emitted == old(emitted) + [currentPage]
      ensures !(0 <= old(currentPage) < |pages|) ==> currentPage == old(currentPage) && emitted == old(emitted)
      ensures old(InRange()) ==> InRange()
    {
      if currentPage < |pages| {
        GoToPage(currentPage + 1);
      }
    }
  }
}
