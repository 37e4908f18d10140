/** The view state of the photobook component and its event handlers.

    The component holds five pieces of state (`isOpen`, `isClosing`,
    `currentPage`, `selectedCategory`, `isFlipping`) and updates them in its
    click handlers. Three handlers do part of their work in a `setTimeout`
    callback; each of those is modelled as a begin step (the handler) and a
    completion step (the callback), with the pending callback kept in `timer`.

    Transitions are taken one at a time: a handler that would schedule a
    second callback, or that would change the filter under a pending page
    turn, is not called while a callback is pending. (In the component, a
    chapter change made during a page turn lets the late callback set
    `currentPage` to a page index computed for the old chapter, which can be
    past the last page of the new one.) */
module Photobook {
  import opened Catalog
  import opened Pager

  /** The one `setTimeout` callback that may be pending. A page-turn callback
      carries the page index it captured when it was scheduled. */
  datatype Timer = Idle | TurnTo(target: int) | FinishClosing

  /** The cover's three states. The closed view offers only the cover, whose
      click opens the book; the open view offers the close button, the chapter
      buttons and the page buttons. */
  datatype CoverState = Closed | Open | Closing

  class NeumannPhotobook {
    /** The photo catalog the book shows. */
    const photos: seq<Photo>

    var isOpen: bool
    var isClosing: bool
    var currentPage: int
    var selectedCategory: string
    var isFlipping: bool
    var timer: Timer

    /** `filteredPhotos`: the whole catalog under "all", otherwise the
        photos of the selected chapter. */
    function Filtered(): (r: seq<Photo>)
      reads this
      ensures selectedCategory == AllCategory ==> r == photos
      ensures selectedCategory != AllCategory ==>
                forall p :: p in r <==> p in photos && p.category == selectedCategory
    {
      Filter(photos, selectedCategory)
    }

    /** `totalPages`: the fewest pages of four that hold the filtered list. */
    function PageCount(): (t: nat)
      reads this
      ensures |Filtered()| <= t * PhotosPerPage < |Filtered()| + PhotosPerPage
      ensures t == 0 <==> Filtered() == []
    {
      TotalPages(|Filtered()|)
    }

    /** The state invariant: the current page is a valid page of the current
        filter (page 0 when the filter is empty), the flags mirror the pending
        callback, a callback is pending only while the book is open, and a
        pending page turn lands on a valid page next to the current one. */
    predicate Valid()
      reads this
      ensures Valid() ==> 0 <= currentPage && currentPage + 1 <= DisplayedPageCount(PageCount())
      ensures Valid() ==> currentPage <= if PageCount() == 0 then 0 else PageCount() - 1
      ensures Valid() && isClosing ==> isOpen
    {
      InRange(currentPage, PageCount()) &&
      (isFlipping <==> timer.TurnTo?) &&
      (isClosing <==> timer == FinishClosing) &&
      (timer != Idle ==> isOpen) &&
      (timer.TurnTo? ==> InRange(timer.target, PageCount())) &&
      (timer.TurnTo? ==> timer.target == currentPage + 1 || timer.target == currentPage - 1)
    }

    /** Which view is shown (the closed view while `isOpen` is false) and
        whether the open view is fading out for closing. */
    function Cover(): (c: CoverState)
      reads this
      ensures c == Closed <==> !isOpen
      ensures c == Closing <==> isOpen && isClosing
      ensures c == Open <==> isOpen && !isClosing
    {
      if !isOpen then Closed else if isClosing then Closing else Open
    }

    /** The book starts closed on page 0 of the "all" chapter. */
    constructor (catalog: seq<Photo>)
      ensures photos == catalog
      ensures !isOpen && !isClosing && !isFlipping && timer == Idle
      ensures currentPage == 0 && selectedCategory == AllCategory
      ensures Cover() == Closed
      ensures Valid()
    {
      photos := catalog;
      isOpen := false;
      isClosing := false;
      currentPage := 0;
      selectedCategory := AllCategory;
      isFlipping := false;
      timer := Idle;
    }

    /** `currentPhotos`: the photos on the current page. */
    function CurrentPhotos(): (r: seq<Photo>)
      reads this
      requires Valid()
      ensures |r| <= PhotosPerPage
      ensures forall i :: 0 <= i < |r| ==>
                currentPage * PhotosPerPage + i < |Filtered()| &&
                r[i] == Filtered()[currentPage * PhotosPerPage + i]
      ensures |r| == 0 <==> Filtered() == []
      ensures currentPage + 1 < PageCount() ==> |r| == PhotosPerPage
      ensures currentPage + 1 == PageCount() ==> currentPage * PhotosPerPage + |r| == |Filtered()|
    {
      Page(Filtered(), currentPage)
    }

    /** The "This chapter awaits..." message is shown. In every valid state it
        is shown exactly when the chapter has no photos. */
    function ShowsEmptyChapter(): (b: bool)
      reads this
      requires Valid()
      ensures b <==> Filtered() == []
    {
      |CurrentPhotos()| == 0
    }

    /** The label "Page {currentPage + 1} of {totalPages || 1}" as its two
        numbers. In every valid state the first is between 1 and the second. */
    function PageLabel(): (shown: (int, nat))
      reads this
      requires Valid()
      ensures shown.0 == currentPage + 1
      ensures 1 <= shown.0 <= shown.1
      ensures shown.1 == if PageCount() == 0 then 1 else PageCount()
    {
      (currentPage + 1, DisplayedPageCount(PageCount()))
    }

    /** The "previous" button is disabled exactly when `prevPage` would do
        nothing. */
    function PrevDisabled(): (b: bool)
      reads this
      requires Valid()
      ensures b <==> !(currentPage > 0)
    {
      currentPage == 0
    }

    /** The "next" button is disabled exactly when `nextPage` would do
        nothing, which in a valid state is on the last page of the label. */
    function NextDisabled(): (b: bool)
      reads this
      requires Valid()
      ensures b <==> !(currentPage < PageCount() - 1)
      ensures b <==> currentPage + 1 == DisplayedPageCount(PageCount())
    {
      currentPage >= PageCount() - 1
    }

    /** `nextPage`: when a later page exists, raise `isFlipping` and schedule
        the turn to the next page; otherwise change nothing. */
    method NextPage()
      requires Valid() && isOpen && timer == Idle
      modifies this
      ensures Valid()
      ensures isOpen == old(isOpen) && isClosing == old(isClosing)
      ensures currentPage == old(currentPage) && selectedCategory == old(selectedCategory)
      ensures old(currentPage < PageCount() - 1) ==>
                isFlipping && timer == TurnTo(old(currentPage) + 1)
      ensures !old(currentPage < PageCount() - 1) ==> !isFlipping && timer == Idle
      ensures old(NextDisabled()) ==> unchanged(this)
    {
      if currentPage < PageCount() - 1 {
        isFlipping := true;
        timer := TurnTo(currentPage + 1);
      }
    }

    /** `prevPage`: when an earlier page exists, raise `isFlipping` and
        schedule the turn to the previous page; otherwise change nothing. */
    method PrevPage()
      requires Valid() && isOpen && timer == Idle
      modifies this
      ensures Valid()
      ensures isOpen == old(isOpen) && isClosing == old(isClosing)
      ensures currentPage == old(currentPage) && selectedCategory == old(selectedCategory)
      ensures old(currentPage > 0) ==> isFlipping && timer == TurnTo(old(currentPage) - 1)
      ensures !old(currentPage > 0) ==> !isFlipping && timer == Idle
      ensures old(PrevDisabled()) ==> unchanged(this)
    {
      if currentPage > 0 {
        isFlipping := true;
        timer := TurnTo(currentPage - 1);
      }
    }

    /** The page-turn callback of `nextPage` or `prevPage`: move to the
        captured target page and clear `isFlipping`. */
    method FinishTurn()
      requires Valid() && timer.TurnTo?
      modifies this
      ensures Valid()
      ensures currentPage == old(timer.target)
      ensures currentPage == old(currentPage) + 1 || currentPage == old(currentPage) - 1
      ensures !isFlipping && timer == Idle
      ensures isOpen == old(isOpen) && isClosing == old(isClosing)
      ensures selectedCategory == old(selectedCategory)
    {
      currentPage := timer.target;
      isFlipping := false;
      timer := Idle;
    }

    /** `handleCategoryChange`: select chapter `c` and go back to page 0,
        which is a valid page of every filter, the empty one included. */
    method HandleCategoryChange(c: string)
      requires Valid() && isOpen && !isFlipping
      modifies this
      ensures Valid()
      ensures selectedCategory == c && currentPage == 0
      ensures isOpen == old(isOpen) && isClosing == old(isClosing)
      ensures isFlipping == old(isFlipping) && timer == old(timer)
    {
      selectedCategory := c;
      currentPage := 0;
    }

    /** `openBook`, offered by the closed view: set `isOpen` and nothing else. */
    method OpenBook()
      requires Valid() && !isOpen
      modifies this
      ensures Valid()
      ensures isOpen
      ensures old(Cover()) == Closed && Cover() == Open
      ensures isClosing == old(isClosing) && isFlipping == old(isFlipping) && timer == old(timer)
      ensures currentPage == old(currentPage) && selectedCategory == old(selectedCategory)
    {
      isOpen := true;
    }

    /** `closeBook`, offered by the open view: raise `isClosing` and schedule
        the closing callback. */
    method CloseBook()
      requires Valid() && isOpen && timer == Idle
      modifies this
      ensures Valid()
      ensures isClosing && timer == FinishClosing
      ensures old(Cover()) == Open && Cover() == Closing
      ensures isOpen == old(isOpen) && isFlipping == old(isFlipping)
      ensures currentPage == old(currentPage) && selectedCategory == old(selectedCategory)
    {
      isClosing := true;
      timer := FinishClosing;
    }

    /** The closing callback of `closeBook`: close the book and reset it to
        page 0 of the "all" chapter. */
    method FinishClose()
      requires Valid() && timer == FinishClosing
      modifies this
      ensures Valid()
      ensures !isOpen && !isClosing && !isFlipping && timer == Idle
      ensures currentPage == 0 && selectedCategory == AllCategory
      ensures old(Cover()) == Closing && Cover() == Closed
    {
      isOpen := false;
      isClosing := false;
      currentPage := 0;
      selectedCategory := AllCategory;
      timer := Idle;
    }
  }
}
