/** The agenda page: the list of shows, sorted newest first, paged ten at a
    time, with the next upcoming show highlighted and the page turned by the
    two buttons or by a horizontal swipe. */
module Agenda {
  import opened Dates
  import opened DateResolver
  import opened DateSort

  /** One entry of the agenda data; a field the data leaves out is "". */
  datatype Show = Show(date: string, location: string, event: string)

  /** The date a show is sorted by. */
  function ShowDate(s: Show): (d: Date)
    ensures Valid(d)
  {
    Resolve(s.date)
  }

  const ItemsPerPage := 10
  const MinSwipeDistance := 30.0
  /** A click this soon (in milliseconds) after a touch on the same button is
      the browser's echo of that touch. */
  const GhostClickWindow := 500

  // ------------------------------------------------------------- the next show

  /** `isPast(show.date)`, for a reading `key` of the dates; the page reads
      them with `ShowDate`. The agenda's reasoning takes the reading as a
      parameter so that it never depends on how a label is parsed. */
  predicate Past(key: Show -> Date, show: Show, today: Date)
  {
    Before(key(show), today)
  }

  lemma PastIsIsPast(show: Show, today: Date)
    ensures Past(ShowDate, show, today) == IsPast(show.date, today)
  {
  }

  /** The index of the first show whose date has passed, `|s|` when none has. */
  function FirstPast(s: seq<Show>, key: Show -> Date, today: Date): (k: nat)
    ensures k <= |s|
    ensures k < |s| ==> Past(key, s[k], today)
    ensures forall j | 0 <= j < k :: !Past(key, s[j], today)
    decreases |s|
  {
    if |s| == 0 then 0
    else if Past(key, s[0], today) then 0
    else
      var k := FirstPast(s[1..], key, today);
      assert forall j | 1 <= j < k + 1 :: s[j] == s[1..][j - 1];
      1 + k
  }

  /** The first past show is the one a scan from the front stops at. */
  lemma {:induction false} FirstPastIs(s: seq<Show>, key: Show -> Date, today: Date, i: nat)
    requires i <= |s| && (i < |s| ==> Past(key, s[i], today))
    requires forall j | 0 <= j < i :: !Past(key, s[j], today)
    ensures FirstPast(s, key, today) == i
    decreases i
  {
    if i > 0 {
      FirstPastIs(s[1..], key, today, i - 1);
    }
  }

  /** `nextShowIndex` as the page computes it: the show just before the first
      past one; when the very first show is past, -1 unless the last show is
      still to come; when no show is past, the last one. */
  function NextShowOf(s: seq<Show>, key: Show -> Date, today: Date): (r: int)
  {
    var k := FirstPast(s, key, today);
    if k > 0 then k - 1
    else if |s| > 0 && !Past(key, s[|s| - 1], today) then |s| - 1
    else -1
  }

  /** Whatever the order, the highlighted show is one that is still to come,
      and there is none exactly when the first and the last show are past. */
  lemma NextShowUpcoming(s: seq<Show>, key: Show -> Date, today: Date)
    ensures -1 <= NextShowOf(s, key, today) < |s|
    ensures NextShowOf(s, key, today) >= 0 ==> !Past(key, s[NextShowOf(s, key, today)], today)
    ensures NextShowOf(s, key, today) == -1 <==>
              |s| == 0 || (Past(key, s[0], today) && Past(key, s[|s| - 1], today))
  {
  }

  /** On a newest-first list the highlighted show is the last upcoming one:
      every show up to it is still to come and every show after it is past. */
  lemma NextShowSorted(s: seq<Show>, key: Show -> Date, today: Date)
    requires NewestFirst(s, key)
    ensures NextShowOf(s, key, today) == FirstPast(s, key, today) - 1
    ensures forall j | 0 <= j <= NextShowOf(s, key, today) :: !Past(key, s[j], today)
    ensures forall j | NextShowOf(s, key, today) < j < |s| :: Past(key, s[j], today)
  {
    var k := FirstPast(s, key, today);
    forall j | k <= j < |s|
      ensures Past(key, s[j], today)
    {
      NewestFirstMonotone(s, key, k, j, today);
    }
  }

  /** The loop with an early exit that finds the next show. */
  method FindNextShow(a: array<Show>, key: Show -> Date, today: Date) returns (next: int)
    ensures next == NextShowOf(a[..], key, today)
  {
    next := -1;
    var i := 0;
    while i < a.Length
      invariant 0 <= i <= a.Length
      invariant forall j | 0 <= j < i :: !Past(key, a[j], today)
      invariant next == -1
    {
      if Past(key, a[i], today) {
        if i > 0 {
          next := i - 1;
        }
        break;
      }
      i := i + 1;
    }
    FirstPastIs(a[..], key, today, i);
    if next == -1 && a.Length > 0 && !Past(key, a[a.Length - 1], today) {
      next := a.Length - 1;
    }
  }

  // ------------------------------------------------------------------- paging

  /** `Math.ceil(n / itemsPerPage)`. */
  function PageCount(n: nat): (r: nat)
    ensures r == 0 <==> n == 0
    ensures (r - 1) * ItemsPerPage < n <= r * ItemsPerPage || n == 0
  {
    (n + ItemsPerPage - 1) / ItemsPerPage
  }

  /** The page shown first: the one holding the next show, else page 1. */
  function StartPage(next: int): (p: int)
    requires next >= -1
    ensures p >= 1
    ensures next >= 0 ==> (p - 1) * ItemsPerPage <= next < p * ItemsPerPage
    ensures next == -1 ==> p == 1
  {
    if next != -1 then next / ItemsPerPage + 1 else 1
  }

  /** The page `changePage(delta)` lands on: the requested one when it exists,
      otherwise the current one. */
  function PageTarget(current: int, delta: int, n: nat): (p: int)
    ensures p == current || p == current + delta
    ensures p == current + delta <==> delta == 0 || 1 <= current + delta <= PageCount(n)
  {
    if 1 <= current + delta <= PageCount(n) then current + delta else current
  }

  datatype RowStyle = PastEvent | NextShow | Plain

  /** `createRow`'s choice of style: a show with a date that has passed is
      greyed, otherwise the next show is highlighted. */
  function StyleOf(show: Show, key: Show -> Date, index: int, next: int, today: Date): RowStyle
  {
    if show.date != "" && Past(key, show, today) then PastEvent
    else if index == next then NextShow
    else Plain
  }

  datatype Row = Row(index: nat, show: Show, style: RowStyle, badge: bool)

  /** What the table shows: the rows of one page, the "Pagina x van y" label,
      and which of the two buttons is greyed out. */
  datatype TableView = TableView(rows: seq<Row>, pageLabel: int, totalPages: nat,
                                 prevDisabled: bool, nextDisabled: bool)

  /** `renderTable(page)`: rows `(page - 1) * 10` up to ten further, each tagged
      with its index in the whole list; the label and the previous button
      follow `currentPage`, the next button the page drawn. */
  function RenderTable(s: seq<Show>, key: Show -> Date, page: int, current: int, next: int, today: Date): TableView
    requires page >= 1
  {
    var start := (page - 1) * ItemsPerPage;
    var end := start + ItemsPerPage;
    var lo := if start < |s| then start else |s|;
    var hi := if end < |s| then end else |s|;
    var rows := seq(hi - lo, i requires 0 <= i < hi - lo =>
                  Row(lo + i, s[lo + i], StyleOf(s[lo + i], key, lo + i, next, today), lo + i == next));
    TableView(rows, current, PageCount(|s|), current == 1, end >= |s|)
  }

  /** Every show appears on exactly one page, the one its index falls in, at
      the row matching its place on that page. */
  lemma PageOfIndex(s: seq<Show>, key: Show -> Date, page: int, current: int, next: int, today: Date, idx: int)
    requires page >= 1 && 0 <= idx < |s|
    ensures var rows := RenderTable(s, key, page, current, next, today).rows;
            (exists r | 0 <= r < |rows| :: rows[r].index == idx) <==> page == idx / ItemsPerPage + 1
    ensures var rows := RenderTable(s, key, page, current, next, today).rows;
            page == idx / ItemsPerPage + 1 ==>
              var r := idx % ItemsPerPage;
              r < |rows| && rows[r] == Row(idx, s[idx], StyleOf(s[idx], key, idx, next, today), idx == next)
  {
    var rows := RenderTable(s, key, page, current, next, today).rows;
    var start := (page - 1) * ItemsPerPage;
    if page == idx / ItemsPerPage + 1 {
      assert rows[idx % ItemsPerPage].index == idx;
    }
    if r :| 0 <= r < |rows| && rows[r].index == idx {
      assert start <= idx < start + ItemsPerPage;
    }
  }

  /** On the page being shown, a button is greyed out exactly when pressing it
      would leave the page unchanged. */
  lemma ButtonsMatchChangePage(s: seq<Show>, key: Show -> Date, page: int, next: int, today: Date)
    requires 1 <= page <= PageCount(|s|)
    ensures RenderTable(s, key, page, page, next, today).prevDisabled <==> PageTarget(page, -1, |s|) == page
    ensures RenderTable(s, key, page, page, next, today).nextDisabled <==> PageTarget(page, 1, |s|) == page
  {
  }

  /** The row of the next show is highlighted and carries the badge, even if
      its page is not the first. */
  lemma NextShowRowHighlighted(s: seq<Show>, key: Show -> Date, today: Date)
    requires NextShowOf(s, key, today) >= 0
    ensures var next := NextShowOf(s, key, today);
            var rows := RenderTable(s, key, StartPage(next), StartPage(next), next, today).rows;
            var r := next % ItemsPerPage;
            r < |rows| && rows[r].index == next && rows[r].style == NextShow && rows[r].badge
  {
    var next := NextShowOf(s, key, today);
    NextShowUpcoming(s, key, today);
    PageOfIndex(s, key, StartPage(next), StartPage(next), next, today, next);
  }

  /** A show without a date counts as past when the next show is looked for,
      but its row is never greyed out. */
  lemma DatelessShow(location: string, event: string, index: int, next: int, today: Date)
    requires Before(Epoch, today)
    ensures Past(ShowDate, Show("", location, event), today)
    ensures StyleOf(Show("", location, event), ShowDate, index, next, today) != PastEvent
  {
    UnknownIsPast("", today);
  }

  // ------------------------------------------------------------------ gestures

  /** `Math.abs` on the screen coordinates, which are doubles. */
  function Abs(x: real): (r: real)
    ensures r >= 0.0 && (r == x || r == -x)
  {
    if x < 0.0 then -x else x
  }

  /** The page step a finished swipe asks for: a horizontal movement longer
      than the threshold and longer than the vertical one; to the right means
      back a page. */
  function SwipeStep(dx: real, dy: real): (step: int)
  {
    if Abs(dx) > Abs(dy) && Abs(dx) > MinSwipeDistance then (if dx > 0.0 then -1 else 1) else 0
  }

  /** A swipe turns at most one page; mirrored swipes turn opposite ways; a
      gesture that is mostly vertical or short turns nothing. */
  lemma SwipeStepShape(dx: real, dy: real)
    ensures -1 <= SwipeStep(dx, dy) <= 1
    ensures SwipeStep(-dx, dy) == -SwipeStep(dx, dy)
    ensures SwipeStep(dx, -dy) == SwipeStep(dx, dy)
    ensures SwipeStep(dx, dy) != 0 <==> Abs(dx) > Abs(dy) && Abs(dx) > MinSwipeDistance
  {
  }

  /** During a touch move, the page stops scrolling vertically once the
      finger has moved mostly sideways by more than five pixels. */
  const ScrollLockDistance := 5.0

  /** Whether a move by (dx, dy) from the start point cancels the scroll. */
  predicate ScrollBlocked(dx: real, dy: real)
  {
    Abs(dx) > Abs(dy) && Abs(dx) > ScrollLockDistance
  }

  /** A move seen at the point where the finger is later lifted blocks
      vertical scrolling whenever the finished swipe turns the page: the
      swipe's dominance test is the move's, with a larger threshold. */
  lemma SwipeBlocksScroll(dx: real, dy: real)
    ensures SwipeStep(dx, dy) != 0 ==> ScrollBlocked(dx, dy)
  {
  }

  datatype NavButton = PrevButton | NextButton

  function StepOf(b: NavButton): int
  {
    match b
    case PrevButton => -1
    case NextButton => 1
  }

  // ------------------------------------------------------------------ the page

  class AgendaPage {
    var shows: array<Show>
    /** The day the page compares against, read once from the clock. */
    var today: Date
    var currentPage: int
    var nextShowIndex: int
    var touchStartX: real
    var touchStartY: real
    var touchEndX: real
    var touchEndY: real
    var lastPrevTouch: int
    var lastNextTouch: int

    ghost predicate Valid()
      reads this
    {
      -1 <= nextShowIndex < shows.Length &&
      1 <= currentPage && (shows.Length > 0 ==> currentPage <= PageCount(shows.Length))
    }

    /** `initAgenda`: sort the shows newest first, find the next show, and
        start on its page. */
    constructor (data: seq<Show>, today: Date)
      ensures Valid() && fresh(shows)
      ensures multiset(shows[..]) == multiset(data)
      ensures NewestFirst(shows[..], ShowDate)
      ensures nextShowIndex == NextShowOf(shows[..], ShowDate, today)
      ensures currentPage == StartPage(nextShowIndex)
      ensures this.today == today
      ensures touchStartX == touchStartY == touchEndX == touchEndY == 0.0
      ensures lastPrevTouch == lastNextTouch == 0
    {
      var a := new Show[|data|](i requires 0 <= i < |data| => data[i]);
      assert a[..] == data;
      if a.Length > 0 {
        SortNewestFirst(a, ShowDate);
      }
      var next := FindNextShow(a, ShowDate, today);
      NextShowUpcoming(a[..], ShowDate, today);
      shows := a;
      this.today := today;
      nextShowIndex := next;
      currentPage := if next != -1 then next / ItemsPerPage + 1 else 1;
      touchStartX, touchStartY, touchEndX, touchEndY := 0.0, 0.0, 0.0, 0.0;
      lastPrevTouch, lastNextTouch := 0, 0;
    }

    /** What the table shows now. */
    function View(): (v: TableView)
      reads this, shows
      requires Valid()
    {
      RenderTable(shows[..], ShowDate, currentPage, currentPage, nextShowIndex, today)
    }

    /** `changePage(delta)`. */
    method ChangePage(delta: int)
      requires Valid() && shows.Length > 0
      modifies this`currentPage
      ensures Valid()
      ensures currentPage == PageTarget(old(currentPage), delta, shows.Length)
    {
      var newPage := currentPage + delta;
      var totalPages := PageCount(shows.Length);
      if newPage >= 1 && newPage <= totalPages {
        currentPage := newPage;
      }
    }

    /** A finger lifted from one of the buttons: remembered, then the page turns. */
    method ButtonTouchEnd(b: NavButton, now: int)
      requires Valid() && shows.Length > 0
      modifies this`currentPage, this`lastPrevTouch, this`lastNextTouch
      ensures Valid()
      ensures currentPage == PageTarget(old(currentPage), StepOf(b), shows.Length)
      ensures lastPrevTouch == if b == PrevButton then now else old(lastPrevTouch)
      ensures lastNextTouch == if b == NextButton then now else old(lastNextTouch)
    {
      if b == PrevButton {
        lastPrevTouch := now;
      } else {
        lastNextTouch := now;
      }
      ChangePage(StepOf(b));
    }

    /** A click on one of the buttons, ignored as an echo when it follows a
        touch on that button within the window. */
    method ButtonClick(b: NavButton, now: int)
      requires Valid() && shows.Length > 0
      modifies this`currentPage
      ensures Valid()
      ensures var last := if b == PrevButton then lastPrevTouch else lastNextTouch;
              currentPage == if now - last < GhostClickWindow then old(currentPage)
                             else PageTarget(old(currentPage), StepOf(b), shows.Length)
    {
      var last := if b == PrevButton then lastPrevTouch else lastNextTouch;
      if now - last < GhostClickWindow {
        return;
      }
      ChangePage(StepOf(b));
    }

    /** `touchstart`: a multi-finger touch is ignored. */
    method TouchStart(touches: nat, x: real, y: real)
      modifies this`touchStartX, this`touchStartY
      ensures touches > 1 ==> touchStartX == old(touchStartX) && touchStartY == old(touchStartY)
      ensures touches <= 1 ==> touchStartX == x && touchStartY == y
    {
      if touches > 1 {
        return;
      }
      touchStartX, touchStartY := x, y;
    }

    /** `touchmove`: the result is whether the move cancels vertical
        scrolling (`preventDefault`); nothing is recorded. */
    method TouchMove(x: real, y: real) returns (prevented: bool)
      ensures prevented == ScrollBlocked(x - touchStartX, y - touchStartY)
    {
      var diffX := Abs(x - touchStartX);
      var diffY := Abs(y - touchStartY);
      prevented := diffX > diffY && diffX > ScrollLockDistance;
    }

    /** `touchend`: the end point is recorded and the swipe handled. */
    method TouchEnd(x: real, y: real)
      requires Valid() && shows.Length > 0
      modifies this`currentPage, this`touchStartX, this`touchStartY, this`touchEndX, this`touchEndY
      ensures Valid()
      ensures old(touchStartX) == 0.0 && old(touchStartY) == 0.0 ==>
                currentPage == old(currentPage) && touchEndX == x && touchEndY == y &&
                touchStartX == 0.0 && touchStartY == 0.0
      ensures !(old(touchStartX) == 0.0 && old(touchStartY) == 0.0) ==>
                currentPage == PageTarget(old(currentPage), SwipeStep(x - old(touchStartX), y - old(touchStartY)), shows.Length) &&
                touchStartX == touchStartY == touchEndX == touchEndY == 0.0
    {
      touchEndX, touchEndY := x, y;
      HandleSwipe();
    }

    /** `touchcancel`: every recorded coordinate is cleared. */
    method TouchCancel()
      modifies this`touchStartX, this`touchStartY, this`touchEndX, this`touchEndY
      ensures touchStartX == touchStartY == touchEndX == touchEndY == 0.0
    {
      touchStartX, touchStartY, touchEndX, touchEndY := 0.0, 0.0, 0.0, 0.0;
    }

    /** `handleSwipe`: without a recorded start nothing happens (and nothing
        is cleared); otherwise the page turns by the swipe's step and the
        coordinates are cleared. */
    method HandleSwipe()
      requires Valid() && shows.Length > 0
      modifies this`currentPage, this`touchStartX, this`touchStartY, this`touchEndX, this`touchEndY
      ensures Valid()
      ensures old(touchStartX) == 0.0 && old(touchStartY) == 0.0 ==>
                currentPage == old(currentPage) && touchEndX == old(touchEndX) && touchEndY == old(touchEndY) &&
                touchStartX == 0.0 && touchStartY == 0.0
      ensures !(old(touchStartX) == 0.0 && old(touchStartY) == 0.0) ==>
                currentPage == PageTarget(old(currentPage), SwipeStep(old(touchEndX) - old(touchStartX), old(touchEndY) - old(touchStartY)), shows.Length) &&
                touchStartX == touchStartY == touchEndX == touchEndY == 0.0
    {
      if touchStartX == 0.0 && touchStartY == 0.0 {
        return;
      }
      var distanceX := touchEndX - touchStartX;
      var distanceY := touchEndY - touchStartY;
      if Abs(distanceX) > Abs(distanceY) && Abs(distanceX) > MinSwipeDistance {
        if distanceX > 0.0 {
          ChangePage(-1);
        } else {
          ChangePage(1);
        }
      }
      touchStartX, touchStartY, touchEndX, touchEndY := 0.0, 0.0, 0.0, 0.0;
    }
  }
}
