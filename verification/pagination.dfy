/**
 * The pagination bar under the listing: a window of page numbers around the current page, the
 * first and last page as shortcuts with an ellipsis over the pages the window leaves out, a
 * narrower window on small screens, and previous/next buttons. Every button navigates to the
 * current query string with only its `page` replaced.
 */
module PaginationView {
  import opened Wrappers
  import opened Text
  import opened SearchParams
  import Paging

  /** Nothing is drawn for a single page or none. */
  predicate Shown(totalPages: int) {
    totalPages > 1
  }

  /** The numbered buttons of a window, from `start` through `end`; none when `end < start`. */
  function Numbers(start: int, end: int): (r: seq<int>)
    ensures |r| == if end < start then 0 else end - start + 1
    ensures forall i :: 0 <= i < |r| ==> r[i] == start + i
  {
    seq(if end < start then 0 else end - start + 1, i => start + i)
  }

  function Max(a: int, b: int): int { if a < b then b else a }
  function Min(a: int, b: int): int { if a < b then a else b }

  /** The wide screen's window: up to two pages back, up to five pages in all. */
  function DesktopStart(page: int): int { Max(1, page - 2) }
  function DesktopEnd(page: int, totalPages: int): int { Min(totalPages, DesktopStart(page) + 4) }

  /** The small screen's window: one page back, up to three pages in all. */
  function MobileStart(page: int): int { Max(1, page - 1) }
  function MobileEnd(page: int, totalPages: int): int { Min(totalPages, MobileStart(page) + 2) }

  /** A button to a page (marked when it is the current one) or an ellipsis. */
  datatype Item = Link(target: int, current: bool) | Gap

  /** The numbered buttons, the current page marked. */
  function NumberedLinks(page: int, start: int, end: int): (r: seq<Item>)
    ensures |r| == |Numbers(start, end)|
    ensures forall i :: 0 <= i < |r| ==> r[i] == Link(start + i, start + i == page)
  {
    var ns := Numbers(start, end);
    seq(|ns|, i requires 0 <= i < |ns| => Link(ns[i], ns[i] == page))
  }

  /** Before the window: the first page when the window does not start there, an ellipsis when pages lie between. */
  function Lead(start: int): seq<Item> {
    if start > 1 then [Link(1, false)] + (if start > 2 then [Gap] else []) else []
  }

  /** After the window: the last page when the window does not end there, an ellipsis when pages lie between. */
  function Trail(end: int, totalPages: int): seq<Item> {
    if end < totalPages then (if end < totalPages - 1 then [Gap] else []) + [Link(totalPages, false)] else []
  }

  /** The wide screen's buttons between "previous" and "next". */
  function Desktop(page: int, totalPages: int): seq<Item> {
    var start, end := DesktopStart(page), DesktopEnd(page, totalPages);
    Lead(start) + NumberedLinks(page, start, end) + Trail(end, totalPages)
  }

  /** The small screen's buttons between "previous" and "next". */
  function Mobile(page: int, totalPages: int): (r: seq<Item>)
    ensures |r| <= 3
    ensures forall i :: 0 <= i < |r| ==> r[i].Link? && 1 <= r[i].target && r[i].target <= totalPages
  {
    NumberedLinks(page, MobileStart(page), MobileEnd(page, totalPages))
  }

  /** "Previous" is enabled past the first page, "next" before the last. */
  predicate PreviousEnabled(page: int) {
    page > 1
  }

  predicate NextEnabled(page: int, totalPages: int) {
    page < totalPages
  }

  /** `goToPage(p)`: the current query with `page` set to `p`. */
  function GoToPage(q: Params, p: int): (r: Params)
    ensures Get(r, "page") == Some(IntToString(p))
    ensures forall n :: n != "page" ==> Get(r, n) == Get(q, n)
  {
    Set(q, "page", IntToString(p))
  }

  /** A button to `target` is clickable: no navigation is pending, or it lies outside the window. */
  predicate ShortcutOrIdle(target: int, page: int, totalPages: int, pending: bool) {
    !pending || target < DesktopStart(page) || DesktopEnd(page, totalPages) < target
  }

  /**
   * Which of the wide screen's items are enabled. While a navigation is pending the numbered
   * window's buttons are disabled, but the first-page and last-page shortcuts around the window
   * carry no such guard and stay clickable.
   */
  function DesktopEnabled(page: int, totalPages: int, pending: bool): (r: seq<bool>)
    ensures |r| == |Desktop(page, totalPages)|
    ensures !pending ==> forall i :: 0 <= i < |r| ==> r[i]
    ensures 1 <= page <= totalPages ==>
      forall i :: 0 <= i < |r| && Desktop(page, totalPages)[i].Link? ==>
        (r[i] <==> ShortcutOrIdle(Desktop(page, totalPages)[i].target, page, totalPages, pending))
  {
    var start, end := DesktopStart(page), DesktopEnd(page, totalPages);
    var lead, run, trail := Lead(start), NumberedLinks(page, start, end), Trail(end, totalPages);
    var r := seq(|lead|, _ => true) + seq(|run|, _ => !pending) + seq(|trail|, _ => true);
    if 1 <= page <= totalPages then
      DesktopParts(page, totalPages);
      var d := Desktop(page, totalPages);
      forall i | 0 <= i < |r| && d[i].Link?
        ensures r[i] <==> ShortcutOrIdle(d[i].target, page, totalPages, pending)
      {
        if i < |lead| {
          assert d[i] == Link(1, false) && 1 < start;
        } else if i < |lead| + |run| {
          assert r[i] == !pending;
        } else {
          assert d[i] == Link(totalPages, false) && end < totalPages;
        }
      }
      r
    else r
  }

  /**
   * What the bar draws: the two navigation buttons' states, the buttons between them for each
   * screen width, and which of them are enabled. On small screens there are no shortcuts, so a
   * pending navigation disables every numbered button there.
   */
  datatype Bar = Bar(previous: bool, desktop: seq<Item>, desktopEnabled: seq<bool>,
                     mobile: seq<Item>, mobileEnabled: bool, next: bool)

  /**
   * The component itself: nothing at all for a single page or none, otherwise the bar for the
   * current page. On the page's own range the bar reaches every page and marks the current one.
   */
  function Render(page: int, totalPages: int, pending: bool): (r: Option<Bar>)
    ensures r.None? <==> totalPages <= 1
    ensures r.Some? ==>
      && (r.value.previous <==> page > 1 && !pending)
      && (r.value.next <==> page < totalPages && !pending)
      && r.value.mobileEnabled == !pending
      && |r.value.mobile| <= 3
      && |r.value.desktopEnabled| == |r.value.desktop|
    ensures r.Some? && 1 <= page <= totalPages ==>
      && (forall p :: 1 <= p <= totalPages ==> Listed(r.value.desktop, p) || BehindGap(r.value.desktop, p))
      && Listed(r.value.mobile, page)
      && (forall i :: 0 <= i < |r.value.desktop| && r.value.desktop[i].Link? ==>
            (r.value.desktopEnabled[i] <==> ShortcutOrIdle(r.value.desktop[i].target, page, totalPages, pending)))
  {
    if !Shown(totalPages) then None
    else
      var bar := Bar(PreviousEnabled(page) && !pending, Desktop(page, totalPages),
                     DesktopEnabled(page, totalPages, pending), Mobile(page, totalPages), !pending,
                     NextEnabled(page, totalPages) && !pending);
      if 1 <= page <= totalPages then
        forall p | 1 <= p <= totalPages
          ensures Listed(bar.desktop, p) || BehindGap(bar.desktop, p)
        {
          DesktopCoversEveryPage(page, totalPages, p);
        }
        CurrentPageMarked(page, totalPages);
        Some(bar)
      else Some(bar)
  }

  // ---------------------------------------------------------------------------------------------
  // Properties of the layout
  // ---------------------------------------------------------------------------------------------

  /** Both windows hold the current page and stay within the pages there are. */
  lemma WindowsHoldPage(page: int, totalPages: int)
    requires 1 <= page <= totalPages
    ensures 1 <= DesktopStart(page) <= page <= DesktopEnd(page, totalPages) <= totalPages
    ensures DesktopEnd(page, totalPages) - DesktopStart(page) < 5
    ensures 1 <= MobileStart(page) <= page <= MobileEnd(page, totalPages) <= totalPages
    ensures MobileEnd(page, totalPages) - MobileStart(page) < 3
  {
  }

  /** Exactly the current page's button is marked, on either screen. */
  lemma CurrentPageMarked(page: int, totalPages: int)
    requires 1 <= page <= totalPages
    ensures forall i :: 0 <= i < |Desktop(page, totalPages)| && Desktop(page, totalPages)[i].Link? ==>
              (Desktop(page, totalPages)[i].current <==> Desktop(page, totalPages)[i].target == page)
    ensures exists i :: 0 <= i < |Mobile(page, totalPages)| && Mobile(page, totalPages)[i] == Link(page, true)
  {
    var start, end := DesktopStart(page), DesktopEnd(page, totalPages);
    var lead, run, trail := Lead(start), NumberedLinks(page, start, end), Trail(end, totalPages);
    var d := Desktop(page, totalPages);
    forall i | 0 <= i < |d| && d[i].Link? ensures d[i].current <==> d[i].target == page {
      if i < |lead| {
        assert d[i] == lead[i];
      } else if i < |lead| + |run| {
        assert d[i] == run[i - |lead|];
      } else {
        assert d[i] == trail[i - |lead| - |run|];
      }
    }
    var m := Mobile(page, totalPages);
    assert m[page - MobileStart(page)] == Link(page, true);
  }

  /** A button is there for page `p`. */
  predicate Listed(items: seq<Item>, p: int) {
    exists i :: 0 <= i < |items| && items[i].Link? && items[i].target == p
  }

  /** Page `p` lies behind an ellipsis: strictly between the two buttons around it. */
  predicate BehindGap(items: seq<Item>, p: int) {
    exists i :: 0 < i < |items| - 1 && items[i].Gap? && items[i - 1].Link? && items[i + 1].Link?
      && items[i - 1].target < p < items[i + 1].target
  }

  /**
   * On the wide screen no page is lost: every page has its button or lies behind an ellipsis.
   */
  lemma DesktopCoversEveryPage(page: int, totalPages: int, p: int)
    requires 1 <= page <= totalPages && 1 <= p <= totalPages
    ensures Listed(Desktop(page, totalPages), p) || BehindGap(Desktop(page, totalPages), p)
  {
    WindowsHoldPage(page, totalPages);
    if p < DesktopStart(page) {
      DesktopCoversBefore(page, totalPages, p);
    } else if p <= DesktopEnd(page, totalPages) {
      DesktopCoversWindow(page, totalPages, p);
    } else {
      DesktopCoversAfter(page, totalPages, p);
    }
  }

  /** The wide screen's buttons, part by part. */
  lemma DesktopParts(page: int, totalPages: int)
    requires 1 <= page <= totalPages
    ensures var start, end := DesktopStart(page), DesktopEnd(page, totalPages);
      var lead, run := Lead(start), NumberedLinks(page, start, end);
      var d := Desktop(page, totalPages);
      && |d| == |lead| + |run| + |Trail(end, totalPages)|
      && |run| == end - start + 1
      && (forall j :: 0 <= j < |lead| ==> d[j] == lead[j])
      && (forall j :: |lead| <= j < |lead| + |run| ==> d[j] == Link(start + (j - |lead|), start + (j - |lead|) == page))
      && (forall j :: |lead| + |run| <= j < |d| ==> d[j] == Trail(end, totalPages)[j - |lead| - |run|])
  {
    WindowsHoldPage(page, totalPages);
  }

  lemma DesktopCoversBefore(page: int, totalPages: int, p: int)
    requires 1 <= page <= totalPages && 1 <= p < DesktopStart(page)
    ensures Listed(Desktop(page, totalPages), p) || BehindGap(Desktop(page, totalPages), p)
  {
    var start := DesktopStart(page);
    var d := Desktop(page, totalPages);
    DesktopParts(page, totalPages);
    WindowsHoldPage(page, totalPages);
    assert d[0] == Link(1, false);
    if p == 1 {
      assert d[0].Link? && d[0].target == p;
    } else {
      assert d[1].Gap? && d[2] == Link(start, start == page);
      assert d[0].Link? && d[2].Link? && d[0].target < p < d[2].target;
    }
  }

  lemma DesktopCoversWindow(page: int, totalPages: int, p: int)
    requires 1 <= page <= totalPages && DesktopStart(page) <= p <= DesktopEnd(page, totalPages)
    ensures Listed(Desktop(page, totalPages), p)
  {
    var start := DesktopStart(page);
    var d := Desktop(page, totalPages);
    DesktopParts(page, totalPages);
    var i := |Lead(start)| + (p - start);
    assert d[i] == Link(p, p == page);
  }

  lemma DesktopCoversAfter(page: int, totalPages: int, p: int)
    requires 1 <= page <= totalPages && DesktopEnd(page, totalPages) < p <= totalPages
    ensures Listed(Desktop(page, totalPages), p) || BehindGap(Desktop(page, totalPages), p)
  {
    var start, end := DesktopStart(page), DesktopEnd(page, totalPages);
    var d := Desktop(page, totalPages);
    var n := |Lead(start)| + |NumberedLinks(page, start, end)|;
    DesktopParts(page, totalPages);
    WindowsHoldPage(page, totalPages);
    assert d[|d| - 1] == Link(totalPages, false);
    if p == totalPages {
      assert d[|d| - 1].Link? && d[|d| - 1].target == p;
    } else {
      assert |d| == n + 2 && d[n] == Gap;
      assert d[n - 1] == Link(end, end == page);
      assert d[n - 1].Link? && d[n + 1].Link? && d[n - 1].target < p < d[n + 1].target;
    }
  }

  /** Every ellipsis stands between two buttons with at least one page between them. */
  lemma DesktopGapsHidePages(page: int, totalPages: int, i: nat)
    requires 1 <= page <= totalPages
    requires i < |Desktop(page, totalPages)| && Desktop(page, totalPages)[i].Gap?
    ensures 0 < i < |Desktop(page, totalPages)| - 1
    ensures Desktop(page, totalPages)[i - 1].Link? && Desktop(page, totalPages)[i + 1].Link?
    ensures Desktop(page, totalPages)[i - 1].target + 1 < Desktop(page, totalPages)[i + 1].target
  {
    var start, end := DesktopStart(page), DesktopEnd(page, totalPages);
    var lead, run, trail := Lead(start), NumberedLinks(page, start, end), Trail(end, totalPages);
    var d := Desktop(page, totalPages);
    var r0, rn := |lead|, |lead| + |run|;
    assert start <= page <= end <= totalPages;
    if i < r0 {
      assert i == 1 && d[0] == Link(1, false) && d[2] == run[0];
    } else {
      assert forall j :: r0 <= j < rn ==> d[j] == run[j - r0];
      assert i == rn && d[i + 1] == Link(totalPages, false) && d[i - 1] == run[|run| - 1];
    }
  }

  /** The previous and next buttons agree with the listing envelope's neighbour flags. */
  lemma ButtonsMatchEnvelope<T>(p: Paging.PagedResult<T>)
    requires p.pageSize > 0
    ensures PreviousEnabled(p.page) == Paging.HasPreviousPage(p)
    ensures NextEnabled(p.page, Paging.TotalPages(p)) == Paging.HasNextPage(p)
  {
  }
}
