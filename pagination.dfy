/** Pagination of the member table: the rows a page shows (`renderMembersList`'s slice)
    and the controls `renderPagination` lays out — previous, the first page and an
    ellipsis when the window does not reach it, a window of at most five pages around
    the current one, an ellipsis and the last page when the window does not reach it,
    and next. The DOM elements and their listeners are replaced by `Control` tokens. */
module Pagination {
  import opened Text

  /** `maxVisiblePages` */
  const MaxVisiblePages := 5

  datatype Control =
    | PrevButton(disabled: bool)
    | PageButton(page: int, active: bool)
    | Ellipsis
    | NextButton(disabled: bool)

  function Max(a: int, b: int): int { if a >= b then a else b }
  function Min(a: int, b: int): int { if a <= b then a else b }

  /** `Math.ceil(totalItems / itemsPerPage)`: the fewest pages that hold every item. */
  function PageCount(total: nat, perPage: nat): (pages: nat)
    requires perPage > 0
    ensures pages == 0 <==> total == 0
  {
    (total + perPage - 1) / perPage
  }

  /** `PageCount` is the ceiling of `total / perPage`: enough pages for every item, and
      the last one not empty. */
  lemma PageCountBounds(total: nat, perPage: nat)
    requires perPage > 0
    ensures total <= PageCount(total, perPage) * perPage
    ensures total > 0 ==> (PageCount(total, perPage) - 1) * perPage < total
  {
  }

  // ---------------------------------------------------------------------------
  // The rows of one page

  /** `s.slice(start, stop)`: a negative position counts from the end, every position is
      clamped to the sequence, and a range that ends before it starts is empty. */
  function JsSlice<T>(s: seq<T>, start: int, stop: int): (r: seq<T>)
    ensures |r| <= |s|
    ensures 0 <= start <= stop <= |s| ==> r == s[start..stop]
  {
    var from := if start < 0 then Max(|s| + start, 0) else Min(start, |s|);
    var to := if stop < 0 then Max(|s| + stop, 0) else Min(stop, |s|);
    if from < to then s[from..to] else []
  }

  /** The entries page `page` shows (`renderMembersList`, startIndex/endIndex/slice). */
  function PageSlice<T>(s: seq<T>, page: int, perPage: nat): seq<T> {
    var startIndex := (page - 1) * perPage;
    var endIndex := Min(startIndex + perPage, |s|);
    JsSlice(s, startIndex, endIndex)
  }

  /** Page `page` (counted from 1) shows the entries from `(page-1)*perPage` up to
      `page*perPage` or the end, and nothing once it starts past the end. */
  lemma PageSliceRange<T>(s: seq<T>, page: int, perPage: nat)
    requires page >= 1 && perPage > 0
    ensures var lo := (page - 1) * perPage;
      lo >= 0
      && (lo < |s| ==> PageSlice(s, page, perPage) == s[lo..Min(lo + perPage, |s|)])
      && (lo >= |s| ==> PageSlice(s, page, perPage) == [])
      && |PageSlice(s, page, perPage)| <= perPage
  {
    var lo := (page - 1) * perPage;
    MulNonNegative(page - 1, perPage);
  }

  lemma MulNonNegative(a: int, b: int)
    requires a >= 0 && b >= 0
    ensures a * b >= 0
  {
  }

  lemma MulMonotonic(a: int, b: int, k: int)
    requires 0 <= a <= b && k >= 0
    ensures a * k <= b * k
  {
    assert b * k == a * k + (b - a) * k;
    MulNonNegative(b - a, k);
  }

  /** The pages `from..to`, one after the other. */
  function Pages<T>(s: seq<T>, perPage: nat, from: int, to: int): seq<T>
    decreases to - from
  {
    if from > to then [] else PageSlice(s, from, perPage) + Pages(s, perPage, from + 1, to)
  }

  /** Where page `from` starts, for a page that exists. */
  lemma PageStart(n: nat, perPage: nat, from: int)
    requires perPage > 0 && 1 <= from <= PageCount(n, perPage)
    ensures 0 <= (from - 1) * perPage < n
    ensures from * perPage == (from - 1) * perPage + perPage
  {
    PageCountBounds(n, perPage);
    MulNonNegative(from - 1, perPage);
    MulMonotonic(from - 1, PageCount(n, perPage) - 1, perPage);
  }

  lemma {:induction false} PagesFrom<T>(s: seq<T>, perPage: nat, from: int)
    requires perPage > 0 && 1 <= from <= PageCount(|s|, perPage) + 1
    ensures Pages(s, perPage, from, PageCount(|s|, perPage)) == s[Min((from - 1) * perPage, |s|)..]
    decreases PageCount(|s|, perPage) + 1 - from
  {
    var pages := PageCount(|s|, perPage);
    if from == pages + 1 {
      PageCountBounds(|s|, perPage);
    } else {
      var lo := (from - 1) * perPage;
      PageStart(|s|, perPage, from);
      PageSliceRange(s, from, perPage);
      PagesFrom(s, perPage, from + 1);
      var mid := Min(lo + perPage, |s|);
      assert PageSlice(s, from, perPage) == s[lo..mid];
      assert Pages(s, perPage, from + 1, pages) == s[mid..];
      assert s[lo..] == s[lo..mid] + s[mid..];
    }
  }

  /** Pages `1..PageCount` show every entry exactly once, in order. */
  lemma PagesPartition<T>(s: seq<T>, perPage: nat)
    requires perPage > 0
    ensures Pages(s, perPage, 1, PageCount(|s|, perPage)) == s
  {
    PagesFrom(s, perPage, 1);
  }

  // ---------------------------------------------------------------------------
  // The page window and the controls

  /** The first page of the window: centred on the current page, shifted so that it
      does not run past the last page, and never before page 1. */
  function WindowStart(current: int, pages: int): int {
    Max(1, Min(current - MaxVisiblePages / 2, pages - MaxVisiblePages + 1))
  }

  /** The last page of the window. */
  function WindowEnd(current: int, pages: int): int {
    Min(pages, WindowStart(current, pages) + MaxVisiblePages - 1)
  }

  lemma WindowBounds(current: int, pages: int)
    requires 1 <= current <= pages
    ensures var s, e := WindowStart(current, pages), WindowEnd(current, pages);
      1 <= s <= current <= e <= pages
      && e - s + 1 == Min(MaxVisiblePages, pages)
      && (MaxVisiblePages / 2 < current <= pages - MaxVisiblePages / 2 ==> s == current - MaxVisiblePages / 2)
  {
  }

  /** The pages `start..stop-1` as buttons, the current one active. */
  function Run(start: int, stop: int, current: int): seq<Control>
    decreases stop - start
  {
    if stop <= start then [] else Run(start, stop - 1, current) + [PageButton(stop - 1, stop - 1 == current)]
  }

  /** A run holds one button per page of `start..stop-1`, in order, the current one active. */
  lemma {:induction false} RunButtons(start: int, stop: int, current: int)
    ensures var r := Run(start, stop, current);
      |r| == Max(0, stop - start)
      && forall j :: 0 <= j < |r| ==> r[j] == PageButton(start + j, start + j == current)
    decreases stop - start
  {
    if start < stop {
      RunButtons(start, stop - 1, current);
    }
  }

  /** The first page and an ellipsis, where the window does not reach them. */
  function Lead(start: int): seq<Control> {
    if start > 1 then [PageButton(1, false)] + (if start > 2 then [Ellipsis] else []) else []
  }

  /** An ellipsis and the last page, where the window does not reach them. */
  function Trail(last: int, pages: int): seq<Control> {
    if last < pages then (if last < pages - 1 then [Ellipsis] else []) + [PageButton(pages, false)] else []
  }

  /** The controls for `total` items seen `perPage` at a time, on page `current`. */
  function Controls(total: nat, current: int, perPage: nat): seq<Control>
    requires perPage > 0
  {
    if total == 0 then []
    else
      var pages := PageCount(total, perPage);
      var s, e := WindowStart(current, pages), WindowEnd(current, pages);
      [PrevButton(current == 1)] + (Lead(s) + Run(s, e + 1, current) + Trail(e, pages))
        + [NextButton(current == pages)]
  }

  /** The window `renderPagination` computes in three steps is `WindowStart..WindowEnd`,
      whatever the current page. */
  lemma WindowComputation(current: int, pages: int)
    requires pages >= 1
    ensures var start0 := Max(1, current - MaxVisiblePages / 2);
      var end := Min(pages, start0 + MaxVisiblePages - 1);
      var start := if end - start0 + 1 < MaxVisiblePages then Max(1, end - MaxVisiblePages + 1) else start0;
      start == WindowStart(current, pages) && end == WindowEnd(current, pages)
  {
  }

  lemma AppendAssoc<T>(a: seq<T>, b: seq<T>, c: seq<T>)
    ensures (a + b) + c == a + (b + c)
  {
  }

  lemma Regroup<T>(p: seq<T>, a: seq<T>, b: seq<T>, c: seq<T>, n: seq<T>)
    ensures p + a + b + c + n == p + (a + b + c) + n
  {
  }

  /** `renderPagination`, with the buttons it appends returned as a sequence. */
  method RenderPagination(totalItems: nat, currentPage: int, itemsPerPage: nat) returns (controls: seq<Control>)
    requires itemsPerPage > 0
    ensures controls == Controls(totalItems, currentPage, itemsPerPage)
  {
    var totalPages := PageCount(totalItems, itemsPerPage);
    if totalItems == 0 {
      return [];
    }
    controls := [PrevButton(currentPage == 1)];
    var startPage := Max(1, currentPage - MaxVisiblePages / 2);
    var endPage := Min(totalPages, startPage + MaxVisiblePages - 1);
    if endPage - startPage + 1 < MaxVisiblePages {
      startPage := Max(1, endPage - MaxVisiblePages + 1);
    }
    WindowComputation(currentPage, totalPages);
    ghost var prev := controls;
    if startPage > 1 {
      controls := controls + [PageButton(1, false)];
      if startPage > 2 {
        controls := controls + [Ellipsis];
      }
    }
    ghost var prefix := controls;
    assert prefix == prev + Lead(startPage);
    var i := startPage;
    while i <= endPage
      invariant startPage <= i <= endPage + 1
      invariant controls == prefix + Run(startPage, i, currentPage)
    {
      AppendAssoc(prefix, Run(startPage, i, currentPage), [PageButton(i, i == currentPage)]);
      controls := controls + [PageButton(i, i == currentPage)];
      i := i + 1;
    }
    ghost var window := controls;
    if endPage < totalPages {
      if endPage < totalPages - 1 {
        controls := controls + [Ellipsis];
      }
      controls := controls + [PageButton(totalPages, false)];
    }
    assert controls == window + Trail(endPage, totalPages);
    controls := controls + [NextButton(currentPage == totalPages)];
    assert window == prev + Lead(startPage) + Run(startPage, endPage + 1, currentPage);
    Regroup(prev, Lead(startPage), Run(startPage, endPage + 1, currentPage), Trail(endPage, totalPages),
      [NextButton(currentPage == totalPages)]);
    ControlsLayout(totalItems, currentPage, itemsPerPage, totalPages, startPage, endPage);
  }

  lemma ControlsLayout(total: nat, current: int, perPage: nat, pages: nat, s: int, e: int)
    requires perPage > 0 && total > 0 && pages == PageCount(total, perPage)
    requires s == WindowStart(current, pages) && e == WindowEnd(current, pages)
    ensures Controls(total, current, perPage)
      == [PrevButton(current == 1)] + (Lead(s) + Run(s, e + 1, current) + Trail(e, pages)) + [NextButton(current == pages)]
  {
  }

  // ---------------------------------------------------------------------------
  // What the controls look like

  /** `m` lists the pages `lo..hi` in increasing order, starting at `lo` and ending at `hi`:
      two adjacent buttons are consecutive pages, and an ellipsis stands between two
      buttons exactly where pages are skipped. */
  ghost predicate Ladder(m: seq<Control>, lo: int, hi: int)
    decreases |m|
  {
    |m| >= 1 && m[0].PageButton? && m[0].page == lo
    && if |m| == 1 then lo == hi
       else if m[1].PageButton? then Ladder(m[1..], lo + 1, hi)
       else m[1].Ellipsis? && |m| >= 3 && m[2].PageButton? && m[2].page > lo + 1 && Ladder(m[2..], m[2].page, hi)
  }

  lemma {:induction false} LadderAppend(a: seq<Control>, lo: int, mid: int, b: seq<Control>, hi: int)
    requires Ladder(a, lo, mid) && Ladder(b, mid + 1, hi)
    ensures Ladder(a + b, lo, hi)
    decreases |a|
  {
    if |a| == 1 {
      assert (a + b)[1..] == b;
    } else if a[1].PageButton? {
      LadderAppend(a[1..], lo + 1, mid, b, hi);
      assert (a + b)[1..] == a[1..] + b;
    } else {
      LadderAppend(a[2..], a[2].page, mid, b, hi);
      assert (a + b)[2..] == a[2..] + b;
    }
  }

  lemma {:induction false} LadderAppendGap(a: seq<Control>, lo: int, mid: int, b: seq<Control>, x: int, hi: int)
    requires Ladder(a, lo, mid) && Ladder(b, x, hi) && x > mid + 1
    ensures Ladder(a + [Ellipsis] + b, lo, hi)
    decreases |a|
  {
    if |a| == 1 {
      assert (a + [Ellipsis] + b)[2..] == b;
    } else if a[1].PageButton? {
      LadderAppendGap(a[1..], lo + 1, mid, b, x, hi);
      assert (a + [Ellipsis] + b)[1..] == a[1..] + [Ellipsis] + b;
    } else {
      LadderAppendGap(a[2..], a[2].page, mid, b, x, hi);
      assert (a + [Ellipsis] + b)[2..] == a[2..] + [Ellipsis] + b;
    }
  }

  lemma {:induction false} RunLadder(start: int, last: int, current: int)
    requires start <= last
    ensures Ladder(Run(start, last + 1, current), start, last)
    decreases last - start
  {
    if start < last {
      RunLadder(start, last - 1, current);
      LadderAppend(Run(start, last, current), start, last - 1, [PageButton(last, last == current)], last);
    }
  }

  /** Everything a ladder holds is a page button or an ellipsis, and its pages lie in
      `lo..hi`, the last one being `hi`. */
  lemma {:induction false} LadderPages(m: seq<Control>, lo: int, hi: int)
    requires Ladder(m, lo, hi)
    ensures lo <= hi
    ensures m[|m| - 1].PageButton? && m[|m| - 1].page == hi
    ensures forall j :: 0 <= j < |m| ==> m[j].PageButton? || m[j].Ellipsis?
    ensures forall j :: 0 <= j < |m| && m[j].PageButton? ==> lo <= m[j].page <= hi
    decreases |m|
  {
    if |m| > 1 {
      var d := if m[1].PageButton? then 1 else 2;
      var rest := m[d..];
      LadderPages(rest, m[d].page, hi);
      assert m[|m| - 1] == rest[|rest| - 1];
      forall j | d <= j < |m|
        ensures m[j].PageButton? || m[j].Ellipsis?
        ensures m[j].PageButton? ==> lo <= m[j].page <= hi
      {
        assert m[j] == rest[j - d];
      }
    }
  }

  /** The pages of a ladder strictly increase from left to right. */
  lemma {:induction false} LadderIncreasing(m: seq<Control>, lo: int, hi: int)
    requires Ladder(m, lo, hi)
    ensures forall j, k :: 0 <= j < k < |m| && m[j].PageButton? && m[k].PageButton? ==> m[j].page < m[k].page
    decreases |m|
  {
    if |m| > 1 {
      var d := if m[1].PageButton? then 1 else 2;
      var rest := m[d..];
      LadderPages(rest, m[d].page, hi);
      LadderIncreasing(rest, m[d].page, hi);
      forall j, k | 0 <= j < k < |m| && m[j].PageButton? && m[k].PageButton?
        ensures m[j].page < m[k].page
      {
        if j == 0 {
          assert m[k] == rest[k - d];
        } else {
          assert m[j] == rest[j - d] && m[k] == rest[k - d];
        }
      }
    }
  }

  /** The buttons between previous and next list pages `1..pages` as a ladder. */
  lemma MiddleLadder(start: int, last: int, current: int, pages: int)
    requires 1 <= start <= last <= pages
    ensures Ladder(Lead(start) + Run(start, last + 1, current) + Trail(last, pages), 1, pages)
  {
    var run := Run(start, last + 1, current);
    RunLadder(start, last, current);
    var first := [PageButton(1, false)];
    if start == 1 {
      assert Lead(start) + run == run;
    } else if start == 2 {
      LadderAppend(first, 1, 1, run, last);
      assert Lead(start) + run == first + run;
    } else {
      LadderAppendGap(first, 1, 1, run, start, last);
      assert Lead(start) + run == first + [Ellipsis] + run;
    }
    var left := Lead(start) + run;
    assert Ladder(left, 1, last);
    var final := [PageButton(pages, false)];
    if last == pages {
      assert left + Trail(last, pages) == left;
    } else if last == pages - 1 {
      LadderAppend(left, 1, last, final, pages);
      assert left + Trail(last, pages) == left + final;
    } else {
      LadderAppendGap(left, 1, last, final, pages, pages);
      assert left + Trail(last, pages) == left + [Ellipsis] + final;
    }
  }

  /** The layout of the controls on a valid page: previous first, disabled on page 1;
      next last, disabled on the last page; between them the pages `1..pages` as a
      ladder, at most eleven controls in all. */
  lemma PaginationLayout(total: nat, current: int, perPage: nat)
    requires perPage > 0 && total > 0
    requires 1 <= current <= PageCount(total, perPage)
    ensures var pages := PageCount(total, perPage); var ctrl := Controls(total, current, perPage);
      3 <= |ctrl| <= 11
      && ctrl[0] == PrevButton(current == 1)
      && ctrl[|ctrl| - 1] == NextButton(current == pages)
      && Ladder(ctrl[1..|ctrl| - 1], 1, pages)
  {
    var pages := PageCount(total, perPage);
    var s, e := WindowStart(current, pages), WindowEnd(current, pages);
    WindowBounds(current, pages);
    MiddleLadder(s, e, current, pages);
    RunButtons(s, e + 1, current);
    var middle := Lead(s) + Run(s, e + 1, current) + Trail(e, pages);
    var ctrl := Controls(total, current, perPage);
    ControlsLayout(total, current, perPage, pages, s, e);
    assert ctrl[1..|ctrl| - 1] == middle;
  }

  /** Where each control sits on a valid page, with `s..e` the window:
      - previous comes first, at position 0;
      - a separate page-1 button follows exactly when the window starts after page 1, and
        an ellipsis after it exactly when the window starts after page 2;
      - the window's buttons come next, in order, the current page active;
      - then an ellipsis exactly when the window ends before page `pages - 1`, and a
        separate last-page button exactly when it ends before page `pages`;
      - next comes last. */
  lemma ControlPositions(total: nat, current: int, perPage: nat)
    requires perPage > 0 && total > 0
    requires 1 <= current <= PageCount(total, perPage)
    ensures var pages := PageCount(total, perPage);
      var s, e := WindowStart(current, pages), WindowEnd(current, pages);
      var ctrl, k := Controls(total, current, perPage), 1 + (if s > 1 then 1 else 0) + (if s > 2 then 1 else 0);
      var n := |ctrl|;
      n == k + (e - s + 1) + (if e < pages then 1 else 0) + (if e < pages - 1 then 1 else 0) + 1
      && (s > 1 ==> ctrl[1] == PageButton(1, false))
      && (s > 2 <==> ctrl[2] == Ellipsis)
      && (forall i :: k <= i <= k + e - s ==> ctrl[i] == PageButton(s + i - k, s + i - k == current))
      && (e < pages ==> ctrl[n - 2] == PageButton(pages, false))
      && (e < pages - 1 <==> ctrl[n - 3] == Ellipsis)
  {
    var pages := PageCount(total, perPage);
    var s, e := WindowStart(current, pages), WindowEnd(current, pages);
    WindowBounds(current, pages);
    ControlsLayout(total, current, perPage, pages, s, e);
    RunButtons(s, e + 1, current);
    var ctrl := Controls(total, current, perPage);
    var lead, run, trail := Lead(s), Run(s, e + 1, current), Trail(e, pages);
    Regroup([PrevButton(current == 1)], lead, run, trail, [NextButton(current == pages)]);
    FramedPositions(ctrl, lead, run, trail, current, pages, s, e);
  }

  lemma FramedPositions(ctrl: seq<Control>, lead: seq<Control>, run: seq<Control>, trail: seq<Control>,
                        current: int, pages: int, s: int, e: int)
    requires 1 <= s <= current <= e <= pages && e - s + 1 == Min(MaxVisiblePages, pages)
    requires ctrl == [PrevButton(current == 1)] + lead + run + trail + [NextButton(current == pages)]
    requires lead == Lead(s) && trail == Trail(e, pages)
    requires |run| == e - s + 1 && forall j :: 0 <= j < |run| ==> run[j] == PageButton(s + j, s + j == current)
    ensures var k, n := 1 + (if s > 1 then 1 else 0) + (if s > 2 then 1 else 0), |ctrl|;
      n == k + (e - s + 1) + (if e < pages then 1 else 0) + (if e < pages - 1 then 1 else 0) + 1
      && (s > 1 ==> ctrl[1] == PageButton(1, false))
      && (s > 2 <==> ctrl[2] == Ellipsis)
      && (forall i :: k <= i <= k + e - s ==> ctrl[i] == PageButton(s + i - k, s + i - k == current))
      && (e < pages ==> ctrl[n - 2] == PageButton(pages, false))
      && (e < pages - 1 <==> ctrl[n - 3] == Ellipsis)
  {
    Positions(ctrl, PrevButton(current == 1), lead, run, trail, NextButton(current == pages));
    var k, n := 1 + |lead|, |ctrl|;
    forall i | k <= i <= k + e - s
      ensures ctrl[i] == PageButton(s + i - k, s + i - k == current)
    {
      assert ctrl[i] == run[i - k];
    }
    if s <= 2 {
      if s == 2 {
        assert ctrl[2] == run[0];
      } else if |run| >= 2 {
        assert ctrl[2] == run[1];
      } else {
        assert ctrl[2] == ctrl[n - 1];
      }
    }
    if e >= pages - 1 {
      if e == pages - 1 {
        assert ctrl[n - 3] == run[|run| - 1];
      } else if |run| >= 2 {
        assert ctrl[n - 3] == run[|run| - 2];
      } else {
        assert ctrl[n - 3] == ctrl[0];
      }
    }
  }

  /** The positions of the parts of `[first] + lead + run + trail + [last]`. */
  lemma Positions<T>(ctrl: seq<T>, first: T, lead: seq<T>, run: seq<T>, trail: seq<T>, last: T)
    requires ctrl == [first] + lead + run + trail + [last]
    ensures |ctrl| == |lead| + |run| + |trail| + 2
    ensures ctrl[0] == first && ctrl[|ctrl| - 1] == last
    ensures forall j :: 0 <= j < |lead| ==> ctrl[1 + j] == lead[j]
    ensures forall j :: 0 <= j < |run| ==> ctrl[1 + |lead| + j] == run[j]
    ensures forall j :: 0 <= j < |trail| ==> ctrl[1 + |lead| + |run| + j] == trail[j]
  {
  }

  /** In `m` a page button is active exactly when it is page `current`, and exactly one
      button, that of page `current`, is active. */
  predicate ActiveIsCurrent(m: seq<Control>, current: int) {
    (forall j :: 0 <= j < |m| && m[j].PageButton? ==> m[j].active == (m[j].page == current))
    && (exists j :: 0 <= j < |m| && m[j] == PageButton(current, true))
    && (forall j, k :: 0 <= j < k < |m| && m[j].PageButton? && m[k].PageButton? ==> !(m[j].active && m[k].active))
  }

  /** Between previous and next, a page button is active exactly when it is the current
      page, and the current page has its button. */
  lemma MiddleActive(s: int, e: int, current: int, pages: int)
    requires 1 <= s <= current <= e <= pages
    ensures ActiveIsCurrent(Lead(s) + Run(s, e + 1, current) + Trail(e, pages), current)
  {
    var lead, run, trail := Lead(s), Run(s, e + 1, current), Trail(e, pages);
    var m := lead + run + trail;
    RunButtons(s, e + 1, current);
    forall j | 0 <= j < |m| && m[j].PageButton?
      ensures m[j].active == (m[j].page == current)
    {
      if j < |lead| {
        assert m[j] == lead[j];
      } else if j < |lead| + |run| {
        assert m[j] == run[j - |lead|];
      } else {
        assert m[j] == trail[j - |lead| - |run|];
      }
    }
    assert m[|lead| + current - s] == run[current - s];
    MiddleLadder(s, e, current, pages);
    LadderIncreasing(m, 1, pages);
  }

  /** Framing a sequence with two controls that are not page buttons keeps it active
      exactly at the current page. */
  lemma FramedActive(m: seq<Control>, first: Control, last: Control, current: int)
    requires ActiveIsCurrent(m, current) && !first.PageButton? && !last.PageButton?
    ensures ActiveIsCurrent([first] + m + [last], current)
  {
    var ctrl := [first] + m + [last];
    var w :| 0 <= w < |m| && m[w] == PageButton(current, true);
    assert ctrl[w + 1] == m[w];
    forall j | 0 <= j < |ctrl| && ctrl[j].PageButton?
      ensures ctrl[j].active == (ctrl[j].page == current)
    {
      assert ctrl[j] == m[j - 1];
    }
    forall j, k | 0 <= j < k < |ctrl| && ctrl[j].PageButton? && ctrl[k].PageButton?
      ensures !(ctrl[j].active && ctrl[k].active)
    {
      assert ctrl[j] == m[j - 1] && ctrl[k] == m[k - 1];
    }
  }

  /** On a valid page exactly one page button is marked active, and it is the current page. */
  lemma ExactlyOneActive(total: nat, current: int, perPage: nat)
    requires perPage > 0 && total > 0
    requires 1 <= current <= PageCount(total, perPage)
    ensures ActiveIsCurrent(Controls(total, current, perPage), current)
  {
    var pages := PageCount(total, perPage);
    var s, e := WindowStart(current, pages), WindowEnd(current, pages);
    WindowBounds(current, pages);
    ControlsLayout(total, current, perPage, pages, s, e);
    var middle := Lead(s) + Run(s, e + 1, current) + Trail(e, pages);
    MiddleActive(s, e, current, pages);
    FramedActive(middle, PrevButton(current == 1), NextButton(current == pages), current);
    assert Controls(total, current, perPage) == [PrevButton(current == 1)] + middle + [NextButton(current == pages)];
  }

  /** What a click on each control does: previous and next move one page while there is
      one to move to; a page button goes to its page. */
  function ClickTarget(c: Control, current: int, pages: int): Option<int> {
    match c
    case PrevButton(_) => if current > 1 then Some(current - 1) else None
    case PageButton(p, _) => Some(p)
    case Ellipsis => None
    case NextButton(_) => if current < pages then Some(current + 1) else None
  }

  /** Every click on `ctrl` stays within `1..pages`, and a previous or next button is
      disabled exactly when clicking it does nothing. */
  predicate ClicksInRange(ctrl: seq<Control>, current: int, pages: int) {
    (forall j :: 0 <= j < |ctrl| && ClickTarget(ctrl[j], current, pages).Some? ==>
       1 <= ClickTarget(ctrl[j], current, pages).value <= pages)
    && (forall j :: 0 <= j < |ctrl| && (ctrl[j].PrevButton? || ctrl[j].NextButton?) ==>
       (ctrl[j].disabled <==> ClickTarget(ctrl[j], current, pages) == None))
  }

  /** Framing page buttons of `1..pages` and ellipses with previous and next keeps every
      click in range. */
  lemma FramedClicks(m: seq<Control>, current: int, pages: int)
    requires 1 <= current <= pages
    requires forall j :: 0 <= j < |m| ==> m[j].PageButton? || m[j].Ellipsis?
    requires forall j :: 0 <= j < |m| && m[j].PageButton? ==> 1 <= m[j].page <= pages
    ensures ClicksInRange([PrevButton(current == 1)] + m + [NextButton(current == pages)], current, pages)
  {
    var ctrl := [PrevButton(current == 1)] + m + [NextButton(current == pages)];
    forall j | 1 <= j < |ctrl| - 1
      ensures ctrl[j] == m[j - 1]
    {
    }
  }

  /** On a valid page every click stays within `1..pages`, and a previous or next button is
      disabled exactly when clicking it does nothing. */
  lemma ClicksStayInRange(total: nat, current: int, perPage: nat)
    requires perPage > 0 && total > 0
    requires 1 <= current <= PageCount(total, perPage)
    ensures ClicksInRange(Controls(total, current, perPage), current, PageCount(total, perPage))
  {
    var pages := PageCount(total, perPage);
    var s, e := WindowStart(current, pages), WindowEnd(current, pages);
    WindowBounds(current, pages);
    ControlsLayout(total, current, perPage, pages, s, e);
    var middle := Lead(s) + Run(s, e + 1, current) + Trail(e, pages);
    MiddleLadder(s, e, current, pages);
    LadderPages(middle, 1, pages);
    FramedClicks(middle, current, pages);
  }

  /** No items, no controls. */
  lemma NoItemsNoControls(current: int, perPage: nat)
    requires perPage > 0
    ensures Controls(0, current, perPage) == []
  {
  }
}
