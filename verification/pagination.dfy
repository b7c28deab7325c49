/** The admin dashboard's two paginated tables (`static/js/admin-dash.js`): the book
    table and the table of current loans. Both show five rows a page; a table's
    state is its row count, the current page and what its pagination controls show. */
module Pagination {
  import opened Wrappers

  const PageSize: nat := 5

  /** `Math.ceil(n / 5)`. */
  function TotalPages(n: nat): (t: nat)
    ensures t * PageSize >= n
    ensures t == 0 || (t - 1) * PageSize < n
    ensures t == 0 <==> n == 0
  {
    (n + PageSize - 1) / PageSize
  }

  function Min(a: int, b: int): int {
    if a < b then a else b
  }

  /** A `slice` index: negative indices count from the end, and every index is
      clamped into `[0, len]`. */
  function SliceIndex(i: int, len: nat): (r: nat)
    ensures r <= len
    ensures 0 <= i ==> r == Min(i, len)
    ensures i < 0 && len + i >= 0 ==> r == len + i
    ensures len + i < 0 ==> r == 0
  {
    if i < 0 then (if len + i < 0 then 0 else len + i) else Min(i, len)
  }

  /** `Array.prototype.slice(start, end)`. */
  function Slice<T>(s: seq<T>, start: int, end: int): (r: seq<T>)
    ensures |r| <= |s|
    ensures 0 <= start <= end ==> |r| <= end - start
    ensures SliceIndex(start, |s|) < SliceIndex(end, |s|) ==> r == s[SliceIndex(start, |s|)..SliceIndex(end, |s|)]
    ensures SliceIndex(end, |s|) <= SliceIndex(start, |s|) ==> r == []
  {
    var a := SliceIndex(start, |s|);
    var b := SliceIndex(end, |s|);
    if a < b then s[a..b] else []
  }

  /** The rows of page `page` (`renderAdminBookTablePage`, `renderBorrowedAdminBookTablePage`). */
  function PageRows<T>(items: seq<T>, page: int): (r: seq<T>)
    ensures |r| <= PageSize
    ensures page >= 1 ==>
      r == items[Min((page - 1) * PageSize, |items|)..Min((page - 1) * PageSize + PageSize, |items|)]
  {
    var start := (page - 1) * PageSize;
    Slice(items, start, start + PageSize)
  }

  /** A page between 1 and the page count holds between one and five rows. */
  lemma PageInRangeIsFilled<T>(items: seq<T>, page: int)
    requires 1 <= page <= TotalPages(|items|)
    ensures 1 <= |PageRows(items, page)| <= PageSize
  {
  }

  /** Pages `1..k`, one after the other. */
  function Pages<T>(items: seq<T>, k: nat): seq<T>
    decreases k
  {
    if k == 0 then [] else Pages(items, k - 1) + PageRows(items, k)
  }

  lemma {:induction false} PagesPrefix<T>(items: seq<T>, k: nat)
    ensures Pages(items, k) == items[..Min(k * PageSize, |items|)]
    decreases k
  {
    if k > 0 {
      PagesPrefix(items, k - 1);
      var a := Min((k - 1) * PageSize, |items|);
      var b := Min(k * PageSize, |items|);
      assert items[..a] + items[a..b] == items[..b];
    }
  }

  /** Reading the pages in order shows every row exactly once, in order. */
  lemma AllPagesShowAll<T>(items: seq<T>)
    ensures Pages(items, TotalPages(|items|)) == items
  {
    PagesPrefix(items, TotalPages(|items|));
  }

  datatype Table = BookTable | LoanTable

  /** What the table body shows: rows, or a notice when the page is empty. */
  datatype Body<T> = Rows(rows: seq<T>) | Notice(text: string)

  function RenderBody<T>(table: Table, items: seq<T>, page: int): (b: Body<T>)
    ensures b.Rows? ==> b.rows == PageRows(items, page) && b.rows != []
    ensures b.Notice? <==> PageRows(items, page) == []
    ensures b.Notice? && page == 1 ==> b.text == (if table == BookTable then "No books in the library." else "No books are currently borrowed.")
  {
    var rows := PageRows(items, page);
    if rows != [] then Rows(rows)
    else
      match table
      case BookTable => Notice(if page == 1 then "No books in the library." else "No more books to display.")
      case LoanTable => Notice(if page == 1 then "No books are currently borrowed." else "No more borrowed records.")
  }

  datatype PageLink = PageLink(number: int, active: bool)

  /** A table's pagination state: its row count, the current page, whether the
      controls are hidden, the page links, and the prev/next buttons' `disabled`. */
  datatype Pager = Pager(count: nat, page: int, hidden: bool, links: seq<PageLink>,
                         prevDisabled: bool, nextDisabled: bool)

  /** `updateAdminPaginationActiveState` / `updateBorrowedAdminPaginationActiveState`. */
  function UpdateActiveState(p: Pager): (r: Pager)
    ensures r.count == p.count && r.page == p.page && r.hidden == p.hidden
    ensures r.prevDisabled <==> p.page == 1
    ensures r.nextDisabled <==> p.page == TotalPages(p.count)
    ensures |r.links| == |p.links|
    ensures forall k :: 0 <= k < |r.links| ==>
      r.links[k].number == p.links[k].number && (r.links[k].active <==> p.links[k].number == p.page)
  {
    var links := seq(|p.links|, k requires 0 <= k < |p.links| => PageLink(p.links[k].number, p.links[k].number == p.page));
    p.(links := links, prevDisabled := p.page == 1, nextDisabled := p.page == TotalPages(p.count))
  }

  /** Links numbered `1..n`, none active yet. */
  function FreshLinks(n: nat): (r: seq<PageLink>)
    ensures |r| == n && forall k :: 0 <= k < n ==> r[k].number == k + 1
  {
    seq(n, k requires 0 <= k < n => PageLink(k + 1, false))
  }

  /** `renderAdminPaginationControls` / `renderBorrowedAdminPaginationControls`: with at
      most one page the controls are hidden (and the buttons keep their state);
      otherwise one link per page, then the active state is brought up to date. */
  function RenderControls(p: Pager): (r: Pager)
    ensures r.count == p.count && r.page == p.page
    ensures r.hidden <==> TotalPages(p.count) <= 1
    ensures r.hidden ==> r.links == [] && r.prevDisabled == p.prevDisabled && r.nextDisabled == p.nextDisabled
    ensures !r.hidden ==> |r.links| == TotalPages(p.count)
    ensures !r.hidden ==> forall k :: 0 <= k < |r.links| ==> r.links[k] == PageLink(k + 1, k + 1 == p.page)
    ensures !r.hidden ==> (r.prevDisabled <==> p.page == 1) && (r.nextDisabled <==> p.page == TotalPages(p.count))
  {
    var t := TotalPages(p.count);
    if t <= 1 then p.(hidden := true, links := [])
    else UpdateActiveState(p.(hidden := false, links := FreshLinks(t)))
  }

  /** `loadAdminBooks` / `loadAllBorrowedAdminRecords` after a successful fetch: the
      new rows are shown from page 1. A failed fetch leaves the table as it was. */
  function Load(p: Pager, fetched: Option<nat>): (r: Pager)
    ensures fetched.Some? ==> r.page == 1 && r.count == fetched.value
    ensures fetched.None? ==> r == p
  {
    match fetched
    case None => p
    case Some(n) => RenderControls(p.(count := n, page := 1))
  }

  /** A click on page link `i`; links exist only while the controls are shown. */
  function ClickLink(p: Pager, i: int): (r: Pager)
    ensures 1 <= i <= |p.links| && p.links[i - 1].number == i ==> r.page == i
    ensures !(1 <= i <= |p.links|) ==> r == p
  {
    if 1 <= i <= |p.links| then UpdateActiveState(p.(page := p.links[i - 1].number)) else p
  }

  /** The book table's prev button: moves back only from a page after the first. */
  function PrevBooks(p: Pager): (r: Pager)
    ensures p.page > 1 ==> r.page == p.page - 1
    ensures p.page <= 1 ==> r == p
  {
    if p.page > 1 then RenderControls(p.(page := p.page - 1)) else p
  }

  /** The book table's next button: moves on only from a page before the last. */
  function NextBooks(p: Pager): (r: Pager)
    ensures p.page < TotalPages(p.count) ==> r.page == p.page + 1
    ensures p.page >= TotalPages(p.count) ==> r == p
  {
    if p.page < TotalPages(p.count) then RenderControls(p.(page := p.page + 1)) else p
  }

  /** The loan table's prev button, which also checks that the button is enabled. */
  function PrevLoans(p: Pager): (r: Pager)
    ensures !p.prevDisabled && p.page > 1 ==> r.page == p.page - 1
    ensures p.prevDisabled || p.page <= 1 ==> r == p
  {
    if !p.prevDisabled && p.page > 1 then UpdateActiveState(p.(page := p.page - 1)) else p
  }

  function NextLoans(p: Pager): (r: Pager)
    ensures !p.nextDisabled && p.page < TotalPages(p.count) ==> r.page == p.page + 1
    ensures p.nextDisabled || p.page >= TotalPages(p.count) ==> r == p
  {
    if !p.nextDisabled && p.page < TotalPages(p.count) then UpdateActiveState(p.(page := p.page + 1)) else p
  }

  function Max(a: int, b: int): int {
    if a < b then b else a
  }

  /** What the page keeps true of a table: the cursor lies in `[1, max(1, pages)]`;
      the controls are hidden exactly when there is at most one page; when shown,
      there is one link per page, only the current page's is active, and prev (next)
      is disabled exactly on the first (last) page. */
  predicate Consistent(p: Pager) {
    var t := TotalPages(p.count);
    && 1 <= p.page <= Max(1, t)
    && (p.hidden <==> t <= 1)
    && (p.hidden ==> p.links == [])
    && (!p.hidden ==>
          && |p.links| == t
          && (forall k :: 0 <= k < t ==> p.links[k] == PageLink(k + 1, k + 1 == p.page))
          && (p.prevDisabled <==> p.page == 1)
          && (p.nextDisabled <==> p.page == t))
  }

  datatype Event = Loaded(fetched: Option<nat>) | LinkClicked(i: int) | PrevClicked | NextClicked

  function StepBooks(p: Pager, e: Event): Pager {
    match e
    case Loaded(n) => Load(p, n)
    case LinkClicked(i) => ClickLink(p, i)
    case PrevClicked => PrevBooks(p)
    case NextClicked => NextBooks(p)
  }

  function StepLoans(p: Pager, e: Event): Pager {
    match e
    case Loaded(n) => Load(p, n)
    case LinkClicked(i) => ClickLink(p, i)
    case PrevClicked => PrevLoans(p)
    case NextClicked => NextLoans(p)
  }

  lemma LoadConsistent(p: Pager, n: nat)
    ensures Consistent(Load(p, Some(n)))
  {
  }

  lemma UpdateKeepsLinks(p: Pager, page: int)
    requires Consistent(p) && !p.hidden && 1 <= page <= TotalPages(p.count)
    ensures UpdateActiveState(p.(page := page)) == RenderControls(p.(page := page))
  {
    var a := UpdateActiveState(p.(page := page));
    var b := RenderControls(p.(page := page));
    assert a.links == b.links;
  }

  /** Every event keeps a table consistent, on either table. */
  lemma StepsKeepConsistent(p: Pager, e: Event)
    requires Consistent(p)
    ensures e.Loaded? && e.fetched.None? ==> StepBooks(p, e) == p
    ensures Consistent(StepBooks(p, e))
    ensures Consistent(StepLoans(p, e))
  {
    match e
    case Loaded(_) =>
    case LinkClicked(i) => LinkKeepsConsistent(p, i);
    case PrevClicked => PrevKeepsConsistent(p);
    case NextClicked => NextKeepsConsistent(p);
  }

  lemma LinkKeepsConsistent(p: Pager, i: int)
    requires Consistent(p)
    ensures Consistent(ClickLink(p, i))
  {
    if 1 <= i <= |p.links| {
      UpdateKeepsLinks(p, i);
    }
  }

  lemma PrevKeepsConsistent(p: Pager)
    requires Consistent(p)
    ensures Consistent(PrevBooks(p)) && Consistent(PrevLoans(p))
  {
    if p.page > 1 {
      UpdateKeepsLinks(p, p.page - 1);
    }
  }

  lemma NextKeepsConsistent(p: Pager)
    requires Consistent(p)
    ensures Consistent(NextBooks(p)) && Consistent(NextLoans(p))
  {
    if p.page < TotalPages(p.count) {
      UpdateKeepsLinks(p, p.page + 1);
    }
  }

  /** On a consistent table, exactly the current page's link is active. */
  lemma OneActiveLink(p: Pager)
    requires Consistent(p) && !p.hidden
    ensures exists k :: 0 <= k < |p.links| && p.links[k].active
    ensures forall j, k :: 0 <= j < |p.links| && 0 <= k < |p.links| && p.links[j].active && p.links[k].active ==> j == k
  {
    assert p.links[p.page - 1].active;
  }

  /** On a consistent table the loan table's extra `disabled` checks change nothing:
      its prev and next buttons behave like the book table's. */
  lemma LoanGuardsAgree(p: Pager)
    requires Consistent(p)
    ensures PrevLoans(p) == PrevBooks(p)
    ensures NextLoans(p) == NextBooks(p)
  {
    if p.page > 1 {
      UpdateKeepsLinks(p, p.page - 1);
    }
    if p.page < TotalPages(p.count) {
      UpdateKeepsLinks(p, p.page + 1);
    }
  }

  /** Which of the two dashboard sections is displayed. */
  datatype Sections = Sections(allBooksShown: bool, loansShown: bool)

  /** `toggleAdminTables`. */
  function Toggle(view: string): (r: Sections)
    ensures r.allBooksShown != r.loansShown
    ensures r.loansShown <==> view == "borrowed"
  {
    if view == "borrowed" then Sections(false, true) else Sections(true, false)
  }

  /** The loan panel: its table and how many prev/next listener pairs are attached. */
  datatype LoanPanel = LoanPanel(pager: Pager, listeners: nat)

  /** One press of the loan table's next button runs every attached listener in turn. */
  function RunNext(p: Pager, listeners: nat): (r: Pager)
    ensures listeners == 0 ==> r == p
    decreases listeners
  {
    if listeners == 0 then p else RunNext(NextLoans(p), listeners - 1)
  }

  function PressNext(panel: LoanPanel): LoanPanel {
    panel.(pager := RunNext(panel.pager, panel.listeners))
  }

  /** The "view borrowed books" click as written: it loads the loans and attaches
      another pair of prev/next listeners every time. */
  function OpenLoansAsWritten(panel: LoanPanel, fetched: Option<nat>): (r: LoanPanel)
    ensures r.listeners == panel.listeners + 1
    ensures r.pager == Load(panel.pager, fetched)
  {
    LoanPanel(Load(panel.pager, fetched), panel.listeners + 1)
  }

  /** The "view borrowed books" click with the listeners attached only once. */
  function OpenLoans(panel: LoanPanel, fetched: Option<nat>): (r: LoanPanel)
    ensures r.listeners == 1
    ensures r.pager == Load(panel.pager, fetched)
  {
    LoanPanel(Load(panel.pager, fetched), 1)
  }

  /** Opening the loan panel twice and pressing next once, with twelve loans (three
      pages), jumps from page 1 to page 3. */
  lemma OpenedTwiceSkipsAPage(start: Pager)
    ensures var panel := OpenLoansAsWritten(OpenLoansAsWritten(LoanPanel(start, 0), Some(12)), Some(12));
      panel.pager.page == 1 && PressNext(panel).pager.page == 3
  {
    var panel := OpenLoansAsWritten(OpenLoansAsWritten(LoanPanel(start, 0), Some(12)), Some(12));
    var p1 := NextLoans(panel.pager);
    assert p1.page == 2;
    assert RunNext(panel.pager, 2) == RunNext(p1, 1);
  }

  /** With the listeners attached once, however often the panel is shown, one press
      of next moves at most one page and keeps the table consistent. */
  lemma OpenedPanelStepsOnePage(panel: LoanPanel, fetched: Option<nat>)
    requires Consistent(panel.pager)
    ensures var shown := OpenLoans(panel, fetched);
      && Consistent(PressNext(shown).pager)
      && PressNext(shown).pager.page <= shown.pager.page + 1
      && (shown.pager.page < TotalPages(shown.pager.count) ==> PressNext(shown).pager.page == shown.pager.page + 1)
  {
    var shown := OpenLoans(panel, fetched);
    StepsKeepConsistent(panel.pager, Loaded(fetched));
    StepsKeepConsistent(shown.pager, NextClicked);
    assert PressNext(shown).pager == NextLoans(shown.pager);
  }
}
