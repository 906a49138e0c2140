/**
 * A paginated pane: a pane that spreads child panes over numbered pages
 * and shows only the active page.
 */
module PaginatedPanes {
  import opened Panes
  import opened Registry
  import opened Population
  import opened ClickRouting

  /** The errors the pane's operations can raise. */
  datatype Error =
    | PageOutsideRange   // setPage to an index that is not a page
    | DivisionByZero     // populating a pane whose extent holds no cell

  datatype Outcome = Success | Failure(error: Error)

  class PaginatedPane {
    const x: int
    const y: int
    const length: nat
    const height: nat
    const priority: Priority
    /** The panes of each page, each page in nondecreasing priority order. */
    var pages: Pages
    /** The active page. */
    var page: int

    /**
     * Every page is sorted by priority, and the active page is a page or
     * still the initial page 0.
     */
    ghost predicate Valid()
      reads this
    {
      AllSorted(pages) && (page == 0 || page in pages)
    }

    constructor (x: int, y: int, length: nat, height: nat, priority: Priority)
      ensures Valid()
      ensures this.x == x && this.y == y && this.length == length && this.height == height
      ensures this.priority == priority
      ensures pages == map[] && page == 0
    {
      this.x := x;
      this.y := y;
      this.length := length;
      this.height := height;
      this.priority := priority;
      pages := map[];
      page := 0;
    }

    /** getPage: the active page, which is a page unless it is still 0. */
    function GetPage(): (p: int)
      requires Valid()
      reads this
      ensures p == 0 || p in pages
    {
      page
    }

    /**
     * getPages: the number of pages, that is of distinct page indices; it
     * is 0 exactly when no pane was ever added.
     */
    function GetPages(): (n: nat)
      reads this
      ensures n == 0 <==> pages == map[]
    {
      |pages|
    }

    /**
     * getPanes: every pane of every page, whichever page is active, and
     * every pane nested in one of them, and nothing else.
     */
    function GetPanes(nested: Pane -> set<Pane>): (r: set<Pane>)
      reads this
      ensures forall q :: q in r ==> Held(pages, nested, q)
      ensures forall k, i :: k in pages && 0 <= i < |pages[k]| ==>
        pages[k][i] in r && nested(pages[k][i]) <= r
    {
      PanesOfHeld(pages, nested);
      PanesOf(pages, nested)
    }

    /**
     * addPane: adds pane to page p, creating the page if needed, and keeps
     * the page sorted by priority; nothing else changes.
     */
    method AddPane(p: int, pane: Pane)
      requires Valid()
      modifies this`pages
      ensures Valid()
      ensures pages == AddToPage(old(pages), p, pane)
      ensures GetPages() == old(GetPages()) + (if p in old(pages) then 0 else 1)
    {
      ghost var before := pages;
      if p !in pages {
        pages := pages[p := []];
      }
      // add, then re-sort with a stable sort: the page was sorted already
      pages := pages[p := InsertByPriority(pages[p], pane)];
      assert pages == AddToPage(before, p, pane);
      AddToPageCount(before, p, pane);
    }

    /**
     * setPage: makes p the active page when p is a page; otherwise fails
     * with PageOutsideRange and changes nothing. The pages never change.
     */
    method SetPage(p: int) returns (r: Outcome)
      requires Valid()
      modifies this`page
      ensures Valid()
      ensures r == if p in pages then Success else Failure(PageOutsideRange)
      ensures page == if p in pages then p else old(page)
      ensures pages == old(pages)
    {
      if p !in pages {
        return Failure(PageOutsideRange);
      }
      page := p;
      return Success;
    }

    /**
     * populateWithItemStacks: does nothing for an empty list; otherwise adds
     * one new static pane, at this pane's origin and of its extent, to each
     * of the pages 0 .. n / (length*height), filled row-major with the next
     * length*height items. `created` names the panes it added.
     */
    method PopulateWithItemStacks(items: seq<ItemStack>) returns (r: Outcome, ghost created: seq<Pane>)
      requires Valid()
      modifies this`pages
      ensures Valid()
      ensures items == [] ==> r == Success && pages == old(pages)
      ensures items != [] && (length == 0 || height == 0) ==>
        r == Failure(DivisionByZero) && pages == old(pages)
      ensures items != [] && length > 0 && height > 0 ==>
        && r == Success
        && |created| == PagesNeeded(|items|, length * height)
        && pages == Replay(old(pages), Numbered(created))
        && fresh(created)
        && AllBuilt(created, items)
    {
      created := [];
      if items == [] {
        return Success, created;
      }
      var itemsPerPage := height * length;
      CellCount(length, height);
      if itemsPerPage == 0 {
        return Failure(DivisionByZero), created;
      }
      assert length > 0 && height > 0;
      var pagesNeeded := |items| / itemsPerPage + 1;
      var i := 0;
      ghost var start := pages;
      while i < pagesNeeded
        invariant 0 <= i <= pagesNeeded && |created| == i
        invariant Valid()
        invariant pages == Replay(start, Numbered(created))
        invariant fresh(created)
        invariant AllBuilt(created, items)
      {
        var pane := FillPage(items, i);
        AddPane(i, pane);
        ReplayAppend(start, created, pane);
        BuiltAppend(created, pane, items);
        created := created + [pane];
        i := i + 1;
      }
      r := Success;
    }

    /**
     * Whether pane is the static pane populateWithItemStacks builds for page
     * i of items: at this pane's origin, of its extent, of normal priority,
     * holding that page's share of the items in row-major order.
     */
    ghost predicate PageBuilt(pane: Pane, items: seq<ItemStack>, i: nat)
      reads pane
    {
      && length > 0 && height > 0
      && pane.items == PageLayout(items, length, height, i)
      && pane.x == x && pane.y == y
      && pane.length == length && pane.height == height
      && pane.priority == Normal
    }

    /** Each pane of created is the one built for its page of items. */
    ghost predicate AllBuilt(created: seq<Pane>, items: seq<ItemStack>)
      reads created
    {
      forall k :: 0 <= k < |created| ==> PageBuilt(created[k], items, k)
    }

    lemma BuiltAppend(created: seq<Pane>, pane: Pane, items: seq<ItemStack>)
      requires AllBuilt(created, items) && PageBuilt(pane, items, |created|)
      ensures AllBuilt(created + [pane], items)
    {
      var next := created + [pane];
      forall k | 0 <= k < |next| ensures PageBuilt(next[k], items, k) {
        if k < |created| {
          assert next[k] == created[k];
        }
      }
    }

    /**
     * The body of populateWithItemStacks's outer loop up to addPane: a new
     * static pane with items i*cap, i*cap + 1, ... put on it, position j of
     * the page in column j % length and row j / length, until the page is
     * full or the list ends.
     */
    method FillPage(items: seq<ItemStack>, i: nat) returns (pane: Pane)
      requires length > 0 && height > 0
      ensures fresh(pane) && PageBuilt(pane, items, i)
    {
      var itemsPerPage := height * length;
      CellCount(length, height);
      pane := new Pane(x, y, length, height, Normal);
      ghost var layout := PageLayout(items, length, height, i);
      var j := 0;
      while j < itemsPerPage
        invariant 0 <= j <= |layout|
        invariant pane.items == layout[..j]
        modifies pane
      {
        var index := i * itemsPerPage + j;
        LayoutStep(items, length, height, i, j);
        MulMonotone(0, i, itemsPerPage);
        if index >= |items| {
          break;
        }
        // convert the position on the page to column and row
        var px := j % length;
        var py := j / length;
        pane.AddItem(items[index], px, py);
        j := j + 1;
      }
      LayoutStep(items, length, height, i, j);
      assert pane.items == layout;
    }

    /**
     * click: when the clicked slot falls inside this pane's clamped extent,
     * runs the local click handler (if one is set) and then offers the click
     * to the children of the active page in order, stopping at the first
     * that reports it handled; otherwise does nothing and reports false.
     * `respond` gives each child's answer; `trace` lists the calls made.
     */
    method Click(slot: int, paneOffsetX: int, paneOffsetY: int, maxLength: int, maxHeight: int,
                 hasLocalClick: bool, respond: Call -> bool)
      returns (handled: bool, trace: seq<Call>)
      requires InBounds(slot, x, y, length, height, maxLength, maxHeight) ==> page in pages
      ensures !InBounds(slot, x, y, length, height, maxLength, maxHeight) ==> !handled && trace == []
      ensures InBounds(slot, x, y, length, height, maxLength, maxHeight) ==>
        var calls := ChildCalls(pages[page], paneOffsetX + x, paneOffsetY + y,
                                Min(length, maxLength), Min(height, maxHeight));
        && trace == (if hasLocalClick then [LocalClick] else []) + Invoked(calls, respond)
        && handled == SomeHandles(calls, respond)
    {
      var clampedLength := Min(length, maxLength);
      var clampedHeight := Min(height, maxHeight);
      var lx := LocalX(slot, x);
      var ly := LocalY(slot, y);
      if lx < 0 || lx >= clampedLength || ly < 0 || ly >= clampedHeight {
        return false, [];
      }
      var local := if hasLocalClick then [LocalClick] else [];
      var asked;
      handled, asked := AskChildren(pages[page], paneOffsetX + x, paneOffsetY + y,
                                    clampedLength, clampedHeight, respond);
      trace := local + asked;
    }
  }
}
