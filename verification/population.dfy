/**
 * The arithmetic of auto-population: how many pages a flat list of items
 * is spread over, and where on which page each item lands.
 */
module Population {
  import opened Panes

  /**
   * The number of pages populateWithItemStacks creates for n items at cap
   * items per page: integer division plus one, so an exact multiple of cap
   * gets one extra, empty trailing page.
   */
  function PagesNeeded(n: nat, cap: nat): (r: nat)
    requires cap > 0
    ensures r >= 1
    ensures (r - 1) * cap <= n < r * cap
  {
    DivMod(n, cap);
    MulSucc(n / cap, cap);
    n / cap + 1
  }

  /**
   * The number of items page i receives: it never exceeds cap, every item
   * it counts exists, and it stops short of cap only where the list ends.
   */
  function PageCount(n: nat, cap: nat, i: nat): (r: nat)
    ensures r <= cap
    ensures r > 0 ==> i * cap + r <= n
    ensures r == cap || i * cap + r >= n
  {
    if n <= i * cap then 0
    else if n - i * cap < cap then n - i * cap
    else cap
  }

  /**
   * The placements on page i: item i*cap + j goes to column j % length and
   * row j / length, for j from 0 until the page is full or the list ends.
   */
  function PageLayout(items: seq<ItemStack>, length: nat, height: nat, i: nat): (ps: seq<Placement>)
    requires length > 0 && height > 0
    ensures |ps| <= length * height
  {
    var cap := length * height;
    var count := PageCount(|items|, cap, i);
    seq(count, j requires 0 <= j < count => Placement(items[i * cap + j], j % length, j / length))
  }

  /** The items of a sequence of placements, in order. */
  function ItemsOf(ps: seq<Placement>): seq<ItemStack> {
    seq(|ps|, j requires 0 <= j < |ps| => ps[j].item)
  }

  /** The items of pages 0 .. pages-1, page after page. */
  function ItemsOnPages(items: seq<ItemStack>, length: nat, height: nat, pages: nat): seq<ItemStack>
    requires length > 0 && height > 0
  {
    if pages == 0 then []
    else ItemsOnPages(items, length, height, pages - 1)
         + ItemsOf(PageLayout(items, length, height, pages - 1))
  }

  /**
   * Position j of page i, for j below the page size: it holds a placement
   * exactly while item i*cap + j exists, and that placement is the item in
   * column j % length and row j / length. A page never holds more than cap.
   */
  lemma LayoutStep(items: seq<ItemStack>, length: nat, height: nat, i: nat, j: nat)
    requires length > 0 && height > 0
    ensures var ps := PageLayout(items, length, height, i);
      var index := i * (length * height) + j;
      && |ps| <= length * height
      && (j <= |ps| && index >= |items| ==> j == |ps|)
      && (j < length * height && index < |items| ==>
            j < |ps| && ps[j] == Placement(items[index], j % length, j / length))
  {
  }

  /** A position j below length*height has its row below height. */
  lemma RowBelowHeight(j: nat, length: nat, height: nat)
    requires length > 0 && j < length * height
    ensures j / length < height
  {
    DivMod(j, length);
    if j / length >= height {
      MulMonotone(height, j / length, length);
    }
  }

  /** The cell count of a length x height extent, in either factor order. */
  lemma CellCount(length: nat, height: nat)
    ensures height * length == length * height
    ensures length * height == 0 <==> length == 0 || height == 0
  {
    if length > 0 && height > 0 {
      MulMonotone(1, height, length);
    }
  }

  lemma MulMonotone(a: nat, b: nat, c: nat)
    requires a <= b
    ensures a * c <= b * c
  {
  }

  lemma MulSucc(a: nat, c: nat)
    ensures (a + 1) * c == a * c + c
  {
  }

  lemma DivMod(k: nat, c: nat)
    requires c > 0
    ensures k == (k / c) * c + k % c && 0 <= k % c < c
  {
  }

  /**
   * Every placement on every page lies inside the length x height grid,
   * and its row-major slot y*length + x is its position on the page, so
   * no two items of a page share a cell.
   */
  lemma LayoutInsideGrid(items: seq<ItemStack>, length: nat, height: nat, i: nat)
    requires length > 0 && height > 0
    ensures var ps := PageLayout(items, length, height, i);
      forall j :: 0 <= j < |ps| ==>
        && 0 <= ps[j].x < length && 0 <= ps[j].y < height
        && ps[j].y * length + ps[j].x == j
  {
    var ps := PageLayout(items, length, height, i);
    forall j | 0 <= j < |ps|
      ensures 0 <= ps[j].x < length && 0 <= ps[j].y < height
      ensures ps[j].y * length + ps[j].x == j
    {
      RowBelowHeight(j, length, height);
    }
  }

  /** Page i holds exactly the items i*cap .. i*cap + count of the list. */
  lemma PageItems(items: seq<ItemStack>, length: nat, height: nat, i: nat)
    requires length > 0 && height > 0
    ensures var cap := length * height;
      var count := PageCount(|items|, cap, i);
      count > 0 ==> ItemsOf(PageLayout(items, length, height, i)) == items[i * cap..i * cap + count]
  {
  }

  /**
   * Reading the pages back in order gives every item of the list exactly
   * once, in the original order.
   */
  lemma {:induction false} PagesHoldEveryItemOnce(items: seq<ItemStack>, length: nat, height: nat)
    requires length > 0 && height > 0
    ensures ItemsOnPages(items, length, height, PagesNeeded(|items|, length * height)) == items
  {
    var cap := length * height;
    var n := |items|;
    var p := PagesNeeded(n, cap);
    ItemsOnPagesPrefix(items, length, height, p);
    DivMod(n, cap);
    MulSucc(n / cap, cap);
  }

  /** The first pages hold the first pages*cap items, or all of them. */
  lemma {:induction false} ItemsOnPagesPrefix(items: seq<ItemStack>, length: nat, height: nat, pages: nat)
    requires length > 0 && height > 0
    ensures var cap := length * height;
      ItemsOnPages(items, length, height, pages)
        == if pages * cap <= |items| then items[..pages * cap] else items
  {
    var cap := length * height;
    ReadsPrefix(items, length, height, pages, cap, pages * cap);
  }

  /** ItemsOnPagesPrefix for pages i, with cap and i*cap named. */
  lemma {:induction false} ReadsPrefix(items: seq<ItemStack>, length: nat, height: nat, i: nat, cap: nat, start: nat)
    requires length > 0 && height > 0 && cap == length * height && start == i * cap
    ensures ItemsOnPages(items, length, height, i)
      == if start <= |items| then items[..start] else items
    decreases i
  {
    if i > 0 {
      MulSucc(i - 1, cap);
      ReadsPrefix(items, length, height, i - 1, cap, start - cap);
      PrefixStep(items, length, height, i - 1, cap, start - cap);
    }
  }

  /** One more page extends the prefix by the next cap items, or to the end. */
  lemma PrefixStep(items: seq<ItemStack>, length: nat, height: nat, i: nat, cap: nat, start: nat)
    requires length > 0 && height > 0 && cap == length * height && start == i * cap
    requires ItemsOnPages(items, length, height, i)
      == if start <= |items| then items[..start] else items
    ensures ItemsOnPages(items, length, height, i + 1)
      == if start + cap <= |items| then items[..start + cap] else items
  {
    var n := |items|;
    PageItems(items, length, height, i);
    var page := ItemsOf(PageLayout(items, length, height, i));
    var before := ItemsOnPages(items, length, height, i);
    assert ItemsOnPages(items, length, height, i + 1) == before + page;
    if n <= start {
      assert page == [] && before == items;
    } else if n - start < cap {
      assert page == items[start..n];
      JoinSlices(items, start, n);
      assert before + page == items;
    } else {
      assert page == items[start..start + cap];
      JoinSlices(items, start, start + cap);
      assert before + page == items[..start + cap];
    }
  }

  /** Two adjacent slices of a list joined back together. */
  lemma JoinSlices(items: seq<ItemStack>, a: nat, b: nat)
    requires a <= b <= |items|
    ensures items[..a] + items[a..b] == items[..b]
  {
  }

  /**
   * Item k lands on page k / cap, at position k % cap of that page, in the
   * cell (j % length, j / length) for j = k % cap; that page is one of the
   * pages created.
   */
  lemma ItemLocation(items: seq<ItemStack>, length: nat, height: nat, k: nat)
    requires length > 0 && height > 0 && k < |items|
    ensures var cap := length * height;
      var i, j := k / cap, k % cap;
      && i < PagesNeeded(|items|, cap)
      && j < |PageLayout(items, length, height, i)|
      && PageLayout(items, length, height, i)[j] == Placement(items[k], j % length, j / length)
  {
    var cap := length * height;
    var n := |items|;
    var i, j := k / cap, k % cap;
    DivMod(k, cap);
    assert k == i * cap + j;
    assert i <= n / cap by {
      if i > n / cap {
        MulMonotone(n / cap + 1, i, cap);
        MulSucc(n / cap, cap);
        DivMod(n, cap);
      }
    }
    assert PageCount(n, cap, i) > j;
  }

  /**
   * Every page but the last is full; the last holds the remainder n % cap,
   * so when n is an exact multiple of cap it holds nothing at all.
   */
  lemma PageSizes(items: seq<ItemStack>, length: nat, height: nat)
    requires length > 0 && height > 0
    ensures var cap := length * height;
      var p := PagesNeeded(|items|, cap);
      && (forall i :: 0 <= i < p - 1 ==> |PageLayout(items, length, height, i)| == cap)
      && |PageLayout(items, length, height, p - 1)| == |items| % cap
      && (|items| % cap == 0 <==> PageLayout(items, length, height, p - 1) == [])
  {
    var cap := length * height;
    var n := |items|;
    var p := PagesNeeded(n, cap);
    DivMod(n, cap);
    forall i | 0 <= i < p - 1 ensures |PageLayout(items, length, height, i)| == cap {
      MulMonotone(i + 1, n / cap, cap);
      MulSucc(i, cap);
    }
  }

  /** A 3 x 2 page and six items: two pages, the second one empty. */
  lemma ExactMultipleScenario(items: seq<ItemStack>)
    requires |items| == 6
    ensures PagesNeeded(|items|, 3 * 2) == 2
    ensures |PageLayout(items, 3, 2, 0)| == 6
    ensures PageLayout(items, 3, 2, 1) == []
  {
  }

  /** A 3 x 2 page and seven items: the second page holds item 7 at (0, 0). */
  lemma RemainderScenario(items: seq<ItemStack>)
    requires |items| == 7
    ensures PagesNeeded(|items|, 3 * 2) == 2
    ensures PageLayout(items, 3, 2, 1) == [Placement(items[6], 0, 0)]
  {
  }
}
