/**
 * The page registry of a paginated pane as a value: a map from page index
 * to the panes on that page, each page kept in nondecreasing priority order.
 */
module Registry {
  import opened Panes

  type Pages = map<int, seq<Pane>>

  /** A page is sorted when priorities never decrease along it. */
  predicate Sorted(s: seq<Pane>) {
    forall i :: 0 < i < |s| ==> Rank(s[i - 1]) <= Rank(s[i])
  }

  /** Every page of the registry is sorted. */
  predicate AllSorted(m: Pages) {
    forall k :: k in m ==> Sorted(m[k])
  }

  /** The panes on page p; a page that was never created holds none. */
  function PageOf(m: Pages, p: int): seq<Pane> {
    if p in m then m[p] else []
  }

  /** The number of panes in s whose priority is at most that of c. */
  function AtMost(s: seq<Pane>, c: Pane): (n: nat)
    ensures n <= |s|
  {
    if s == [] then 0
    else (if Rank(s[0]) <= Rank(c) then 1 else 0) + AtMost(s[1..], c)
  }

  /**
   * Appending c to a sorted page and sorting it again with a stable sort:
   * c goes after every pane of equal or lower priority.
   */
  function InsertByPriority(s: seq<Pane>, c: Pane): (r: seq<Pane>)
    ensures |r| == |s| + 1
  {
    if s == [] || Rank(c) < Rank(s[0]) then [c] + s
    else [s[0]] + InsertByPriority(s[1..], c)
  }

  /** Inserting only adds c: the result is a permutation of s plus c. */
  lemma {:induction false} InsertPermutes(s: seq<Pane>, c: Pane)
    ensures multiset(InsertByPriority(s, c)) == multiset(s) + multiset{c}
  {
    if s != [] && Rank(s[0]) <= Rank(c) {
      InsertPermutes(s[1..], c);
      assert s == [s[0]] + s[1..];
    }
  }

  /**
   * The stable-sort property of InsertByPriority on a sorted page: the
   * result is the old page with c inserted right after the AtMost(s, c)
   * panes of equal or lower priority, all of which precede c, while every
   * pane of strictly higher priority follows it, in the old order.
   */
  lemma InsertKeepsOrder(s: seq<Pane>, c: Pane)
    requires Sorted(s)
    ensures var k := AtMost(s, c);
      && InsertByPriority(s, c) == s[..k] + [c] + s[k..]
      && (forall i :: 0 <= i < k ==> Rank(s[i]) <= Rank(c))
      && (forall i :: k <= i < |s| ==> Rank(c) < Rank(s[i]))
  {
    InsertAtPoint(s, c);
    AtMostSplits(s, c);
  }

  /** On a sorted page, c is inserted right after the AtMost(s, c) panes. */
  lemma {:induction false} InsertAtPoint(s: seq<Pane>, c: Pane)
    requires Sorted(s)
    ensures InsertByPriority(s, c) == s[..AtMost(s, c)] + [c] + s[AtMost(s, c)..]
  {
    if s == [] {
    } else if Rank(c) < Rank(s[0]) {
      NoneAtMost(s, c);
      assert s[..0] == [] && s[0..] == s;
    } else {
      var t := s[1..];
      var j := AtMost(t, c);
      SortedTail(s);
      InsertAtPoint(t, c);
      assert AtMost(s, c) == j + 1;
      ConsSlices(s, c, j);
    }
  }

  /** Putting the head back in front of the tail split at j splits s at j + 1. */
  lemma ConsSlices(s: seq<Pane>, c: Pane, j: nat)
    requires 0 <= j < |s|
    ensures [s[0]] + (s[1..][..j] + [c] + s[1..][j..]) == s[..j + 1] + [c] + s[j + 1..]
  {
    assert [s[0]] + s[1..][..j] == s[..j + 1];
    assert s[1..][j..] == s[j + 1..];
  }

  /** On a sorted page the panes of priority at most c's form a prefix. */
  lemma {:induction false} AtMostSplits(s: seq<Pane>, c: Pane)
    requires Sorted(s)
    ensures forall i :: 0 <= i < AtMost(s, c) ==> Rank(s[i]) <= Rank(c)
    ensures forall i :: AtMost(s, c) <= i < |s| ==> Rank(c) < Rank(s[i])
  {
    if s != [] {
      if Rank(c) < Rank(s[0]) {
        NoneAtMost(s, c);
      } else {
        var t := s[1..];
        SortedTail(s);
        AtMostSplits(t, c);
        assert forall i :: 0 < i < |s| ==> s[i] == t[i - 1];
      }
    }
  }

  /** The tail of a sorted page is sorted. */
  lemma SortedTail(s: seq<Pane>)
    requires Sorted(s) && s != []
    ensures Sorted(s[1..])
  {
    assert forall i :: 0 <= i < |s| - 1 ==> s[1..][i] == s[i + 1];
  }

  /** Inserting into a sorted page gives a sorted page. */
  lemma InsertSorted(s: seq<Pane>, c: Pane)
    ensures Sorted(s) ==> Sorted(InsertByPriority(s, c))
  {
    if Sorted(s) {
      InsertKeepsOrder(s, c);
      var k := AtMost(s, c);
      var r := InsertByPriority(s, c);
      forall i | 0 < i < |r| ensures Rank(r[i - 1]) <= Rank(r[i]) {
        if i < k {
          assert r[i - 1] == s[i - 1] && r[i] == s[i];
        } else if i == k {
          assert r[i - 1] == s[k - 1] && r[i] == c;
        } else if i == k + 1 {
          assert r[i - 1] == c && r[i] == s[k];
        } else {
          assert r[i - 1] == s[i - 2] && r[i] == s[i - 1];
        }
      }
    }
  }

  /** The panes of s whose priority has rank k, in their order in s. */
  function OfRank(s: seq<Pane>, k: nat): seq<Pane> {
    if s == [] then []
    else (if Rank(s[0]) == k then [s[0]] else []) + OfRank(s[1..], k)
  }

  /**
   * r is what a stable sort by priority makes of t: it is sorted, holds the
   * same panes, and keeps the panes of each priority in their order in t.
   */
  ghost predicate IsStableSortOf(r: seq<Pane>, t: seq<Pane>) {
    && Sorted(r)
    && multiset(r) == multiset(t)
    && forall k: nat :: OfRank(r, k) == OfRank(t, k)
  }

  /**
   * addPane appends the pane and sorts the whole page with a stable sort;
   * on a sorted page that is exactly InsertByPriority.
   */
  lemma InsertIsStableSort(s: seq<Pane>, c: Pane)
    requires Sorted(s)
    ensures IsStableSortOf(InsertByPriority(s, c), s + [c])
  {
    InsertSorted(s, c);
    InsertPermutes(s, c);
    forall k: nat ensures OfRank(InsertByPriority(s, c), k) == OfRank(s + [c], k) {
      InsertOfRank(s, c, k);
    }
  }

  /** Selecting the panes of one rank distributes over concatenation. */
  lemma {:induction false} OfRankAppend(a: seq<Pane>, b: seq<Pane>, k: nat)
    ensures OfRank(a + b, k) == OfRank(a, k) + OfRank(b, k)
  {
    if a == [] {
      assert a + b == b;
    } else {
      var head := if Rank(a[0]) == k then [a[0]] else [];
      var ab := a + b;
      assert ab[0] == a[0] && ab[1..] == a[1..] + b;
      assert OfRank(ab, k) == head + OfRank(a[1..] + b, k);
      OfRankAppend(a[1..], b, k);
      assert OfRank(a, k) == head + OfRank(a[1..], k);
    }
  }

  /** A sorted page whose first pane outranks k holds no pane of rank k. */
  lemma {:induction false} AboveRank(s: seq<Pane>, k: nat)
    requires Sorted(s) && s != [] && k < Rank(s[0])
    ensures OfRank(s, k) == []
  {
    if |s| > 1 {
      SortedTail(s);
      assert s[1..][0] == s[1];
      AboveRank(s[1..], k);
    }
  }

  /** Inserting c keeps the panes of every rank in their appended order. */
  lemma {:induction false} InsertOfRank(s: seq<Pane>, c: Pane, k: nat)
    requires Sorted(s)
    ensures OfRank(InsertByPriority(s, c), k) == OfRank(s + [c], k)
  {
    OfRankAppend(s, [c], k);
    if s == [] {
      assert s + [c] == [c];
    } else if Rank(c) < Rank(s[0]) {
      OfRankAppend([c], s, k);
      if Rank(c) == k {
        AboveRank(s, k);
      }
    } else {
      var t := s[1..];
      SortedTail(s);
      InsertOfRank(t, c, k);
      OfRankAppend([s[0]], InsertByPriority(t, c), k);
      OfRankAppend([s[0]], t, k);
      OfRankAppend(t, [c], k);
      assert s == [s[0]] + t;
    }
  }

  /** On a sorted page whose first pane outranks c, no pane is at most c. */
  lemma {:induction false} NoneAtMost(s: seq<Pane>, c: Pane)
    requires Sorted(s) && s != [] && Rank(c) < Rank(s[0])
    ensures AtMost(s, c) == 0
    ensures forall i :: 0 <= i < |s| ==> Rank(c) < Rank(s[i])
  {
    if |s| > 1 {
      var t := s[1..];
      SortedTail(s);
      assert t[0] == s[1];
      NoneAtMost(t, c);
      assert forall i :: 0 < i < |s| ==> s[i] == t[i - 1];
    }
  }

  /**
   * addPane(p, c): page p is created empty if it does not exist yet, c is
   * added to it and the page is re-sorted by priority. The number of pages
   * grows by one exactly when p was not a page before, every other page
   * is left as it was, and a registry of sorted pages stays sorted.
   */
  function AddToPage(m: Pages, p: int, c: Pane): (r: Pages)
    ensures p in r
    ensures forall k :: k != p ==> PageOf(r, k) == PageOf(m, k)
    ensures AllSorted(m) ==> AllSorted(r)
  {
    InsertSorted(PageOf(m, p), c);
    m[p := InsertByPriority(PageOf(m, p), c)]
  }

  /** addPane creates page p when it is missing and no other page. */
  lemma AddToPageCount(m: Pages, p: int, c: Pane)
    ensures AddToPage(m, p, c).Keys == m.Keys + {p}
    ensures |AddToPage(m, p, c)| == |m| + (if p in m then 0 else 1)
  {
  }

  /** One call addPane(page, pane). */
  datatype Insertion = Insertion(page: int, pane: Pane)

  /** The page indices the given addPane calls use. */
  function PagesUsed(ops: seq<Insertion>): set<int> {
    if ops == [] then {}
    else PagesUsed(ops[..|ops| - 1]) + {ops[|ops| - 1].page}
  }

  /** The pages used are exactly the page indices of the calls. */
  lemma {:induction false} PagesUsedAre(ops: seq<Insertion>)
    ensures forall i :: 0 <= i < |ops| ==> ops[i].page in PagesUsed(ops)
    ensures forall q :: q in PagesUsed(ops) ==> exists i :: 0 <= i < |ops| && ops[i].page == q
  {
    if ops != [] {
      var init := ops[..|ops| - 1];
      PagesUsedAre(init);
      assert forall i :: 0 <= i < |init| ==> init[i] == ops[i];
    }
  }

  /** The registry after the given addPane calls, in order. */
  function Replay(m: Pages, ops: seq<Insertion>): Pages
    decreases |ops|
  {
    if ops == [] then m
    else
      var last := ops[|ops| - 1];
      AddToPage(Replay(m, ops[..|ops| - 1]), last.page, last.pane)
  }

  /**
   * After any sequence of addPane calls the pages are the old ones plus
   * every page index used, and a registry of sorted pages stays sorted.
   */
  lemma {:induction false} ReplayPages(m: Pages, ops: seq<Insertion>)
    ensures Replay(m, ops).Keys == m.Keys + PagesUsed(ops)
    ensures AllSorted(m) ==> AllSorted(Replay(m, ops))
    decreases |ops|
  {
    if ops != [] {
      var last := ops[|ops| - 1];
      ReplayPages(m, ops[..|ops| - 1]);
      AddToPageCount(Replay(m, ops[..|ops| - 1]), last.page, last.pane);
    }
  }

  /**
   * Starting from no pages, the page count is the number of distinct page
   * indices used, whatever their order and whatever gaps lie between them.
   */
  lemma PageCountIsDistinctIndices(ops: seq<Insertion>)
    ensures |Replay(map[], ops)| == |PagesUsed(ops)|
  {
    ReplayPages(map[], ops);
    assert Replay(map[], ops).Keys == PagesUsed(ops);
  }

  /** The calls addPane(0, cs[0]), addPane(1, cs[1]), ... in that order. */
  function Numbered(cs: seq<Pane>): seq<Insertion> {
    seq(|cs|, i requires 0 <= i < |cs| => Insertion(i, cs[i]))
  }

  /** Numbering one more pane replays one more addPane, onto the next page. */
  lemma ReplayAppend(m: Pages, cs: seq<Pane>, c: Pane)
    ensures Replay(m, Numbered(cs + [c])) == AddToPage(Replay(m, Numbered(cs)), |cs|, c)
  {
    var ops := Numbered(cs + [c]);
    assert ops[..|ops| - 1] == Numbered(cs);
    assert ops[|ops| - 1] == Insertion(|cs|, c);
  }

  /**
   * Adding cs[i] to page i for each i adds exactly one pane to each page
   * 0 .. |cs|-1, keeping the panes that were already there, and leaves
   * every other page alone.
   */
  lemma {:induction false} ReplayNumbered(m: Pages, cs: seq<Pane>, k: int)
    ensures PageOf(Replay(m, Numbered(cs)), k)
         == if 0 <= k < |cs| then InsertByPriority(PageOf(m, k), cs[k]) else PageOf(m, k)
  {
    if cs != [] {
      var n := |cs| - 1;
      var init := cs[..n];
      var ops := Numbered(cs);
      assert ops[..n] == Numbered(init);
      ReplayNumbered(m, init, k);
      var before := Replay(m, Numbered(init));
      var r := Replay(m, ops);
      assert r == AddToPage(before, n, cs[n]);
      if k == n {
        assert PageOf(r, n) == InsertByPriority(PageOf(before, n), cs[n]);
      } else if 0 <= k < n {
        assert init[k] == cs[k];
      }
    }
  }

  /**
   * Adding cs[k] to page k for each k keeps every pane page k held before
   * and adds cs[k] once; the page stays sorted if it was.
   */
  lemma ReplayNumberedAddsOne(m: Pages, cs: seq<Pane>, k: int)
    requires 0 <= k < |cs|
    ensures multiset(PageOf(Replay(m, Numbered(cs)), k)) == multiset(PageOf(m, k)) + multiset{cs[k]}
    ensures Sorted(PageOf(m, k)) ==> Sorted(PageOf(Replay(m, Numbered(cs)), k))
  {
    ReplayNumbered(m, cs, k);
    InsertPermutes(PageOf(m, k), cs[k]);
    InsertSorted(PageOf(m, k), cs[k]);
  }

  /** The panes of one page together with the panes nested in them. */
  function PagePanes(s: seq<Pane>, nested: Pane -> set<Pane>): set<Pane> {
    if s == [] then {}
    else {s[0]} + nested(s[0]) + PagePanes(s[1..], nested)
  }

  /**
   * getPanes: every pane on every page, whichever page is active, together
   * with the panes nested inside each of them (nested(c) is what c's own
   * getPanes returns). Duplicates collapse, order does not matter.
   */
  function PanesOf(m: Pages, nested: Pane -> set<Pane>): set<Pane> {
    set k, q | k in m && q in PagePanes(m[k], nested) :: q
  }

  /** q is a pane on some page of m, active or not, or nested in one. */
  ghost predicate Held(m: Pages, nested: Pane -> set<Pane>, q: Pane) {
    exists k, i :: k in m && 0 <= i < |m[k]| && (q == m[k][i] || q in nested(m[k][i]))
  }

  /** The panes of a page and their nested panes, position by position. */
  lemma {:induction false} PagePanesHas(s: seq<Pane>, nested: Pane -> set<Pane>, q: Pane)
    ensures q in PagePanes(s, nested) <==>
      exists i :: 0 <= i < |s| && (q == s[i] || q in nested(s[i]))
  {
    if s != [] {
      PagePanesHas(s[1..], nested, q);
      if q in PagePanes(s[1..], nested) {
        var i :| 0 <= i < |s[1..]| && (q == s[1..][i] || q in nested(s[1..][i]));
        assert s[i + 1] == s[1..][i];
      }
      if exists i :: 0 <= i < |s| && (q == s[i] || q in nested(s[i])) {
        var i :| 0 <= i < |s| && (q == s[i] || q in nested(s[i]));
        if i > 0 {
          assert s[1..][i - 1] == s[i];
        }
      }
    }
  }

  /**
   * getPanes reports only panes on some page, whichever page is active, or
   * panes nested in one of those; and it reports every one of them.
   */
  lemma PanesOfHeld(m: Pages, nested: Pane -> set<Pane>)
    ensures forall q :: q in PanesOf(m, nested) ==> Held(m, nested, q)
    ensures forall k, i :: k in m && 0 <= i < |m[k]| ==>
      m[k][i] in PanesOf(m, nested) && nested(m[k][i]) <= PanesOf(m, nested)
  {
    var r := PanesOf(m, nested);
    forall q | q in r ensures Held(m, nested, q) {
      var k :| k in m && q in PagePanes(m[k], nested);
      PagePanesHas(m[k], nested, q);
    }
    forall k, i | k in m && 0 <= i < |m[k]|
      ensures m[k][i] in r && nested(m[k][i]) <= r
    {
      PagePanesHas(m[k], nested, m[k][i]);
      forall q | q in nested(m[k][i]) ensures q in r {
        PagePanesHas(m[k], nested, q);
      }
    }
  }

  /** Inserting c into a page adds c and c's nested panes to the page's panes. */
  lemma {:induction false} InsertPagePanes(s: seq<Pane>, c: Pane, nested: Pane -> set<Pane>)
    ensures PagePanes(InsertByPriority(s, c), nested) == PagePanes(s, nested) + {c} + nested(c)
  {
    if s != [] && Rank(s[0]) <= Rank(c) {
      InsertPagePanes(s[1..], c, nested);
    }
  }

  /**
   * Adding a pane to any page adds exactly that pane and its own nested
   * panes to the result of getPanes.
   */
  lemma AddToPagePanes(m: Pages, p: int, c: Pane, nested: Pane -> set<Pane>)
    ensures PanesOf(AddToPage(m, p, c), nested) == PanesOf(m, nested) + {c} + nested(c)
  {
    InsertPagePanes(PageOf(m, p), c, nested);
    AddToPageKeeps(m, p, c, nested);
    AddToPageAdds(m, p, c, nested);
  }

  /** Every pane getPanes reported before adding c it still reports. */
  lemma AddToPageKeeps(m: Pages, p: int, c: Pane, nested: Pane -> set<Pane>)
    requires PagePanes(InsertByPriority(PageOf(m, p), c), nested)
      == PagePanes(PageOf(m, p), nested) + {c} + nested(c)
    ensures PanesOf(m, nested) + {c} + nested(c) <= PanesOf(AddToPage(m, p, c), nested)
  {
    forall q | q in PanesOf(m, nested) + {c} + nested(c)
      ensures q in PanesOf(AddToPage(m, p, c), nested)
    {
      KeepsOne(m, p, c, nested, q);
    }
  }

  lemma KeepsOne(m: Pages, p: int, c: Pane, nested: Pane -> set<Pane>, q: Pane)
    requires PagePanes(InsertByPriority(PageOf(m, p), c), nested)
      == PagePanes(PageOf(m, p), nested) + {c} + nested(c)
    requires q in PanesOf(m, nested) + {c} + nested(c)
    ensures q in PanesOf(AddToPage(m, p, c), nested)
  {
    var r := AddToPage(m, p, c);
    if q in PagePanes(r[p], nested) {
      assert p in r;
    } else {
      var k :| k in m && q in PagePanes(m[k], nested);
      assert k != p;
      assert k in r && r[k] == m[k];
    }
  }

  /** Every pane getPanes reports after adding c it reported before, or is c or nested in c. */
  lemma AddToPageAdds(m: Pages, p: int, c: Pane, nested: Pane -> set<Pane>)
    requires PagePanes(InsertByPriority(PageOf(m, p), c), nested)
      == PagePanes(PageOf(m, p), nested) + {c} + nested(c)
    ensures PanesOf(AddToPage(m, p, c), nested) <= PanesOf(m, nested) + {c} + nested(c)
  {
    var r := AddToPage(m, p, c);
    var before := PagePanes(PageOf(m, p), nested);
    assert p !in m ==> before == {};
    forall q | q in PanesOf(r, nested)
      ensures q in PanesOf(m, nested) + {c} + nested(c)
    {
      var k :| k in r && q in PagePanes(r[k], nested);
      if k != p {
        assert r[k] == m[k];
      } else if q in before {
        assert m[p] == PageOf(m, p);
      }
    }
  }
}
