/**
 * Routing of an inventory click through a paginated pane: turning the
 * clicked slot into grid coordinates, checking them against the pane's
 * clamped extent, and asking the children of the active page in order.
 */
module ClickRouting {
  import opened Panes

  /** The width of an inventory row; slots are numbered row after row. */
  const RowWidth: int := 9

  /**
   * Java's int division, which truncates toward zero: the quotient never
   * has the opposite sign of the dividend.
   */
  function JavaDiv(a: int, b: int): (q: int)
    requires b > 0
    ensures a >= 0 ==> q >= 0
    ensures a < 0 ==> q <= 0
  {
    if a >= 0 then a / b else -((-a) / b)
  }

  /** Java's int remainder, which takes the sign of the dividend. */
  function JavaRem(a: int, b: int): (r: int)
    requires b > 0
    ensures a >= 0 ==> 0 <= r < b
    ensures a < 0 ==> -b < r <= 0
  {
    if a >= 0 then a % b else -((-a) % b)
  }

  /**
   * Java's quotient and remainder recombine to the dividend; a dividend of
   * smaller magnitude than the divisor gives quotient 0 whatever its sign;
   * and for a non-negative dividend they agree with Euclidean division.
   */
  lemma JavaDivRem(a: int, b: int)
    requires b > 0
    ensures a == b * JavaDiv(a, b) + JavaRem(a, b)
    ensures -b < a < b ==> JavaDiv(a, b) == 0
    ensures a >= 0 ==> JavaDiv(a, b) == a / b && JavaRem(a, b) == a % b
  {
    if a < 0 {
      var q := (-a) / b;
      assert -a == b * q + (-a) % b;
      assert JavaRem(a, b) == -((-a) % b);
      if -a < b {
        assert q == 0;
      }
    }
  }

  function Min(a: int, b: int): int {
    if a <= b then a else b
  }

  /**
   * The column of the clicked slot relative to the pane's origin x: for a
   * slot of the inventory, x plus it is a column of a row.
   */
  function LocalX(slot: int, x: int): (lx: int)
    ensures slot >= 0 ==> 0 <= lx + x < RowWidth
  {
    JavaRem(slot, RowWidth) - x
  }

  /**
   * The row of the clicked slot relative to the pane's origin y: for a slot
   * of the inventory, y plus it is the row the slot lies in.
   */
  function LocalY(slot: int, y: int): (ly: int)
    ensures slot >= 0 ==> RowWidth * (ly + y) <= slot < RowWidth * (ly + y) + RowWidth
  {
    JavaDiv(slot, RowWidth) - y
  }

  /**
   * Whether a click on slot lands on a pane at (x, y) whose extent is
   * length x height, clamped to the maxLength x maxHeight its parent allows.
   * Only a pane with a cell left after clamping can be clicked.
   */
  function InBounds(slot: int, x: int, y: int, length: int, height: int, maxLength: int, maxHeight: int): (b: bool)
    ensures b ==> Min(length, maxLength) > 0 && Min(height, maxHeight) > 0
  {
    var lx, ly := LocalX(slot, x), LocalY(slot, y);
    0 <= lx < Min(length, maxLength) && 0 <= ly < Min(height, maxHeight)
  }

  /**
   * A click on the inventory cell in column col and row row (a non-negative
   * slot) is in bounds exactly when that cell lies inside the rectangle
   * the pane covers, clamped to its parent's maximum extent.
   */
  lemma InBoundsIsCellOfPane(slot: int, row: int, col: int, x: int, y: int,
                             length: int, height: int, maxLength: int, maxHeight: int)
    requires slot >= 0 && 0 <= col < RowWidth && slot == RowWidth * row + col
    ensures InBounds(slot, x, y, length, height, maxLength, maxHeight) <==>
      x <= col < x + Min(length, maxLength) && y <= row < y + Min(height, maxHeight)
  {
    JavaDivRem(slot, RowWidth);
  }

  /** What a click handled by this pane sets off: its own handler, or a child's click. */
  datatype Call =
    | LocalClick
    | ChildClick(pane: Pane, paneOffsetX: int, paneOffsetY: int, maxLength: int, maxHeight: int)

  /** The clicks a page's children receive, in the page's order. */
  function ChildCalls(children: seq<Pane>, offsetX: int, offsetY: int, length: int, height: int): seq<Call> {
    seq(|children|, i requires 0 <= i < |children| => ChildClick(children[i], offsetX, offsetY, length, height))
  }

  /** Whether some call's click reports the event handled. */
  predicate SomeHandles(calls: seq<Call>, respond: Call -> bool) {
    exists i :: 0 <= i < |calls| && respond(calls[i])
  }

  /**
   * The index of the first call whose click reports the event handled
   * (respond gives each child's answer), or |calls| when none does.
   */
  function FirstHandled(calls: seq<Call>, respond: Call -> bool): (k: nat)
    ensures k <= |calls|
    ensures forall i :: 0 <= i < k ==> !respond(calls[i])
    ensures k < |calls| ==> respond(calls[k])
    ensures k < |calls| <==> SomeHandles(calls, respond)
  {
    if calls == [] then 0
    else if respond(calls[0]) then 0
    else 1 + FirstHandled(calls[1..], respond)
  }

  /**
   * The calls actually made by `success = success || child.click(...)`:
   * a prefix of the children's calls in list order, up to and including the
   * first that reports success. All but the last of them report failure,
   * and the last reports success exactly when some child would; a child
   * after one that reports success is never asked.
   */
  function Invoked(calls: seq<Call>, respond: Call -> bool): (inv: seq<Call>)
    ensures |inv| <= |calls| && inv == calls[..|inv|]
    ensures forall i :: 0 <= i < |inv| - 1 ==> !respond(inv[i])
    ensures SomeHandles(calls, respond) <==> inv != [] && respond(inv[|inv| - 1])
    ensures SomeHandles(calls, respond) || inv == calls
  {
    var k := FirstHandled(calls, respond);
    if k < |calls| then calls[..k + 1] else calls
  }

  /**
   * The loop `success = success || child.click(...)` over a page's
   * children: offers the click to each child in order until one reports it
   * handled, and reports whether any did. `asked` lists the clicks made.
   */
  method AskChildren(children: seq<Pane>, offsetX: int, offsetY: int, length: int, height: int,
                     respond: Call -> bool)
    returns (success: bool, asked: seq<Call>)
    ensures var calls := ChildCalls(children, offsetX, offsetY, length, height);
      && asked == Invoked(calls, respond)
      && success == SomeHandles(calls, respond)
  {
    ghost var calls := ChildCalls(children, offsetX, offsetY, length, height);
    ghost var first := FirstHandled(calls, respond);
    success := false;
    asked := [];
    for i := 0 to |children|
      invariant success <==> first < i
      invariant asked == calls[..if first < i then first + 1 else i]
    {
      var call := ChildClick(children[i], offsetX, offsetY, length, height);
      // a child is asked only while no earlier one reported success
      if !success {
        assert call == calls[i] && calls[..i + 1] == calls[..i] + [call];
        asked := asked + [call];
        success := respond(call);
      }
    }
    assert calls[..|calls|] == calls;
  }
}
