/**
 * The child panes a paginated pane holds, seen only through what the
 * paginated pane uses of them: position, extent, priority, and (for the
 * static panes that auto-population builds) the items placed on them.
 * Everything else a child does (rendering, its own click handling, its own
 * nested panes) is left uninterpreted by the modules that use this one.
 */
module Panes {

  /** The priority constants of a pane, in declaration order. Panes are
      ordered by the ordinal of their priority. */
  datatype Priority = Lowest | Low | Normal | High | Highest | Monitor {
    function Ordinal(): nat {
      match this
      case Lowest => 0
      case Low => 1
      case Normal => 2
      case High => 3
      case Highest => 4
      case Monitor => 5
    }
  }

  /** An item stack of the host game; its contents are of no concern here. */
  type ItemStack(==)

  /** An item put on a static pane at local grid coordinates (x, y). */
  datatype Placement = Placement(item: ItemStack, x: int, y: int)

  /** A child pane. Identity matters (two panes with the same contents are
      still two panes), so panes are objects. */
  class Pane {
    const x: int
    const y: int
    const length: int
    const height: int
    const priority: Priority
    /** The items added to this pane, in the order they were added. */
    var items: seq<Placement>

    constructor (x: int, y: int, length: int, height: int, priority: Priority)
      ensures this.x == x && this.y == y
      ensures this.length == length && this.height == height
      ensures this.priority == priority
      ensures items == []
    {
      this.x := x;
      this.y := y;
      this.length := length;
      this.height := height;
      this.priority := priority;
      items := [];
    }

    /** Puts an item on this pane at (x, y). */
    method AddItem(item: ItemStack, x: int, y: int)
      modifies this
      ensures items == old(items) + [Placement(item, x, y)]
    {
      items := items + [Placement(item, x, y)];
    }
  }

  /** The rank by which a page's panes are ordered. */
  function Rank(p: Pane): nat {
    p.priority.Ordinal()
  }
}
