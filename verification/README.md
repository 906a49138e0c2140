# PaginatedPane, modelled and verified in Dafny

A paginated pane is a GUI pane that spreads child panes over numbered
pages and shows only the active one. This project models its page
registry, the way it auto-populates pages from a flat list of item stacks,
the way it routes an inventory click to the children of the active page,
and the way it collects every pane it holds. It then proves what these
operations promise.

Modules:

- `Panes` (`panes.dfy`): the child panes as the paginated pane sees them.
  - A pane is a class, because two panes with equal contents are still two panes.
  - Each pane has a position, an extent, a `Priority` (an enumeration ordered by declaration) and the items put on it.
- `Registry` (`registry.dfy`): the page registry as a value (`map<int, seq<Pane>>`) and its properties.
  - `addPane` is a stable insertion by priority.
  - Page counting covers any order of page indices and any gaps between them.
  - A sequence of `addPane` calls is replayed in order.
  - `getPanes` is the union over all pages of each pane and the panes nested in it.
- `Population` (`population.dfy`): the arithmetic of `populateWithItemStacks`.
  - The number of pages is `n / cap + 1`.
  - Each page receives a share of the items, laid out row-major.
  - Reading the pages back gives the list again.
- `ClickRouting` (`click_routing.dfy`): Java's truncating `/` and `%`, the clamped bounds test on a slot, and the child loop `success = success || child.click(...)`, which stops at the first child that reports success.
- `PaginatedPanes` (`paginated_pane.dfy`): the class `PaginatedPane`.
  - Fields `pages` and `page` are updated in place by `AddPane`, `SetPage` and `PopulateWithItemStacks`.
  - `GetPage`, `GetPages` and `GetPanes` are reading functions.
  - `Click` is a method.
  - Each updating method states its new state through the `Registry` functions. The lemmas of `Registry` and `Population` state what that new state means.

Collaborators the code calls but which are not modelled are parameters:

- A child pane's own `click` result is `respond: Call -> bool`, a function of the call it receives.
- A child pane's own `getPanes()` is `nested: Pane -> set<Pane>`.
- Whether a local click handler is registered is the flag `hasLocalClick`. Its invocation shows up as a `LocalClick` entry in the returned trace of calls.

Although `success` at `PaginatedPane.java:189-195` reads as an OR over all
the children of the active page, the `||` at `PaginatedPane.java:192`
short-circuits: once one child returns true, the children after it are
never asked. `AskChildren` and `Click` stop at the first success, and
`Invoked` states exactly which children are asked.

## Model

| member | source | states |
|---|---|---|
| Panes.Pane.constructor | src/main/java/com/github/stefvanschie/inventoryframework/pane/PaginatedPane.java:122 | a new static pane has the given origin, extent and priority and holds no items |
| Panes.Pane.AddItem | src/main/java/com/github/stefvanschie/inventoryframework/pane/PaginatedPane.java:133 | adding an item appends exactly one placement at the given coordinates and keeps every earlier one |
| Registry.InsertByPriority | src/main/java/com/github/stefvanschie/inventoryframework/pane/PaginatedPane.java:91-93 | adding a pane to a page makes it exactly one pane longer; what the resulting page is follows from InsertIsStableSort and the lemmas after it |
| Registry.InsertIsStableSort | src/main/java/com/github/stefvanschie/inventoryframework/pane/PaginatedPane.java:91-93 | on a sorted page, the result is what appending the pane and then stable-sorting by priority gives: sorted, a permutation of the page plus the pane, and with the panes of every priority in their appended order |
| Registry.InsertOfRank | src/main/java/com/github/stefvanschie/inventoryframework/pane/PaginatedPane.java:91-93 | stability: for every priority, the panes of that priority after the insertion are those of the old page followed by the new pane when it has that priority |
| Registry.InsertPermutes | src/main/java/com/github/stefvanschie/inventoryframework/pane/PaginatedPane.java:91-93 | add-then-sort is a permutation of the old page plus the new pane: nothing is lost or duplicated |
| Registry.InsertKeepsOrder | src/main/java/com/github/stefvanschie/inventoryframework/pane/PaginatedPane.java:91-93 | stable sort of a sorted page plus one pane puts the pane directly after every pane of equal or lower priority and before every pane of higher priority, with the others in their old order |
| Registry.InsertAtPoint | src/main/java/com/github/stefvanschie/inventoryframework/pane/PaginatedPane.java:91-93 | on a sorted page the new pane is inserted right after the panes of priority at most its own |
| Registry.AtMostSplits | src/main/java/com/github/stefvanschie/inventoryframework/pane/PaginatedPane.java:93 | on a sorted page the panes of priority at most c's form a prefix and all later ones outrank c |
| Registry.InsertSorted | src/main/java/com/github/stefvanschie/inventoryframework/pane/PaginatedPane.java:93 | a page sorted by priority stays sorted after an addPane |
| Registry.AddToPage | src/main/java/com/github/stefvanschie/inventoryframework/pane/PaginatedPane.java:87-94 | addPane always leaves page p present, leaves every other page's panes unchanged and keeps all pages sorted |
| Registry.AddToPageCount | src/main/java/com/github/stefvanschie/inventoryframework/pane/PaginatedPane.java:87-89 | addPane adds page p to the page indices and raises the page count by one exactly when p was not yet a page |
| Registry.Replay | src/main/java/com/github/stefvanschie/inventoryframework/pane/PaginatedPane.java:87-94 | a sequence of addPane calls applied in order, one AddToPage per call (its meaning is stated by ReplayPages and the lemmas after it) |
| Registry.ReplayPages | src/main/java/com/github/stefvanschie/inventoryframework/pane/PaginatedPane.java:87-94 | after any sequence of addPane calls the page indices are the old ones plus every page index used, and all pages stay sorted |
| Registry.PagesUsedAre | src/main/java/com/github/stefvanschie/inventoryframework/pane/PaginatedPane.java:87-89 | the pages used by a sequence of addPane calls are exactly the page indices of those calls |
| Registry.PageCountIsDistinctIndices | src/main/java/com/github/stefvanschie/inventoryframework/pane/PaginatedPane.java:78-80 | starting empty, getPages equals the number of distinct page indices ever used, whatever their order and gaps |
| Registry.ReplayAppend | src/main/java/com/github/stefvanschie/inventoryframework/pane/PaginatedPane.java:121-136 | one more round of the population loop is one more addPane onto the next page |
| Registry.ReplayNumbered | src/main/java/com/github/stefvanschie/inventoryframework/pane/PaginatedPane.java:121-136 | adding cs[i] to page i for each i changes exactly pages 0 .. \|cs\|-1, each by one stable insertion, and no other page |
| Registry.ReplayNumberedAddsOne | src/main/java/com/github/stefvanschie/inventoryframework/pane/PaginatedPane.java:121-136 | population keeps every pane already on a page and adds exactly one new pane to it, and the page stays sorted |
| Registry.PagePanesHas | src/main/java/com/github/stefvanschie/inventoryframework/pane/PaginatedPane.java:207-210 | a pane is collected from a page exactly when it is one of the page's panes or nested in one of them |
| Registry.PanesOfHeld | src/main/java/com/github/stefvanschie/inventoryframework/pane/PaginatedPane.java:204-213 | everything getPanes collects is a pane of some page, active or not, or nested in one; and every pane of every page and everything nested in it is collected |
| Registry.InsertPagePanes | src/main/java/com/github/stefvanschie/inventoryframework/pane/PaginatedPane.java:207-210 | the panes of a page plus their nested panes grow by exactly the added pane and its nested panes |
| Registry.AddToPagePanes | src/main/java/com/github/stefvanschie/inventoryframework/pane/PaginatedPane.java:204-213 | after addPane, getPanes is the old result plus the added pane and its own nested panes, whichever page it went to |
| Registry.AddToPageKeeps | src/main/java/com/github/stefvanschie/inventoryframework/pane/PaginatedPane.java:204-213 | addPane loses no pane from getPanes |
| Registry.AddToPageAdds | src/main/java/com/github/stefvanschie/inventoryframework/pane/PaginatedPane.java:204-213 | addPane adds to getPanes nothing but the added pane and its nested panes |
| Population.PagesNeeded | src/main/java/com/github/stefvanschie/inventoryframework/pane/PaginatedPane.java:119 | the page count n / cap + 1 is at least 1 and is the number p with (p - 1) * cap <= n < p * cap, so the last page may be empty |
| Population.PageCount | src/main/java/com/github/stefvanschie/inventoryframework/pane/PaginatedPane.java:124-127 | the number of items page i receives never exceeds cap, every item it counts exists, and it is less than cap only where the list ends |
| Population.PageLayout | src/main/java/com/github/stefvanschie/inventoryframework/pane/PaginatedPane.java:124-133 | page i holds at most length * height placements; LayoutStep, LayoutInsideGrid and PageItems state which items and cells |
| Population.LayoutStep | src/main/java/com/github/stefvanschie/inventoryframework/pane/PaginatedPane.java:124-133 | position j of page i holds item i*cap + j at column j % length and row j / length while that item exists, and the inner loop stops exactly at the page's size |
| Population.LayoutInsideGrid | src/main/java/com/github/stefvanschie/inventoryframework/pane/PaginatedPane.java:129-133 | every placement lies in [0,length) x [0,height), and its row-major slot is its position on the page, so no two items share a cell |
| Population.PageItems | src/main/java/com/github/stefvanschie/inventoryframework/pane/PaginatedPane.java:124-133 | page i holds exactly the contiguous run of items starting at i*cap |
| Population.PagesHoldEveryItemOnce | src/main/java/com/github/stefvanschie/inventoryframework/pane/PaginatedPane.java:118-135 | reading the n/cap + 1 pages in order gives back the whole list: every item placed exactly once, in order |
| Population.ItemsOnPagesPrefix | src/main/java/com/github/stefvanschie/inventoryframework/pane/PaginatedPane.java:121-135 | the first p pages hold the first p*cap items, or all of them |
| Population.ReadsPrefix | src/main/java/com/github/stefvanschie/inventoryframework/pane/PaginatedPane.java:121-135 | the same prefix property by induction on the number of pages, with cap and i*cap passed in |
| Population.PrefixStep | src/main/java/com/github/stefvanschie/inventoryframework/pane/PaginatedPane.java:124-133 | one more page extends the items read so far by the next cap items, or to the end of the list |
| Population.ItemLocation | src/main/java/com/github/stefvanschie/inventoryframework/pane/PaginatedPane.java:124-133 | item k goes to page k / cap, at cell (j % length, j / length) for j = k % cap, on one of the pages created |
| Population.PageSizes | src/main/java/com/github/stefvanschie/inventoryframework/pane/PaginatedPane.java:119-134 | every page but the last is full, the last holds n % cap items, and it is empty exactly when n is a multiple of cap |
| Population.ExactMultipleScenario | src/main/java/com/github/stefvanschie/inventoryframework/pane/PaginatedPane.java:119 | six items on a 3 x 2 pane make two pages, the second one empty |
| Population.RemainderScenario | src/main/java/com/github/stefvanschie/inventoryframework/pane/PaginatedPane.java:119-133 | seven items on a 3 x 2 pane put the seventh alone at (0, 0) on the second page |
| ClickRouting.JavaDiv | src/main/java/com/github/stefvanschie/inventoryframework/pane/PaginatedPane.java:181 | Java's truncating slot / 9: the quotient never has the opposite sign of the dividend (JavaDivRem states the rest) |
| ClickRouting.JavaRem | src/main/java/com/github/stefvanschie/inventoryframework/pane/PaginatedPane.java:180 | Java's slot % 9: the remainder takes the dividend's sign and its magnitude is below the divisor |
| ClickRouting.JavaDivRem | src/main/java/com/github/stefvanschie/inventoryframework/pane/PaginatedPane.java:180-181 | Java's truncating quotient and remainder recombine to the slot. A dividend of smaller magnitude than the divisor gives quotient 0 whatever its sign. Both agree with Euclidean division on a non-negative slot. |
| ClickRouting.LocalX | src/main/java/com/github/stefvanschie/inventoryframework/pane/PaginatedPane.java:180 | for a slot of the inventory, the pane-relative column plus the pane's x is a column of a 9-wide row |
| ClickRouting.LocalY | src/main/java/com/github/stefvanschie/inventoryframework/pane/PaginatedPane.java:181 | for a slot of the inventory, the pane-relative row plus the pane's y is the row the slot lies in |
| ClickRouting.InBounds | src/main/java/com/github/stefvanschie/inventoryframework/pane/PaginatedPane.java:175-184 | the bounds test passes only for a pane with at least one cell left after clamping; InBoundsIsCellOfPane states which cells pass |
| ClickRouting.InBoundsIsCellOfPane | src/main/java/com/github/stefvanschie/inventoryframework/pane/PaginatedPane.java:175-184 | a click on the cell in row r and column c passes the bounds test exactly when that cell lies in the pane's rectangle clamped to the parent's maximum extent |
| ClickRouting.FirstHandled | src/main/java/com/github/stefvanschie/inventoryframework/pane/PaginatedPane.java:189-195 | the first child to report success: all before it report failure, and it exists exactly when some child reports success |
| ClickRouting.Invoked | src/main/java/com/github/stefvanschie/inventoryframework/pane/PaginatedPane.java:189-195 | the children asked are a prefix in list order. All but the last report failure. The last reports success exactly when some child would. All are asked when none succeeds. |
| ClickRouting.AskChildren | src/main/java/com/github/stefvanschie/inventoryframework/pane/PaginatedPane.java:189-195 | the loop asks exactly the children Invoked names, in order, and returns true exactly when some child reports success |
| PaginatedPanes.PaginatedPane.constructor | src/main/java/com/github/stefvanschie/inventoryframework/pane/PaginatedPane.java:36-48 | a new paginated pane has the given geometry and priority, no pages, and active page 0 |
| PaginatedPanes.PaginatedPane.GetPage | src/main/java/com/github/stefvanschie/inventoryframework/pane/PaginatedPane.java:69-71 | the active page is an existing page, or still the initial page 0 |
| PaginatedPanes.PaginatedPane.GetPages | src/main/java/com/github/stefvanschie/inventoryframework/pane/PaginatedPane.java:78-80 | the page count is 0 exactly when no page exists |
| PaginatedPanes.PaginatedPane.GetPanes | src/main/java/com/github/stefvanschie/inventoryframework/pane/PaginatedPane.java:204-213 | every pane of every page, active or not, and every pane nested in one, and nothing else |
| PaginatedPanes.PaginatedPane.AddPane | src/main/java/com/github/stefvanschie/inventoryframework/pane/PaginatedPane.java:87-94 | the registry becomes AddToPage of the old one, pages stay sorted, the page count grows by one exactly when the page is new, and the active page is not touched |
| PaginatedPanes.PaginatedPane.SetPage | src/main/java/com/github/stefvanschie/inventoryframework/pane/PaginatedPane.java:101-105 | an index that is not a page fails with PageOutsideRange and changes nothing. Otherwise it becomes the active page. The pages never change, so the active page is always a page or still 0. |
| PaginatedPanes.PaginatedPane.PopulateWithItemStacks | src/main/java/com/github/stefvanschie/inventoryframework/pane/PaginatedPane.java:114-137 | an empty list changes nothing. A zero-cell extent fails with DivisionByZero. Otherwise n/cap + 1 new panes are created; the i-th is laid out as PageLayout(items, i) at this pane's origin and extent with Normal priority; they are added to pages 0, 1, ... in order. |
| PaginatedPanes.PaginatedPane.FillPage | src/main/java/com/github/stefvanschie/inventoryframework/pane/PaginatedPane.java:122-134 | the inner loop builds a fresh pane at this pane's origin and extent whose items are exactly page i's layout |
| PaginatedPanes.PaginatedPane.Click | src/main/java/com/github/stefvanschie/inventoryframework/pane/PaginatedPane.java:173-196 | out of bounds: false, and neither the local handler nor any child is invoked. In bounds: the local handler first (when set), then the children of the active page in order up to the first success. The result is true exactly when some child reports success. |

## Left out

- `load` (XML loading): DOM traversal, the external pane loader and number parsing are foreign collaborators.
- `populateWithNames`: it builds Bukkit item stacks and translates colour codes, which are foreign library calls. The only logic of its own is to do nothing when the material is null or AIR, and it then delegates to `populateWithItemStacks`, which is modelled.
- `display`: it only delegates rendering to the children of the active page, on a Bukkit inventory.
- `getItems`: it only concatenates children's items over `getPanes()`, in an unspecified order.
- The body of the local click handler: the model records only that it was invoked (`LocalClick`).
- A child's own `click` and `getPanes`: uninterpreted, given as `respond` and `nested`.
- `Pane.java` and `StaticPane.java` are not part of this model.
  - The model assumes the four-argument `StaticPane` constructor gives priority `Normal`.
  - It assumes `addItem` appends a placement.
  - It assumes pages are ordered by the declaration order of `Priority`.
- PaginatedPanes.PaginatedPane.Click: requires the active page to exist when the click is in bounds. The code would throw a NullPointerException there, and that is not modelled.
- PaginatedPanes.PaginatedPane.AddPane: the model's `Pane.priority` is a constant, so a page stays sorted between calls, and `AddPane` inserts into the sorted page. `InsertIsStableSort` proves that this equals Java's append-then-stable-sort on a sorted page. In Java a pane's priority can change after it was added. The next `addPane` then re-sorts the whole page, which the model does not do.
- PaginatedPanes.PaginatedPane.Click: the local click handler cannot change the pane. The code runs the handler (`PaginatedPane.java:187`) before it reads the active page's list (`PaginatedPane.java:191`). So a handler that calls `setPage` changes which children Java asks; the model asks the children of the page active before the handler ran.
- PaginatedPanes.PaginatedPane.AddPane: states the `getPanes` change through the lemma `Registry.AddToPagePanes` rather than in its own ensures.
- 32-bit `int` overflow of `i * itemsPerPage + j`, `n / cap + 1` and the page indices is not modelled: integers are unbounded.
- Negative `length` or `height`: the model takes both as natural numbers, so a negative cell count (which Java would accept in the division) cannot arise.
- `FillPage` is the inner loop of `populateWithItemStacks` as a method of its own. `AskChildren` is the child loop of `click` as a method of its own. Each has the same steps and order as the inline loop.
- Identity of the `Insertion` records and of the Java `ArrayList` objects is not modelled: a page is a value (`seq<Pane>`), so aliasing of a page's list outside the pane is not captured.
