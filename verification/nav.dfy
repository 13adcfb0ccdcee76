/** The bottom navigation bar (`futuristic-nav.jsx`). */
module FuturisticNav {
  import Seqs

  datatype NavItem = NavItem(id: int, caption: string, path: string)

  /** `navItems` (futuristic-nav.jsx:6-12), less the icons. */
  const NavItems: seq<NavItem> := [
    NavItem(0, "Home", "/"),
    NavItem(1, "Discover", "/discover"),
    NavItem(2, "Dashboard", "/dashboard"),
    NavItem(3, "Profile", "/profile"),
    NavItem(4, "Settings", "/settings")
  ]

  /** No two items share a path, so a path names at most one item. */
  lemma PathsDistinct()
    ensures forall i, j | 0 <= i < j < |NavItems| :: NavItems[i].path != NavItems[j].path
  {
  }

  /** `getActiveIndex`: the index of the item whose path is the current pathname, or 0
      (Home) for any other pathname. */
  function ActiveIndex(pathname: string): (r: nat)
    ensures r < |NavItems|
    ensures (exists i | 0 <= i < |NavItems| :: NavItems[i].path == pathname) ==>
      NavItems[r].path == pathname
    ensures (forall i | 0 <= i < |NavItems| :: NavItems[i].path != pathname) ==> r == 0
  {
    var k := Seqs.FindIndex(NavItems, (item: NavItem) => item.path == pathname);
    if k >= 0 then k else 0
  }

  /** Where a click leaves the bar. */
  datatype Click = Click(active: nat, navigateTo: string)

  /** `handleClick(index, item.path)` as the buttons call it: the clicked item becomes
      active and the router goes to its path. The location effect then recomputes the
      active index from the new path and lands on the same item. */
  function HandleClick(index: nat): (r: Click)
    requires index < |NavItems|
    ensures r.active == index && r.navigateTo == NavItems[index].path
    ensures ActiveIndex(r.navigateTo) == r.active
  {
    PathsDistinct();
    Click(index, NavItems[index].path)
  }

  /** The width of one item's slot, as a percentage of the bar: `100 / navItems.length`. */
  const Slot: real := 100.0 / |NavItems| as real

  /** The horizontal centre of the active indicator, as a percentage of the bar:
      `active * (100 / n) + 100 / n / 2`. It lies strictly inside the active item's slot,
      hence strictly inside the bar. */
  function IndicatorCenter(active: nat): (r: real)
    requires active < |NavItems|
    ensures active as real * Slot < r < (active + 1) as real * Slot
    ensures 0.0 < r < 100.0
  {
    active as real * Slot + Slot / 2.0
  }
}
