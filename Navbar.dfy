/** The navigation bar (src/components/Navbar.tsx): the route table, the
    active item looked up from the current path, each link's href and the
    rule that highlights the active item's icon. */
module Navbar {
  import Types

  datatype NavItem = Dashboard | Camera | Scenes | Incidents | Users

  /** The item's label, which is also its name in the `NavItem` union. */
  function ItemName(item: NavItem): string
  {
    match item
    case Dashboard => "Dashboard"
    case Camera => "Camera"
    case Scenes => "Scenes"
    case Incidents => "Incidents"
    case Users => "Users"
  }

  /** `toLowerCase` on ASCII letters; the labels contain no other letters. */
  function LowerChar(c: char): char
  {
    if 'A' <= c <= 'Z' then (c as int + 32) as char else c
  }

  function LowerCase(s: string): string
  {
    seq(|s|, i requires 0 <= i < |s| => LowerChar(s[i]))
  }

  /** The link target `/${item.toLowerCase()}`. */
  function Href(item: NavItem): string
  {
    "/" + LowerCase(ItemName(item))
  }

  const Highlight: string := "#facc15"
  const Plain: string := "white"

  /** `routeNameMap`: each page's path to its item; the root path to no item. */
  function RouteNameMap(): map<string, Types.Option<NavItem>>
  {
    map[
      "/dashboard" := Types.Some(Dashboard),
      "/camera" := Types.Some(Camera),
      "/scenes" := Types.Some(Scenes),
      "/incidents" := Types.Some(Incidents),
      "/users" := Types.Some(Users),
      "/" := Types.None]
  }

  /** `routeNameMap[pathname] || null`: an unknown path has no active item. */
  function ActiveRoute(pathname: string): (active: Types.Option<NavItem>)
    ensures pathname !in RouteNameMap() ==> active.None?
    ensures active.Some? ==> pathname in RouteNameMap() && RouteNameMap()[pathname] == active
  {
    if pathname in RouteNameMap() then RouteNameMap()[pathname] else Types.None
  }

  /** The colour of an item's icon. */
  function IconColor(item: NavItem, active: Types.Option<NavItem>): string
  {
    if active == Types.Some(item) then Highlight else Plain
  }

  /** Each item's href is a key of the route table that maps back to that item. */
  lemma HrefMapsBack(item: NavItem)
    ensures Href(item) in RouteNameMap() && RouteNameMap()[Href(item)] == Types.Some(item)
    ensures ActiveRoute(Href(item)) == Types.Some(item)
  {
    match item
    case Dashboard => assert Href(item) == "/dashboard";
    case Camera => assert Href(item) == "/camera";
    case Scenes => assert Href(item) == "/scenes";
    case Incidents => assert Href(item) == "/incidents";
    case Users => assert Href(item) == "/users";
  }

  /** The root path and every path outside the table highlight nothing. */
  lemma NoActiveItemOffTable(pathname: string)
    requires pathname == "/" || pathname !in RouteNameMap()
    ensures ActiveRoute(pathname) == Types.None
    ensures forall item: NavItem :: IconColor(item, ActiveRoute(pathname)) == Plain
  {
  }

  /** The active item is exactly the item whose link points at the current path. */
  lemma ActiveIffHref(pathname: string, item: NavItem)
    ensures ActiveRoute(pathname) == Types.Some(item) <==> pathname == Href(item)
  {
    HrefMapsBack(item);
    if ActiveRoute(pathname) == Types.Some(item) {
      HrefMapsBack(Dashboard);
      HrefMapsBack(Camera);
      HrefMapsBack(Scenes);
      HrefMapsBack(Incidents);
      HrefMapsBack(Users);
      assert pathname in RouteNameMap();
    }
  }

  /** An icon is highlighted exactly when its link points at the current path,
      so at most one icon is highlighted. */
  lemma HighlightFollowsPath(pathname: string, a: NavItem, b: NavItem)
    ensures IconColor(a, ActiveRoute(pathname)) == Highlight <==> pathname == Href(a)
    ensures IconColor(a, ActiveRoute(pathname)) == Highlight && IconColor(b, ActiveRoute(pathname)) == Highlight ==> a == b
  {
    ActiveIffHref(pathname, a);
    assert Plain != Highlight;
  }
}
