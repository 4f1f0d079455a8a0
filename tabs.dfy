/** The data of the tabbed workspace and the transitions that both drafts of
    the tab manager share: tabs, the sections they show, the searches the
    managers run over their tab list, and the effect of close, set-active and
    close-all on the pair (tab list, active id). */
module Tabs {

  datatype Option<+T> = None | Some(value: T)

  /** The fixed set of workspace sections (`PageType`). The draft in main.kt
      names the sales section `SalesLog`, the one in PageType.kt `SALES`. */
  datatype PageType =
    | Dashboard
    | Products
    | Clients
    | Suppliers
    | Employees
    | Sales
    | Inventory
    | Settings

  /** The section's display label (`title` in main.kt, `titleAr` in
      PageType.kt; both drafts use the same Arabic labels). */
  function Label(kind: PageType): string {
    match kind
    case Dashboard => "لوحة التحكم"
    case Products => "المنتجات"
    case Clients => "العملاء"
    case Suppliers => "الموردين"
    case Employees => "الموظفين"
    case Sales => "سجل المبيعات"
    case Inventory => "المخزون"
    case Settings => "الإعدادات"
  }

  /** Tab identifiers. The source draws a random UUID per tab; a manager here
      hands out 0, 1, 2, ... from a counter, which makes freshness provable. */
  type Id = nat

  /** One open workspace entry (`AppTab` / `TabPage`). */
  datatype Tab = Tab(id: Id, kind: PageType, title: string)

  /** A tab as the source creates it: the title defaults to the section label. */
  function NewTab(id: Id, kind: PageType): (t: Tab)
    ensures t.id == id && t.kind == kind
    ensures t.title == Label(kind)
  {
    Tab(id, kind, Label(kind))
  }

  /** What a manager holds: the ordered tab list and the active tab's id. */
  datatype Workspace = Workspace(tabs: seq<Tab>, active: Option<Id>)

  /** Kotlin `tabs.any { it.id == id }`. */
  predicate HasId(tabs: seq<Tab>, id: Id)
    ensures HasId(tabs, id) <==> exists t :: t in tabs && t.id == id
  {
    exists i | 0 <= i < |tabs| :: tabs[i].id == id
  }

  predicate HasKind(tabs: seq<Tab>, kind: PageType) {
    exists i | 0 <= i < |tabs| :: tabs[i].kind == kind
  }

  ghost predicate DistinctIds(tabs: seq<Tab>) {
    forall i, j | 0 <= i < j < |tabs| :: tabs[i].id != tabs[j].id
  }

  /** At most one tab per section: the singleton-per-section invariant. */
  ghost predicate DistinctKinds(tabs: seq<Tab>) {
    forall i, j | 0 <= i < j < |tabs| :: tabs[i].kind != tabs[j].kind
  }

  /** Every id handed out so far is below the manager's counter. */
  ghost predicate IdsBelow(tabs: seq<Tab>, bound: Id) {
    forall i | 0 <= i < |tabs| :: tabs[i].id < bound
  }

  /** The active id is unset or names a tab of the list. */
  ghost predicate ActiveValid(w: Workspace) {
    w.active.Some? ==> HasId(w.tabs, w.active.value)
  }

  /** The invariant that both drafts keep. */
  ghost predicate Consistent(w: Workspace) {
    DistinctIds(w.tabs) && ActiveValid(w)
  }

  /** Kotlin `tabs.indexOfFirst { it.id == id }`: the first position holding
      `id`, or -1 when there is none. */
  function IndexOfId(tabs: seq<Tab>, id: Id): (r: int)
    ensures -1 <= r < |tabs|
    ensures r == -1 <==> !HasId(tabs, id)
    ensures r >= 0 ==> tabs[r].id == id && forall j | 0 <= j < r :: tabs[j].id != id
  {
    if |tabs| == 0 then -1
    else if tabs[0].id == id then 0
    else
      var r := IndexOfId(tabs[1..], id);
      if r == -1 then -1 else r + 1
  }

  /** Kotlin `tabs.find { it.type == kind }`, as the position of the first tab
      of that section, or -1. */
  function IndexOfKind(tabs: seq<Tab>, kind: PageType): (r: int)
    ensures -1 <= r < |tabs|
    ensures r == -1 <==> !HasKind(tabs, kind)
    ensures r >= 0 ==> tabs[r].kind == kind && forall j | 0 <= j < r :: tabs[j].kind != kind
  {
    if |tabs| == 0 then -1
    else if tabs[0].kind == kind then 0
    else
      var r := IndexOfKind(tabs[1..], kind);
      if r == -1 then -1 else r + 1
  }

  /** Kotlin `tabs.find { it.id == active }` with a nullable `active`: the
      `activeTab` getter of both managers. A null id matches no tab. */
  function TabWithId(tabs: seq<Tab>, id: Option<Id>): (r: Option<Tab>)
    ensures r.Some? <==> id.Some? && HasId(tabs, id.value)
    ensures r.Some? ==> Some(r.value.id) == id && r.value in tabs
  {
    if id.None? then None
    else
      var i := IndexOfId(tabs, id.value);
      if i < 0 then None else Some(tabs[i])
  }

  /** Kotlin `x.coerceAtMost(max)`. */
  function CoerceAtMost(x: int, max: int): (r: int)
    ensures r <= max && (r == x || r == max)
    ensures x <= max ==> r == x
  {
    if x <= max then x else max
  }

  /** Kotlin `list.removeAt(i)` on a tab list, as a value. */
  function RemoveAt(tabs: seq<Tab>, i: int): (r: seq<Tab>)
    requires 0 <= i < |tabs|
    ensures |r| == |tabs| - 1
    ensures forall j | 0 <= j < |r| :: r[j] == tabs[if j < i then j else j + 1]
  {
    tabs[..i] + tabs[i + 1..]
  }

  /** Kotlin `list.getOrNull(i)`. */
  function GetOrNull(tabs: seq<Tab>, i: int): (r: Option<Tab>)
    ensures r.Some? <==> 0 <= i < |tabs|
    ensures r.Some? ==> r.value == tabs[i]
  {
    if 0 <= i < |tabs| then Some(tabs[i]) else None
  }

  /** The workspace after `close(id)` / `closeTab(id)`: an unknown id changes
      nothing; otherwise the first tab with that id is removed, an emptied
      list clears the active id, and closing the active tab selects the tab
      that moved into the freed position, clamped to the new last index. */
  function AfterClose(w: Workspace, id: Id): (r: Workspace)
    ensures !HasId(w.tabs, id) ==> r == w
    ensures HasId(w.tabs, id) ==> |r.tabs| == |w.tabs| - 1
    ensures HasId(w.tabs, id) && |r.tabs| == 0 ==> r.active.None?
    ensures HasId(w.tabs, id) && |r.tabs| > 0 && w.active != Some(id) ==> r.active == w.active
    ensures HasId(w.tabs, id) && |r.tabs| > 0 && w.active == Some(id) ==> r.active.Some? && HasId(r.tabs, r.active.value)
  {
    var idx := IndexOfId(w.tabs, id);
    if idx == -1 then w
    else
      var rest := RemoveAt(w.tabs, idx);
      if |rest| == 0 then Workspace(rest, None)
      else if w.active == Some(id) then Workspace(rest, Some(rest[CoerceAtMost(idx, |rest| - 1)].id))
      else Workspace(rest, w.active)
  }

  /** The workspace after `setActive(id)` / `setActiveTab(id)`. */
  function AfterSetActive(w: Workspace, id: Id): (r: Workspace)
    ensures r.tabs == w.tabs
    ensures HasId(w.tabs, id) ==> r.active == Some(id)
    ensures !HasId(w.tabs, id) ==> r == w
  {
    if HasId(w.tabs, id) then Workspace(w.tabs, Some(id)) else w
  }

  /** The workspace after `closeAll()` / `closeAllTabs()`. */
  function AfterCloseAll(w: Workspace): (r: Workspace)
    ensures |r.tabs| == 0 && r.active.None?
    ensures Consistent(r)
  {
    Workspace([], None)
  }
}
