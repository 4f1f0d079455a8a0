/** The multi-instance tab manager (main.kt): every `openTab` call adds a new
    tab, even for a section that is already open. Close, set-active and
    close-all are the shared transitions of module Tabs. */
module MultiTabs {
  import opened Tabs
  import opened TabLemmas

  /** The workspace after `openTab(kind)`; `newId` is the new tab's id. */
  function AfterOpenTab(w: Workspace, kind: PageType, newId: Id): (r: Workspace)
    ensures |r.tabs| == |w.tabs| + 1
    ensures r.tabs[..|w.tabs|] == w.tabs
    ensures r.tabs[|w.tabs|] == Tab(newId, kind, Label(kind))
    ensures r.active == Some(newId)
  {
    var tabs' := w.tabs + [NewTab(newId, kind)];
    assert tabs'[..|w.tabs|] == w.tabs;
    Workspace(tabs', Some(newId))
  }

  /** With ids below `newId`, the new tab's id is fresh, `openTab` keeps the
      invariants, and the active tab is the new tab. */
  lemma OpenTabPreservesInvariants(w: Workspace, kind: PageType, newId: Id)
    requires Consistent(w) && IdsBelow(w.tabs, newId)
    ensures !HasId(w.tabs, newId)
    ensures Consistent(AfterOpenTab(w, kind, newId))
    ensures IdsBelow(AfterOpenTab(w, kind, newId).tabs, newId + 1)
    ensures TabWithId(AfterOpenTab(w, kind, newId).tabs, AfterOpenTab(w, kind, newId).active) == Some(NewTab(newId, kind))
  {
    var tabs' := AfterOpenTab(w, kind, newId).tabs;
    var n := |w.tabs|;
    forall i | 0 <= i < n ensures tabs'[i] == w.tabs[i] {
      assert tabs'[..n][i] == w.tabs[i];
    }
    forall i, j | 0 <= i < j < |tabs'| ensures tabs'[i].id != tabs'[j].id {
      if j < n {
        assert tabs'[j] == w.tabs[j];
      }
    }
    assert IndexOfId(tabs', newId) == n;
  }

  /** Opening a section that is already open gives it a second tab: unlike
      the singleton policy, sections need not be distinct afterwards. */
  lemma OpenTabDuplicatesSection(w: Workspace, kind: PageType, newId: Id)
    requires HasKind(w.tabs, kind)
    ensures !DistinctKinds(AfterOpenTab(w, kind, newId).tabs)
  {
    var i :| 0 <= i < |w.tabs| && w.tabs[i].kind == kind;
    var tabs' := AfterOpenTab(w, kind, newId).tabs;
    assert tabs'[i] == tabs'[..|w.tabs|][i] == w.tabs[i];
    assert tabs'[i].kind == tabs'[|w.tabs|].kind;
  }

  /** A run of `openTab` calls, one per section in `kinds`, with ids handed
      out consecutively from `newId`. */
  function OpenTabs(w: Workspace, kinds: seq<PageType>, newId: Id): Workspace
    decreases |kinds|
  {
    if |kinds| == 0 then w
    else OpenTabs(AfterOpenTab(w, kinds[0], newId), kinds[1..], newId + 1)
  }

  /** Every call in a run of `openTab` adds one tab with a fresh id: the list
      grows by the number of calls, ids stay distinct, and the last tab opened
      is the active one. */
  lemma {:induction false} OpenTabsCount(w: Workspace, kinds: seq<PageType>, newId: Id)
    requires Consistent(w) && IdsBelow(w.tabs, newId)
    ensures |OpenTabs(w, kinds, newId).tabs| == |w.tabs| + |kinds|
    ensures Consistent(OpenTabs(w, kinds, newId))
    ensures IdsBelow(OpenTabs(w, kinds, newId).tabs, newId + |kinds|)
    ensures |kinds| > 0 ==> OpenTabs(w, kinds, newId).active == Some(newId + |kinds| - 1)
    decreases |kinds|
  {
    if |kinds| > 0 {
      var w' := AfterOpenTab(w, kinds[0], newId);
      assert OpenTabs(w, kinds, newId) == OpenTabs(w', kinds[1..], newId + 1);
      OpenTabPreservesInvariants(w, kinds[0], newId);
      OpenTabsCount(w', kinds[1..], newId + 1);
    }
  }

  /** Kotlin class `TabManager` of main.kt (lines 81-116). The tab list and
      the active id are plain fields; `nextId` stands for the UUID source. The
      `data` payload of `openTab` is not modelled. */
  class TabManager {
    var tabs: seq<Tab>
    var activeId: Option<Id>
    var nextId: Id

    ghost predicate Valid()
      reads this
    {
      Consistent(State()) && IdsBelow(tabs, nextId)
    }

    function State(): Workspace
      reads this
    {
      Workspace(tabs, activeId)
    }

    constructor ()
      ensures Valid()
      ensures tabs == [] && activeId == None
    {
      tabs := [];
      activeId := None;
      nextId := 0;
    }

    /** The `activeTab` getter: the tab whose id is the active id, if any. */
    function ActiveTab(): (r: Option<Tab>)
      reads this
      ensures Valid() ==> (r.None? <==> activeId.None?)
      ensures r.Some? ==> Some(r.value.id) == activeId && r.value in tabs
    {
      TabWithId(tabs, activeId)
    }

    method OpenTab(kind: PageType)
      requires Valid()
      modifies this
      ensures Valid()
      ensures State() == AfterOpenTab(old(State()), kind, old(nextId))
      ensures !HasId(old(tabs), tabs[|tabs| - 1].id)
      ensures ActiveTab() == Some(tabs[|tabs| - 1])
      ensures nextId == old(nextId) + 1
    {
      OpenTabPreservesInvariants(State(), kind, nextId);
      var newTab := NewTab(nextId, kind);
      nextId := nextId + 1;
      tabs := tabs + [newTab];
      activeId := Some(newTab.id);
    }

    method CloseTab(tabId: Id)
      requires Valid()
      modifies this
      ensures Valid()
      ensures State() == AfterClose(old(State()), tabId)
      ensures tabs == Without(old(tabs), tabId)
      ensures nextId == old(nextId)
    {
      ghost var before := State();
      var index := IndexOfId(tabs, tabId);
      if index == -1 {
        CloseKeepsOthersInOrder(before, tabId);
        return;
      }
      tabs := RemoveAt(tabs, index);
      if |tabs| == 0 {
        activeId := None;
      } else if activeId == Some(tabId) {
        var nextIndex := CoerceAtMost(index, |tabs| - 1);
        // `getOrNull(nextIndex)?.id`: the index is in range, so never null.
        var next := GetOrNull(tabs, nextIndex);
        activeId := match next case Some(t) => Some(t.id) case None => None;
      }
      assert State() == AfterClose(before, tabId);
      ClosePreservesInvariants(before, tabId, nextId);
      CloseKeepsOthersInOrder(before, tabId);
    }

    method SetActiveTab(tabId: Id)
      requires Valid()
      modifies this
      ensures Valid()
      ensures State() == AfterSetActive(old(State()), tabId)
      ensures tabs == old(tabs) && nextId == old(nextId)
    {
      if HasId(tabs, tabId) {
        activeId := Some(tabId);
      }
    }

    method CloseAllTabs()
      requires Valid()
      modifies this
      ensures Valid()
      ensures State() == AfterCloseAll(old(State()))
      ensures tabs == [] && ActiveTab().None?
      ensures nextId == old(nextId)
    {
      tabs := [];
      activeId := None;
    }
  }

  /** Open Dashboard, then Products; close the first (inactive) tab, which
      leaves Products active; close Products, which empties the workspace. */
  lemma ScenarioOpenTwoCloseBoth()
    ensures var w1 := AfterOpenTab(Workspace([], None), Dashboard, 0);
            var w2 := AfterOpenTab(w1, Products, 1);
            var w3 := AfterClose(w2, 0);
            var w4 := AfterClose(w3, 1);
            && w2.tabs == [NewTab(0, Dashboard), NewTab(1, Products)] && w2.active == Some(1)
            && w3.tabs == [NewTab(1, Products)] && w3.active == Some(1)
            && w4.tabs == [] && w4.active == None
  {
    var d, p := NewTab(0, Dashboard), NewTab(1, Products);
    var w1 := AfterOpenTab(Workspace([], None), Dashboard, 0);
    assert w1.tabs == [d];
    var w2 := AfterOpenTab(w1, Products, 1);
    assert w2.tabs == [d, p];
    assert IndexOfId(w2.tabs, 0) == 0;
    assert RemoveAt(w2.tabs, 0) == [p];
    var w3 := AfterClose(w2, 0);
    assert w3 == Workspace([p], Some(1));
    assert IndexOfId(w3.tabs, 1) == 0;
    assert RemoveAt(w3.tabs, 0) == [];
  }

  /** Open Dashboard, Products and Clients; activate the first tab and close
      it: the tab that moved into its place, Products, becomes active. */
  lemma ScenarioCloseFirstActive()
    ensures var w3 := OpenTabs(Workspace([], None), [Dashboard, Products, Clients], 0);
            var w4 := AfterSetActive(w3, 0);
            var w5 := AfterClose(w4, 0);
            && w3.active == Some(2)
            && w4.active == Some(0)
            && w5.tabs == [NewTab(1, Products), NewTab(2, Clients)] && w5.active == Some(1)
  {
    var w0 := Workspace([], None);
    var w1 := AfterOpenTab(w0, Dashboard, 0);
    var w2 := AfterOpenTab(w1, Products, 1);
    var w3 := AfterOpenTab(w2, Clients, 2);
    assert [Dashboard, Products, Clients][1..] == [Products, Clients];
    assert [Products, Clients][1..] == [Clients];
    assert OpenTabs(w0, [Dashboard, Products, Clients], 0) == w3;
    assert w3.tabs == [NewTab(0, Dashboard), NewTab(1, Products), NewTab(2, Clients)];
    assert HasId(w3.tabs, 0) && IndexOfId(w3.tabs, 0) == 0;
    var w4 := AfterSetActive(w3, 0);
    assert w4.tabs == w3.tabs;
    var w5 := AfterClose(w4, 0);
    assert w5.tabs == [NewTab(1, Products), NewTab(2, Clients)];
  }
}
