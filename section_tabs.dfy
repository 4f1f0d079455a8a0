/** The singleton-per-section tab manager (Components/TabManager.kt): opening
    a section that already has a tab re-activates that tab instead of adding
    a second one. Close, set-active and close-all are the shared transitions
    of module Tabs. */
module SectionTabs {
  import opened Tabs
  import opened TabLemmas

  /** The workspace after `open(kind)`; `newId` is the id a new tab would get. */
  function AfterOpen(w: Workspace, kind: PageType, newId: Id): (r: Workspace)
    ensures HasKind(w.tabs, kind) <==> r.tabs == w.tabs
    ensures !HasKind(w.tabs, kind) ==> r.tabs == w.tabs + [NewTab(newId, kind)] && r.active == Some(newId)
    ensures r.active.Some? && HasId(r.tabs, r.active.value)
    ensures HasKind(r.tabs, kind)
  {
    var existing := IndexOfKind(w.tabs, kind);
    if existing != -1 then Workspace(w.tabs, Some(w.tabs[existing].id))
    else
      var tabs' := w.tabs + [NewTab(newId, kind)];
      assert tabs'[|w.tabs|] == NewTab(newId, kind);
      Workspace(tabs', Some(newId))
  }

  /** Opening a section that is already open keeps the list and makes that
      section's tab the active one; with one tab per section it is the only
      tab of that section. */
  lemma OpenReactivatesExisting(w: Workspace, kind: PageType, newId: Id)
    requires DistinctIds(w.tabs)
    requires HasKind(w.tabs, kind)
    ensures AfterOpen(w, kind, newId).tabs == w.tabs
    ensures TabWithId(w.tabs, AfterOpen(w, kind, newId).active).Some?
    ensures TabWithId(w.tabs, AfterOpen(w, kind, newId).active).value.kind == kind
    ensures DistinctKinds(w.tabs) ==>
      forall i | 0 <= i < |w.tabs| && w.tabs[i].kind == kind :: AfterOpen(w, kind, newId).active == Some(w.tabs[i].id)
  {
    var existing := IndexOfKind(w.tabs, kind);
    assert IndexOfId(w.tabs, w.tabs[existing].id) == existing;
  }

  /** Opening a section that is not open appends one tab of that section,
      titled with its label, at the end, leaves the earlier tabs as they were
      and activates the new tab. */
  lemma OpenAppendsMissing(w: Workspace, kind: PageType, newId: Id)
    requires !HasKind(w.tabs, kind)
    ensures |AfterOpen(w, kind, newId).tabs| == |w.tabs| + 1
    ensures AfterOpen(w, kind, newId).tabs[..|w.tabs|] == w.tabs
    ensures AfterOpen(w, kind, newId).tabs[|w.tabs|] == Tab(newId, kind, Label(kind))
    ensures AfterOpen(w, kind, newId).active == Some(newId)
  {
    assert (w.tabs + [NewTab(newId, kind)])[..|w.tabs|] == w.tabs;
  }

  /** Appending a tab of a section not yet open, with an id above all ids in
      the list, keeps ids and sections distinct and moves the id bound up. */
  lemma AppendFreshKeepsDistinct(tabs: seq<Tab>, t: Tab)
    requires DistinctIds(tabs) && DistinctKinds(tabs) && IdsBelow(tabs, t.id)
    requires !HasKind(tabs, t.kind)
    ensures DistinctIds(tabs + [t]) && DistinctKinds(tabs + [t])
    ensures IdsBelow(tabs + [t], t.id + 1)
  {
    var tabs' := tabs + [t];
    forall i, j | 0 <= i < j < |tabs'|
      ensures tabs'[i].id != tabs'[j].id && tabs'[i].kind != tabs'[j].kind
    {
      assert tabs'[i] == tabs[i];
      if j == |tabs| {
        assert tabs[i].kind != t.kind;
      } else {
        assert tabs'[j] == tabs[j];
      }
    }
  }

  /** `open` keeps distinct ids, a valid active id, at most one tab per
      section and the id bound (advanced by one when a tab was added); the
      active tab afterwards shows the requested section. */
  lemma OpenPreservesInvariants(w: Workspace, kind: PageType, newId: Id)
    requires Consistent(w) && DistinctKinds(w.tabs) && IdsBelow(w.tabs, newId)
    ensures Consistent(AfterOpen(w, kind, newId))
    ensures DistinctKinds(AfterOpen(w, kind, newId).tabs)
    ensures IdsBelow(AfterOpen(w, kind, newId).tabs, if HasKind(w.tabs, kind) then newId else newId + 1)
    ensures TabWithId(AfterOpen(w, kind, newId).tabs, AfterOpen(w, kind, newId).active).value.kind == kind
  {
    if HasKind(w.tabs, kind) {
      OpenReactivatesExisting(w, kind, newId);
    } else {
      var tabs' := w.tabs + [NewTab(newId, kind)];
      assert AfterOpen(w, kind, newId) == Workspace(tabs', Some(newId));
      AppendFreshKeepsDistinct(w.tabs, NewTab(newId, kind));
      assert IndexOfId(tabs', newId) == |w.tabs|;
    }
  }

  /** Opening the same section twice in a row: the second call changes
      nothing, so both calls end on the same single tab of that section. */
  lemma OpenTwiceIsOpenOnce(w: Workspace, kind: PageType, newId: Id, newId': Id)
    ensures AfterOpen(AfterOpen(w, kind, newId), kind, newId') == AfterOpen(w, kind, newId)
  {
    var r := AfterOpen(w, kind, newId);
    if !HasKind(w.tabs, kind) {
      var k := IndexOfKind(r.tabs, kind);
      assert k == |w.tabs|;
    }
  }

  /** Opening a section into an empty workspace and then opening it again
      leaves exactly one tab, which is the active one after both calls. */
  lemma OpenTwiceFromEmpty(kind: PageType, newId: Id, newId': Id)
    ensures |AfterOpen(Workspace([], None), kind, newId).tabs| == 1
    ensures AfterOpen(AfterOpen(Workspace([], None), kind, newId), kind, newId').tabs == AfterOpen(Workspace([], None), kind, newId).tabs
    ensures AfterOpen(AfterOpen(Workspace([], None), kind, newId), kind, newId').active == Some(newId)
  {
    OpenTwiceIsOpenOnce(Workspace([], None), kind, newId, newId');
  }

  /** Kotlin class `TabManager` of Components/TabManager.kt. The tab list and
      the active id are plain fields; `nextId` stands for the UUID source. */
  class TabManager {
    var tabs: seq<Tab>
    var activeId: Option<Id>
    var nextId: Id

    ghost predicate Valid()
      reads this
    {
      Consistent(State()) && DistinctKinds(tabs) && IdsBelow(tabs, nextId)
    }

    function State(): Workspace
      reads this
    {
      Workspace(tabs, activeId)
    }

    constructor ()
      ensures Valid()
      ensures tabs == [] && activeId == None
    {
      tabs := [];
      activeId := None;
      nextId := 0;
    }

    /** The `activeTab` getter: the tab whose id is the active id, if any. */
    function ActiveTab(): (r: Option<Tab>)
      reads this
      ensures Valid() ==> (r.None? <==> activeId.None?)
      ensures r.Some? ==> Some(r.value.id) == activeId && r.value in tabs
    {
      TabWithId(tabs, activeId)
    }

    method Open(kind: PageType)
      requires Valid()
      modifies this
      ensures Valid()
      ensures State() == AfterOpen(old(State()), kind, old(nextId))
      ensures HasKind(old(tabs), kind) ==> tabs == old(tabs) && nextId == old(nextId)
      ensures !HasKind(old(tabs), kind) ==> nextId == old(nextId) + 1
      ensures ActiveTab().Some? && ActiveTab().value.kind == kind
    {
      OpenPreservesInvariants(State(), kind, nextId);
      var existing := IndexOfKind(tabs, kind);
      if existing != -1 {
        activeId := Some(tabs[existing].id);
        return;
      }
      var newTab := NewTab(nextId, kind);
      nextId := nextId + 1;
      tabs := tabs + [newTab];
      activeId := Some(newTab.id);
    }

    method Close(id: Id)
      requires Valid()
      modifies this
      ensures Valid()
      ensures State() == AfterClose(old(State()), id)
      ensures tabs == Without(old(tabs), id)
      ensures nextId == old(nextId)
    {
      ghost var before := State();
      var idx := IndexOfId(tabs, id);
      if idx == -1 {
        CloseKeepsOthersInOrder(before, id);
        return;
      }
      tabs := RemoveAt(tabs, idx);
      if |tabs| == 0 {
        activeId := None;
      } else if activeId == Some(id) {
        activeId := Some(tabs[CoerceAtMost(idx, |tabs| - 1)].id);
      }
      assert State() == AfterClose(before, id);
      ClosePreservesInvariants(before, id, nextId);
      CloseKeepsOthersInOrder(before, id);
    }

    method SetActive(id: Id)
      requires Valid()
      modifies this
      ensures Valid()
      ensures State() == AfterSetActive(old(State()), id)
      ensures tabs == old(tabs) && nextId == old(nextId)
    {
      if HasId(tabs, id) {
        activeId := Some(id);
      }
    }

    method CloseAll()
      requires Valid()
      modifies this
      ensures Valid()
      ensures State() == AfterCloseAll(old(State()))
      ensures tabs == [] && ActiveTab().None?
      ensures nextId == old(nextId)
    {
      tabs := [];
      activeId := None;
    }
  }
}
