/** Properties of the transitions that both tab managers share: what closing
    a tab keeps and whom it activates, what set-active and close-all do, and
    that all three keep the managers' invariants. */
module TabLemmas {
  import opened Tabs

  /** Reference definition of "the list without the tab `id`": a filter that
      keeps every other tab in its original order. */
  function Without(tabs: seq<Tab>, id: Id): seq<Tab> {
    if |tabs| == 0 then []
    else (if tabs[0].id == id then [] else [tabs[0]]) + Without(tabs[1..], id)
  }

  /** `Without` keeps exactly the tabs whose id differs. */
  lemma {:induction false} WithoutContents(tabs: seq<Tab>, id: Id)
    ensures forall t :: t in Without(tabs, id) <==> t in tabs && t.id != id
  {
    if |tabs| > 0 {
      WithoutContents(tabs[1..], id);
      assert tabs == [tabs[0]] + tabs[1..];
    }
  }

  lemma {:induction false} WithoutAppend(a: seq<Tab>, b: seq<Tab>, id: Id)
    ensures Without(a + b, id) == Without(a, id) + Without(b, id)
  {
    if |a| == 0 {
      assert a + b == b;
    } else {
      assert (a + b)[1..] == a[1..] + b;
      WithoutAppend(a[1..], b, id);
    }
  }

  lemma {:induction false} WithoutAbsent(tabs: seq<Tab>, id: Id)
    requires !HasId(tabs, id)
    ensures Without(tabs, id) == tabs
  {
    if |tabs| > 0 {
      assert !HasId(tabs[1..], id) by {
        forall i | 0 <= i < |tabs[1..]| ensures tabs[1..][i].id != id {
          assert tabs[1..][i] == tabs[i + 1];
        }
      }
      WithoutAbsent(tabs[1..], id);
    }
  }

  /** With distinct ids, the id held at `idx` occurs nowhere else. */
  lemma UniqueIdElsewhereAbsent(tabs: seq<Tab>, idx: int)
    requires DistinctIds(tabs)
    requires 0 <= idx < |tabs|
    ensures !HasId(tabs[..idx], tabs[idx].id)
    ensures !HasId(tabs[idx + 1..], tabs[idx].id)
  {
    var pre, post := tabs[..idx], tabs[idx + 1..];
    forall i | 0 <= i < |pre| ensures pre[i].id != tabs[idx].id {
      assert pre[i] == tabs[i];
    }
    forall i | 0 <= i < |post| ensures post[i].id != tabs[idx].id {
      assert post[i] == tabs[idx + 1 + i];
    }
  }

  /** Filtering out an id that only the tab `t` carries drops just `t`. */
  lemma WithoutSingle(pre: seq<Tab>, t: Tab, post: seq<Tab>)
    requires !HasId(pre, t.id) && !HasId(post, t.id)
    ensures Without(pre + [t] + post, t.id) == pre + post
  {
    var x := [t];
    assert x[1..] == [];
    calc {
      Without(pre + x + post, t.id);
      { WithoutAppend(pre + x, post, t.id); }
      Without(pre + x, t.id) + Without(post, t.id);
      { WithoutAppend(pre, x, t.id); }
      Without(pre, t.id) + Without(x, t.id) + Without(post, t.id);
      { WithoutAbsent(pre, t.id); WithoutAbsent(post, t.id); }
      pre + [] + post;
    }
  }

  /** With distinct ids, filtering out the id held at `idx` is removing the
      tab at `idx`. */
  lemma WithoutUniqueIsRemoveAt(tabs: seq<Tab>, idx: int)
    requires DistinctIds(tabs)
    requires 0 <= idx < |tabs|
    ensures Without(tabs, tabs[idx].id) == tabs[..idx] + tabs[idx + 1..]
  {
    UniqueIdElsewhereAbsent(tabs, idx);
    assert tabs == tabs[..idx] + [tabs[idx]] + tabs[idx + 1..];
    WithoutSingle(tabs[..idx], tabs[idx], tabs[idx + 1..]);
  }

  /** Closing removes the tab `id` and keeps every other tab, in order; with
      distinct ids nothing with that id is left, and a present id shortens
      the list by exactly one. */
  lemma CloseKeepsOthersInOrder(w: Workspace, id: Id)
    requires DistinctIds(w.tabs)
    ensures AfterClose(w, id).tabs == Without(w.tabs, id)
    ensures forall t :: t in AfterClose(w, id).tabs <==> t in w.tabs && t.id != id
    ensures HasId(w.tabs, id) ==> |AfterClose(w, id).tabs| == |w.tabs| - 1
    ensures !HasId(w.tabs, id) ==> AfterClose(w, id) == w
  {
    var r := AfterClose(w, id);
    var idx := IndexOfId(w.tabs, id);
    if idx == -1 {
      WithoutAbsent(w.tabs, id);
    } else {
      assert r.tabs == RemoveAt(w.tabs, idx);
      WithoutUniqueIsRemoveAt(w.tabs, idx);
    }
    assert r.tabs == Without(w.tabs, id);
    WithoutContents(w.tabs, id);
  }

  /** Closing the active tab activates its right-hand neighbour, or, when it
      was the last tab, its left-hand neighbour; closing the only tab leaves
      no active tab. */
  lemma CloseActiveSelectsNeighbour(w: Workspace, id: Id, k: int)
    requires DistinctIds(w.tabs)
    requires 0 <= k < |w.tabs| && w.tabs[k].id == id
    requires w.active == Some(id)
    ensures AfterClose(w, id).active ==
      if k + 1 < |w.tabs| then Some(w.tabs[k + 1].id)
      else if k > 0 then Some(w.tabs[k - 1].id)
      else None
  {
    assert HasId(w.tabs, id);
    assert IndexOfId(w.tabs, id) == k;
  }

  /** Closing any tab but the active one leaves the active id alone. */
  lemma CloseOtherKeepsActive(w: Workspace, id: Id)
    requires Consistent(w)
    requires w.active != Some(id)
    ensures AfterClose(w, id).active == w.active
  {
  }

  /** Closing keeps the invariants: distinct ids, a valid active id, and also
      distinct sections and the id bound when they held before. */
  lemma ClosePreservesInvariants(w: Workspace, id: Id, bound: Id)
    requires Consistent(w)
    ensures Consistent(AfterClose(w, id))
    ensures DistinctKinds(w.tabs) ==> DistinctKinds(AfterClose(w, id).tabs)
    ensures IdsBelow(w.tabs, bound) ==> IdsBelow(AfterClose(w, id).tabs, bound)
  {
    var idx := IndexOfId(w.tabs, id);
    if idx != -1 {
      var r := AfterClose(w, id);
      var rest := RemoveAt(w.tabs, idx);
      assert r.tabs == rest;
      forall i, j | 0 <= i < j < |rest|
        ensures rest[i].id != rest[j].id
        ensures DistinctKinds(w.tabs) ==> rest[i].kind != rest[j].kind
      {
        assert rest[i] == w.tabs[if i < idx then i else i + 1];
        assert rest[j] == w.tabs[if j < idx then j else j + 1];
      }
      if |rest| > 0 && w.active.Some? && w.active != Some(id) {
        // The active tab stays and only shifts left when it sat after `idx`.
        var m :| 0 <= m < |w.tabs| && w.tabs[m].id == w.active.value;
        var m' := if m < idx then m else m - 1;
        assert rest[m'] == w.tabs[m];
      }
    }
  }

  /** `setActive` never touches the list; under the invariant it makes `id`
      the active tab exactly when a tab with `id` is open, and otherwise
      changes nothing. */
  lemma SetActiveSelectsPresentOnly(w: Workspace, id: Id)
    requires Consistent(w)
    ensures AfterSetActive(w, id).tabs == w.tabs
    ensures AfterSetActive(w, id).active == Some(id) <==> HasId(w.tabs, id)
    ensures !HasId(w.tabs, id) ==> AfterSetActive(w, id) == w
    ensures HasId(w.tabs, id) ==> TabWithId(w.tabs, Some(id)).Some? && TabWithId(w.tabs, Some(id)).value.id == id
    ensures Consistent(AfterSetActive(w, id))
  {
  }

  /** `closeAll` empties the workspace from any state, leaves no active tab,
      and doing it twice is the same as doing it once. */
  lemma CloseAllEmpties(w: Workspace)
    ensures AfterCloseAll(w).tabs == []
    ensures TabWithId(AfterCloseAll(w).tabs, AfterCloseAll(w).active).None?
    ensures Consistent(AfterCloseAll(w))
    ensures AfterCloseAll(AfterCloseAll(w)) == AfterCloseAll(w)
  {
  }

  /** Under the invariant, the active tab is missing exactly when the active
      id is unset, and when present it is the tab with that id. */
  lemma ActiveTabMissingIffUnset(w: Workspace)
    requires ActiveValid(w)
    ensures TabWithId(w.tabs, w.active).None? <==> w.active.None?
    ensures DistinctIds(w.tabs) && w.active.Some? ==>
      forall i | 0 <= i < |w.tabs| && w.tabs[i].id == w.active.value :: TabWithId(w.tabs, w.active) == Some(w.tabs[i])
  {
  }
}
