# open_erp tab manager, modelled in Dafny

open_erp is a desktop ERP shell written with Compose for Desktop. Its only
stateful logic is the workspace **tab manager**. The manager keeps an ordered
list of open tabs and the id of the active tab. Each tab shows one section
(`PageType`: Dashboard, Products, Clients, Suppliers, Employees, Sales,
Inventory, Settings). The repository holds two drafts of the manager:

- `presentation/Components/TabManager.kt` uses a **singleton-per-section**
  policy. `open(type)` re-activates the tab of that section if there is one.
  Otherwise it appends a new tab.
- `main.kt` (lines 81-116) uses a **multi-instance** policy. `openTab(type)`
  always appends a new tab.

Both drafts implement close, set-active, close-all and the `activeTab`
getter the same way.

The model has four modules:

- `Tabs` (tabs.dfy) holds the data and the shared behaviour. It defines
  `PageType`, the section labels, `Tab`, and `Workspace`, which is the pair
  (tab list, active id). It models the Kotlin collection calls the managers
  use (`indexOfFirst`, `find`, `any`, `removeAt`, `getOrNull`,
  `coerceAtMost`). It also defines the shared transitions `AfterClose`,
  `AfterSetActive` and `AfterCloseAll` as functions on `Workspace`.
- `TabLemmas` (tab_lemmas.dfy) proves what the shared transitions do and
  that they keep the invariants. Closing is compared against `Without`, a
  separately written filter that keeps order.
- `SectionTabs` (section_tabs.dfy) models TabManager.kt. It has the
  singleton open (`AfterOpen`), the lemmas about it, and the class
  `TabManager`.
- `MultiTabs` (multi_tabs.dfy) models the `TabManager` in main.kt. It has
  `AfterOpenTab`, the lemmas about it, two worked scenarios, and the class
  `TabManager`.

Each class keeps the same fields as the Kotlin class, as plain Dafny fields:
`tabs: seq<Tab>` and `activeId: Option<Id>`. It also has `nextId`, a counter
that stands in for `UUID.randomUUID()`. Every method requires and ensures
`Valid()` and states its new state as a transition of the old one. The
invariants are:

- the active id is unset, or it names a tab in the list;
- tab ids are distinct;
- every id is below `nextId`, so a new id is always fresh;
- in the singleton class only, no two tabs show the same section.

The two open policies stay in two classes, as in the code; they are not
folded into one class with a policy flag. As in the code, `Open` and
`OpenTab` return nothing: callers read the new tab through `ActiveTab`.

## Model

| member | source | states |
|---|---|---|
| Tabs.NewTab | composeApp/src/jvmMain/kotlin/com/example/open_erp/main.kt:74-79 | A new tab has the given id and section, and its title defaults to that section's label |
| Tabs.IndexOfId | composeApp/src/jvmMain/kotlin/com/example/open_erp/presentation/Components/TabManager.kt:27 | `indexOfFirst` by id: -1 exactly when no tab has the id; otherwise a position holding the id with no earlier tab holding it |
| Tabs.IndexOfKind | composeApp/src/jvmMain/kotlin/com/example/open_erp/presentation/Components/TabManager.kt:15 | `find` by section: -1 exactly when no tab shows the section; otherwise the first tab that does |
| Tabs.TabWithId | composeApp/src/jvmMain/kotlin/com/example/open_erp/presentation/Components/TabManager.kt:12 | The `find` behind `activeTab`: a tab is returned exactly when the id is set and some tab has it; the tab returned has that id and is in the list |
| Tabs.RemoveAt | composeApp/src/jvmMain/kotlin/com/example/open_erp/presentation/Components/TabManager.kt:30 | `removeAt(i)`: the list is one shorter; tabs before `i` stay where they were and tabs after it move one place left |
| Tabs.GetOrNull | composeApp/src/jvmMain/kotlin/com/example/open_erp/main.kt:102 | `getOrNull(i)` is non-null exactly when `i` is a valid index, and then it is the tab at `i` |
| Tabs.HasId | composeApp/src/jvmMain/kotlin/com/example/open_erp/presentation/Components/TabManager.kt:40 | `any` by id holds exactly when some tab in the list carries the id |
| Tabs.CoerceAtMost | composeApp/src/jvmMain/kotlin/com/example/open_erp/presentation/Components/TabManager.kt:35 | `coerceAtMost(max)` never exceeds `max`, is either the input or `max`, and is the input whenever the input is at most `max` |
| Tabs.AfterClose | composeApp/src/jvmMain/kotlin/com/example/open_erp/presentation/Components/TabManager.kt:26-37 | An unknown id changes nothing. A known id shortens the list by one; an emptied list clears the active id; closing another tab keeps the active id; closing the active tab of a non-empty result activates a tab that is still in the list |
| Tabs.AfterSetActive | composeApp/src/jvmMain/kotlin/com/example/open_erp/presentation/Components/TabManager.kt:39-43 | The list never changes; a present id becomes the active id, and an unknown id leaves the workspace as it was |
| Tabs.AfterCloseAll | composeApp/src/jvmMain/kotlin/com/example/open_erp/presentation/Components/TabManager.kt:45-48 | From any workspace the result has no tabs and no active id, and satisfies the invariant |
| TabLemmas.CloseKeepsOthersInOrder | composeApp/src/jvmMain/kotlin/com/example/open_erp/presentation/Components/TabManager.kt:26-30 | With distinct ids, close leaves exactly the other tabs in their original order (equal to the filter `Without`). An unknown id leaves the list as it was; a known id removes exactly one tab |
| TabLemmas.CloseActiveSelectsNeighbour | composeApp/src/jvmMain/kotlin/com/example/open_erp/presentation/Components/TabManager.kt:32-36 | Closing the active tab at position k activates the tab at k+1 if there is one, else the tab at k-1. Closing the only tab leaves no active id |
| TabLemmas.CloseOtherKeepsActive | composeApp/src/jvmMain/kotlin/com/example/open_erp/main.kt:98-100 | Under the invariant, closing any tab other than the active one, including an unknown id, leaves the active id unchanged |
| TabLemmas.ClosePreservesInvariants | composeApp/src/jvmMain/kotlin/com/example/open_erp/main.kt:94-104 | Close keeps ids distinct and the active id valid. It also keeps sections distinct and ids below the bound when those held before |
| TabLemmas.SetActiveSelectsPresentOnly | composeApp/src/jvmMain/kotlin/com/example/open_erp/presentation/Components/TabManager.kt:39-43 | Set-active never changes the list. Under the invariant, the active id becomes `id` exactly when a tab has `id`. An unknown id changes nothing, and the invariant is kept |
| TabLemmas.CloseAllEmpties | composeApp/src/jvmMain/kotlin/com/example/open_erp/presentation/Components/TabManager.kt:45-48 | From any state, close-all leaves an empty list and no active tab. The result is consistent, and a second close-all changes nothing |
| TabLemmas.ActiveTabMissingIffUnset | composeApp/src/jvmMain/kotlin/com/example/open_erp/main.kt:86 | When the active id is valid, `activeTab` is null exactly when the active id is null. With distinct ids, it is the one tab carrying that id |
| SectionTabs.AfterOpen | composeApp/src/jvmMain/kotlin/com/example/open_erp/presentation/Components/TabManager.kt:14-24 | The list is unchanged exactly when the section already has a tab. Otherwise a tab with the new id and that section is appended and made active. Either way the active id names a tab and the section is open |
| SectionTabs.OpenReactivatesExisting | composeApp/src/jvmMain/kotlin/com/example/open_erp/presentation/Components/TabManager.kt:15-19 | Opening a section that is already open keeps the list, and the active tab then shows that section. With one tab per section it is exactly that section's tab |
| SectionTabs.OpenAppendsMissing | composeApp/src/jvmMain/kotlin/com/example/open_erp/presentation/Components/TabManager.kt:21-23 | Opening a section with no tab appends exactly one tab at the end, with that section and its label as title. Earlier tabs are unchanged and the new tab is active |
| SectionTabs.AppendFreshKeepsDistinct | composeApp/src/jvmMain/kotlin/com/example/open_erp/presentation/Components/TabManager.kt:21-23 | Appending a tab whose section is not open and whose id is above every id in the list keeps ids and sections distinct, and the id bound moves up by one |
| SectionTabs.OpenPreservesInvariants | composeApp/src/jvmMain/kotlin/com/example/open_erp/presentation/Components/TabManager.kt:14-24 | Open keeps distinct ids, a valid active id and at most one tab per section. Ids stay below the counter, which moves only when a tab is added. The active tab shows the requested section |
| SectionTabs.OpenTwiceIsOpenOnce | composeApp/src/jvmMain/kotlin/com/example/open_erp/presentation/Components/TabManager.kt:14-19 | Opening the same section twice in a row has the effect of opening it once (idempotence) |
| SectionTabs.OpenTwiceFromEmpty | composeApp/src/jvmMain/kotlin/com/example/open_erp/presentation/Components/TabManager.kt:14-24 | From an empty workspace, opening a section twice leaves one tab, and that tab is active after both calls |
| SectionTabs.TabManager.constructor | composeApp/src/jvmMain/kotlin/com/example/open_erp/presentation/Components/TabManager.kt:7-9 | A new manager has no tabs and no active id, and satisfies the invariant |
| SectionTabs.TabManager.ActiveTab | composeApp/src/jvmMain/kotlin/com/example/open_erp/presentation/Components/TabManager.kt:12 | The `activeTab` getter: the result is in the list and carries the active id; under the invariant it is null exactly when the active id is |
| SectionTabs.TabManager.Open | composeApp/src/jvmMain/kotlin/com/example/open_erp/presentation/Components/TabManager.kt:14-24 | The new state is `AfterOpen` of the old state, and the invariant (including one tab per section) is kept. An existing section consumes no id. The active tab shows the opened section |
| SectionTabs.TabManager.Close | composeApp/src/jvmMain/kotlin/com/example/open_erp/presentation/Components/TabManager.kt:26-37 | The new state is `AfterClose` of the old state, the list is the old list without `id` in its order, and the invariant is kept |
| SectionTabs.TabManager.SetActive | composeApp/src/jvmMain/kotlin/com/example/open_erp/presentation/Components/TabManager.kt:39-43 | The new state is `AfterSetActive` of the old state, the list is unchanged, and the invariant is kept |
| SectionTabs.TabManager.CloseAll | composeApp/src/jvmMain/kotlin/com/example/open_erp/presentation/Components/TabManager.kt:45-48 | The list becomes empty and there is no active tab, whatever the prior state; the invariant is kept |
| MultiTabs.AfterOpenTab | composeApp/src/jvmMain/kotlin/com/example/open_erp/main.kt:88-92 | Every call grows the list by exactly one, keeps the earlier tabs, and puts the new tab last with the label as its title. The new tab is active |
| MultiTabs.OpenTabPreservesInvariants | composeApp/src/jvmMain/kotlin/com/example/open_erp/main.kt:88-92 | The new id is fresh, the invariant is kept, ids stay below the advanced counter, and `activeTab` is the new tab |
| MultiTabs.OpenTabDuplicatesSection | composeApp/src/jvmMain/kotlin/com/example/open_erp/main.kt:88-90 | Opening a section that is already open adds a second tab of it, so sections are no longer distinct |
| MultiTabs.OpenTabsCount | composeApp/src/jvmMain/kotlin/com/example/open_erp/main.kt:88-92 | After any run of n `openTab` calls the list has grown by n, ids are distinct, and the last tab opened is active |
| MultiTabs.TabManager.constructor | composeApp/src/jvmMain/kotlin/com/example/open_erp/main.kt:81-83 | A new manager has no tabs and no active id, and satisfies the invariant |
| MultiTabs.TabManager.ActiveTab | composeApp/src/jvmMain/kotlin/com/example/open_erp/main.kt:86 | The `activeTab` getter: the result is in the list and carries the active id; under the invariant it is null exactly when the active id is |
| MultiTabs.TabManager.OpenTab | composeApp/src/jvmMain/kotlin/com/example/open_erp/main.kt:88-92 | The new state is `AfterOpenTab` of the old state. The last tab has an id that was not in the old list, and it is the active tab. The invariant is kept |
| MultiTabs.TabManager.CloseTab | composeApp/src/jvmMain/kotlin/com/example/open_erp/main.kt:94-104 | The new state is `AfterClose` of the old state, even though the body goes through `getOrNull`. The list is the old list without `tabId` in its order, and the invariant is kept |
| MultiTabs.TabManager.SetActiveTab | composeApp/src/jvmMain/kotlin/com/example/open_erp/main.kt:106-110 | The new state is `AfterSetActive` of the old state, the list is unchanged, and the invariant is kept |
| MultiTabs.TabManager.CloseAllTabs | composeApp/src/jvmMain/kotlin/com/example/open_erp/main.kt:112-115 | The list becomes empty and there is no active tab, whatever the prior state; the invariant is kept |
| MultiTabs.ScenarioOpenTwoCloseBoth | composeApp/src/jvmMain/kotlin/com/example/open_erp/main.kt:88-104 | Open Dashboard then Products, then close the inactive first tab: only Products remains, still active. Closing it empties the workspace and clears the active id |
| MultiTabs.ScenarioCloseFirstActive | composeApp/src/jvmMain/kotlin/com/example/open_erp/main.kt:88-110 | Open three tabs, activate the first and close it: the tab that moved into its place becomes active |

## Left out

- Tab ids are `nat` values from a per-manager counter instead of random UUID strings. The counter makes "ids are fresh and never reused" provable. The source relies on UUIDs not colliding for the same thing.
- The `data: Any?` payload of `TabPage` and `openTab` is not modelled. Nothing in the manager reads it.
- The presentation fields of `PageType` (icons, emoji, colours) are left out. The labels are kept because a new tab's title comes from them.
- A tab's title can be set per instance in the Kotlin constructor, but no caller does so. The model always uses the default title.
- Compose snapshot state (`mutableStateListOf`, `mutableStateOf`) and its re-render notifications are UI plumbing. The model uses plain fields.
- The Kotlin `tabs` getter is a read-only view of the list. In the model it is the `tabs` field, read directly.
- All `@Composable` functions (the top bars, tab strips, empty-state and page content) and the colour constants are layout only.
