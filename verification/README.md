# Net2Plan network-design tool: navigation, layer and tab logic

This project models, in Dafny, the sequential logic that the Net2Plan
network-design GUI (`GUINetworkDesign`) keeps inside its Swing listeners,
lifted out as pure functions over abstract handles:

- **Pick navigation** (`PickNavigation`): the back/forward buttons of the
  focus panel pull entries from a pick history until one still belongs to the
  current design. Stale network elements, and forwarding-rule pairs with
  either half stale, are skipped. Any other object resets the picked state.
  A `null` pull ends the walk with no effect at all.
- **Default layer information** (`LayerInfo`): every layer of a design gets
  the order map's current size as its rank, so ranks are 0..N-1 in
  enumeration order, and every layer is visible. The order map is
  bidirectional (layer to rank and rank to layer).
- **Undo/redo application** (`UndoRedo`): a `null` answer from the undo
  manager changes nothing. Otherwise the current design, the layer order and
  the layer visibility are replaced by the returned triple and the views are
  rebuilt. Over a run of presses, the tool therefore ends on the last
  non-null answer.
- **Change dispatch** (`ChangeDispatch`): a set of changed element types
  selects one of three refresh paths. A `null` set raises an error.
- **Tab re-ordering** (`TabOrder`): when a tool window is closed, its
  component is docked again as a tab of the control window. All tabs are
  merged into a title-keyed map, and the tab list is rebuilt in the fixed
  window order.

Designs are opaque identities (`Designs.DesignRef`, with an explicit `Null`).
Layers, tab titles and tab components are type parameters. A `null` design
reference is `DesignRef.Null`, and a `null` pulled from a pick history is
`Entry.Exhausted`. A `null` answer from the undo manager is
`Wrappers.Option.None`, and the exception thrown for a `null` change set is
`Wrappers.Result.Err`. The pick history is a finite `seq<Entry>`. Running
past its end is treated like pulling `null`.

`Seqs` holds the shared sequence notions (`Distinct`, `IsSubsequence`).
The facts about `IsSubsequence` are helpers of the tab model.

### Notes on the code

- Reaching the end of a pick history does not reset the picked state: a
  `null` pull skips the pick, the reset and the refresh (lines 323 and 340).
- An entry that is neither a network element nor a pair resets the picked
  state (lines 338 and 349); it is not an error.
- In `updateVisualizationAfterChanges`, the second branch also tests for
  `LAYER` (line 690). That test can never hold, because the first branch
  already took every set containing `LAYER`. The model keeps the test.
  `UpdateAfterChanges` states the resulting if-and-only-if facts.

## Model

| member | source | states |
|---|---|---|
| Designs.Live | Net2Plan-master/Net2Plan-GUI/Net2Plan-GUI-Plugins/Net2Plan-NetworkDesign/src/main/java/com/net2plan/gui/plugins/GUINetworkDesign.java:328-329 | An owner is live only while a design is open, and then exactly when it is that design. |
| PickNavigation.Acceptable | Net2Plan-master/Net2Plan-GUI/Net2Plan-GUI-Plugins/Net2Plan-NetworkDesign/src/main/java/com/net2plan/gui/plugins/GUINetworkDesign.java:326-337 | Only network elements and forwarding-rule pairs are ever acceptable, and only while a design is open. An element is acceptable exactly when it belongs to the current design, and a pair exactly when both its demand and its link do. |
| PickNavigation.Stale | Net2Plan-master/Net2Plan-GUI/Net2Plan-GUI-Plugins/Net2Plan-NetworkDesign/src/main/java/com/net2plan/gui/plugins/GUINetworkDesign.java:326-337 | An element is skipped exactly when its design differs from the current one or is null. A pair is skipped exactly when either half fails either check. A null or any other object is never skipped. With no design open, every element and pair is skipped. |
| PickNavigation.OutcomeOf | Net2Plan-master/Net2Plan-GUI/Net2Plan-GUI-Plugins/Net2Plan-NetworkDesign/src/main/java/com/net2plan/gui/plugins/GUINetworkDesign.java:340-349 | Only a null pull leads to no action, and only an object that is neither an element nor a pair resets the picked state. An element is picked as itself, and a pair is picked as a forwarding rule. |
| PickNavigation.Walk | Net2Plan-master/Net2Plan-GUI/Net2Plan-GUI-Plugins/Net2Plan-NetworkDesign/src/main/java/com/net2plan/gui/plugins/GUINetworkDesign.java:319-339 | The walk never pulls more than the history holds. Every entry it passed over was a stale element or rule, and it stops early only on an entry that is not stale. The entry it stops on decides the outcome. A history that is stale throughout is drained with no action. Any action pulled at least one entry. |
| PickNavigation.WalkStopsAtFirst | Net2Plan-master/Net2Plan-GUI/Net2Plan-GUI-Plugins/Net2Plan-NetworkDesign/src/main/java/com/net2plan/gui/plugins/GUINetworkDesign.java:320-339 | When entry k is the first that is not stale, the walk pulls exactly k+1 entries and acts on entry k. |
| PickNavigation.WalkDrainsStale | Net2Plan-master/Net2Plan-GUI/Net2Plan-GUI-Plugins/Net2Plan-NetworkDesign/src/main/java/com/net2plan/gui/plugins/GUINetworkDesign.java:326-337 | A history made only of stale elements and rules is drained completely and nothing is picked. |
| PickNavigation.WalkIgnoresRest | Net2Plan-master/Net2Plan-GUI/Net2Plan-GUI-Plugins/Net2Plan-NetworkDesign/src/main/java/com/net2plan/gui/plugins/GUINetworkDesign.java:320-339 | The walk reads nothing beyond the entry it stops at: once it stopped on an entry that is not stale, a null included, entries appended after the history do not change the result. |
| PickNavigation.WalkSkipsStalePrefix | Net2Plan-master/Net2Plan-GUI/Net2Plan-GUI-Plugins/Net2Plan-NetworkDesign/src/main/java/com/net2plan/gui/plugins/GUINetworkDesign.java:326-337 | Stale entries in front of a history only add to the number of pulled entries. They never change the outcome. |
| PickNavigation.Presses | Net2Plan-master/Net2Plan-GUI/Net2Plan-GUI-Plugins/Net2Plan-NetworkDesign/src/main/java/com/net2plan/gui/plugins/GUINetworkDesign.java:317-353 | Repeated presses over one unchanged history yield only real actions, never the no-action outcome. |
| PickNavigation.PressesVisitShown | Net2Plan-master/Net2Plan-GUI/Net2Plan-GUI-Plugins/Net2Plan-NetworkDesign/src/main/java/com/net2plan/gui/plugins/GUINetworkDesign.java:317-353 | Successive presses visit exactly the entries that are not stale, in history order, up to the first null. This equals an independent filter of the history: no stale entry is surfaced and no showable entry is skipped. |
| PickNavigation.StaleSkipScenario | Net2Plan-master/Net2Plan-GUI/Net2Plan-GUI-Plugins/Net2Plan-NetworkDesign/src/main/java/com/net2plan/gui/plugins/GUINetworkDesign.java:319-352 | Take five picks where the second and fourth belong to another design. Pressing back from the newest visits the fifth, third and first, in that order. The next press finds the history exhausted: whatever the picked state, it stays as it was and nothing is refreshed. |
| PickNavigation.Navigate | Net2Plan-master/Net2Plan-GUI/Net2Plan-GUI-Plugins/Net2Plan-NetworkDesign/src/main/java/com/net2plan/gui/plugins/GUINetworkDesign.java:320-339 | Each button walks its own history: a press stops on the first entry of that history that is not stale, after pulling it and every entry before it, and acts on it. When that history is stale throughout, the press drains it and does nothing. A press never pulls more entries than its own history holds. |
| PickNavigation.NavigateReadsOwnHistory | Net2Plan-master/Net2Plan-GUI/Net2Plan-GUI-Plugins/Net2Plan-NetworkDesign/src/main/java/com/net2plan/gui/plugins/GUINetworkDesign.java:322 | A press does not depend on the other button's history. |
| PickNavigation.ApplyOutcome | Net2Plan-master/Net2Plan-GUI/Net2Plan-GUI-Plugins/Net2Plan-NetworkDesign/src/main/java/com/net2plan/gui/plugins/GUINetworkDesign.java:340-352 | An element pick or a forwarding-rule pick replaces the picked state, and a reset clears it. A null pull leaves it unchanged. The view is refreshed exactly when the pulled value was not null. |
| LayerInfo.DefaultLayerInfo | Net2Plan-master/Net2Plan-GUI/Net2Plan-GUI-Plugins/Net2Plan-NetworkDesign/src/main/java/com/net2plan/gui/plugins/GUINetworkDesign.java:143-149 | The i-th enumerated layer gets rank i, and rank i names the i-th layer. The ranks are exactly 0..N-1, forming a bijection with the layers. Both maps have the design's layers as their domain, and every layer is visible. |
| LayerInfo.PutNextLayer | Net2Plan-master/Net2Plan-GUI/Net2Plan-GUI-Plugins/Net2Plan-NetworkDesign/src/main/java/com/net2plan/gui/plugins/GUINetworkDesign.java:147 | Putting the next layer with the map size as its rank adds a fresh key. It extends the numbering by one position. |
| LayerInfo.NumberedIsBijection | Net2Plan-master/Net2Plan-GUI/Net2Plan-GUI-Plugins/Net2Plan-NetworkDesign/src/main/java/com/net2plan/gui/plugins/GUINetworkDesign.java:143-149 | A numbering of all layers by position is a dense bijection between layers and ranks. |
| UndoRedo.ApplyHistoryStep | Net2Plan-master/Net2Plan-GUI/Net2Plan-GUI-Plugins/Net2Plan-NetworkDesign/src/main/java/com/net2plan/gui/plugins/GUINetworkDesign.java:448-452 | A null answer keeps the design and the layer information, and nothing is rebuilt. A triple sets the design to its first component and the layer order and visibility to its second and third, and the views are rebuilt. |
| UndoRedo.RequestUndo | Net2Plan-master/Net2Plan-GUI/Net2Plan-GUI-Plugins/Net2Plan-NetworkDesign/src/main/java/com/net2plan/gui/plugins/GUINetworkDesign.java:445-453 | Undo rebuilds exactly when the manager returns a back element. It then shows that element. Otherwise it keeps the view. |
| UndoRedo.RequestRedo | Net2Plan-master/Net2Plan-GUI/Net2Plan-GUI-Plugins/Net2Plan-NetworkDesign/src/main/java/com/net2plan/gui/plugins/GUINetworkDesign.java:455-463 | Redo rebuilds exactly when the manager returns a forward element. It then shows that element. Otherwise it keeps the view. |
| UndoRedo.LastAnswerOfTail | Net2Plan-master/Net2Plan-GUI/Net2Plan-GUI-Plugins/Net2Plan-NetworkDesign/src/main/java/com/net2plan/gui/plugins/GUINetworkDesign.java:445-463 | The last non-null answer of a run of presses is the last non-null answer of its tail, or the first answer when the tail has none. |
| UndoRedo.RunShowsLastAnswer | Net2Plan-master/Net2Plan-GUI/Net2Plan-GUI-Plugins/Net2Plan-NetworkDesign/src/main/java/com/net2plan/gui/plugins/GUINetworkDesign.java:445-463 | After any mix of undo and redo presses, the tool shows the last design triple the manager handed back (design, layer order and visibility together), or the view it started from when every answer was null. |
| UndoRedo.StepMakesOldPicksStale | Net2Plan-master/Net2Plan-GUI/Net2Plan-GUI-Plugins/Net2Plan-NetworkDesign/src/main/java/com/net2plan/gui/plugins/GUINetworkDesign.java:450 | After an undo or redo to another design, every element picked in the previous design is stale, and pick navigation skips it. |
| ChangeDispatch.UpdateAfterChanges | Net2Plan-master/Net2Plan-GUI/Net2Plan-GUI-Plugins/Net2Plan-NetworkDesign/src/main/java/com/net2plan/gui/plugins/GUINetworkDesign.java:677-700 | A null set is an error, and every other set is served. The multilayer panel is refreshed if and only if LAYER changed. The graph is rebuilt if and only if LAYER, LINK or NODE changed. Tables and focus are always refreshed, last. Each path is a suffix of the full refresh order. |
| ChangeDispatch.UnionRefreshesBoth | Net2Plan-master/Net2Plan-GUI/Net2Plan-GUI-Plugins/Net2Plan-NetworkDesign/src/main/java/com/net2plan/gui/plugins/GUINetworkDesign.java:684-699 | Reporting two change sets together refreshes exactly the steps that either set refreshes on its own. |
| ChangeDispatch.MoreChangesRefreshMore | Net2Plan-master/Net2Plan-GUI/Net2Plan-GUI-Plugins/Net2Plan-NetworkDesign/src/main/java/com/net2plan/gui/plugins/GUINetworkDesign.java:684-699 | A larger change set never takes a shorter refresh path. |
| TabOrder.Merge | Net2Plan-master/Net2Plan-GUI/Net2Plan-GUI-Plugins/Net2Plan-NetworkDesign/src/main/java/com/net2plan/gui/plugins/GUINetworkDesign.java:884-891 | The map holds exactly the returning tab's title and the titles of the existing tabs. |
| TabOrder.MergeLastWins | Net2Plan-master/Net2Plan-GUI/Net2Plan-GUI-Plugins/Net2Plan-NetworkDesign/src/main/java/com/net2plan/gui/plugins/GUINetworkDesign.java:887-891 | For a title carried by existing tabs, the map holds the component of the last such tab, because later puts replace earlier ones. |
| TabOrder.MergeKeepsNewTab | Net2Plan-master/Net2Plan-GUI/Net2Plan-GUI-Plugins/Net2Plan-NetworkDesign/src/main/java/com/net2plan/gui/plugins/GUINetworkDesign.java:884-891 | When no existing tab carries the returning tab's title, the map holds the returning tab's component under it. (When one does, MergeLastWins gives the existing tab's component.) |
| TabOrder.Rebuild | Net2Plan-master/Net2Plan-GUI/Net2Plan-GUI-Plugins/Net2Plan-NetworkDesign/src/main/java/com/net2plan/gui/plugins/GUINetworkDesign.java:893-903 | A title is put back if and only if it is canonical and held by the map. Each tab shows the map's component for its title. |
| TabOrder.RebuildFollowsCanonical | Net2Plan-master/Net2Plan-GUI/Net2Plan-GUI-Plugins/Net2Plan-NetworkDesign/src/main/java/com/net2plan/gui/plugins/GUINetworkDesign.java:893-903 | The rebuilt titles are a subsequence of the canonical order. |
| TabOrder.RebuildDistinct | Net2Plan-master/Net2Plan-GUI/Net2Plan-GUI-Plugins/Net2Plan-NetworkDesign/src/main/java/com/net2plan/gui/plugins/GUINetworkDesign.java:893-903 | If the canonical order has no repeats, no title is put back twice. |
| TabOrder.ReorderTabs | Net2Plan-master/Net2Plan-GUI/Net2Plan-GUI-Plugins/Net2Plan-NetworkDesign/src/main/java/com/net2plan/gui/plugins/GUINetworkDesign.java:866-904 | The rebuilt tabs follow the fixed window order, and tabs with titles that are not canonical are dropped. A title appears if and only if it is canonical and carried by an existing or the returning tab. With a canonical order without repeats, no title appears twice. An existing tab wins over the returning one, and the last existing tab wins over earlier ones. |
| TabOrder.AddTabToControlWindow | Net2Plan-master/Net2Plan-GUI/Net2Plan-GUI-Plugins/Net2Plan-NetworkDesign/src/main/java/com/net2plan/gui/plugins/GUINetworkDesign.java:880-904 | The two loops, the first taking the tabs off the pane one by one and the second putting them back in canonical order, produce a tab list with the same properties as ReorderTabs. |

## Left out

- Swing panels, the tab mouse listener and popup, window building and
  showing, key bindings, `start`/`stop`: UI glue with no statable behaviour.
- The canvas, table and focus-panel refresh calls and
  `putTransientColorInElementTopologyCanvas`: rendering side effects. They
  appear only as outcome tags (`ApplyOutcome`'s refresh flag, `StepResult.rebuilt`,
  `RefreshStep`).
- `connectToOpenStack`: a network client.
- `PluginSystem` registration: reflective plugin loading.
- `UndoRedoManager`, `VisualizationState`, `NetPlan` and `BidiMap` are not
  part of this model. Their capacity eviction, cursor movement and branch
  discard are not modelled. The undo manager is only a source of
  optional triples, and the pick history is only a finite sequence of entries.
  The constants `MAXSIZEUNDOLISTCHANGES = 0` (history deactivated) and
  `MAXSIZEUNDOLISTPICK = 10` size those classes and have no meaning here.
- `resetButton`: its confirmation dialog and error reporting. Its default layer
  information comes from `VisualizationState`, which is not part of this model.
- `NetworkDesignWindow.getWindowName`: not part of this model. The canonical
  title order of line 866 is therefore a parameter (`canonical`).
- `NetworkElementType`: only `LAYER`, `LINK` and `NODE` steer the dispatch.
  All other kinds are carried by name.
- TabOrder.ReorderTabs: `addTab` (line 901) is modelled as a plain append.
  Swing's `JTabbedPane.addTab` first removes a tab that already shows the same
  component. That removal is not modelled. The five window kinds of line 866
  are assumed to have distinct names, so no title is added twice. For a
  canonical order with a repeated title, the model puts that tab back twice,
  where Swing keeps only the last one. `RebuildDistinct` states that a
  canonical order without repeats puts no title back twice.
- TabOrder.AddTabToControlWindow: the same plain-append reading of `addTab`
  as `TabOrder.ReorderTabs`, for the same reason.
- LayerInfo.DefaultLayerInfo: it requires a layer list without repeats. A
  design's layer list never repeats a layer, so the bidirectional map's
  handling of a duplicate key is not modelled.
- PickNavigation.Walk: does not model the exception paths of the walk. A
  forwarding-rule pair whose demand or link is `null` throws a
  `NullPointerException` (lines 333 and 335), and a pair of other element types
  throws a `ClassCastException` (the same lines). The model's `Rule` always
  carries a demand and a link with an owner reference each.
- PickNavigation.Presses: it assumes that picking an element does not alter
  the pick history between presses. What `VisualizationState.pickElement`
  does to the history is not visible.
