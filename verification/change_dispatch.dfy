/** Which parts of the tool are refreshed after a set of changes to the design. */
module ChangeDispatch {
  import opened Wrappers

  /** The kinds of network element a change can touch. Only layers, links and
      nodes steer the refresh; every other kind is carried by its name. */
  datatype ElementType = Layer | Link | Node | OtherType(name: string)

  /** One refresh call, in the order the tool makes them. */
  datatype RefreshStep = MultilayerPanel | RebuildGraph | UpdateTables | UpdateFocus

  /** The runtime exception thrown for a null set of changes. */
  datatype DispatchError = NonExistentElements

  /** The longest refresh: every call, in order. */
  const FullRefresh: seq<RefreshStep> := [MultilayerPanel, RebuildGraph, UpdateTables, UpdateFocus]

  function UpdateAfterChanges(changes: Option<set<ElementType>>): (r: Result<seq<RefreshStep>, DispatchError>)
    // a null set is refused, any other set is served
    ensures r.Err? <==> changes.None?
    // the multilayer panel is refreshed exactly when a layer changed
    ensures r.Ok? ==> (MultilayerPanel in r.value <==> Layer in changes.value)
    // the graph is rebuilt exactly when a layer, a link or a node changed
    ensures r.Ok? ==> (RebuildGraph in r.value <==> (Layer in changes.value || Link in changes.value || Node in changes.value))
    // the tables and the focus panel are refreshed after every change, last
    ensures r.Ok? ==> |r.value| >= 2 && r.value[|r.value| - 2..] == [UpdateTables, UpdateFocus]
    // whatever is refreshed keeps the order of the full refresh
    ensures r.Ok? ==> |r.value| <= |FullRefresh| && r.value == FullRefresh[|FullRefresh| - |r.value|..]
  {
    match changes
    case None => Err(NonExistentElements)
    case Some(s) =>
      if Layer in s then
        Ok(FullRefresh)
      // the Layer test in the second branch of `updateVisualizationAfterChanges` can no longer hold here
      else if Link in s || Node in s || Layer in s then
        assert FullRefresh[1..] == [RebuildGraph, UpdateTables, UpdateFocus];
        Ok([RebuildGraph, UpdateTables, UpdateFocus])
      else
        assert FullRefresh[2..] == [UpdateTables, UpdateFocus];
        Ok([UpdateTables, UpdateFocus])
  }

  /** Reporting two sets of changes at once refreshes exactly what reporting
      them one after the other refreshes. */
  lemma UnionRefreshesBoth(a: set<ElementType>, b: set<ElementType>, step: RefreshStep)
    ensures step in UpdateAfterChanges(Some(a + b)).value <==>
              step in UpdateAfterChanges(Some(a)).value || step in UpdateAfterChanges(Some(b)).value
  {
  }

  /** More changes never refresh less. */
  lemma MoreChangesRefreshMore(a: set<ElementType>, b: set<ElementType>)
    requires a <= b
    ensures |UpdateAfterChanges(Some(a)).value| <= |UpdateAfterChanges(Some(b)).value|
  {
  }
}
