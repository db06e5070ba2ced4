/** Re-docking a closed tool window as a tab of the control window: all tabs
    are taken off, merged by title with the returning tab, and put back in the
    fixed window order. */
module TabOrder {
  import opened Seqs

  /** A tab of the control window: its title and the component it shows. */
  datatype Tab<T, C> = Tab(title: T, comp: C)

  function Titles<T, C>(tabs: seq<Tab<T, C>>): (ts: seq<T>)
    ensures |ts| == |tabs|
    ensures forall k :: 0 <= k < |tabs| ==> ts[k] == tabs[k].title
  {
    seq(|tabs|, k requires 0 <= k < |tabs| => tabs[k].title)
  }

  /** Tab `i` is the last one carrying its title. */
  predicate LastWithTitle<T(==), C>(tabs: seq<Tab<T, C>>, i: int)
  {
    0 <= i < |tabs| && forall j :: i < j < |tabs| ==> tabs[j].title != tabs[i].title
  }

  /** The title-keyed map after putting the returning tab and then every
      existing tab in order: a later put replaces an earlier one. */
  function Merge<T(==,!new), C>(newTab: Tab<T, C>, existing: seq<Tab<T, C>>): (m: map<T, C>)
    ensures forall t :: t in m <==> t == newTab.title || t in Titles(existing)
    decreases |existing|
  {
    if |existing| == 0 then map[newTab.title := newTab.comp]
    else
      var front := existing[..|existing| - 1];
      var last := existing[|existing| - 1];
      assert Titles(existing) == Titles(front) + [last.title];
      Merge(newTab, front)[last.title := last.comp]
  }

  /** The last existing tab with a given title supplies that title's component. */
  lemma {:induction false} MergeLastWins<T(!new), C>(newTab: Tab<T, C>, existing: seq<Tab<T, C>>, i: int)
    requires LastWithTitle(existing, i)
    ensures existing[i].title in Merge(newTab, existing)
    ensures Merge(newTab, existing)[existing[i].title] == existing[i].comp
    decreases |existing|
  {
    var front := existing[..|existing| - 1];
    if i < |front| {
      assert LastWithTitle(front, i);
      MergeLastWins(newTab, front, i);
    }
  }

  /** A title no existing tab carries keeps the returning tab's component. */
  lemma {:induction false} MergeKeepsNewTab<T(!new), C>(newTab: Tab<T, C>, existing: seq<Tab<T, C>>)
    requires newTab.title !in Titles(existing)
    ensures newTab.title in Merge(newTab, existing)
    ensures Merge(newTab, existing)[newTab.title] == newTab.comp
    decreases |existing|
  {
    if |existing| > 0 {
      var front := existing[..|existing| - 1];
      assert Titles(existing) == Titles(front) + [existing[|existing| - 1].title];
      MergeKeepsNewTab(newTab, front);
    }
  }

  /** The tabs put back: one per title of the canonical order that the map holds. */
  function Rebuild<T(==,!new), C>(canonical: seq<T>, m: map<T, C>): (tabs: seq<Tab<T, C>>)
    ensures forall t :: t in Titles(tabs) <==> t in canonical && t in m
    ensures forall k :: 0 <= k < |tabs| ==> tabs[k].title in m && tabs[k].comp == m[tabs[k].title]
    decreases |canonical|
  {
    if |canonical| == 0 then []
    else
      var front := canonical[..|canonical| - 1];
      var t := canonical[|canonical| - 1];
      var prev := Rebuild(front, m);
      assert canonical == front + [t];
      if t in m then
        var tabs := prev + [Tab(t, m[t])];
        assert Titles(tabs) == Titles(prev) + [t];
        tabs
      else
        prev
  }

  /** The tabs put back keep the canonical order. */
  lemma {:induction false} RebuildFollowsCanonical<T(!new), C>(canonical: seq<T>, m: map<T, C>)
    ensures IsSubsequence(Titles(Rebuild(canonical, m)), canonical)
    decreases |canonical|
  {
    if |canonical| > 0 {
      var front := canonical[..|canonical| - 1];
      var t := canonical[|canonical| - 1];
      var prev := Rebuild(front, m);
      assert canonical == front + [t];
      RebuildFollowsCanonical(front, m);
      if t in m {
        assert Titles(Rebuild(canonical, m)) == Titles(prev) + [t];
        SubsequenceAppend(Titles(prev), front, t);
      } else {
        SubsequenceOfLonger(Titles(prev), front, t);
      }
    }
  }

  /** A canonical order without repeats puts back no title twice. */
  lemma {:induction false} RebuildDistinct<T(!new), C>(canonical: seq<T>, m: map<T, C>)
    requires Distinct(canonical)
    ensures Distinct(Titles(Rebuild(canonical, m)))
    decreases |canonical|
  {
    if |canonical| > 0 {
      var front := canonical[..|canonical| - 1];
      var t := canonical[|canonical| - 1];
      var prev := Rebuild(front, m);
      assert Distinct(front);
      RebuildDistinct(front, m);
      if t in m {
        assert t !in front;
        assert t !in Titles(prev);
        assert Titles(Rebuild(canonical, m)) == Titles(prev) + [t];
      }
    }
  }

  /** The tab list after re-docking: the merged tabs in canonical order. */
  function ReorderTabs<T(==,!new), C>(canonical: seq<T>, existing: seq<Tab<T, C>>, newTab: Tab<T, C>)
    : (tabs: seq<Tab<T, C>>)
    // the tabs follow the canonical order and only canonical titles survive
    ensures IsSubsequence(Titles(tabs), canonical)
    // a title appears when it is canonical and some tab, old or returning, carried it
    ensures forall t :: t in Titles(tabs) <==>
              t in canonical && (t == newTab.title || t in Titles(existing))
    // no title twice, given a canonical order without repeats
    ensures Distinct(canonical) ==> Distinct(Titles(tabs))
    // an existing tab wins over the returning one, and the last existing one over earlier ones
    ensures forall k, i :: 0 <= k < |tabs| && LastWithTitle(existing, i) && existing[i].title == tabs[k].title ==>
              tabs[k].comp == existing[i].comp
    // a title no existing tab carried is the returning tab
    ensures forall k :: 0 <= k < |tabs| && tabs[k].title !in Titles(existing) ==>
              tabs[k].title == newTab.title && tabs[k].comp == newTab.comp
  {
    var m := Merge(newTab, existing);
    var tabs := Rebuild(canonical, m);
    RebuildFollowsCanonical(canonical, m);
    assert Distinct(canonical) ==> Distinct(Titles(tabs)) by {
      if Distinct(canonical) {
        RebuildDistinct(canonical, m);
      }
    }
    assert forall k, i :: 0 <= k < |tabs| && LastWithTitle(existing, i) && existing[i].title == tabs[k].title ==>
              tabs[k].comp == existing[i].comp by {
      forall k, i | 0 <= k < |tabs| && LastWithTitle(existing, i) && existing[i].title == tabs[k].title {
        MergeLastWins(newTab, existing, i);
      }
    }
    assert newTab.title !in Titles(existing) ==> newTab.title in m && m[newTab.title] == newTab.comp by {
      if newTab.title !in Titles(existing) {
        MergeKeepsNewTab(newTab, existing);
      }
    }
    tabs
  }

  /** The control window's tab re-ordering: the first loop takes the tabs off
      the pane one by one into the map, the second puts back, in canonical
      order, those whose title the map holds. */
  method AddTabToControlWindow<T(==,!new), C>(canonical: seq<T>, existing: seq<Tab<T, C>>, newTab: Tab<T, C>)
    returns (tabs: seq<Tab<T, C>>)
    // the tabs follow the canonical order and only canonical titles survive
    ensures IsSubsequence(Titles(tabs), canonical)
    // a title appears when it is canonical and some tab, old or returning, carried it
    ensures forall t :: t in Titles(tabs) <==>
              t in canonical && (t == newTab.title || t in Titles(existing))
    // no title twice, given a canonical order without repeats
    ensures Distinct(canonical) ==> Distinct(Titles(tabs))
    // an existing tab wins over the returning one, and the last existing one over earlier ones
    ensures forall k, i :: 0 <= k < |tabs| && LastWithTitle(existing, i) && existing[i].title == tabs[k].title ==>
              tabs[k].comp == existing[i].comp
    // a title no existing tab carried is the returning tab
    ensures forall k :: 0 <= k < |tabs| && tabs[k].title !in Titles(existing) ==>
              tabs[k].title == newTab.title && tabs[k].comp == newTab.comp
  {
    var toSort := map[newTab.title := newTab.comp];
    var pane := existing;
    var removed := 0;
    while |pane| > 0
      invariant 0 <= removed <= |existing| && pane == existing[removed..]
      invariant toSort == Merge(newTab, existing[..removed])
    {
      assert existing[..removed + 1][..removed] == existing[..removed];
      toSort := toSort[pane[0].title := pane[0].comp];
      pane := pane[1..];
      removed := removed + 1;
    }
    assert existing[..removed] == existing;

    tabs := [];
    var i := 0;
    while i < |canonical|
      invariant 0 <= i <= |canonical|
      invariant tabs == Rebuild(canonical[..i], toSort)
    {
      assert canonical[..i + 1][..i] == canonical[..i];
      if canonical[i] in toSort {
        tabs := tabs + [Tab(canonical[i], toSort[canonical[i]])];
      }
      i := i + 1;
    }
    assert canonical[..i] == canonical;
    assert tabs == ReorderTabs(canonical, existing, newTab);
  }
}
