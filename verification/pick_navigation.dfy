/** The pick-navigation walk behind the focus panel's back/forward buttons.
    Each press pulls entries, one at a time, from the back or the forward pick
    history until one of them can still be shown in the current design. */
module PickNavigation {
  import opened Designs

  /** One value pulled from a pick history. */
  datatype Entry =
    | Exhausted                                   // the history returned null
    | Elem(elem: nat, owner: DesignRef)           // a network element and the design it belongs to
    | Rule(demand: nat, demandOwner: DesignRef,   // a forwarding rule: a (demand, link) pair
           link: nat, linkOwner: DesignRef)
    | Other                                       // any other object

  /** What the button press does to the picked state once the walk stops. */
  datatype Outcome = Pick(elem: nat) | PickRule(demand: nat, link: nat) | Reset | NoAction

  /** How many entries the walk pulled from its history, and what it then did. */
  datatype WalkResult = WalkResult(consumed: nat, outcome: Outcome)

  datatype Button = BackButton | ForwardButton

  /** The picked state of the visualization, as far as navigation changes it. */
  datatype Picked = NothingPicked | PickedElem(elem: nat) | PickedRule(demand: nat, link: nat)

  /** An element or forwarding rule every part of which belongs to the current design. */
  predicate Acceptable(e: Entry, current: DesignRef)
    // only elements and rules are ever acceptable, and only while a design is open
    ensures Acceptable(e, current) ==> (e.Elem? || e.Rule?) && current.Plan?
    ensures e.Elem? ==> (Acceptable(e, current) <==> current.Plan? && e.owner == current)
    ensures e.Rule? ==> (Acceptable(e, current) <==>
                           current.Plan? && e.demandOwner == current && e.linkOwner == current)
  {
    match e
    case Elem(_, owner) => Live(owner, current)
    case Rule(_, d, _, l) => Live(d, current) && Live(l, current)
    case _ => false
  }

  /** An element or forwarding rule left over from another design: the walk skips it. */
  predicate Stale(e: Entry, current: DesignRef)
    // an element is skipped when its design is not the current one or is null
    ensures e.Elem? ==> (Stale(e, current) <==> e.owner != current || e.owner == Null)
    // a rule is skipped when either half fails either of those two checks
    ensures e.Rule? ==> (Stale(e, current) <==>
                           e.demandOwner != current || e.demandOwner == Null ||
                           e.linkOwner != current || e.linkOwner == Null)
    // a null or any other object always stops the walk
    ensures !e.Elem? && !e.Rule? ==> !Stale(e, current)
    // with no design open, every element and rule is skipped
    ensures current == Null ==> (Stale(e, current) <==> e.Elem? || e.Rule?)
  {
    (e.Elem? || e.Rule?) && !Acceptable(e, current)
  }

  /** The action taken on the entry the walk stops at. */
  function OutcomeOf(e: Entry): (o: Outcome)
    // a null pull is the only entry that leads to no action
    ensures o == NoAction <==> e == Exhausted
    // any object that is neither an element nor a pair resets the picked state
    ensures o == Reset <==> e == Other
    // an element is picked, and a pair is picked as a forwarding rule
    ensures o.Pick? <==> e.Elem?
    ensures o.PickRule? <==> e.Rule?
    ensures e.Elem? ==> o == Pick(e.elem)
    ensures e.Rule? ==> o == PickRule(e.demand, e.link)
  {
    match e
    case Exhausted => NoAction
    case Elem(x, _) => Pick(x)
    case Rule(d, _, l, _) => PickRule(d, l)
    case Other => Reset
  }

  /** The do-while loop of the navigation listener. Running past the end of the
      finite history is the same as pulling `null`. */
  function Walk(src: seq<Entry>, current: DesignRef): (r: WalkResult)
    // it never pulls more than the history holds
    ensures r.consumed <= |src|
    // every entry it pulled and passed over was a stale element or rule
    ensures forall i :: 0 <= i < r.consumed - 1 ==> Stale(src[i], current)
    // it stops early only on an entry that is not stale
    ensures r.consumed < |src| ==> 0 < r.consumed && !Stale(src[r.consumed - 1], current)
    // when it stops on an entry that is not stale, that entry decides the outcome
    ensures 0 < r.consumed && !Stale(src[r.consumed - 1], current) ==>
              r.outcome == OutcomeOf(src[r.consumed - 1])
    // when the whole history was stale, nothing happens
    ensures (forall i :: 0 <= i < |src| ==> Stale(src[i], current)) ==>
              r.consumed == |src| && r.outcome == NoAction
    // an action other than "nothing" always pulled at least one entry
    ensures r.outcome != NoAction ==> 0 < r.consumed
  {
    if |src| == 0 then WalkResult(0, NoAction)
    else if Stale(src[0], current) then
      var rest := Walk(src[1..], current);
      WalkResult(rest.consumed + 1, rest.outcome)
    else WalkResult(1, OutcomeOf(src[0]))
  }

  /** The walk started by one of the two buttons, over that button's history. */
  function Navigate(button: Button, back: seq<Entry>, forward: seq<Entry>, current: DesignRef): (r: WalkResult)
    ensures button == BackButton ==> r.consumed <= |back|
    ensures button == ForwardButton ==> r.consumed <= |forward|
    // the press stops on the first entry of its own history that is not stale, and acts on it
    ensures var h := if button == BackButton then back else forward;
            forall k :: 0 <= k < |h| && !Stale(h[k], current) &&
                        (forall i :: 0 <= i < k ==> Stale(h[i], current)) ==>
                          r == WalkResult(k + 1, OutcomeOf(h[k]))
    // when its own history is stale throughout, the press drains it and does nothing
    ensures var h := if button == BackButton then back else forward;
            (forall i :: 0 <= i < |h| ==> Stale(h[i], current)) ==> r == WalkResult(|h|, NoAction)
  {
    if button == BackButton then Walk(back, current) else Walk(forward, current)
  }

  /** A press reads only the history of its own button: the other one may hold anything. */
  lemma NavigateReadsOwnHistory(button: Button, back: seq<Entry>, forward: seq<Entry>,
                                other: seq<Entry>, current: DesignRef)
    ensures button == BackButton ==>
              Navigate(button, back, forward, current) == Navigate(button, back, other, current)
    ensures button == ForwardButton ==>
              Navigate(button, back, forward, current) == Navigate(button, other, forward, current)
  {
  }

  /** The effect of a walk's outcome: a pick replaces the picked state, a reset
      clears it, and an exhausted history leaves it alone; the view is refreshed
      exactly when the pulled value was not null. */
  function ApplyOutcome(picked: Picked, outcome: Outcome): (res: (Picked, bool))
    ensures res.1 <==> outcome != NoAction
    ensures outcome == NoAction ==> res.0 == picked
    ensures outcome == Reset ==> res.0 == NothingPicked
    ensures outcome.Pick? ==> res.0 == PickedElem(outcome.elem)
    ensures outcome.PickRule? ==> res.0 == PickedRule(outcome.demand, outcome.link)
  {
    match outcome
    case Pick(x) => (PickedElem(x), true)
    case PickRule(d, l) => (PickedRule(d, l), true)
    case Reset => (NothingPicked, true)
    case NoAction => (picked, false)
  }

  /** The walk is determined by the first entry that is not stale: it pulls
      up to and including that entry and acts on it. */
  lemma WalkStopsAtFirst(src: seq<Entry>, current: DesignRef, k: nat)
    requires k < |src| && !Stale(src[k], current)
    requires forall i :: 0 <= i < k ==> Stale(src[i], current)
    ensures Walk(src, current) == WalkResult(k + 1, OutcomeOf(src[k]))
  {
  }

  /** If no entry can be shown, the walk drains the history and does nothing. */
  lemma WalkDrainsStale(src: seq<Entry>, current: DesignRef)
    requires forall i :: 0 <= i < |src| ==> Stale(src[i], current)
    ensures Walk(src, current) == WalkResult(|src|, NoAction)
  {
  }

  /** The walk reads nothing beyond the entry it stops at: once it stopped on
      an entry that is not stale (a null included), a longer history with the
      same front gives the same result. */
  lemma {:induction false} WalkIgnoresRest(src: seq<Entry>, more: seq<Entry>, current: DesignRef)
    requires 0 < Walk(src, current).consumed
    requires !Stale(src[Walk(src, current).consumed - 1], current)
    ensures Walk(src + more, current) == Walk(src, current)
  {
    assert (src + more)[0] == src[0];
    if Stale(src[0], current) {
      var r := Walk(src[1..], current);
      assert Walk(src, current).consumed == r.consumed + 1;
      assert src[1..][r.consumed - 1] == src[r.consumed];
      assert (src + more)[1..] == src[1..] + more;
      WalkIgnoresRest(src[1..], more, current);
    }
  }

  /** Stale entries in front of the history only add to the count of pulled entries. */
  lemma {:induction false} WalkSkipsStalePrefix(stale: seq<Entry>, rest: seq<Entry>, current: DesignRef)
    requires forall i :: 0 <= i < |stale| ==> Stale(stale[i], current)
    ensures Walk(stale + rest, current).consumed == |stale| + Walk(rest, current).consumed
    ensures Walk(stale + rest, current).outcome == Walk(rest, current).outcome
  {
    if |stale| > 0 {
      assert (stale + rest)[0] == stale[0];
      assert (stale + rest)[1..] == stale[1..] + rest;
      WalkSkipsStalePrefix(stale[1..], rest, current);
    } else {
      assert stale + rest == rest;
    }
  }

  /** Presses of one button repeated over an unchanged history, until a press
      does nothing: the outcomes of the successive presses. */
  function Presses(src: seq<Entry>, current: DesignRef): (outs: seq<Outcome>)
    ensures forall i :: 0 <= i < |outs| ==> outs[i] != NoAction
    decreases |src|
  {
    var r := Walk(src, current);
    if r.outcome == NoAction then [] else [r.outcome] + Presses(src[r.consumed..], current)
  }

  /** Reference definition: the entries that can still be shown (or that reset
      the picked state), in history order, up to the first null. */
  function Shown(src: seq<Entry>, current: DesignRef): seq<Outcome>
  {
    if |src| == 0 || src[0] == Exhausted then []
    else if Stale(src[0], current) then Shown(src[1..], current)
    else [OutcomeOf(src[0])] + Shown(src[1..], current)
  }

  /** Successive presses visit exactly the non-stale entries, in order, and
      stop at the first null: stale entries are never surfaced and nothing
      that can be shown is skipped. */
  lemma {:induction false} PressesVisitShown(src: seq<Entry>, current: DesignRef)
    ensures Presses(src, current) == Shown(src, current)
    decreases |src|
  {
    if |src| > 0 && Stale(src[0], current) {
      assert Walk(src, current) == WalkResult(Walk(src[1..], current).consumed + 1, Walk(src[1..], current).outcome);
      var r := Walk(src[1..], current);
      if r.outcome != NoAction {
        assert src[1..][r.consumed..] == src[r.consumed + 1..];
      }
      PressesVisitShown(src[1..], current);
    } else if |src| > 0 && src[0] != Exhausted {
      PressesVisitShown(src[1..], current);
    }
  }

  /** Five picks of which the second and the fourth belong to another design:
      pressing back from the newest visits the fifth, third and first, and the
      next press finds the history exhausted and leaves the picked state alone
      without a refresh (it does not reset it). */
  lemma StaleSkipScenario(current: DesignRef, other: DesignRef, history: seq<Entry>)
    requires current != Null && other != current
    requires history == [Elem(5, current), Elem(4, other), Elem(3, current), Elem(2, other), Elem(1, current)]
    ensures Presses(history, current) == [Pick(5), Pick(3), Pick(1)]
    ensures forall p :: ApplyOutcome(p, Walk(history[5..], current).outcome) == (p, false)
  {
    PressesVisitShown(history, current);
    ShownSkipsEverySecond(current, other, history);
  }

  lemma ShownSkipsEverySecond(current: DesignRef, other: DesignRef, history: seq<Entry>)
    requires current != Null && other != current
    requires history == [Elem(5, current), Elem(4, other), Elem(3, current), Elem(2, other), Elem(1, current)]
    ensures Shown(history, current) == [Pick(5), Pick(3), Pick(1)]
  {
    assert history[4..][1..] == [];
    assert Shown(history[4..], current) == [Pick(1)];
    assert history[3..][1..] == history[4..];
    assert history[2..][1..] == history[3..];
    assert Shown(history[2..], current) == [Pick(3), Pick(1)];
    assert history[1..][1..] == history[2..];
  }
}
