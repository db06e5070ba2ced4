/** Undo and redo of design changes, as seen from the design tool: the undo
    manager hands back a stored (design, layer order, layer visibility) triple,
    or null when there is nothing to go back or forward to. */
module UndoRedo {
  import opened Wrappers
  import opened Designs
  import PickNavigation

  /** The design on display together with its layer order and visibility. */
  datatype DesignView<L> = DesignView(design: DesignRef, order: map<L, nat>, visible: map<L, bool>)

  /** The view after a request, and whether the views were rebuilt for a new topology. */
  datatype StepResult<L> = StepResult(view: DesignView<L>, rebuilt: bool)

  /** Applies what the undo manager returned: null leaves everything as it was;
      a triple replaces the current design, then the layer order and visibility. */
  function ApplyHistoryStep<L>(view: DesignView<L>, stored: Option<DesignView<L>>): (r: StepResult<L>)
    ensures stored.None? ==> r.view == view && !r.rebuilt
    ensures stored.Some? ==> r.rebuilt
    ensures stored.Some? ==> r.view.design == stored.value.design
    ensures stored.Some? ==> r.view.order == stored.value.order && r.view.visible == stored.value.visible
  {
    match stored
    case None => StepResult(view, false)
    case Some(triple) => StepResult(DesignView(triple.design, triple.order, triple.visible), true)
  }

  /** The undo button: applies the manager's back element. */
  function RequestUndo<L>(view: DesignView<L>, back: Option<DesignView<L>>): (r: StepResult<L>)
    ensures r.rebuilt <==> back.Some?
    ensures back.None? ==> r.view == view
    ensures back.Some? ==> r.view == back.value
  {
    ApplyHistoryStep(view, back)
  }

  /** The redo button: applies the manager's forward element. */
  function RequestRedo<L>(view: DesignView<L>, forward: Option<DesignView<L>>): (r: StepResult<L>)
    ensures r.rebuilt <==> forward.Some?
    ensures forward.None? ==> r.view == view
    ensures forward.Some? ==> r.view == forward.value
  {
    ApplyHistoryStep(view, forward)
  }

  /** One press of the undo or the redo button, with what the manager answered to it. */
  datatype Request<L> = Undo(back: Option<DesignView<L>>) | Redo(forward: Option<DesignView<L>>)

  function Answer<L>(q: Request<L>): Option<DesignView<L>>
  {
    match q
    case Undo(back) => back
    case Redo(forward) => forward
  }

  /** The button pressed in `q`, applied to the view on display. */
  function Press<L>(view: DesignView<L>, q: Request<L>): StepResult<L>
  {
    match q
    case Undo(back) => RequestUndo(view, back)
    case Redo(forward) => RequestRedo(view, forward)
  }

  /** A run of presses, applied from the first to the last. */
  function RunRequests<L>(view: DesignView<L>, qs: seq<Request<L>>): DesignView<L>
    decreases |qs|
  {
    if |qs| == 0 then view else RunRequests(Press(view, qs[0]).view, qs[1..])
  }

  /** Reference definition: the last non-null answer of a run, searched from its end. */
  function LastAnswer<L>(qs: seq<Request<L>>): Option<DesignView<L>>
    decreases |qs|
  {
    if |qs| == 0 then None
    else if Answer(qs[|qs| - 1]).Some? then Answer(qs[|qs| - 1])
    else LastAnswer(qs[..|qs| - 1])
  }

  /** The last non-null answer of a run is that of its tail, or else the first answer. */
  lemma {:induction false} LastAnswerOfTail<L>(qs: seq<Request<L>>)
    requires 0 < |qs|
    ensures LastAnswer(qs) == if LastAnswer(qs[1..]).Some? then LastAnswer(qs[1..]) else Answer(qs[0])
    decreases |qs|
  {
    var n := |qs|;
    if n == 1 {
      assert qs[1..] == [];
    } else {
      assert qs[1..][n - 2] == qs[n - 1];
      assert qs[1..][..n - 2] == qs[..n - 1][1..];
      assert qs[..n - 1][0] == qs[0];
      LastAnswerOfTail(qs[..n - 1]);
    }
  }

  /** Whatever mix of undo and redo presses is made, the tool ends up showing
      the last triple the manager handed back (design, layer order and
      visibility together), or the view it started from if every answer was
      null: null answers never disturb the view. */
  lemma {:induction false} RunShowsLastAnswer<L>(view: DesignView<L>, qs: seq<Request<L>>)
    ensures LastAnswer(qs).Some? ==> RunRequests(view, qs) == LastAnswer(qs).value
    ensures LastAnswer(qs).None? ==> RunRequests(view, qs) == view
    decreases |qs|
  {
    if |qs| > 0 {
      LastAnswerOfTail(qs);
      RunShowsLastAnswer(Press(view, qs[0]).view, qs[1..]);
    }
  }

  /** After an undo or redo to another design, every element picked in the
      previous design is stale, so the pick navigation skips it. */
  lemma StepMakesOldPicksStale<L>(view: DesignView<L>, stored: DesignView<L>, elem: nat)
    requires stored.design != view.design
    ensures PickNavigation.Stale(PickNavigation.Elem(elem, view.design), RequestUndo(view, Some(stored)).view.design)
    ensures PickNavigation.Stale(PickNavigation.Elem(elem, view.design), RequestRedo(view, Some(stored)).view.design)
  {
  }
}
