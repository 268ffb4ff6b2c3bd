/** The `card` slice of the Redux store: whether the pixel card is
    expanded and whether it shows the detail view. Opening the detail view
    also expands the card; closing it leaves the card as it was. */
module CardSlice {
  datatype CardState = CardState(isExpanded: bool, isDetailView: bool)

  /** Both flags start off. */
  const Initial := CardState(false, false)

  /** The slice's two actions; `Other` stands for any action of another
      slice, which this reducer ignores. */
  datatype Action = SetExpanded(payload: bool) | SetDetailView(payload: bool) | Other

  function Reduce(s: CardState, a: Action): (r: CardState)
    ensures a.Other? ==> r == s
    ensures a == SetDetailView(true) ==> r.isExpanded && r.isDetailView
    ensures a == SetDetailView(false) ==> r.isExpanded == s.isExpanded && !r.isDetailView
    ensures a.SetExpanded? ==> r.isDetailView == s.isDetailView && r.isExpanded == a.payload
  {
    match a
    case SetExpanded(p) => s.(isExpanded := p)
    case SetDetailView(p) => if p then CardState(true, p) else s.(isDetailView := p)
    case Other => s
  }

  /** Dispatching the same action twice is dispatching it once. */
  lemma ReduceIdempotent(s: CardState, a: Action)
    ensures Reduce(Reduce(s, a), a) == Reduce(s, a)
  {
  }

  /** The state after dispatching `trace` from the initial state. */
  function Run(trace: seq<Action>): CardState {
    if |trace| == 0 then Initial else Reduce(Run(trace[..|trace| - 1]), trace[|trace| - 1])
  }

  /** The actions that set `isExpanded`: `setExpanded` with any payload and
      `setDetailView(true)`; each sets it to `true` except `setExpanded(false)`. */
  predicate SetsExpanded(a: Action) {
    a.SetExpanded? || a == SetDetailView(true)
  }

  /** The card is expanded exactly when the last action that sets the flag
      set it to `true`. */
  lemma {:induction false} RunExpanded(trace: seq<Action>)
    ensures Run(trace).isExpanded <==>
      exists i :: 0 <= i < |trace| && SetsExpanded(trace[i]) && trace[i] != SetExpanded(false)
        && forall j :: i < j < |trace| ==> !SetsExpanded(trace[j])
  {
    if |trace| > 0 {
      var init := trace[..|trace| - 1];
      var a := trace[|trace| - 1];
      RunExpanded(init);
      assert forall i :: 0 <= i < |init| ==> init[i] == trace[i];
      if !SetsExpanded(a) {
        if Run(trace).isExpanded {
          var i :| 0 <= i < |init| && SetsExpanded(init[i]) && init[i] != SetExpanded(false)
            && forall j :: i < j < |init| ==> !SetsExpanded(init[j]);
          assert forall j :: i < j < |trace| ==> !SetsExpanded(trace[j]);
        }
      }
    }
  }

  /** The detail view is shown exactly when the last `setDetailView` had
      payload `true`. */
  lemma {:induction false} RunDetailView(trace: seq<Action>)
    ensures Run(trace).isDetailView <==>
      exists i :: 0 <= i < |trace| && trace[i] == SetDetailView(true)
        && forall j :: i < j < |trace| ==> !trace[j].SetDetailView?
  {
    if |trace| > 0 {
      var init := trace[..|trace| - 1];
      var a := trace[|trace| - 1];
      RunDetailView(init);
      assert forall i :: 0 <= i < |init| ==> init[i] == trace[i];
      if !a.SetDetailView? {
        if Run(trace).isDetailView {
          var i :| 0 <= i < |init| && init[i] == SetDetailView(true)
            && forall j :: i < j < |init| ==> !init[j].SetDetailView?;
          assert forall j :: i < j < |trace| ==> !trace[j].SetDetailView?;
        }
      }
    }
  }

  /** The detail view can be shown on a collapsed card: collapsing does not
      close it. */
  lemma DetailOnCollapsedCard()
    ensures Run([SetDetailView(true), SetExpanded(false)]) == CardState(false, true)
  {
    assert [SetDetailView(true), SetExpanded(false)][..1] == [SetDetailView(true)];
    assert [SetDetailView(true)][..0] == [];
  }
}
