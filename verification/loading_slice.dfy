/** The `loading` slice of the Redux store: whether the intro animation has
    been shown. The flag starts off and, once set, stays set. */
module LoadingSlice {
  datatype LoadingState = LoadingState(hasShownIntro: bool)

  const Initial := LoadingState(false)

  /** `setIntroShown`, and `Other` for any action of another slice. */
  datatype Action = SetIntroShown | Other

  function Reduce(s: LoadingState, a: Action): (r: LoadingState)
    ensures r.hasShownIntro <==> s.hasShownIntro || a == SetIntroShown
  {
    match a
    case SetIntroShown => LoadingState(true)
    case Other => s
  }

  /** Dispatching the same action twice is dispatching it once. */
  lemma ReduceIdempotent(s: LoadingState, a: Action)
    ensures Reduce(Reduce(s, a), a) == Reduce(s, a)
  {
  }

  /** The state after dispatching `trace` from the initial state. */
  function Run(trace: seq<Action>): LoadingState {
    if |trace| == 0 then Initial else Reduce(Run(trace[..|trace| - 1]), trace[|trace| - 1])
  }

  /** The intro counts as shown exactly when `setIntroShown` was dispatched. */
  lemma {:induction false} RunShown(trace: seq<Action>)
    ensures Run(trace).hasShownIntro <==> SetIntroShown in trace
  {
    if |trace| > 0 {
      var init := trace[..|trace| - 1];
      RunShown(init);
      assert trace == init + [trace[|trace| - 1]];
    }
  }

  /** Later actions never clear the flag. */
  lemma RunMonotone(trace: seq<Action>, more: seq<Action>)
    ensures Run(trace).hasShownIntro ==> Run(trace + more).hasShownIntro
  {
    RunShown(trace);
    RunShown(trace + more);
    if SetIntroShown in trace {
      var i :| 0 <= i < |trace| && trace[i] == SetIntroShown;
      assert (trace + more)[i] == SetIntroShown;
    }
  }
}
