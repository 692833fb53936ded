/** The request-state reducer of the data-fetching hook, its `reset` helper,
    and the actions one request dispatches. JavaScript values are modelled by
    a small universe in which `null`, `undefined` and the falsy primitives are
    distinguishable. */
module FetchState {
  import opened Lang

  datatype Value = Null | Undefined | Bool(b: bool) | Num(n: int) | Str(s: string) | Object(ref: nat)

  /** JavaScript truthiness (`NaN` is outside the model). */
  predicate Truthy(v: Value) {
    match v
    case Null => false
    case Undefined => false
    case Bool(b) => b
    case Num(n) => n != 0
    case Str(s) => s != ""
    case Object(_) => true
  }

  datatype State = State(isLoading: bool, isError: bool, error: Value, data: Value)

  /** An action: its `type` string and its `payload` (`Undefined` when absent). */
  datatype Action = Action(kind: string, payload: Value)

  const FetchInit := "FETCH_INIT"
  const FetchSuccess := "FETCH_SUCCESS"
  const FetchFailure := "FETCH_FAILURE"
  const ResetKind := "RESET"

  /** The hook's initial state; an omitted (undefined) `initialData`
      defaults to null. */
  function Initial(initialData: Value): (s: State)
    ensures !s.isLoading && !s.isError && s.error == Null
    ensures s.data != Undefined
    ensures initialData != Undefined ==> s.data == initialData
    ensures Consistent(s)
  {
    State(false, false, Null, if initialData == Undefined then Null else initialData)
  }

  /** The action types the reducer knows. */
  predicate Known(kind: string) {
    kind in {FetchInit, FetchSuccess, FetchFailure, ResetKind}
  }

  /** `dataFetchReducer`; `None` is the `Error` thrown for an unknown action type. */
  function Reduce(s: State, a: Action): (r: Option<State>)
    ensures r.None? <==> !Known(a.kind)
  {
    if a.kind == FetchInit then Some(State(true, false, Null, Null))
    else if a.kind == FetchSuccess then Some(State(false, false, Null, a.payload))
    else if a.kind == FetchFailure then Some(State(false, true, a.payload, Null))
    else if a.kind == ResetKind then Some(State(false, false, Null, if Truthy(a.payload) then a.payload else Null))
    else None
  }

  /** What each known action type sets: FETCH_INIT starts loading and clears
      error and data; FETCH_SUCCESS stores the payload as data; FETCH_FAILURE
      stores the payload as the error and clears the data. */
  lemma ReduceEffects(s: State, payload: Value)
    ensures Reduce(s, Action(FetchInit, payload)) == Some(State(true, false, Null, Null))
    ensures Reduce(s, Action(FetchSuccess, payload)) == Some(State(false, false, Null, payload))
    ensures Reduce(s, Action(FetchFailure, payload)) == Some(State(false, true, payload, Null))
  {
  }

  /** The action `reset(resetData)` dispatches; an omitted (undefined) argument defaults to null. */
  function ResetAction(resetData: Value): (a: Action)
    ensures a.kind == ResetKind && a.payload != Undefined
    ensures resetData != Undefined ==> a.payload == resetData
  {
    Action(ResetKind, if resetData == Undefined then Null else resetData)
  }

  /** Dispatching the actions in order; `None` once one of them throws. */
  function Run(s: State, actions: seq<Action>): (r: Option<State>)
    ensures r.Some? <==> forall i :: 0 <= i < |actions| ==> Known(actions[i].kind)
    decreases |actions|
  {
    if actions == [] then Some(s)
    else
      assert forall i :: 1 <= i < |actions| ==> actions[i] == actions[1..][i - 1];
      match Reduce(s, actions[0])
      case None => None
      case Some(t) => Run(t, actions[1..])
  }

  /** A request in flight is never also an error, and an error carries no data. */
  predicate Consistent(s: State) {
    !(s.isLoading && s.isError) && (s.isError ==> s.data == Null)
  }

  /** Each action sets all four fields afresh, so the reducer's result is
      consistent whatever state it starts from. */
  lemma ReduceConsistent(s: State, a: Action)
    ensures Reduce(s, a).Some? ==> Consistent(Reduce(s, a).value)
  {
  }

  /** From the initial state, over any sequence of dispatched actions, every
      state the reducer reaches is consistent. */
  lemma {:induction false} RunConsistent(s: State, actions: seq<Action>)
    requires Consistent(s)
    ensures Run(s, actions).Some? ==> Consistent(Run(s, actions).value)
    decreases |actions|
  {
    if actions != [] {
      ReduceConsistent(s, actions[0]);
      if Reduce(s, actions[0]).Some? {
        RunConsistent(Reduce(s, actions[0]).value, actions[1..]);
      }
    }
  }

  lemma InitialConsistent(initialData: Value, actions: seq<Action>)
    ensures Run(Initial(initialData), actions).Some? ==> Consistent(Run(Initial(initialData), actions).value)
  {
    RunConsistent(Initial(initialData), actions);
  }

  /** `reset()` clears loading and error and sets the data to the truthy
      payload given, or to null. */
  lemma ResetClears(s: State, resetData: Value)
    ensures Reduce(s, ResetAction(resetData)) ==
      Some(State(false, false, Null, if Truthy(resetData) then resetData else Null))
  {
  }

  // ---------------------------------------------------------------------
  // One request

  /** How the request ended: with a response body, or with an error that may
      carry a response (whose body is `response.value`) and has a message. */
  datatype RequestOutcome = Responded(body: Value) | Failed(response: Option<Value>, message: Value)

  /** The actions `fetchData` dispatches for `url` when the request ends with `outcome`. */
  function FetchActions(url: string, outcome: RequestOutcome): (r: seq<Action>)
    ensures url == "" <==> r == []
  {
    if url == "" then []
    else match outcome
      case Responded(body) => [Action(FetchInit, Undefined), Action(FetchSuccess, body)]
      case Failed(response, message) =>
        [Action(FetchInit, Undefined), Action(FetchFailure, if response.Some? then response.value else message)]
  }

  /** An empty url leaves the state as it is; otherwise the request ends
      settled: success stores the body, failure stores the response body if
      there was a response and the message otherwise, and clears the data. */
  lemma FetchSettles(s: State, url: string, outcome: RequestOutcome)
    ensures var r := Run(s, FetchActions(url, outcome));
      && r.Some?
      && (url == "" ==> r.value == s)
      && (url != "" && outcome.Responded? ==> r.value == State(false, false, Null, outcome.body))
      && (url != "" && outcome.Failed? ==>
            r.value == State(false, true, if outcome.response.Some? then outcome.response.value else outcome.message, Null))
  {
    var acts := FetchActions(url, outcome);
    if url != "" {
      var loading := State(true, false, Null, Null);
      assert Reduce(s, acts[0]) == Some(loading);
      assert Run(s, acts) == Run(loading, acts[1..]);
      assert acts[1..][1..] == [];
      assert Run(loading, acts[1..]) == Run(Reduce(loading, acts[1]).value, []);
    }
  }
}
