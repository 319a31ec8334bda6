/** The plain state machine `StateMachine<T>`: one current state, a timer that
    restarts on every assignment, and the DEBUG guard that refuses an assignment
    made from inside OnExit, OnEnter or the stateChanged event.

    States are opaque ids; `None` is a null state. The states' callbacks and the
    stateChanged handlers are user code: a `Behaviour` says, for the n-th entry of
    the trace and the call being made, whether that code returns, throws, or
    itself assigns a new current state (which runs the real setter again). */
module StateMachines {
  import opened Wrappers

  type StateId = nat

  /** A call from the machine into user code. */
  datatype Call =
    | OnExitCall(state: StateId)
    | OnEnterCall(state: StateId)
    | OnUpdateCall(state: StateId, deltaTime: real)
    | StateChangedCall(previous: Option<StateId>, current: Option<StateId>)

  /** A traced call, with the value of the state timer the callee observes. */
  datatype Entry = Entry(call: Call, time: real)

  /** What the called user code does. */
  datatype Reaction = Returns | Throws | Assigns(state: Option<StateId>)

  type Behaviour = (nat, Call) -> Reaction

  const ReentrantMessage := "Shouldn't change state inside OnExit, OnEnter or stateChanged event!"

  /** The machine's fields as a value: current state, timer, DEBUG guard, trace of calls. */
  datatype Machine = Machine(current: Option<StateId>, time: real, busy: bool, trace: seq<Entry>)

  ghost predicate Quiet(react: Behaviour) {
    forall n: nat, c: Call :: react(n, c) == Returns
  }

  /** The `currentState` setter. */
  function Assign(m: Machine, v: Option<StateId>, react: Behaviour): (Machine, Outcome)
    decreases if m.busy then 0 else 2
  {
    if m.busy then (m, Fail(Thrown(ReentrantMessage)))
    else
      var m1 := m.(busy := true);
      var (m2, o2) := if m.current.Some? then Hook(m1, OnExitCall(m.current.value), react) else (m1, Done);
      if o2.Fail? then (m2, o2)
      else
        var m3 := m2.(current := v, time := 0.0);
        var (m4, o4) := if v.Some? then Hook(m3, OnEnterCall(v.value), react) else (m3, Done);
        if o4.Fail? then (m4, o4)
        else
          var (m5, o5) := Hook(m4, StateChangedCall(m.current, v), react);
          if o5.Fail? then (m5, o5) else (m5.(busy := false), Done)
  }

  /** A call into user code made while the guard is set: it is traced, and an
      assignment the user code attempts throws and changes nothing else. */
  function Hook(m: Machine, c: Call, react: Behaviour): (r: (Machine, Outcome))
    requires m.busy
    ensures r.0 == m.(trace := m.trace + [Entry(c, m.time)])
    ensures r.1 == match react(|m.trace|, c)
                   case Returns => Done
                   case Throws => Fail(HookFailure)
                   case Assigns(_) => Fail(Thrown(ReentrantMessage))
    decreases 1
  {
    var m' := m.(trace := m.trace + [Entry(c, m.time)]);
    match react(|m.trace|, c)
    case Returns => (m', Done)
    case Throws => (m', Fail(HookFailure))
    case Assigns(s) => Assign(m', s, react)
  }

  /** `OnUpdate(deltaTime)`. */
  function Update(m: Machine, dt: real, react: Behaviour): (Machine, Outcome)
  {
    var m1 := m.(time := m.time + dt);
    if m1.current.None? then (m1, Done)
    else
      var c := OnUpdateCall(m1.current.value, dt);
      var m2 := m1.(trace := m1.trace + [Entry(c, m1.time)]);
      match react(|m1.trace|, c)
      case Returns => (m2, Done)
      case Throws => (m2, Fail(HookFailure))
      case Assigns(s) => Assign(m2, s, react)
  }

  /** The trace entries one undisturbed assignment of `v` appends. */
  function QuietCalls(m: Machine, v: Option<StateId>): seq<Entry> {
    (if m.current.Some? then [Entry(OnExitCall(m.current.value), m.time)] else [])
    + (if v.Some? then [Entry(OnEnterCall(v.value), 0.0)] else [])
    + [Entry(StateChangedCall(m.current, v), 0.0)]
  }

  /** When no user code interferes, an assignment exits the old state (seeing
      its elapsed time), then enters the new one with the timer at zero, then
      notifies (previous, current); the guard is released. */
  lemma {:induction false} QuietAssignment(m: Machine, v: Option<StateId>, react: Behaviour)
    requires !m.busy && Quiet(react)
    ensures Assign(m, v, react) == (Machine(v, 0.0, false, m.trace + QuietCalls(m, v)), Done)
  {
    var m1 := m.(busy := true);
    var m2 := if m.current.Some? then m1.(trace := m1.trace + [Entry(OnExitCall(m.current.value), m.time)]) else m1;
    if m.current.Some? {
      assert react(|m.trace|, OnExitCall(m.current.value)) == Returns;
    }
    var m3 := m2.(current := v, time := 0.0);
    var m4 := if v.Some? then m3.(trace := m3.trace + [Entry(OnEnterCall(v.value), 0.0)]) else m3;
    if v.Some? {
      assert react(|m3.trace|, OnEnterCall(v.value)) == Returns;
    }
    assert react(|m4.trace|, StateChangedCall(m.current, v)) == Returns;
    assert m4.trace + [Entry(StateChangedCall(m.current, v), 0.0)] == m.trace + QuietCalls(m, v);
  }

  /** Whatever the user code does, an assignment only appends to the trace;
      an assignment that throws leaves the guard set (there is no finally
      block), and from then on every assignment throws without changing
      anything. */
  lemma {:induction false} FailureLeavesGuardSet(m: Machine, v: Option<StateId>, react: Behaviour)
    ensures m.trace <= Assign(m, v, react).0.trace
    ensures Assign(m, v, react).1.Fail? ==> Assign(m, v, react).0.busy
    ensures Assign(m, v, react).1.Fail? ==>
      forall w, r :: Assign(Assign(m, v, react).0, w, r) == (Assign(m, v, react).0, Fail(Thrown(ReentrantMessage)))
  {
  }

  /** A state that assigns another state from its OnEnter does not get its way:
      the nested assignment throws, the outer one stops with the new state
      current but without notifying stateChanged, and the guard stays set. */
  lemma {:induction false} AssignFromOnEnterThrows(m: Machine, v: StateId, w: Option<StateId>, react: Behaviour)
    requires !m.busy && m.current.None?
    requires react(|m.trace|, OnEnterCall(v)) == Assigns(w)
    ensures Assign(m, Some(v), react) ==
      (Machine(Some(v), 0.0, true, m.trace + [Entry(OnEnterCall(v), 0.0)]), Fail(Thrown(ReentrantMessage)))
  {
  }

  /** Updating advances the timer by `dt` before the current state's OnUpdate
      sees it; a state that assigns a successor from OnUpdate performs a full
      transition, since the guard only covers assignments. */
  lemma {:induction false} UpdateThenAssign(m: Machine, s: StateId, dt: real, w: Option<StateId>, react: Behaviour)
    requires !m.busy && m.current == Some(s)
    requires react(|m.trace|, OnUpdateCall(s, dt)) == Assigns(w)
    requires forall n: nat, c: Call :: n > |m.trace| ==> react(n, c) == Returns
    ensures Update(m, dt, react).1 == Done
    ensures Update(m, dt, react).0 ==
      Machine(w, 0.0, false,
              m.trace + [Entry(OnUpdateCall(s, dt), m.time + dt)]
              + QuietCalls(m.(time := m.time + dt), w))
  {
    var m2 := m.(time := m.time + dt, trace := m.trace + [Entry(OnUpdateCall(s, dt), m.time + dt)]);
    var n := |m2.trace|;
    assert react(n, OnExitCall(s)) == Returns;
    assert react(n + 1, OnEnterCall(if w.Some? then w.value else 0)) == Returns;
    assert react(n + 1 + (if w.Some? then 1 else 0), StateChangedCall(Some(s), w)) == Returns;
  }

  class StateMachine {
    var current: Option<StateId>
    var currentStateTime: real
    var duringSetting: bool
    var trace: seq<Entry>

    function Snapshot(): Machine
      reads this
    {
      Machine(current, currentStateTime, duringSetting, trace)
    }

    constructor ()
      ensures Snapshot() == Machine(None, 0.0, false, [])
    {
      current := None;
      currentStateTime := 0.0;
      duringSetting := false;
      trace := [];
    }

    /** The `currentState` setter. */
    method SetCurrentState(v: Option<StateId>, react: Behaviour) returns (outcome: Outcome)
      modifies this
      ensures (Snapshot(), outcome) == Assign(old(Snapshot()), v, react)
      decreases if duringSetting then 0 else 2
    {
      if duringSetting {
        return Fail(Thrown(ReentrantMessage));
      }
      duringSetting := true;
      var previous := current;
      if current.Some? {
        outcome := CallUserCode(OnExitCall(current.value), react);
        if outcome.Fail? { return; }
      }
      current := v;
      currentStateTime := 0.0;
      if current.Some? {
        outcome := CallUserCode(OnEnterCall(current.value), react);
        if outcome.Fail? { return; }
      }
      outcome := CallUserCode(StateChangedCall(previous, current), react);
      if outcome.Fail? { return; }
      duringSetting := false;
    }

    /** Calls a state's OnExit/OnEnter or the stateChanged handlers. */
    method CallUserCode(c: Call, react: Behaviour) returns (outcome: Outcome)
      requires duringSetting
      modifies this
      ensures (Snapshot(), outcome) == Hook(old(Snapshot()), c, react)
      decreases 1
    {
      var reaction := react(|trace|, c);
      trace := trace + [Entry(c, currentStateTime)];
      match reaction
      case Returns => outcome := Done;
      case Throws => outcome := Fail(HookFailure);
      case Assigns(s) => outcome := SetCurrentState(s, react);
    }

    /** `OnUpdate(deltaTime)`: advance the timer, then forward to the current state. */
    method OnUpdate(dt: real, react: Behaviour) returns (outcome: Outcome)
      modifies this
      ensures (Snapshot(), outcome) == Update(old(Snapshot()), dt, react)
    {
      currentStateTime := currentStateTime + dt;
      outcome := Done;
      if current.Some? {
        var c := OnUpdateCall(current.value, dt);
        var reaction := react(|trace|, c);
        trace := trace + [Entry(c, currentStateTime)];
        match reaction
        case Returns =>
        case Throws => outcome := Fail(HookFailure);
        case Assigns(s) => outcome := SetCurrentState(s, react);
      }
    }

    /** The machine's own OnEnter and OnExit, used when it is a sub-state of
        another machine, do nothing. */
    method OnEnter()
      ensures unchanged(this)
    {
    }

    method OnExit()
      ensures unchanged(this)
    {
    }
  }
}
