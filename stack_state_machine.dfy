/** `StackStateMachine<T>`: a stack of states whose top is current. Every push
    or pop tells the states involved which stack action moved them, restarts
    the state timer, and calls the machine's own OnStatePushed/OnStatePopped;
    the DEBUG guard refuses a push or pop made from inside any of these calls.

    States are opaque ids and `None` is a null entry (null entries are stored
    but receive no calls). User code is described by a `Behaviour`: for the n-th
    trace entry and the call being made, it returns, throws, or requests a
    nested push or pop (which runs the real method again). */
module StackStateMachines {
  import opened Wrappers

  type StateId = nat

  datatype StackAction = Push | Pop

  /** A call from the machine into user code. */
  datatype Call =
    | OnExitCall(state: StateId, action: StackAction)
    | OnEnterCall(state: StateId, action: StackAction)
    | OnUpdateCall(state: StateId, deltaTime: real)
    | OnStatePushedCall(pushed: Option<StateId>)
    | OnStatePoppedCall(popped: Option<StateId>)

  /** A traced call, with the value of the state timer the callee observes. */
  datatype Entry = Entry(call: Call, time: real)

  datatype Request = PushRequest(state: Option<StateId>) | PopRequest

  /** What the called user code does. */
  datatype Reaction = Returns | Throws | Requests(request: Request)

  type Behaviour = (nat, Call) -> Reaction

  const PushReentrantMessage := "Shouldn't change state inside OnExit, OnEnter or OnStatePushed event!"
  const PopReentrantMessage := "Shouldn't change state inside OnExit, OnEnter or OnStatePopped event!"

  /** The machine's fields as a value: the stack (top last), the timer, the
      DEBUG guard and the trace of calls into user code. */
  datatype Machine = Machine(states: seq<Option<StateId>>, time: real, busy: bool, trace: seq<Entry>)

  ghost predicate Quiet(react: Behaviour) {
    forall n: nat, c: Call :: react(n, c) == Returns
  }

  /** The current state, i.e. the top of a non-empty stack. */
  function Top(m: Machine): Option<StateId>
    requires |m.states| > 0
  {
    m.states[|m.states| - 1]
  }

  /** The `currentState` getter: the list indexer throws on an empty stack. */
  function CurrentState(m: Machine): (r: Result<Option<StateId>>)
    ensures r.Ok? <==> |m.states| > 0
    ensures r.Ok? ==> r.value == m.states[|m.states| - 1]
  {
    if |m.states| == 0 then Err(ArgumentOutOfRange) else Ok(m.states[|m.states| - 1])
  }

  /** The `underState` getter: the state just below the top. */
  function UnderState(m: Machine): (r: Result<Option<StateId>>)
    ensures r.Ok? <==> |m.states| >= 2
    ensures r.Ok? ==> r.value == m.states[|m.states| - 2]
  {
    if |m.states| < 2 then Err(ArgumentOutOfRange) else Ok(m.states[|m.states| - 2])
  }

  /** `GetState(index)`: index 0 is the bottom of the stack. */
  function GetState(m: Machine, index: int): (r: Result<Option<StateId>>)
    ensures r.Ok? <==> 0 <= index < |m.states|
    ensures r.Ok? ==> r.value == m.states[index]
  {
    if 0 <= index < |m.states| then Ok(m.states[index]) else Err(ArgumentOutOfRange)
  }

  /** `PushState(newState)`. */
  function PushStep(m: Machine, s: Option<StateId>, react: Behaviour): (Machine, Outcome)
    decreases if m.busy then 0 else 2
  {
    if m.busy then (m, Fail(Thrown(PushReentrantMessage)))
    else
      var m1 := m.(busy := true);
      var (m2, o2) := if |m.states| > 0 && Top(m).Some? then Hook(m1, OnExitCall(Top(m).value, Push), react) else (m1, Done);
      if o2.Fail? then (m2, o2)
      else
        var m3 := m2.(time := 0.0, states := m2.states + [s]);
        var (m4, o4) := if s.Some? then Hook(m3, OnEnterCall(s.value, Push), react) else (m3, Done);
        if o4.Fail? then (m4, o4)
        else
          var (m5, o5) := Hook(m4, OnStatePushedCall(s), react);
          if o5.Fail? then (m5, o5) else (m5.(busy := false), Done)
  }

  /** `PopState()`. On an empty stack the getter of the current state throws
      after the guard has been set. */
  function PopStep(m: Machine, react: Behaviour): (Machine, Outcome)
    decreases if m.busy then 0 else 2
  {
    if m.busy then (m, Fail(Thrown(PopReentrantMessage)))
    else
      var m1 := m.(busy := true);
      if |m.states| == 0 then (m1, Fail(ArgumentOutOfRange))
      else
        var original := Top(m);
        var (m2, o2) := if original.Some? then Hook(m1, OnExitCall(original.value, Pop), react) else (m1, Done);
        if o2.Fail? then (m2, o2)
        else
          var m3 := m2.(states := m2.states[..|m2.states| - 1], time := 0.0);
          var (m4, o4) := if |m3.states| > 0 && Top(m3).Some? then Hook(m3, OnEnterCall(Top(m3).value, Pop), react) else (m3, Done);
          if o4.Fail? then (m4, o4)
          else
            var (m5, o5) := Hook(m4, OnStatePoppedCall(original), react);
            if o5.Fail? then (m5, o5) else (m5.(busy := false), Done)
  }

  /** A call into user code made while the guard is set: it is traced, and a
      push or pop the user code attempts throws and changes nothing else. */
  function Hook(m: Machine, c: Call, react: Behaviour): (r: (Machine, Outcome))
    requires m.busy
    ensures r.0 == m.(trace := m.trace + [Entry(c, m.time)])
    ensures r.1 == match react(|m.trace|, c)
                   case Returns => Done
                   case Throws => Fail(HookFailure)
                   case Requests(PushRequest(_)) => Fail(Thrown(PushReentrantMessage))
                   case Requests(PopRequest) => Fail(Thrown(PopReentrantMessage))
    decreases 1
  {
    var m' := m.(trace := m.trace + [Entry(c, m.time)]);
    match react(|m.trace|, c)
    case Returns => (m', Done)
    case Throws => (m', Fail(HookFailure))
    case Requests(PushRequest(s)) => PushStep(m', s, react)
    case Requests(PopRequest) => PopStep(m', react)
  }

  /** `PopStates(count)`: pop until `count` pops were made; stops at the first exception. */
  function PopSteps(m: Machine, count: int, react: Behaviour): (Machine, Outcome)
    decreases count
  {
    if count <= 0 then (m, Done)
    else
      var (m1, o1) := PopStep(m, react);
      if o1.Fail? then (m1, o1) else PopSteps(m1, count - 1, react)
  }

  /** `OnUpdate(deltaTime)`: advance the timer, then forward to the current state. */
  function Update(m: Machine, dt: real, react: Behaviour): (Machine, Outcome)
  {
    var m1 := m.(time := m.time + dt);
    if |m1.states| == 0 || Top(m1).None? then (m1, Done)
    else
      var c := OnUpdateCall(Top(m1).value, dt);
      var m2 := m1.(trace := m1.trace + [Entry(c, m1.time)]);
      match react(|m1.trace|, c)
      case Returns => (m2, Done)
      case Throws => (m2, Fail(HookFailure))
      case Requests(PushRequest(s)) => PushStep(m2, s, react)
      case Requests(PopRequest) => PopStep(m2, react)
  }

  /** The calls an undisturbed push of `s` makes. */
  function PushCalls(m: Machine, s: Option<StateId>): seq<Entry> {
    (if |m.states| > 0 && Top(m).Some? then [Entry(OnExitCall(Top(m).value, Push), m.time)] else [])
    + (if s.Some? then [Entry(OnEnterCall(s.value, Push), 0.0)] else [])
    + [Entry(OnStatePushedCall(s), 0.0)]
  }

  /** The calls an undisturbed pop of a non-empty stack makes. */
  function PopCalls(m: Machine): seq<Entry>
    requires |m.states| > 0
  {
    var rest := m.states[..|m.states| - 1];
    (if Top(m).Some? then [Entry(OnExitCall(Top(m).value, Pop), m.time)] else [])
    + (if |rest| > 0 && rest[|rest| - 1].Some? then [Entry(OnEnterCall(rest[|rest| - 1].value, Pop), 0.0)] else [])
    + [Entry(OnStatePoppedCall(Top(m)), 0.0)]
  }

  /** An undisturbed push: the old top is told it was covered by a push (seeing
      its elapsed time), the new state is told it entered by a push with the
      timer at zero, then OnStatePushed runs; the guard is released. */
  lemma {:induction false} QuietPush(m: Machine, s: Option<StateId>, react: Behaviour)
    requires !m.busy && Quiet(react)
    ensures PushStep(m, s, react) == (Machine(m.states + [s], 0.0, false, m.trace + PushCalls(m, s)), Done)
  {
    var m1 := m.(busy := true);
    var m2 := if |m.states| > 0 && Top(m).Some? then m1.(trace := m1.trace + [Entry(OnExitCall(Top(m).value, Push), m.time)]) else m1;
    if |m.states| > 0 && Top(m).Some? {
      assert react(|m.trace|, OnExitCall(Top(m).value, Push)) == Returns;
    }
    var m3 := m2.(time := 0.0, states := m2.states + [s]);
    var m4 := if s.Some? then m3.(trace := m3.trace + [Entry(OnEnterCall(s.value, Push), 0.0)]) else m3;
    if s.Some? {
      assert react(|m3.trace|, OnEnterCall(s.value, Push)) == Returns;
    }
    assert react(|m4.trace|, OnStatePushedCall(s)) == Returns;
    assert m4.trace + [Entry(OnStatePushedCall(s), 0.0)] == m.trace + PushCalls(m, s);
  }

  /** An undisturbed pop: the top is told it left by a pop, the state below
      (now current) is told it was uncovered by a pop with the timer at zero,
      then OnStatePopped receives the removed state. */
  lemma {:induction false} QuietPop(m: Machine, react: Behaviour)
    requires !m.busy && Quiet(react) && |m.states| > 0
    ensures PopStep(m, react) == (Machine(m.states[..|m.states| - 1], 0.0, false, m.trace + PopCalls(m)), Done)
  {
    var m1 := m.(busy := true);
    var original := Top(m);
    var m2 := if original.Some? then m1.(trace := m1.trace + [Entry(OnExitCall(original.value, Pop), m.time)]) else m1;
    if original.Some? {
      assert react(|m.trace|, OnExitCall(original.value, Pop)) == Returns;
    }
    var m3 := m2.(states := m2.states[..|m2.states| - 1], time := 0.0);
    var m4 := if |m3.states| > 0 && Top(m3).Some? then m3.(trace := m3.trace + [Entry(OnEnterCall(Top(m3).value, Pop), 0.0)]) else m3;
    if |m3.states| > 0 && Top(m3).Some? {
      assert react(|m3.trace|, OnEnterCall(Top(m3).value, Pop)) == Returns;
    }
    assert react(|m4.trace|, OnStatePoppedCall(original)) == Returns;
    assert m4.trace + [Entry(OnStatePoppedCall(original), 0.0)] == m.trace + PopCalls(m);
  }

  /** Popping right after an undisturbed push restores the stack. */
  lemma {:induction false} PushThenPopRestores(m: Machine, s: Option<StateId>, react: Behaviour)
    requires !m.busy && Quiet(react)
    ensures PushStep(m, s, react).1 == Done
    ensures PopStep(PushStep(m, s, react).0, react).1 == Done
    ensures PopStep(PushStep(m, s, react).0, react).0.states == m.states
  {
    QuietPush(m, s, react);
    var m1 := PushStep(m, s, react).0;
    QuietPop(m1, react);
    assert m1.states[..|m1.states| - 1] == m.states;
  }

  /** A pop on an empty stack throws and leaves the guard set, so every later
      push or pop throws the reentrancy exception without changing anything. */
  lemma {:induction false} PopEmptyLeavesGuardSet(m: Machine, react: Behaviour)
    requires !m.busy && |m.states| == 0
    ensures PopStep(m, react) == (m.(busy := true), Fail(ArgumentOutOfRange))
    ensures forall s, r :: PushStep(m.(busy := true), s, r) == (m.(busy := true), Fail(Thrown(PushReentrantMessage)))
    ensures forall r :: PopStep(m.(busy := true), r) == (m.(busy := true), Fail(Thrown(PopReentrantMessage)))
  {
  }

  /** A push that throws leaves the guard set; a push only appends to the trace. */
  lemma {:induction false} PushFailureLeavesGuardSet(m: Machine, s: Option<StateId>, react: Behaviour)
    ensures m.trace <= PushStep(m, s, react).0.trace
    ensures PushStep(m, s, react).1.Fail? ==> PushStep(m, s, react).0.busy
  {
  }

  /** A pop that throws leaves the guard set; a pop only appends to the trace. */
  lemma {:induction false} PopFailureLeavesGuardSet(m: Machine, react: Behaviour)
    ensures m.trace <= PopStep(m, react).0.trace
    ensures PopStep(m, react).1.Fail? ==> PopStep(m, react).0.busy
  {
  }

  /** Without interference, `PopSteps(count)` removes the top `count` states;
      asking for more than the stack holds empties it and then throws, leaving
      the guard set. */
  lemma QuietPopStates(m: Machine, count: int, react: Behaviour)
    requires !m.busy && Quiet(react)
    ensures var r := PopSteps(m, count, react);
      && (count <= |m.states| ==> r.1 == Done && !r.0.busy && r.0.states == m.states[..|m.states| - if count < 0 then 0 else count])
      && (count > |m.states| ==> r.1 == Fail(ArgumentOutOfRange) && r.0.busy && r.0.states == [])
  {
    if count <= |m.states| {
      PopStatesWithin(m, count, react);
    } else {
      PopStatesBeyond(m, count, react);
    }
  }

  lemma {:induction false} PopStatesWithin(m: Machine, count: int, react: Behaviour)
    requires !m.busy && Quiet(react) && count <= |m.states|
    ensures var r := PopSteps(m, count, react);
      && r.1 == Done && !r.0.busy
      && r.0.states == m.states[..|m.states| - if count < 0 then 0 else count]
    decreases count
  {
    if count <= 0 {
      assert PopSteps(m, count, react) == (m, Done);
      assert m.states[..|m.states|] == m.states;
    } else {
      var m1 := Machine(m.states[..|m.states| - 1], 0.0, false, m.trace + PopCalls(m));
      QuietPopSteps(m, count, react);
      PopStatesWithin(m1, count - 1, react);
      assert m.states[..|m.states| - 1][..|m1.states| - (count - 1)] == m.states[..|m.states| - count];
    }
  }

  lemma {:induction false} PopStatesBeyond(m: Machine, count: int, react: Behaviour)
    requires !m.busy && Quiet(react) && count > |m.states|
    ensures var r := PopSteps(m, count, react);
      && r.1 == Fail(ArgumentOutOfRange) && r.0.busy && r.0.states == []
    decreases count
  {
    if |m.states| == 0 {
      EmptyPopSteps(m, count, react);
    } else {
      var m1 := Machine(m.states[..|m.states| - 1], 0.0, false, m.trace + PopCalls(m));
      QuietPopSteps(m, count, react);
      PopStatesBeyond(m1, count - 1, react);
    }
  }

  /** Popping from an empty stack throws at once, with the guard left set. */
  lemma EmptyPopSteps(m: Machine, count: int, react: Behaviour)
    requires !m.busy && |m.states| == 0 && count > 0
    ensures PopSteps(m, count, react) == (m.(busy := true), Fail(ArgumentOutOfRange))
  {
  }

  /** One undisturbed pop, then the remaining `count - 1`. */
  lemma QuietPopSteps(m: Machine, count: int, react: Behaviour)
    requires !m.busy && Quiet(react) && |m.states| > 0 && count > 0
    ensures PopSteps(m, count, react) == PopSteps(Machine(m.states[..|m.states| - 1], 0.0, false, m.trace + PopCalls(m)), count - 1, react)
  {
    QuietPop(m, react);
  }

  // ---------------------------------------------------------------------
  // The stack-action tags as a UI uses them (the UIState sample): a state
  // entered by a push is shown, a state exited by a pop is hidden, a state
  // exited by a push (covered) stops being interactive and a state entered by
  // a pop (uncovered) becomes interactive again.

  /** Whether the calls in `t` leave `s` shown. */
  function Shown(t: seq<Entry>, s: StateId): bool {
    if t == [] then false
    else
      var c := t[|t| - 1].call;
      if c == OnEnterCall(s, Push) then true
      else if c == OnExitCall(s, Pop) then false
      else Shown(t[..|t| - 1], s)
  }

  /** Whether the calls in `t` leave `s` interactive (it starts interactive). */
  function Interactive(t: seq<Entry>, s: StateId): bool {
    if t == [] then true
    else
      var c := t[|t| - 1].call;
      if c == OnExitCall(s, Push) then false
      else if c == OnEnterCall(s, Pop) then true
      else Interactive(t[..|t| - 1], s)
  }

  /** The states below the top. */
  function Below(states: seq<Option<StateId>>): seq<Option<StateId>> {
    if states == [] then [] else states[..|states| - 1]
  }

  /** The stack holds distinct non-null states, exactly the states on the stack
      are shown, and exactly the ones below the top are not interactive. */
  ghost predicate UiConsistent(m: Machine) {
    && !m.busy
    && (forall i :: 0 <= i < |m.states| ==> m.states[i].Some?)
    && (forall i, j :: 0 <= i < j < |m.states| ==> m.states[i] != m.states[j])
    && (forall s: StateId :: Shown(m.trace, s) <==> Some(s) in m.states)
    && (forall s: StateId :: Interactive(m.trace, s) <==> Some(s) !in Below(m.states))
  }

  lemma {:induction false} ShownSnoc(t: seq<Entry>, e: Entry, s: StateId)
    ensures Shown(t + [e], s) ==
      if e.call == OnEnterCall(s, Push) then true
      else if e.call == OnExitCall(s, Pop) then false
      else Shown(t, s)
  {
    assert (t + [e])[..|t|] == t;
  }

  lemma {:induction false} InteractiveSnoc(t: seq<Entry>, e: Entry, s: StateId)
    ensures Interactive(t + [e], s) ==
      if e.call == OnExitCall(s, Push) then false
      else if e.call == OnEnterCall(s, Pop) then true
      else Interactive(t, s)
  {
    assert (t + [e])[..|t|] == t;
  }

  /** The trace an undisturbed push of `s` appends, call by call. */
  lemma {:induction false} PushCallsAre(t: seq<Entry>, states: seq<Option<StateId>>, s: StateId, time: real)
    requires |states| > 0 ==> states[|states| - 1].Some?
    ensures var m := Machine(states, time, false, t);
      var enterE := Entry(OnEnterCall(s, Push), 0.0);
      var pushedE := Entry(OnStatePushedCall(Some(s)), 0.0);
      t + PushCalls(m, Some(s)) ==
        if |states| > 0 then t + [Entry(OnExitCall(states[|states| - 1].value, Push), time)] + [enterE] + [pushedE]
        else t + [enterE] + [pushedE]
  {
  }

  /** After an undisturbed push, exactly the states on the stack are shown. */
  lemma {:induction false} PushShownAt(t: seq<Entry>, states: seq<Option<StateId>>, s: StateId, time: real, x: StateId)
    requires |states| > 0 ==> states[|states| - 1].Some?
    requires Shown(t, x) <==> Some(x) in states
    ensures Shown(t + PushCalls(Machine(states, time, false, t), Some(s)), x) <==> Some(x) in states + [Some(s)]
  {
    PushCallsAre(t, states, s, time);
    var enterE := Entry(OnEnterCall(s, Push), 0.0);
    var pushedE := Entry(OnStatePushedCall(Some(s)), 0.0);
    if |states| > 0 {
      var exitE := Entry(OnExitCall(states[|states| - 1].value, Push), time);
      ShownSnoc(t + [exitE] + [enterE], pushedE, x);
      ShownSnoc(t + [exitE], enterE, x);
      ShownSnoc(t, exitE, x);
    } else {
      ShownSnoc(t + [enterE], pushedE, x);
      ShownSnoc(t, enterE, x);
    }
  }

  /** After an undisturbed push, exactly the states below the new top are not interactive. */
  lemma {:induction false} PushInteractiveAt(t: seq<Entry>, states: seq<Option<StateId>>, s: StateId, time: real, x: StateId)
    requires Some(s) !in states
    requires |states| > 0 ==> states[|states| - 1].Some?
    requires Interactive(t, x) <==> Some(x) !in Below(states)
    ensures Interactive(t + PushCalls(Machine(states, time, false, t), Some(s)), x) <==> Some(x) !in states
  {
    PushCallsAre(t, states, s, time);
    var enterE := Entry(OnEnterCall(s, Push), 0.0);
    var pushedE := Entry(OnStatePushedCall(Some(s)), 0.0);
    if |states| > 0 {
      var exitE := Entry(OnExitCall(states[|states| - 1].value, Push), time);
      InteractiveSnoc(t + [exitE] + [enterE], pushedE, x);
      InteractiveSnoc(t + [exitE], enterE, x);
      InteractiveSnoc(t, exitE, x);
      assert states == Below(states) + [states[|states| - 1]];
    } else {
      InteractiveSnoc(t + [enterE], pushedE, x);
      InteractiveSnoc(t, enterE, x);
    }
  }

  lemma {:induction false} PushCallsKeepUiConsistent(m: Machine, s: StateId, m': Machine)
    requires UiConsistent(m) && Some(s) !in m.states
    requires m' == Machine(m.states + [Some(s)], 0.0, false, m.trace + PushCalls(m, Some(s)))
    ensures UiConsistent(m')
  {
    assert Below(m'.states) == m.states;
    forall x: StateId ensures Shown(m'.trace, x) <==> Some(x) in m'.states {
      PushShownAt(m.trace, m.states, s, m.time, x);
    }
    forall x: StateId ensures Interactive(m'.trace, x) <==> Some(x) !in Below(m'.states) {
      PushInteractiveAt(m.trace, m.states, s, m.time, x);
    }
  }

  /** An undisturbed push of a state not on the stack keeps the UI consistent. */
  lemma {:induction false} PushKeepsUiConsistent(m: Machine, s: StateId, react: Behaviour)
    requires UiConsistent(m) && Quiet(react) && Some(s) !in m.states
    ensures PushStep(m, Some(s), react).1 == Done
    ensures UiConsistent(PushStep(m, Some(s), react).0)
  {
    QuietPush(m, Some(s), react);
    PushCallsKeepUiConsistent(m, s, PushStep(m, Some(s), react).0);
  }

  /** The trace an undisturbed pop of `top` from above `rest` appends, call by call. */
  lemma {:induction false} PopCallsAre(t: seq<Entry>, rest: seq<Option<StateId>>, top: StateId, time: real)
    ensures var m := Machine(rest + [Some(top)], time, false, t);
      var exitE := Entry(OnExitCall(top, Pop), time);
      var poppedE := Entry(OnStatePoppedCall(Some(top)), 0.0);
      t + PopCalls(m) ==
        if |rest| > 0 && rest[|rest| - 1].Some? then t + [exitE] + [Entry(OnEnterCall(rest[|rest| - 1].value, Pop), 0.0)] + [poppedE]
        else t + [exitE] + [poppedE]
  {
    var m := Machine(rest + [Some(top)], time, false, t);
    assert m.states[..|m.states| - 1] == rest;
  }

  /** After an undisturbed pop, exactly the states left on the stack are shown. */
  lemma {:induction false} PopShownAt(t: seq<Entry>, rest: seq<Option<StateId>>, top: StateId, time: real, x: StateId)
    requires Some(top) !in rest
    requires |rest| > 0 ==> rest[|rest| - 1].Some?
    requires Shown(t, x) <==> Some(x) in rest + [Some(top)]
    ensures Shown(t + PopCalls(Machine(rest + [Some(top)], time, false, t)), x) <==> Some(x) in rest
  {
    PopCallsAre(t, rest, top, time);
    var exitE := Entry(OnExitCall(top, Pop), time);
    var poppedE := Entry(OnStatePoppedCall(Some(top)), 0.0);
    ShownSnoc(t, exitE, x);
    if |rest| > 0 {
      var enterE := Entry(OnEnterCall(rest[|rest| - 1].value, Pop), 0.0);
      ShownSnoc(t + [exitE] + [enterE], poppedE, x);
      ShownSnoc(t + [exitE], enterE, x);
    } else {
      ShownSnoc(t + [exitE], poppedE, x);
    }
  }

  /** After an undisturbed pop, exactly the states below the new top are not interactive. */
  lemma {:induction false} PopInteractiveAt(t: seq<Entry>, rest: seq<Option<StateId>>, top: StateId, time: real, x: StateId)
    requires |rest| > 0 ==> rest[|rest| - 1].Some? && rest[|rest| - 1] !in Below(rest)
    requires Interactive(t, x) <==> Some(x) !in rest
    ensures Interactive(t + PopCalls(Machine(rest + [Some(top)], time, false, t)), x) <==> Some(x) !in Below(rest)
  {
    PopCallsAre(t, rest, top, time);
    var exitE := Entry(OnExitCall(top, Pop), time);
    var poppedE := Entry(OnStatePoppedCall(Some(top)), 0.0);
    InteractiveSnoc(t, exitE, x);
    if |rest| > 0 {
      var enterE := Entry(OnEnterCall(rest[|rest| - 1].value, Pop), 0.0);
      InteractiveSnoc(t + [exitE] + [enterE], poppedE, x);
      InteractiveSnoc(t + [exitE], enterE, x);
      assert rest == Below(rest) + [rest[|rest| - 1]];
    } else {
      InteractiveSnoc(t + [exitE], poppedE, x);
    }
  }

  lemma {:induction false} PopCallsKeepUiConsistent(m: Machine, m': Machine)
    requires UiConsistent(m) && |m.states| > 0
    requires m' == Machine(Below(m.states), 0.0, false, m.trace + PopCalls(m))
    ensures UiConsistent(m')
  {
    var top := Top(m).value;
    var rest := Below(m.states);
    assert m.states == rest + [Some(top)];
    assert Some(top) !in rest;
    if |rest| > 0 {
      assert rest[|rest| - 1] !in Below(rest) by {
        forall i | 0 <= i < |rest| - 1 ensures rest[i] != rest[|rest| - 1] {
          assert m.states[i] != m.states[|rest| - 1];
        }
      }
    }
    forall x: StateId ensures Shown(m'.trace, x) <==> Some(x) in m'.states {
      PopShownAt(m.trace, rest, top, m.time, x);
    }
    forall x: StateId ensures Interactive(m'.trace, x) <==> Some(x) !in Below(m'.states) {
      PopInteractiveAt(m.trace, rest, top, m.time, x);
    }
  }

  /** An undisturbed pop of a non-empty stack keeps the UI consistent. */
  lemma {:induction false} PopKeepsUiConsistent(m: Machine, react: Behaviour)
    requires UiConsistent(m) && Quiet(react) && |m.states| > 0
    ensures PopStep(m, react).1 == Done
    ensures UiConsistent(PopStep(m, react).0)
  {
    QuietPop(m, react);
    PopCallsKeepUiConsistent(m, PopStep(m, react).0);
  }

  /** A push or a pop, as a client of the machine issues them. */
  datatype Op = PushOp(state: StateId) | PopOp

  /** Runs operations from `m`; a push of a state already on the stack, a pop
      of an empty stack, or any failure stops the run. */
  function Run(m: Machine, ops: seq<Op>, react: Behaviour): Machine
    decreases |ops|
  {
    if ops == [] then m
    else match ops[0]
      case PushOp(s) =>
        if Some(s) in m.states then m
        else
          var (m1, o) := PushStep(m, Some(s), react);
          if o.Fail? then m1 else Run(m1, ops[1..], react)
      case PopOp =>
        if |m.states| == 0 then m
        else
          var (m1, o) := PopStep(m, react);
          if o.Fail? then m1 else Run(m1, ops[1..], react)
  }

  /** From a fresh machine, whatever pushes and pops a client makes (with
      callbacks that return), the UI states on the stack are exactly the shown
      ones and only the top one is interactive: the stack-action tags always
      describe whether a state is being covered, uncovered, shown or hidden. */
  lemma {:induction false} UiStateTagsStayConsistent(ops: seq<Op>, react: Behaviour)
    requires Quiet(react)
    ensures UiConsistent(Run(Machine([], 0.0, false, []), ops, react))
  {
    RunKeepsUiConsistent(Machine([], 0.0, false, []), ops, react);
  }

  lemma {:induction false} RunKeepsUiConsistent(m: Machine, ops: seq<Op>, react: Behaviour)
    requires Quiet(react) && UiConsistent(m)
    ensures UiConsistent(Run(m, ops, react))
    decreases |ops|
  {
    if ops != [] {
      match ops[0]
      case PushOp(s) =>
        if Some(s) !in m.states {
          PushKeepsUiConsistent(m, s, react);
          RunKeepsUiConsistent(PushStep(m, Some(s), react).0, ops[1..], react);
        }
      case PopOp =>
        if |m.states| > 0 {
          PopKeepsUiConsistent(m, react);
          RunKeepsUiConsistent(PopStep(m, react).0, ops[1..], react);
        }
    }
  }

  class StackStateMachine {
    var states: seq<Option<StateId>>
    var currentStateTime: real
    var duringSetting: bool
    var trace: seq<Entry>

    function Snapshot(): Machine
      reads this
    {
      Machine(states, currentStateTime, duringSetting, trace)
    }

    constructor ()
      ensures Snapshot() == Machine([], 0.0, false, [])
    {
      states := [];
      currentStateTime := 0.0;
      duringSetting := false;
      trace := [];
    }

    /** `PushState(newState)`. */
    method PushState(s: Option<StateId>, react: Behaviour) returns (outcome: Outcome)
      modifies this
      ensures (Snapshot(), outcome) == PushStep(old(Snapshot()), s, react)
      decreases if duringSetting then 0 else 2
    {
      if duringSetting {
        return Fail(Thrown(PushReentrantMessage));
      }
      duringSetting := true;
      outcome := Done;
      if |states| > 0 && states[|states| - 1].Some? {
        outcome := CallUserCode(OnExitCall(states[|states| - 1].value, Push), react);
        if outcome.Fail? { return; }
      }
      currentStateTime := 0.0;
      states := states + [s];
      if s.Some? {
        outcome := CallUserCode(OnEnterCall(s.value, Push), react);
        if outcome.Fail? { return; }
      }
      outcome := CallUserCode(OnStatePushedCall(s), react);
      if outcome.Fail? { return; }
      duringSetting := false;
    }

    /** `PopState()`. */
    method PopState(react: Behaviour) returns (outcome: Outcome)
      modifies this
      ensures (Snapshot(), outcome) == PopStep(old(Snapshot()), react)
      decreases if duringSetting then 0 else 2
    {
      if duringSetting {
        return Fail(Thrown(PopReentrantMessage));
      }
      duringSetting := true;
      if |states| == 0 {
        return Fail(ArgumentOutOfRange);
      }
      var original := states[|states| - 1];
      outcome := Done;
      if original.Some? {
        outcome := CallUserCode(OnExitCall(original.value, Pop), react);
        if outcome.Fail? { return; }
      }
      states := states[..|states| - 1];
      currentStateTime := 0.0;
      if |states| > 0 && states[|states| - 1].Some? {
        outcome := CallUserCode(OnEnterCall(states[|states| - 1].value, Pop), react);
        if outcome.Fail? { return; }
      }
      outcome := CallUserCode(OnStatePoppedCall(original), react);
      if outcome.Fail? { return; }
      duringSetting := false;
    }

    /** Calls a state's OnExit/OnEnter or the machine's OnStatePushed/OnStatePopped. */
    method CallUserCode(c: Call, react: Behaviour) returns (outcome: Outcome)
      requires duringSetting
      modifies this
      ensures (Snapshot(), outcome) == Hook(old(Snapshot()), c, react)
      decreases 1
    {
      var reaction := react(|trace|, c);
      trace := trace + [Entry(c, currentStateTime)];
      match reaction
      case Returns => outcome := Done;
      case Throws => outcome := Fail(HookFailure);
      case Requests(PushRequest(s)) => outcome := PushState(s, react);
      case Requests(PopRequest) => outcome := PopState(react);
    }

    /** `PopStates(count)`. */
    method PopStates(count: int, react: Behaviour) returns (outcome: Outcome)
      modifies this
      ensures (Snapshot(), outcome) == PopSteps(old(Snapshot()), count, react)
    {
      var n := count;
      outcome := Done;
      while n > 0
        invariant PopSteps(old(Snapshot()), count, react) == PopSteps(Snapshot(), n, react)
        invariant outcome == Done
        decreases n
      {
        outcome := PopState(react);
        if outcome.Fail? { return; }
        n := n - 1;
      }
    }

    /** `PopAllStates()`. */
    method PopAllStates(react: Behaviour) returns (outcome: Outcome)
      modifies this
      ensures (Snapshot(), outcome) == PopSteps(old(Snapshot()), |old(states)|, react)
    {
      outcome := PopStates(|states|, react);
    }

    /** `OnUpdate(deltaTime)`. */
    method OnUpdate(dt: real, react: Behaviour) returns (outcome: Outcome)
      modifies this
      ensures (Snapshot(), outcome) == Update(old(Snapshot()), dt, react)
    {
      currentStateTime := currentStateTime + dt;
      outcome := Done;
      if |states| > 0 && states[|states| - 1].Some? {
        var c := OnUpdateCall(states[|states| - 1].value, dt);
        var reaction := react(|trace|, c);
        trace := trace + [Entry(c, currentStateTime)];
        match reaction
        case Returns =>
        case Throws => outcome := Fail(HookFailure);
        case Requests(PushRequest(s)) => outcome := PushState(s, react);
        case Requests(PopRequest) => outcome := PopState(react);
      }
    }

    /** The machine's own OnEnter and OnExit, used when it is a sub-state of
        another stack machine, do nothing. */
    method OnEnter(action: StackAction)
      ensures unchanged(this)
    {
    }

    method OnExit(action: StackAction)
      ensures unchanged(this)
    {
    }
  }
}
