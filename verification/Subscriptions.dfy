/** The lifecycle of an instance's subscriptions: host threads that subscribe,
    unsubscribe and close, and the one events thread that calls back, as
    interleaved atomic steps. */
module Subscriptions {
  import opened Machine

  type SubId = nat
  type CallId = nat

  /** Where a subscription stands in its task; `Checked`, `Calling` and `Dropping` are on
      the events thread. */
  datatype Task =
    | Unspawned
    | Idle
    | Checked   // found the subscription active, about to call back
    | Calling   // in the host's callback
    | Dropping  // the release has run, `done` is not set yet
    | Gone

  datatype Sub = Sub(active: bool, aborted: bool, task: Task, done: bool)

  datatype Call =
    | Subscribe(sub: SubId, at: SubscribePc)
    | Unsubscribe(sub: SubId, inside: bool, to: UnsubscribePc)
    | Close(inside: bool, stage: ClosePc)

  datatype SubscribePc = Spawning | Entering | Listing | Subscribed
  datatype UnsubscribePc = Removing | Clearing | Aborting | Waiting | Unsubscribed | NoSuch
  datatype ClosePc =
    | Taking
    | Ending(left: set<SubId>)
    | Silencing(one: SubId, left: set<SubId>)
    | Signalling
    | Joining
    | Closed

  datatype Loop = Looping | Draining | Ended

  datatype Event = Callback(sub: SubId) | Released(sub: SubId)

  datatype State = State(
    subs: map<SubId, Sub>,
    calls: map<CallId, Call>,
    table: set<SubId>,        // the handles that name a subscription
    list: set<SubId>,         // the instance's own list of them
    busy: Option<SubId>,      // whose task the events thread is in
    loop: Loop,
    stopAsked: bool,
    log: seq<Event>)

  datatype Step =
    | NewSubscribe(c: CallId, b: SubId)
    | NewUnsubscribe(c: CallId, b: SubId, inside: bool)
    | NewClose(c: CallId, inside: bool)
    | Go(c: CallId)                    // the call's next atomic step
    | SpawnDropped(c: CallId)          // the runtime is gone: its task is dropped at once
    | Check(b: SubId)                  // an event: its task looks whether it is active
    | CallBack(b: SubId)
    | CallEnds(b: SubId)
    | Drop(b: SubId)                   // its task ends: aborted, done, or the runtime drops it
    | DropEnds(b: SubId)
    | LoopStops
    | LoopEnds

  function Init(): State {
    State(map[], map[], {}, {}, None, Looping, false, [])
  }

  predicate OnThread(task: Task) {
    task == Checked || task == Calling || task == Dropping
  }

  predicate Inside(call: Call) {
    (call.Unsubscribe? || call.Close?) && call.inside
  }

  predicate Returned(call: Call) {
    match call
    case Subscribe(_, at) => at == Subscribed
    case Unsubscribe(_, _, to) => to == Unsubscribed || to == NoSuch
    case Close(_, stage) => stage == Closed
  }

  predicate TaskAt(s: State, b: SubId, task: Task) {
    b in s.subs && s.subs[b].task == task
  }

  /** The events thread is in the host's code: its callback, or its release. */
  predicate InHost(s: State) {
    s.busy.Some? && (TaskAt(s, s.busy.value, Calling) || TaskAt(s, s.busy.value, Dropping))
  }

  /** Calls that the host made there have returned. */
  ghost predicate InsideDone(s: State) {
    forall c :: c in s.calls && Inside(s.calls[c]) ==> Returned(s.calls[c])
  }

  predicate CanGo(s: State, c: CallId) {
    c in s.calls && !Returned(s.calls[c]) &&
    match s.calls[c]
    case Subscribe(b, at) => b in s.subs && (at == Spawning ==> s.loop != Ended)
    case Unsubscribe(b, inside, to) => to != Removing ==> b in s.subs && (to == Waiting ==> s.subs[b].done)
    case Close(inside, stage) => stage == Joining ==> s.loop == Ended
  }

  ghost predicate CanStep(s: State, step: Step) {
    match step
    case NewSubscribe(c, b) => c !in s.calls && b !in s.subs
    case NewUnsubscribe(c, b, inside) => c !in s.calls && (inside ==> InHost(s))
    case NewClose(c, inside) => c !in s.calls && (inside ==> InHost(s))
    case Go(c) => CanGo(s, c)
    case SpawnDropped(c) =>
      && c in s.calls && s.calls[c].Subscribe? && s.calls[c].at == Spawning
      && s.calls[c].sub in s.subs && s.loop != Looping
    case Check(b) => TaskAt(s, b, Idle) && s.busy.None? && s.loop == Looping && s.subs[b].active && !s.subs[b].aborted
    case CallBack(b) => TaskAt(s, b, Checked)
    case CallEnds(b) => TaskAt(s, b, Calling) && InsideDone(s)
    case Drop(b) => TaskAt(s, b, Idle) && s.busy.None? && s.loop != Ended
    case DropEnds(b) => TaskAt(s, b, Dropping) && s.busy == Some(b) && InsideDone(s)
    case LoopStops => s.loop == Looping && s.stopAsked && s.busy.None?
    case LoopEnds =>
      && s.loop == Draining && s.busy.None?
      && forall b :: b in s.subs ==> s.subs[b].task == Unspawned || s.subs[b].task == Gone
  }

  function SetTask(s: State, b: SubId, task: Task): State
    requires b in s.subs
  {
    s.(subs := s.subs[b := s.subs[b].(task := task)])
  }

  function SetCall(s: State, c: CallId, call: Call): State {
    s.(calls := s.calls[c := call])
  }

  function GoSubscribe(s: State, c: CallId, b: SubId, at: SubscribePc): State
    requires b in s.subs
  {
    match at
    case Spawning => SetTask(SetCall(s, c, Subscribe(b, Entering)), b, Idle)
    case Entering => SetCall(s, c, Subscribe(b, Listing)).(table := s.table + {b})
    case Listing => SetCall(s, c, Subscribe(b, Subscribed)).(list := s.list + {b})
    case _ => s
  }

  function GoUnsubscribe(s: State, c: CallId, b: SubId, inside: bool, to: UnsubscribePc): State
    requires to != Removing ==> b in s.subs
  {
    match to
    case Removing =>
      if b in s.table then SetCall(s, c, Unsubscribe(b, inside, Clearing)).(table := s.table - {b})
      else SetCall(s, c, Unsubscribe(b, inside, NoSuch))
    case Clearing => SetCall(s, c, Unsubscribe(b, inside, Aborting)).(subs := s.subs[b := s.subs[b].(active := false)])
    case Aborting =>
      SetCall(s, c, Unsubscribe(b, inside, if inside then Unsubscribed else Waiting)).(
        subs := s.subs[b := s.subs[b].(aborted := true)])
    case Waiting => SetCall(s, c, Unsubscribe(b, inside, Unsubscribed))
    case _ => s
  }

  /** The thread's join handle is under a lock held while one close joins, so the next
      waits as long. */
  ghost function GoClose(s: State, c: CallId, inside: bool, stage: ClosePc): State {
    match stage
    case Taking => SetCall(s, c, Close(inside, Ending(s.list))).(list := {})
    case Ending(left) =>
      if left == {} then SetCall(s, c, Close(inside, Signalling)) else
      var b :| b in left;
      if b in s.table then SetCall(s, c, Close(inside, Silencing(b, left - {b}))).(table := s.table - {b})
      else SetCall(s, c, Close(inside, Ending(left - {b})))
    case Silencing(b, left) =>
      SetCall(s, c, Close(inside, Ending(left))).(
        subs := if b in s.subs then s.subs[b := s.subs[b].(active := false)] else s.subs)
    case Signalling =>
      SetCall(s, c, Close(inside, if inside then Closed else Joining)).(stopAsked := true)
    case Joining => SetCall(s, c, Close(inside, Closed))
    case _ => s
  }

  ghost function After(s: State, step: Step): State
    requires CanStep(s, step)
  {
    match step
    case NewSubscribe(c, b) =>
      SetCall(s, c, Subscribe(b, Spawning)).(subs := s.subs[b := Sub(true, false, Unspawned, false)])
    case NewUnsubscribe(c, b, inside) => SetCall(s, c, Unsubscribe(b, inside, Removing))
    case NewClose(c, inside) => SetCall(s, c, Close(inside, Taking))
    case Go(c) => (match s.calls[c]
      case Subscribe(b, at) => GoSubscribe(s, c, b, at)
      case Unsubscribe(b, inside, to) => GoUnsubscribe(s, c, b, inside, to)
      case Close(inside, stage) => GoClose(s, c, inside, stage))
    case SpawnDropped(c) =>
      var b := s.calls[c].sub;
      SetCall(s, c, Subscribe(b, Entering)).(
        subs := s.subs[b := s.subs[b].(task := Gone, done := true)], log := s.log + [Released(b)])
    case Check(b) => SetTask(s, b, Checked).(busy := Some(b))
    case CallBack(b) => SetTask(s, b, Calling).(log := s.log + [Callback(b)])
    case CallEnds(b) => SetTask(s, b, Idle).(busy := None)
    case Drop(b) => SetTask(s, b, Dropping).(busy := Some(b), log := s.log + [Released(b)])
    case DropEnds(b) => s.(subs := s.subs[b := s.subs[b].(task := Gone, done := true)], busy := None)
    case LoopStops => s.(loop := Draining)
    case LoopEnds => s.(loop := Ended)
  }

  // ----- the invariant -----

  /** The events thread is in at most one task, the one it says. */
  ghost predicate ThreadRight(s: State) {
    && (forall b :: b in s.subs ==> (OnThread(s.subs[b].task) <==> s.busy == Some(b)))
    && (s.busy.Some? ==> s.busy.value in s.subs)
    && (s.loop == Ended ==> forall b :: b in s.subs ==> s.subs[b].task == Unspawned || s.subs[b].task == Gone)
    && (forall b :: b in s.subs ==> (s.subs[b].done <==> s.subs[b].task == Gone))
  }

  /** A release is told of exactly those whose tasks are going or gone, and nothing
      is told of a subscription after it. */
  ghost predicate LogRight(s: State) {
    && (forall i :: 0 <= i < |s.log| ==> s.log[i].sub in s.subs)
    && (forall b :: b in s.subs ==> ((s.subs[b].task == Dropping || s.subs[b].task == Gone) <==> Released(b) in s.log))
    && (forall i, j :: 0 <= i < j < |s.log| && s.log[i].Released? ==> s.log[j].sub != s.log[i].sub)
  }

  predicate IsSpawned(s: State, b: SubId) {
    b in s.subs && s.subs[b].task != Unspawned
  }

  ghost predicate CallRight(s: State, call: Call) {
    && (Inside(call) && !Returned(call) ==> InHost(s))
    && match call
       case Subscribe(b, at) => b in s.subs && (at == Spawning <==> s.subs[b].task == Unspawned)
       case Unsubscribe(b, inside, to) =>
         && (to != Removing && to != NoSuch ==> IsSpawned(s, b))
         && (to == Aborting || to == Waiting || to == Unsubscribed ==> !s.subs[b].active)
         && (to == Unsubscribed ==> s.subs[b].task != Checked)
         && (to == Waiting ==> !inside && s.subs[b].aborted)
         && (to == Unsubscribed && !inside ==> TaskAt(s, b, Gone))
       case Close(inside, stage) =>
         && (stage == Joining ==> !inside && s.stopAsked)
         && (stage == Closed && !inside ==> s.loop == Ended)
  }

  predicate SameSubscription(one: Call, other: Call) {
    one.Subscribe? && other.Subscribe? && one.sub == other.sub
  }

  ghost predicate CallsRight(s: State) {
    && (forall c :: c in s.calls ==> CallRight(s, s.calls[c]))
    && (forall b :: b in s.table ==> IsSpawned(s, b))
    && (forall c, d :: c in s.calls && d in s.calls && SameSubscription(s.calls[c], s.calls[d]) ==> c == d)
  }

  ghost predicate Inv(s: State) {
    ThreadRight(s) && LogRight(s) && CallsRight(s)
  }

  // ----- what a call's step can do to the subscriptions -----

  /** Only a spawn moves a task; and neither an abort nor an end is taken back. */
  ghost predicate SubMoved(x: Sub, y: Sub, spawns: bool) {
    && y.done == x.done && (x.aborted ==> y.aborted) && (y.active ==> x.active)
    && (y.task == x.task || (spawns && x.task == Unspawned && y.task == Idle))
  }

  predicate Spawns(s: State, call: Call, b: SubId) {
    call.Subscribe? && call.sub == b && call.at == Spawning && s.loop != Ended
  }

  predicate SameCall(x: Call, y: Call) {
    && x.Subscribe? == y.Subscribe? && x.Unsubscribe? == y.Unsubscribe? && Inside(x) == Inside(y)
    && (!x.Close? ==> x.sub == y.sub)
  }

  ghost predicate GoEffect(s: State, u: State, c: CallId) {
    && c in s.calls && u.busy == s.busy && u.loop == s.loop && u.log == s.log && (s.stopAsked ==> u.stopAsked)
    && c in u.calls && u.calls == s.calls[c := u.calls[c]] && SameCall(s.calls[c], u.calls[c])
    && u.subs.Keys == s.subs.Keys
    && (forall b :: b in s.subs ==> SubMoved(s.subs[b], u.subs[b], Spawns(s, s.calls[c], b)))
  }

  /** One call's own step: what it does, and that it stands right after it. */
  ghost predicate StepsRight(s: State, u: State, c: CallId) {
    && GoEffect(s, u, c) && CallRight(u, u.calls[c])
    && forall b :: b in u.table ==> b in s.table || IsSpawned(s, b)
  }

  lemma SubscribeSteps(s: State, c: CallId, b: SubId, at: SubscribePc)
    requires CanGo(s, c) && s.calls[c] == Subscribe(b, at) && CallRight(s, s.calls[c])
    ensures StepsRight(s, GoSubscribe(s, c, b, at), c)
  {}

  lemma UnsubscribeSteps(s: State, c: CallId, b: SubId, inside: bool, to: UnsubscribePc)
    requires ThreadRight(s) && CanGo(s, c) && s.calls[c] == Unsubscribe(b, inside, to) && CallRight(s, s.calls[c])
    requires forall b :: b in s.table ==> IsSpawned(s, b)
    ensures StepsRight(s, GoUnsubscribe(s, c, b, inside, to), c)
  {
    hide GoEffect, CallRight, InHost;
    UnsubscribeEffect(s, c, b, inside, to);
    UnsubscribeCall(s, c, b, inside, to);
  }

  lemma UnsubscribeEffect(s: State, c: CallId, b: SubId, inside: bool, to: UnsubscribePc)
    requires CanGo(s, c) && s.calls[c] == Unsubscribe(b, inside, to)
    ensures GoEffect(s, GoUnsubscribe(s, c, b, inside, to), c)
  {}

  lemma UnsubscribeCall(s: State, c: CallId, b: SubId, inside: bool, to: UnsubscribePc)
    requires ThreadRight(s) && CanGo(s, c) && s.calls[c] == Unsubscribe(b, inside, to) && CallRight(s, s.calls[c])
    requires b in s.table ==> IsSpawned(s, b)
    ensures var u := GoUnsubscribe(s, c, b, inside, to); c in u.calls && CallRight(u, u.calls[c])
  {}

  lemma CloseSteps(s: State, c: CallId, inside: bool, stage: ClosePc)
    requires CanGo(s, c) && s.calls[c] == Close(inside, stage) && CallRight(s, s.calls[c])
    ensures StepsRight(s, GoClose(s, c, inside, stage), c)
  {
    hide GoEffect, CallRight, InHost;
    CloseEffect(s, c, inside, stage);
    CloseCall(s, c, inside, stage);
  }

  lemma CloseEffect(s: State, c: CallId, inside: bool, stage: ClosePc)
    requires CanGo(s, c) && s.calls[c] == Close(inside, stage)
    ensures GoEffect(s, GoClose(s, c, inside, stage), c)
  {}

  lemma CloseCall(s: State, c: CallId, inside: bool, stage: ClosePc)
    requires CanGo(s, c) && s.calls[c] == Close(inside, stage) && CallRight(s, s.calls[c])
    ensures var u := GoClose(s, c, inside, stage); c in u.calls && CallRight(u, u.calls[c])
  {}

  lemma GoSteps(s: State, c: CallId)
    requires ThreadRight(s) && CallsRight(s) && CanGo(s, c)
    ensures StepsRight(s, After(s, Go(c)), c)
  {
    hide StepsRight, GoSubscribe, GoUnsubscribe, GoClose, ThreadRight, CallRight;
    match s.calls[c]
    case Subscribe(b, at) => SubscribeSteps(s, c, b, at);
    case Unsubscribe(b, inside, to) => UnsubscribeSteps(s, c, b, inside, to);
    case Close(inside, stage) => CloseSteps(s, c, inside, stage);
  }

  lemma EffectThread(s: State, u: State, c: CallId)
    requires ThreadRight(s) && LogRight(s) && GoEffect(s, u, c)
    ensures ThreadRight(u) && LogRight(u)
  {}

  /** The other calls stand as they stood. */
  lemma OtherCall(s: State, u: State, c: CallId, d: CallId)
    requires ThreadRight(s) && CallsRight(s) && GoEffect(s, u, c) && d in s.calls && d != c
    ensures CallRight(u, s.calls[d])
  {
    hide LogRight;
    assert CallRight(s, s.calls[d]);
  }

  lemma GoKeeps(s: State, c: CallId)
    requires Inv(s) && CanGo(s, c)
    ensures Inv(After(s, Go(c)))
  {
    hide ThreadRight, LogRight, GoEffect, After, CallRight, CallsRight;
    var u := After(s, Go(c));
    GoSteps(s, c);
    EffectThread(s, u, c);
    GoCalls(s, u, c);
  }

  lemma GoCalls(s: State, u: State, c: CallId)
    requires ThreadRight(s) && CallsRight(s) && StepsRight(s, u, c)
    ensures CallsRight(u)
  {
    hide ThreadRight, CallRight;
    forall d | d in u.calls ensures CallRight(u, u.calls[d]) {
      if d != c { OtherCall(s, u, c, d); }
    }
    forall b | b in u.table ensures IsSpawned(u, b) {
      assert SubMoved(s.subs[b], u.subs[b], Spawns(s, s.calls[c], b));
    }
  }

  // ----- the other steps -----

  predicate IsHost(step: Step) {
    step.NewSubscribe? || step.NewUnsubscribe? || step.NewClose? || step.SpawnDropped?
  }

  lemma HostThread(s: State, step: Step)
    requires ThreadRight(s) && LogRight(s) && CallsRight(s) && CanStep(s, step) && IsHost(step)
    ensures ThreadRight(After(s, step)) && LogRight(After(s, step))
  {
    hide InHost, Returned, Inside;
    if step.SpawnDropped? {
      assert CallRight(s, s.calls[step.c]);
      hide CallsRight, After;
      DroppedThread(s, step.c);
    }
  }

  lemma DroppedThread(s: State, c: CallId)
    requires ThreadRight(s) && LogRight(s) && CanStep(s, SpawnDropped(c)) && s.subs[s.calls[c].sub].task == Unspawned
    ensures ThreadRight(After(s, SpawnDropped(c))) && LogRight(After(s, SpawnDropped(c)))
  {
    hide InHost, Returned, Inside;
  }

  lemma HostCalls(s: State, step: Step)
    requires ThreadRight(s) && CallsRight(s) && CanStep(s, step) && IsHost(step)
    ensures CallsRight(After(s, step))
  {
    hide Returned, ThreadRight, CallRight, SameSubscription;
    var u := After(s, step);
    forall c | c in u.calls ensures CallRight(u, u.calls[c]) {
      HostCall(s, step, c);
    }
    HostTable(s, step);
  }

  lemma HostCall(s: State, step: Step, c: CallId)
    requires ThreadRight(s) && CallsRight(s) && CanStep(s, step) && IsHost(step) && c in After(s, step).calls
    ensures CallRight(After(s, step), After(s, step).calls[c])
  {
    hide Returned, SameSubscription;
    if c in s.calls {
      assert CallRight(s, s.calls[c]);
      if step.SpawnDropped? {
        assert CallRight(s, s.calls[step.c]);
        if c != step.c { DroppedOther(s, step.c, c); }
      }
    }
  }

  lemma DroppedOther(s: State, c: CallId, d: CallId)
    requires ThreadRight(s) && CanStep(s, SpawnDropped(c)) && d in s.calls && d != c && CallRight(s, s.calls[d])
    requires s.subs[s.calls[c].sub].task == Unspawned && !SameSubscription(s.calls[c], s.calls[d])
    ensures CallRight(After(s, SpawnDropped(c)), s.calls[d])
  {
    hide Returned;
  }

  lemma HostTable(s: State, step: Step)
    requires CallsRight(s) && CanStep(s, step) && IsHost(step)
    ensures var u := After(s, step); forall b :: b in u.table ==> IsSpawned(u, b)
    ensures var u := After(s, step);
      forall c, d :: c in u.calls && d in u.calls && SameSubscription(u.calls[c], u.calls[d]) ==> c == d
  {
    hide Returned, Inside, InHost;
    forall c | c in s.calls ensures s.calls[c].Subscribe? ==> s.calls[c].sub in s.subs {
      assert CallRight(s, s.calls[c]);
    }
    hide CallRight;
  }

  lemma TaskThread(s: State, step: Step)
    requires ThreadRight(s) && CanStep(s, step) && !step.Go? && !IsHost(step)
    ensures ThreadRight(After(s, step))
  {
    hide InHost, Returned, Inside;
  }

  lemma TaskLog(s: State, step: Step)
    requires ThreadRight(s) && LogRight(s) && CanStep(s, step) && !step.Go? && !IsHost(step)
    ensures LogRight(After(s, step))
  {
    hide InHost, Returned, Inside;
  }

  lemma TaskCalls(s: State, step: Step)
    requires ThreadRight(s) && CallsRight(s) && CanStep(s, step) && !step.Go? && !IsHost(step)
    ensures CallsRight(After(s, step))
  {
    hide Returned, ThreadRight, CallRight, SameSubscription;
    var u := After(s, step);
    forall c | c in u.calls ensures CallRight(u, u.calls[c]) {
      TaskCall(s, step, c);
    }
  }

  lemma TaskCall(s: State, step: Step, c: CallId)
    requires ThreadRight(s) && CallsRight(s) && CanStep(s, step) && !step.Go? && !IsHost(step) && c in s.calls
    ensures After(s, step).calls == s.calls && CallRight(After(s, step), s.calls[c])
  {
    hide Returned, SameSubscription;
    assert CallRight(s, s.calls[c]);
  }

  /** Every step keeps the invariant. */
  lemma StepKeeps(s: State, step: Step)
    requires Inv(s) && CanStep(s, step)
    ensures Inv(After(s, step))
  {
    hide ThreadRight, LogRight, CallsRight, After;
    if step.Go? {
      GoKeeps(s, step.c);
    } else {
      if IsHost(step) {
        HostThread(s, step);
        HostCalls(s, step);
      } else {
        TaskThread(s, step);
        TaskLog(s, step);
        TaskCalls(s, step);
      }
    }
  }

  // ----- over every run -----

  ghost predicate IsRun(states: seq<State>, steps: seq<Step>) {
    && |states| == |steps| + 1 && states[0] == Init()
    && forall i :: 0 <= i < |steps| ==> CanStep(states[i], steps[i]) && states[i + 1] == After(states[i], steps[i])
  }

  lemma InitInv()
    ensures Inv(Init())
  {}

  lemma {:induction false} RunInv(states: seq<State>, steps: seq<Step>, i: nat)
    requires IsRun(states, steps) && i < |states|
    ensures Inv(states[i])
  {
    hide CanStep, After, Inv, Init;
    if i == 0 {
      InitInv();
    } else {
      RunInv(states, steps, i - 1);
      StepKeeps(states[i - 1], steps[i - 1]);
    }
  }

  lemma StepLog(s: State, step: Step)
    requires CanStep(s, step)
    ensures s.log <= After(s, step).log
  {
    hide After, CanStep;
    StepTells(s, step);
  }

  lemma {:induction false} LogGrows(states: seq<State>, steps: seq<Step>, i: nat, j: nat)
    requires IsRun(states, steps) && i <= j < |states|
    ensures states[i].log <= states[j].log
    decreases j
  {
    hide CanStep, After, Init;
    if i < j {
      LogGrows(states, steps, i, j - 1);
      StepLog(states[j - 1], steps[j - 1]);
    }
  }

  ghost predicate ReleasedOnceLast(log: seq<Event>, b: SubId) {
    exists i :: 0 <= i < |log| && log[i] == Released(b) && (forall j :: i < j < |log| ==> log[j].sub != b)
                && (forall j :: 0 <= j < i ==> log[j] != Released(b))
  }

  lemma ReleasedRight(s: State, b: SubId)
    requires LogRight(s) && Released(b) in s.log
    ensures ReleasedOnceLast(s.log, b)
  {
    var i :| 0 <= i < |s.log| && s.log[i] == Released(b);
    assert forall j :: 0 <= j < i ==> s.log[j] != Released(b);
  }

  /** Once an unsubscribe made off the events thread has returned, the release has
      run, exactly once and after the last callback; and no callback ever follows. */
  lemma UnsubscribedIsSilent(states: seq<State>, steps: seq<Step>, i: nat, j: nat, c: CallId, b: SubId)
    requires IsRun(states, steps) && i <= j < |states|
    requires c in states[i].calls && states[i].calls[c] == Unsubscribe(b, false, Unsubscribed)
    ensures Released(b) in states[i].log && ReleasedOnceLast(states[j].log, b)
    ensures forall k :: |states[i].log| <= k < |states[j].log| ==> states[j].log[k].sub != b
  {
    hide CanStep, After, Init, ReleasedOnceLast;
    RunInv(states, steps, i);
    RunInv(states, steps, j);
    LogGrows(states, steps, i, j);
    hide IsRun;
    assert CallRight(states[i], states[i].calls[c]);
    assert Released(b) in states[i].log;
    var k :| 0 <= k < |states[i].log| && states[i].log[k] == Released(b);
    assert states[j].log[k] == Released(b);
    ReleasedRight(states[j], b);
  }

  /** Once any unsubscribe has returned, also one made on the events thread, where the
      release may be still to come, no callback ever follows. */
  lemma {:induction false} NeverCalledAgain(states: seq<State>, steps: seq<Step>, i: nat, j: nat, c: CallId, b: SubId)
    requires IsRun(states, steps) && i <= j < |states|
    requires c in states[i].calls && states[i].calls[c].Unsubscribe? && states[i].calls[c].sub == b &&
      states[i].calls[c].to == Unsubscribed
    ensures c in states[j].calls && states[j].calls[c] == states[i].calls[c] && states[i].log <= states[j].log
    ensures forall k :: |states[i].log| <= k < |states[j].log| ==> states[j].log[k] != Callback(b)
    decreases j
  {
    hide CanStep, After, Init, Inv;
    if i < j {
      NeverCalledAgain(states, steps, i, j - 1, c, b);
      RunInv(states, steps, j - 1);
      NotCalledNow(states[j - 1], steps[j - 1], c, b);
    }
  }

  lemma NotCalledNow(s: State, step: Step, c: CallId, b: SubId)
    requires Inv(s) && CanStep(s, step)
    requires c in s.calls && s.calls[c].Unsubscribe? && s.calls[c].sub == b && s.calls[c].to == Unsubscribed
    ensures var u := After(s, step); c in u.calls && u.calls[c] == s.calls[c]
    ensures var u := After(s, step); s.log <= u.log && forall k :: |s.log| <= k < |u.log| ==> u.log[k] != Callback(b)
  {
    hide ThreadRight, LogRight, After;
    assert CallRight(s, s.calls[c]);
    StepReturned(s, step, c);
    StepTells(s, step);
  }

  /** A call that has returned stays as it is. */
  lemma StepReturned(s: State, step: Step, c: CallId)
    requires CanStep(s, step) && c in s.calls && Returned(s.calls[c])
    ensures c in After(s, step).calls && After(s, step).calls[c] == s.calls[c]
  {
    hide InHost, TaskAt;
    if step.Go? { GoCallOnly(s, step.c); hide After; }
  }

  lemma GoCallOnly(s: State, c: CallId)
    requires CanGo(s, c)
    ensures forall d :: d in s.calls && d != c ==> d in After(s, Go(c)).calls && After(s, Go(c)).calls[d] == s.calls[d]
  {}

  /** What a step adds to the log. */
  function Told(s: State, step: Step): seq<Event> {
    match step
    case CallBack(b) => [Callback(b)]
    case Drop(b) => [Released(b)]
    case SpawnDropped(c) => if c in s.calls && s.calls[c].Subscribe? then [Released(s.calls[c].sub)] else []
    case _ => []
  }

  lemma StepTells(s: State, step: Step)
    requires CanStep(s, step)
    ensures After(s, step).log == s.log + Told(s, step)
  {}

  /** When the events thread has ended, every subscription ever spawned is released. */
  lemma EndedReleasesAll(states: seq<State>, steps: seq<Step>, i: nat, b: SubId)
    requires IsRun(states, steps) && i < |states| && states[i].loop == Ended && IsSpawned(states[i], b)
    ensures states[i].subs[b].done && ReleasedOnceLast(states[i].log, b)
  {
    hide CanStep, After, Init, ReleasedOnceLast;
    RunInv(states, steps, i);
    hide IsRun;
    ReleasedRight(states[i], b);
  }

  /** A close made off the events thread, the first or not, returns once that thread has
      ended: every subscription spawned is released, and no callback of any ever
      follows. */
  lemma ClosedIsSilent(states: seq<State>, steps: seq<Step>, i: nat, j: nat, c: CallId)
    requires IsRun(states, steps) && i <= j < |states|
    requires c in states[i].calls && states[i].calls[c] == Close(false, Closed)
    ensures states[i].loop == Ended
    ensures forall b :: IsSpawned(states[i], b) ==> states[i].subs[b].done && ReleasedOnceLast(states[i].log, b)
    ensures forall k :: |states[i].log| <= k < |states[j].log| ==> !states[j].log[k].Callback?
  {
    hide CanStep, After, Init, ReleasedOnceLast;
    RunInv(states, steps, i);
    assert CallRight(states[i], states[i].calls[c]);
    forall b | IsSpawned(states[i], b) ensures states[i].subs[b].done && ReleasedOnceLast(states[i].log, b) {
      EndedReleasesAll(states, steps, i, b);
    }
    EndedIsSilent(states, steps, i, j);
  }

  lemma {:induction false} EndedIsSilent(states: seq<State>, steps: seq<Step>, i: nat, j: nat)
    requires IsRun(states, steps) && i <= j < |states| && states[i].loop == Ended
    ensures states[j].loop == Ended && states[i].log <= states[j].log
    ensures forall k :: |states[i].log| <= k < |states[j].log| ==> !states[j].log[k].Callback?
    decreases j
  {
    hide CanStep, After, Init, Inv;
    if i < j {
      EndedIsSilent(states, steps, i, j - 1);
      RunInv(states, steps, j - 1);
      StepEnded(states[j - 1], steps[j - 1]);
    }
  }

  lemma StepEnded(s: State, step: Step)
    requires Inv(s) && CanStep(s, step) && s.loop == Ended
    ensures var u := After(s, step);
      u.loop == Ended && s.log <= u.log && forall k :: |s.log| <= k < |u.log| ==> !u.log[k].Callback?
  {
    hide LogRight, CallsRight;
    StepTells(s, step);
    if step.Go? { GoLoop(s, step.c); }
  }

  lemma GoLoop(s: State, c: CallId)
    requires CanGo(s, c)
    ensures After(s, Go(c)).loop == s.loop
  {}

  /** A call made inside a callback or a release never waits: not on its own release,
      nor on the end of the thread it is on. */
  lemma InsideNeverWaits(s: State, c: CallId)
    requires Inv(s) && c in s.calls && Inside(s.calls[c]) && !Returned(s.calls[c])
    ensures CanGo(s, c)
  {
    assert CallRight(s, s.calls[c]);
  }

  predicate IsEventsThread(s: State, step: Step) {
    || step.CallBack? || step.CallEnds? || step.Drop? || step.DropEnds? || step.LoopStops? || step.LoopEnds?
    || (step.Go? && step.c in s.calls && Inside(s.calls[step.c]))
  }

  /** In a task, the events thread has a step to take, the host's own calls there among
      them. */
  lemma BusyGoesOn(s: State)
    requires Inv(s) && s.busy.Some?
    ensures exists step :: CanStep(s, step) && IsEventsThread(s, step)
  {
    hide LogRight, After;
    var x := s.busy.value;
    if s.subs[x].task == Checked {
      assert CanStep(s, CallBack(x));
    } else if d :| d in s.calls && Inside(s.calls[d]) && !Returned(s.calls[d]) {
      InsideNeverWaits(s, d);
      assert CanStep(s, Go(d));
    } else if s.subs[x].task == Dropping {
      assert CanStep(s, DropEnds(x));
    } else {
      assert CanStep(s, CallEnds(x));
    }
  }

  /** While an unsubscribe waits, the events thread is not stuck. */
  lemma WaitEnds(s: State, c: CallId)
    requires Inv(s) && c in s.calls && s.calls[c].Unsubscribe? && s.calls[c].to == Waiting && !CanGo(s, c)
    ensures exists step :: CanStep(s, step) && IsEventsThread(s, step)
  {
    hide LogRight, After;
    assert CallRight(s, s.calls[c]);
    if s.busy.None? { assert CanStep(s, Drop(s.calls[c].sub)); } else { BusyGoesOn(s); }
  }

  /** Nor, once asked to end, before it has ended. */
  lemma AskedGoesOn(s: State)
    requires Inv(s) && s.stopAsked && s.loop != Ended
    ensures exists step :: CanStep(s, step) && IsEventsThread(s, step)
  {
    hide LogRight, After;
    if s.busy.Some? {
      BusyGoesOn(s);
    } else if s.loop == Looping {
      assert CanStep(s, LoopStops);
    } else if b :| b in s.subs && s.subs[b].task == Idle {
      assert CanStep(s, Drop(b));
    } else {
      assert forall b :: b in s.subs ==> !OnThread(s.subs[b].task);
      assert CanStep(s, LoopEnds);
    }
  }

  /** So not while a close waits for that. */
  lemma JoinEnds(s: State, c: CallId)
    requires Inv(s) && c in s.calls && s.calls[c].Close? && s.calls[c].stage == Joining && !CanGo(s, c)
    ensures exists step :: CanStep(s, step) && IsEventsThread(s, step)
  {
    hide LogRight, After;
    assert CallRight(s, s.calls[c]);
    AskedGoesOn(s);
  }
}
