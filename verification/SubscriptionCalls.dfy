/** What the calls on subscriptions answer and leave behind, over every run, and how
    far each gets when left alone. */
module SubscriptionCalls {
  import opened Machine
  import opened Subscriptions

  predicate CallIs(s: State, c: CallId, call: Call) {
    c in s.calls && s.calls[c] == call
  }

  /** A call's own steps alone move it; a new one stands at its beginning. */
  lemma OthersGo(s: State, step: Step, c: CallId)
    requires CanStep(s, step) && step != Go(c)
    ensures c in s.calls && !s.calls[c].Subscribe? ==> CallIs(After(s, step), c, s.calls[c])
    ensures c in After(s, step).calls && c !in s.calls ==>
      match After(s, step).calls[c]
      case Subscribe(_, at) => at == Spawning
      case Unsubscribe(_, _, to) => to == Removing
      case Close(_, stage) => stage == Taking
    ensures c in s.calls && s.calls[c].Subscribe? ==> c in After(s, step).calls && After(s, step).calls[c].Subscribe?
  {
    hide CanGo, InHost, TaskAt;
  }

  // ----- which handles name a subscription -----

  /** The step is a subscribe's, entering `b` in the table. */
  predicate Enters(s: State, step: Step, b: SubId) {
    step.Go? && CallIs(s, step.c, Subscribe(b, Entering))
  }

  /** The step is an unsubscribe's, about to remove `b`, or a close's with `b` among
      those it has to end. */
  predicate MayTake(s: State, step: Step, b: SubId) {
    step.Go? && step.c in s.calls &&
    match s.calls[step.c]
    case Unsubscribe(sub, _, to) => sub == b && to == Removing
    case Close(_, stage) => stage.Ending? && b in stage.left
    case _ => false
  }

  lemma StepTable(s: State, step: Step, b: SubId)
    requires CanStep(s, step)
    ensures Enters(s, step, b) ==> b in After(s, step).table
    ensures b in After(s, step).table ==> b in s.table || Enters(s, step, b)
    ensures b in s.table && !MayTake(s, step, b) ==> b in After(s, step).table
  {}

  /** A handle names a subscription only once its subscribe has entered it. */
  lemma {:induction false} OnlyEntered(states: seq<State>, steps: seq<Step>, j: nat, b: SubId)
    requires IsRun(states, steps) && j < |states| && b in states[j].table
    ensures exists i :: 0 <= i < j && Enters(states[i], steps[i], b)
  {
    hide CanStep, After, Enters, MayTake;
    if j > 0 {
      StepTable(states[j - 1], steps[j - 1], b);
      if b in states[j - 1].table { OnlyEntered(states, steps, j - 1, b); }
    }
  }

  /** From then on it does, until an unsubscribe or a close comes to take it out. */
  lemma {:induction false} NamedUntilTaken(states: seq<State>, steps: seq<Step>, i: nat, j: nat, b: SubId)
    requires IsRun(states, steps) && i < j < |states| && Enters(states[i], steps[i], b)
    requires forall k :: i < k < j ==> !MayTake(states[k], steps[k], b)
    ensures b in states[j].table
    decreases j
  {
    hide CanStep, After, Enters, MayTake;
    StepTable(states[j - 1], steps[j - 1], b);
    if i < j - 1 { NamedUntilTaken(states, steps, i, j - 1, b); }
  }

  // ----- what an unsubscribe answers -----

  lemma StepNoSuch(s: State, step: Step, c: CallId, b: SubId, inside: bool)
    requires CanStep(s, step)
    ensures CallIs(After(s, step), c, Unsubscribe(b, inside, NoSuch)) <==>
      || CallIs(s, c, Unsubscribe(b, inside, NoSuch))
      || (step == Go(c) && CallIs(s, c, Unsubscribe(b, inside, Removing)) && b !in s.table)
  {
    hide InHost, TaskAt;
    if step != Go(c) { OthersGo(s, step, c); hide After; }
  }

  /** In every run, an unsubscribe answers that there is no such subscription if and only
      if the handle named none as it went to remove it. */
  lemma {:induction false} NoSuchExactly(states: seq<State>, steps: seq<Step>, j: nat, c: CallId, b: SubId,
                                         inside: bool)
    requires IsRun(states, steps) && j < |states|
    ensures CallIs(states[j], c, Unsubscribe(b, inside, NoSuch)) <==>
      exists i :: 0 <= i < j && steps[i] == Go(c) && CallIs(states[i], c, Unsubscribe(b, inside, Removing)) &&
        b !in states[i].table
  {
    hide CanStep, After;
    if j > 0 {
      NoSuchExactly(states, steps, j - 1, c, b, inside);
      StepNoSuch(states[j - 1], steps[j - 1], c, b, inside);
    }
  }

  predicate Found(s: State, c: CallId, b: SubId, inside: bool) {
    c in s.calls && s.calls[c].Unsubscribe? && s.calls[c].sub == b && s.calls[c].inside == inside &&
    s.calls[c].to in {Clearing, Aborting, Waiting, Unsubscribed}
  }

  lemma StepFinds(s: State, step: Step, c: CallId, b: SubId, inside: bool)
    requires CanStep(s, step)
    requires Found(s, c, b, inside) ||
      (step == Go(c) && CallIs(s, c, Unsubscribe(b, inside, Removing)) && b in s.table)
    ensures Found(After(s, step), c, b, inside)
  {
    hide CanGo, InHost, TaskAt;
    if step != Go(c) { OthersGo(s, step, c); hide After; }
  }

  lemma {:induction false} FoundStays(states: seq<State>, steps: seq<Step>, i: nat, j: nat, c: CallId, b: SubId,
                                      inside: bool)
    requires IsRun(states, steps) && i < j < |states| && steps[i] == Go(c)
    requires CallIs(states[i], c, Unsubscribe(b, inside, Removing)) && b in states[i].table
    ensures Found(states[j], c, b, inside)
    decreases j
  {
    hide CanStep, After, Found;
    if i < j - 1 { FoundStays(states, steps, i, j - 1, c, b, inside); }
    StepFinds(states[j - 1], steps[j - 1], c, b, inside);
  }

  /** The first unsubscribe of what a subscribe entered, which no close came to, finds it;
      what `UnsubscribedIsSilent` and `NeverCalledAgain` say of its return then holds. */
  lemma FirstFinds(states: seq<State>, steps: seq<Step>, i: nat, k: nat, j: nat, c: CallId, b: SubId, inside: bool)
    requires IsRun(states, steps) && i < k < j < |states|
    requires Enters(states[i], steps[i], b) && forall m :: i < m < k ==> !MayTake(states[m], steps[m], b)
    requires steps[k] == Go(c) && CallIs(states[k], c, Unsubscribe(b, inside, Removing))
    ensures Found(states[j], c, b, inside)
  {
    hide CanStep, After, Enters, MayTake, Found;
    NamedUntilTaken(states, steps, i, k, b);
    FoundStays(states, steps, k, j, c, b, inside);
  }

  // ----- which subscriptions a close ends -----

  /** The step is a subscribe's, putting `b` on the instance's list. */
  predicate Lists(s: State, step: Step, b: SubId) {
    step.Go? && CallIs(s, step.c, Subscribe(b, Listing))
  }

  /** The step is a close's, taking the whole list. */
  predicate TakesList(s: State, step: Step) {
    step.Go? && step.c in s.calls && s.calls[step.c].Close? && s.calls[step.c].stage == Taking
  }

  lemma StepList(s: State, step: Step, b: SubId)
    requires CanStep(s, step)
    ensures b in After(s, step).list <==> Lists(s, step, b) || (b in s.list && !TakesList(s, step))
  {}

  /** A subscription is on the list if and only if its subscribe put it there and no close
      has taken the list since. */
  lemma {:induction false} ListedExactly(states: seq<State>, steps: seq<Step>, j: nat, b: SubId)
    requires IsRun(states, steps) && j < |states|
    ensures b in states[j].list <==>
      exists i :: 0 <= i < j && Lists(states[i], steps[i], b) &&
        forall k :: i < k < j ==> !TakesList(states[k], steps[k])
  {
    hide CanStep, After, Lists, TakesList;
    if j > 0 {
      ListedExactly(states, steps, j - 1, b);
      StepList(states[j - 1], steps[j - 1], b);
      if b in states[j].list && !Lists(states[j - 1], steps[j - 1], b) {
        var i :| 0 <= i < j - 1 && Lists(states[i], steps[i], b) &&
          forall k :: i < k < j - 1 ==> !TakesList(states[k], steps[k]);
        assert forall k :: i < k < j ==> !TakesList(states[k], steps[k]);
      }
    }
  }

  predicate HasEntered(call: Call, b: SubId) {
    call.Subscribe? && call.sub == b && call.at in {Listing, Subscribed}
  }

  /** Its subscribe has entered `b`, and will not again. */
  ghost predicate Entered(s: State, b: SubId) {
    exists c :: c in s.calls && HasEntered(s.calls[c], b)
  }

  lemma EnteredOne(s: State, step: Step, c: CallId, b: SubId)
    requires CanStep(s, step)
    ensures c in s.calls && HasEntered(s.calls[c], b) ==>
      c in After(s, step).calls && HasEntered(After(s, step).calls[c], b)
    ensures c in After(s, step).calls && HasEntered(After(s, step).calls[c], b) ==>
      (c in s.calls && HasEntered(s.calls[c], b)) || (step == Go(c) && Enters(s, step, b))
  {}

  lemma StepEntered(s: State, step: Step, b: SubId)
    requires CanStep(s, step)
    ensures Entered(After(s, step), b) <==> Entered(s, b) || Enters(s, step, b)
  {
    hide CanStep, After, HasEntered, Enters;
    if c :| c in s.calls && HasEntered(s.calls[c], b) { EnteredOne(s, step, c, b); }
    if c :| c in After(s, step).calls && HasEntered(After(s, step).calls[c], b) { EnteredOne(s, step, c, b); }
    if Enters(s, step, b) { EntersOne(s, step, b); }
  }

  lemma EntersOne(s: State, step: Step, b: SubId)
    requires CanStep(s, step) && Enters(s, step, b)
    ensures step.c in After(s, step).calls && HasEntered(After(s, step).calls[step.c], b)
  {}

  /** What was entered and taken out never comes in again. */
  lemma NotAgain(s: State, step: Step, b: SubId)
    requires CallsRight(s) && CanStep(s, step) && Entered(s, b)
    ensures b !in s.table ==> b !in After(s, step).table
  {
    hide CallRight, After, CanStep;
    StepTable(s, step, b);
  }

  /** Has taken `b` out of the table, and is about to silence it. */
  predicate TakesOut(call: Call, b: SubId) {
    match call
    case Unsubscribe(sub, _, to) => sub == b && to == Clearing
    case Close(_, stage) => stage.Silencing? && stage.one == b
    case _ => false
  }

  /** Silenced, or about to be. */
  ghost predicate Hushed(s: State, b: SubId) {
    b in s.subs && (s.subs[b].active ==> exists c :: c in s.calls && TakesOut(s.calls[c], b))
  }

  lemma TakerStays(s: State, step: Step, c: CallId, b: SubId)
    requires CanStep(s, step) && b in s.subs && c in s.calls && TakesOut(s.calls[c], b)
    ensures b in After(s, step).subs
    ensures After(s, step).subs[b].active ==> c in After(s, step).calls && TakesOut(After(s, step).calls[c], b)
  {}

  lemma SilencedStays(s: State, step: Step, b: SubId)
    requires CanStep(s, step) && b in s.subs && !s.subs[b].active
    ensures b in After(s, step).subs && !After(s, step).subs[b].active
  {}

  lemma HushedStays(s: State, step: Step, b: SubId)
    requires CanStep(s, step) && Hushed(s, b)
    ensures Hushed(After(s, step), b)
  {
    hide CanStep, After, TakesOut;
    if s.subs[b].active {
      var c :| c in s.calls && TakesOut(s.calls[c], b);
      TakerStays(s, step, c, b);
    } else {
      SilencedStays(s, step, b);
    }
  }

  lemma TakenNow(s: State, step: Step, b: SubId)
    requires CanStep(s, step) && b in s.subs && b in s.table && b !in After(s, step).table
    ensures Hushed(After(s, step), b)
  {
    assert TakesOut(After(s, step).calls[step.c], b);
  }

  /** In every run, what was entered and is out of the table is silenced, or about to
      be. */
  lemma {:induction false} OutIsHushed(states: seq<State>, steps: seq<Step>, j: nat, b: SubId)
    requires IsRun(states, steps) && j < |states| && Entered(states[j], b) && b !in states[j].table
    ensures Hushed(states[j], b)
  {
    hide CanStep, After, Hushed, Entered, Inv, Enters;
    if j == 0 {
      NoneEntered(b);
    } else {
      var s, step := states[j - 1], steps[j - 1];
      StepEntered(s, step, b);
      StepTable(s, step, b);
      RunInv(states, steps, j - 1);
      if b in s.table {
        TableSpawned(s, b);
        TakenNow(s, step, b);
      } else {
        OutIsHushed(states, steps, j - 1, b);
        HushedStays(s, step, b);
      }
    }
  }

  lemma NoneEntered(b: SubId)
    ensures !Entered(Init(), b)
  {}

  lemma TableSpawned(s: State, b: SubId)
    requires Inv(s) && b in s.table
    ensures b in s.subs
  {}

  /** Whoever has taken `b` out of the table is the one call that did. */
  ghost predicate TakerRight(s: State, b: SubId) {
    && (forall c, d :: c in s.calls && d in s.calls && TakesOut(s.calls[c], b) && TakesOut(s.calls[d], b) ==> c == d)
    && (forall c :: c in s.calls && TakesOut(s.calls[c], b) ==> Entered(s, b) && b !in s.table)
    && (b in s.table ==> Entered(s, b))
  }

  /** A call comes to have taken `b` by taking it. */
  lemma TakerOne(s: State, step: Step, c: CallId, b: SubId)
    requires CanStep(s, step) && c in After(s, step).calls && TakesOut(After(s, step).calls[c], b)
    ensures (c in s.calls && TakesOut(s.calls[c], b)) || (step == Go(c) && b in s.table && b !in After(s, step).table)
  {
    hide InHost, TaskAt;
    if step != Go(c) { OthersGo(s, step, c); hide After; }
  }

  lemma TakerStep(s: State, step: Step, b: SubId)
    requires CallsRight(s) && CanStep(s, step) && TakerRight(s, b)
    ensures TakerRight(After(s, step), b)
  {
    hide CallRight, CallsRight, After, CanStep, TakesOut, Entered, Enters;
    var u := After(s, step);
    StepEntered(s, step, b);
    StepTable(s, step, b);
    if Entered(s, b) { NotAgain(s, step, b); }
    forall c | c in u.calls && TakesOut(u.calls[c], b)
      ensures (c in s.calls && TakesOut(s.calls[c], b)) || (step == Go(c) && b in s.table && b !in u.table)
    {
      TakerOne(s, step, c, b);
    }
  }

  lemma {:induction false} OneTaker(states: seq<State>, steps: seq<Step>, j: nat, b: SubId)
    requires IsRun(states, steps) && j < |states|
    ensures TakerRight(states[j], b)
  {
    hide CanStep, After, Inv, TakesOut;
    if j > 0 {
      OneTaker(states, steps, j - 1, b);
      hide TakerRight;
      RunInv(states, steps, j - 1);
      CallsHold(states[j - 1]);
      TakerStep(states[j - 1], steps[j - 1], b);
    }
  }

  /** How far the close `c` is with `b`, which was on the list it took. */
  predicate Ends(s: State, c: CallId, b: SubId, inside: bool) {
    c in s.calls && s.calls[c].Close? && s.calls[c].inside == inside &&
    match s.calls[c].stage
    case Taking => false
    case Ending(left) => b in left || b !in s.table
    case Silencing(_, left) => b in left || b !in s.table
    case _ => b !in s.table
  }

  lemma StepEnds(s: State, step: Step, c: CallId, b: SubId, inside: bool)
    requires CanStep(s, step) && (b !in s.table ==> b !in After(s, step).table)
    requires Ends(s, c, b, inside) || (step == Go(c) && CallIs(s, c, Close(inside, Taking)) && b in s.list)
    ensures Ends(After(s, step), c, b, inside)
  {
    hide CanGo, InHost, TaskAt;
    if step != Go(c) { OthersGo(s, step, c); hide After; }
  }

  lemma {:induction false} ListEntered(states: seq<State>, steps: seq<Step>, j: nat, b: SubId)
    requires IsRun(states, steps) && j < |states| && b in states[j].list
    ensures Entered(states[j], b)
  {
    hide CanStep, After, Entered, Lists, TakesList, Enters;
    if j > 0 {
      var s, step := states[j - 1], steps[j - 1];
      StepList(s, step, b);
      StepEntered(s, step, b);
      if Lists(s, step, b) { ListsEntered(s, step, b); } else { ListEntered(states, steps, j - 1, b); }
    }
  }

  lemma ListsEntered(s: State, step: Step, b: SubId)
    requires Lists(s, step, b)
    ensures Entered(s, b)
  {
    assert HasEntered(s.calls[step.c], b);
  }

  /** A close goes through all of the list it took. */
  lemma {:induction false} CloseEnds(states: seq<State>, steps: seq<Step>, i: nat, j: nat, c: CallId, b: SubId,
                                     inside: bool)
    requires IsRun(states, steps) && i < j < |states| && steps[i] == Go(c)
    requires CallIs(states[i], c, Close(inside, Taking)) && b in states[i].list
    ensures Ends(states[j], c, b, inside) && Entered(states[j], b)
    decreases j
  {
    hide CanStep, After, Ends, Entered, Inv, Enters;
    if i < j - 1 { CloseEnds(states, steps, i, j - 1, c, b, inside); } else { ListEntered(states, steps, i, b); }
    var s, step := states[j - 1], steps[j - 1];
    RunInv(states, steps, j - 1);
    CallsHold(s);
    StepEntered(s, step, b);
    NotAgain(s, step, b);
    StepEnds(s, step, c, b, inside);
  }

  lemma CallsHold(s: State)
    requires Inv(s)
    ensures CallsRight(s)
  {
    hide CallsRight, ThreadRight, LogRight;
  }

  /** Once a close has returned, no handle names what was on the list it took, now or
      ever after; and each of those is silenced, or was taken by another call that is
      about to. */
  lemma ClosedNamesNone(states: seq<State>, steps: seq<Step>, i: nat, j: nat, c: CallId, b: SubId, inside: bool)
    requires IsRun(states, steps) && i < j < |states| && steps[i] == Go(c)
    requires CallIs(states[i], c, Close(inside, Taking)) && b in states[i].list
    requires CallIs(states[j], c, Close(inside, Closed))
    ensures b !in states[j].table && Hushed(states[j], b)
  {
    hide CanStep, After, Entered, Hushed;
    CloseEnds(states, steps, i, j, c, b, inside);
    OutIsHushed(states, steps, j, b);
  }

  /** A close that is done asking, whatever thread it is on, has asked. */
  predicate HasAsked(s: State, c: CallId) {
    c in s.calls && s.calls[c].Close? && (s.calls[c].stage == Joining || s.calls[c].stage == Closed) ==> s.stopAsked
  }

  lemma StepAsks(s: State, step: Step, c: CallId)
    requires CanStep(s, step) && HasAsked(s, c)
    ensures HasAsked(After(s, step), c)
  {
    hide InHost, TaskAt;
    if s.stopAsked { AskedStays(s, step); }
    if step != Go(c) { OthersGo(s, step, c); hide After; }
  }

  lemma AskedStays(s: State, step: Step)
    requires CanStep(s, step) && s.stopAsked
    ensures After(s, step).stopAsked
  {
    hide InHost, TaskAt;
  }

  /** In every run, once a close has returned the events thread is asked to end, and
      until it has it has a step to take. */
  lemma {:induction false} ClosedAsks(states: seq<State>, steps: seq<Step>, j: nat, c: CallId)
    requires IsRun(states, steps) && j < |states|
    ensures HasAsked(states[j], c)
    ensures c in states[j].calls && states[j].calls[c].Close? && Returned(states[j].calls[c]) ==>
      states[j].loop == Ended || exists step :: CanStep(states[j], step) && IsEventsThread(states[j], step)
  {
    hide CanStep, After, IsEventsThread;
    RunInv(states, steps, j);
    hide Inv;
    if j > 0 {
      ClosedAsks(states, steps, j - 1, c);
      StepAsks(states[j - 1], steps[j - 1], c);
    }
    if states[j].stopAsked && states[j].loop != Ended { AskedGoesOn(states[j]); }
  }

  /** The step is a close's, asking the events thread to end. */
  predicate Asks(s: State, step: Step) {
    step.Go? && step.c in s.calls && s.calls[step.c].Close? && s.calls[step.c].stage == Signalling
  }

  lemma StepEnding(s: State, step: Step)
    requires CanStep(s, step)
    ensures After(s, step).stopAsked <==> s.stopAsked || Asks(s, step)
    ensures After(s, step).loop != Looping ==> s.loop != Looping || s.stopAsked
  {
    hide InHost, TaskAt;
  }

  /** In every run, the events thread is asked to end by a close alone, and ends for no
      other reason. */
  lemma {:induction false} AskedExactly(states: seq<State>, steps: seq<Step>, j: nat)
    requires IsRun(states, steps) && j < |states|
    ensures states[j].stopAsked <==> exists i :: 0 <= i < j && Asks(states[i], steps[i])
    ensures states[j].loop != Looping ==> states[j].stopAsked
  {
    hide CanStep, After, Asks;
    if j > 0 {
      AskedExactly(states, steps, j - 1);
      StepEnding(states[j - 1], steps[j - 1]);
    }
  }

  /** In its callback and in its release alike, the host may call on the events thread. */
  lemma InsideBegins(s: State, b: SubId, task: Task, c: CallId, other: SubId)
    requires s.busy == Some(b) && TaskAt(s, b, task) && (task == Calling || task == Dropping) && c !in s.calls
    ensures CanStep(s, NewUnsubscribe(c, other, true)) && CanStep(s, NewClose(c, true))
  {}

  // ----- silence -----

  /** Silenced, and not between the look and the callback. */
  predicate Quiet(s: State, b: SubId) {
    b in s.subs && !s.subs[b].active && s.subs[b].task != Checked
  }

  lemma StepQuiet(s: State, step: Step, b: SubId)
    requires CanStep(s, step) && Quiet(s, b)
    ensures Quiet(After(s, step), b) && Callback(b) !in Told(s, step)
  {
    hide InHost;
  }

  lemma {:induction false} QuietStays(states: seq<State>, steps: seq<Step>, i: nat, j: nat, b: SubId)
    requires IsRun(states, steps) && i <= j < |states| && Quiet(states[i], b)
    ensures Quiet(states[j], b) && states[i].log <= states[j].log
    ensures forall k :: |states[i].log| <= k < |states[j].log| ==> states[j].log[k] != Callback(b)
    decreases j
  {
    hide CanStep, After, Init, Quiet, Told;
    if i < j {
      QuietStays(states, steps, i, j - 1, b);
      StepQuiet(states[j - 1], steps[j - 1], b);
      StepTells(states[j - 1], steps[j - 1]);
    }
  }

  /** As a call on the events thread makes a step, that thread is in the host's code, so
      about to call nobody back. */
  lemma InsideQuiet(s: State, c: CallId, b: SubId)
    requires Inv(s) && CanGo(s, c) && Inside(s.calls[c])
    ensures b in After(s, Go(c)).subs ==> After(s, Go(c)).subs[b].task != Checked
  {
    hide LogRight, After;
    assert CallRight(s, s.calls[c]) && !Returned(s.calls[c]);
    GoSteps(s, c);
    assert b in s.subs ==> SubMoved(s.subs[b], After(s, Go(c)).subs[b], Spawns(s, s.calls[c], b));
  }

  /** A close made on the events thread has, when it returns, silenced what was on the list
      it took: no callback of any follows, but of one that another call had taken and is
      yet to silence. */
  lemma InsideCloseSilences(states: seq<State>, steps: seq<Step>, i: nat, m: nat, j: nat, c: CallId, b: SubId)
    requires IsRun(states, steps) && i < m < j < |states| && steps[i] == Go(c) == steps[m]
    requires CallIs(states[i], c, Close(true, Taking)) && b in states[i].list
    requires CallIs(states[m + 1], c, Close(true, Closed))
    ensures Hushed(states[m + 1], b)
    ensures !states[m + 1].subs[b].active ==>
      forall k :: |states[m + 1].log| <= k < |states[j].log| ==> states[j].log[k] != Callback(b)
  {
    hide CanStep, After, Inv;
    ClosedNamesNone(states, steps, i, m + 1, c, b, true);
    RunInv(states, steps, m);
    GoInside(states[m], c);
    InsideQuiet(states[m], c, b);
    if !states[m + 1].subs[b].active { QuietStays(states, steps, m + 1, j, b); }
  }

  lemma GoInside(s: State, c: CallId)
    requires CanStep(s, Go(c)) && Inv(s)
    ensures CanGo(s, c) && c in After(s, Go(c)).calls && Inside(After(s, Go(c)).calls[c]) == Inside(s.calls[c])
  {
    hide CallRight, LogRight, After;
    GoSteps(s, c);
  }

  // ----- calls left alone -----

  /** How far a call is from its return: the stretch it is on, and what is left there. */
  function Distance(call: Call): (nat, nat) {
    match call
    case Subscribe(_, at) => (match at case Spawning => 3 case Entering => 2 case Listing => 1 case Subscribed => 0, 0)
    case Unsubscribe(_, _, to) =>
      (match to case Removing => 4 case Clearing => 3 case Aborting => 2 case Waiting => 1 case _ => 0, 0)
    case Close(_, stage) => (match stage
      case Taking => (4, 0)
      case Ending(left) => (3, 2 * |left|)
      case Silencing(_, left) => (3, 2 * |left| + 1)
      case Signalling => (2, 0)
      case Joining => (1, 0)
      case Closed => (0, 0))
  }

  predicate Nearer(call: Call, was: Call) {
    Distance(call).0 < Distance(was).0 || (Distance(call).0 == Distance(was).0 && Distance(call).1 < Distance(was).1)
  }

  lemma CloseNearer(s: State, c: CallId, inside: bool, stage: ClosePc)
    requires stage != Closed
    ensures c in GoClose(s, c, inside, stage).calls
    ensures Nearer(GoClose(s, c, inside, stage).calls[c], Close(inside, stage))
  {}

  lemma OtherNearer(s: State, c: CallId)
    requires CanGo(s, c) && !s.calls[c].Close?
    ensures c in After(s, Go(c)).calls && Nearer(After(s, Go(c)).calls[c], s.calls[c])
  {
    hide GoClose;
  }

  /** Every step of its own brings a call nearer to its return, so it takes only so
      many. */
  lemma GoNearer(s: State, c: CallId)
    requires CanGo(s, c)
    ensures c in After(s, Go(c)).calls && Nearer(After(s, Go(c)).calls[c], s.calls[c])
  {
    hide Nearer, GoClose, GoSubscribe, GoUnsubscribe;
    if s.calls[c].Close? { CloseNearer(s, c, s.calls[c].inside, s.calls[c].stage); } else { OtherNearer(s, c); }
  }

  /** `u` is what the steps make of `s`, one after the other. */
  ghost predicate Path(s: State, steps: seq<Step>, u: State)
    decreases |steps|
  {
    if steps == [] then u == s else CanStep(s, steps[0]) && Path(After(s, steps[0]), steps[1..], u)
  }

  lemma PathThree(s: State, one: Step, two: Step, three: Step, u: State)
    requires CanStep(s, one) && CanStep(After(s, one), two) && CanStep(After(After(s, one), two), three)
    requires u == After(After(After(s, one), two), three)
    ensures Path(s, [one, two, three], u)
  {
    hide CanStep, After;
    assert [one, two, three][1..] == [two, three] && [two, three][1..] == [three] && [three][1..] == [];
    assert Path(After(After(s, one), two), [three], u);
    assert Path(After(s, one), [two, three], u);
  }

  /** A subscribe returns after three steps of its own, its handle good, on the list, and
      active. */
  lemma SubscribeAlone(s: State, c: CallId, b: SubId) returns (u: State)
    requires CanStep(s, NewSubscribe(c, b)) && s.loop != Ended
    ensures Path(After(s, NewSubscribe(c, b)), [Go(c), Go(c), Go(c)], u)
    ensures u == s.(calls := s.calls[c := Subscribe(b, Subscribed)], subs := s.subs[b := Sub(true, false, Idle, false)],
      table := s.table + {b}, list := s.list + {b})
  {
    var begun := After(s, NewSubscribe(c, b));
    u := After(After(After(begun, Go(c)), Go(c)), Go(c));
    PathThree(begun, Go(c), Go(c), Go(c), u);
  }

  /** An event for an active subscription is one callback, and leaves the rest as it
      was. */
  lemma DeliverAlone(s: State, b: SubId) returns (u: State)
    requires b in s.subs && s.subs[b].task == Idle && s.subs[b].active && !s.subs[b].aborted
    requires s.busy.None? && s.loop == Looping && InsideDone(s)
    ensures Path(s, [Check(b), CallBack(b), CallEnds(b)], u)
    ensures u == s.(log := s.log + [Callback(b)])
  {
    u := After(After(After(s, Check(b)), CallBack(b)), CallEnds(b));
    PathThree(s, Check(b), CallBack(b), CallEnds(b), u);
    assert u.subs == s.subs;
  }

  /** An unsubscribe has silenced and aborted the subscription after three steps of its
      own; made on the events thread it has returned. */
  lemma UnsubscribeAlone(s: State, c: CallId, b: SubId, inside: bool) returns (u: State)
    requires CallIs(s, c, Unsubscribe(b, inside, Removing)) && b in s.subs && b in s.table
    ensures Path(s, [Go(c), Go(c), Go(c)], u)
    ensures u == s.(calls := s.calls[c := Unsubscribe(b, inside, if inside then Unsubscribed else Waiting)],
      subs := s.subs[b := s.subs[b].(active := false, aborted := true)], table := s.table - {b})
  {
    u := After(After(After(s, Go(c)), Go(c)), Go(c));
    PathThree(s, Go(c), Go(c), Go(c), u);
  }

  /** Elsewhere it waits for the release, which its task's end runs, and returns then. */
  lemma ReleaseAlone(s: State, c: CallId, b: SubId) returns (u: State)
    requires CallIs(s, c, Unsubscribe(b, false, Waiting)) && b in s.subs && s.subs[b].task == Idle
    requires s.busy.None? && s.loop != Ended && InsideDone(s)
    ensures Path(s, [Drop(b), DropEnds(b), Go(c)], u)
    ensures u == s.(calls := s.calls[c := Unsubscribe(b, false, Unsubscribed)], log := s.log + [Released(b)],
      subs := s.subs[b := s.subs[b].(task := Gone, done := true)])
  {
    u := After(After(After(s, Drop(b)), DropEnds(b)), Go(c));
    PathThree(s, Drop(b), DropEnds(b), Go(c), u);
  }
}
