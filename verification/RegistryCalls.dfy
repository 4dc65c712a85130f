/** What starts and stops answer, over every run, and how far each gets when left
    alone. */
module RegistryCalls {
  import opened Machine
  import opened Registry

  predicate StartAt(s: State, t: Tid, key: Key, at: StartPc) {
    t in s.threads && s.threads[t] == Start(key, at)
  }

  /** The id is starting or running. */
  predicate Taken(s: State, key: Key) {
    key in s.running || key in s.starting
  }

  /** A start of `key` that made the id its own. */
  predicate HasClaimed(s: State, t: Tid, key: Key) {
    IsOf(s, t, key) && s.threads[t].at !in {Entering, Claiming, InUse}
  }

  /** A start of `key` that became a run. */
  predicate HasRun(s: State, t: Tid, key: Key) {
    IsOf(s, t, key) && t in s.committed
  }

  /** A call's own steps alone move it, but that a start may fail and a run take a stop; a
      new one stands at its beginning. */
  lemma OthersGo(s: State, step: Step, t: Tid)
    requires CanStep(s, step) && step != Go(t)
    ensures t in s.threads ==> t in After(s, step).threads
    ensures t in s.threads ==>
      match step
      case Fail(p) => After(s, step).threads[t] == if p == t then Start(s.threads[t].key, Finishing) else s.threads[t]
      case Take(p) => After(s, step).threads[t] == if p == t then Start(s.threads[t].key, Stopping) else s.threads[t]
      case _ => After(s, step).threads[t] == s.threads[t]
    ensures t in After(s, step).threads && t !in s.threads ==>
      match After(s, step).threads[t]
      case Start(_, at) => at == Entering
      case Stop(_, to) => to == Looking
  {
    hide Notified, NextAt, RunningThen, StartingThen;
  }

  lemma StepRefuses(s: State, step: Step, t: Tid, key: Key)
    requires CanStep(s, step)
    ensures StartAt(After(s, step), t, key, InUse) <==>
      StartAt(s, t, key, InUse) || (step == Go(t) && StartAt(s, t, key, Claiming) && Taken(s, key))
  {
    hide Notified, RunningThen, StartingThen;
    if step != Go(t) { OthersGo(s, step, t); hide After; }
  }

  lemma StepClaims(s: State, step: Step, t: Tid, key: Key)
    requires CanStep(s, step)
    ensures HasClaimed(After(s, step), t, key) <==>
      HasClaimed(s, t, key) || (step == Go(t) && StartAt(s, t, key, Claiming) && !Taken(s, key))
  {
    hide Notified, RunningThen, StartingThen;
    if step != Go(t) { OthersGo(s, step, t); hide After; }
  }

  lemma StepRuns(s: State, step: Step, t: Tid, key: Key)
    requires StopsRight(s) && CanStep(s, step)
    ensures HasRun(After(s, step), t, key) <==>
      HasRun(s, t, key) || (step == Go(t) && StartAt(s, t, key, Deciding) && t !in s.stopped)
  {
    hide Notified, StopRight, RunningThen, StartingThen;
  }

  /** In every run, a start answers that its id is in use if and only if it was so as
      the start went to claim it. */
  lemma {:induction false} InUseExactly(states: seq<State>, steps: seq<Step>, j: nat, t: Tid, key: Key)
    requires IsRun(states, steps) && j < |states|
    ensures StartAt(states[j], t, key, InUse) <==>
      exists i :: 0 <= i < j && steps[i] == Go(t) && StartAt(states[i], t, key, Claiming) && Taken(states[i], key)
  {
    hide CanStep, After, Taken;
    if j > 0 {
      InUseExactly(states, steps, j - 1, t, key);
      StepRefuses(states[j - 1], steps[j - 1], t, key);
    }
  }

  /** And it makes the id its own if and only if the id was free. */
  lemma {:induction false} ClaimedExactly(states: seq<State>, steps: seq<Step>, j: nat, t: Tid, key: Key)
    requires IsRun(states, steps) && j < |states|
    ensures HasClaimed(states[j], t, key) <==>
      exists i :: 0 <= i < j && steps[i] == Go(t) && StartAt(states[i], t, key, Claiming) && !Taken(states[i], key)
  {
    hide CanStep, After, Taken;
    if j > 0 {
      ClaimedExactly(states, steps, j - 1, t, key);
      StepClaims(states[j - 1], steps[j - 1], t, key);
    }
  }

  /** A start becomes a run if and only if no stop had been told to it as it committed. */
  lemma {:induction false} RunsExactly(states: seq<State>, steps: seq<Step>, j: nat, t: Tid, key: Key)
    requires IsRun(states, steps) && j < |states|
    ensures HasRun(states[j], t, key) <==>
      exists i :: 0 <= i < j && steps[i] == Go(t) && StartAt(states[i], t, key, Deciding) && t !in states[i].stopped
  {
    hide CanStep, After, Inv;
    if j > 0 {
      RunsExactly(states, steps, j - 1, t, key);
      RunInv(states, steps, j - 1);
      MapsHold(states[j - 1]);
      StepRuns(states[j - 1], steps[j - 1], t, key);
    }
  }

  /** The step is a stop's, of `t`'s own id, that sets the flag of the start `t`. */
  predicate Flags(s: State, step: Step, t: Tid) {
    step.Go? && step.t in s.threads && s.threads[step.t].Stop? && s.threads[step.t].to == Marking(t) &&
    IsOf(s, t, s.threads[step.t].key)
  }

  lemma StepFlags(s: State, step: Step, t: Tid)
    requires MapsRight(s) && StopsRight(s) && CanStep(s, step)
    ensures t in After(s, step).stopped <==> t in s.stopped || Flags(s, step, t)
  {
    hide Notified, NextAt, RunningThen, StartingThen;
    if step.Go? && s.threads[step.t].Stop? {
      assert StopRight(s, s.threads[step.t].key, s.threads[step.t].to);
    }
  }

  /** A start is told to stop by a stop of its own id, and by nothing else. */
  lemma {:induction false} FlaggedExactly(states: seq<State>, steps: seq<Step>, j: nat, t: Tid)
    requires IsRun(states, steps) && j < |states|
    ensures t in states[j].stopped <==> exists i :: 0 <= i < j && Flags(states[i], steps[i], t)
  {
    hide CanStep, After, Inv, Flags;
    if j > 0 {
      FlaggedExactly(states, steps, j - 1, t);
      RunInv(states, steps, j - 1);
      MapsHold(states[j - 1]);
      StepFlags(states[j - 1], steps[j - 1], t);
    }
  }

  lemma StepCloses(s: State, step: Step, t: Tid)
    requires CanStep(s, step)
    ensures t in After(s, step).closed <==> t in s.closed || step == Close(t)
  {
    hide Notified, NextAt, RunningThen, StartingThen;
  }

  /** A run's channel is closed once it closed it, and stays so. */
  lemma {:induction false} ClosedExactly(states: seq<State>, steps: seq<Step>, j: nat, t: Tid)
    requires IsRun(states, steps) && j < |states|
    ensures t in states[j].closed <==> exists i :: 0 <= i < j && steps[i] == Close(t)
  {
    hide CanStep, After;
    if j > 0 {
      ClosedExactly(states, steps, j - 1, t);
      StepCloses(states[j - 1], steps[j - 1], t);
    }
  }

  /** Whoever waited for a start to be told and woke, or is to wake, waited for one told. */
  predicate WokenRight(s: State, w: nat) {
    w in s.waiters && (s.waiters[w].pc == Awake || s.waiters[w].notified) ==> s.waiters[w].start in s.stopped
  }

  lemma StepWakes(s: State, step: Step, w: nat)
    requires StopsRight(s) && CanStep(s, step) && WokenRight(s, w)
    ensures WokenRight(After(s, step), w)
  {
    hide NextAt, RunningThen, StartingThen;
    if step.Go? && s.threads[step.t].Stop? {
      assert StopRight(s, s.threads[step.t].key, s.threads[step.t].to);
    }
  }

  lemma {:induction false} WokenAreTold(states: seq<State>, steps: seq<Step>, j: nat, w: nat)
    requires IsRun(states, steps) && j < |states|
    ensures WokenRight(states[j], w)
  {
    hide CanStep, After, Inv;
    if j > 0 {
      WokenAreTold(states, steps, j - 1, w);
      hide WokenRight;
      RunInv(states, steps, j - 1);
      MapsHold(states[j - 1]);
      StepWakes(states[j - 1], steps[j - 1], w);
    }
  }

  lemma MapsHold(s: State)
    requires Inv(s)
    ensures MapsRight(s) && StopsRight(s)
  {
    hide LocksRight, MapsRight, StopsRight, WaitersRight;
  }

  // ----- calls left alone -----

  /** How many steps of its own a call takes at most before it returns. */
  function Distance(thread: Thread): nat {
    match thread
    case Start(_, at) => (match at
      case Entering => 9
      case Claiming => 8
      case Preparing => 7
      case Committing => 6
      case Deciding => 5
      case Running => 4
      case Stopping => 3
      case Declining => 2
      case Ending => 2
      case Finishing => 1
      case _ => 0)
    case Stop(_, to) => (match to
      case Looking => 5
      case LookingFurther => 4
      case Marking(_) => 3
      case Telling(_) => 2
      case Leaving(_) => 1
      case Sending(_) => 1
      case _ => 0)
  }

  lemma StartNearer(s: State, t: Tid, key: Key, at: StartPc)
    requires CanGo(s, t) && s.threads[t] == Start(key, at)
    ensures Distance(Start(key, NextAt(s, t, key, at))) < Distance(Start(key, at))
  {}

  lemma StopNearer(s: State, t: Tid, key: Key, to: StopPc)
    requires CanGo(s, t) && s.threads[t] == Stop(key, to)
    ensures t in GoStop(s, t, key, to).threads && Distance(GoStop(s, t, key, to).threads[t]) < Distance(Stop(key, to))
  {
    hide Notified;
  }

  /** Every step of its own brings a call nearer to its return. */
  lemma GoNearer(s: State, t: Tid)
    requires CanGo(s, t)
    ensures t in After(s, Go(t)).threads && Distance(After(s, Go(t)).threads[t]) < Distance(s.threads[t])
  {
    hide Distance, NextAt, GoStop;
    match s.threads[t]
    case Start(key, at) =>
      StartMoves(s, t);
      StartNearer(s, t, key, at);
    case Stop(key, to) => StopNearer(s, t, key, to);
  }

  /** `u` is what the steps make of `s`, one after the other. */
  ghost predicate Path(s: State, steps: seq<Step>, u: State)
    decreases |steps|
  {
    if steps == [] then u == s else CanStep(s, steps[0]) && Path(After(s, steps[0]), steps[1..], u)
  }

  predicate Unlocked(s: State) {
    s.runningLock.None? && s.startingLock.None?
  }

  lemma PathOne(s: State, step: Step, rest: seq<Step>, u: State)
    requires CanStep(s, step) && Path(After(s, step), rest, u)
    ensures Path(s, [step] + rest, u)
  {
    hide CanStep, After;
    assert ([step] + rest)[1..] == rest;
  }

  lemma {:induction false} PathJoin(s: State, first: seq<Step>, middle: State, rest: seq<Step>, u: State)
    requires Path(s, first, middle) && Path(middle, rest, u)
    ensures Path(s, first + rest, u)
    decreases |first|
  {
    hide CanStep, After;
    if first == [] {
      assert first + rest == rest;
    } else {
      PathJoin(After(s, first[0]), first[1..], middle, rest, u);
      assert (first + rest)[1..] == first[1..] + rest;
    }
  }

  /** Two steps of `t`. */
  lemma PathTwo(s: State, t: Tid, u: State)
    requires CanGo(s, t) && CanGo(After(s, Go(t)), t) && u == After(After(s, Go(t)), Go(t))
    ensures Path(s, [Go(t), Go(t)], u)
  {
    hide After, CanGo;
    PathOne(After(s, Go(t)), Go(t), [], u);
    PathOne(s, Go(t), [Go(t)], u);
  }

  /** Three steps of `t`. */
  lemma PathThree(s: State, t: Tid, u: State)
    requires CanGo(s, t) && CanGo(After(s, Go(t)), t) && CanGo(After(After(s, Go(t)), Go(t)), t)
    requires u == After(After(After(s, Go(t)), Go(t)), Go(t))
    ensures Path(s, [Go(t), Go(t), Go(t)], u)
  {
    hide After, CanGo;
    PathTwo(After(s, Go(t)), t, u);
    PathOne(s, Go(t), [Go(t), Go(t)], u);
  }

  function Five(t: Tid): seq<Step> {
    [Go(t), Go(t), Go(t), Go(t), Go(t)]
  }

  lemma PathFive(s: State, t: Tid, middle: State, u: State)
    requires
      || (Path(s, [Go(t), Go(t)], middle) && Path(middle, [Go(t), Go(t), Go(t)], u))
      || (Path(s, [Go(t), Go(t), Go(t)], middle) && Path(middle, [Go(t), Go(t)], u))
    ensures Path(s, Five(t), u)
  {
    hide Path;
    if Path(s, [Go(t), Go(t)], middle) && Path(middle, [Go(t), Go(t), Go(t)], u) {
      PathJoin(s, [Go(t), Go(t)], middle, [Go(t), Go(t), Go(t)], u);
    } else {
      PathJoin(s, [Go(t), Go(t), Go(t)], middle, [Go(t), Go(t)], u);
    }
    assert [Go(t), Go(t)] + [Go(t), Go(t), Go(t)] == Five(t) == [Go(t), Go(t), Go(t)] + [Go(t), Go(t)];
  }

  /** A start that has built its instance comes to decide. */
  lemma StartDecides(s: State, t: Tid, key: Key) returns (u: State)
    requires StartAt(s, t, key, Preparing) && Unlocked(s)
    ensures Path(s, [Go(t), Go(t)], u)
    ensures u == s.(threads := s.threads[t := Start(key, Deciding)], runningLock := Some(t))
  {
    u := After(After(s, Go(t)), Go(t));
    PathTwo(s, t, u);
  }

  /** A start of a free id runs after five steps of its own. */
  lemma StartsAlone(s: State, t: Tid, key: Key) returns (u: State)
    requires StartAt(s, t, key, Entering) && Unlocked(s) && !Taken(s, key) && t !in s.stopped
    ensures Path(s, Five(t), u)
    ensures u == s.(threads := s.threads[t := Start(key, Running)], running := s.running[key := t],
      committed := s.committed + {t})
  {
    var middle := After(After(s, Go(t)), Go(t));
    PathTwo(s, t, middle);
    assert middle == s.(threads := s.threads[t := Start(key, Preparing)], starting := s.starting[key := t]);
    u := CommitsAlone(middle, t, key);
    assert (s.starting[key := t]) - {key} == s.starting;
    PathFive(s, t, middle, u);
  }

  lemma CommitsAlone(s: State, t: Tid, key: Key) returns (u: State)
    requires Unlocked(s) && StartAt(s, t, key, Preparing) && t !in s.stopped
    ensures Path(s, [Go(t), Go(t), Go(t)], u)
    ensures u == s.(threads := s.threads[t := Start(key, Running)], running := s.running[key := t],
      starting := s.starting - {key}, committed := s.committed + {t})
  {
    u := After(After(After(s, Go(t)), Go(t)), Go(t));
    PathThree(s, t, u);
  }

  lemma StartingEntry(s: State, t: Tid, key: Key)
    requires Inv(s) && StartAt(s, t, key, Preparing)
    ensures t !in s.committed && key !in s.running && key in s.starting && s.starting[key] == t
  {
    assert IsStarting(s.threads[t], t in s.committed);
  }

  /** A stop of a starting id tells the start after five steps of its own. */
  lemma StopTells(s: State, p: Tid, t: Tid, key: Key) returns (u: State)
    requires Inv(s) && Unlocked(s) && p in s.threads && s.threads[p] == Stop(key, Looking)
    requires StartAt(s, t, key, Preparing)
    ensures Path(s, Five(p), u)
    ensures u == s.(threads := s.threads[p := Stop(key, ToldStart(t))], stopped := s.stopped + {t},
      waiters := u.waiters)
    ensures AllTold(s, u, t)
  {
    hide Inv, LocksRight, MapsRight, StopsRight, WaitersRight, After;
    StartingEntry(s, t, key);
    var middle := StopFinds(s, p, t, key);
    u := TellsOn(middle, p, t, key);
    PathFive(s, p, middle, u);
  }

  lemma StopFinds(s: State, p: Tid, t: Tid, key: Key) returns (u: State)
    requires Unlocked(s) && p in s.threads && s.threads[p] == Stop(key, Looking)
    requires key !in s.running && key in s.starting && s.starting[key] == t
    ensures Path(s, [Go(p), Go(p)], u)
    ensures u == s.(threads := s.threads[p := Stop(key, Marking(t))], runningLock := Some(p), startingLock := Some(p))
  {
    u := After(After(s, Go(p)), Go(p));
    PathTwo(s, p, u);
  }

  /** Every waiter for `t` has its wake-up, and no other changed. */
  ghost predicate AllTold(s: State, u: State, t: Tid) {
    && u.waiters.Keys == s.waiters.Keys
    && forall w :: w in s.waiters ==>
         u.waiters[w] == if s.waiters[w].start == t then s.waiters[w].(notified := true) else s.waiters[w]
  }

  lemma TellsOn(s: State, p: Tid, t: Tid, key: Key) returns (u: State)
    requires p in s.threads && s.threads[p] == Stop(key, Marking(t))
    ensures Path(s, [Go(p), Go(p), Go(p)], u)
    ensures u == s.(threads := s.threads[p := Stop(key, ToldStart(t))], stopped := s.stopped + {t},
      runningLock := None, startingLock := None, waiters := u.waiters)
    ensures AllTold(s, u, t)
  {
    hide Notified;
    u := After(After(After(s, Go(p)), Go(p)), Go(p));
    PathThree(s, p, u);
  }

  /** A start so told is over after five steps of its own, and never ran. */
  lemma StartDeclines(s: State, t: Tid, key: Key) returns (u: State)
    requires Inv(s) && Unlocked(s) && StartAt(s, t, key, Preparing) && t in s.stopped
    ensures Path(s, Five(t), u)
    ensures u == s.(threads := s.threads[t := Start(key, Finished)], starting := s.starting - {key})
  {
    hide Inv, LocksRight, MapsRight, StopsRight, WaitersRight, After;
    StartingEntry(s, t, key);
    var middle := StartDecides(s, t, key);
    u := DeclinesOn(middle, t, key);
    PathFive(s, t, middle, u);
  }

  lemma DeclinesOn(s: State, t: Tid, key: Key) returns (u: State)
    requires StartAt(s, t, key, Deciding) && t in s.stopped && s.runningLock == Some(t) && s.startingLock.None?
    requires key in s.starting && s.starting[key] == t
    ensures Path(s, [Go(t), Go(t), Go(t)], u)
    ensures u == s.(threads := s.threads[t := Start(key, Finished)], starting := s.starting - {key},
      runningLock := None)
  {
    u := After(After(After(s, Go(t)), Go(t)), Go(t));
    PathThree(s, t, u);
  }

  lemma RunningEntry(s: State, t: Tid, key: Key)
    requires Inv(s) && StartAt(s, t, key, Running)
    ensures key in s.running && s.running[key] == t && key !in s.starting
  {
    assert IsRunning(s.threads[t]);
  }

  /** A stop of a running id sends to the run after two steps of its own. */
  lemma StopSends(s: State, p: Tid, t: Tid, key: Key) returns (u: State)
    requires Inv(s) && Unlocked(s) && p in s.threads && s.threads[p] == Stop(key, Looking)
    requires StartAt(s, t, key, Running) && t !in s.closed
    ensures Path(s, [Go(p), Go(p)], u)
    ensures u == s.(threads := s.threads[p := Stop(key, ToldRun(t))], channel := s.channel + {t})
  {
    RunningEntry(s, t, key);
    hide Inv;
    u := After(After(s, Go(p)), Go(p));
    PathTwo(s, p, u);
  }

  /** A run takes what was sent to it and is over after three steps more, its id free
      again. */
  lemma RunEnds(s: State, t: Tid, key: Key) returns (u: State)
    requires Inv(s) && Unlocked(s) && StartAt(s, t, key, Running) && t in s.channel
    ensures Path(s, [Take(t), Go(t), Go(t), Go(t)], u)
    ensures u == s.(threads := s.threads[t := Start(key, Finished)], running := s.running - {key},
      channel := s.channel - {t})
  {
    hide Inv, LocksRight, MapsRight, StopsRight, WaitersRight, After;
    RunningEntry(s, t, key);
    TakesOne(s, t, key);
    u := LeavesAlone(After(s, Take(t)), t, key);
    PathOne(s, Take(t), [Go(t), Go(t), Go(t)], u);
  }

  lemma TakesOne(s: State, t: Tid, key: Key)
    requires StartAt(s, t, key, Running) && t in s.channel
    ensures CanStep(s, Take(t))
    ensures After(s, Take(t)) == s.(threads := s.threads[t := Start(key, Stopping)], channel := s.channel - {t})
  {}

  lemma LeavesAlone(s: State, t: Tid, key: Key) returns (u: State)
    requires Unlocked(s) && StartAt(s, t, key, Stopping)
    requires key in s.running && s.running[key] == t && key !in s.starting
    ensures Path(s, [Go(t), Go(t), Go(t)], u)
    ensures u == s.(threads := s.threads[t := Start(key, Finished)], running := s.running - {key})
  {
    u := After(After(After(s, Go(t)), Go(t)), Go(t));
    PathThree(s, t, u);
  }
}
