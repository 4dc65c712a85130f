/** Starting and stopping instances: two locked maps, a stop flag with a notify, and
    a one-place channel to a running instance, as interleaved atomic steps. */
module Registry {
  import opened Machine

  type Key = nat
  /** A call of `start` or `shutdown`; a start's id is also the identity of its
      `Starting` and of the runtime manager it registers. */
  type Tid = nat

  datatype StartPc =
    | Entering            // start: about to lock the running map
    | Claiming            // holds the running map, about to lock the starting one
    | InUse               // returned: the id was taken
    | Preparing           // registered as starting, building the instance
    | Committing          // about to lock the running map to commit
    | Deciding            // holds the running map, about to lock the starting one
    | Declining           // told to stop: holds the starting map, the running one let go
    | Running             // registered as running
    | Stopping            // still registered, having taken a stop from its channel
    | Ending              // the run is over, about to lock the running map
    | Finishing           // about to lock the starting map
    | Finished            // returned

  datatype StopPc =
    | Looking             // shutdown: about to lock the running map
    | LookingFurther      // holds the running map: not running; about to lock the starting one
    | Marking(start: Tid) // holds both maps: about to set the start's flag
    | Telling(start: Tid) // holds both maps: flag set, about to notify
    | Leaving(told: Option<Tid>) // holds the starting map, the running one let go
    | Sending(run: Tid)   // holds neither: about to send to the run
    | ToldStart(start: Tid) // returned true, by a start's flag
    | ToldRun(run: Tid)     // returned true, by a run's channel
    | ToldNone              // returned false

  datatype Thread = Start(key: Key, at: StartPc) | Stop(key: Key, to: StopPc)

  /** A task waiting in `stopped` for a start: enabled before it looks at the flag. */
  datatype WaiterPc = Enabled | Asleep | Awake
  datatype Waiter = Waiter(start: Tid, pc: WaiterPc, notified: bool)

  datatype State = State(
    running: map<Key, Tid>,
    starting: map<Key, Tid>,
    runningLock: Option<Tid>,
    startingLock: Option<Tid>,
    threads: map<Tid, Thread>,
    stopped: set<Tid>,     // starts whose flag is set
    committed: set<Tid>,   // starts that became runs, ever
    channel: set<Tid>,     // runs with a stop in their one-place channel
    closed: set<Tid>,      // runs whose channel is gone
    waiters: map<nat, Waiter>)

  datatype Step =
    | NewStart(t: Tid, key: Key)
    | NewStop(t: Tid, key: Key)
    | Go(t: Tid)               // the thread's next atomic step
    | Fail(t: Tid)             // the start ends before it commits
    | NewWaiter(w: nat, t: Tid)
    | Look(w: nat)             // the waiter looks at the flag
    | Wake(w: nat)
    | Take(t: Tid)             // the run takes the stop from its channel
    | Close(t: Tid)            // the ended run's channel goes

  function Init(): State {
    State(map[], map[], None, None, map[], {}, {}, {}, {}, map[])
  }

  function With(s: State, t: Tid, thread: Thread): State {
    s.(threads := s.threads[t := thread])
  }

  /** Whether the thread's next step can be taken: what it waits for is free. */
  predicate CanGo(s: State, t: Tid) {
    t in s.threads &&
    match s.threads[t]
    case Start(_, at) => (match at
      case Entering => s.runningLock.None?
      case Claiming => s.startingLock.None?
      case Preparing => true
      case Committing => s.runningLock.None?
      case Deciding => s.startingLock.None?
      case Declining => true
      case Running => true
      case Stopping => true
      case Ending => s.runningLock.None?
      case Finishing => s.startingLock.None?
      case _ => false)
    case Stop(_, to) => (match to
      case Looking => s.runningLock.None?
      case LookingFurther => s.startingLock.None?
      case Marking(_) => true
      case Telling(_) => true
      case Leaving(_) => true
      case Sending(_) => true
      case _ => false)
  }

  predicate CanStep(s: State, step: Step) {
    match step
    case NewStart(t, _) => t !in s.threads
    case NewStop(t, _) => t !in s.threads
    case Go(t) => CanGo(s, t)
    case Fail(t) => t in s.threads && s.threads[t].Start? && s.threads[t].at == Preparing
    case NewWaiter(w, t) => w !in s.waiters && t in s.threads && s.threads[t].Start?
    case Look(w) => w in s.waiters && s.waiters[w].pc == Enabled
    case Wake(w) => w in s.waiters && s.waiters[w].pc == Asleep && s.waiters[w].notified
    case Take(t) => t in s.threads && s.threads[t].Start? && s.threads[t].at == Running && t in s.channel
    case Close(t) =>
      && t in s.committed && t in s.threads && s.threads[t].Start?
      && (s.threads[t].at == Ending || s.threads[t].at == Finishing || s.threads[t].at == Finished)
  }

  /** Where a start stands after its next step. */
  function NextAt(s: State, t: Tid, key: Key, at: StartPc): StartPc {
    match at
    case Entering => Claiming
    case Claiming => if key in s.running || key in s.starting then InUse else Preparing
    case Preparing => Committing
    case Committing => Deciding
    case Deciding => if t in s.stopped then Declining else Running
    case Declining => Finishing
    case Running => Ending
    case Stopping => Ending
    case Ending => Finishing
    case Finishing => Finished
    case _ => at
  }

  /** The running map after a start's step to `to`: it is entered by the commit, and an
      ending run takes its own entry out. */
  function RunningThen(s: State, t: Tid, key: Key, at: StartPc, to: StartPc): map<Key, Tid> {
    if at == Deciding && to == Running then s.running[key := t]
    else if at == Ending && key in s.running && s.running[key] == t then s.running - {key}
    else s.running
  }

  /** The starting map: entered by the claim, left by the commit, or at the end. */
  function StartingThen(s: State, t: Tid, key: Key, at: StartPc, to: StartPc): map<Key, Tid> {
    if at == Claiming && to == Preparing then s.starting[key := t]
    else if at == Deciding && to == Running then s.starting - {key}
    else if at == Finishing && key in s.starting && s.starting[key] == t then s.starting - {key}
    else s.starting
  }

  function GoStart(s: State, t: Tid, key: Key, at: StartPc): State
    requires t in s.threads
  {
    var to := NextAt(s, t, key, at);
    With(s, t, Start(key, to)).(
      runningLock := if to == Claiming || to == Deciding then Some(t)
                     else if at == Claiming || at == Deciding then None else s.runningLock,
      startingLock := if to == Declining then Some(t) else if at == Declining then None else s.startingLock,
      running := RunningThen(s, t, key, at, to),
      starting := StartingThen(s, t, key, at, to),
      committed := if at == Deciding && to == Running then s.committed + {t} else s.committed)
  }

  /** Every waiter of `start` told. */
  ghost function Notified(waiters: map<nat, Waiter>, start: Tid): (r: map<nat, Waiter>)
    ensures r.Keys == waiters.Keys
    ensures forall w :: w in waiters ==>
      r[w] == if waiters[w].start == start then waiters[w].(notified := true) else waiters[w]
    decreases waiters.Keys
  {
    if waiters == map[] then map[] else
    var w :| w in waiters;
    Notified(waiters - {w}, start)[w := if waiters[w].start == start then waiters[w].(notified := true) else waiters[w]]
  }

  ghost function GoStop(s: State, t: Tid, key: Key, to: StopPc): State
    requires t in s.threads
  {
    match to
    case Looking =>
      if key in s.running then With(s, t, Stop(key, Sending(s.running[key])))
      else With(s, t, Stop(key, LookingFurther)).(runningLock := Some(t))
    case LookingFurther =>
      if key in s.starting then With(s, t, Stop(key, Marking(s.starting[key]))).(startingLock := Some(t))
      else With(s, t, Stop(key, Leaving(None))).(runningLock := None, startingLock := Some(t))
    case Marking(start) => With(s, t, Stop(key, Telling(start))).(stopped := s.stopped + {start})
    case Telling(start) =>
      With(s, t, Stop(key, Leaving(Some(start)))).(runningLock := None, waiters := Notified(s.waiters, start))
    case Leaving(told) =>
      With(s, t, Stop(key, if told.Some? then ToldStart(told.value) else ToldNone)).(startingLock := None)
    case Sending(run) =>
      if run in s.closed then With(s, t, Stop(key, ToldNone))
      else With(s, t, Stop(key, ToldRun(run))).(channel := s.channel + {run})
    case _ => s
  }

  ghost function After(s: State, step: Step): State
    requires CanStep(s, step)
  {
    match step
    case NewStart(t, key) => With(s, t, Start(key, Entering))
    case NewStop(t, key) => With(s, t, Stop(key, Looking))
    case Go(t) => (match s.threads[t]
      case Start(key, at) => GoStart(s, t, key, at)
      case Stop(key, to) => GoStop(s, t, key, to))
    case Fail(t) => With(s, t, s.threads[t].(at := Finishing))
    case NewWaiter(w, t) => s.(waiters := s.waiters[w := Waiter(t, Enabled, false)])
    case Look(w) =>
      s.(waiters := s.waiters[w := s.waiters[w].(pc := if s.waiters[w].start in s.stopped then Awake else Asleep)])
    case Wake(w) => s.(waiters := s.waiters[w := s.waiters[w].(pc := Awake)])
    case Take(t) => With(s, t, s.threads[t].(at := Stopping)).(channel := s.channel - {t})
    case Close(t) => s.(closed := s.closed + {t})
  }

  // ----- the invariant -----

  predicate HoldsRunning(thread: Thread) {
    match thread
    case Start(_, at) => at == Claiming || at == Deciding
    case Stop(_, to) => to.LookingFurther? || to.Marking? || to.Telling?
  }

  predicate HoldsStarting(thread: Thread) {
    match thread
    case Start(_, at) => at == Declining
    case Stop(_, to) => to.Marking? || to.Telling? || to.Leaving?
  }

  /** Each lock is held by exactly the thread that stands where it holds it. */
  ghost predicate LocksRight(s: State) {
    && (forall t :: t in s.threads ==> (HoldsRunning(s.threads[t]) <==> s.runningLock == Some(t)))
    && (forall t :: t in s.threads ==> (HoldsStarting(s.threads[t]) <==> s.startingLock == Some(t)))
    && (s.runningLock.Some? ==> s.runningLock.value in s.threads)
    && (s.startingLock.Some? ==> s.startingLock.value in s.threads)
  }

  predicate IsStarting(thread: Thread, committed: bool) {
    thread.Start? && !committed &&
    (|| thread.at == Preparing || thread.at == Committing || thread.at == Deciding || thread.at == Declining
     || thread.at == Finishing)
  }

  predicate IsRunning(thread: Thread) {
    thread.Start? && (thread.at == Running || thread.at == Stopping || thread.at == Ending)
  }

  predicate IsOver(thread: Thread) {
    IsRunning(thread) || (thread.Start? && (thread.at == Finishing || thread.at == Finished))
  }

  /** The maps hold exactly the starts that stand where they are registered. */
  ghost predicate MapsRight(s: State) {
    && (forall k :: k in s.starting ==>
          && s.starting[k] in s.threads && s.threads[s.starting[k]].key == k
          && IsStarting(s.threads[s.starting[k]], s.starting[k] in s.committed))
    && (forall k :: k in s.running ==>
          s.running[k] in s.threads && s.threads[s.running[k]].key == k && IsRunning(s.threads[s.running[k]]))
    && (forall t :: t in s.threads && IsStarting(s.threads[t], t in s.committed) ==>
          s.threads[t].key in s.starting && s.starting[s.threads[t].key] == t)
    && (forall t :: t in s.threads && IsRunning(s.threads[t]) ==>
          s.threads[t].key in s.running && s.running[s.threads[t].key] == t)
    && s.starting.Keys !! s.running.Keys
  }

  /** A start told to stop never became a run; a stop under way stands by a start
      that is still registered; and what was told was of the id asked for. */
  ghost predicate StopsRight(s: State) {
    && s.stopped !! s.committed
    && (forall t :: t in s.committed ==> t in s.threads && IsOver(s.threads[t]))
    && (forall t :: t in s.threads && IsRunning(s.threads[t]) ==> t in s.committed)
    && (forall t :: t in s.threads && s.threads[t].Stop? ==> StopRight(s, s.threads[t].key, s.threads[t].to))
  }

  /** `t` is a start of the id `key`. */
  predicate IsOf(s: State, t: Tid, key: Key) {
    t in s.threads && s.threads[t].Start? && s.threads[t].key == key
  }

  /** Where a stop stands: the start or run it names is of its id; and a run that a
      stop was sent to has it still to take, or has taken one, or is over. */
  ghost predicate StopRight(s: State, key: Key, to: StopPc) {
    match to
    case LookingFurther => key !in s.running
    case Marking(start) => key in s.starting && s.starting[key] == start
    case Telling(start) => start in s.stopped && IsOf(s, start, key)
    case Leaving(told) => told.Some? ==> told.value in s.stopped && IsOf(s, told.value, key)
    case ToldStart(start) => start in s.stopped && IsOf(s, start, key)
    case Sending(run) => run in s.committed && IsOf(s, run, key)
    case ToldRun(run) => run in s.committed && IsOf(s, run, key) && (s.threads[run].at == Running ==> run in s.channel)
    case _ => true
  }

  predicate Forgotten(s: State, waiter: Waiter) {
    waiter.pc == Asleep && !waiter.notified && waiter.start in s.stopped
  }

  /** A waiter asleep on a start told to stop has its wake-up, or is about to. */
  ghost predicate WaitersRight(s: State) {
    forall w :: w in s.waiters && Forgotten(s, s.waiters[w]) ==>
      && s.startingLock.Some? && s.startingLock.value in s.threads
      && s.threads[s.startingLock.value].Stop? && s.threads[s.startingLock.value].to == Telling(s.waiters[w].start)
  }

  ghost predicate Inv(s: State) {
    LocksRight(s) && MapsRight(s) && StopsRight(s) && WaitersRight(s)
  }

  // ----- one thread moves; the maps stay -----

  /** `u` is `s` with `t` at `x`, and nothing else of the maps or histories changed
      but what the caller says. */
  ghost predicate Moved(s: State, u: State, t: Tid, x: Thread) {
    u.threads == s.threads[t := x] && (t in s.threads ==> x.Start? == s.threads[t].Start? && x.key == s.threads[t].key)
  }

  lemma LocksMove(s: State, u: State, t: Tid, x: Thread)
    requires LocksRight(s) && Moved(s, u, t, x)
    requires var held := t in s.threads && HoldsRunning(s.threads[t]);
      if HoldsRunning(x) then u.runningLock == Some(t) && (held || s.runningLock.None?)
      else if held then u.runningLock == None else u.runningLock == s.runningLock
    requires var held := t in s.threads && HoldsStarting(s.threads[t]);
      if HoldsStarting(x) then u.startingLock == Some(t) && (held || s.startingLock.None?)
      else if held then u.startingLock == None else u.startingLock == s.startingLock
    ensures LocksRight(u)
  {
    hide HoldsRunning, HoldsStarting;
  }

  lemma MapsMove(s: State, u: State, t: Tid, x: Thread)
    requires MapsRight(s) && Moved(s, u, t, x)
    requires u.starting == s.starting && u.running == s.running && u.committed == s.committed
    requires IsRunning(x) == (t in s.threads && IsRunning(s.threads[t]))
    requires IsStarting(x, t in s.committed) == (t in s.threads && IsStarting(s.threads[t], t in s.committed))
    ensures MapsRight(u)
  {
    hide IsStarting, IsRunning;
  }

  lemma StopsMove(s: State, u: State, t: Tid, x: Thread)
    requires StopsRight(s) && Moved(s, u, t, x)
    requires u.starting == s.starting && u.running == s.running && u.committed == s.committed
    requires s.stopped <= u.stopped && u.stopped !! u.committed && s.channel - {t} <= u.channel
    requires t in s.committed ==> IsOver(x)
    requires IsRunning(x) ==> t in s.committed
    requires x.Start? ==> x.at != Running
    requires x.Stop? ==> StopRight(u, x.key, x.to)
    ensures StopsRight(u)
  {
    hide IsRunning, IsOver;
  }

  lemma WaitersMove(s: State, u: State, t: Tid, x: Thread)
    requires LocksRight(s) && WaitersRight(s) && Moved(s, u, t, x)
    requires u.waiters == s.waiters && u.stopped == s.stopped
    requires t in s.threads && s.threads[t].Stop? ==> !s.threads[t].to.Telling?
    requires u.startingLock == s.startingLock || s.startingLock.None? || s.startingLock == Some(t)
    ensures WaitersRight(u)
  {
    hide HoldsRunning;
  }

  // ----- the four steps that change a map -----

  lemma ClaimMaps(s: State, t: Tid, key: Key)
    requires MapsRight(s) && StopsRight(s) && t in s.threads && s.threads[t] == Start(key, Claiming)
    requires key !in s.running && key !in s.starting
    ensures MapsRight(GoStart(s, t, key, Claiming))
  {
    hide StopRight;
  }

  lemma CommitMaps(s: State, t: Tid, key: Key)
    requires MapsRight(s) && t in s.threads && s.threads[t] == Start(key, Deciding) && t !in s.committed &&
      t !in s.stopped
    ensures MapsRight(GoStart(s, t, key, Deciding))
  {}

  lemma EndMaps(s: State, t: Tid, key: Key)
    requires MapsRight(s) && t in s.threads && s.threads[t] == Start(key, Ending) && t in s.committed
    ensures MapsRight(GoStart(s, t, key, Ending))
    ensures GoStart(s, t, key, Ending).running == s.running - {key}
  {}

  lemma FinishMaps(s: State, t: Tid, key: Key)
    requires MapsRight(s) && t in s.threads && s.threads[t] == Start(key, Finishing)
    ensures MapsRight(GoStart(s, t, key, Finishing))
  {
    var u, x := GoStart(s, t, key, Finishing), Start(key, Finished);
    hide MapsRight;
    if t in s.committed { MapsMove(s, u, t, x); } else { MapsLeft(s, u, t, x); }
  }

  lemma MapsLeft(s: State, u: State, t: Tid, x: Thread)
    requires MapsRight(s) && Moved(s, u, t, x)
    requires t in s.threads && IsStarting(s.threads[t], t in s.committed) && !IsRunning(s.threads[t])
    requires !IsStarting(x, t in s.committed) && !IsRunning(x)
    requires u.starting == s.starting - {x.key} && u.running == s.running && u.committed == s.committed
    ensures MapsRight(u)
  {
    hide IsStarting, IsRunning;
  }

  /** As `StopsMove`, where the maps change and the other stops do not mind. */
  lemma StopsRegistered(s: State, u: State, t: Tid, x: Thread)
    requires StopsRight(s) && Moved(s, u, t, x) && x.Start?
    requires s.committed <= u.committed <= s.committed + {t} && u.stopped == s.stopped
    requires u.stopped !! u.committed
    requires t in u.committed ==> IsOver(x)
    requires IsRunning(x) ==> t in u.committed
    requires forall p :: p in s.threads && p != t && s.threads[p].Stop? ==>
      StopRight(u, s.threads[p].key, s.threads[p].to)
    ensures StopsRight(u)
  {
    hide IsRunning, IsOver, StopRight;
  }

  /** While `t` may change the maps, no stop stands in between them. */
  lemma StopsUnmoved(s: State, u: State, t: Tid, x: Thread)
    requires LocksRight(s) && StopsRight(s) && t in s.threads && s.threads[t].Start? && Moved(s, u, t, x)
    requires x.at == Running ==> t !in s.committed
    requires s.committed <= u.committed && u.stopped == s.stopped && u.channel == s.channel
    requires u.running == s.running || s.runningLock == Some(t) ||
      (s.runningLock.None? && u.running.Keys <= s.running.Keys)
    requires u.starting == s.starting || s.startingLock.None?
    ensures forall p :: p in s.threads && p != t && s.threads[p].Stop? ==>
      StopRight(u, s.threads[p].key, s.threads[p].to)
  {
    forall p | p in s.threads && p != t && s.threads[p].Stop? ensures StopRight(u, s.threads[p].key, s.threads[p].to) {
      assert StopRight(s, s.threads[p].key, s.threads[p].to);
      assert HoldsRunning(s.threads[p]) ==> s.runningLock == Some(p);
      assert HoldsStarting(s.threads[p]) ==> s.startingLock == Some(p);
    }
  }

  /** The start's step changes a map. */
  ghost predicate Registers(s: State, t: Tid)
    requires CanGo(s, t) && s.threads[t].Start?
  {
    var at, x := s.threads[t].at, After(s, Go(t)).threads[t];
    x.Start? && ((at == Claiming && x.at == Preparing) || (at == Deciding && x.at == Running) || at == Ending ||
      at == Finishing)
  }

  lemma StartKeeps(s: State, t: Tid)
    requires Inv(s) && CanGo(s, t) && s.threads[t].Start?
    ensures Inv(After(s, Go(t)))
  {
    hide LocksRight, MapsRight, StopsRight, WaitersRight, After;
    StartLocks(s, t);
    if Registers(s, t) { RegisterKeeps(s, t); } else { PlainKeeps(s, t); }
  }

  /** A lock after a step of `t`, by whether it held it and holds it now. */
  function LockThen(lock: Option<Tid>, t: Tid, held: bool, holds: bool): Option<Tid> {
    if holds then Some(t) else if held then None else lock
  }

  lemma StartMoves(s: State, t: Tid)
    requires CanGo(s, t) && s.threads[t].Start?
    ensures var u := After(s, Go(t)); var x := Start(s.threads[t].key, NextAt(s, t, s.threads[t].key, s.threads[t].at));
      && u.threads == s.threads[t := x] && u.waiters == s.waiters && u.stopped == s.stopped
      && u.channel == s.channel
      && u.runningLock == LockThen(s.runningLock, t, HoldsRunning(s.threads[t]), HoldsRunning(x))
      && u.startingLock == LockThen(s.startingLock, t, HoldsStarting(s.threads[t]), HoldsStarting(x))
      && (HoldsRunning(x) ==> s.runningLock.None?) && (HoldsStarting(x) ==> s.startingLock.None?)
      && (!Registers(s, t) ==>
        u.running == s.running && u.starting == s.starting && u.committed == s.committed && x.at != Running)
  {}

  lemma StartLocks(s: State, t: Tid)
    requires Inv(s) && CanGo(s, t) && s.threads[t].Start?
    ensures LocksRight(After(s, Go(t))) && WaitersRight(After(s, Go(t)))
  {
    hide LocksRight, MapsRight, StopsRight, WaitersRight, After, Registers, NextAt;
    StartFacts(s, t);
    StartMoves(s, t);
    var x := Start(s.threads[t].key, NextAt(s, t, s.threads[t].key, s.threads[t].at));
    LocksMove(s, After(s, Go(t)), t, x);
    WaitersMove(s, After(s, Go(t)), t, x);
  }

  lemma PlainKeeps(s: State, t: Tid)
    requires Inv(s) && CanGo(s, t) && s.threads[t].Start? && !Registers(s, t)
    ensures MapsRight(After(s, Go(t))) && StopsRight(After(s, Go(t)))
  {
    hide LocksRight, MapsRight, StopsRight, WaitersRight, After, Registers, NextAt, IsRunning, IsStarting, IsOver;
    StartFacts(s, t);
    StartMoves(s, t);
    PlainFacts(s, t);
    var x := Start(s.threads[t].key, NextAt(s, t, s.threads[t].key, s.threads[t].at));
    MapsMove(s, After(s, Go(t)), t, x);
    StopsMove(s, After(s, Go(t)), t, x);
  }

  lemma PlainFacts(s: State, t: Tid)
    requires CanGo(s, t) && s.threads[t].Start? && !Registers(s, t)
    requires (t in s.committed ==> IsOver(s.threads[t])) && (IsRunning(s.threads[t]) ==> t in s.committed)
    ensures var x := Start(s.threads[t].key, NextAt(s, t, s.threads[t].key, s.threads[t].at));
      && IsRunning(x) == IsRunning(s.threads[t]) && (t in s.committed ==> IsOver(x))
      && IsStarting(x, t in s.committed) == IsStarting(s.threads[t], t in s.committed)
  {}

  lemma RegisterKeeps(s: State, t: Tid)
    requires Inv(s) && CanGo(s, t) && s.threads[t].Start? && Registers(s, t)
    ensures MapsRight(After(s, Go(t))) && StopsRight(After(s, Go(t)))
  {
    hide LocksRight, MapsRight, StopsRight, WaitersRight;
    var u := After(s, Go(t));
    var key, at := s.threads[t].key, s.threads[t].at;
    StartFacts(s, t);
    if at == Claiming {
      ClaimMaps(s, t, key);
    } else if at == Deciding {
      CommitMaps(s, t, key);
    } else if at == Ending {
      EndMaps(s, t, key);
      assert (s.running - {key}).Keys <= s.running.Keys;
    } else {
      FinishMaps(s, t, key);
    }
    StopsUnmoved(s, u, t, u.threads[t]);
    StopsRegistered(s, u, t, u.threads[t]);
  }

  lemma StartFacts(s: State, t: Tid)
    requires Inv(s) && t in s.threads && s.threads[t].Start?
    ensures s.stopped !! s.committed
    ensures (t in s.committed ==> IsOver(s.threads[t])) && (IsRunning(s.threads[t]) ==> t in s.committed)
    ensures t in s.committed <==>
      IsRunning(s.threads[t]) || (t in s.committed && (s.threads[t].at == Finishing || s.threads[t].at == Finished))
    ensures s.runningLock == Some(t) <==> HoldsRunning(s.threads[t])
    ensures s.startingLock == Some(t) <==> HoldsStarting(s.threads[t])
  {}

  lemma StopKeeps(s: State, t: Tid)
    requires Inv(s) && CanGo(s, t) && s.threads[t].Stop?
    ensures Inv(After(s, Go(t)))
  {
    hide LocksRight, MapsRight, StopsRight, WaitersRight, After, Notified;
    StopLocks(s, t);
    StopMaps(s, t);
    StopWaiters(s, t);
  }

  lemma StopLocks(s: State, t: Tid)
    requires Inv(s) && CanGo(s, t) && s.threads[t].Stop?
    ensures LocksRight(After(s, Go(t)))
  {
    hide LocksRight, MapsRight, StopsRight, WaitersRight, Notified, StopRight, IsOf;
    StopFacts(s, t);
    StopMoves(s, t);
    LocksMove(s, After(s, Go(t)), t, After(s, Go(t)).threads[t]);
  }

  lemma StopMaps(s: State, t: Tid)
    requires Inv(s) && CanGo(s, t) && s.threads[t].Stop?
    ensures MapsRight(After(s, Go(t))) && StopsRight(After(s, Go(t)))
  {
    hide LocksRight, MapsRight, StopsRight, WaitersRight, Notified;
    var u := After(s, Go(t));
    StopFacts(s, t);
    StopMoves(s, t);
    MapsMove(s, u, t, u.threads[t]);
    StopsMove(s, u, t, u.threads[t]);
  }

  lemma StopWaiters(s: State, t: Tid)
    requires Inv(s) && CanGo(s, t) && s.threads[t].Stop?
    ensures WaitersRight(After(s, Go(t)))
  {
    hide LocksRight, MapsRight, StopsRight, WaitersRight, Notified, StopRight, IsOf;
    if s.threads[t].to.Marking? || s.threads[t].to.Telling? {
      TellingWaiters(s, t);
    } else {
      StopFacts(s, t);
      StopMoves(s, t);
      WaitersMove(s, After(s, Go(t)), t, After(s, Go(t)).threads[t]);
    }
  }

  lemma StopFacts(s: State, t: Tid)
    requires Inv(s) && t in s.threads && s.threads[t].Stop?
    ensures s.stopped !! s.committed && t !in s.committed
    ensures StopRight(s, s.threads[t].key, s.threads[t].to)
    ensures forall k :: k in s.running ==> s.running[k] in s.committed && IsOf(s, s.running[k], k)
    ensures forall k :: k in s.starting ==> s.starting[k] !in s.committed && IsOf(s, s.starting[k], k)
    ensures HoldsRunning(s.threads[t]) ==> s.runningLock == Some(t)
    ensures HoldsStarting(s.threads[t]) ==> s.startingLock == Some(t)
  {}

  lemma TellingWaiters(s: State, t: Tid)
    requires LocksRight(s) && WaitersRight(s) && CanGo(s, t) && s.threads[t].Stop? &&
      (s.threads[t].to.Marking? || s.threads[t].to.Telling?)
    ensures WaitersRight(After(s, Go(t)))
  {
    assert HoldsStarting(s.threads[t]);
    hide HoldsRunning;
  }

  /** Every step keeps the invariant. */
  lemma StepKeeps(s: State, step: Step)
    requires Inv(s) && CanStep(s, step)
    ensures Inv(After(s, step))
  {
    if step.Go? {
      if s.threads[step.t].Start? { StartKeeps(s, step.t); } else { StopKeeps(s, step.t); }
    } else {
      OtherKeeps(s, step);
    }
  }

  lemma OtherKeeps(s: State, step: Step)
    requires Inv(s) && CanStep(s, step) && !step.Go?
    ensures Inv(After(s, step))
  {
    hide LocksRight, MapsRight, StopsRight, WaitersRight;
    if step.NewStart? || step.NewStop? || step.Fail? || step.Take? {
      ThreadKeeps(s, step);
    } else {
      Untouched(s, After(s, step));
      WaiterKeeps(s, step);
    }
  }

  lemma Untouched(s: State, u: State)
    requires LocksRight(s) && MapsRight(s) && StopsRight(s)
    requires u == s.(waiters := u.waiters, closed := u.closed)
    ensures LocksRight(u) && MapsRight(u) && StopsRight(u)
  {
    hide IsStarting, IsRunning, IsOver, HoldsRunning, HoldsStarting;
  }

  lemma WaiterKeeps(s: State, step: Step)
    requires WaitersRight(s) && CanStep(s, step) && (step.NewWaiter? || step.Look? || step.Wake? || step.Close?)
    ensures WaitersRight(After(s, step))
  {}

  lemma ThreadKeeps(s: State, step: Step)
    requires Inv(s) && CanStep(s, step) && (step.NewStart? || step.NewStop? || step.Fail? || step.Take?)
    ensures Inv(After(s, step))
  {
    hide LocksRight, MapsRight, StopsRight, WaitersRight;
    var u := After(s, step);
    var x := u.threads[step.t];
    NotCommitted(s, step);
    LocksMove(s, u, step.t, x);
    MapsMove(s, u, step.t, x);
    StopsMove(s, u, step.t, x);
    WaitersMove(s, u, step.t, x);
  }

  lemma NotCommitted(s: State, step: Step)
    requires StopsRight(s) && CanStep(s, step) && (step.NewStart? || step.NewStop? || step.Fail? || step.Take?)
    ensures s.stopped !! s.committed && (step.t in s.committed <==> step.Take?)
  {}

  // ----- over every run -----

  /** The states of a run from the beginning, one more than its steps. */
  ghost predicate IsRun(states: seq<State>, steps: seq<Step>) {
    && |states| == |steps| + 1 && states[0] == Init()
    && forall i :: 0 <= i < |steps| ==> CanStep(states[i], steps[i]) && states[i + 1] == After(states[i], steps[i])
  }

  lemma {:induction false} RunInv(states: seq<State>, steps: seq<Step>, i: nat)
    requires IsRun(states, steps) && i < |states|
    ensures Inv(states[i])
  {
    hide CanStep, After;
    if i == 0 {
      InitInv();
    } else {
      RunInv(states, steps, i - 1);
      hide Inv;
      StepKeeps(states[i - 1], steps[i - 1]);
    }
  }

  lemma InitInv()
    ensures Inv(Init())
  {}

  lemma {:induction false} StoppedGrows(states: seq<State>, steps: seq<Step>, i: nat, j: nat)
    requires IsRun(states, steps) && i <= j < |states|
    ensures states[i].stopped <= states[j].stopped
    decreases j
  {
    hide Init, CanStep, After;
    if i < j {
      StoppedGrows(states, steps, i, j - 1);
      StepStops(states[j - 1], steps[j - 1]);
    }
  }

  lemma StepStops(s: State, step: Step)
    requires CanStep(s, step)
    ensures s.stopped <= After(s, step).stopped
  {}

  /** An id is never both starting and running; and no stop that returned true falls
      between the two: the start it told never runs, before or after. */
  lemma StopNotLost(states: seq<State>, steps: seq<Step>, i: nat, j: nat, t: Tid, key: Key, start: Tid)
    requires IsRun(states, steps) && i < |states| && j < |states|
    requires t in states[i].threads && states[i].threads[t] == Stop(key, ToldStart(start))
    ensures IsOf(states[i], start, key)
    ensures start !in states[j].committed && !(key in states[j].running && states[j].running[key] == start)
    ensures states[j].starting.Keys !! states[j].running.Keys
  {
    hide CanStep, After, Init;
    RunInv(states, steps, i);
    RunInv(states, steps, j);
    var last := if i <= j then j else i;
    RunInv(states, steps, last);
    StoppedGrows(states, steps, i, last);
    CommittedGrows(states, steps, j, last);
    hide IsRun;
    ToldStays(states[i], t);
    assert states[last].stopped !! states[last].committed;
  }

  /** A stop that finds no run answers no exactly when, as it looks for a start, the id
      is in neither map. */
  lemma ToldNoneOnly(s: State, t: Tid, key: Key)
    requires Inv(s) && CanGo(s, t) && s.threads[t] == Stop(key, LookingFurther)
    ensures After(s, Go(t)).threads[t] == Stop(key, Leaving(None)) <==> key !in s.running && key !in s.starting
  {
    assert StopRight(s, key, LookingFurther);
  }

  /** The stop at `t` is about to find that there is nobody to tell: the id in neither
      map, or its run no longer taking stops. */
  ghost predicate FindsNone(s: State, t: Tid, key: Key) {
    t in s.threads && s.threads[t].Stop? && s.threads[t].key == key &&
    match s.threads[t].to
    case LookingFurther => key !in s.running && key !in s.starting
    case Sending(run) => run in s.closed
    case _ => false
  }

  /** The stop has answered no, or has only to leave the maps to do so. */
  ghost predicate SaysNone(s: State, t: Tid, key: Key) {
    t in s.threads && (s.threads[t] == Stop(key, Leaving(None)) || s.threads[t] == Stop(key, ToldNone))
  }

  lemma SaidNone(s: State, step: Step, t: Tid, key: Key)
    requires Inv(s) && CanStep(s, step)
    ensures SaysNone(After(s, step), t, key) <==> SaysNone(s, t, key) || (step == Go(t) && FindsNone(s, t, key))
  {
    hide LocksRight, MapsRight, WaitersRight, After, SaysNone;
    if step == Go(t) {
      if s.threads[t].Stop? {
        assert StopRight(s, s.threads[t].key, s.threads[t].to);
        hide StopsRight;
        StopSays(s, t, key);
      } else {
        StartMoves(s, t);
        StartSays(s, After(s, step), t, key);
      }
    } else {
      OthersSay(s, step, t, key);
    }
  }

  lemma StopSays(s: State, t: Tid, key: Key)
    requires CanGo(s, t) && s.threads[t].Stop? && StopRight(s, s.threads[t].key, s.threads[t].to)
    ensures SaysNone(After(s, Go(t)), t, key) <==> SaysNone(s, t, key) || FindsNone(s, t, key)
  {
    hide Notified, IsOf;
  }

  lemma StartSays(s: State, u: State, t: Tid, key: Key)
    requires t in s.threads && s.threads[t].Start? && t in u.threads && u.threads[t].Start?
    ensures !SaysNone(u, t, key) && !SaysNone(s, t, key) && !FindsNone(s, t, key)
  {}

  lemma OthersSay(s: State, step: Step, t: Tid, key: Key)
    requires CanStep(s, step) && step != Go(t)
    ensures SaysNone(After(s, step), t, key) <==> SaysNone(s, t, key)
  {
    hide Notified, NextAt;
  }

  /** In every run, a stop answers no if and only if it went on from a moment when there
      was nobody to tell. */
  lemma {:induction false} ToldNoneExactly(states: seq<State>, steps: seq<Step>, j: nat, t: Tid, key: Key)
    requires IsRun(states, steps) && j < |states|
    ensures SaysNone(states[j], t, key) <==> exists i :: 0 <= i < j && steps[i] == Go(t) && FindsNone(states[i], t, key)
  {
    hide CanStep, After, SaysNone, FindsNone, Inv;
    if j == 0 {
      NoneAtFirst(t, key);
    } else {
      ToldNoneExactly(states, steps, j - 1, t, key);
      RunInv(states, steps, j - 1);
      SaidNone(states[j - 1], steps[j - 1], t, key);
    }
  }

  lemma NoneAtFirst(t: Tid, key: Key)
    ensures !SaysNone(Init(), t, key)
  {}

  /** A stop that returned true by a run's channel went to a run of that id; and ever
      after, the run is on its way out, or has a stop in its channel and can take it. */
  lemma StopDelivered(states: seq<State>, steps: seq<Step>, i: nat, j: nat, t: Tid, key: Key, run: Tid)
    requires IsRun(states, steps) && i <= j < |states|
    requires t in states[i].threads && states[i].threads[t] == Stop(key, ToldRun(run))
    ensures IsOf(states[j], run, key) && run in states[j].committed && run !in states[j].stopped
    ensures if states[j].threads[run].at == Running then CanStep(states[j], Take(run))
      else states[j].threads[run].at in {Stopping, Ending, Finishing, Finished}
  {
    hide After, Init, CanStep, LocksRight, MapsRight, WaitersRight;
    ReturnedStays(states, steps, i, j, t);
    RunInv(states, steps, j);
    DeliveredNow(states[j], t, key, run);
  }

  lemma DeliveredNow(s: State, t: Tid, key: Key, run: Tid)
    requires StopsRight(s) && t in s.threads && s.threads[t] == Stop(key, ToldRun(run))
    ensures IsOf(s, run, key) && run in s.committed && run !in s.stopped
    ensures if s.threads[run].at == Running then CanStep(s, Take(run))
      else s.threads[run].at in {Stopping, Ending, Finishing, Finished}
  {
    assert StopRight(s, key, ToldRun(run));
  }

  lemma {:induction false} ReturnedStays(states: seq<State>, steps: seq<Step>, i: nat, j: nat, t: Tid)
    requires IsRun(states, steps) && i <= j < |states| && t in states[i].threads && IsDone(states[i].threads[t])
    ensures t in states[j].threads && states[j].threads[t] == states[i].threads[t]
    decreases j
  {
    hide CanStep, After, Init, IsDone;
    if i < j {
      ReturnedStays(states, steps, i, j - 1, t);
      StepReturned(states[j - 1], steps[j - 1], t);
    }
  }

  lemma StepReturned(s: State, step: Step, t: Tid)
    requires CanStep(s, step) && t in s.threads && IsDone(s.threads[t])
    ensures t in After(s, step).threads && After(s, step).threads[t] == s.threads[t]
  {
    if step.Go? {
      if s.threads[step.t].Start? { StartMoves(s, step.t); } else { StopMoves(s, step.t); }
      hide After;
    }
  }

  lemma StopMoves(s: State, t: Tid)
    requires CanGo(s, t) && s.threads[t].Stop?
    ensures var u := After(s, Go(t)); t in u.threads && u.threads == s.threads[t := u.threads[t]]
  {
    hide Notified;
  }

  lemma ToldStays(s: State, t: Tid)
    requires Inv(s) && t in s.threads && s.threads[t].Stop? && s.threads[t].to.ToldStart?
    ensures s.threads[t].to.start in s.stopped && IsOf(s, s.threads[t].to.start, s.threads[t].key)
  {
    assert StopRight(s, s.threads[t].key, s.threads[t].to);
  }

  lemma {:induction false} CommittedGrows(states: seq<State>, steps: seq<Step>, i: nat, j: nat)
    requires IsRun(states, steps) && i <= j < |states|
    ensures states[i].committed <= states[j].committed
    decreases j
  {
    hide Init, CanStep, After;
    if i < j {
      CommittedGrows(states, steps, i, j - 1);
      StepCommits(states[j - 1], steps[j - 1]);
    }
  }

  lemma StepCommits(s: State, step: Step)
    requires CanStep(s, step)
    ensures s.committed <= After(s, step).committed
  {}

  /** An ending run finds its own entry and removes that alone. */
  lemma EndsOwn(s: State, t: Tid)
    requires Inv(s) && CanGo(s, t) && s.threads[t].Start? && s.threads[t].at == Ending
    ensures var key := s.threads[t].key;
      && key in s.running && s.running[key] == t
      && After(s, Go(t)).running == s.running - {key} && After(s, Go(t)).starting == s.starting
  {
    assert IsRunning(s.threads[t]);
    hide LocksRight, WaitersRight;
    EndMaps(s, t, s.threads[t].key);
  }

  /** Once the stop has notified, no waiter on the start is left asleep. */
  lemma NoWaiterLost(s: State, w: nat)
    requires Inv(s) && w in s.waiters && s.waiters[w].pc == Asleep && s.waiters[w].start in s.stopped
    requires forall t :: t in s.threads && s.threads[t].Stop? ==> s.threads[t].to != Telling(s.waiters[w].start)
    ensures CanStep(s, Wake(w))
  {
    hide LocksRight, MapsRight, StopsRight;
  }

  predicate IsDone(thread: Thread) {
    match thread
    case Start(_, at) => at == InUse || at == Finished
    case Stop(_, to) => to.ToldStart? || to.ToldRun? || to.ToldNone?
  }

  /** The order of the locks leaves no deadlock: a call that has not returned can take
      its next step, or one that holds a lock can. */
  lemma NoDeadlock(s: State, t: Tid)
    requires LocksRight(s) && t in s.threads && !IsDone(s.threads[t])
    ensures exists p :: CanGo(s, p) && (p == t || s.runningLock == Some(p) || s.startingLock == Some(p))
  {
    if s.startingLock.Some? {
      var q := s.startingLock.value;
      assert HoldsStarting(s.threads[q]);
      assert CanGo(s, q);
    } else if s.runningLock.Some? {
      var p := s.runningLock.value;
      assert HoldsRunning(s.threads[p]);
      assert CanGo(s, p);
    } else {
      assert CanGo(s, t);
    }
  }
}
