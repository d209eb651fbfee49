/** The crash-recovery child process: when it is kept, dropped, and when the app exits. */
module CrashRecovery {
  import opened Text

  type WindowId = nat

  datatype Frame = Successful | Errored

  const ERRORS_BEFORE_EXIT := 3
  const SUCCESSES_BEFORE_KILL := 10

  /** The child process and the frames seen while it is held. */
  datatype Child = Child(
    errors: map<WindowId, nat>,
    successes: map<WindowId, nat>,
    renders: map<WindowId, seq<Frame>>,
    isAlive: bool)

  const FRESH_CHILD := Child(map[], map[], map[], true)

  function GetOrElse<V>(m: map<WindowId, V>, w: WindowId, default: V): V {
    if w in m then m[w] else default
  }

  datatype Event = Drawn(window: WindowId) | DrawError(window: WindowId) | Teardown

  /** `tornDown` counts the torn-down events; `running` is the global flag. */
  datatype State = State(child: Option<Child>, running: bool, tornDown: nat, exited: bool)

  function Record(child: Child, w: WindowId, frame: Frame): Child {
    child.(renders := child.renders[w := GetOrElse(child.renders, w, []) + [frame]])
  }

  function AfterError(child: Child, w: WindowId): Child {
    Record(child, w, Errored).(errors := child.errors[w := GetOrElse(child.errors, w, 0) + 1])
  }

  function AfterSuccess(child: Child, w: WindowId): Child {
    var successes := GetOrElse(child.successes, w, 0) + 1;
    Record(child, w, Successful).(
      errors := child.errors[w := 0],
      successes := child.successes[w := successes],
      isAlive := child.isAlive && successes < SUCCESSES_BEFORE_KILL)
  }

  /** What an event does. After an exit nothing happens any more. */
  function Step(s: State, e: Event): State {
    if s.exited || s.child.None? then s
    else
      var child := s.child.value;
      match e
      case DrawError(w) =>
        var child' := AfterError(child, w);
        s.(child := Some(child'), exited := child'.errors[w] >= ERRORS_BEFORE_EXIT)
      case Drawn(w) =>
        var child' := AfterSuccess(child, w);
        if child'.isAlive then s.(child := Some(child'))
        else s.(child := None, running := s.running && !child.isAlive, tornDown := s.tornDown + 1)
      case Teardown =>
        s.(child := None, running := s.running && !child.isAlive)
  }

  class Recovery {
    var child: Option<Child>
    var running: bool
    var tornDown: nat
    var exited: bool

    function View(): State
      reads this
    {
      State(child, running, tornDown, exited)
    }

    constructor (spawned: bool)
      ensures View() == Initial(spawned)
    {
      child := if spawned then Some(FRESH_CHILD) else None;
      running, tornDown, exited := spawned, 0, false;
    }

    /** Kills the child process; a no-op if it is not alive. */
    method Kill(process: Child) returns (killed: Child)
      modifies this`running
      ensures killed == process.(isAlive := false)
      ensures running == (old(running) && !process.isAlive)
    {
      killed := process;
      if !process.isAlive {
        return;
      }
      running := false;
      killed := process.(isAlive := false);
    }

    method OnDrawFrameError(w: WindowId)
      requires !exited
      modifies this
      ensures View() == Step(old(View()), DrawError(w))
    {
      if child.Some? {
        var process := child.value;
        process := process.(renders := process.renders[w := GetOrElse(process.renders, w, []) + [Errored]]);
        var errors := GetOrElse(process.errors, w, 0) + 1;
        process := process.(errors := process.errors[w := errors]);
        child := Some(process);
        if errors >= ERRORS_BEFORE_EXIT {
          exited := true;
        }
      }
    }

    method OnFrameDrawn(w: WindowId)
      requires !exited
      modifies this
      ensures View() == Step(old(View()), Drawn(w))
    {
      if child.Some? {
        var process := child.value;
        child := None;
        process := process.(errors := process.errors[w := 0]);
        process := process.(renders := process.renders[w := GetOrElse(process.renders, w, []) + [Successful]]);
        var successes := GetOrElse(process.successes, w, 0) + 1;
        process := process.(successes := process.successes[w := successes]);
        if successes >= SUCCESSES_BEFORE_KILL {
          process := Kill(process);
        }
        if !process.isAlive {
          tornDown := tornDown + 1;
        } else {
          child := Some(process);
        }
      }
    }

    method TearDown()
      requires !exited
      modifies this
      ensures View() == Step(old(View()), Teardown)
    {
      if child.Some? {
        var process := child.value;
        child := None;
        process := Kill(process);
      }
    }
  }

  function Initial(spawned: bool): State {
    State(if spawned then Some(FRESH_CHILD) else None, spawned, 0, false)
  }

  // ----- runs

  function Run(spawned: bool, events: seq<Event>): State {
    if events == [] then Initial(spawned) else Step(Run(spawned, events[..|events| - 1]), events[|events| - 1])
  }

  /** The frames of one window. */
  function FramesOf(events: seq<Event>, w: WindowId): seq<Frame> {
    if events == [] then []
    else
      var before := FramesOf(events[..|events| - 1], w);
      match events[|events| - 1]
      case Drawn(v) => if v == w then before + [Successful] else before
      case DrawError(v) => if v == w then before + [Errored] else before
      case Teardown => before
  }

  function TrailingErrors(frames: seq<Frame>): nat {
    if frames == [] || frames[|frames| - 1] == Successful then 0 else 1 + TrailingErrors(frames[..|frames| - 1])
  }

  function Successes(frames: seq<Frame>): nat {
    if frames == [] then 0
    else Successes(frames[..|frames| - 1]) + if frames[|frames| - 1] == Successful then 1 else 0
  }

  /** While the child is held: every counter of a window is what its frames say. */
  ghost predicate CountersAgree(child: Child, events: seq<Event>, w: WindowId) {
    && GetOrElse(child.renders, w, []) == FramesOf(events, w)
    && GetOrElse(child.errors, w, 0) == TrailingErrors(FramesOf(events, w))
    && GetOrElse(child.successes, w, 0) == Successes(FramesOf(events, w))
  }

  ghost predicate Holds(s: State, events: seq<Event>) {
    && (s.child.Some? ==>
          && s.child.value.isAlive && s.running && s.tornDown == 0
          && Teardown !in events
          && (forall w :: CountersAgree(s.child.value, events, w))
          && (forall w :: Successes(FramesOf(events, w)) < SUCCESSES_BEFORE_KILL)
          && (!s.exited ==> forall w :: TrailingErrors(FramesOf(events, w)) < ERRORS_BEFORE_EXIT))
    && (s.child.None? ==> !s.running && s.tornDown <= 1 && !s.exited)
  }

  lemma CountsExtend(frames: seq<Frame>, f: Frame)
    ensures TrailingErrors(frames + [f]) == if f == Successful then 0 else TrailingErrors(frames) + 1
    ensures Successes(frames + [f]) == Successes(frames) + if f == Successful then 1 else 0
  {
    assert (frames + [f])[..|frames|] == frames;
  }

  /** Reading one more frame: it extends its own window only. */
  lemma FramesExtend(events: seq<Event>, e: Event, w: WindowId)
    ensures FramesOf(events + [e], w)
         == FramesOf(events, w) + if e == Drawn(w) then [Successful] else if e == DrawError(w) then [Errored] else []
  {
    assert (events + [e])[..|events|] == events;
    assert FramesOf(events, w) + [] == FramesOf(events, w);
  }

  lemma CountsAfter(events: seq<Event>, e: Event, w: WindowId)
    ensures e == Drawn(w) ==>
              && TrailingErrors(FramesOf(events + [e], w)) == 0
              && Successes(FramesOf(events + [e], w)) == Successes(FramesOf(events, w)) + 1
    ensures e == DrawError(w) ==>
              && TrailingErrors(FramesOf(events + [e], w)) == TrailingErrors(FramesOf(events, w)) + 1
              && Successes(FramesOf(events + [e], w)) == Successes(FramesOf(events, w))
    ensures e != Drawn(w) && e != DrawError(w) ==> FramesOf(events + [e], w) == FramesOf(events, w)
  {
    FramesExtend(events, e, w);
    CountsExtend(FramesOf(events, w), Successful);
    CountsExtend(FramesOf(events, w), Errored);
    assert FramesOf(events, w) + [] == FramesOf(events, w);
  }

  /** A step keeps the counters of every window in agreement while the child stays. */
  lemma StepKeepsCounters(s: State, events: seq<Event>, e: Event, w: WindowId)
    requires s.child.Some? && !s.exited && CountersAgree(s.child.value, events, w)
    requires Step(s, e).child.Some?
    ensures CountersAgree(Step(s, e).child.value, events + [e], w)
  {
    FramesExtend(events, e, w);
    CountsAfter(events, e, w);
    assert FramesOf(events, w) + [] == FramesOf(events, w);
    var child, child' := s.child.value, Step(s, e).child.value;
    if e == Drawn(w) {
      assert child' == AfterSuccess(child, w);
    } else if e == DrawError(w) {
      assert child' == AfterError(child, w);
    } else {
      assert GetOrElse(child'.renders, w, []) == GetOrElse(child.renders, w, []);
    }
  }

  lemma StepHolds(s: State, events: seq<Event>, e: Event)
    requires Holds(s, events) && !s.exited
    ensures Holds(Step(s, e), events + [e])
  {
    var s' := Step(s, e);
    if s.child.Some? && s'.child.Some? {
      forall w ensures CountersAgree(s'.child.value, events + [e], w) {
        StepKeepsCounters(s, events, e, w);
      }
      forall w
        ensures Successes(FramesOf(events + [e], w)) < SUCCESSES_BEFORE_KILL
        ensures !s'.exited ==> TrailingErrors(FramesOf(events + [e], w)) < ERRORS_BEFORE_EXIT
      {
        CountsAfter(events, e, w);
        assert CountersAgree(s.child.value, events, w) && CountersAgree(s'.child.value, events + [e], w);
      }
    }
  }

  /** In every run: counters agree with the frames, the running flag is true exactly while a child
      is held, the torn-down event fires at most once, and an exited run had a child. */
  lemma {:induction false} RunHolds(spawned: bool, events: seq<Event>)
    requires events == [] || !Run(spawned, events[..|events| - 1]).exited
    ensures Holds(Run(spawned, events), events)
    ensures Run(spawned, events).running <==> Run(spawned, events).child.Some?
    ensures Run(spawned, events).tornDown <= 1
  {
    if events == [] {
    } else {
      var before := events[..|events| - 1];
      assert before != [] ==> !Run(spawned, before[..|before| - 1]).exited;
      RunHolds(spawned, before);
      StepHolds(Run(spawned, before), before, events[|events| - 1]);
      assert before + [events[|events| - 1]] == events;
    }
  }

  /** While a child is held, the next event makes the app exit exactly if it is a window's third
      error in a row, and drops the child exactly if it is a teardown or a window's tenth success;
      only the latter fires the torn-down event. */
  lemma NextEventDecides(spawned: bool, events: seq<Event>, e: Event)
    requires !Run(spawned, events).exited && Run(spawned, events).child.Some?
    ensures var s', all := Run(spawned, events + [e]), events + [e];
            && (s'.exited <==> e.DrawError? && TrailingErrors(FramesOf(all, e.window)) == 3)
            && (s'.child.None? <==> e.Teardown? || (e.Drawn? && Successes(FramesOf(all, e.window)) == 10))
            && (s'.tornDown == 1 <==> e.Drawn? && Successes(FramesOf(all, e.window)) == 10)
  {
    assert (events + [e])[..|events|] == events;
    assert events != [] ==> !Run(spawned, events[..|events| - 1]).exited;
    RunHolds(spawned, events);
    if !e.Teardown? {
      CountsAfter(events, e, e.window);
      assert CountersAgree(Run(spawned, events).child.value, events, e.window);
      assert Successes(FramesOf(events, e.window)) < SUCCESSES_BEFORE_KILL;
      assert TrailingErrors(FramesOf(events, e.window)) < ERRORS_BEFORE_EXIT;
    }
  }

  /** Once the child is dropped nothing changes any more, whatever follows: no exit, no second event. */
  lemma {:induction false} DroppedStaysDropped(spawned: bool, events: seq<Event>, later: seq<Event>)
    requires Run(spawned, events).child.None?
    ensures Run(spawned, events + later) == Run(spawned, events)
  {
    if later == [] {
      assert events + later == events;
    } else {
      var before := later[..|later| - 1];
      DroppedStaysDropped(spawned, events, before);
      assert (events + later)[..|events + later| - 1] == events + before;
    }
  }
}

/** The chain of recovery processes: each crash picks a mechanism that the next process applies. */
module RecoveryChain {
  import opened Text

  datatype Platform = Linux | Windows | MacOs

  datatype Mechanism = X11 | DedicatedGpu | DisableOpenGL | ForceVulkan

  datatype Backend = Vulkan | Dx12 | Gl | Metal

  /** What a process decides on: its platform, channel, environment and stored preferences. */
  datatype Setup = Setup(
    platform: Platform,
    integrationChannel: bool,
    waylandDisplay: bool,
    backends: Option<set<Backend>>,
    forceX11: Option<bool>,
    preferLowPowerGpu: Option<bool>)

  function Choose(s: Setup): Option<Mechanism> {
    if s.integrationChannel then None
    else if s.platform.Linux? && s.forceX11 == Some(false) && s.waylandDisplay then Some(X11)
    else if s.platform.Windows? && s.backends.None? then Some(DisableOpenGL)
    else if s.platform.Windows? && s.backends != Some({Vulkan}) then Some(ForceVulkan)
    else if s.preferLowPowerGpu.None? then Some(DedicatedGpu)
    else None
  }

  /** The environment the recovery process is spawned with. */
  function Spawn(s: Setup, m: Mechanism): Setup {
    match m
    case DisableOpenGL => s.(backends := Some({Vulkan, Dx12}))
    case ForceVulkan => s.(backends := Some({Vulkan}))
    case _ => s
  }

  /** What the recovery process stores once its parent has crashed, if the write succeeds. */
  function HandleParentCrash(s: Setup, m: Mechanism, writeOk: bool): Setup {
    match m
    case X11 => if s.forceX11 != Some(true) && writeOk then s.(forceX11 := Some(true)) else s
    case DedicatedGpu => if s.preferLowPowerGpu.None? && writeOk then s.(preferLowPowerGpu := Some(false)) else s
    case _ => s
  }

  /** The setup after a crash: that of the recovery process, if one was spawned. */
  function AfterCrash(s: Setup, writeOk: bool): Setup {
    match Choose(s)
    case None => s
    case Some(m) => HandleParentCrash(Spawn(s, m), m, writeOk)
  }

  /** How many recoveries are left. */
  function Remaining(s: Setup): nat {
    if s.integrationChannel then 0
    else
      var backends := if s.backends.None? then 2 else if s.backends != Some({Vulkan}) then 1 else 0;
      (if s.platform.Linux? && s.forceX11 == Some(false) && s.waylandDisplay then 1 else 0)
      + (if s.platform.Windows? then backends else 0)
      + (if s.preferLowPowerGpu.None? then 1 else 0)
  }

  lemma RecoveryLowersRemaining(s: Setup)
    ensures Choose(s).Some? <==> Remaining(s) > 0
    ensures Choose(s).Some? ==> Remaining(AfterCrash(s, true)) == Remaining(s) - 1
    ensures Remaining(s) <= match s.platform case Linux => 2 case Windows => 3 case MacOs => 1
  {
    assert {Vulkan, Dx12} != {Vulkan} by { assert Dx12 in {Vulkan, Dx12}; }
  }

  /** The setup after `n` crashes in a row. */
  function AfterCrashes(s: Setup, n: nat, writeOk: bool): Setup {
    if n == 0 then s else AfterCrash(AfterCrashes(s, n - 1, writeOk), writeOk)
  }

  /** Recovery cannot loop: with successful writes, exactly the first `Remaining` crashes in a row
      have a recovery process, which is at most 2 on Linux, 3 on Windows and 1 on macOS. */
  lemma {:induction false} RecoveryIsFinite(s: Setup, n: nat)
    ensures Choose(AfterCrashes(s, n, true)).Some? <==> n < Remaining(s)
    ensures Remaining(s) <= match s.platform case Linux => 2 case Windows => 3 case MacOs => 1
    ensures n <= Remaining(s) ==> Remaining(AfterCrashes(s, n, true)) == Remaining(s) - n
    ensures n > Remaining(s) ==> Remaining(AfterCrashes(s, n, true)) == 0
  {
    RecoveryLowersRemaining(s);
    RecoveryLowersRemaining(AfterCrashes(s, n, true));
    if n == 0 {
    } else {
      RecoveryIsFinite(s, n - 1);
      RecoveryLowersRemaining(AfterCrashes(s, n - 1, true));
    }
  }

  // ----- writes that fail

  /** Whether the mechanism chosen next is remembered by writing a preference. */
  predicate MustWrite(s: Setup) {
    Choose(s) == Some(X11) || Choose(s) == Some(DedicatedGpu)
  }

  /** The setup after crashes in a row, each with the outcome of its preference write. */
  function Chain(s: Setup, outcomes: seq<bool>): Setup
    decreases |outcomes|
  {
    if outcomes == [] then s else Chain(AfterCrash(s, outcomes[0]), outcomes[1..])
  }

  /** How many of the crashes have a recovery process. */
  function Recoveries(s: Setup, outcomes: seq<bool>): nat
    decreases |outcomes|
  {
    if outcomes == [] then 0
    else (if Choose(s).Some? then 1 else 0) + Recoveries(AfterCrash(s, outcomes[0]), outcomes[1..])
  }

  /** How many preference writes fail. */
  function FailedWrites(s: Setup, outcomes: seq<bool>): nat
    decreases |outcomes|
  {
    if outcomes == [] then 0
    else (if MustWrite(s) && !outcomes[0] then 1 else 0) + FailedWrites(AfterCrash(s, outcomes[0]), outcomes[1..])
  }

  lemma CrashConserves(s: Setup, writeOk: bool)
    ensures (if Choose(s).Some? then 1 else 0) + Remaining(AfterCrash(s, writeOk))
         == Remaining(s) + if MustWrite(s) && !writeOk then 1 else 0
  {
    RecoveryLowersRemaining(s);
    if !writeOk && !MustWrite(s) {
      assert AfterCrash(s, false) == AfterCrash(s, true);
    }
  }

  /** Whatever writes fail, every recovery uses up one that remained or is owed to a failed write. */
  lemma {:induction false} RecoveriesAreConserved(s: Setup, outcomes: seq<bool>)
    ensures Recoveries(s, outcomes) + Remaining(Chain(s, outcomes)) == Remaining(s) + FailedWrites(s, outcomes)
    decreases |outcomes|
  {
    if outcomes == [] {
      assert Chain(s, outcomes) == s;
    } else {
      CrashConserves(s, outcomes[0]);
      RecoveriesAreConserved(AfterCrash(s, outcomes[0]), outcomes[1..]);
    }
  }

  /** If preference writes keep failing, recovery is finite exactly when no preference has to
      change: the driver overrides run out, and then the same process is spawned for ever. */
  lemma {:induction false} FailedWritesLoop(s: Setup, n: nat)
    requires n >= 2
    ensures Choose(AfterCrashes(s, n, false)).Some?
       <==> !s.integrationChannel
            && ((s.platform.Linux? && s.forceX11 == Some(false) && s.waylandDisplay) || s.preferLowPowerGpu.None?)
  {
    assert {Vulkan, Dx12} != {Vulkan} by { assert Dx12 in {Vulkan, Dx12}; }
    if n == 2 {
      var one := AfterCrash(s, false);
      assert AfterCrashes(s, 1, false) == one;
      assert AfterCrashes(s, 2, false) == AfterCrash(one, false);
    } else {
      FailedWritesLoop(s, n - 1);
      SettledAfterTwo(s, n - 1);
    }
  }

  lemma {:induction false} SettledAfterTwo(s: Setup, n: nat)
    requires n >= 2
    ensures AfterCrash(AfterCrashes(s, n, false), false) == AfterCrashes(s, n, false)
  {
    assert {Vulkan, Dx12} != {Vulkan} by { assert Dx12 in {Vulkan, Dx12}; }
    if n == 2 {
      var one := AfterCrash(s, false);
      assert AfterCrashes(s, 1, false) == one;
      assert AfterCrashes(s, 2, false) == AfterCrash(one, false);
    } else {
      SettledAfterTwo(s, n - 1);
    }
  }

  // ----- which recoveries, and what they leave

  /** The mechanisms tried in turn, as the setup before the first crash says. */
  function Mechanisms(s: Setup): seq<Mechanism> {
    if s.integrationChannel then []
    else
      (if s.platform == Linux && s.forceX11 == Some(false) && s.waylandDisplay then [X11] else [])
      + (if s.platform != Windows || s.backends == Some({Vulkan}) then []
         else if s.backends == None then [DisableOpenGL, ForceVulkan] else [ForceVulkan])
      + (if s.preferLowPowerGpu == None then [DedicatedGpu] else [])
  }

  /** The preferences and backends of the setup with which a mechanism runs. */
  predicate IsRecovered(m: Mechanism, before: Setup, after: Setup) {
    match m
    case X11 => after == before.(forceX11 := Some(true))
    case DisableOpenGL => after == before.(backends := Some({Vulkan, Dx12}))
    case ForceVulkan => after == before.(backends := Some({Vulkan}))
    case DedicatedGpu => after == before.(preferLowPowerGpu := Some(false))
  }

  lemma MechanismsStep(s: Setup)
    ensures Mechanisms(s) == [] <==> Choose(s) == None
    ensures Mechanisms(s) == [] ==> AfterCrash(s, true) == s
    ensures Mechanisms(s) != [] ==>
              && Choose(s) == Some(Mechanisms(s)[0])
              && IsRecovered(Mechanisms(s)[0], s, AfterCrash(s, true))
    ensures Mechanisms(AfterCrash(s, true)) == Drop(Mechanisms(s), 1)
  {
    assert {Vulkan, Dx12} != {Vulkan} by { assert Dx12 in {Vulkan, Dx12}; }
  }

  function Drop(ms: seq<Mechanism>, n: nat): seq<Mechanism> {
    if n <= |ms| then ms[n..] else []
  }

  lemma DropOneMore(ms: seq<Mechanism>, n: nat)
    ensures Drop(Drop(ms, n), 1) == Drop(ms, n + 1)
    ensures Drop(ms, 0) == ms
    ensures n < |ms| ==> Drop(ms, n) != [] && Drop(ms, n)[0] == ms[n]
    ensures n >= |ms| ==> Drop(ms, n) == []
  {
  }

  lemma {:induction false} MechanismsLeft(s: Setup, n: nat)
    ensures Mechanisms(AfterCrashes(s, n, true)) == Drop(Mechanisms(s), n)
  {
    if n == 0 {
      DropOneMore(Mechanisms(s), 0);
    } else {
      MechanismsLeft(s, n - 1);
      MechanismsStep(AfterCrashes(s, n - 1, true));
      DropOneMore(Mechanisms(s), n - 1);
    }
  }

  /** With successful writes, crash `n` is met by mechanism `n` of that list, which leaves its own mark
      in the setup and nothing else, and by none when the list is used up. */
  lemma MechanismsInTurn(s: Setup, n: nat)
    ensures Choose(AfterCrashes(s, n, true)) == if n < |Mechanisms(s)| then Some(Mechanisms(s)[n]) else None
    ensures n < |Mechanisms(s)| ==>
              IsRecovered(Mechanisms(s)[n], AfterCrashes(s, n, true), AfterCrashes(s, n + 1, true))
    ensures n >= |Mechanisms(s)| ==> AfterCrashes(s, n + 1, true) == AfterCrashes(s, n, true)
  {
    MechanismsLeft(s, n);
    DropOneMore(Mechanisms(s), n);
    MechanismsStep(AfterCrashes(s, n, true));
  }
}
