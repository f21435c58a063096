/** The generation-stamped exit code of a container that is restarted while waiter threads of any
    age are still around. */
module ExitCode {

  import opened Options

  const GENERATIONS: nat := 0x1_0000_0000_0000_0000  // u64 wraps here

  /** The value of the shared state. */
  datatype Shared<T> = Shared(generation: nat, exitCode: Option<T>)

  function Stored<T>(s: Shared<T>, g: nat, code: T): Shared<T> {
    if g == s.generation then s.(exitCode := Some(code)) else s
  }

  function Bumped<T>(s: Shared<T>): Shared<T> {
    Shared((s.generation + 1) % GENERATIONS, None)
  }

  /** The shared state under its mutex. */
  class WaitState {
    var generation: nat
    var exitCode: Option<int>

    ghost function Value(): Shared<int>
      reads this
    {
      Shared(generation, exitCode)
    }

    constructor ()
      ensures Value() == Shared(0, None)
    {
      generation, exitCode := 0, None;
    }

    /** Records `code` only for a waiter of the current generation. */
    method StoreIfCurrent(g: nat, code: int) returns (stored: bool)
      modifies `exitCode
      ensures stored <==> g == generation
      ensures Value() == Stored(old(Value()), g, code)
    {
      if generation == g {
        exitCode := Some(code);
        return true;
      }
      return false;
    }

    /** Starts a new generation with no exit code. */
    method Bump() returns (g: nat)
      modifies this
      ensures Value() == Bumped(old(Value())) && g == generation
    {
      generation := (generation + 1) % GENERATIONS;
      exitCode := None;
      g := generation;
    }
  }

  /** A code together with the container incarnation (the how-manieth start) it is the exit code
      of. */
  datatype Code = Code(value: int, incarnation: nat)

  /** A waiter thread or an on-demand wait: the generation it was given, the number of bumps there
      had been at that moment, and what its wait call returned, if it has. */
  datatype Waiter = Waiter(generation: nat, bornAfter: nat, observed: Option<Code>)

  /** `latest` is the running or last incarnation, `bumps` how often `Bump` ran, `bumpedAt` the
      latest incarnation at the last bump, `owed` how many successful restarts have still to
      bump. `visibleSince` is the number of bumps there had been when the waiter
      that stored the visible code was given its generation. */
  datatype System = System(
    generation: nat, visible: Option<Code>,
    latest: nat, running: bool,
    bumps: nat, bumpedAt: nat, owed: nat, abandoned: bool,
    visibleSince: nat, waiters: seq<Waiter>
  )

  /** The first incarnation is running; nothing has been waited for. */
  const START: System := System(0, None, 0, true, 0, 0, 0, false, 0, [])

  datatype Step =
    | Exit                     // the init process ends
    | Restart                  // a stopped container is started again
    | JoinRestart              // a concurrent start finds it already running again
    | Abandon                  // a restart fails after the container came up, before its bump
    | Bump                     // a restart gets to its bump and spawns its waiter
    | Spawn                    // a wait begins under the current generation
    | Observe(w: nat, value: int)  // the wait call of waiter `w` returns for a stopped container
    | Store(w: nat)            // waiter `w` records what it observed, if it is still current

  predicate Enabled(s: System, step: Step) {
    match step
    case Exit => s.running
    case Restart => !s.running
    case JoinRestart => s.running
    case Abandon => s.owed > 0
    case Bump => s.owed > 0
    case Spawn => true
    case Observe(w, _) => !s.running && w < |s.waiters| && s.waiters[w].observed == None
    case Store(w) => w < |s.waiters| && s.waiters[w].observed.Some?
  }

  function Next(s: System, step: Step): System
    requires Enabled(s, step)
  {
    match step
    case Exit => s.(running := false)
    case Restart => s.(latest := s.latest + 1, running := true, owed := s.owed + 1)
    case JoinRestart => s.(owed := s.owed + 1)
    case Abandon => s.(owed := s.owed - 1, abandoned := true)
    case Bump =>
      var shared := Bumped(Shared(s.generation, s.visible));
      var g := shared.generation;
      s.(generation := g, visible := shared.exitCode, bumps := s.bumps + 1, bumpedAt := s.latest, owed := s.owed - 1,
         abandoned := false, waiters := s.waiters + [Waiter(g, s.bumps + 1, None)])
    case Spawn => s.(waiters := s.waiters + [Waiter(s.generation, s.bumps, None)])
    case Observe(w, value) =>
      s.(waiters := s.waiters[w := s.waiters[w].(observed := Some(Code(value, s.latest)))])
    case Store(w) =>
      var g := s.waiters[w].generation;
      s.(visible := Stored(Shared(s.generation, s.visible), g, s.waiters[w].observed.value).exitCode,
         visibleSince := if g == s.generation then s.waiters[w].bornAfter else s.visibleSince)
  }

  ghost predicate Schedule(s: System, steps: seq<Step>)
    decreases |steps|
  {
    steps != [] ==> Enabled(s, steps[0]) && Schedule(Next(s, steps[0]), steps[1..])
  }

  ghost function RunAll(s: System, steps: seq<Step>): System
    requires Schedule(s, steps)
    decreases |steps|
  {
    if steps == [] then s else RunAll(Next(s, steps[0]), steps[1..])
  }

  ghost predicate WaiterInv(s: System, w: Waiter) {
    && w.bornAfter <= s.bumps
    && w.generation == w.bornAfter % GENERATIONS
    && (w.observed.Some? ==> w.observed.value.incarnation <= s.latest)
    && (w.observed.Some? && w.bornAfter == s.bumps ==> s.bumpedAt <= w.observed.value.incarnation)
  }

  ghost predicate Inv(s: System) {
    && s.generation == s.bumps % GENERATIONS
    && s.bumpedAt <= s.latest
    && (s.owed == 0 && !s.abandoned ==> s.bumpedAt == s.latest)
    && (s.visible.Some? && s.bumps < GENERATIONS ==>
          && s.visibleSince == s.bumps
          && s.bumpedAt <= s.visible.value.incarnation <= s.latest)
    && forall w :: 0 <= w < |s.waiters| ==> WaiterInv(s, s.waiters[w])
  }

  /** Below the wrap-around equal generations mean equal bump counts. */
  lemma SameGenerationIff(bornAfter: nat, bumps: nat)
    requires bornAfter <= bumps
    ensures bumps < GENERATIONS ==> (bornAfter % GENERATIONS == bumps % GENERATIONS <==> bornAfter == bumps)
  {
    if bumps < GENERATIONS {
      SmallMod(bornAfter);
      SmallMod(bumps);
    }
  }

  lemma SmallMod(n: nat)
    requires n < GENERATIONS
    ensures n % GENERATIONS == n
  {
  }

  lemma NextGeneration(n: nat)
    ensures (n % GENERATIONS + 1) % GENERATIONS == (n + 1) % GENERATIONS
  {
    var q, r := n / GENERATIONS, n % GENERATIONS;
    assert n + 1 == q * GENERATIONS + (r + 1);
    if r + 1 < GENERATIONS {
      assert (n + 1) % GENERATIONS == r + 1;
    } else {
      assert n + 1 == (q + 1) * GENERATIONS;
    }
  }

  lemma StepKeepsInv(s: System, step: Step)
    requires Inv(s) && Enabled(s, step)
    ensures Inv(Next(s, step))
  {
    var s' := Next(s, step);
    NextGeneration(s.bumps);
    forall w | 0 <= w < |s'.waiters| ensures WaiterInv(s', s'.waiters[w]) {
      if w < |s.waiters| {
        assert WaiterInv(s, s.waiters[w]);
        StepKeepsWaiter(s, step, w);
      } else {
        NewWaiter(s, step);
      }
    }
    if step.Store? {
      assert WaiterInv(s, s.waiters[step.w]);
      SameGenerationIff(s.waiters[step.w].bornAfter, s.bumps);
    }
    hide WaiterInv, Enabled;
  }

  lemma StepKeepsWaiter(s: System, step: Step, w: nat)
    requires Enabled(s, step) && w < |s.waiters| && WaiterInv(s, s.waiters[w]) && s.bumpedAt <= s.latest
    ensures w < |Next(s, step).waiters| && WaiterInv(Next(s, step), Next(s, step).waiters[w])
  {
  }

  lemma NewWaiter(s: System, step: Step)
    requires Inv(s) && Enabled(s, step) && |Next(s, step).waiters| > |s.waiters|
    ensures |Next(s, step).waiters| == |s.waiters| + 1
    ensures WaiterInv(Next(s, step), Next(s, step).waiters[|s.waiters|])
  {
    NextGeneration(s.bumps);
  }

  lemma {:induction false} EveryScheduleKeepsInv(s: System, steps: seq<Step>)
    requires Inv(s) && Schedule(s, steps)
    ensures Inv(RunAll(s, steps))
    decreases |steps|
  {
    hide Next, Inv, Enabled;
    if steps != [] {
      StepKeepsInv(s, steps[0]);
      EveryScheduleKeepsInv(Next(s, steps[0]), steps[1..]);
    }
  }

  /** Waiter `w` keeps its generation, and the bump count grows exactly with every bump. */
  lemma {:induction false} SinceBirth(s: System, steps: seq<Step>, w: nat)
    requires Schedule(s, steps) && w < |s.waiters|
    ensures var s' := RunAll(s, steps);
            && w < |s'.waiters| && s'.waiters[w].bornAfter == s.waiters[w].bornAfter
            && s.bumps <= s'.bumps && (s.bumps == s'.bumps <==> Bump !in steps)
    decreases |steps|
  {
    if steps != [] {
      StepSinceBirth(s, steps[0], w);
      SinceBirth(Next(s, steps[0]), steps[1..], w);
      hide Next, Enabled, RunAll, Schedule;
      assert steps == [steps[0]] + steps[1..];
    }
  }

  lemma StepSinceBirth(s: System, step: Step, w: nat)
    requires Enabled(s, step) && w < |s.waiters|
    ensures var s' := Next(s, step);
            && w < |s'.waiters| && s'.waiters[w].bornAfter == s.waiters[w].bornAfter
            && s'.bumps == s.bumps + if step == Bump then 1 else 0
  {
  }

  /** In every schedule of fewer than 2^64 bumps: what a waiter born in step `birth` stores after
      the steps `after` becomes visible exactly when no bump is among those steps; otherwise the
      store changes nothing that can be seen. */
  lemma StoreAcceptedIff(before: seq<Step>, birth: Step, after: seq<Step>)
    requires Schedule(START, before) && (birth == Spawn || birth == Bump) && Enabled(RunAll(START, before), birth)
    requires Schedule(Next(RunAll(START, before), birth), after)
    requires var s := RunAll(Next(RunAll(START, before), birth), after);
             s.bumps < 0x1_0000_0000_0000_0000 && Enabled(s, Store(|RunAll(START, before).waiters|))
    ensures var w, s := |RunAll(START, before).waiters|, RunAll(Next(RunAll(START, before), birth), after);
            Next(s, Store(w)).visible == if Bump in after then s.visible else s.waiters[w].observed
  {
    var s0 := RunAll(START, before);
    var w, s1 := |s0.waiters|, Next(s0, birth);
    var s := RunAll(s1, after);
    StartInv();
    EveryScheduleKeepsInv(START, before);
    StepKeepsInv(s0, birth);
    EveryScheduleKeepsInv(s1, after);
    SinceBirth(s1, after, w);
    hide RunAll, Schedule;
    assert s1.waiters[w].bornAfter == s1.bumps;
    assert WaiterInv(s, s.waiters[w]);
    SameGenerationIff(s.waiters[w].bornAfter, s.bumps);
  }

  /** In every schedule of fewer than 2^64 bumps a visible code was stored by a waiter of the
      current generation, so nothing stored or even awaited before a bump is visible after it,
      and it belongs to no incarnation older than the last bump. So while the last bump belongs to
      the latest incarnation, which is whenever no restart is on its way to its bump and none has
      failed since the last one, it is the exit code of the latest incarnation. */
  lemma VisibleCodeIsCurrent(steps: seq<Step>)
    requires Schedule(START, steps) && RunAll(START, steps).bumps < 0x1_0000_0000_0000_0000
    ensures var s := RunAll(START, steps);
            && (s.owed == 0 && !s.abandoned ==> s.bumpedAt == s.latest)
            && (s.visible.Some? ==>
                  && s.visibleSince == s.bumps
                  && s.bumpedAt <= s.visible.value.incarnation <= s.latest
                  && (s.bumpedAt == s.latest ==> s.visible.value.incarnation == s.latest))
  {
    EveryScheduleKeepsInv(START, steps);
  }

  /** No code of an older incarnation is visible. */
  ghost predicate Fresh(s: System) {
    s.visible.Some? ==> s.visible.value.incarnation == s.latest
  }

  /** Waiter `w` is of the current generation and about to record what it observed. */
  ghost predicate Records(s: System, step: Step)
    requires Enabled(s, step)
  {
    step.Store? && s.waiters[step.w].generation == s.generation
  }

  /** A restart while a code is visible, or a waiter of the current generation recording the code
      of an incarnation that has been restarted since it looked. */
  ghost predicate Spoils(s: System, step: Step)
    requires Enabled(s, step)
  {
    || (step.Restart? && s.visible.Some?)
    || (Records(s, step) && s.waiters[step.w].observed.value.incarnation < s.latest)
  }

  /** A bump, or a waiter of the current generation recording the code of the latest
      incarnation. */
  ghost predicate Cures(s: System, step: Step)
    requires Enabled(s, step)
  {
    step.Bump? || (Records(s, step) && s.waiters[step.w].observed.value.incarnation == s.latest)
  }

  /** Which steps make an outdated code visible and which end that. */
  lemma FreshStep(s: System, step: Step)
    requires Inv(s) && s.bumps < 0x1_0000_0000_0000_0000 && Enabled(s, step)
    ensures !(Spoils(s, step) && Cures(s, step))
    ensures Fresh(Next(s, step)) <==> !Spoils(s, step) && (Cures(s, step) || Fresh(s))
  {
    if step.Store? {
      assert WaiterInv(s, s.waiters[step.w]);
    }
  }

  lemma {:induction false} SchedulePrefix(s: System, steps: seq<Step>, k: nat)
    requires Schedule(s, steps) && k <= |steps|
    ensures Schedule(s, steps[..k])
    ensures RunAll(s, steps[..k]).bumps <= RunAll(s, steps).bumps
    ensures k < |steps| ==> Enabled(RunAll(s, steps[..k]), steps[k])
    decreases |steps|
  {
    if k > 0 {
      SchedulePrefix(Next(s, steps[0]), steps[1..], k - 1);
      assert steps[..k][1..] == steps[1..][..k - 1];
    } else if steps != [] {
      SchedulePrefix(Next(s, steps[0]), steps[1..], 0);
      assert steps[1..][..0] == [];
    }
  }

  lemma {:induction false} RunSnoc(s: System, steps: seq<Step>)
    requires Schedule(s, steps) && steps != []
    ensures var front, last := steps[..|steps| - 1], steps[|steps| - 1];
            Schedule(s, front) && Enabled(RunAll(s, front), last) && RunAll(s, steps) == Next(RunAll(s, front), last)
    decreases |steps|
  {
    hide Next, Enabled;
    if |steps| > 1 {
      RunSnoc(Next(s, steps[0]), steps[1..]);
      assert steps[..|steps| - 1][1..] == steps[1..][..|steps| - 2];
    }
  }

  /** Step `k` of a schedule spoils and no later step cures. */
  ghost predicate SpoiltAt(s: System, steps: seq<Step>, k: nat)
    requires Schedule(s, steps) && k < |steps|
  {
    && SpoilsAt(s, steps, k)
    && forall j :: k < j < |steps| ==> !CuresAt(s, steps, j)
  }

  ghost predicate SpoilsAt(s: System, steps: seq<Step>, k: nat)
    requires Schedule(s, steps) && k < |steps|
  {
    SchedulePrefix(s, steps, k);
    Spoils(RunAll(s, steps[..k]), steps[k])
  }

  ghost predicate CuresAt(s: System, steps: seq<Step>, k: nat)
    requires Schedule(s, steps) && k < |steps|
  {
    SchedulePrefix(s, steps, k);
    Cures(RunAll(s, steps[..k]), steps[k])
  }

  lemma AtInFront(s: System, steps: seq<Step>, k: nat)
    requires Schedule(s, steps) && k < |steps| - 1
    ensures Schedule(s, steps[..|steps| - 1])
    ensures SpoilsAt(s, steps, k) <==> SpoilsAt(s, steps[..|steps| - 1], k)
    ensures CuresAt(s, steps, k) <==> CuresAt(s, steps[..|steps| - 1], k)
  {
    SchedulePrefix(s, steps, |steps| - 1);
    assert steps[..|steps| - 1][..k] == steps[..k];
  }

  /** Over whole schedules of fewer than 2^64 bumps: an outdated code is visible at the end if and
      only if some step spoilt it and no step since then cured it. */
  lemma {:induction false} StaleIff(steps: seq<Step>)
    requires Schedule(START, steps) && RunAll(START, steps).bumps < 0x1_0000_0000_0000_0000
    ensures !Fresh(RunAll(START, steps)) <==> exists k :: 0 <= k < |steps| && SpoiltAt(START, steps, k)
    decreases |steps|
  {
    hide Next, Enabled, Inv, Fresh, Spoils, Cures, RunAll, Schedule, SpoilsAt, CuresAt;
    if steps == [] {
      StartIsFresh(steps);
    } else {
      var n := |steps| - 1;
      var front, last := steps[..n], steps[n];
      LastDecides(steps);
      StaleIff(front);
      forall k | 0 <= k < n
        ensures SpoiltAt(START, steps, k) <==> SpoiltAt(START, front, k) && !CuresAt(START, steps, n)
      {
        SpoiltInFront(steps, k);
      }
      assert SpoiltAt(START, steps, n) <==> SpoilsAt(START, steps, n);
    }
  }

  lemma StartIsFresh(steps: seq<Step>)
    requires steps == []
    ensures Schedule(START, steps) && Fresh(RunAll(START, steps))
  {
  }

  /** The last step against the state before it. */
  lemma LastDecides(steps: seq<Step>)
    requires Schedule(START, steps) && steps != [] && RunAll(START, steps).bumps < 0x1_0000_0000_0000_0000
    ensures var n, front := |steps| - 1, steps[..|steps| - 1];
            && Schedule(START, front) && RunAll(START, front).bumps < GENERATIONS
            && !(SpoilsAt(START, steps, n) && CuresAt(START, steps, n))
            && (Fresh(RunAll(START, steps)) <==>
                  !SpoilsAt(START, steps, n) && (CuresAt(START, steps, n) || Fresh(RunAll(START, front))))
  {
    hide Next, Enabled, Inv, Fresh, Spoils, Cures, RunAll, Schedule;
    var n := |steps| - 1;
    SchedulePrefix(START, steps, n);
    RunSnoc(START, steps);
    StartInv();
    EveryScheduleKeepsInv(START, steps[..n]);
    FreshStep(RunAll(START, steps[..n]), steps[n]);
  }

  lemma StartInv()
    ensures Inv(START)
  {
  }

  lemma SpoiltInFront(steps: seq<Step>, k: nat)
    requires Schedule(START, steps) && k < |steps| - 1
    ensures Schedule(START, steps[..|steps| - 1])
    ensures SpoiltAt(START, steps, k) <==>
              SpoiltAt(START, steps[..|steps| - 1], k) && !CuresAt(START, steps, |steps| - 1)
  {
    hide Next, Enabled, RunAll, Schedule, SpoilsAt, CuresAt;
    var front := steps[..|steps| - 1];
    SchedulePrefix(START, steps, |steps| - 1);
    forall j | k <= j < |front|
      ensures SpoilsAt(START, steps, j) <==> SpoilsAt(START, front, j)
      ensures CuresAt(START, steps, j) <==> CuresAt(START, front, j)
    {
      AtInFront(START, steps, j);
    }
  }

  /* ---- The state told by the steps so far ---- */

  function Restarts(steps: seq<Step>): nat {
    if steps == [] then 0 else Restarts(steps[..|steps| - 1]) + if steps[|steps| - 1] == Restart then 1 else 0
  }

  function Bumps(steps: seq<Step>): nat {
    if steps == [] then 0 else Bumps(steps[..|steps| - 1]) + if steps[|steps| - 1] == Bump then 1 else 0
  }

  /** The last exit or restart was a restart, or there was none. */
  predicate Up(steps: seq<Step>) {
    steps == [] || (steps[|steps| - 1] != Exit && (steps[|steps| - 1] == Restart || Up(steps[..|steps| - 1])))
  }

  /** The wait of waiter `w` returned in step `i`, with this value, for the incarnation that was the
      latest then. */
  predicate Saw(steps: seq<Step>, w: nat, i: nat, code: Code) {
    i < |steps| && steps[i] == Observe(w, code.value) && Restarts(steps[..i]) == code.incarnation
  }

  ghost predicate WaitersSaw(s: System, steps: seq<Step>) {
    forall w :: 0 <= w < |s.waiters| && s.waiters[w].observed.Some? ==>
      exists i :: Saw(steps, w, i, s.waiters[w].observed.value)
  }

  /** The code was seen by a waiter that then stored it, and no bump came after the store. */
  ghost predicate Stems(steps: seq<Step>, code: Code) {
    exists w: nat, i: nat, j: nat ::
      Saw(steps, w, i, code) && i < j < |steps| && steps[j] == Store(w) && Bump !in steps[j..]
  }

  lemma SawLonger(steps: seq<Step>, step: Step, w: nat, i: nat, code: Code)
    requires Saw(steps, w, i, code)
    ensures Saw(steps + [step], w, i, code)
  {
    assert (steps + [step])[..i] == steps[..i];
  }

  lemma StemsLonger(steps: seq<Step>, step: Step, code: Code)
    requires Stems(steps, code) && step != Bump
    ensures Stems(steps + [step], code)
  {
    var w: nat, i: nat, j: nat :|
      Saw(steps, w, i, code) && i < j < |steps| && steps[j] == Store(w) && Bump !in steps[j..];
    SawLonger(steps, step, w, i, code);
    assert (steps + [step])[j..] == steps[j..] + [step];
  }

  lemma StoredStems(steps: seq<Step>, w: nat, i: nat, code: Code)
    requires Saw(steps, w, i, code)
    ensures Stems(steps + [Store(w)], code)
  {
    SawLonger(steps, Store(w), w, i, code);
    var all, j := steps + [Store(w)], |steps|;
    assert all[j..] == [Store(w)];
  }

  lemma WaitersSawStep(s: System, steps: seq<Step>, step: Step)
    requires WaitersSaw(s, steps) && Enabled(s, step) && s.latest == Restarts(steps)
    ensures WaitersSaw(Next(s, step), steps + [step])
  {
    var s', all := Next(s, step), steps + [step];
    forall w | 0 <= w < |s'.waiters| && s'.waiters[w].observed.Some?
      ensures exists i :: Saw(all, w, i, s'.waiters[w].observed.value)
    {
      if w < |s.waiters| && s.waiters[w].observed.Some? {
        var i :| Saw(steps, w, i, s.waiters[w].observed.value);
        SawLonger(steps, step, w, i, s.waiters[w].observed.value);
      } else {
        assert all[..|steps|] == steps;
        assert Saw(all, w, |steps|, s'.waiters[w].observed.value);
      }
    }
  }

  lemma VisibleStemsStep(s: System, steps: seq<Step>, step: Step)
    requires WaitersSaw(s, steps) && Enabled(s, step) && (s.visible.Some? ==> Stems(steps, s.visible.value))
    ensures var v := Next(s, step).visible; v.Some? ==> Stems(steps + [step], v.value)
  {
    hide Saw, Stems;
    var v := Next(s, step).visible;
    if v.Some? {
      if step.Store? && s.waiters[step.w].generation == s.generation {
        var code := s.waiters[step.w].observed.value;
        var i :| Saw(steps, step.w, i, code);
        StoredStems(steps, step.w, i, code);
      } else {
        assert v == s.visible && step != Bump;
        StemsLonger(steps, step, v.value);
      }
    }
  }

  /** In every schedule: the incarnations are counted by the restarts and the generations by the
      bumps, and a visible code is the value that some wait returned, for the incarnation that was
      the latest then, stored since by that waiter and hidden by no bump. */
  lemma {:induction false} StateIsHistory(steps: seq<Step>)
    requires Schedule(START, steps)
    ensures var s := RunAll(START, steps);
            && s.latest == Restarts(steps) && s.bumps == Bumps(steps) && s.running == Up(steps)
            && WaitersSaw(s, steps) && (s.visible.Some? ==> Stems(steps, s.visible.value))
    decreases |steps|
  {
    if steps != [] {
      var front, last := steps[..|steps| - 1], steps[|steps| - 1];
      RunSnoc(START, steps);
      StateIsHistory(front);
      assert steps == front + [last];
      var s := RunAll(START, front);
      hide RunAll, Schedule, WaitersSaw, Stems;
      WaitersSawStep(s, front, last);
      VisibleStemsStep(s, front, last);
    }
  }

  function Times(steps: seq<Step>, step: Step): nat {
    if steps == [] then 0
    else Times(steps[..|steps| - 1], step) + if steps[|steps| - 1] == step then 1 else 0
  }

  /** A restart failed after the last bump. */
  predicate FailedSinceBump(steps: seq<Step>) {
    steps != [] && steps[|steps| - 1] != Bump
    && (steps[|steps| - 1] == Abandon || FailedSinceBump(steps[..|steps| - 1]))
  }

  lemma StepOwes(s: System, step: Step)
    requires Enabled(s, step)
    ensures var s' := Next(s, step);
            && s'.owed == s.owed + (if step == Restart || step == JoinRestart then 1 else 0)
                          - (if step == Bump || step == Abandon then 1 else 0)
            && |s'.waiters| == |s.waiters| + (if step == Spawn || step == Bump then 1 else 0)
            && s'.abandoned == (if step == Bump then false else step == Abandon || s.abandoned)
  {
  }

  /** Every restart or concurrent start owes one bump until it bumps or fails, and there is one waiter
      for each wait that began and each bump. */
  lemma {:induction false} OwedIsHistory(steps: seq<Step>)
    requires Schedule(START, steps)
    ensures var s := RunAll(START, steps);
            && s.owed == Times(steps, Restart) + Times(steps, JoinRestart) - Times(steps, Bump) - Times(steps, Abandon)
            && |s.waiters| == Times(steps, Spawn) + Times(steps, Bump)
            && s.abandoned == FailedSinceBump(steps)
    decreases |steps|
  {
    if steps != [] {
      var front, last := steps[..|steps| - 1], steps[|steps| - 1];
      RunSnoc(START, steps);
      OwedIsHistory(front);
      StepOwes(RunAll(START, front), last);
      hide RunAll, Schedule, Next, Enabled;
    }
  }

  /** What can happen next, told by what has happened: the process exits and is restarted in turn, a
      bump or a failure needs a restart that has not had either, a wait may begin at any time,
      returns once and for a stopped container, and is recorded after it returned. */
  lemma NextStepsAre(steps: seq<Step>)
    requires Schedule(START, steps)
    ensures var s := RunAll(START, steps);
            var owed := Times(steps, Restart) + Times(steps, JoinRestart) - Times(steps, Bump) - Times(steps, Abandon);
            && (Enabled(s, Exit) <==> Up(steps)) && (Enabled(s, JoinRestart) <==> Up(steps))
            && (Enabled(s, Restart) <==> !Up(steps)) && Enabled(s, Spawn)
            && (Enabled(s, Bump) <==> owed > 0) && (Enabled(s, Abandon) <==> owed > 0)
            && (forall w: nat, value :: Enabled(s, Observe(w, value)) <==>
                  !Up(steps) && w < |s.waiters| && s.waiters[w].observed == None)
            && (forall w: nat :: Enabled(s, Store(w)) <==> w < |s.waiters| && s.waiters[w].observed.Some?)
  {
    StateIsHistory(steps);
    OwedIsHistory(steps);
    hide RunAll, Schedule, Up, Times, WaitersSaw, Stems;
  }

  /** Without its bump a restart leaves the old code standing: the restart that fails after the
      container came up. */
  function StaleRun(): seq<Step> {
    [Spawn, Exit, Observe(0, 137), Store(0), Restart, Abandon]
  }

  lemma FailedRestartLeavesStaleCode()
    ensures Schedule(START, StaleRun())
    ensures var s := RunAll(START, StaleRun());
            && s.visible == Some(Code(137, 0)) && s.latest == 1 && s.running && s.abandoned
  {
    hide Next, Schedule, RunAll;
    Conses();
    var s1, s2, s3, s4 := StaleStates();
    RunEmpty(Next(Next(s4, Restart), Abandon));
    RunCons(Next(s4, Restart), Abandon, []);
    RunCons(s4, Restart, [Abandon]);
    RunCons(s3, Store(0), [Restart, Abandon]);
    RunCons(s2, Observe(0, 137), [Store(0), Restart, Abandon]);
    RunCons(s1, Exit, [Observe(0, 137), Store(0), Restart, Abandon]);
    RunCons(START, Spawn, [Exit, Observe(0, 137), Store(0), Restart, Abandon]);
  }

  lemma Conses()
    ensures [Abandon] + [] == [Abandon] && [Restart] + [Abandon] == [Restart, Abandon]
    ensures [Store(0)] + [Restart, Abandon] == [Store(0), Restart, Abandon]
    ensures [Observe(0, 137)] + [Store(0), Restart, Abandon] == [Observe(0, 137), Store(0), Restart, Abandon]
    ensures [Exit] + [Observe(0, 137), Store(0), Restart, Abandon]
         == [Exit, Observe(0, 137), Store(0), Restart, Abandon]
    ensures [Spawn] + [Exit, Observe(0, 137), Store(0), Restart, Abandon] == StaleRun()
  {
  }

  lemma StaleStates() returns (s1: System, s2: System, s3: System, s4: System)
    ensures Enabled(START, Spawn) && s1 == Next(START, Spawn)
    ensures Enabled(s1, Exit) && s2 == Next(s1, Exit)
    ensures Enabled(s2, Observe(0, 137)) && s3 == Next(s2, Observe(0, 137))
    ensures Enabled(s3, Store(0)) && s4 == Next(s3, Store(0))
    ensures Enabled(s4, Restart) && Enabled(Next(s4, Restart), Abandon)
    ensures var s := Next(Next(s4, Restart), Abandon);
            s.visible == Some(Code(137, 0)) && s.latest == 1 && s.running && s.abandoned
  {
    s1 := Next(START, Spawn);
    s2 := Next(s1, Exit);
    s3 := Next(s2, Observe(0, 137));
    s4 := Next(s3, Store(0));
  }

  lemma RunEmpty(s: System)
    ensures Schedule(s, []) && RunAll(s, []) == s
  {
  }

  lemma RunCons(s: System, step: Step, rest: seq<Step>)
    requires Enabled(s, step) && Schedule(Next(s, step), rest)
    ensures Schedule(s, [step] + rest) && RunAll(s, [step] + rest) == RunAll(Next(s, step), rest)
  {
    assert ([step] + rest)[1..] == rest;
  }
}
