/** The watchdog that hands container ids to an external reaper process, and gives up after three
    failures to start one. Process creation and pipe writes are oracles. */
module Watchdog {
  import ContainerId

  const MAX_SPAWN_FAILURES: nat := 3

  /** A live reaper and the ids that were written to it. */
  datatype Reaper = NoReaper | Reaper(ids: seq<string>)

  /** What the operating system answers during one registration: the first spawn, the write, the
      second spawn and the write after it. Answers that are not asked for are ignored. */
  datatype Answers = Answers(spawn: bool, write: bool, respawn: bool, rewrite: bool)

  /** `warnings` counts how often the exhaustion warning was given. */
  datatype State = State(reaper: Reaper, failures: nat, warned: bool, warnings: nat)

  const START: State := State(NoReaper, 0, false, 0)

  function WarnOnce(s: State): State {
    if s.warned then s else s.(warned := true, warnings := s.warnings + 1)
  }

  class Registry {
    var reaper: Reaper
    var failures: nat
    var warned: bool
    ghost var warnings: nat

    ghost function Value(): State
      reads this
    {
      State(reaper, failures, warned, warnings)
    }

    constructor ()
      ensures Value() == START
    {
      reaper, failures, warned, warnings := NoReaper, 0, false, 0;
    }

    method WarnExhaustedOnce()
      modifies `warned, `warnings
      ensures Value() == WarnOnce(old(Value()))
    {
      if !warned {
        warned, warnings := true, warnings + 1;
      }
    }

    method TrySpawnReaper(works: bool)
      modifies `reaper, `failures
      ensures if works then reaper == Reaper([]) && failures == old(failures)
              else reaper == NoReaper && failures == old(failures) + 1
    {
      if works {
        reaper := Reaper([]);
      } else {
        failures := failures + 1;
        reaper := NoReaper;
      }
    }

    method WriteId(id: string, works: bool) returns (ok: bool)
      requires reaper.Reaper?
      modifies `reaper
      ensures ok == works
      ensures reaper == if works then Reaper(old(reaper).ids + [id]) else old(reaper)
    {
      if works {
        reaper := Reaper(reaper.ids + [id]);
      }
      ok := works;
    }

    /** Registers one container id. */
    method Register(id: string, a: Answers)
      modifies this
      ensures Value() == Registered(old(Value()), id, a)
    {
      var valid := ContainerId.IsValidContainerId(id);
      if !valid {
        return;
      }
      if reaper.NoReaper? {
        if failures >= MAX_SPAWN_FAILURES {
          WarnExhaustedOnce();
          return;
        }
        TrySpawnReaper(a.spawn);
        if reaper.NoReaper? {
          if failures >= MAX_SPAWN_FAILURES {
            WarnExhaustedOnce();
          }
          return;
        }
      }
      var ok := WriteId(id, a.write);
      if ok {
        return;
      }
      reaper := NoReaper;
      if failures >= MAX_SPAWN_FAILURES {
        WarnExhaustedOnce();
        return;
      }
      TrySpawnReaper(a.respawn);
      if reaper.Reaper? {
        ok := WriteId(id, a.rewrite);
        if !ok {
          failures := failures + 1;
          reaper := NoReaper;
          if failures >= MAX_SPAWN_FAILURES {
            WarnExhaustedOnce();
          }
        }
      } else if failures >= MAX_SPAWN_FAILURES {
        WarnExhaustedOnce();
      }
    }
  }

  /** A registration ends in one of three ways: the id reaches the reaper that was alive before,
      or a fresh one, or nothing does and one failure is counted, unless all are used up. */
  function Registered(s: State, id: string, a: Answers): State {
    if !ContainerId.NameValid(id) then s
    else if s.reaper.NoReaper? && s.failures >= MAX_SPAWN_FAILURES then WarnOnce(s)
    else if (s.reaper.Reaper? || a.spawn) && a.write then
      s.(reaper := Reaper((if s.reaper.Reaper? then s.reaper.ids else []) + [id]))
    else if s.failures >= MAX_SPAWN_FAILURES then WarnOnce(s.(reaper := NoReaper))
    else if (s.reaper.Reaper? || a.spawn) && a.respawn && a.rewrite then s.(reaper := Reaper([id]))
    else
      var lost := s.(reaper := NoReaper, failures := s.failures + 1);
      if lost.failures >= MAX_SPAWN_FAILURES then WarnOnce(lost) else lost
  }

  ghost predicate Inv(s: State) {
    && s.failures <= MAX_SPAWN_FAILURES
    && (s.reaper.Reaper? ==> s.failures < MAX_SPAWN_FAILURES)
    && s.warnings == (if s.warned then 1 else 0)
    && (s.warned ==> s.failures == MAX_SPAWN_FAILURES)
    && (s.failures == MAX_SPAWN_FAILURES ==> s.warned)
  }

  datatype Call = Call(id: string, answers: Answers)

  function RunAll(s: State, calls: seq<Call>): State
    decreases |calls|
  {
    if calls == [] then s else RunAll(Registered(s, calls[0].id, calls[0].answers), calls[1..])
  }

  /** The valid ids that were in no reaper's hands when their registration returned, while the
      watchdog was not yet disabled when it began. */
  function Lost(s: State, calls: seq<Call>): seq<string>
    decreases |calls|
  {
    if calls == [] then []
    else
      var id := calls[0].id;
      var s' := Registered(s, id, calls[0].answers);
      var lost := ContainerId.NameValid(id) && s.failures < MAX_SPAWN_FAILURES && !Holds(s', id);
      (if lost then [id] else []) + Lost(s', calls[1..])
  }

  predicate Holds(s: State, id: string) {
    s.reaper.Reaper? && id in s.reaper.ids
  }

  lemma StepKeepsInv(s: State, id: string, a: Answers)
    requires Inv(s)
    ensures var s' := Registered(s, id, a);
            && Inv(s') && s.failures <= s'.failures <= s.failures + 1
            && (ContainerId.NameValid(id) ==>
                  if s'.reaper.Reaper? then s'.failures == s.failures && Holds(s', id)
                  else if s.failures == MAX_SPAWN_FAILURES then s'.failures == MAX_SPAWN_FAILURES
                  else s'.failures == s.failures + 1)
  {
    if s.reaper.Reaper? && a.write && ContainerId.NameValid(id) {
      assert (s.reaper.ids + [id])[|s.reaper.ids|] == id;
    }
  }

  /** What each registration does. An invalid id changes nothing, and neither does a valid one after
      three failures without a reaper, but for the warning. An open pipe takes the id behind the
      others; a closed one, or none, means a new reaper with this id alone, in the first or, after
      a failed write, the second attempt; anything else leaves no reaper and one more failure. */
  lemma RegistrationIs(s: State, id: string, a: Answers)
    requires Inv(s)
    ensures var s', valid := Registered(s, id, a), ContainerId.NameValid(id);
            var up := s.reaper.Reaper? || a.spawn;
            && (!valid ==> s' == s)
            && (valid && s.reaper.NoReaper? && s.failures == 3 ==> s' == s)
            && (valid && s.reaper.Reaper? && a.write ==> s'.reaper == Reaper(s.reaper.ids + [id]))
            && (valid && s.reaper.NoReaper? && s.failures < 3 && a.spawn && a.write ==> s'.reaper == Reaper([id]))
            && (valid && s.failures < 3 && up && !a.write && a.respawn && a.rewrite ==> s'.reaper == Reaper([id]))
            && (valid && s.failures < 3 && !(up && (a.write || (a.respawn && a.rewrite))) ==>
                  s'.reaper == NoReaper && s'.failures == s.failures + 1)
            && (s'.reaper.Reaper? ==> s'.failures == s.failures)
  {
    assert [] + [id] == [id];
  }

  /** In every run: at most three ids are lost before the watchdog is disabled for good, a live
      reaper means it is not disabled, and the warning is given at most once, exactly when it
      becomes disabled. */
  lemma {:induction false} EveryRunKeepsInv(s: State, calls: seq<Call>)
    requires Inv(s)
    ensures var s' := RunAll(s, calls);
            && Inv(s') && s'.failures == s.failures + |Lost(s, calls)|
            && (s.failures == MAX_SPAWN_FAILURES ==> s' == s)
    decreases |calls|
  {
    if calls != [] {
      StepKeepsInv(s, calls[0].id, calls[0].answers);
      EveryRunKeepsInv(Registered(s, calls[0].id, calls[0].answers), calls[1..]);
    }
  }

  lemma AtMostThreeAreLost(calls: seq<Call>)
    ensures |Lost(START, calls)| <= 3
    ensures var s := RunAll(START, calls);
            && s.warnings <= 1 && (s.warnings == 1 <==> |Lost(START, calls)| == 3)
            && (s.reaper.Reaper? ==> |Lost(START, calls)| < 3)
  {
    EveryRunKeepsInv(START, calls);
  }

  function ValidIds(calls: seq<Call>): seq<string> {
    if calls == [] then []
    else (if ContainerId.NameValid(calls[0].id) then [calls[0].id] else []) + ValidIds(calls[1..])
  }

  /** Call `j` registers a valid id and does not get it into a pipe that was open before. */
  ghost predicate NeedsReaper(s: State, calls: seq<Call>, j: nat)
    requires j < |calls|
  {
    ContainerId.NameValid(calls[j].id) && !(RunAll(s, calls[..j]).reaper.Reaper? && calls[j].answers.write)
  }

  /** No call from `k` on needs a new reaper. */
  ghost predicate NoNeed(s: State, calls: seq<Call>, k: nat) {
    forall j :: k <= j < |calls| ==> !NeedsReaper(s, calls, j)
  }

  lemma {:induction false} WithoutNeedAllIsHeld(s: State, calls: seq<Call>)
    requires Inv(s) && NoNeed(s, calls, 0)
    ensures RunAll(s, calls).reaper == if s.reaper.Reaper? then Reaper(s.reaper.ids + ValidIds(calls)) else NoReaper
    decreases |calls|
  {
    hide Registered;
    if calls != [] {
      var id, a, rest := calls[0].id, calls[0].answers, calls[1..];
      var s' := Registered(s, id, a);
      StepKeepsInv(s, id, a);
      forall j | 0 <= j < |rest| ensures !NeedsReaper(s', rest, j) {
        assert calls[..j + 1][1..] == rest[..j];
        assert !NeedsReaper(s, calls, j + 1);
      }
      WithoutNeedAllIsHeld(s', rest);
      assert !NeedsReaper(s, calls, 0) && calls[..0] == [];
      WrittenOrInvalid(s, id, a);
    } else if s.reaper.Reaper? {
      assert s.reaper.ids + [] == s.reaper.ids;
    }
  }

  lemma WrittenOrInvalid(s: State, id: string, a: Answers)
    requires !ContainerId.NameValid(id) || (s.reaper.Reaper? && a.write)
    ensures var s' := Registered(s, id, a);
            s'.reaper == if !ContainerId.NameValid(id) then s.reaper else Reaper(s.reaper.ids + [id])
  {
  }

  lemma {:induction false} RunConcat(s: State, a: seq<Call>, b: seq<Call>)
    ensures RunAll(s, a + b) == RunAll(RunAll(s, a), b)
    decreases |a|
  {
    hide Registered;
    if a == [] {
      assert a + b == b;
    } else {
      assert (a + b)[0] == a[0] && (a + b)[1..] == a[1..] + b;
      RunConcat(Registered(s, a[0].id, a[0].answers), a[1..], b);
    }
  }

  lemma RunCut(s: State, calls: seq<Call>, i: nat, j: nat)
    requires i <= j <= |calls|
    ensures RunAll(s, calls[..j]) == RunAll(RunAll(s, calls[..i]), calls[i..][..j - i])
  {
    hide RunAll;
    assert calls[..j] == calls[..i] + calls[i..][..j - i];
    RunConcat(s, calls[..i], calls[i..][..j - i]);
  }

  lemma RunSnoc(s: State, calls: seq<Call>, k: nat)
    requires k < |calls|
    ensures RunAll(s, calls[..k + 1]) == Registered(RunAll(s, calls[..k]), calls[k].id, calls[k].answers)
  {
    hide Registered;
    RunCut(s, calls, k, k + 1);
    assert calls[k..][..1] == [calls[k]];
  }

  lemma NoNeedInRest(calls: seq<Call>, i: nat)
    requires i <= |calls| && NoNeed(START, calls, i)
    ensures NoNeed(RunAll(START, calls[..i]), calls[i..], 0)
  {
    hide RunAll;
    forall j | 0 <= j < |calls| - i ensures !NeedsReaper(RunAll(START, calls[..i]), calls[i..], j) {
      RunCut(START, calls, i, i + j);
      assert !NeedsReaper(START, calls, i + j);
    }
  }

  /** What the reaper holds after a run is decided by the last registration that could not use an
      open pipe: if it brought up a reaper, the valid ids from that call on, in order, and nothing
      otherwise. */
  lemma ReaperHoldsSince(calls: seq<Call>, k: nat)
    requires k < |calls| && NeedsReaper(START, calls, k) && NoNeed(START, calls, k + 1)
    ensures RunAll(START, calls).reaper
         == if RunAll(START, calls[..k + 1]).reaper.Reaper? then Reaper(ValidIds(calls[k..])) else NoReaper
  {
    hide Registered, RunAll, Inv, NoNeed;
    var s, rest := RunAll(START, calls[..k + 1]), calls[k + 1..];
    NoNeedInRest(calls, k + 1);
    StartInv();
    EveryRunKeepsInv(START, calls[..k + 1]);
    WithoutNeedAllIsHeld(s, rest);
    RunCut(START, calls, k + 1, |calls|);
    assert rest[..|rest|] == rest && calls[..|calls|] == calls;
    RunSnoc(START, calls, k);
    OnlyTheNewId(RunAll(START, calls[..k]), calls[k].id, calls[k].answers);
    assert calls[k..][1..] == rest;
  }

  lemma StartInv()
    ensures Inv(START)
  {
  }

  /** Before the first such registration there is no reaper. */
  lemma NoReaperWithoutNeed(calls: seq<Call>)
    requires NoNeed(START, calls, 0)
    ensures RunAll(START, calls).reaper == NoReaper
  {
    WithoutNeedAllIsHeld(START, calls);
  }

  lemma OnlyTheNewId(s: State, id: string, a: Answers)
    requires ContainerId.NameValid(id) && !(s.reaper.Reaper? && a.write)
    ensures Registered(s, id, a).reaper == NoReaper || Registered(s, id, a).reaper == Reaper([id])
  {
    assert [] + [id] == [id];
  }

  /** A registration drops earlier ids exactly when it finds a live reaper's pipe dead, unless
      the only earlier id is the one that is written again. */
  lemma EarlierIdsDroppedIff(s: State, id: string, a: Answers)
    requires Inv(s) && s.reaper.Reaper? && s.reaper.ids != []
    ensures var s' := Registered(s, id, a);
            s'.reaper.Reaper? && s.reaper.ids <= s'.reaper.ids <==>
              !ContainerId.NameValid(id) || a.write || (s.reaper.ids == [id] && a.respawn && a.rewrite)
  {
  }
}
