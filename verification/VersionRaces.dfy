/** When callers that race for the version cache run the command, and when their answers agree. */
module VersionRaces {
  import opened Wrappers
  import opened Serial
  import opened ProcessCapture
  import opened VersionCache

  // ----- the states an interleaving passes through -----

  lemma {:induction false} SplitAt(s: System, actions: seq<Action>, k: nat)
    requires Runnable(s, actions) && k <= |actions|
    ensures Runnable(s, actions[..k]) && Runnable(After(s, actions[..k]), actions[k..])
    ensures After(After(s, actions[..k]), actions[k..]) == After(s, actions)
    decreases k
  {
    if k == 0 {
      assert actions[..0] == [] && actions[0..] == actions;
    } else {
      SplitAt(Step(s, actions[0]), actions[1..], k - 1);
      assert actions[..k][1..] == actions[1..][..k - 1] && actions[k..] == actions[1..][k - 1..];
    }
  }

  /** The state before action k. */
  ghost function Before(s: System, actions: seq<Action>, k: nat): System
    requires Runnable(s, actions) && k <= |actions|
  {
    SplitAt(s, actions, k);
    After(s, actions[..k])
  }

  lemma {:induction false} CallersStay(s: System, actions: seq<Action>)
    requires Runnable(s, actions)
    ensures |After(s, actions).callers| == |s.callers|
    ensures forall i | 0 <= i < |s.callers| :: After(s, actions).callers[i].key == s.callers[i].key
    decreases |actions|
  {
    if actions != [] { CallersStay(Step(s, actions[0]), actions[1..]); }
  }

  ghost predicate ChecksFor(s: System, action: Action, key: string) {
    action.Check? && action.caller < |s.callers| && s.callers[action.caller].key == key
  }

  ghost predicate InsertsFor(s: System, action: Action, key: string) {
    action.Insert? && action.caller < |s.callers| && s.callers[action.caller].key == key
  }

  lemma InsertionsStay(s: System, first: Action, key: string)
    requires Enabled(s, first)
    ensures key in Step(s, first).cache <==> key in s.cache || InsertsFor(s, first, key)
    ensures forall action :: InsertsFor(Step(s, first), action, key) <==> InsertsFor(s, action, key)
  {
  }

  /** A key is stored exactly when some caller for it has inserted. */
  lemma {:induction false} StoredByInsert(s: System, actions: seq<Action>, key: string)
    requires Runnable(s, actions)
    ensures key in After(s, actions).cache <==>
            key in s.cache || exists action | action in actions :: InsertsFor(s, action, key)
    decreases |actions|
  {
    if actions != [] {
      var first, rest := actions[0], actions[1..];
      StoredByInsert(Step(s, first), rest, key);
      InsertionsStay(s, first, key);
      if action :| action in rest && InsertsFor(Step(s, first), action, key) {
        assert action in actions && InsertsFor(s, action, key);
      }
      if action :| action in actions && InsertsFor(s, action, key) {
        assert action == first || action in rest;
        assert action in rest ==> InsertsFor(Step(s, first), action, key);
      }
    }
  }

  // ----- who runs the command -----

  ghost predicate Ran(s: System, i: nat) { exists run | run in s.runs :: run.caller == i }

  lemma {:induction false} MissedRuns(s: System, actions: seq<Action>, i: nat)
    requires Runnable(s, actions) && i < |s.callers|
    requires !s.callers[i].phase.Starting? && (s.callers[i].phase.Missed? || Ran(s, i))
    ensures var t := After(s, actions);
            |t.callers| == |s.callers| && (t.callers[i].phase.Missed? || Ran(t, i))
    decreases |actions|
  {
    if actions != [] {
      var t := Step(s, actions[0]);
      if actions[0].Execute? {
        var run := Run(actions[0].caller, s.callers[actions[0].caller].key, actions[0].outcome);
        assert t.runs == s.runs + [run] && run in t.runs;
        if Ran(s, i) {
          var earlier :| earlier in s.runs && earlier.caller == i;
          assert earlier in t.runs;
        }
      }
      MissedRuns(t, actions[1..], i);
    }
  }

  lemma {:induction false} FinishedHasChecked(s: System, actions: seq<Action>, i: nat)
    requires Runnable(s, actions) && i < |s.callers| && s.callers[i].phase.Starting?
    requires i < |After(s, actions).callers| && !After(s, actions).callers[i].phase.Starting?
    ensures exists k :: 0 <= k < |actions| && actions[k] == Check(i)
    decreases |actions|
  {
    if actions[0] != Check(i) {
      FinishedHasChecked(Step(s, actions[0]), actions[1..], i);
      var k :| 0 <= k < |actions[1..]| && actions[1..][k] == Check(i);
      assert actions[k + 1] == Check(i);
    }
  }

  /** In every interleaving a finished caller has run the command exactly if its key was absent when it checked. */
  lemma FinishedRanExact(s: System, actions: seq<Action>, k: nat, i: nat)
    requires Initial(s) && Runnable(s, actions) && k < |actions| && actions[k] == Check(i)
    ensures i < |s.callers| == |After(s, actions).callers|
    ensures After(s, actions).callers[i].phase.Done? ==>
              (Ran(After(s, actions), i) <==> s.callers[i].key !in Before(s, actions, k).cache)
  {
    SplitAt(s, actions, k);
    var before, rest := Before(s, actions, k), actions[k + 1..];
    assert actions[k..][0] == Check(i) && actions[k..][1..] == rest;
    InitialIsSound(s);
    EveryRunIsSound(s, actions[..k]);
    CallersStay(s, actions[..k]);
    CallersStay(s, actions);
    var checked := Step(before, Check(i));
    assert After(checked, rest) == After(s, actions);
    if s.callers[i].key in before.cache {
      StoredKeysStay(checked, rest, i);
    } else {
      MissedRuns(checked, rest, i);
    }
  }

  // ----- whose answers agree -----

  /** Caller i has finished with a clean output for the key. */
  ghost predicate Answers(s: System, i: nat, key: string, output: ProcessOutput) {
    && i < |s.callers|
    && s.callers[i].key == key
    && s.callers[i].phase == Done(Ok(output))
    && IsClean(output)
  }

  ghost predicate Agree(s: System, key: string) {
    forall i, j, a, b :: Answers(s, i, key, a) && Answers(s, j, key, b) ==> a == b
  }

  /** Some finished caller for the key ran the command itself and got this clean output. */
  ghost predicate FinishedWith(s: System, key: string, output: ProcessOutput) {
    exists run | run in s.runs :: run.outcome == Ok(output) && Answers(s, run.caller, key, output)
  }

  /** Every stored output is that of a finished run for its key. */
  ghost predicate CacheSettled(s: System) {
    forall key | key in s.cache :: IsClean(s.cache[key]) && FinishedWith(s, key, s.cache[key])
  }

  /** So is every clean answer. */
  ghost predicate AnswersSettled(s: System) {
    forall i, key, output :: Answers(s, i, key, output) ==> FinishedWith(s, key, output)
  }

  /** A caller about to insert holds the output of its own run. */
  ghost predicate PendingSettled(s: System) {
    forall i | 0 <= i < |s.callers| && s.callers[i].phase.HasRun? ::
      exists run | run in s.runs :: run.caller == i && run.outcome == Ok(s.callers[i].phase.output)
  }

  ghost predicate Settled(s: System) { CacheSettled(s) && AnswersSettled(s) && PendingSettled(s) }

  lemma FinishedStays(s: System, action: Action, key: string, output: ProcessOutput)
    requires Enabled(s, action) && FinishedWith(s, key, output)
    ensures FinishedWith(Step(s, action), key, output)
  {
    var run :| run in s.runs && run.outcome == Ok(output) && Answers(s, run.caller, key, output);
    var t := Step(s, action);
    assert run in t.runs && Answers(t, run.caller, key, output);
  }

  lemma CheckKeepsSettled(s: System, i: nat)
    requires Settled(s) && Enabled(s, Check(i))
    ensures Settled(Step(s, Check(i)))
  {
    var t := Step(s, Check(i));
    forall key, output | FinishedWith(s, key, output) ensures FinishedWith(t, key, output) {
      FinishedStays(s, Check(i), key, output);
    }
    forall j, key, output | Answers(t, j, key, output) ensures FinishedWith(t, key, output) {
      if j != i { assert Answers(s, j, key, output); }
    }
  }

  lemma ExecuteKeepsSettled(s: System, i: nat, outcome: RunResult)
    requires Settled(s) && Enabled(s, Execute(i, outcome))
    ensures Settled(Step(s, Execute(i, outcome)))
  {
    var t := Step(s, Execute(i, outcome));
    var run := Run(i, s.callers[i].key, outcome);
    assert t.runs == s.runs + [run] && run in t.runs;
    forall key, output | FinishedWith(s, key, output) ensures FinishedWith(t, key, output) {
      FinishedStays(s, Execute(i, outcome), key, output);
    }
    forall j, key, output | Answers(t, j, key, output) ensures FinishedWith(t, key, output) {
      assert j != i && Answers(s, j, key, output);
    }
    forall j | 0 <= j < |t.callers| && t.callers[j].phase.HasRun?
      ensures exists r | r in t.runs :: r.caller == j && r.outcome == Ok(t.callers[j].phase.output)
    {
      if j != i {
        var r :| r in s.runs && r.caller == j && r.outcome == Ok(s.callers[j].phase.output);
        assert r in t.runs;
      }
    }
  }

  lemma InsertedIsFinished(s: System, i: nat)
    requires PendingSettled(s) && Sound(s) && Enabled(s, Insert(i))
    ensures var output := s.callers[i].phase.output;
            IsClean(output) && FinishedWith(Step(s, Insert(i)), s.callers[i].key, output)
  {
    var t, output := Step(s, Insert(i)), s.callers[i].phase.output;
    var run :| run in s.runs && run.caller == i && run.outcome == Ok(output);
    assert run in t.runs && Answers(t, i, s.callers[i].key, output);
  }

  lemma CacheAfterInsert(s: System, i: nat)
    requires CacheSettled(s) && PendingSettled(s) && Sound(s) && Enabled(s, Insert(i))
    ensures CacheSettled(Step(s, Insert(i)))
  {
    var t := Step(s, Insert(i));
    InsertedIsFinished(s, i);
    forall key | key in t.cache ensures IsClean(t.cache[key]) && FinishedWith(t, key, t.cache[key]) {
      if key != s.callers[i].key { FinishedStays(s, Insert(i), key, s.cache[key]); }
    }
  }

  lemma AnswersAfterInsert(s: System, i: nat)
    requires AnswersSettled(s) && PendingSettled(s) && Sound(s) && Enabled(s, Insert(i))
    ensures AnswersSettled(Step(s, Insert(i)))
  {
    var t := Step(s, Insert(i));
    InsertedIsFinished(s, i);
    forall j, key, output | Answers(t, j, key, output) ensures FinishedWith(t, key, output) {
      if j != i {
        assert Answers(s, j, key, output);
        FinishedStays(s, Insert(i), key, output);
      }
    }
  }

  lemma InsertKeepsSettled(s: System, i: nat)
    requires Settled(s) && Sound(s) && Enabled(s, Insert(i))
    ensures Settled(Step(s, Insert(i)))
  {
    CacheAfterInsert(s, i);
    AnswersAfterInsert(s, i);
  }

  lemma {:induction false} EveryRunIsSettled(s: System, actions: seq<Action>)
    requires Sound(s) && Settled(s) && Runnable(s, actions)
    ensures Sound(After(s, actions)) && Settled(After(s, actions))
    decreases |actions|
  {
    if actions != [] {
      match actions[0] {
        case Check(i) => CheckKeepsSettled(s, i);
        case Execute(i, outcome) => ExecuteKeepsSettled(s, i, outcome);
        case Insert(i) => InsertKeepsSettled(s, i);
      }
      StepKeepsSound(s, actions[0]);
      EveryRunIsSettled(Step(s, actions[0]), actions[1..]);
    }
  }

  lemma InitialIsSettled(s: System)
    requires Initial(s)
    ensures Sound(s) && Settled(s)
  {
    InitialIsSound(s);
  }

  /** In every interleaving the clean answers for a key agree, hits included, exactly if the finished runs for it do. */
  lemma AnswersFollowRuns(s: System, actions: seq<Action>, key: string)
    requires Initial(s) && Runnable(s, actions)
    ensures var t := After(s, actions);
            Agree(t, key) <==> forall a, b :: FinishedWith(t, key, a) && FinishedWith(t, key, b) ==> a == b
  {
    InitialIsSettled(s);
    EveryRunIsSettled(s, actions);
  }

  /** Every check for the key but the first comes after some insertion for it. */
  ghost predicate OneCheckBeforeInsert(s: System, actions: seq<Action>, key: string) {
    forall k, l | 0 <= k < l < |actions| && ChecksFor(s, actions[k], key) && ChecksFor(s, actions[l], key) ::
      exists m :: 0 <= m < l && InsertsFor(s, actions[m], key)
  }

  lemma AbsentAtCheck(s: System, actions: seq<Action>, key: string, k: nat)
    requires Initial(s) && Runnable(s, actions) && k < |actions|
    ensures key in Before(s, actions, k).cache <==> exists m :: 0 <= m < k && InsertsFor(s, actions[m], key)
  {
    SplitAt(s, actions, k);
    StoredByInsert(s, actions[..k], key);
    if m :| 0 <= m < k && InsertsFor(s, actions[m], key) { assert actions[..k][m] in actions[..k]; }
  }

  lemma RunnersChecked(s: System, actions: seq<Action>, key: string, i: nat, output: ProcessOutput) returns (k: nat)
    requires Initial(s) && Runnable(s, actions)
    requires Answers(After(s, actions), i, key, output) && Ran(After(s, actions), i)
    ensures k < |actions| && actions[k] == Check(i) && ChecksFor(s, actions[k], key)
    ensures !exists m :: 0 <= m < k && InsertsFor(s, actions[m], key)
  {
    CallersStay(s, actions);
    FinishedHasChecked(s, actions, i);
    k :| 0 <= k < |actions| && actions[k] == Check(i);
    FinishedRanExact(s, actions, k, i);
    AbsentAtCheck(s, actions, key, k);
  }

  /** When at most one check for the key precedes its first insertion, all clean answers for it agree. */
  lemma OneMissAgrees(s: System, actions: seq<Action>, key: string)
    requires Initial(s) && Runnable(s, actions) && OneCheckBeforeInsert(s, actions, key)
    ensures Agree(After(s, actions), key)
  {
    var t := After(s, actions);
    InitialIsSettled(s);
    EveryRunIsSettled(s, actions);
    AnswersFollowRuns(s, actions, key);
    forall a, b | FinishedWith(t, key, a) && FinishedWith(t, key, b) ensures a == b {
      var p :| p in t.runs && p.outcome == Ok(a) && Answers(t, p.caller, key, a);
      var q :| q in t.runs && q.outcome == Ok(b) && Answers(t, q.caller, key, b);
      var k := RunnersChecked(s, actions, key, p.caller, a);
      var l := RunnersChecked(s, actions, key, q.caller, b);
      assert k == l;
    }
  }

  // ----- agreement whatever the runs return -----

  /** The next action of caller i, whose run would give outcomes(i); a finished caller does nothing. */
  function Next(s: System, i: nat, outcomes: nat -> RunResult): System
    requires i < |s.callers|
  {
    match s.callers[i].phase
    case Starting => Step(s, Check(i))
    case Missed => Step(s, Execute(i, outcomes(i)))
    case HasRun(output) => Step(s, Insert(i))
    case Done(result) => s
  }

  ghost predicate TurnsOf(s: System, turns: seq<nat>) {
    forall k | 0 <= k < |turns| :: turns[k] < |s.callers|
  }

  /** The state after the first n turns of a schedule, which only says whose turn it is. */
  ghost function Played(s: System, turns: seq<nat>, outcomes: nat -> RunResult, n: nat): (t: System)
    requires TurnsOf(s, turns) && n <= |turns|
    ensures |t.callers| == |s.callers| && forall i | 0 <= i < |s.callers| :: t.callers[i].key == s.callers[i].key
  {
    if n == 0 then s else Next(Played(s, turns, outcomes, n - 1), turns[n - 1], outcomes)
  }

  lemma {:induction false} Appended(s: System, actions: seq<Action>, action: Action)
    requires Runnable(s, actions) && Enabled(After(s, actions), action)
    ensures Runnable(s, actions + [action]) && After(s, actions + [action]) == Step(After(s, actions), action)
    decreases |actions|
  {
    if actions == [] {
      assert actions + [action] == [action] && [action][1..] == [];
      assert Runnable(Step(s, action), []);
    } else {
      Appended(Step(s, actions[0]), actions[1..], action);
      assert (actions + [action])[1..] == actions[1..] + [action];
    }
  }

  lemma PlayedOnce(s: System, actions: seq<Action>, i: nat, outcomes: nat -> RunResult) returns (more: seq<Action>)
    requires Runnable(s, actions) && RunsAs(actions, outcomes)
    requires i < |After(s, actions).callers| && !After(s, actions).callers[i].phase.Done?
    ensures Runnable(s, more) && After(s, more) == Next(After(s, actions), i, outcomes)
    ensures CallersOf(more) == CallersOf(actions) + [i] && RunsAs(more, outcomes)
  {
    var action := ActionOf(After(s, actions), i, outcomes);
    Appended(s, actions, action);
    more := actions + [action];
  }

  /** Every schedule, with every choice of outcomes, is an interleaving. */
  lemma {:induction false} PlayIsInterleaving(s: System, turns: seq<nat>, outcomes: nat -> RunResult, n: nat)
    returns (actions: seq<Action>)
    requires TurnsOf(s, turns) && n <= |turns|
    ensures Runnable(s, actions) && After(s, actions) == Played(s, turns, outcomes, n)
    ensures CallersOf(actions) == UsedTurns(s, turns, outcomes, n)
    ensures RunsAs(actions, outcomes)
  {
    actions := [];
    if n > 0 {
      actions := PlayIsInterleaving(s, turns, outcomes, n - 1);
      var i, t := turns[n - 1], After(s, actions);
      if !t.callers[i].phase.Done? {
        actions := PlayedOnce(s, actions, i, outcomes);
      }
    }
  }

  /** The action a caller that has not finished takes next. */
  function ActionOf(t: System, i: nat, outcomes: nat -> RunResult): (action: Action)
    requires i < |t.callers| && !t.callers[i].phase.Done?
    ensures action.caller == i && Enabled(t, action) && Next(t, i, outcomes) == Step(t, action)
    ensures action.Execute? ==> action.outcome == outcomes(i)
  {
    match t.callers[i].phase
    case Starting => Check(i)
    case Missed => Execute(i, outcomes(i))
    case HasRun(output) => Insert(i)
  }

  function CallersOf(actions: seq<Action>): (turns: seq<nat>)
    ensures |turns| == |actions| && forall k | 0 <= k < |actions| :: turns[k] == actions[k].caller
  {
    seq(|actions|, k requires 0 <= k < |actions| => actions[k].caller)
  }

  /** The first n turns without those of callers that have finished. */
  ghost function UsedTurns(s: System, turns: seq<nat>, outcomes: nat -> RunResult, n: nat): seq<nat>
    requires TurnsOf(s, turns) && n <= |turns|
  {
    if n == 0 then []
    else
      var used := UsedTurns(s, turns, outcomes, n - 1);
      if Played(s, turns, outcomes, n - 1).callers[turns[n - 1]].phase.Done? then used else used + [turns[n - 1]]
  }

  /** Every run in the interleaving gives what the outcomes say. */
  ghost predicate RunsAs(actions: seq<Action>, outcomes: nat -> RunResult) {
    forall k | 0 <= k < |actions| && actions[k].Execute? :: actions[k].outcome == outcomes(actions[k].caller)
  }

  /** How many of the first n turns are caller i's. */
  ghost function Count(turns: seq<nat>, i: nat, n: nat): nat
    requires n <= |turns|
  {
    if n == 0 then 0 else Count(turns, i, n - 1) + if turns[n - 1] == i then 1 else 0
  }

  lemma {:induction false} CountGrows(turns: seq<nat>, i: nat, m: nat, n: nat)
    requires m <= n <= |turns|
    ensures Count(turns, i, m) <= Count(turns, i, n)
  {
    if m < n { CountGrows(turns, i, m, n - 1); }
  }

  /** The caller has checked, run and inserted, as far as it had to. */
  ghost predicate IsFull(turns: seq<nat>, i: nat) { Count(turns, i, |turns|) >= 3 }

  /** After n turns the call may be between its check and its insertion. */
  ghost predicate IsOpen(turns: seq<nat>, i: nat, n: nat)
    requires n <= |turns|
  {
    1 <= Count(turns, i, n) <= 2
  }

  /** Two full calls are open at one moment. */
  ghost predicate Overlap(turns: seq<nat>, i: nat, j: nat) {
    && i != j && IsFull(turns, i) && IsFull(turns, j)
    && exists n: nat | n <= |turns| :: IsOpen(turns, i, n) && IsOpen(turns, j, n)
  }

  ghost predicate CallsOverlap(s: System, turns: seq<nat>, key: string) {
    exists i: nat, j: nat | i < |s.callers| && j < |s.callers| ::
      s.callers[i].key == key && s.callers[j].key == key && Overlap(turns, i, j)
  }

  /** The phases a caller can be in after count turns. */
  predicate PhaseFits(phase: Phase, count: nat) {
    && (phase.Starting? <==> count == 0)
    && (phase.Missed? ==> count == 1)
    && (phase.HasRun? ==> count == 2)
  }

  lemma PhaseAdvances(t: System, turn: nat, outcomes: nat -> RunResult, i: nat, count: nat)
    requires turn < |t.callers| && i < |t.callers| && PhaseFits(t.callers[i].phase, count)
    ensures PhaseFits(Next(t, turn, outcomes).callers[i].phase, count + if turn == i then 1 else 0)
  {
  }

  lemma {:induction false} PhaseByCount(s: System, turns: seq<nat>, outcomes: nat -> RunResult, n: nat, i: nat)
    requires Initial(s) && TurnsOf(s, turns) && n <= |turns| && i < |s.callers|
    ensures PhaseFits(Played(s, turns, outcomes, n).callers[i].phase, Count(turns, i, n))
  {
    if n > 0 {
      PhaseByCount(s, turns, outcomes, n - 1, i);
      PhaseAdvances(Played(s, turns, outcomes, n - 1), turns[n - 1], outcomes, i, Count(turns, i, n - 1));
    }
  }

  /** What holds at all times when no two full calls for the key overlap. */
  ghost predicate Consistent(t: System, turns: seq<nat>, key: string) {
    && (forall i, output :: Answers(t, i, key, output) ==> key in t.cache && output == t.cache[key])
    && (key in t.cache ==>
          forall i | 0 <= i < |t.callers| && t.callers[i].key == key && t.callers[i].phase.HasRun? :: !IsFull(turns, i))
    && (key in t.cache ==>
          forall i | 0 <= i < |t.callers| && t.callers[i].key == key && t.callers[i].phase.Missed? :: !IsFull(turns, i))
  }

  lemma OpenBesideFull(s: System, turns: seq<nat>, key: string, n: nat, i: nat, j: nat)
    requires n <= |turns| && !CallsOverlap(s, turns, key) && i != j && i < |s.callers| && j < |s.callers|
    requires s.callers[i].key == key && s.callers[j].key == key
    requires IsOpen(turns, i, n) && IsOpen(turns, j, n) && IsFull(turns, i)
    ensures !IsFull(turns, j)
  {
    if IsFull(turns, j) { assert Overlap(turns, i, j); }
  }

  lemma FirstInsertIsConsistent(t: System, turns: seq<nat>, i: nat, key: string)
    requires Consistent(t, turns, key) && key !in t.cache
    requires i < |t.callers| && t.callers[i].phase.HasRun? && t.callers[i].key == key
    requires forall j | 0 <= j < |t.callers| && j != i && t.callers[j].key == key
                        && (t.callers[j].phase.HasRun? || t.callers[j].phase.Missed?) :: !IsFull(turns, j)
    ensures Consistent(Step(t, Insert(i)), turns, key)
  {
    var u := Step(t, Insert(i));
    forall j, output | Answers(u, j, key, output) ensures output == u.cache[key] {
      if j != i { assert Answers(t, j, key, output); }
    }
  }

  lemma InsertIsConsistent(s: System, turns: seq<nat>, outcomes: nat -> RunResult, n: nat, key: string)
    requires Initial(s) && TurnsOf(s, turns) && n < |turns| && !CallsOverlap(s, turns, key)
    requires var t := Played(s, turns, outcomes, n);
             Consistent(t, turns, key) && t.callers[turns[n]].phase.HasRun? && t.callers[turns[n]].key == key
    ensures Consistent(Played(s, turns, outcomes, n + 1), turns, key)
  {
    var t, i := Played(s, turns, outcomes, n), turns[n];
    PhaseByCount(s, turns, outcomes, n, i);
    assert Count(turns, i, n + 1) == 3;
    CountGrows(turns, i, n + 1, |turns|);
    forall j | 0 <= j < |t.callers| && j != i && t.callers[j].key == key
               && (t.callers[j].phase.HasRun? || t.callers[j].phase.Missed?)
      ensures !IsFull(turns, j)
    {
      PhaseByCount(s, turns, outcomes, n, j);
      OpenBesideFull(s, turns, key, n, i, j);
    }
    FirstInsertIsConsistent(t, turns, i, key);
  }

  lemma OtherTurnIsConsistent(t: System, turns: seq<nat>, outcomes: nat -> RunResult, i: nat, key: string)
    requires Consistent(t, turns, key) && i < |t.callers|
    requires !(t.callers[i].phase.HasRun? && t.callers[i].key == key)
    ensures Consistent(Next(t, i, outcomes), turns, key)
  {
    var u := Next(t, i, outcomes);
    forall j, output | Answers(u, j, key, output) ensures key in u.cache && output == u.cache[key] {
      if j != i { assert Answers(t, j, key, output); }
      if t == u { assert Answers(t, j, key, output); }
    }
  }

  lemma InitialIsConsistent(s: System, turns: seq<nat>, key: string)
    requires Initial(s)
    ensures Consistent(s, turns, key)
  {
  }

  lemma TurnIsConsistent(s: System, turns: seq<nat>, outcomes: nat -> RunResult, n: nat, key: string)
    requires Initial(s) && TurnsOf(s, turns) && n < |turns| && !CallsOverlap(s, turns, key)
    requires Consistent(Played(s, turns, outcomes, n), turns, key)
    ensures Consistent(Played(s, turns, outcomes, n + 1), turns, key)
  {
    var t, i := Played(s, turns, outcomes, n), turns[n];
    if t.callers[i].phase.HasRun? && t.callers[i].key == key {
      InsertIsConsistent(s, turns, outcomes, n, key);
    } else {
      OtherTurnIsConsistent(t, turns, outcomes, i, key);
    }
  }

  lemma {:induction false} StaysConsistent(s: System, turns: seq<nat>, outcomes: nat -> RunResult, n: nat, key: string)
    requires Initial(s) && TurnsOf(s, turns) && n <= |turns| && !CallsOverlap(s, turns, key)
    ensures Consistent(Played(s, turns, outcomes, n), turns, key)
  {
    if n == 0 {
      InitialIsConsistent(s, turns, key);
    } else {
      StaysConsistent(s, turns, outcomes, n - 1, key);
      TurnIsConsistent(s, turns, outcomes, n - 1, key);
    }
  }

  // ----- overlapping full calls can always be told apart -----

  /** Caller i succeeds with a and caller j with b, while all others fail. */
  ghost function Rivals(i: nat, j: nat, a: ProcessOutput, b: ProcessOutput): nat -> RunResult {
    (k: nat) => if k == i then Ok(a) else if k == j then Ok(b) else Err("")
  }

  /** The phase of a caller that misses and succeeds, by the number of its turns. */
  function PhaseOfMiss(count: nat, output: ProcessOutput): Phase {
    if count == 0 then Starting
    else if count == 1 then Missed
    else if count == 2 then HasRun(output)
    else Done(Ok(output))
  }

  lemma OpenTogether(turns: seq<nat>, i: nat, j: nat, n: nat)
    requires n <= |turns| && Overlap(turns, i, j)
    ensures Count(turns, i, n) == 0 ==> Count(turns, j, n) <= 2
  {
    var m: nat :| m <= |turns| && IsOpen(turns, i, m) && IsOpen(turns, j, m);
    if m <= n { CountGrows(turns, i, m, n); } else { CountGrows(turns, j, n, m); }
  }

  /** Both rivals miss, whatever else happens; p and q count their turns. */
  ghost predicate RivalsAt(t: System, key: string, i: nat, j: nat, a: ProcessOutput, b: ProcessOutput, p: nat, q: nat) {
    && i < |t.callers| && j < |t.callers| && i != j
    && t.callers[i].key == key && t.callers[j].key == key
    && t.callers[i].phase == PhaseOfMiss(p, a)
    && t.callers[j].phase == PhaseOfMiss(q, b)
    && (key in t.cache ==> p >= 3 || q >= 3)
    && forall k | 0 <= k < |t.callers| && k != i && k != j :: !t.callers[k].phase.HasRun?
  }

  lemma RivalsStep(t: System, key: string, i: nat, j: nat, a: ProcessOutput, b: ProcessOutput, p: nat, q: nat,
                   turn: nat)
    requires RivalsAt(t, key, i, j, a, b, p, q) && turn < |t.callers| && IsClean(a) && IsClean(b)
    requires (p == 0 ==> q <= 2) && (q == 0 ==> p <= 2)
    ensures RivalsAt(Next(t, turn, Rivals(i, j, a, b)), key, i, j, a, b,
                     p + if turn == i then 1 else 0, q + if turn == j then 1 else 0)
  {
  }

  lemma {:induction false} RivalsMiss(s: System, turns: seq<nat>, n: nat, key: string, i: nat, j: nat,
                                      a: ProcessOutput, b: ProcessOutput)
    requires Initial(s) && TurnsOf(s, turns) && n <= |turns|
    requires i < |s.callers| && j < |s.callers| && s.callers[i].key == key && s.callers[j].key == key
    requires Overlap(turns, i, j) && Overlap(turns, j, i) && IsClean(a) && IsClean(b)
    ensures RivalsAt(Played(s, turns, Rivals(i, j, a, b), n), key, i, j, a, b, Count(turns, i, n), Count(turns, j, n))
  {
    if n > 0 {
      RivalsMiss(s, turns, n - 1, key, i, j, a, b);
      OpenTogether(turns, i, j, n - 1);
      OpenTogether(turns, j, i, n - 1);
      RivalsStep(Played(s, turns, Rivals(i, j, a, b), n - 1), key, i, j, a, b, Count(turns, i, n - 1),
                 Count(turns, j, n - 1), turns[n - 1]);
    }
  }

  lemma OverlapIsSymmetric(turns: seq<nat>, i: nat, j: nat)
    requires Overlap(turns, i, j)
    ensures Overlap(turns, j, i)
  {
    var n: nat :| n <= |turns| && IsOpen(turns, i, n) && IsOpen(turns, j, n);
    assert IsOpen(turns, j, n) && IsOpen(turns, i, n);
  }

  /** A clean run that printed the given bytes. */
  function Printing(bytes: seq<Byte>): ProcessOutput {
    ProcessOutput(Some(0), false, 0, CapturedStream(bytes, false), CapturedStream([], false))
  }

  lemma OverlapDisagrees(s: System, turns: seq<nat>, key: string) returns (outcomes: nat -> RunResult)
    requires Initial(s) && TurnsOf(s, turns) && CallsOverlap(s, turns, key)
    ensures !Agree(Played(s, turns, outcomes, |turns|), key)
  {
    var i: nat, j: nat :| i < |s.callers| && j < |s.callers| && s.callers[i].key == key && s.callers[j].key == key
                          && Overlap(turns, i, j);
    OverlapIsSymmetric(turns, i, j);
    var a, b := Printing([0]), Printing([1]);
    outcomes := Rivals(i, j, a, b);
    RivalsMiss(s, turns, |turns|, key, i, j, a, b);
    var t := Played(s, turns, outcomes, |turns|);
    assert Answers(t, i, key, a) && Answers(t, j, key, b) && a.stdout.bytes[0] != b.stdout.bytes[0];
  }

  /**
   * The clean answers for a key agree whatever the runs return exactly if no two calls for it overlap that are given
   * the turns to check, run and insert.
   */
  lemma AgreementExact(s: System, turns: seq<nat>, key: string)
    requires Initial(s) && TurnsOf(s, turns)
    ensures (forall outcomes :: Agree(Played(s, turns, outcomes, |turns|), key)) <==> !CallsOverlap(s, turns, key)
  {
    if CallsOverlap(s, turns, key) {
      var outcomes := OverlapDisagrees(s, turns, key);
    } else {
      forall outcomes ensures Agree(Played(s, turns, outcomes, |turns|), key) {
        StaysConsistent(s, turns, outcomes, |turns|, key);
      }
    }
  }

  // ----- schedules cover all interleavings -----

  lemma {:induction false} RunsGrow(s: System, actions: seq<Action>)
    requires Runnable(s, actions)
    ensures forall run | run in s.runs :: run in After(s, actions).runs
    decreases |actions|
  {
    if actions != [] { RunsGrow(Step(s, actions[0]), actions[1..]); }
  }

  function OutcomeIn(runs: seq<Run>, i: nat): RunResult {
    if runs == [] then Err("") else if runs[0].caller == i then runs[0].outcome else OutcomeIn(runs[1..], i)
  }

  lemma {:induction false} SoleOutcome(runs: seq<Run>, p: nat)
    requires p < |runs|
    requires forall q | 0 <= q < |runs| && q != p :: runs[q].caller != runs[p].caller
    ensures OutcomeIn(runs, runs[p].caller) == runs[p].outcome
  {
    if p > 0 {
      assert runs[0].caller != runs[p].caller;
      SoleOutcome(runs[1..], p - 1);
    }
  }

  /** What each caller's run gave in the end. */
  function OutcomesOf(t: System): nat -> RunResult { (i: nat) => OutcomeIn(t.runs, i) }

  lemma NextState(s: System, actions: seq<Action>, n: nat)
    requires Runnable(s, actions) && n < |actions|
    ensures Enabled(Before(s, actions, n), actions[n])
    ensures Before(s, actions, n + 1) == Step(Before(s, actions, n), actions[n])
  {
    SplitAt(s, actions, n);
    assert actions[n..][0] == actions[n];
    Appended(s, actions[..n], actions[n]);
    assert actions[..n + 1] == actions[..n] + [actions[n]];
  }

  lemma OutcomeIsTheirs(s: System, actions: seq<Action>, n: nat)
    requires Initial(s) && Runnable(s, actions) && n < |actions| && actions[n].Execute?
    ensures OutcomesOf(After(s, actions))(actions[n].caller) == actions[n].outcome
  {
    var t, i := After(s, actions), actions[n].caller;
    NextState(s, actions, n);
    SplitAt(s, actions, n + 1);
    RunsGrow(Before(s, actions, n + 1), actions[n + 1..]);
    var run := Run(i, Before(s, actions, n).callers[i].key, actions[n].outcome);
    assert run in Before(s, actions, n + 1).runs && run in t.runs;
    InitialIsSound(s);
    EveryRunIsSound(s, actions);
    var p: nat :| p < |t.runs| && t.runs[p] == run;
    SoleOutcome(t.runs, p);
  }

  lemma ActionIsNext(s: System, action: Action, outcomes: nat -> RunResult)
    requires Enabled(s, action)
    requires action.Execute? ==> outcomes(action.caller) == action.outcome
    ensures Next(s, action.caller, outcomes) == Step(s, action)
  {
  }

  lemma ActionIsPlayed(s: System, actions: seq<Action>, turns: seq<nat>, n: nat)
    requires Initial(s) && Runnable(s, actions) && n < |actions| == |turns| && TurnsOf(s, turns)
    requires turns[n] == actions[n].caller
    requires Played(s, turns, OutcomesOf(After(s, actions)), n) == Before(s, actions, n)
    ensures Played(s, turns, OutcomesOf(After(s, actions)), n + 1) == Before(s, actions, n + 1)
  {
    NextState(s, actions, n);
    if actions[n].Execute? { OutcomeIsTheirs(s, actions, n); }
    ActionIsNext(Before(s, actions, n), actions[n], OutcomesOf(After(s, actions)));
  }

  lemma {:induction false} PlayedUpTo(s: System, actions: seq<Action>, turns: seq<nat>, n: nat)
    requires Initial(s) && Runnable(s, actions) && n <= |actions| == |turns| && TurnsOf(s, turns)
    requires forall k | 0 <= k < |actions| :: turns[k] == actions[k].caller
    ensures Played(s, turns, OutcomesOf(After(s, actions)), n) == Before(s, actions, n)
  {
    if n == 0 {
      assert actions[..0] == [];
    } else {
      PlayedUpTo(s, actions, turns, n - 1);
      ActionIsPlayed(s, actions, turns, n - 1);
    }
  }

  /** Every interleaving is a schedule with some choice of outcomes. */
  lemma InterleavingIsPlayed(s: System, actions: seq<Action>) returns (turns: seq<nat>, outcomes: nat -> RunResult)
    requires Initial(s) && Runnable(s, actions)
    ensures turns == CallersOf(actions) && RunsAs(actions, outcomes)
    ensures TurnsOf(s, turns) && Played(s, turns, outcomes, |turns|) == After(s, actions)
  {
    turns := CallersOf(actions);
    outcomes := OutcomesOf(After(s, actions));
    forall k | 0 <= k < |turns| ensures turns[k] < |s.callers| {
      NextState(s, actions, k);
      SplitAt(s, actions, k);
      CallersStay(s, actions[..k]);
    }
    PlayedUpTo(s, actions, turns, |turns|);
    assert actions[..|actions|] == actions;
    forall k | 0 <= k < |actions| && actions[k].Execute? ensures actions[k].outcome == outcomes(actions[k].caller) {
      OutcomeIsTheirs(s, actions, k);
    }
  }

  /** In an interleaving where no two full calls for the key overlap, all clean answers for it agree. */
  lemma ApartCallsAgree(s: System, actions: seq<Action>, key: string)
    requires Initial(s) && Runnable(s, actions) && !CallsOverlap(s, CallersOf(actions), key)
    ensures Agree(After(s, actions), key)
  {
    var turns, outcomes := InterleavingIsPlayed(s, actions);
    StaysConsistent(s, turns, outcomes, |turns|, key);
  }

  // ----- two schedules -----

  /** Two callers have yet to move, and will do so one after the other. */
  ghost predicate AtRetry(s: System, turns: seq<nat>, key: string) {
    s == System(map[], [Caller(key, Starting), Caller(key, Starting)], []) && turns == [0, 0, 0, 1, 1, 1]
  }

  lemma RetryDoesNotOverlap(s: System, turns: seq<nat>, key: string)
    requires AtRetry(s, turns, key)
    ensures !CallsOverlap(s, turns, key)
  {
    forall n: nat | n <= 6 ensures !(IsOpen(turns, 0, n) && IsOpen(turns, 1, n)) { CountOfRetry(turns, n); }
  }

  lemma FirstHasFailed(s: System, turns: seq<nat>, key: string, outcomes: nat -> RunResult)
    requires AtRetry(s, turns, key) && outcomes(0).Err?
    ensures Played(s, turns, outcomes, 3) ==
            System(map[], [Caller(key, Done(outcomes(0))), Caller(key, Starting)], [Run(0, key, outcomes(0))])
  {
    TurnTaken(s, turns, outcomes, 0, s);
    TurnTaken(s, turns, outcomes, 1, System(map[], [Caller(key, Missed), Caller(key, Starting)], []));
    TurnTaken(s, turns, outcomes, 2, Played(s, turns, outcomes, 2));
  }

  lemma SecondHasMissed(s: System, turns: seq<nat>, key: string, outcomes: nat -> RunResult, first: Run, phase: Phase)
    requires AtRetry(s, turns, key)
    requires Played(s, turns, outcomes, 3) == System(map[], [Caller(key, phase), Caller(key, Starting)], [first])
    ensures Played(s, turns, outcomes, 4) == System(map[], [Caller(key, phase), Caller(key, Missed)], [first])
  {
    TurnTaken(s, turns, outcomes, 3, Played(s, turns, outcomes, 3));
  }

  lemma MissIsRun(t: System, i: nat, outcomes: nat -> RunResult)
    requires i < |t.callers| && t.callers[i].phase.Missed?
    ensures var u := Next(Next(t, i, outcomes), i, outcomes);
            u.runs == t.runs + [Run(i, t.callers[i].key, outcomes(i))]
  {
  }

  lemma SecondHasRun(s: System, turns: seq<nat>, key: string, outcomes: nat -> RunResult, first: Run, phase: Phase)
    requires AtRetry(s, turns, key)
    requires Played(s, turns, outcomes, 4) == System(map[], [Caller(key, phase), Caller(key, Missed)], [first])
    ensures Played(s, turns, outcomes, 6).runs == [first, Run(1, key, outcomes(1))]
  {
    TurnTaken(s, turns, outcomes, 4, Played(s, turns, outcomes, 4));
    TurnTaken(s, turns, outcomes, 5, Played(s, turns, outcomes, 5));
    MissIsRun(Played(s, turns, outcomes, 4), 1, outcomes);
  }

  /** Calls one after another agree even when a failed run makes the second one check an empty cache as well. */
  lemma RetryIsNoRace(key: string, outcomes: nat -> RunResult)
    requires outcomes(0).Err?
    ensures var s := System(map[], [Caller(key, Starting), Caller(key, Starting)], []);
            var turns: seq<nat> := [0, 0, 0, 1, 1, 1];
            && !CallsOverlap(s, turns, key)
            && Ran(Played(s, turns, outcomes, 6), 0)
            && Ran(Played(s, turns, outcomes, 6), 1)
  {
    var s := System(map[], [Caller(key, Starting), Caller(key, Starting)], []);
    var turns: seq<nat> := [0, 0, 0, 1, 1, 1];
    RetryDoesNotOverlap(s, turns, key);
    FirstHasFailed(s, turns, key, outcomes);
    SecondHasMissed(s, turns, key, outcomes, Run(0, key, outcomes(0)), Done(outcomes(0)));
    SecondHasRun(s, turns, key, outcomes, Run(0, key, outcomes(0)), Done(outcomes(0)));
    var t := Played(s, turns, outcomes, 6);
    assert t.runs[0].caller == 0 && t.runs[1].caller == 1;
  }

  lemma {:induction false} CountOfRetry(turns: seq<nat>, n: nat)
    requires turns == [0, 0, 0, 1, 1, 1] && n <= 6
    ensures Count(turns, 0, n) == if n <= 3 then n else 3
    ensures Count(turns, 1, n) == if n <= 3 then 0 else n - 3
  {
    if n > 0 { CountOfRetry(turns, n - 1); }
  }

  lemma TurnTaken(s: System, turns: seq<nat>, outcomes: nat -> RunResult, n: nat, before: System)
    requires TurnsOf(s, turns) && n < |turns| && Played(s, turns, outcomes, n) == before
    ensures Played(s, turns, outcomes, n + 1) == Next(before, turns[n], outcomes)
  {
  }

  function FourCallers(key: string, phases: seq<Phase>): seq<Caller>
    requires |phases| == 4
  {
    [Caller(key, phases[0]), Caller(key, phases[1]), Caller(key, phases[2]), Caller(key, phases[3])]
  }

  /** Nobody has moved, for the schedule of two racing callers and two later ones. */
  ghost predicate AtStart(s: System, turns: seq<nat>, key: string) {
    && s == System(map[], FourCallers(key, [Starting, Starting, Starting, Starting]), [])
    && turns == [0, 1, 0, 1, 0, 2, 1, 3]
  }

  lemma TwoHaveMissed(s: System, turns: seq<nat>, key: string, outcomes: nat -> RunResult)
    requires AtStart(s, turns, key)
    ensures Played(s, turns, outcomes, 2) == System(map[], FourCallers(key, [Missed, Missed, Starting, Starting]), [])
  {
    TurnTaken(s, turns, outcomes, 0, s);
    TurnTaken(s, turns, outcomes, 1, System(map[], FourCallers(key, [Missed, Starting, Starting, Starting]), []));
  }

  lemma TwoHaveRun(s: System, turns: seq<nat>, key: string, a: ProcessOutput, b: ProcessOutput,
                   outcomes: nat -> RunResult)
    requires AtStart(s, turns, key)
    requires IsClean(a) && IsClean(b) && outcomes(0) == Ok(a) && outcomes(1) == Ok(b)
    requires Played(s, turns, outcomes, 2) == System(map[], FourCallers(key, [Missed, Missed, Starting, Starting]), [])
    ensures Played(s, turns, outcomes, 4) ==
            System(map[], FourCallers(key, [HasRun(a), HasRun(b), Starting, Starting]),
                   [Run(0, key, Ok(a)), Run(1, key, Ok(b))])
  {
    TurnTaken(s, turns, outcomes, 2, Played(s, turns, outcomes, 2));
    TurnTaken(s, turns, outcomes, 3, System(map[], FourCallers(key, [HasRun(a), Missed, Starting, Starting]),
                                            [Run(0, key, Ok(a))]));
  }

  lemma FirstIsHit(s: System, turns: seq<nat>, key: string, a: ProcessOutput, b: ProcessOutput,
                   outcomes: nat -> RunResult, runs: seq<Run>)
    requires AtStart(s, turns, key)
    requires Played(s, turns, outcomes, 4) ==
             System(map[], FourCallers(key, [HasRun(a), HasRun(b), Starting, Starting]), runs)
    ensures Played(s, turns, outcomes, 6) ==
            System(map[key := a], FourCallers(key, [Done(Ok(a)), HasRun(b), Done(Ok(a)), Starting]), runs)
  {
    InsertThenHit(s, turns, outcomes, 4, 0, 2, key, a);
  }

  lemma SecondIsHit(s: System, turns: seq<nat>, key: string, a: ProcessOutput, b: ProcessOutput,
                    outcomes: nat -> RunResult, runs: seq<Run>)
    requires AtStart(s, turns, key)
    requires Played(s, turns, outcomes, 6) ==
             System(map[key := a], FourCallers(key, [Done(Ok(a)), HasRun(b), Done(Ok(a)), Starting]), runs)
    ensures Played(s, turns, outcomes, 8) ==
            System(map[key := b], FourCallers(key, [Done(Ok(a)), Done(Ok(b)), Done(Ok(a)), Done(Ok(b))]), runs)
  {
    InsertThenHit(s, turns, outcomes, 6, 1, 3, key, b);
    assert map[key := a][key := b] == map[key := b];
  }

  lemma InsertThenHit(s: System, turns: seq<nat>, outcomes: nat -> RunResult, n: nat, i: nat, j: nat, key: string,
                      output: ProcessOutput)
    requires TurnsOf(s, turns) && n + 2 <= |turns| && turns[n] == i && turns[n + 1] == j && i != j
    requires i < |s.callers| && j < |s.callers|
    requires var t := Played(s, turns, outcomes, n);
             t.callers[i] == Caller(key, HasRun(output)) && t.callers[j] == Caller(key, Starting)
    ensures var t, done := Played(s, turns, outcomes, n), Caller(key, Done(Ok(output)));
            Played(s, turns, outcomes, n + 2) ==
            System(t.cache[key := output], t.callers[i := done][j := done], t.runs)
  {
    TurnTaken(s, turns, outcomes, n, Played(s, turns, outcomes, n));
    TurnTaken(s, turns, outcomes, n + 1, Played(s, turns, outcomes, n + 1));
  }

  lemma BothAreHit(s: System, turns: seq<nat>, key: string, a: ProcessOutput, b: ProcessOutput,
                   outcomes: nat -> RunResult)
    requires AtStart(s, turns, key)
    requires IsClean(a) && IsClean(b) && outcomes(0) == Ok(a) && outcomes(1) == Ok(b)
    ensures Played(s, turns, outcomes, 8) ==
            System(map[key := b], FourCallers(key, [Done(Ok(a)), Done(Ok(b)), Done(Ok(a)), Done(Ok(b))]),
                   [Run(0, key, Ok(a)), Run(1, key, Ok(b))])
  {
    var runs := [Run(0, key, Ok(a)), Run(1, key, Ok(b))];
    TwoHaveMissed(s, turns, key, outcomes);
    TwoHaveRun(s, turns, key, a, b, outcomes);
    FirstIsHit(s, turns, key, a, b, outcomes, runs);
    SecondIsHit(s, turns, key, a, b, outcomes, runs);
  }

  lemma HitsAnswer(t: System, key: string, a: ProcessOutput, b: ProcessOutput)
    requires IsClean(a) && IsClean(b)
    requires t.callers == FourCallers(key, [Done(Ok(a)), Done(Ok(b)), Done(Ok(a)), Done(Ok(b))])
    requires t.runs == [Run(0, key, Ok(a)), Run(1, key, Ok(b))]
    ensures Answers(t, 2, key, a) && Answers(t, 3, key, b) && !Ran(t, 2) && !Ran(t, 3)
  {
  }

  /** Even callers that never run may disagree: each finds what one of two racing callers stored last. */
  lemma HitsMayDisagree(key: string, a: ProcessOutput, b: ProcessOutput, outcomes: nat -> RunResult)
    requires IsClean(a) && IsClean(b) && outcomes(0) == Ok(a) && outcomes(1) == Ok(b)
    ensures var s := System(map[], FourCallers(key, [Starting, Starting, Starting, Starting]), []);
            var t := Played(s, [0, 1, 0, 1, 0, 2, 1, 3], outcomes, 8);
            && Answers(t, 2, key, a) && Answers(t, 3, key, b)
            && !Ran(t, 2) && !Ran(t, 3)
  {
    var s := System(map[], FourCallers(key, [Starting, Starting, Starting, Starting]), []);
    var turns: seq<nat> := [0, 1, 0, 1, 0, 2, 1, 3];
    BothAreHit(s, turns, key, a, b, outcomes);
    HitsAnswer(Played(s, turns, outcomes, 8), key, a, b);
  }
}
