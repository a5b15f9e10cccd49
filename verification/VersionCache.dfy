/** The cache of adapter version outputs: its key, its answers over whole call histories, and racing callers. */
module VersionCache {
  import opened Wrappers
  import opened ProcessCapture

  datatype ProcessOutput = ProcessOutput(
    statusCode: Option<int>, timedOut: bool, elapsed: nat, stdout: CapturedStream, stderr: CapturedStream)

  /** A run gives an output, or fails to launch. */
  type RunResult = Result<ProcessOutput, string>

  predicate IsStorable(output: ProcessOutput) {
    output.statusCode == Some(0) && !output.timedOut && !output.stdout.truncated && !output.stderr.truncated
  }

  /** The command exited with 0, in time, and both its outputs were captured whole. */
  ghost predicate IsClean(output: ProcessOutput) {
    output.statusCode == Some(0) && !output.timedOut && !output.stdout.truncated && !output.stderr.truncated
  }

  ghost predicate GivesClean(outcome: RunResult) { outcome.Ok? && IsClean(outcome.value) }

  /** A run whose output the cache keeps. */
  predicate Succeeds(outcome: RunResult) { outcome.Ok? && IsStorable(outcome.value) }

  // ----- the key -----

  const NUL := '\0'

  ghost function KeyOf(executable: string, arguments: seq<string>): string {
    if arguments == [] then executable
    else KeyOf(executable, arguments[..|arguments| - 1]) + [NUL] + arguments[|arguments| - 1]
  }

  method VersionCacheKey(executable: string, arguments: seq<string>) returns (key: string)
    ensures key == KeyOf(executable, arguments)
  {
    key := executable;
    for i := 0 to |arguments|
      invariant key == KeyOf(executable, arguments[..i])
    {
      assert arguments[..i + 1][..i] == arguments[..i];
      key := key + [NUL];
      key := key + arguments[i];
    }
    assert arguments[..|arguments|] == arguments;
  }

  predicate HasNoNul(component: string) { '\0' !in component }

  lemma LastComponent(a: string, x: string, b: string, y: string)
    requires a + [NUL] + x == b + [NUL] + y && HasNoNul(x) && HasNoNul(y)
    ensures a == b && x == y
  {
    var whole := a + [NUL] + x;
    assert whole[|a|] == NUL && whole[|b|] == NUL;
    assert forall k | |a| < k < |whole| :: whole[k] == x[k - |a| - 1];
    assert forall k | |b| < k < |whole| :: whole[k] == y[k - |b| - 1];
    assert |a| == |b|;
    assert a == whole[..|a|] && b == whole[..|b|];
    assert x == whole[|a| + 1..] && y == whole[|b| + 1..];
  }

  lemma {:induction false} NulMeansArguments(executable: string, arguments: seq<string>)
    requires HasNoNul(executable)
    ensures NUL in KeyOf(executable, arguments) <==> arguments != []
  {
    if arguments != [] {
      var head := KeyOf(executable, arguments[..|arguments| - 1]);
      assert (head + [NUL] + arguments[|arguments| - 1])[|head|] == NUL;
    }
  }

  /** Commands whose components have no NUL share a key only if they are the same command. */
  lemma {:induction false} KeyIsInjective(e: string, xs: seq<string>, f: string, ys: seq<string>)
    requires HasNoNul(e) && HasNoNul(f)
    requires (forall x | x in xs :: HasNoNul(x)) && (forall y | y in ys :: HasNoNul(y))
    requires KeyOf(e, xs) == KeyOf(f, ys)
    ensures e == f && xs == ys
    decreases |xs|
  {
    NulMeansArguments(e, xs);
    NulMeansArguments(f, ys);
    if xs != [] {
      var m, n := |xs| - 1, |ys| - 1;
      LastComponent(KeyOf(e, xs[..m]), xs[m], KeyOf(f, ys[..n]), ys[n]);
      KeyIsInjective(e, xs[..m], f, ys[..n]);
      assert xs == xs[..m] + [xs[m]] && ys == ys[..n] + [ys[n]];
    }
  }

  // ----- sequential calls -----

  /** One call: its key, and what running the command at that moment gives or would have given. */
  datatype Call = Call(key: string, outcome: RunResult)

  /** The place of the first call for the key whose run would succeed. */
  ghost function FirstSuccess(history: seq<Call>, key: string): (first: Option<nat>)
    ensures first.Some? ==> first.value < |history| && history[first.value].key == key
                            && GivesClean(history[first.value].outcome)
                            && forall j | 0 <= j < first.value ::
                                 !(history[j].key == key && GivesClean(history[j].outcome))
    ensures first.None? ==> forall j | 0 <= j < |history| ::
                              !(history[j].key == key && GivesClean(history[j].outcome))
  {
    if history == [] then None
    else
      var before := FirstSuccess(history[..|history| - 1], key);
      if before.Some? then before
      else if history[|history| - 1].key == key && GivesClean(history[|history| - 1].outcome) then Some(|history| - 1)
      else None
  }

  /** Call i answers with the first earlier success for its key, and otherwise with its own run. */
  ghost function ResultOfCall(history: seq<Call>, i: nat): RunResult
    requires i < |history|
  {
    var first := FirstSuccess(history[..i], history[i].key);
    if first.Some? then history[first.value].outcome else history[i].outcome
  }

  ghost predicate RunsCommand(history: seq<Call>, i: nat)
    requires i < |history|
  {
    FirstSuccess(history[..i], history[i].key).None?
  }

  class Cache {
    var entries: map<string, ProcessOutput>
    ghost var history: seq<Call>

    /** The cache holds exactly the first successful output of each key called so far. */
    ghost predicate Valid()
      reads this
    {
      forall key ::
        && (key in entries <==> FirstSuccess(history, key).Some?)
        && (key in entries ==> Ok(entries[key]) == history[FirstSuccess(history, key).value].outcome)
    }

    constructor ()
      ensures Valid() && history == [] && entries == map[]
    {
      entries := map[];
      history := [];
    }

    method CachedVersionOutput(executable: string, arguments: seq<string>, outcome: RunResult)
      returns (result: RunResult, ran: bool)
      requires Valid()
      modifies this
      ensures Valid()
      ensures history == old(history) + [Call(KeyOf(executable, arguments), outcome)]
      ensures result == ResultOfCall(history, |old(history)|)
      ensures ran <==> RunsCommand(history, |old(history)|)
    {
      var key := VersionCacheKey(executable, arguments);
      ghost var before := history;
      history := history + [Call(key, outcome)];
      assert history[..|before|] == before;
      LaterCallsKeepFirst(before, Call(key, outcome));
      if key in entries { return Ok(entries[key]), false; }
      ran := true;
      if outcome.Err? { return outcome, ran; }
      if IsStorable(outcome.value) { entries := entries[key := outcome.value]; }
      result := outcome;
    }
  }

  lemma LaterCallsKeepFirst(history: seq<Call>, call: Call)
    ensures forall key ::
              FirstSuccess(history + [call], key) ==
              if FirstSuccess(history, key).Some? then FirstSuccess(history, key)
              else if call.key == key && GivesClean(call.outcome) then Some(|history|)
              else None
  {
    var extended := history + [call];
    assert extended[..|extended| - 1] == history;
  }

  /** Among the first i calls the first success is the same one, if it is among them. */
  lemma FirstSuccessOfPrefix(history: seq<Call>, key: string, i: nat)
    requires i <= |history|
    ensures var first := FirstSuccess(history, key);
            FirstSuccess(history[..i], key) == if first.Some? && first.value < i then first else None
  {
    var prefix := history[..i];
    var first, earlier := FirstSuccess(history, key), FirstSuccess(prefix, key);
    if earlier.Some? {
      assert history[earlier.value] == prefix[earlier.value];
      assert forall j | 0 <= j < earlier.value :: history[j] == prefix[j];
    }
    if first.Some? && first.value < i { assert history[first.value] == prefix[first.value]; }
  }

  /** The command runs at every call up to and including the first success, and never again. */
  lemma RunsUpToFirstSuccess(history: seq<Call>, i: nat)
    requires i < |history|
    ensures var first := FirstSuccess(history, history[i].key);
            && (RunsCommand(history, i) <==> first.None? || i <= first.value)
            && (first.Some? && first.value < i ==> ResultOfCall(history, i) == history[first.value].outcome)
            && (RunsCommand(history, i) ==> ResultOfCall(history, i) == history[i].outcome)
  {
    FirstSuccessOfPrefix(history, history[i].key, i);
  }

  /**
   * A call runs exactly if no earlier call for its key came back in time with status 0 and both outputs whole; and
   * what the cache answers instead is such an output.
   */
  lemma RunsExact(history: seq<Call>, i: nat)
    requires i < |history|
    ensures RunsCommand(history, i) <==>
            forall j | 0 <= j < i && history[j].key == history[i].key && history[j].outcome.Ok? ::
              var output := history[j].outcome.value;
              !(&& output.statusCode == Some(0) && !output.timedOut
                && !output.stdout.truncated && !output.stderr.truncated)
    ensures !RunsCommand(history, i) ==>
              var result := ResultOfCall(history, i);
              result.Ok? && result.value.statusCode == Some(0) && !result.value.timedOut
              && !result.value.stdout.truncated && !result.value.stderr.truncated
  {
    var prefix := history[..i];
    var first := FirstSuccess(prefix, history[i].key);
    if first.None? {
      forall j | 0 <= j < i ensures !(history[j].key == history[i].key && GivesClean(history[j].outcome)) {
        assert prefix[j] == history[j];
      }
    } else {
      assert prefix[first.value] == history[first.value];
    }
  }

  /** After any calls every stored output is one of its key, and is such an output. */
  lemma StoredAreClean(cache: Cache, key: string)
    requires cache.Valid() && key in cache.entries
    ensures var output := cache.entries[key];
            && output.statusCode == Some(0) && !output.timedOut
            && !output.stdout.truncated && !output.stderr.truncated
            && exists j :: 0 <= j < |cache.history| && cache.history[j] == Call(key, Ok(output))
  {
    var first := FirstSuccess(cache.history, key).value;
    assert cache.history[first] == Call(key, Ok(cache.entries[key]));
  }

  /** The runs among the first n calls of a history, for one key. */
  ghost function RunCount(history: seq<Call>, key: string, n: nat): nat
    requires n <= |history|
  {
    if n == 0 then 0
    else RunCount(history, key, n - 1) + if history[n - 1].key == key && RunsCommand(history, n - 1) then 1 else 0
  }

  ghost function FailureCount(history: seq<Call>, key: string, n: nat): nat
    requires n <= |history|
  {
    if n == 0 then 0
    else FailureCount(history, key, n - 1)
         + if history[n - 1].key == key && !GivesClean(history[n - 1].outcome) then 1 else 0
  }

  /** Once per failure before the first success, and once for that success. */
  lemma {:induction false} OneRunPerFailureAndOneSuccess(history: seq<Call>, key: string, n: nat)
    requires n <= |history|
    ensures var first := FirstSuccess(history, key);
            RunCount(history, key, n) ==
            if first.None? || n <= first.value then FailureCount(history, key, n)
            else FailureCount(history, key, first.value) + 1
  {
    if n > 0 {
      OneRunPerFailureAndOneSuccess(history, key, n - 1);
      RunsUpToFirstSuccess(history, n - 1);
    }
  }

  // ----- racing callers: check, run and insert as separate steps -----

  datatype Phase = Starting | Missed | HasRun(output: ProcessOutput) | Done(result: RunResult)

  datatype Caller = Caller(key: string, phase: Phase)

  /** A completed run: which caller ran, for which key, and what it got. */
  datatype Run = Run(caller: nat, key: string, outcome: RunResult)

  datatype System = System(cache: map<string, ProcessOutput>, callers: seq<Caller>, runs: seq<Run>)

  datatype Action = Check(caller: nat) | Execute(caller: nat, outcome: RunResult) | Insert(caller: nat)

  predicate Enabled(s: System, action: Action) {
    && action.caller < |s.callers|
    && match action
       case Check(i) => s.callers[i].phase.Starting?
       case Execute(i, outcome) => s.callers[i].phase.Missed?
       case Insert(i) => s.callers[i].phase.HasRun?
  }

  function MoveTo(s: System, i: nat, phase: Phase): seq<Caller>
    requires i < |s.callers|
  {
    s.callers[i := s.callers[i].(phase := phase)]
  }

  function Step(s: System, action: Action): System
    requires Enabled(s, action)
  {
    match action
    case Check(i) =>
      if s.callers[i].key in s.cache then s.(callers := MoveTo(s, i, Done(Ok(s.cache[s.callers[i].key]))))
      else s.(callers := MoveTo(s, i, Missed))
    case Execute(i, outcome) =>
      s.(callers := MoveTo(s, i, if Succeeds(outcome) then HasRun(outcome.value) else Done(outcome)),
         runs := s.runs + [Run(i, s.callers[i].key, outcome)])
    case Insert(i) =>
      var output := s.callers[i].phase.output;
      s.(cache := s.cache[s.callers[i].key := output], callers := MoveTo(s, i, Done(Ok(output))))
  }

  /** Each action in turn is enabled where it happens. */
  predicate Runnable(s: System, actions: seq<Action>)
    decreases |actions|
  {
    actions == [] || (Enabled(s, actions[0]) && Runnable(Step(s, actions[0]), actions[1..]))
  }

  function After(s: System, actions: seq<Action>): System
    requires Runnable(s, actions)
    decreases |actions|
  {
    if actions == [] then s else After(Step(s, actions[0]), actions[1..])
  }

  ghost predicate Initial(s: System) {
    s.cache == map[] && s.runs == [] && forall i | 0 <= i < |s.callers| :: s.callers[i].phase.Starting?
  }

  ghost predicate Produced(s: System, key: string, outcome: RunResult) {
    exists run | run in s.runs :: run.key == key && run.outcome == outcome
  }

  /**
   * Everything stored, about to be stored or answered comes from a run for its own key; each caller ran at most
   * once.
   */
  ghost predicate Sound(s: System) {
    && (forall key | key in s.cache :: IsClean(s.cache[key]) && Produced(s, key, Ok(s.cache[key])))
    && (forall i | 0 <= i < |s.callers| ::
          match s.callers[i].phase
          case HasRun(output) => IsClean(output) && Produced(s, s.callers[i].key, Ok(output))
          case Done(result) => Produced(s, s.callers[i].key, result)
          case _ => forall run | run in s.runs :: run.caller != i)
    && (forall p, q | 0 <= p < q < |s.runs| :: s.runs[p].caller != s.runs[q].caller)
  }

  lemma ProducedStays(s: System, key: string, outcome: RunResult, run: Run)
    requires Produced(s, key, outcome)
    ensures Produced(s.(runs := s.runs + [run]), key, outcome)
  {
    var witnessRun :| witnessRun in s.runs && witnessRun.key == key && witnessRun.outcome == outcome;
    assert witnessRun in s.runs + [run];
  }

  lemma StepKeepsSound(s: System, action: Action)
    requires Sound(s) && Enabled(s, action)
    ensures Sound(Step(s, action))
  {
    var t := Step(s, action);
    if action.Execute? {
      var run := Run(action.caller, s.callers[action.caller].key, action.outcome);
      assert t.runs == s.runs + [run] && run in t.runs;
      forall key, outcome | Produced(s, key, outcome) ensures Produced(t, key, outcome) {
        ProducedStays(s, key, outcome, run);
      }
    }
  }

  lemma InitialIsSound(s: System)
    requires Initial(s)
    ensures Sound(s)
  {
  }

  /** However the callers interleave, what is stored and answered stays sound. */
  lemma {:induction false} EveryRunIsSound(s: System, actions: seq<Action>)
    requires Sound(s) && Runnable(s, actions)
    ensures Sound(After(s, actions))
    decreases |actions|
  {
    if actions != [] {
      StepKeepsSound(s, actions[0]);
      EveryRunIsSound(Step(s, actions[0]), actions[1..]);
    }
  }

  /** In every interleaving every stored output is a whole one, in time and with status 0, of a run for its key. */
  lemma StoredAreProduced(s: System, actions: seq<Action>, key: string)
    requires Initial(s) && Runnable(s, actions) && key in After(s, actions).cache
    ensures var t := After(s, actions);
            var output := t.cache[key];
            && output.statusCode == Some(0) && !output.timedOut
            && !output.stdout.truncated && !output.stderr.truncated
            && exists run | run in t.runs :: run.key == key && run.outcome == Ok(output)
  {
    InitialIsSound(s);
    EveryRunIsSound(s, actions);
  }

  /** Keys never leave the cache, and a caller that starts once its key is there never runs the command. */
  lemma {:induction false} StoredKeysStay(s: System, actions: seq<Action>, i: nat)
    requires Runnable(s, actions) && i < |s.callers|
    requires s.callers[i].key in s.cache && (s.callers[i].phase.Starting? || s.callers[i].phase.Done?)
    requires forall run | run in s.runs :: run.caller != i
    ensures var t := After(s, actions);
            && s.cache.Keys <= t.cache.Keys
            && |t.callers| == |s.callers| && t.callers[i].key == s.callers[i].key
            && (t.callers[i].phase.Starting? || t.callers[i].phase.Done?)
            && forall run | run in t.runs :: run.caller != i
    decreases |actions|
  {
    if actions != [] { StoredKeysStay(Step(s, actions[0]), actions[1..], i); }
  }

  lemma {:induction false} KeysNeverDisappear(s: System, actions: seq<Action>)
    requires Runnable(s, actions)
    ensures s.cache.Keys <= After(s, actions).cache.Keys
    decreases |actions|
  {
    if actions != [] { KeysNeverDisappear(Step(s, actions[0]), actions[1..]); }
  }

  lemma OneMore(s: System, action: Action, rest: seq<Action>)
    requires Enabled(s, action) && Runnable(Step(s, action), rest)
    ensures Runnable(s, [action] + rest) && After(s, [action] + rest) == After(Step(s, action), rest)
  {
    assert ([action] + rest)[1..] == rest;
  }

  /** Two callers that both miss may run twice, answer differently, and leave the later output stored. */
  lemma RacingCallersMayDisagree(key: string, a: ProcessOutput, b: ProcessOutput)
    requires IsClean(a) && IsClean(b)
    ensures var s := System(map[], [Caller(key, Starting), Caller(key, Starting)], []);
            var actions := [Check(0), Check(1), Execute(0, Ok(a)), Execute(1, Ok(b)), Insert(0), Insert(1)];
            && Initial(s) && Runnable(s, actions)
            && After(s, actions) == System(map[key := b], [Caller(key, Done(Ok(a))), Caller(key, Done(Ok(b)))],
                                           [Run(0, key, Ok(a)), Run(1, key, Ok(b))])
  {
    var starting, missed := Caller(key, Starting), Caller(key, Missed);
    var s0 := System(map[], [starting, starting], []);
    var s1 := System(map[], [missed, starting], []);
    var s2 := System(map[], [missed, missed], []);
    var s3 := System(map[], [Caller(key, HasRun(a)), missed], [Run(0, key, Ok(a))]);
    var s4 := System(map[], [Caller(key, HasRun(a)), Caller(key, HasRun(b))], [Run(0, key, Ok(a)), Run(1, key, Ok(b))]);
    var s5 := s4.(cache := map[key := a], callers := [Caller(key, Done(Ok(a))), Caller(key, HasRun(b))]);
    var rest5 := [Insert(1)];
    var rest4 := [Insert(0)] + rest5;
    var rest3 := [Execute(1, Ok(b))] + rest4;
    var rest2 := [Execute(0, Ok(a))] + rest3;
    var rest1 := [Check(1)] + rest2;
    assert rest5 == [Insert(1)] + [];
    OneMore(s5, Insert(1), []);
    assert Step(s4, Insert(0)) == s5;
    OneMore(s4, Insert(0), rest5);
    assert Step(s3, Execute(1, Ok(b))) == s4;
    OneMore(s3, Execute(1, Ok(b)), rest4);
    assert Step(s2, Execute(0, Ok(a))) == s3;
    OneMore(s2, Execute(0, Ok(a)), rest3);
    assert Step(s1, Check(1)) == s2;
    OneMore(s1, Check(1), rest2);
    assert Step(s0, Check(0)) == s1;
    OneMore(s0, Check(0), rest1);
    assert [Check(0), Check(1), Execute(0, Ok(a)), Execute(1, Ok(b)), Insert(0), Insert(1)] == [Check(0)] + rest1;
  }
}
