/**
 The shared dataset cache: any number of `get_or_build` calls interleaved step by step.
 A step is one turn under the lock, the end of a build, or a wake-up without a
 notification. The build itself runs outside the lock, so calls for different keys can
 overtake one another and overwrite each other's `Building` mark.
 */
module DatasetCache {
  import opened Json

  datatype Call = Call(algo: string, seed: string, seedBytes: seq<bv8>)

  /** What a build produces, with the call that built it. */
  datatype Dataset = Dataset(builder: nat, algo: string, seedBytes: seq<bv8>)

  datatype CacheState = Empty | Building(seed: string) | Ready(seed: string, dataset: Dataset) | Failed(seed: string)

  /**
   Where a call stands: before its turn under the lock, asleep on the condition variable, building,
   built but not published, or returned.
   */
  datatype Phase = Waiting | Asleep | Busy | Built(built: Option<Dataset>) | Returned(result: Option<Dataset>)

  /** One finished build. */
  datatype Build = Build(call: nat, ok: bool)

  datatype State = State(cache: CacheState, phases: seq<Phase>, log: seq<Build>)

  datatype Step = Consult(call: nat) | FinishBuild(call: nat, ok: bool) | Publish(call: nat) | WakeUnasked(call: nat)

  function Key(c: Call): string {
    c.algo + ":" + c.seed
  }

  function Start(n: nat): (s: State)
    ensures |s.phases| == n && forall i :: 0 <= i < n ==> s.phases[i] == Waiting
  {
    State(Empty, seq(n, _ => Waiting), [])
  }

  // ---------- the two critical sections, as an object with locked state ----------

  datatype Decision = Return(result: Option<Dataset>) | Sleep | BuildIt

  function Decide(cache: CacheState, key: string): Decision {
    if cache.Ready? && cache.seed == key then Return(Some(cache.dataset))
    else if cache.Failed? && cache.seed == key then Return(None)
    else if cache.Building? && cache.seed == key then Sleep
    else BuildIt
  }

  class RxDatasetCache {
    var state: CacheState

    constructor ()
      ensures state == Empty
    {
      state := Empty;
    }

    /** One turn of the loop with the lock held. */
    method Consult(key: string) returns (decision: Decision)
      modifies this
      ensures decision == Decide(old(state), key)
      ensures state == if decision.BuildIt? then Building(key) else old(state)
    {
      match state {
        case Ready(cachedSeed, dataset) =>
          if cachedSeed == key {
            return Return(Some(dataset));
          }
        case Failed(failedSeed) =>
          if failedSeed == key {
            return Return(None);
          }
        case Building(buildingSeed) =>
          if buildingSeed == key {
            return Sleep;
          }
        case Empty =>
      }
      state := Building(key);
      decision := BuildIt;
    }

    /** The locked part after a build: the outcome is stored, whatever the state is by now. */
    method Publish(key: string, built: Option<Dataset>) returns (result: Option<Dataset>)
      modifies this
      ensures state == Published(key, built) && result == built
    {
      match built {
        case Some(dataset) => state := Ready(key, dataset);
        case None => state := Failed(key);
      }
      result := built;
    }
  }

  function Published(key: string, built: Option<Dataset>): CacheState {
    if built.Some? then Ready(key, built.value) else Failed(key)
  }

  // ---------- steps ----------

  predicate Enabled(calls: seq<Call>, s: State, step: Step)
    requires |s.phases| == |calls|
  {
    && step.call < |calls|
    && match step
       case Consult(i) => s.phases[i].Waiting?
       case FinishBuild(i, _) => s.phases[i].Busy?
       case Publish(i) => s.phases[i].Built?
       case WakeUnasked(i) => s.phases[i].Asleep?
  }

  /** `notify_all`: every sleeper waits for the lock again. */
  function Woken(phases: seq<Phase>): (r: seq<Phase>)
    ensures |r| == |phases|
    ensures forall i :: 0 <= i < |phases| ==> r[i] == if phases[i].Asleep? then Waiting else phases[i]
  {
    seq(|phases|, i requires 0 <= i < |phases| => if phases[i].Asleep? then Waiting else phases[i])
  }

  function Next(calls: seq<Call>, s: State, step: Step): (t: State)
    requires |s.phases| == |calls| && Enabled(calls, s, step)
    ensures |t.phases| == |calls|
  {
    match step
    case Consult(i) =>
      var key := Key(calls[i]);
      var decision := Decide(s.cache, key);
      if decision.Return? then s.(phases := s.phases[i := Returned(decision.result)])
      else if decision.Sleep? then s.(phases := s.phases[i := Asleep])
      else s.(cache := Building(key), phases := s.phases[i := Busy])
    case FinishBuild(i, ok) =>
      var built := if ok then Some(Dataset(i, calls[i].algo, calls[i].seedBytes)) else None;
      s.(phases := s.phases[i := Built(built)], log := s.log + [Build(i, ok)])
    case Publish(i) =>
      var built := s.phases[i].built;
      s.(cache := Published(Key(calls[i]), built), phases := Woken(s.phases[i := Returned(built)]))
    case WakeUnasked(i) => s.(phases := s.phases[i := Waiting])
  }

  /** The state after a run, if every step of it could be taken. */
  function After(calls: seq<Call>, run: seq<Step>): (s: Option<State>)
    ensures s.Some? ==> |s.value.phases| == |calls|
    decreases |run|
  {
    if run == [] then Some(Start(|calls|))
    else
      var n := |run| - 1;
      var s := After(calls, run[..n]);
      if s.Some? && Enabled(calls, s.value, run[n]) then Some(Next(calls, s.value, run[n])) else None
  }

  // ---------- what every interleaving keeps ----------

  predicate Active(s: State, i: nat) {
    i < |s.phases| && (s.phases[i].Busy? || s.phases[i].Built?)
  }

  /** Some call for this key is building, or has built and not yet published. */
  predicate SomeoneBuilds(calls: seq<Call>, s: State, key: string) {
    exists i :: 0 <= i < |calls| && Active(s, i) && Key(calls[i]) == key
  }

  predicate BuildFailed(calls: seq<Call>, s: State, key: string) {
    exists k :: 0 <= k < |s.log| && s.log[k].call < |calls| && !s.log[k].ok && Key(calls[s.log[k].call]) == key
  }

  /** The dataset came out of a successful build by a call for this key, from that call's own seed bytes. */
  predicate BuiltFor(calls: seq<Call>, s: State, d: Dataset, key: string) {
    && d.builder < |calls|
    && Key(calls[d.builder]) == key
    && d.algo == calls[d.builder].algo && d.seedBytes == calls[d.builder].seedBytes
    && Build(d.builder, true) in s.log
  }

  predicate ResultFits(calls: seq<Call>, s: State, result: Option<Dataset>, key: string) {
    if result.Some? then BuiltFor(calls, s, result.value, key) else BuildFailed(calls, s, key)
  }

  predicate CacheFits(calls: seq<Call>, s: State) {
    match s.cache
    case Empty => true
    case Building(key) => SomeoneBuilds(calls, s, key)
    case Ready(key, d) => BuiltFor(calls, s, d, key)
    case Failed(key) => BuildFailed(calls, s, key)
  }

  predicate PhaseFits(calls: seq<Call>, s: State, i: nat)
    requires i < |calls| == |s.phases|
  {
    match s.phases[i]
    case Built(r) => ResultFits(calls, s, r, Key(calls[i])) && (r.Some? ==> r.value.builder == i)
    case Returned(r) => ResultFits(calls, s, r, Key(calls[i]))
    case Asleep => SomeoneBuilds(calls, s, Key(calls[i]))
    case _ => true
  }

  predicate LogFits(calls: seq<Call>, s: State)
    requires |s.phases| == |calls|
  {
    && (forall k :: 0 <= k < |s.log| ==>
                      && s.log[k].call < |calls|
                      && (s.phases[s.log[k].call].Built? || s.phases[s.log[k].call].Returned?))
    && (forall k, l :: 0 <= k < l < |s.log| ==> s.log[k].call != s.log[l].call)
  }

  predicate Invariant(calls: seq<Call>, s: State) {
    && |s.phases| == |calls|
    && CacheFits(calls, s)
    && (forall i :: 0 <= i < |calls| ==> PhaseFits(calls, s, i))
    && LogFits(calls, s)
  }

  /** Finished builds stay in the log. */
  lemma LogGrows(calls: seq<Call>, s: State, step: Step, result: Option<Dataset>, key: string)
    requires |s.phases| == |calls| && Enabled(calls, s, step) && ResultFits(calls, s, result, key)
    ensures ResultFits(calls, Next(calls, s, step), result, key)
  {
    var t := Next(calls, s, step);
    assert |s.log| <= |t.log| && t.log[..|s.log|] == s.log;
    if result.None? {
      var k :| 0 <= k < |s.log| && s.log[k].call < |calls| && !s.log[k].ok && Key(calls[s.log[k].call]) == key;
      assert t.log[k] == s.log[k];
    } else {
      var b := Build(result.value.builder, true);
      var k :| 0 <= k < |s.log| && s.log[k] == b;
      assert t.log[k] == b;
    }
  }

  /** A build in progress stays in progress until its own call publishes. */
  lemma BuilderStays(calls: seq<Call>, s: State, step: Step, key: string)
    requires |s.phases| == |calls| && Enabled(calls, s, step) && SomeoneBuilds(calls, s, key) && !step.Publish?
    ensures SomeoneBuilds(calls, Next(calls, s, step), key)
  {
    var i :| 0 <= i < |calls| && Active(s, i) && Key(calls[i]) == key;
    assert Active(Next(calls, s, step), i);
  }

  lemma StepKeepsCache(calls: seq<Call>, s: State, step: Step)
    requires Invariant(calls, s) && Enabled(calls, s, step)
    ensures CacheFits(calls, Next(calls, s, step))
  {
    hide ResultFits, SomeoneBuilds;
    var t := Next(calls, s, step);
    if s.cache.Ready? || s.cache.Failed? {
      assert ResultFits(calls, s, if s.cache.Ready? then Some(s.cache.dataset) else None, s.cache.seed) by {
        CacheResult(calls, s);
      }
      LogGrows(calls, s, step, if s.cache.Ready? then Some(s.cache.dataset) else None, s.cache.seed);
      ResultParts(calls, t, if s.cache.Ready? then Some(s.cache.dataset) else None, s.cache.seed);
    } else if s.cache.Building? && !step.Publish? {
      BuilderStays(calls, s, step, s.cache.seed);
    }
    if step.Publish? {
      var built := s.phases[step.call].built;
      assert PhaseFits(calls, s, step.call);
      LogGrows(calls, s, step, built, Key(calls[step.call]));
      ResultParts(calls, t, built, Key(calls[step.call]));
    } else if step.Consult? && Decide(s.cache, Key(calls[step.call])).BuildIt? {
      assert SomeoneBuilds(calls, t, Key(calls[step.call])) by {
        NowBuilds(calls, t, step.call);
      }
    }
  }

  lemma NowBuilds(calls: seq<Call>, t: State, i: nat)
    requires i < |calls| && Active(t, i)
    ensures SomeoneBuilds(calls, t, Key(calls[i]))
  {
  }

  lemma CacheResult(calls: seq<Call>, s: State)
    requires CacheFits(calls, s) && (s.cache.Ready? || s.cache.Failed?)
    ensures ResultFits(calls, s, if s.cache.Ready? then Some(s.cache.dataset) else None, s.cache.seed)
  {
  }

  lemma ResultParts(calls: seq<Call>, s: State, result: Option<Dataset>, key: string)
    requires ResultFits(calls, s, result, key)
    ensures if result.Some? then BuiltFor(calls, s, result.value, key) else BuildFailed(calls, s, key)
  {
  }

  lemma StepKeepsPhase(calls: seq<Call>, s: State, step: Step, i: nat)
    requires Invariant(calls, s) && Enabled(calls, s, step) && i < |calls|
    ensures PhaseFits(calls, Next(calls, s, step), i)
  {
    hide ResultFits, SomeoneBuilds, LogFits;
    var t := Next(calls, s, step);
    var key := Key(calls[i]);
    assert PhaseFits(calls, s, i);
    if i == step.call {
      if step.Consult? {
        var decision := Decide(s.cache, key);
        if decision.Return? {
          CacheResult(calls, s);
          LogGrows(calls, s, step, decision.result, key);
        } else if decision.Sleep? {
          BuilderStays(calls, s, step, key);
        }
      } else if step.FinishBuild? {
        BuildLogged(calls, s, step);
      } else if step.Publish? {
        LogGrows(calls, s, step, s.phases[i].built, key);
      }
    } else if s.phases[i].Built? {
      LogGrows(calls, s, step, s.phases[i].built, key);
    } else if s.phases[i].Returned? {
      LogGrows(calls, s, step, s.phases[i].result, key);
    } else if s.phases[i].Asleep? && !step.Publish? {
      BuilderStays(calls, s, step, key);
    }
  }

  lemma BuildLogged(calls: seq<Call>, s: State, step: Step)
    requires |s.phases| == |calls| && Enabled(calls, s, step) && step.FinishBuild?
    ensures var t := Next(calls, s, step);
            && t.phases[step.call].Built?
            && ResultFits(calls, t, t.phases[step.call].built, Key(calls[step.call]))
            && (t.phases[step.call].built.Some? ==> t.phases[step.call].built.value.builder == step.call)
  {
    var t := Next(calls, s, step);
    assert t.log[|s.log|] == Build(step.call, step.ok);
  }

  lemma StepKeepsLog(calls: seq<Call>, s: State, step: Step)
    requires Invariant(calls, s) && Enabled(calls, s, step)
    ensures LogFits(calls, Next(calls, s, step))
  {
    hide ResultFits, SomeoneBuilds, CacheFits, PhaseFits;
    var t := Next(calls, s, step);
    forall k | 0 <= k < |t.log|
      ensures t.log[k].call < |calls| && (t.phases[t.log[k].call].Built? || t.phases[t.log[k].call].Returned?)
    {
      if k < |s.log| {
        assert t.log[k] == s.log[k];
      }
    }
    forall k, l | 0 <= k < l < |t.log| ensures t.log[k].call != t.log[l].call {
      assert t.log[k] == s.log[k];
      if l < |s.log| {
        assert t.log[l] == s.log[l];
      }
    }
  }

  lemma StepKeepsInvariant(calls: seq<Call>, s: State, step: Step)
    requires Invariant(calls, s) && Enabled(calls, s, step)
    ensures Invariant(calls, Next(calls, s, step))
  {
    StepKeepsCache(calls, s, step);
    StepKeepsLog(calls, s, step);
    forall i | 0 <= i < |calls| ensures PhaseFits(calls, Next(calls, s, step), i) {
      StepKeepsPhase(calls, s, step, i);
    }
    hide CacheFits, PhaseFits, LogFits, Next;
  }

  /** Every reachable state satisfies the invariant. */
  lemma {:induction false} RunsKeepInvariant(calls: seq<Call>, run: seq<Step>)
    requires After(calls, run).Some?
    ensures Invariant(calls, After(calls, run).value)
    decreases |run|
  {
    if run != [] {
      var n := |run| - 1;
      RunsKeepInvariant(calls, run[..n]);
      hide Invariant, Next;
      StepKeepsInvariant(calls, After(calls, run[..n]).value, run[n]);
    }
  }

  // ---------- the promises ----------

  /** A returned dataset was built for the requested key; `None` means a build for that key failed. */
  lemma ResultsAreRight(calls: seq<Call>, run: seq<Step>, i: nat)
    requires After(calls, run).Some? && i < |calls| && After(calls, run).value.phases[i].Returned?
    ensures var s := After(calls, run).value;
            ResultFits(calls, s, s.phases[i].result, Key(calls[i]))
  {
    RunsKeepInvariant(calls, run);
    hide After, ResultFits;
    assert PhaseFits(calls, After(calls, run).value, i);
  }

  /** No lost wake-up: while a call sleeps, a call for the same key is still to publish. */
  lemma SleepersHaveBuilder(calls: seq<Call>, run: seq<Step>, i: nat)
    requires After(calls, run).Some? && i < |calls| && After(calls, run).value.phases[i].Asleep?
    ensures SomeoneBuilds(calls, After(calls, run).value, Key(calls[i]))
  {
    RunsKeepInvariant(calls, run);
    hide After, SomeoneBuilds;
    assert PhaseFits(calls, After(calls, run).value, i);
  }

  /** Each call builds at most once. */
  lemma BuildsAtMostOnce(calls: seq<Call>, run: seq<Step>, k: nat, l: nat)
    requires After(calls, run).Some? && k < |After(calls, run).value.log| && l < |After(calls, run).value.log|
    requires After(calls, run).value.log[k].call == After(calls, run).value.log[l].call
    ensures k == l
  {
    RunsKeepInvariant(calls, run);
    hide After, CacheFits, PhaseFits;
  }
}
