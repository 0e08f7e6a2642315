/**
 Whole runs of the dataset cache: every call returns, one key is built once, and
 overlapping builds need two different keys.
 */
module CacheRuns {
  import opened Json
  import opened DatasetCache

  // ---------- every call returns ----------

  function Weight(p: Phase): nat {
    match p
    case Waiting => 3
    case Busy => 2
    case Built(_) => 1
    case _ => 0
  }

  function TotalWeight(phases: seq<Phase>): (w: nat)
    ensures w <= 3 * |phases|
  {
    if phases == [] then 0 else TotalWeight(phases[1..]) + Weight(phases[0])
  }

  function Pending(phases: seq<Phase>): (n: nat)
    ensures n <= |phases|
  {
    if phases == [] then 0 else Pending(phases[1..]) + if phases[0].Returned? then 0 else 1
  }

  /** How much a set of calls can still do: calls to return first, then turns to take. */
  function Potential(phases: seq<Phase>): nat {
    Pending(phases) * (3 * |phases| + 1) + TotalWeight(phases)
  }

  lemma {:induction false} UpdateSums(phases: seq<Phase>, i: nat, p: Phase)
    requires i < |phases|
    ensures TotalWeight(phases[i := p]) + Weight(phases[i]) == TotalWeight(phases) + Weight(p)
    ensures Pending(phases[i := p]) + (if phases[i].Returned? then 0 else 1)
            == Pending(phases) + (if p.Returned? then 0 else 1)
  {
    if i == 0 {
      assert phases[0 := p][1..] == phases[1..];
    } else {
      assert phases[i := p][1..] == phases[1..][i - 1 := p];
      UpdateSums(phases[1..], i - 1, p);
    }
  }

  lemma {:induction false} WokenPending(phases: seq<Phase>)
    ensures Pending(Woken(phases)) == Pending(phases)
  {
    if phases != [] {
      assert Woken(phases)[1..] == Woken(phases[1..]);
      WokenPending(phases[1..]);
    }
  }

  function Wakes(run: seq<Step>): nat {
    if run == [] then 0 else Wakes(run[..|run| - 1]) + if run[|run| - 1].WakeUnasked? then 1 else 0
  }

  lemma StepUsesPotential(calls: seq<Call>, s: State, step: Step)
    requires |s.phases| == |calls| && Enabled(calls, s, step)
    ensures Potential(Next(calls, s, step).phases) + 1 <= Potential(s.phases) + if step.WakeUnasked? then 4 else 0
  {
    hide TotalWeight, Pending, Key;
    var t := Next(calls, s, step);
    var n := 3 * |s.phases| + 1;
    if step.Publish? {
      var published := s.phases[step.call := Returned(s.phases[step.call].built)];
      UpdateSums(s.phases, step.call, published[step.call]);
      WokenPending(published);
      assert Pending(t.phases) + 1 == Pending(s.phases);
      assert (Pending(t.phases) + 1) * n == Pending(t.phases) * n + n;
    } else {
      UpdateSums(s.phases, step.call, t.phases[step.call]);
      assert t.phases == s.phases[step.call := t.phases[step.call]];
      if Pending(t.phases) + 1 == Pending(s.phases) {
        assert (Pending(t.phases) + 1) * n == Pending(t.phases) * n + n;
      }
    }
  }

  /** Apart from wake-ups nobody asked for, a run is bounded by the number of calls alone. */
  lemma {:induction false} RunsAreBounded(calls: seq<Call>, run: seq<Step>)
    requires After(calls, run).Some?
    ensures |run| + Potential(After(calls, run).value.phases)
            <= |calls| * (3 * |calls| + 1) + 3 * |calls| + 4 * Wakes(run)
    decreases |run|
  {
    hide Potential, Next;
    if run == [] {
      StartPotential(|calls|);
    } else {
      var n := |run| - 1;
      RunsAreBounded(calls, run[..n]);
      StepUsesPotential(calls, After(calls, run[..n]).value, run[n]);
    }
  }

  lemma StartPotential(n: nat)
    ensures Potential(Start(n).phases) <= n * (3 * n + 1) + 3 * n
  {
    var p := Pending(Start(n).phases);
    assert p * (3 * n + 1) <= n * (3 * n + 1);
  }

  /** While a call has not returned, some call can take a step of its own. */
  lemma NeverStuck(calls: seq<Call>, run: seq<Step>, i: nat)
    requires After(calls, run).Some? && i < |calls| && !After(calls, run).value.phases[i].Returned?
    ensures exists step: Step :: !step.WakeUnasked? && Enabled(calls, After(calls, run).value, step)
  {
    var s := After(calls, run).value;
    var j := i;
    if s.phases[i].Asleep? {
      SleepersHaveBuilder(calls, run, i);
      j :| 0 <= j < |calls| && Active(s, j) && Key(calls[j]) == Key(calls[i]);
    }
    hide After;
    var step :=
      if s.phases[j].Waiting? then Consult(j) else if s.phases[j].Busy? then FinishBuild(j, true) else Publish(j);
    assert !step.WakeUnasked? && Enabled(calls, s, step);
  }

  /** Every call of a run that cannot go on has returned. */
  lemma EveryCallReturns(calls: seq<Call>, run: seq<Step>)
    requires After(calls, run).Some?
    requires forall step: Step :: Enabled(calls, After(calls, run).value, step) ==> step.WakeUnasked?
    ensures forall i :: 0 <= i < |calls| ==> After(calls, run).value.phases[i].Returned?
  {
    forall i | 0 <= i < |calls| ensures After(calls, run).value.phases[i].Returned? {
      if !After(calls, run).value.phases[i].Returned? {
        NeverStuck(calls, run, i);
      }
    }
  }

  // ---------- calls for one key ----------

  predicate OneKey(calls: seq<Call>) {
    forall i, j :: 0 <= i < |calls| && 0 <= j < |calls| ==> Key(calls[i]) == Key(calls[j])
  }

  predicate SoleBuilder(s: State, b: nat) {
    && Active(s, b)
    && (forall j :: 0 <= j < |s.phases| && j != b ==> s.phases[j].Waiting? || s.phases[j].Asleep?)
    && (if s.phases[b].Busy? then s.log == [] else s.log == [Build(b, s.phases[b].built.Some?)])
  }

  predicate Settled(s: State, result: Option<Dataset>) {
    && |s.log| == 1
    && forall j :: 0 <= j < |s.phases| ==> s.phases[j].Waiting? || s.phases[j] == Returned(result)
  }

  predicate OneKeyInvariant(calls: seq<Call>, s: State) {
    && |s.phases| == |calls|
    && (!s.cache.Empty? && 0 < |calls| ==> s.cache.seed == Key(calls[0]))
    && match s.cache
       case Empty => s.log == [] && forall j :: 0 <= j < |s.phases| ==> s.phases[j].Waiting?
       case Building(_) => exists b :: 0 <= b < |calls| && SoleBuilder(s, b)
       case Ready(_, d) => Settled(s, Some(d))
       case Failed(_) => Settled(s, None)
  }

  lemma StepKeepsOneKey(calls: seq<Call>, s: State, step: Step)
    requires OneKey(calls) && OneKeyInvariant(calls, s) && Enabled(calls, s, step)
    ensures OneKeyInvariant(calls, Next(calls, s, step))
  {
    var t := Next(calls, s, step);
    assert Key(calls[step.call]) == Key(calls[0]);
    hide Key;
    if s.cache.Empty? {
      assert SoleBuilder(t, step.call);
    } else if s.cache.Building? {
      var b :| 0 <= b < |calls| && SoleBuilder(s, b);
      if step.Publish? {
        assert step.call == b;
      } else {
        assert SoleBuilder(t, b);
      }
    }
  }

  lemma {:induction false} RunsKeepOneKey(calls: seq<Call>, run: seq<Step>)
    requires OneKey(calls) && After(calls, run).Some?
    ensures OneKeyInvariant(calls, After(calls, run).value)
    decreases |run|
  {
    if run != [] {
      var n := |run| - 1;
      RunsKeepOneKey(calls, run[..n]);
      hide OneKeyInvariant, Next;
      StepKeepsOneKey(calls, After(calls, run[..n]).value, run[n]);
    }
  }

  /** Calls for one key build once at most, and all that return agree, success or failure. */
  lemma OneKeyBuildsOnce(calls: seq<Call>, run: seq<Step>)
    requires OneKey(calls) && After(calls, run).Some?
    ensures var s := After(calls, run).value;
            && |s.log| <= 1
            && (forall i, j ::
                  0 <= i < |calls| && 0 <= j < |calls| && s.phases[i].Returned? && s.phases[j].Returned? ==>
                                 s.phases[i].result == s.phases[j].result)
            && (forall i, j :: 0 <= i < |calls| && 0 <= j < |calls| && Active(s, i) && Active(s, j) ==> i == j)
  {
    RunsKeepOneKey(calls, run);
    hide After, Key;
  }

  // ---------- calls for several keys ----------

  predicate Overlaps(calls: seq<Call>, run: seq<Step>) {
    && After(calls, run).Some?
    && exists i, j :: 0 <= i < j < |calls| && Active(After(calls, run).value, i) && Active(After(calls, run).value, j)
  }

  /** Two builds can overlap exactly when two of the calls ask for different keys. */
  lemma OverlapNeedsTwoKeys(calls: seq<Call>)
    ensures (exists run :: Overlaps(calls, run)) <==> !OneKey(calls)
  {
    if OneKey(calls) {
      forall run ensures !Overlaps(calls, run) {
        if Overlaps(calls, run) {
          OneKeyBuildsOnce(calls, run);
        }
      }
    } else {
      var i, j :| 0 <= i < |calls| && 0 <= j < |calls| && Key(calls[i]) != Key(calls[j]);
      TwoBuilds(calls, i, j);
      assert Overlaps(calls, [Consult(i), Consult(j)]) by {
        var s := After(calls, [Consult(i), Consult(j)]).value;
        var a, b := if i < j then i else j, if i < j then j else i;
        assert 0 <= a < b < |calls| && Active(s, a) && Active(s, b);
      }
    }
  }

  lemma TwoBuilds(calls: seq<Call>, i: nat, j: nat)
    requires i < |calls| && j < |calls| && Key(calls[i]) != Key(calls[j])
    ensures var s := After(calls, [Consult(i), Consult(j)]);
            s.Some? && s.value.phases[i].Busy? && s.value.phases[j].Busy?
  {
    hide Key;
    assert [Consult(i)][..0] == [];
    assert [Consult(i), Consult(j)][..1] == [Consult(i)];
    var first := After(calls, [Consult(i)]);
    assert After(calls, []) == Some(Start(|calls|));
    assert first.Some? && first.value.cache == Building(Key(calls[i])) && first.value.phases[j].Waiting?
      && first.value.phases[i].Busy?;
  }

  // ---------- keys ----------

  predicate NoColon(name: string) {
    ':' !in name
  }

  const SUPPORTED_NAMES: set<string> := {"rx/0", "randomx", "randomx/0"}

  /** The first colon of a key ends the name. */
  lemma FirstColon(c: Call)
    requires NoColon(c.algo)
    ensures |c.algo| < |Key(c)| && Key(c)[|c.algo|] == ':'
    ensures forall i :: 0 <= i < |c.algo| ==> Key(c)[i] != ':'
  {
    forall i | 0 <= i < |c.algo| ensures Key(c)[i] != ':' {
      assert Key(c)[i] == c.algo[i];
    }
  }

  /**
   Two requests share a cache key only if they ask for the same algorithm and seed, provided the names
   hold no colon.
   */
  lemma KeysAreInjective(a: Call, b: Call)
    requires NoColon(a.algo) && NoColon(b.algo) && Key(a) == Key(b)
    ensures a.algo == b.algo && a.seed == b.seed
  {
    var k := Key(a);
    FirstColon(a);
    FirstColon(b);
    assert a.algo == k[..|a.algo|] && a.seed == k[|a.algo| + 1..];
    assert b.algo == k[..|b.algo|] && b.seed == k[|b.algo| + 1..];
  }

  lemma SupportedNamesHaveNoColon(name: string)
    requires name in SUPPORTED_NAMES
    ensures NoColon(name)
  {
  }

  /** A name with a colon can share a key with another name: the seed then starts inside the other name. */
  lemma ColonsCollide(algo: string, rest: string, seed: string, bytes: seq<bv8>)
    ensures Key(Call(algo, rest + ":" + seed, bytes)) == Key(Call(algo + ":" + rest, seed, bytes))
  {
    assert algo + ":" + (rest + ":" + seed) == (algo + ":" + rest) + ":" + seed;
  }

  /** Workers decode the seed bytes from the seed, so equal seeds come with equal bytes. */
  predicate BytesFollowSeed(calls: seq<Call>) {
    forall i, j :: 0 <= i < |calls| && 0 <= j < |calls| && calls[i].seed == calls[j].seed ==>
      calls[i].seedBytes == calls[j].seedBytes
  }

  /** For the supported names, a returned dataset was built for exactly the requested algorithm and seed bytes. */
  lemma DatasetMatchesRequest(calls: seq<Call>, run: seq<Step>, i: nat)
    requires After(calls, run).Some? && i < |calls|
    requires forall k :: 0 <= k < |calls| ==> calls[k].algo in SUPPORTED_NAMES
    requires BytesFollowSeed(calls)
    requires var p := After(calls, run).value.phases[i]; p.Returned? && p.result.Some?
    ensures var d := After(calls, run).value.phases[i].result.value;
            d.algo == calls[i].algo && d.seedBytes == calls[i].seedBytes
  {
    ResultsAreRight(calls, run, i);
    hide After, Key;
    var d := After(calls, run).value.phases[i].result.value;
    SupportedNamesHaveNoColon(calls[i].algo);
    SupportedNamesHaveNoColon(calls[d.builder].algo);
    KeysAreInjective(calls[i], calls[d.builder]);
  }
}
