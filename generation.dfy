/**
 * Several instances on one file, as a schedule of whole operations on the
 * shared map: each instance joins, then folds its local count, then
 * deregisters, and the steps of different instances interleave in any
 * order. Within one generation (no instance joins after every registered
 * worker has left) the map keeps an invariant: the worker count is the
 * number of registered instances, and the result is the sum of the counts
 * folded so far. At the end the barrier opens on the sum of all local counts.
 */
module Generation {
  import opened Bits
  import opened Chunking
  import opened Protocol

  /** Where one instance is in its run. */
  datatype Phase =
    | Idle      // not started
    | Scanning  // joined, walking the file
    | Added     // local count added to the result
    | Done      // deregistered: at the barrier or reported

  function Next(p: Phase): Phase
  {
    match p
    case Idle => Scanning
    case Scanning => Added
    case Added => Done
    case Done => Done
  }

  function StartedWeight(p: Phase, count: nat): nat { if p != Idle then 1 else 0 }
  function RegisteredWeight(p: Phase, count: nat): nat { if p == Scanning || p == Added then 1 else 0 }
  function FoldedWeight(p: Phase, count: nat): nat { if p == Added || p == Done then 1 else 0 }
  function ContributionWeight(p: Phase, count: nat): nat { if p == Added || p == Done then count else 0 }

  /** The sum over the instances of `w` of each instance's phase and local count. */
  function Total(phases: seq<Phase>, counts: seq<nat>, w: (Phase, nat) -> nat): nat
    requires |phases| == |counts|
  {
    if |phases| == 0 then 0
    else Total(phases[..|phases| - 1], counts[..|counts| - 1], w) + w(phases[|phases| - 1], counts[|counts| - 1])
  }

  /** Moving one instance to a new phase changes a total by that instance's weight only. */
  lemma {:induction false} TotalUpdate(phases: seq<Phase>, counts: seq<nat>, w: (Phase, nat) -> nat, i: nat, p: Phase)
    requires |phases| == |counts| && i < |phases|
    ensures Total(phases[i := p], counts, w) == Total(phases, counts, w) - w(phases[i], counts[i]) + w(p, counts[i])
  {
    var n := |phases|;
    if i == n - 1 {
      assert phases[i := p][..n - 1] == phases[..n - 1];
    } else {
      assert phases[i := p][..n - 1] == phases[..n - 1][i := p];
      TotalUpdate(phases[..n - 1], counts[..n - 1], w, i, p);
    }
  }

  lemma {:induction false} TotalCoversEach(phases: seq<Phase>, counts: seq<nat>, w: (Phase, nat) -> nat, i: nat)
    requires |phases| == |counts| && i < |phases|
    ensures Total(phases, counts, w) >= w(phases[i], counts[i])
  {
    if i < |phases| - 1 {
      TotalCoversEach(phases[..|phases| - 1], counts[..|counts| - 1], w, i);
    }
  }

  /** A total is zero exactly when every instance weighs nothing. */
  lemma {:induction false} TotalZero(phases: seq<Phase>, counts: seq<nat>, w: (Phase, nat) -> nat)
    requires |phases| == |counts|
    ensures Total(phases, counts, w) == 0 <==> forall j :: 0 <= j < |phases| ==> w(phases[j], counts[j]) == 0
  {
    if |phases| > 0 {
      var n := |phases|;
      TotalZero(phases[..n - 1], counts[..n - 1], w);
      if Total(phases, counts, w) == 0 {
        forall j | 0 <= j < n ensures w(phases[j], counts[j]) == 0 {
          if j < n - 1 {
            assert phases[..n - 1][j] == phases[j] && counts[..n - 1][j] == counts[j];
          }
        }
      } else if forall j :: 0 <= j < n ==> w(phases[j], counts[j]) == 0 {
        var ps, cs := phases[..n - 1], counts[..n - 1];
        forall j | 0 <= j < n - 1 ensures w(ps[j], cs[j]) == 0 {
          assert ps[j] == phases[j] && cs[j] == counts[j];
        }
        assert false;
      }
    }
  }

  function Started(phases: seq<Phase>, counts: seq<nat>): nat requires |phases| == |counts| { Total(phases, counts, StartedWeight) }
  function Registered(phases: seq<Phase>, counts: seq<nat>): nat requires |phases| == |counts| { Total(phases, counts, RegisteredWeight) }
  function Contributors(phases: seq<Phase>, counts: seq<nat>): nat requires |phases| == |counts| { Total(phases, counts, FoldedWeight) }
  function Contributed(phases: seq<Phase>, counts: seq<nat>): nat requires |phases| == |counts| { Total(phases, counts, ContributionWeight) }

  /**
   * The shared map agrees with the instances' phases. Before anyone starts,
   * no worker is registered. Afterwards the worker count is the number of
   * registered instances, a result exists exactly when some instance has
   * folded, and it is the sum of the folded local counts.
   */
  ghost predicate Inv(m: map<string, int>, filename: string, phases: seq<Phase>, counts: seq<nat>)
    requires |phases| == |counts|
  {
    var p := ProcessorsKey(filename);
    if Started(phases, counts) == 0 then p !in m || m[p] == 0
    else
      && p in m && m[p] == Registered(phases, counts)
      && (filename in m <==> Contributors(phases, counts) > 0)
      && (filename in m ==> m[filename] == Contributed(phases, counts))
  }

  /** Instance `i` may take its next step without starting a new generation. */
  predicate Open(phases: seq<Phase>, counts: seq<nat>, i: nat)
    requires |phases| == |counts| && i < |phases|
  {
    phases[i] != Idle || Started(phases, counts) == 0 || Registered(phases, counts) > 0
  }

  /** Instance `i`'s next whole operation on the map; None when it throws. */
  function Step(m: map<string, int>, filename: string, phases: seq<Phase>, counts: seq<nat>, i: nat): (r: Option<map<string, int>>)
    requires |phases| == |counts| && i < |phases|
  {
    match phases[i]
    case Idle => Some(Joined(m, filename))
    case Scanning => Some(Folded(m, filename, counts[i]))
    case Added => Deregistered(m, filename)
    case Done => Some(m)
  }

  lemma NoneStartedNoneCounted(phases: seq<Phase>, counts: seq<nat>)
    requires |phases| == |counts| && Started(phases, counts) == 0
    ensures Registered(phases, counts) == 0 && Contributors(phases, counts) == 0 && Contributed(phases, counts) == 0
  {
    TotalZero(phases, counts, StartedWeight);
    TotalZero(phases, counts, RegisteredWeight);
    TotalZero(phases, counts, FoldedWeight);
    TotalZero(phases, counts, ContributionWeight);
  }

  lemma NoneFoldedNoneContributed(phases: seq<Phase>, counts: seq<nat>)
    requires |phases| == |counts| && Contributors(phases, counts) == 0
    ensures Contributed(phases, counts) == 0
  {
    TotalZero(phases, counts, FoldedWeight);
    TotalZero(phases, counts, ContributionWeight);
  }

  /**
   * Every step that stays within the generation succeeds (no
   * NullPointerException) and keeps the invariant.
   */
  lemma StepPreservesInv(m: map<string, int>, filename: string, phases: seq<Phase>, counts: seq<nat>, i: nat)
    requires |phases| == |counts| && i < |phases|
    requires Inv(m, filename, phases, counts)
    requires Open(phases, counts, i)
    ensures Step(m, filename, phases, counts, i).Some?
    ensures Inv(Step(m, filename, phases, counts, i).value, filename, phases[i := Next(phases[i])], counts)
  {
    var phases' := phases[i := Next(phases[i])];
    TotalUpdate(phases, counts, StartedWeight, i, Next(phases[i]));
    TotalUpdate(phases, counts, RegisteredWeight, i, Next(phases[i]));
    TotalUpdate(phases, counts, FoldedWeight, i, Next(phases[i]));
    TotalUpdate(phases, counts, ContributionWeight, i, Next(phases[i]));
    TotalCoversEach(phases, counts, StartedWeight, i);
    TotalCoversEach(phases, counts, FoldedWeight, i);
    if Started(phases, counts) == 0 {
      NoneStartedNoneCounted(phases, counts);
    }
    if Contributors(phases, counts) == 0 {
      NoneFoldedNoneContributed(phases, counts);
    }
  }

  datatype State = State(entries: map<string, int>, phases: seq<Phase>)

  /** Run a schedule (instance indices, one whole operation each); None when an index is out of range or a step throws. */
  function Execute(m: map<string, int>, filename: string, phases: seq<Phase>, counts: seq<nat>, schedule: seq<nat>): (r: Option<State>)
    requires |phases| == |counts|
    decreases |schedule|
  {
    if |schedule| == 0 then Some(State(m, phases))
    else if schedule[0] >= |phases| then None
    else
      match Step(m, filename, phases, counts, schedule[0])
      case None => None
      case Some(m') => Execute(m', filename, phases[schedule[0] := Next(phases[schedule[0]])], counts, schedule[1..])
  }

  /** Every step of the schedule names an instance and stays within one generation. */
  ghost predicate OneGeneration(m: map<string, int>, filename: string, phases: seq<Phase>, counts: seq<nat>, schedule: seq<nat>)
    requires |phases| == |counts|
    decreases |schedule|
  {
    |schedule| == 0 ||
    (&& schedule[0] < |phases|
     && Open(phases, counts, schedule[0])
     && match Step(m, filename, phases, counts, schedule[0])
        case None => true
        case Some(m') => OneGeneration(m', filename, phases[schedule[0] := Next(phases[schedule[0]])], counts, schedule[1..]))
  }

  /** A one-generation schedule runs to its end and keeps the invariant. */
  lemma {:induction false} ExecuteKeepsInv(m: map<string, int>, filename: string, phases: seq<Phase>, counts: seq<nat>, schedule: seq<nat>)
    requires |phases| == |counts|
    requires Inv(m, filename, phases, counts)
    requires OneGeneration(m, filename, phases, counts, schedule)
    ensures Execute(m, filename, phases, counts, schedule).Some?
    ensures |Execute(m, filename, phases, counts, schedule).value.phases| == |phases|
    ensures Inv(Execute(m, filename, phases, counts, schedule).value.entries, filename,
                Execute(m, filename, phases, counts, schedule).value.phases, counts)
    decreases |schedule|
  {
    if |schedule| > 0 {
      var i := schedule[0];
      StepPreservesInv(m, filename, phases, counts, i);
      ExecuteKeepsInv(Step(m, filename, phases, counts, i).value, filename, phases[i := Next(phases[i])], counts, schedule[1..]);
    }
  }

  /**
   * The barrier: once some instance has started, the worker count reads 0
   * exactly when no instance is still registered, so no instance passes
   * the barrier while another is scanning or has not yet deregistered.
   */
  lemma BarrierOpensOnlyWhenAllDeregistered(m: map<string, int>, filename: string, phases: seq<Phase>, counts: seq<nat>)
    requires |phases| == |counts|
    requires Inv(m, filename, phases, counts) && Started(phases, counts) > 0
    ensures BarrierOpen(m, filename) <==> forall j :: 0 <= j < |phases| ==> phases[j] == Idle || phases[j] == Done
  {
    TotalZero(phases, counts, RegisteredWeight);
  }

  /** Once a generation is under way, no step of it lowers the stored result. */
  lemma ResultNeverDecreases(m: map<string, int>, filename: string, phases: seq<Phase>, counts: seq<nat>, i: nat)
    requires |phases| == |counts| && i < |phases|
    requires Inv(m, filename, phases, counts) && Open(phases, counts, i)
    requires Started(phases, counts) > 0 && filename in m
    ensures Step(m, filename, phases, counts, i).Some?
    ensures var m' := Step(m, filename, phases, counts, i).value;
            filename in m' && m'[filename] >= m[filename]
  {
    StepPreservesInv(m, filename, phases, counts, i);
    TotalUpdate(phases, counts, ContributionWeight, i, Next(phases[i]));
    TotalUpdate(phases, counts, FoldedWeight, i, Next(phases[i]));
    TotalUpdate(phases, counts, StartedWeight, i, Next(phases[i]));
  }

  lemma {:induction false} AllDoneContributedSum(counts: seq<nat>)
    ensures Contributed(seq(|counts|, _ => Done), counts) == Sum(counts)
  {
    if |counts| > 0 {
      var n := |counts|;
      assert seq(n, _ => Done)[..n - 1] == seq(n - 1, _ => Done);
      AllDoneContributedSum(counts[..n - 1]);
    }
  }

  lemma {:induction false} NoneStartedAtFirst(counts: seq<nat>)
    ensures Started(seq(|counts|, _ => Idle), counts) == 0
  {
    if |counts| > 0 {
      var n := |counts|;
      assert seq(n, _ => Idle)[..n - 1] == seq(n - 1, _ => Idle);
      NoneStartedAtFirst(counts[..n - 1]);
    }
  }

  /**
   * Instances that start with no worker registered, interleave their whole
   * operations in one generation and all finish, leave the worker count at
   * 0 (every barrier opens) and the result at the sum of their local
   * counts, with nothing left over from an earlier run.
   */
  lemma GenerationReportsSum(m: map<string, int>, filename: string, counts: seq<nat>, schedule: seq<nat>)
    requires |counts| > 0
    requires ProcessorsKey(filename) !in m || m[ProcessorsKey(filename)] == 0
    requires OneGeneration(m, filename, seq(|counts|, _ => Idle), counts, schedule)
    requires var r := Execute(m, filename, seq(|counts|, _ => Idle), counts, schedule);
             r.Some? && forall j :: 0 <= j < |r.value.phases| ==> r.value.phases[j] == Done
    ensures var r := Execute(m, filename, seq(|counts|, _ => Idle), counts, schedule).value;
            BarrierOpen(r.entries, filename) && Lookup(r.entries, filename) == Some(Sum(counts))
  {
    var phases := seq(|counts|, _ => Idle);
    NoneStartedAtFirst(counts);
    ExecuteKeepsInv(m, filename, phases, counts, schedule);
    var r := Execute(m, filename, phases, counts, schedule).value;
    assert r.phases == seq(|counts|, _ => Done);
    AllDoneContributedSum(counts);
    TotalCoversEach(r.phases, counts, StartedWeight, 0);
    TotalZero(r.phases, counts, RegisteredWeight);
    TotalCoversEach(r.phases, counts, FoldedWeight, 0);
  }

  /**
   * The program's promise: instances whose locked chunks partition the
   * file's chunks, run in one generation to the end, all find the zero
   * bits of the whole file once the barrier opens.
   */
  lemma GenerationCountsWholeFile(m: map<string, int>, filename: string, file: seq<int8>, claims: seq<set<nat>>, schedule: seq<nat>)
    requires |claims| > 0
    requires forall k :: 0 <= k < Passes(|file|, ChunkSize(|file|)) ==> Owners(claims, k) == 1
    requires ProcessorsKey(filename) !in m || m[ProcessorsKey(filename)] == 0
    requires OneGeneration(m, filename, seq(|claims|, _ => Idle), LocalCounts(file, claims), schedule)
    requires var r := Execute(m, filename, seq(|claims|, _ => Idle), LocalCounts(file, claims), schedule);
             r.Some? && forall j :: 0 <= j < |r.value.phases| ==> r.value.phases[j] == Done
    ensures var r := Execute(m, filename, seq(|claims|, _ => Idle), LocalCounts(file, claims), schedule).value;
            BarrierOpen(r.entries, filename) && Lookup(r.entries, filename) == Some(ZeroBitsIn(file))
  {
    GenerationReportsSum(m, filename, LocalCounts(file, claims), schedule);
    PartitionCountsWholeFile(file, claims);
  }

  /** One step of a schedule: run the first entry, then the rest. */
  lemma ExecuteFirst(m: map<string, int>, filename: string, phases: seq<Phase>, counts: seq<nat>, schedule: seq<nat>)
    requires |phases| == |counts| && |schedule| > 0 && schedule[0] < |phases|
    requires Step(m, filename, phases, counts, schedule[0]).Some?
    ensures Execute(m, filename, phases, counts, schedule)
         == Execute(Step(m, filename, phases, counts, schedule[0]).value, filename,
                    phases[schedule[0] := Next(phases[schedule[0]])], counts, schedule[1..])
  {
  }

  /**
   * Two instances started together: both join, both fold, both deregister.
   * Whoever passes the barrier finds the sum of the two local counts.
   */
  lemma TwoInstancesInLockstep(m: map<string, int>, filename: string, a: nat, b: nat)
    requires ProcessorsKey(filename) !in m || m[ProcessorsKey(filename)] == 0
    ensures var r := Execute(m, filename, [Idle, Idle], [a, b], [0, 1, 0, 1, 0, 1]);
            && r.Some?
            && BarrierOpen(r.value.entries, filename)
            && Lookup(r.value.entries, filename) == Some(a + b)
  {
    var p, counts := ProcessorsKey(filename), [a, b];
    var m1 := Joined(m, filename);
    var m2 := Joined(m1, filename);
    var m3 := Folded(m2, filename, a);
    var m4 := Folded(m3, filename, b);
    assert m4[p] == 2 && m4[filename] == a + b by {
      assert m1[p] == 1 && filename !in m1;
      assert m2[p] == 2 && filename !in m2;
      assert m3[p] == 2 && m3[filename] == a;
    }
    var m5 := Deregistered(m4, filename).value;
    assert m5[p] == 1 && m5[filename] == a + b;
    var m6 := Deregistered(m5, filename).value;
    assert m6[p] == 0 && m6[filename] == a + b;
    assert Execute(m, filename, [Idle, Idle], counts, [0, 1, 0, 1, 0, 1])
            == Execute(m1, filename, [Scanning, Idle], counts, [1, 0, 1, 0, 1]) by {
      ExecuteFirst(m, filename, [Idle, Idle], counts, [0, 1, 0, 1, 0, 1]);
      assert [Idle, Idle][0 := Scanning] == [Scanning, Idle];
      assert [0, 1, 0, 1, 0, 1][1..] == [1, 0, 1, 0, 1];
    }
    assert Execute(m1, filename, [Scanning, Idle], counts, [1, 0, 1, 0, 1])
            == Execute(m2, filename, [Scanning, Scanning], counts, [0, 1, 0, 1]) by {
      ExecuteFirst(m1, filename, [Scanning, Idle], counts, [1, 0, 1, 0, 1]);
      assert [Scanning, Idle][1 := Scanning] == [Scanning, Scanning];
      assert [1, 0, 1, 0, 1][1..] == [0, 1, 0, 1];
    }
    assert Execute(m2, filename, [Scanning, Scanning], counts, [0, 1, 0, 1])
            == Execute(m3, filename, [Added, Scanning], counts, [1, 0, 1]) by {
      ExecuteFirst(m2, filename, [Scanning, Scanning], counts, [0, 1, 0, 1]);
      assert [Scanning, Scanning][0 := Added] == [Added, Scanning];
      assert [0, 1, 0, 1][1..] == [1, 0, 1];
    }
    assert Execute(m3, filename, [Added, Scanning], counts, [1, 0, 1])
            == Execute(m4, filename, [Added, Added], counts, [0, 1]) by {
      ExecuteFirst(m3, filename, [Added, Scanning], counts, [1, 0, 1]);
      assert [Added, Scanning][1 := Added] == [Added, Added];
      assert [1, 0, 1][1..] == [0, 1];
    }
    assert Execute(m4, filename, [Added, Added], counts, [0, 1])
            == Execute(m5, filename, [Done, Added], counts, [1]) by {
      ExecuteFirst(m4, filename, [Added, Added], counts, [0, 1]);
      assert [Added, Added][0 := Done] == [Done, Added];
      assert [0, 1][1..] == [1];
    }
    assert Execute(m5, filename, [Done, Added], counts, [1])
            == Some(State(m6, [Done, Done])) by {
      ExecuteFirst(m5, filename, [Done, Added], counts, [1]);
      assert [Done, Added][1 := Done] == [Done, Done];
      assert [1][1..] == [];
    }
  }
}
