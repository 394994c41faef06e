/** Maximal runs of blocks of one consensus output, and what cutting and joining does to them. */
module ReplayGroups {
  import opened Replay

  type Group = seq<PlanBlock>

  function Flatten(gs: seq<Group>): seq<PlanBlock> {
    if gs == [] then [] else Flatten(gs[..|gs| - 1]) + gs[|gs| - 1]
  }

  predicate OneOutput(g: Group) {
    g != [] && forall p | p in g :: p.outputDigest == g[0].outputDigest
  }

  predicate Differ(a: Group, b: Group) {
    a != [] && b != [] && a[0].outputDigest != b[0].outputDigest
  }

  /** `gs` cuts `ps` exactly where the output digest changes. */
  predicate MaximalRuns(gs: seq<Group>, ps: seq<PlanBlock>) {
    && Flatten(gs) == ps
    && (forall g | g in gs :: OneOutput(g))
    && forall i | 0 <= i < |gs| - 1 :: Differ(gs[i], gs[i + 1])
  }

  /** Grouping one more block. */
  function Append(gs: seq<Group>, p: PlanBlock): seq<Group> {
    if gs != [] && gs[|gs| - 1] != [] && gs[|gs| - 1][0].outputDigest == p.outputDigest
    then gs[..|gs| - 1] + [gs[|gs| - 1] + [p]]
    else gs + [[p]]
  }

  function Runs(ps: seq<PlanBlock>): seq<Group> {
    if ps == [] then [] else Append(Runs(ps[..|ps| - 1]), ps[|ps| - 1])
  }

  lemma AppendKeeps(gs: seq<Group>, ps: seq<PlanBlock>, p: PlanBlock)
    requires MaximalRuns(gs, ps)
    ensures MaximalRuns(Append(gs, p), ps + [p])
  {
    var gs' := Append(gs, p);
    var n := |gs'| - 1;
    if |gs'| == |gs| {
      assert OneOutput(gs[n]);
      assert gs'[..n] == gs[..n];
      assert gs'[n][0] == gs[n][0];
    } else {
      assert gs'[..n] == gs;
      assert n > 0 ==> OneOutput(gs[n - 1]);
    }
  }

  /** The grouping is a cutting into maximal runs. */
  lemma {:induction false} RunsAreMaximal(ps: seq<PlanBlock>)
    ensures MaximalRuns(Runs(ps), ps)
  {
    if ps != [] {
      RunsAreMaximal(ps[..|ps| - 1]);
      AppendKeeps(Runs(ps[..|ps| - 1]), ps[..|ps| - 1], ps[|ps| - 1]);
      assert ps == ps[..|ps| - 1] + [ps[|ps| - 1]];
    }
  }

  /** Taking the last block off a cutting. */
  function Unappend(gs: seq<Group>): seq<Group>
    requires gs != [] && gs[|gs| - 1] != []
  {
    var n := |gs| - 1;
    if |gs[n]| == 1 then gs[..n] else gs[..n] + [gs[n][..|gs[n]| - 1]]
  }

  lemma LastRun(gs: seq<Group>, ps: seq<PlanBlock>)
    requires MaximalRuns(gs, ps) && ps != []
    ensures gs != [] && OneOutput(gs[|gs| - 1])
    ensures var g := gs[|gs| - 1]; g[|g| - 1] == ps[|ps| - 1] && g[|g| - 1].outputDigest == g[0].outputDigest
    ensures var g := gs[|gs| - 1]; ps[..|ps| - 1] == Flatten(gs[..|gs| - 1]) + g[..|g| - 1]
  {
    var g := gs[|gs| - 1];
    assert g in gs;
    assert g[|g| - 1] in g;
  }

  lemma UnappendKeeps(gs: seq<Group>, ps: seq<PlanBlock>)
    requires MaximalRuns(gs, ps) && ps != []
    ensures gs != [] && gs[|gs| - 1] != []
    ensures MaximalRuns(Unappend(gs), ps[..|ps| - 1])
  {
    LastRun(gs, ps);
    var n := |gs| - 1;
    var g, gs' := gs[n], Unappend(gs);
    if |g| > 1 {
      assert gs'[..n] == gs[..n];
      assert OneOutput(gs'[n]) && gs'[n][0] == g[0];
      assert n > 0 ==> Differ(gs[n - 1], gs[n]);
    }
  }

  lemma UnappendUndoes(gs: seq<Group>, ps: seq<PlanBlock>)
    requires MaximalRuns(gs, ps) && ps != []
    ensures gs != [] && gs[|gs| - 1] != []
    ensures Append(Unappend(gs), ps[|ps| - 1]) == gs
  {
    LastRun(gs, ps);
    var n := |gs| - 1;
    var g := gs[n];
    if |g| == 1 {
      assert g == [g[0]];
      assert n > 0 ==> Differ(gs[n - 1], gs[n]);
    } else {
      assert g == g[..|g| - 1] + [g[|g| - 1]];
    }
  }

  /** There is only one cutting into maximal runs. */
  lemma {:induction false} MaximalRunsUnique(gs: seq<Group>, ps: seq<PlanBlock>)
    requires MaximalRuns(gs, ps)
    ensures gs == Runs(ps)
    decreases |ps|
  {
    if ps == [] {
      assert gs != [] ==> OneOutput(gs[|gs| - 1]);
    } else {
      UnappendKeeps(gs, ps);
      UnappendUndoes(gs, ps);
      MaximalRunsUnique(Unappend(gs), ps[..|ps| - 1]);
    }
  }

  lemma {:induction false} FlattenJoins(a: seq<Group>, b: seq<Group>)
    ensures Flatten(a + b) == Flatten(a) + Flatten(b)
  {
    if b == [] {
      assert a + b == a;
    } else {
      var n := |b| - 1;
      FlattenJoins(a, b[..n]);
      assert (a + b)[..|a + b| - 1] == a + b[..n];
    }
  }

  lemma {:induction false} FlattenFirst(gs: seq<Group>)
    requires gs != [] && gs[0] != []
    ensures Flatten(gs) != [] && Flatten(gs)[0] == gs[0][0]
  {
    if |gs| > 1 {
      FlattenFirst(gs[..|gs| - 1]);
    } else {
      assert gs[..0] == [];
    }
  }

  lemma FirstRun(gs: seq<Group>, ps: seq<PlanBlock>)
    requires MaximalRuns(gs, ps) && ps != []
    ensures gs != [] && gs[0] != [] && gs[0][0] == ps[0]
  {
    assert gs[0] in gs && OneOutput(gs[0]);
    FlattenFirst(gs);
  }

  /** Where two stretches meet, their last and first runs are of different outputs exactly when the
      blocks that meet are. */
  lemma MeetDiffer(gs: seq<Group>, a: seq<PlanBlock>, hs: seq<Group>, b: seq<PlanBlock>)
    requires MaximalRuns(gs, a) && MaximalRuns(hs, b) && a != [] && b != []
    ensures gs != [] && hs != []
    ensures Differ(gs[|gs| - 1], hs[0]) <==> a[|a| - 1].outputDigest != b[0].outputDigest
  {
    LastRun(gs, a);
    FirstRun(hs, b);
  }

  lemma MeetingRunsDiffer(gs: seq<Group>, hs: seq<Group>, ps: seq<PlanBlock>)
    requires MaximalRuns(gs + hs, ps) && gs != [] && hs != []
    ensures Differ(gs[|gs| - 1], hs[0])
  {
    var all, n := gs + hs, |gs| - 1;
    assert all[n] == gs[n] && all[n + 1] == hs[0];
    assert Differ(all[n], all[n + 1]);
  }

  lemma JoinMaximalIff(gs: seq<Group>, a: seq<PlanBlock>, hs: seq<Group>, b: seq<PlanBlock>)
    requires MaximalRuns(gs, a) && MaximalRuns(hs, b) && a != [] && b != []
    ensures MaximalRuns(gs + hs, a + b) <==> a[|a| - 1].outputDigest != b[0].outputDigest
  {
    MeetDiffer(gs, a, hs, b);
    if Differ(gs[|gs| - 1], hs[0]) {
      JoinedIsMaximal(gs, a, hs, b);
    }
    if MaximalRuns(gs + hs, a + b) {
      MeetingRunsDiffer(gs, hs, a + b);
    }
  }

  /** A cutting into maximal runs is the grouping. */
  lemma RunsIffMaximal(gs: seq<Group>, ps: seq<PlanBlock>)
    ensures gs == Runs(ps) <==> MaximalRuns(gs, ps)
  {
    RunsAreMaximal(ps);
    if MaximalRuns(gs, ps) {
      MaximalRunsUnique(gs, ps);
    }
  }

  /** Two stretches replayed one after the other give the runs of the whole exactly when the output
      changes where they meet. */
  lemma JoinsWhereOutputChanges(a: seq<PlanBlock>, b: seq<PlanBlock>)
    requires a != [] && b != []
    ensures Runs(a) + Runs(b) == Runs(a + b) <==> a[|a| - 1].outputDigest != b[0].outputDigest
  {
    RunsAreMaximal(a);
    RunsAreMaximal(b);
    JoinMaximalIff(Runs(a), a, Runs(b), b);
    RunsIffMaximal(Runs(a) + Runs(b), a + b);
  }

  lemma JoinedIsMaximal(gs: seq<Group>, a: seq<PlanBlock>, hs: seq<Group>, b: seq<PlanBlock>)
    requires MaximalRuns(gs, a) && MaximalRuns(hs, b)
    requires gs != [] && hs != [] ==> Differ(gs[|gs| - 1], hs[0])
    ensures MaximalRuns(gs + hs, a + b)
  {
    FlattenJoins(gs, hs);
    var all := gs + hs;
    forall i | 0 <= i < |all| - 1
      ensures Differ(all[i], all[i + 1])
    {
      if i >= |gs| {
        assert Differ(hs[i - |gs|], hs[i - |gs| + 1]);
      }
    }
  }

  /** What is grouped and closed stays as it is, whatever follows. */
  lemma {:induction false} ClosedRunsStay(a: seq<PlanBlock>, c: seq<PlanBlock>)
    requires a != []
    ensures 0 < |Runs(a)| <= |Runs(a + c)|
    ensures Runs(a)[..|Runs(a)| - 1] <= Runs(a + c)
  {
    if c == [] {
      assert a + c == a;
    } else {
      var n := |c| - 1;
      ClosedRunsStay(a, c[..n]);
      assert (a + c)[..|a + c| - 1] == a + c[..n];
    }
  }

  lemma RestFlattens(gs: seq<Group>, ps: seq<PlanBlock>, k: nat)
    requires Flatten(gs) == ps && k <= |gs|
    ensures |Flatten(gs[..k])| <= |ps| && Flatten(gs[..k]) == ps[..|Flatten(gs[..k])|]
    ensures Flatten(gs[k..]) == ps[|Flatten(gs[..k])|..]
  {
    FlattenJoins(gs[..k], gs[k..]);
    assert gs[..k] + gs[k..] == gs;
  }

  /** The groups after the first `k` of a cutting cut the blocks after those of the first `k`. */
  lemma RestIsMaximal(gs: seq<Group>, ps: seq<PlanBlock>, k: nat)
    requires MaximalRuns(gs, ps) && k <= |gs|
    ensures |Flatten(gs[..k])| <= |ps| && Flatten(gs[..k]) == ps[..|Flatten(gs[..k])|]
    ensures MaximalRuns(gs[k..], ps[|Flatten(gs[..k])|..])
  {
    RestFlattens(gs, ps, k);
    var rest := gs[k..];
    forall i | 0 <= i < |rest| - 1 ensures Differ(rest[i], rest[i + 1]) {
      assert rest[i] == gs[k + i] && rest[i + 1] == gs[k + i + 1];
    }
  }

  /** Resuming after any number of flushed runs flushes the others. */
  lemma ResumedRuns(ps: seq<PlanBlock>, k: nat)
    requires k <= |Runs(ps)|
    ensures |Flatten(Runs(ps)[..k])| <= |ps|
    ensures Flatten(Runs(ps)[..k]) == ps[..|Flatten(Runs(ps)[..k])|]
    ensures Runs(ps[|Flatten(Runs(ps)[..k])|..]) == Runs(ps)[k..]
  {
    RunsAreMaximal(ps);
    RestIsMaximal(Runs(ps), ps, k);
    MaximalRunsUnique(Runs(ps)[k..], ps[|Flatten(Runs(ps)[..k])|..]);
  }

  /** The groups of a cutting are not empty, so its first groups end with their last block. */
  lemma PrefixEnds(gs: seq<Group>, ps: seq<PlanBlock>, k: nat)
    requires MaximalRuns(gs, ps) && 0 < k <= |gs|
    ensures gs[k - 1] != [] && Flatten(gs[..k]) != []
    ensures Flatten(gs[..k])[|Flatten(gs[..k])| - 1] == gs[k - 1][|gs[k - 1]| - 1]
  {
    assert gs[k - 1] in gs && OneOutput(gs[k - 1]);
    assert gs[..k][..k - 1] == gs[..k - 1];
  }
}
