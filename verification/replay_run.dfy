/** The replay run: produce windows, group, flush, stop at a safe point, resume. */
module ReplayRun {
  import opened Tables
  import opened Replay
  import opened ReplayGroups

  /** What meets the k-th flush of a run: it succeeds, it succeeds with a shutdown requested by the
      time it is done, it fails before its output is finished, or it fails after that. */
  datatype Signal = Proceed | Stop | Fail | FailLate

  datatype Outcome = Finished | Interrupted | Failed

  /** The first block past the replay target, which is clamped to the snapshot. */
  function Limit(blocks: nat, toBlock: Option<nat>): nat {
    if toBlock.Some? && toBlock.value + 1 <= blocks then toBlock.value + 1 else blocks
  }

  function Start(fromBlock: nat, tip: nat): nat {
    if fromBlock <= tip then tip + 1 else fromBlock
  }

  /** The blocks a run from `tip` has to replay. */
  function Todo(all: seq<PlanBlock>, fromBlock: nat, toBlock: Option<nat>, tip: nat): seq<PlanBlock> {
    Blocks(all, Start(fromBlock, tip), Limit(|all|, toBlock))
  }

  lemma BlocksSplit(all: seq<PlanBlock>, start: nat, mid: nat, end: nat)
    requires start <= mid <= end
    ensures Blocks(all, start, end) == Blocks(all, start, mid) + Blocks(all, mid, end)
  {
  }

  lemma BlocksDrop(all: seq<PlanBlock>, start: nat, end: nat, k: nat)
    requires k <= |Blocks(all, start, end)|
    ensures Blocks(all, start, end)[k..] == Blocks(all, start + k, end)
  {
  }

  // ----- The producer -----

  /** The windows sent so far are the blocks before `upTo`, all resolved. */
  ghost predicate Sent(all: seq<PlanBlock>, from: nat, upTo: nat, windows: seq<Group>) {
    && from <= upTo
    && Flatten(windows) == Blocks(all, from, upTo)
    && AllResolved(Blocks(all, from, upTo))
  }

  lemma ResolvedJoins(a: seq<PlanBlock>, b: seq<PlanBlock>)
    ensures AllResolved(a + b) <==> AllResolved(a) && AllResolved(b)
  {
    assert forall p :: p in a + b <==> p in a || p in b;
  }

  lemma SentGrows(all: seq<PlanBlock>, from: nat, upTo: nat, end: nat, windows: seq<Group>)
    requires Sent(all, from, upTo, windows) && upTo <= end && AllResolved(Blocks(all, upTo, end))
    ensures var w := Blocks(all, upTo, end);
            Sent(all, from, end, if w == [] then windows else windows + [w])
  {
    var w := Blocks(all, upTo, end);
    BlocksSplit(all, from, upTo, end);
    ResolvedJoins(Blocks(all, from, upTo), w);
    assert (windows + [w])[..|windows|] == windows;
  }

  /** How the producer stands: more to read, a batch missing, or nothing left. */
  datatype Progress = Reading | BatchMissing | AtEnd

  ghost predicate Stands(all: seq<PlanBlock>, from: nat, upTo: nat, limit: nat, p: Progress) {
    match p
    case Reading => true
    case BatchMissing => !AllResolved(Blocks(all, from, limit))
    case AtEnd => Blocks(all, upTo, limit) == []
  }

  lemma MissingInWindow(all: seq<PlanBlock>, from: nat, start: nat, end: nat, limit: nat)
    requires from <= start <= end <= limit && !AllResolved(Blocks(all, start, end))
    ensures Stands(all, from, start, limit, BatchMissing)
  {
    BlocksSplit(all, from, start, limit);
    BlocksSplit(all, start, end, limit);
    ResolvedJoins(Blocks(all, from, start), Blocks(all, start, limit));
    ResolvedJoins(Blocks(all, start, end), Blocks(all, end, limit));
  }

  lemma SentAll(all: seq<PlanBlock>, from: nat, upTo: nat, limit: nat, windows: seq<Group>)
    requires Sent(all, from, upTo, windows) && upTo <= limit && Blocks(all, upTo, limit) == []
    ensures Flatten(windows) == Blocks(all, from, limit) && AllResolved(Blocks(all, from, limit))
  {
    BlocksSplit(all, from, upTo, limit);
  }

  /** A planned window is sent; one shorter than asked for is the last. */
  lemma WindowSent(all: seq<PlanBlock>, from: nat, start: nat, end: nat, limit: nat, sent: seq<Group>, plans: seq<PlanBlock>)
    requires start < end <= limit && Sent(all, from, start, sent)
    requires plans == Blocks(all, start, end) && AllResolved(plans)
    ensures Sent(all, from, end, if plans == [] then sent else sent + [plans])
    ensures Stands(all, from, end, limit, if |plans| < end - start then AtEnd else Reading)
  {
    SentGrows(all, from, start, end, sent);
  }

  /** Reads one window and sends it. */
  method SendWindow(chain: seq<Header>, store: Store, from: nat, start: nat, limit: nat, window: nat, sent: seq<Group>)
    returns (windows: seq<Group>, upTo: nat, p: Progress)
    requires window >= 1 && start < limit && Sent(Snapshot(chain, store), from, start, sent)
    ensures start <= upTo <= limit && (start < upTo || p != Reading)
    ensures Sent(Snapshot(chain, store), from, upTo, windows)
    ensures Stands(Snapshot(chain, store), from, upTo, limit, p)
  {
    var end := if start + window <= limit then start + window else limit;
    var last := end - 1;
    var w := DerivePlanWindow(chain, store, start, last);
    assert last + 1 == end;
    if w.Planned? {
      WindowSent(Snapshot(chain, store), from, start, end, limit, sent, w.plans);
      windows, upTo := if w.plans == [] then sent else sent + [w.plans], end;
      p := if |w.plans| < end - start then AtEnd else Reading;
    } else {
      MissingInWindow(Snapshot(chain, store), from, start, end, limit);
      windows, upTo, p := sent, start, BatchMissing;
    }
  }

  /** Reads the plans of `from` up to `limit` in windows. The windows sent are a first stretch of
      those blocks, all resolved: the whole range, unless a batch is missing further on. */
  method ProducePlans(chain: seq<Header>, store: Store, from: nat, limit: nat, window: nat)
    returns (windows: seq<Group>, missing: bool, upTo: nat)
    requires window >= 1 && from <= limit
    ensures upTo <= limit && Sent(Snapshot(chain, store), from, upTo, windows)
    ensures missing <==> !AllResolved(Blocks(Snapshot(chain, store), from, limit))
    ensures !missing ==> Flatten(windows) == Blocks(Snapshot(chain, store), from, limit)
  {
    ghost var all := Snapshot(chain, store);
    windows, upTo := [], from;
    var p := Reading;
    while upTo < limit && p == Reading
      invariant upTo <= limit && Sent(all, from, upTo, windows)
      invariant Stands(all, from, upTo, limit, p)
      decreases limit - upTo, p == Reading
    {
      windows, upTo, p := SendWindow(chain, store, from, upTo, limit, window, windows);
    }
    missing := p == BatchMissing;
    if !missing {
      SentAll(all, from, upTo, limit, windows);
    }
  }

  // ----- The consumer -----

  /** The number of the last block executed: `tip` before the run, until it flushes a group. */
  function TipAfter(tip: nat, flushed: seq<Group>): nat {
    if flushed == [] || flushed[|flushed| - 1] == [] then tip
    else flushed[|flushed| - 1][|flushed[|flushed| - 1]| - 1].number
  }

  /** The loop's variables: the groups flushed in this run, the archive's tip and the buffered group. */
  datatype Buffer = Buffer(flushed: seq<Group>, tip: nat, group: Group, digest: Option<Digest>)

  datatype Step = Step(buffer: Buffer, outcome: Outcome)

  function Fresh(tip: nat): Buffer {
    Buffer([], tip, [], None)
  }

  /** The buffered group is executed and the tip is its last block. */
  function Executed(b: Buffer): Buffer {
    b.(flushed := b.flushed + [b.group], tip := TipAfter(b.tip, [b.group]))
  }

  function Flushed(b: Buffer, signal: Signal): Step {
    match signal
    case Fail => Step(b, Failed)
    case FailLate => Step(Executed(b), Failed)
    case Proceed => Step(Executed(b), Finished)
    case Stop => Step(Executed(b), Finished)
  }

  /** One block: a change of output flushes the buffered group, and only then is a shutdown seen. */
  function Received(b: Buffer, plan: PlanBlock, signal: nat -> Signal): Step {
    if b.digest.Some? && plan.outputDigest != b.digest.value then
      var s := signal(|b.flushed|);
      var f := Flushed(b, s);
      if f.outcome == Failed then f
      else if s == Stop then Step(f.buffer.(group := []), Interrupted)
      else Step(f.buffer.(group := [plan], digest := Some(plan.outputDigest)), Finished)
    else Step(b.(group := b.group + [plan], digest := Some(plan.outputDigest)), Finished)
  }

  /** Blocks in turn, until one ends the run. */
  function ReceivedAll(b: Buffer, plans: seq<PlanBlock>, signal: nat -> Signal): Step {
    if plans == [] then Step(b, Finished)
    else
      var s := ReceivedAll(b, plans[..|plans| - 1], signal);
      if s.outcome != Finished then s else Received(s.buffer, plans[|plans| - 1], signal)
  }

  lemma {:induction false} ReceivedJoins(b: Buffer, x: seq<PlanBlock>, y: seq<PlanBlock>, signal: nat -> Signal)
    ensures var s := ReceivedAll(b, x, signal);
            ReceivedAll(b, x + y, signal) == if s.outcome == Finished then ReceivedAll(s.buffer, y, signal) else s
  {
    if y == [] {
      assert x + y == x;
    } else {
      var n := |y| - 1;
      ReceivedJoins(b, x, y[..n], signal);
      assert (x + y)[..|x + y| - 1] == x + y[..n];
    }
  }

  /** The archive being rebuilt, with the loop's own variables. */
  class Archive {
    /** The output groups executed in this run. */
    var flushed: seq<Group>
    /** The number of the last executed block. */
    var tip: nat
    var group: Group
    var groupDigest: Option<Digest>

    function View(): Buffer
      reads this
    {
      Buffer(flushed, tip, group, groupDigest)
    }

    /** Executes the buffered group; an error can come before or after its output is finished. */
    method FlushOutputGroup(signal: Signal) returns (ok: bool)
      modifies this`flushed, this`tip
      ensures Step(View(), if ok then Finished else Failed) == Flushed(old(View()), signal)
    {
      ok := signal == Proceed || signal == Stop;
      if signal != Fail {
        flushed := flushed + [group];
        if group != [] {
          tip := group[|group| - 1].number;
        }
      }
    }

    /** Groups one block, first flushing the buffered group when the output changes. */
    method Receive(plan: PlanBlock, signal: nat -> Signal) returns (outcome: Outcome)
      modifies this
      ensures Step(View(), outcome) == Received(old(View()), plan, signal)
    {
      if groupDigest.Some? && plan.outputDigest != groupDigest.value {
        var s := signal(|flushed|);
        var ok := FlushOutputGroup(s);
        if !ok {
          return Failed;
        }
        group := [];
        if s == Stop {
          return Interrupted;
        }
      }
      groupDigest := Some(plan.outputDigest);
      group := group + [plan];
      outcome := Finished;
    }

    method ReceiveWindow(plans: seq<PlanBlock>, signal: nat -> Signal) returns (outcome: Outcome)
      modifies this
      ensures Step(View(), outcome) == ReceivedAll(old(View()), plans, signal)
    {
      var i := 0;
      outcome := Finished;
      while i < |plans| && outcome == Finished
        invariant i <= |plans|
        invariant Step(View(), outcome) == ReceivedAll(old(View()), plans[..i], signal)
      {
        outcome := Receive(plans[i], signal);
        assert plans[..i + 1][..i] == plans[..i];
        i := i + 1;
      }
      ReceivedJoins(old(View()), plans[..i], plans[i..], signal);
      assert plans[..i] + plans[i..] == plans;
    }

    method ReceiveAll(windows: seq<Group>, signal: nat -> Signal) returns (outcome: Outcome)
      modifies this
      ensures Step(View(), outcome) == ReceivedAll(old(View()), Flatten(windows), signal)
    {
      var i := 0;
      outcome := Finished;
      while i < |windows| && outcome == Finished
        invariant i <= |windows|
        invariant Step(View(), outcome) == ReceivedAll(old(View()), Flatten(windows[..i]), signal)
      {
        ReceivedJoins(old(View()), Flatten(windows[..i]), windows[i], signal);
        outcome := ReceiveWindow(windows[i], signal);
        assert windows[..i + 1][..i] == windows[..i];
        i := i + 1;
      }
      ReceivedJoins(old(View()), Flatten(windows[..i]), Flatten(windows[i..]), signal);
      FlattenJoins(windows[..i], windows[i..]);
      assert windows[..i] + windows[i..] == windows;
    }

    /** Replays up to the target, from the block after the tip or from `fromBlock` if that is later. */
    method RunReplay(chain: seq<Header>, store: Store, fromBlock: nat, toBlock: Option<nat>, window: nat,
                     signal: nat -> Signal) returns (outcome: Outcome)
      requires window >= 1
      modifies this
      ensures var todo := Todo(Snapshot(chain, store), fromBlock, toBlock, old(tip));
              Replayed(outcome, todo, flushed, signal, AllResolved(todo))
      ensures tip == TipAfter(old(tip), flushed)
    {
      flushed, group, groupDigest := [], [], None;
      ghost var base := tip;
      var from, limit := Start(fromBlock, tip), Limit(|chain|, toBlock);
      if from >= limit {
        return Finished;
      }
      var windows, missing, upTo := ProducePlans(chain, store, from, limit, window);
      ghost var seen, more := Flatten(windows), Blocks(Snapshot(chain, store), upTo, limit);
      BlocksSplit(Snapshot(chain, store), from, upTo, limit);
      outcome := ReceiveAll(windows, signal);
      AfterReceiving(base, seen, signal);
      if outcome != Finished {
        HaltedIsReplayed(outcome, base, seen, more, View(), signal, !missing);
      } else if missing {
        MissingIsReplayed(base, seen, more, View(), signal);
        outcome := Failed;
      } else {
        LastIsReplayed(base, seen, View(), signal);
        if group != [] {
          var ok := FlushOutputGroup(signal(|flushed|));
          outcome := if ok then Finished else Failed;
        }
      }
    }

    /** Runs the replay again and again, each run meeting its own signals, until one finishes; `ks` are
        the numbers of groups the runs flushed. */
    method ReplayUntilDone(chain: seq<Header>, store: Store, fromBlock: nat, toBlock: Option<nat>, window: nat,
                           signals: seq<nat -> Signal>) returns (done: bool, groups: seq<Group>, ghost ks: seq<nat>)
      requires window >= 1
      modifies this
      ensures var all := Snapshot(chain, store);
              && (groups, tip) == Stopped(all, fromBlock, toBlock, old(tip), ks)
              && (done ==> groups == Runs(Todo(all, fromBlock, toBlock, old(tip))))
              && groups + Runs(Todo(all, fromBlock, toBlock, tip)) == Runs(Todo(all, fromBlock, toBlock, old(tip)))
    {
      ghost var all := Snapshot(chain, store);
      SnapshotIsNumbered(chain, store);
      done, groups, ks := false, [], [];
      var r := 0;
      while r < |signals| && !done
        invariant r <= |signals|
        invariant (groups, tip) == Stopped(all, fromBlock, toBlock, old(tip), ks)
        invariant done ==> groups == Runs(Todo(all, fromBlock, toBlock, old(tip)))
      {
        StopsAreTransparent(all, fromBlock, toBlock, old(tip), ks);
        ghost var before := tip;
        var outcome := RunReplay(chain, store, fromBlock, toBlock, window, signals[r]);
        StoppedAgain(all, fromBlock, toBlock, old(tip), ks, flushed);
        ks := ks + [|flushed|];
        groups, done, r := groups + flushed, outcome == Finished, r + 1;
      }
      StopsAreTransparent(all, fromBlock, toBlock, old(tip), ks);
    }
  }

  // ----- What the loop has done -----

  /** The first `n` flushes succeeded with no shutdown requested. */
  ghost predicate Proceeded(signal: nat -> Signal, n: int) {
    forall k: nat | k < n :: signal(k) == Proceed
  }

  /** The run failed with `n` groups executed: at the next flush, or at the last after its output. */
  ghost predicate FailedAt(signal: nat -> Signal, n: nat) {
    || (Proceeded(signal, n) && signal(n) == Fail)
    || (n > 0 && Proceeded(signal, n - 1) && signal(n - 1) == FailLate)
  }

  /** After grouping the blocks `seen`, all runs but the last are executed and the last is buffered. */
  ghost predicate Held(base: nat, seen: seq<PlanBlock>, b: Buffer) {
    && b.tip == TipAfter(base, b.flushed)
    && if seen == [] then b.flushed == [] && b.group == [] && b.digest == None
       else Runs(seen) == b.flushed + [b.group] && b.group != [] && b.digest == Some(b.group[0].outputDigest)
  }

  /** A run ended early, with the first runs of `all` executed, but not the last. */
  ghost predicate Halted(outcome: Outcome, base: nat, all: seq<PlanBlock>, b: Buffer, signal: nat -> Signal) {
    && b.tip == TipAfter(base, b.flushed)
    && |b.flushed| < |Runs(all)| && b.flushed <= Runs(all)
    && (outcome == Interrupted ==>
          b.flushed != [] && Proceeded(signal, |b.flushed| - 1) && signal(|b.flushed| - 1) == Stop)
    && (outcome == Failed ==> FailedAt(signal, |b.flushed|))
  }

  /** A block of the buffered output joins the buffer; one of another output closes it. */
  lemma RunsGrow(seen: seq<PlanBlock>, flushed: seq<Group>, group: Group, plan: PlanBlock)
    requires Runs(seen) == flushed + [group] && group != []
    ensures Runs(seen + [plan]) ==
              if group[0].outputDigest == plan.outputDigest then flushed + [group + [plan]]
              else flushed + [group] + [[plan]]
  {
    assert (seen + [plan])[..|seen|] == seen;
  }

  lemma FirstBlock(plan: PlanBlock)
    ensures Runs([plan]) == [[plan]]
  {
    assert [plan][..0] == [];
  }

  lemma TipMoves(base: nat, flushed: seq<Group>, group: Group)
    requires group != []
    ensures TipAfter(base, flushed + [group]) == TipAfter(TipAfter(base, flushed), [group])
  {
  }

  /** A step that ends the run halts it; one that does not keeps the rest buffered. */
  ghost predicate StepFits(base: nat, seen: seq<PlanBlock>, s: Step, signal: nat -> Signal) {
    && (s.outcome == Finished ==> Held(base, seen, s.buffer) && Proceeded(signal, |s.buffer.flushed|))
    && (s.outcome != Finished ==> Halted(s.outcome, base, seen, s.buffer, signal))
  }

  lemma FirstStep(base: nat, b: Buffer, plan: PlanBlock, signal: nat -> Signal)
    requires Held(base, [], b)
    ensures StepFits(base, [plan], Received(b, plan, signal), signal)
  {
    FirstBlock(plan);
    assert b.group + [plan] == [plan] && b.flushed + [[plan]] == [[plan]];
  }

  lemma SameOutputStep(base: nat, seen: seq<PlanBlock>, b: Buffer, plan: PlanBlock, signal: nat -> Signal)
    requires Held(base, seen, b) && seen != [] && Proceeded(signal, |b.flushed|)
    requires b.group[0].outputDigest == plan.outputDigest
    ensures StepFits(base, seen + [plan], Received(b, plan, signal), signal)
  {
    RunsGrow(seen, b.flushed, b.group, plan);
  }

  lemma NewOutputStep(base: nat, seen: seq<PlanBlock>, b: Buffer, plan: PlanBlock, signal: nat -> Signal)
    requires Held(base, seen, b) && seen != [] && Proceeded(signal, |b.flushed|)
    requires b.group[0].outputDigest != plan.outputDigest
    ensures StepFits(base, seen + [plan], Received(b, plan, signal), signal)
  {
    var now, f := Runs(seen + [plan]), b.flushed + [b.group];
    assert now == f + [[plan]] by {
      RunsGrow(seen, b.flushed, b.group, plan);
    }
    TipMoves(base, b.flushed, b.group);
    assert b.flushed <= now && f <= now && |f| < |now|;
  }

  lemma HeldStep(base: nat, seen: seq<PlanBlock>, b: Buffer, plan: PlanBlock, signal: nat -> Signal)
    requires Held(base, seen, b) && Proceeded(signal, |b.flushed|)
    ensures StepFits(base, seen + [plan], Received(b, plan, signal), signal)
  {
    if seen == [] {
      FirstStep(base, b, plan, signal);
      assert [] + [plan] == [plan];
    } else if b.group[0].outputDigest == plan.outputDigest {
      SameOutputStep(base, seen, b, plan, signal);
    } else {
      NewOutputStep(base, seen, b, plan, signal);
    }
  }

  lemma HaltedStays(outcome: Outcome, base: nat, all: seq<PlanBlock>, more: seq<PlanBlock>, b: Buffer, signal: nat -> Signal)
    requires Halted(outcome, base, all, b, signal)
    ensures Halted(outcome, base, all + more, b, signal)
  {
    ClosedRunsStay(all, more);
  }

  /** Where a run stands after any blocks: everything grouped and the last group buffered, or halted. */
  lemma {:induction false} AfterReceiving(base: nat, plans: seq<PlanBlock>, signal: nat -> Signal)
    ensures StepFits(base, plans, ReceivedAll(Fresh(base), plans, signal), signal)
  {
    if plans != [] {
      var init, last := plans[..|plans| - 1], plans[|plans| - 1];
      AfterReceiving(base, init, signal);
      assert init + [last] == plans;
      var s := ReceivedAll(Fresh(base), init, signal);
      if s.outcome == Finished {
        HeldStep(base, init, s.buffer, last, signal);
      } else {
        HaltedStays(s.outcome, base, init, [last], s.buffer, signal);
      }
    }
  }

  // ----- Whole runs -----

  /** What a run did to the blocks it had to replay: it flushed their first maximal runs, each
      whole; it stopped at the first flush that met a shutdown or failed, unless a batch was missing
      before that, and otherwise flushed them all. A shutdown at the last flush changes nothing. */
  ghost predicate Replayed(outcome: Outcome, todo: seq<PlanBlock>, flushed: seq<Group>, signal: nat -> Signal,
                           resolved: bool) {
    && flushed <= Runs(todo)
    && match outcome
       case Finished =>
         && flushed == Runs(todo) && Proceeded(signal, |flushed| - 1)
         && (flushed != [] ==> signal(|flushed| - 1) == Proceed || signal(|flushed| - 1) == Stop)
       case Interrupted =>
         && 0 < |flushed| < |Runs(todo)| && Proceeded(signal, |flushed| - 1)
         && signal(|flushed| - 1) == Stop
       case Failed =>
         || (!resolved && Proceeded(signal, |flushed|))
         || (FailedAt(signal, |flushed|) && (flushed == Runs(todo) ==> flushed != [] && signal(|flushed| - 1) == FailLate))
  }

  lemma HaltedIsReplayed(outcome: Outcome, base: nat, seen: seq<PlanBlock>, more: seq<PlanBlock>, b: Buffer, signal: nat -> Signal,
                         resolved: bool)
    requires Halted(outcome, base, seen, b, signal) && outcome != Finished
    ensures Replayed(outcome, seen + more, b.flushed, signal, resolved)
  {
    HaltedStays(outcome, base, seen, more, b, signal);
  }

  lemma MissingIsReplayed(base: nat, seen: seq<PlanBlock>, more: seq<PlanBlock>, b: Buffer, signal: nat -> Signal)
    requires Held(base, seen, b) && Proceeded(signal, |b.flushed|)
    ensures Replayed(Failed, seen + more, b.flushed, signal, false)
  {
    if seen != [] {
      ClosedRunsStay(seen, more);
    }
  }

  lemma LastIsReplayed(base: nat, seen: seq<PlanBlock>, b: Buffer, signal: nat -> Signal)
    requires Held(base, seen, b) && Proceeded(signal, |b.flushed|)
    ensures b.group == [] ==> Replayed(Finished, seen, b.flushed, signal, true)
    ensures b.group != [] ==>
              var f := Flushed(b, signal(|b.flushed|));
              Replayed(f.outcome, seen, f.buffer.flushed, signal, true) && f.buffer.tip == TipAfter(base, f.buffer.flushed)
  {
    if b.group != [] {
      TipMoves(base, b.flushed, b.group);
    }
  }

  /** A run that nothing stops flushes exactly the maximal runs of its blocks. */
  lemma UnstoppedRunIsExact(outcome: Outcome, todo: seq<PlanBlock>, flushed: seq<Group>, signal: nat -> Signal)
    requires Replayed(outcome, todo, flushed, signal, true)
    requires Proceeded(signal, |Runs(todo)| + 1)
    ensures outcome == Finished && MaximalRuns(flushed, todo)
    ensures forall gs | MaximalRuns(gs, todo) :: gs == flushed
  {
    RunsAreMaximal(todo);
    forall gs | MaximalRuns(gs, todo)
      ensures gs == flushed
    {
      MaximalRunsUnique(gs, todo);
    }
  }

  ghost predicate Numbered(all: seq<PlanBlock>) {
    forall n | 0 <= n < |all| :: all[n].number == n
  }

  lemma SnapshotIsNumbered(chain: seq<Header>, store: Store)
    ensures |Snapshot(chain, store)| == |chain| && Numbered(Snapshot(chain, store))
  {
  }

  /** A run has to replay the blocks above the tip, not before `fromBlock` and not after `toBlock`. */
  lemma TodoMeans(all: seq<PlanBlock>, fromBlock: nat, toBlock: Option<nat>, tip: nat, n: nat)
    requires Numbered(all) && n < |all|
    ensures all[n] in Todo(all, fromBlock, toBlock, tip) <==>
            tip < n && fromBlock <= n && (toBlock.Some? ==> n <= toBlock.value)
  {
    var start, limit := Start(fromBlock, tip), Limit(|all|, toBlock);
    var todo := Todo(all, fromBlock, toBlock, tip);
    assert forall i | 0 <= i < |todo| :: todo[i] == all[start + i] && todo[i].number == start + i;
    if start <= n < limit {
      assert todo[n - start] == all[n];
    }
  }

  /** Flushed groups that are the first blocks of a stretch leave the tip at the last of those. */
  lemma TipOfGroups(all: seq<PlanBlock>, start: nat, limit: nat, tip: nat, gs: seq<Group>, done: nat)
    requires Numbered(all) && gs != [] && gs[|gs| - 1] != []
    requires 0 < done <= |Blocks(all, start, limit)|
    requires Blocks(all, start, limit)[done - 1] == gs[|gs| - 1][|gs[|gs| - 1]| - 1]
    ensures TipAfter(tip, gs) == start + done - 1
  {
    assert Blocks(all, start, limit)[done - 1] == all[start + done - 1];
  }

  /** Flushing the first `k` runs leaves the tip at the last of their blocks. */
  lemma TipOfRuns(all: seq<PlanBlock>, start: nat, limit: nat, tip: nat, gs: seq<Group>, k: nat)
    requires Numbered(all) && MaximalRuns(gs, Blocks(all, start, limit)) && 0 < k <= |gs|
    ensures var done := |Flatten(gs[..k])|;
            0 < done <= |Blocks(all, start, limit)| && TipAfter(tip, gs[..k]) == start + done - 1
  {
    var todo := Blocks(all, start, limit);
    RestIsMaximal(gs, todo, k);
    PrefixEnds(gs, todo, k);
    var done := |Flatten(gs[..k])|;
    assert Flatten(gs[..k])[done - 1] == todo[done - 1];
    TipOfGroups(all, start, limit, tip, gs[..k], done);
  }

  /** A run from the tip the flushed runs leave has exactly the other runs to flush. */
  lemma ResumePoint(all: seq<PlanBlock>, fromBlock: nat, toBlock: Option<nat>, tip: nat, k: nat)
    requires Numbered(all) && k <= |Runs(Todo(all, fromBlock, toBlock, tip))|
    ensures var todo := Todo(all, fromBlock, toBlock, tip);
            Runs(Todo(all, fromBlock, toBlock, TipAfter(tip, Runs(todo)[..k]))) == Runs(todo)[k..]
  {
    var todo := Todo(all, fromBlock, toBlock, tip);
    var gs := Runs(todo);
    if k > 0 {
      RunsAreMaximal(todo);
      ResumedRuns(todo, k);
      TipOfRuns(all, Start(fromBlock, tip), Limit(|all|, toBlock), tip, gs, k);
      TodoAfter(all, fromBlock, toBlock, tip, |Flatten(gs[..k])|, TipAfter(tip, gs[..k]));
    } else {
      assert gs[..k] == [] && gs[k..] == gs;
    }
  }

  /** Whatever ended a run, what it flushed and what the next run would flush are together what it had
      to flush. */
  lemma FlushedThenRest(all: seq<PlanBlock>, fromBlock: nat, toBlock: Option<nat>, tip: nat, flushed: seq<Group>)
    requires Numbered(all) && flushed <= Runs(Todo(all, fromBlock, toBlock, tip))
    ensures flushed + Runs(Todo(all, fromBlock, toBlock, TipAfter(tip, flushed))) == Runs(Todo(all, fromBlock, toBlock, tip))
  {
    var runs, k := Runs(Todo(all, fromBlock, toBlock, tip)), |flushed|;
    assert runs[..k] == flushed;
    ResumePoint(all, fromBlock, toBlock, tip, k);
    assert runs[..k] + runs[k..] == runs;
  }

  lemma TodoAfter(all: seq<PlanBlock>, fromBlock: nat, toBlock: Option<nat>, tip: nat, done: nat, tip': nat)
    requires 0 < done <= |Todo(all, fromBlock, toBlock, tip)| && tip' == Start(fromBlock, tip) + done - 1
    ensures Todo(all, fromBlock, toBlock, tip') == Todo(all, fromBlock, toBlock, tip)[done..]
  {
    BlocksDrop(all, Start(fromBlock, tip), Limit(|all|, toBlock), done);
  }

  /** What a run that stops after `k` flushes executes. */
  ghost function FirstRuns(all: seq<PlanBlock>, fromBlock: nat, toBlock: Option<nat>, tip: nat, k: nat): seq<Group> {
    First(Runs(Todo(all, fromBlock, toBlock, tip)), k)
  }

  /** The first `k` groups, or all if there are fewer. */
  function First(gs: seq<Group>, k: nat): seq<Group> {
    if k <= |gs| then gs[..k] else gs
  }

  lemma FirstOf(gs: seq<Group>, flushed: seq<Group>)
    requires flushed <= gs
    ensures First(gs, |flushed|) == flushed
  {
  }

  /** The groups executed, and the tip left, by runs that stop after `ks[0]`, `ks[1]`, ... flushes. */
  ghost function Stopped(all: seq<PlanBlock>, fromBlock: nat, toBlock: Option<nat>, tip: nat, ks: seq<nat>): (seq<Group>, nat) {
    if ks == [] then ([], tip)
    else
      var before := Stopped(all, fromBlock, toBlock, tip, ks[..|ks| - 1]);
      var more := FirstRuns(all, fromBlock, toBlock, before.1, ks[|ks| - 1]);
      (before.0 + more, TipAfter(before.1, more))
  }

  /** However often it is stopped, what is executed and what the next run would execute are together
      what an uninterrupted run executes. */
  lemma {:induction false} StopsAreTransparent(all: seq<PlanBlock>, fromBlock: nat, toBlock: Option<nat>, tip: nat, ks: seq<nat>)
    requires Numbered(all)
    ensures var stopped := Stopped(all, fromBlock, toBlock, tip, ks);
            stopped.0 + Runs(Todo(all, fromBlock, toBlock, stopped.1)) == Runs(Todo(all, fromBlock, toBlock, tip))
  {
    if ks != [] {
      var init, k := ks[..|ks| - 1], ks[|ks| - 1];
      StopsAreTransparent(all, fromBlock, toBlock, tip, init);
      var before := Stopped(all, fromBlock, toBlock, tip, init);
      StopOnce(all, fromBlock, toBlock, before.1, k);
    }
  }

  lemma StopOnce(all: seq<PlanBlock>, fromBlock: nat, toBlock: Option<nat>, tip: nat, k: nat)
    requires Numbered(all)
    ensures var more := FirstRuns(all, fromBlock, toBlock, tip, k);
            more + Runs(Todo(all, fromBlock, toBlock, TipAfter(tip, more))) == Runs(Todo(all, fromBlock, toBlock, tip))
  {
    FlushedThenRest(all, fromBlock, toBlock, tip, FirstRuns(all, fromBlock, toBlock, tip, k));
  }

  /** One more run, which flushed the first of the groups it had to. */
  lemma StoppedAgain(all: seq<PlanBlock>, fromBlock: nat, toBlock: Option<nat>, tip: nat, ks: seq<nat>, flushed: seq<Group>)
    requires flushed <= Runs(Todo(all, fromBlock, toBlock, Stopped(all, fromBlock, toBlock, tip, ks).1))
    ensures var before := Stopped(all, fromBlock, toBlock, tip, ks);
            Stopped(all, fromBlock, toBlock, tip, ks + [|flushed|]) == (before.0 + flushed, TipAfter(before.1, flushed))
  {
    var before := Stopped(all, fromBlock, toBlock, tip, ks);
    FirstOf(Runs(Todo(all, fromBlock, toBlock, before.1)), flushed);
    assert FirstRuns(all, fromBlock, toBlock, before.1, |flushed|) == flushed;
    assert (ks + [|flushed|])[..|ks|] == ks;
  }

  /** Finishing at one target and going on to a later one is transparent exactly when the output
      changes at the first target; otherwise one output is executed in two parts. */
  lemma RaisedTarget(all: seq<PlanBlock>, fromBlock: nat, tip: nat, to: nat, later: nat)
    requires Numbered(all) && Start(fromBlock, tip) <= to < later < |all|
    ensures var first := Runs(Todo(all, fromBlock, Some(to), tip));
            first + Runs(Todo(all, fromBlock, Some(later), TipAfter(tip, first))) == Runs(Todo(all, fromBlock, Some(later), tip))
            <==> all[to].outputDigest != all[to + 1].outputDigest
  {
    TargetsMeet(all, fromBlock, tip, to, later);
    FinishedTip(all, Start(fromBlock, tip), to, tip);
    JoinsWhereOutputChanges(Todo(all, fromBlock, Some(to), tip), Todo(all, fromBlock, Some(later), to));
  }

  lemma TargetsMeet(all: seq<PlanBlock>, fromBlock: nat, tip: nat, to: nat, later: nat)
    requires Start(fromBlock, tip) <= to < later < |all|
    ensures var a, b := Todo(all, fromBlock, Some(to), tip), Todo(all, fromBlock, Some(later), to);
            && a == Blocks(all, Start(fromBlock, tip), to + 1)
            && a != [] && a[|a| - 1] == all[to] && b != [] && b[0] == all[to + 1]
            && Todo(all, fromBlock, Some(later), tip) == a + b
  {
    BlocksSplit(all, Start(fromBlock, tip), to + 1, later + 1);
  }

  lemma FinishedTip(all: seq<PlanBlock>, start: nat, to: nat, tip: nat)
    requires Numbered(all) && start <= to < |all|
    ensures TipAfter(tip, Runs(Blocks(all, start, to + 1))) == to
  {
    var a := Blocks(all, start, to + 1);
    RunsAreMaximal(a);
    LastRun(Runs(a), a);
  }
}
