/** The certifier's run loop, its proposal tasks and the certificate store, as a state machine
    whose steps interleave freely. */
module Certifier {
  import opened Tables

  type HeaderDigest = nat

  /** Two certificates of one header differ in who signed: same digest, different bytes. */
  datatype Certificate = Certificate(header: HeaderDigest, signers: nat)

  /** How far a proposal task has come. `Submitted`: the certificate manager holds the
      certificate and has not replied. `Accepted`: `process_own_certificate` returned. */
  datatype Phase =
    | Voting
    | Formed(cert: Certificate)
    | Submitted(cert: Certificate)
    | Accepted(cert: Certificate)
    | Finished

  /** `aborted`: cancelled by the run loop. A cancelled task may still take steps until it dies. */
  datatype Task = Task(digest: HeaderDigest, phase: Phase, aborted: bool)

  /** The node. `orphans` are certificates the manager still holds for tasks that died;
      `sent` lists the headers this incarnation of the certifier received. */
  datatype State = State(
    store: map<HeaderDigest, Certificate>,
    tasks: seq<Task>,
    inFlight: Option<nat>,
    orphans: set<Certificate>,
    published: set<Certificate>,
    sent: seq<HeaderDigest>,
    stopped: bool)

  datatype Step =
    | Header(digest: HeaderDigest, storeAnswers: bool)  // the proposer sends a header
    | Certify(task: nat, signers: nat)                  // enough votes arrived
    | GiveUp(task: nat)                                 // cancelled, or no certificate formed
    | Submit(task: nat)                                 // own certificate handed to the manager
    | Land(task: nat)                                   // the manager wrote it and replied
    | Refuse(task: nat)                                 // the manager replied an error, nothing written
    | Publish(task: nat)                                // handed to gossip
    | Die(task: nat)                                    // a cancelled task stops running
    | OrphanLands(cert: Certificate)
    | OrphanDropped(cert: Certificate)
    | Echo(cert: Certificate)                           // a peer sends a published certificate back
    | Shutdown
    | Restart(landed: seq<Certificate>, gossip: HeaderDigest)  // drained, then started afresh

  function InPhase(s: State, i: nat): Phase {
    if i < |s.tasks| then s.tasks[i].phase else Finished
  }

  function WithPhase(s: State, i: nat, p: Phase): State
    requires i < |s.tasks|
  {
    s.(tasks := s.tasks[i := s.tasks[i].(phase := p)])
  }

  function Write(s: State, c: Certificate): State {
    s.(store := s.store[c.header := c])
  }

  function AbortInFlight(s: State): seq<Task> {
    if s.inFlight.Some? && s.inFlight.value < |s.tasks|
    then s.tasks[s.inFlight.value := s.tasks[s.inFlight.value].(aborted := true)]
    else s.tasks
  }

  /** The header arm of the run loop. */
  function OnHeader(s: State, d: HeaderDigest, storeAnswers: bool): State {
    var s := s.(sent := s.sent + [d]);
    if s.stopped then s
    else if s.inFlight.Some? && s.inFlight.value < |s.tasks|
            && s.tasks[s.inFlight.value].digest == d && !s.tasks[s.inFlight.value].phase.Finished? then s
    else if !storeAnswers || d in s.store then s
    else s.(tasks := AbortInFlight(s) + [Task(d, Voting, false)], inFlight := Some(|s.tasks|))
  }

  /** The certificates the manager holds without having replied. */
  function Pending(s: State): set<Certificate> {
    s.orphans + set i | 0 <= i < |s.tasks| && s.tasks[i].phase.Submitted? :: s.tasks[i].phase.cert
  }

  /** Before a restart the manager is drained: each certificate it holds is written or lost. */
  function WriteAll(s: State, landed: seq<Certificate>): State
    decreases landed
  {
    if landed == [] then s
    else WriteAll(if landed[0] in Pending(s) then Write(s, landed[0]) else s, landed[1..])
  }

  function OnRestart(s: State, landed: seq<Certificate>, gossip: HeaderDigest): State {
    var store := WriteAll(s, landed).store;
    State(store, [], None, {},
          if gossip in store then s.published + {store[gossip]} else s.published,
          [], false)
  }

  /** A step that does not apply in a state leaves it as it is. */
  function Apply(s: State, step: Step): State {
    match step
    case Header(d, storeAnswers) => OnHeader(s, d, storeAnswers)
    case Certify(i, signers) =>
      if InPhase(s, i).Voting? then WithPhase(s, i, Formed(Certificate(s.tasks[i].digest, signers))) else s
    case GiveUp(i) =>
      if InPhase(s, i).Voting? then WithPhase(s, i, Finished) else s
    case Submit(i) =>
      if !InPhase(s, i).Formed? then s
      else if s.tasks[i].digest in s.store then WithPhase(s, i, Accepted(s.tasks[i].phase.cert))
      else WithPhase(s, i, Submitted(s.tasks[i].phase.cert))
    case Land(i) =>
      if InPhase(s, i).Submitted?
      then WithPhase(Write(s, s.tasks[i].phase.cert), i, Accepted(s.tasks[i].phase.cert)) else s
    case Refuse(i) =>
      if InPhase(s, i).Formed? || InPhase(s, i).Submitted? then WithPhase(s, i, Finished) else s
    case Publish(i) =>
      if InPhase(s, i).Accepted?
      then WithPhase(s, i, Finished).(published := s.published + {s.tasks[i].phase.cert}) else s
    case Die(i) =>
      if InPhase(s, i).Finished? || !s.tasks[i].aborted then s
      else if InPhase(s, i).Submitted?
      then WithPhase(s, i, Finished).(orphans := s.orphans + {s.tasks[i].phase.cert})
      else WithPhase(s, i, Finished)
    case OrphanLands(c) =>
      if c in s.orphans then Write(s, c).(orphans := s.orphans - {c}) else s
    case OrphanDropped(c) => s.(orphans := s.orphans - {c})
    case Echo(c) => if c in s.published && c.header !in s.store then Write(s, c) else s
    case Shutdown => s.(tasks := AbortInFlight(s), inFlight := None, stopped := true)
    case Restart(landed, gossip) => OnRestart(s, landed, gossip)
  }

  function Run(s: State, steps: seq<Step>): State {
    if steps == [] then s
    else Apply(Run(s, steps[..|steps| - 1]), steps[|steps| - 1])
  }

  const START := State(map[], [], None, {}, {}, [], false)

  // ----- The running code: the run loop and its shared state -----

  class RunLoop {
    var store: map<HeaderDigest, Certificate>
    var tasks: seq<Task>
    var inFlight: Option<nat>
    var orphans: set<Certificate>
    var published: set<Certificate>
    var sent: seq<HeaderDigest>
    var stopped: bool

    function View(): State
      reads this
    {
      State(store, tasks, inFlight, orphans, published, sent, stopped)
    }

    method AbortCurrent()
      modifies this`tasks
      ensures View() == old(View()).(tasks := AbortInFlight(old(View())))
    {
      if inFlight.Some? && inFlight.value < |tasks| {
        var i := inFlight.value;
        tasks := tasks[i := tasks[i].(aborted := true)];
      }
    }

    /** A header from the proposer: deduplicated against the proposal in flight and the store. */
    method Receive(d: HeaderDigest, storeAnswers: bool)
      modifies this
      ensures View() == Apply(old(View()), Header(d, storeAnswers))
    {
      sent := sent + [d];
      if stopped {
        return;
      }
      if inFlight.Some? && inFlight.value < |tasks| {
        var t := tasks[inFlight.value];
        if t.digest == d && !t.phase.Finished? {
          return;
        }
      }
      if !storeAnswers || d in store {
        return;
      }
      AbortCurrent();
      tasks, inFlight := tasks + [Task(d, Voting, false)], Some(|tasks|);
    }

    method Stop()
      modifies this
      ensures View() == Apply(old(View()), Shutdown)
    {
      AbortCurrent();
      inFlight, stopped := None, true;
    }
  }

  // ----- Safety -----

  /** Within one incarnation a digest is not sent again after a different one. */
  ghost predicate Disciplined(s: State, step: Step) {
    step.Header? && step.digest in s.sent ==> s.sent[|s.sent| - 1] == step.digest
  }

  ghost predicate DisciplinedRun(s: State, steps: seq<Step>) {
    forall i | 0 <= i < |steps| :: Disciplined(Run(s, steps[..i]), steps[i])
  }

  ghost predicate OnePublishedPerHeader(s: State) {
    forall c, c' | c in s.published && c' in s.published && c.header == c'.header :: c == c'
  }

  ghost predicate Live(s: State, i: nat) {
    i < |s.tasks| && !s.tasks[i].phase.Finished?
  }

  /** A task's certificate is of its header, and matches the store once accepted; a task not yet
      accepted has a header that is not stored. */
  ghost predicate TaskOk(s: State, i: nat)
    requires i < |s.tasks|
  {
    var t := s.tasks[i];
    && t.digest in s.sent
    && (t.phase.Formed? || t.phase.Submitted? || t.phase.Accepted? ==> t.phase.cert.header == t.digest)
    && (t.phase.Voting? || t.phase.Formed? || t.phase.Submitted? ==> t.digest !in s.store)
    && (t.phase.Accepted? ==> t.digest in s.store && s.store[t.digest] == t.phase.cert)
  }

  /** At most one live task works on a header. */
  ghost predicate Apart(s: State, i: nat, j: nat) {
    Live(s, i) && Live(s, j) && s.tasks[i].digest == s.tasks[j].digest ==> i == j
  }

  ghost predicate OrphanOk(s: State, c: Certificate) {
    && c.header in s.sent && c.header !in s.store
    && (forall c' | c' in s.orphans && c'.header == c.header :: c' == c)
    && (forall i: nat | Live(s, i) :: s.tasks[i].digest != c.header)
  }

  ghost predicate IsLatest(s: State, d: HeaderDigest) {
    !s.stopped && s.sent != [] && s.sent[|s.sent| - 1] == d
  }

  /** The header sent last is only worked on by the proposal in flight. */
  ghost predicate LatestOk(s: State, i: nat) {
    Live(s, i) && IsLatest(s, s.tasks[i].digest) ==> s.inFlight == Some(i) && !s.tasks[i].aborted
  }

  ghost predicate StoreOk(s: State) {
    && (forall c | c in s.published :: c.header in s.store && s.store[c.header] == c)
    && (forall d | d in s.store :: s.store[d].header == d)
  }

  ghost predicate Inv(s: State) {
    && StoreOk(s)
    && (forall i: nat | i < |s.tasks| :: TaskOk(s, i) && LatestOk(s, i))
    && (forall i: nat, j: nat :: Apart(s, i, j))
    && (forall c | c in s.orphans :: OrphanOk(s, c) && !IsLatest(s, c.header))
    && (s.inFlight.Some? ==> s.inFlight.value < |s.tasks|)
  }

  /** A live task's step: its phase changes, its certificate may reach the store, or stay with the
      manager when that task dies. */
  lemma PhaseStep(s: State, i: nat, s': State)
    requires Inv(s) && Live(s, i)
    requires |s'.tasks| == |s.tasks| && s'.tasks == s.tasks[i := s.tasks[i].(phase := s'.tasks[i].phase)]
    requires s'.inFlight == s.inFlight && s'.sent == s.sent && s'.stopped == s.stopped
    requires TaskOk(s', i) && StoreOk(s')
    requires s'.store == s.store ||
             (s.tasks[i].digest !in s.store && s'.store.Keys == s.store.Keys + {s.tasks[i].digest}
              && forall d | d in s.store :: s'.store[d] == s.store[d])
    requires s'.orphans == s.orphans ||
             (&& s'.tasks[i].phase.Finished? && s.tasks[i].aborted && s.tasks[i].phase.Submitted?
              && s'.store == s.store && s'.orphans == s.orphans + {s.tasks[i].phase.cert})
    ensures Inv(s')
  {
    assert TaskOk(s, i) && LatestOk(s, i);
    forall j: nat | j < |s'.tasks| ensures TaskOk(s', j) && LatestOk(s', j) {
      assert TaskOk(s, j) && LatestOk(s, j);
      assert Apart(s, i, j);
    }
    forall j: nat, k: nat ensures Apart(s', j, k) {
      assert Apart(s, j, k);
    }
    forall c | c in s'.orphans ensures OrphanOk(s', c) && !IsLatest(s', c.header) {
      if c in s.orphans {
        assert OrphanOk(s, c);
      }
      assert forall j: nat | Live(s', j) :: Live(s, j) && Apart(s, i, j);
      assert forall c' | c' in s.orphans :: OrphanOk(s, c');
    }
  }

  lemma TaskStepKeepsInv(s: State, step: Step, i: nat)
    requires Inv(s)
    requires step in {GiveUp(i), Submit(i), Land(i), Refuse(i), Publish(i), Die(i)}
             || (step.Certify? && step.task == i)
    ensures Inv(Apply(s, step))
  {
    if Live(s, i) {
      assert TaskOk(s, i);
      if Apply(s, step) != s {
        PhaseStep(s, i, Apply(s, step));
      }
    }
  }

  lemma HeaderKeepsInv(s: State, d: HeaderDigest, storeAnswers: bool)
    requires Inv(s) && Disciplined(s, Header(d, storeAnswers))
    ensures Inv(OnHeader(s, d, storeAnswers))
  {
    var s' := OnHeader(s, d, storeAnswers);
    forall i: nat | i < |s'.tasks| ensures TaskOk(s', i) && LatestOk(s', i) {
      if i < |s.tasks| {
        assert TaskOk(s, i) && LatestOk(s, i);
      }
    }
    forall i: nat, j: nat ensures Apart(s', i, j) {
      assert Apart(s, i, j);
      if i < |s.tasks| {
        assert TaskOk(s, i) && LatestOk(s, i);
      }
      if j < |s.tasks| {
        assert TaskOk(s, j) && LatestOk(s, j);
      }
    }
    forall c | c in s'.orphans ensures OrphanOk(s', c) && !IsLatest(s', c.header) {
      assert OrphanOk(s, c);
    }
  }

  lemma StoreStepKeepsInv(s: State, step: Step)
    requires Inv(s) && (step.OrphanLands? || step.OrphanDropped? || step.Echo? || step.Shutdown?)
    ensures Inv(Apply(s, step))
  {
    var s' := Apply(s, step);
    forall i: nat | i < |s'.tasks| ensures TaskOk(s', i) && LatestOk(s', i) {
      assert TaskOk(s, i) && LatestOk(s, i);
      if step.OrphanLands? && step.cert in s.orphans {
        assert OrphanOk(s, step.cert);
      }
    }
    forall i: nat, j: nat ensures Apart(s', i, j) {
      assert Apart(s, i, j);
    }
    forall c | c in s'.orphans ensures OrphanOk(s', c) && !IsLatest(s', c.header) {
      assert OrphanOk(s, c);
    }
    if step.OrphanLands? && step.cert in s.orphans {
      assert OrphanOk(s, step.cert);
    }
  }

  /** A certificate the manager holds is the only one held for its header, which is not stored. */
  ghost predicate OnlyPending(s: State, c: Certificate) {
    c.header !in s.store && forall c' | c' in Pending(s) && c'.header == c.header :: c' == c
  }

  lemma SubmittedIsOnlyPending(s: State, i: nat)
    requires Inv(s) && i < |s.tasks| && s.tasks[i].phase.Submitted?
    ensures OnlyPending(s, s.tasks[i].phase.cert)
    ensures forall o | o in s.orphans :: o.header != s.tasks[i].digest
  {
    assert TaskOk(s, i) && Live(s, i);
    assert forall o | o in s.orphans :: OrphanOk(s, o);
    assert forall o | o in s.orphans :: o.header != s.tasks[i].digest;
    forall c' | c' in Pending(s) && c' !in s.orphans && c'.header == s.tasks[i].digest
      ensures c' == s.tasks[i].phase.cert
    {
      var j: nat :| j < |s.tasks| && s.tasks[j].phase.Submitted? && s.tasks[j].phase.cert == c';
      assert TaskOk(s, j) && Live(s, j) && Apart(s, i, j);
    }
  }

  lemma PendingUnstored(s: State, c: Certificate)
    requires Inv(s) && c in Pending(s)
    ensures OnlyPending(s, c)
  {
    if i: nat :| i < |s.tasks| && s.tasks[i].phase.Submitted? && s.tasks[i].phase.cert == c {
      SubmittedIsOnlyPending(s, i);
    } else {
      assert OrphanOk(s, c);
      assert forall j: nat | j < |s.tasks| :: TaskOk(s, j) && (s.tasks[j].phase.Submitted? ==> Live(s, j));
    }
  }

  /** What the drained manager may have written: certificates it held, over unstored headers. */
  ghost predicate DrainedFrom(s: State, store: map<HeaderDigest, Certificate>) {
    && (forall d | d in s.store :: d in store && store[d] == s.store[d])
    && (forall d | d in store && d !in s.store :: store[d] in Pending(s) && store[d].header == d)
  }

  lemma {:induction false} DrainKeepsStore(s: State, r: State, landed: seq<Certificate>)
    requires Inv(s) && DrainedFrom(s, r.store) && r == s.(store := r.store)
    ensures DrainedFrom(s, WriteAll(r, landed).store)
    decreases landed
  {
    if landed != [] {
      assert Pending(r) == Pending(s);
      if landed[0] in Pending(s) {
        PendingUnstored(s, landed[0]);
      }
      DrainKeepsStore(s, if landed[0] in Pending(r) then Write(r, landed[0]) else r, landed[1..]);
    }
  }

  lemma RestartKeepsInv(s: State, landed: seq<Certificate>, gossip: HeaderDigest)
    requires Inv(s)
    ensures Inv(OnRestart(s, landed, gossip))
  {
    DrainKeepsStore(s, s, landed);
  }

  lemma ApplyKeepsInv(s: State, step: Step)
    requires Inv(s) && Disciplined(s, step)
    ensures Inv(Apply(s, step))
  {
    match step
    case Header(d, storeAnswers) => HeaderKeepsInv(s, d, storeAnswers);
    case Restart(landed, gossip) => RestartKeepsInv(s, landed, gossip);
    case OrphanLands(_) => StoreStepKeepsInv(s, step);
    case OrphanDropped(_) => StoreStepKeepsInv(s, step);
    case Echo(_) => StoreStepKeepsInv(s, step);
    case Shutdown => StoreStepKeepsInv(s, step);
    case _ => TaskStepKeepsInv(s, step, step.task);
  }

  lemma {:induction false} RunKeepsInv(s: State, steps: seq<Step>)
    requires Inv(s) && DisciplinedRun(s, steps)
    ensures Inv(Run(s, steps))
  {
    if steps != [] {
      var n := |steps| - 1;
      forall i | 0 <= i < n ensures Disciplined(Run(s, steps[..n][..i]), steps[..n][i]) {
        assert steps[..n][..i] == steps[..i];
      }
      RunKeepsInv(s, steps[..n]);
      ApplyKeepsInv(Run(s, steps[..n]), steps[n]);
    }
  }

  /** In every interleaving of headers, task steps, cancellations, store errors and restarts, at
      most one certificate per header is ever handed to gossip. */
  lemma OneCertificatePerHeader(steps: seq<Step>)
    requires DisciplinedRun(START, steps)
    ensures OnePublishedPerHeader(Run(START, steps))
  {
    RunKeepsInv(START, steps);
  }

  /** The store holds every published certificate, so a header that was published is refused. */
  lemma PublishedIsRefused(s: State, c: Certificate, storeAnswers: bool)
    requires Inv(s) && c in s.published
    ensures OnHeader(s, c.header, storeAnswers).tasks == s.tasks
  {
  }

  // ----- What every run keeps, whatever is sent -----

  /** Only the proposal in flight runs without having been cancelled. */
  ghost predicate OneRuns(s: State) {
    && (s.inFlight.Some? ==> !s.stopped && s.inFlight.value < |s.tasks| && !s.tasks[s.inFlight.value].aborted)
    && forall i: nat | Live(s, i) && !s.tasks[i].aborted :: s.inFlight == Some(i)
  }

  lemma OneRunsTask(s: State, s': State)
    requires OneRuns(s) && s'.inFlight == s.inFlight && s'.stopped == s.stopped && |s'.tasks| == |s.tasks|
    requires forall i: nat | i < |s.tasks| :: s'.tasks[i].aborted == s.tasks[i].aborted && (Live(s', i) ==> Live(s, i))
    ensures OneRuns(s')
  {
  }

  lemma TaskStepKeeps(s: State, step: Step, i: nat)
    requires !step.Header? && !step.Shutdown? && !step.Restart? && i < |s.tasks|
    ensures var s' := Apply(s, step);
            && s'.inFlight == s.inFlight && s'.stopped == s.stopped && |s'.tasks| == |s.tasks|
            && s'.tasks[i].aborted == s.tasks[i].aborted && (Live(s', i) ==> Live(s, i))
  {
  }

  lemma OneRunsHeader(s: State, d: HeaderDigest, storeAnswers: bool)
    requires OneRuns(s)
    ensures OneRuns(OnHeader(s, d, storeAnswers))
  {
    var s' := OnHeader(s, d, storeAnswers);
    forall i: nat | Live(s', i) && !s'.tasks[i].aborted
      ensures s'.inFlight == Some(i)
    {
      assert i < |s.tasks| ==> Live(s, i);
    }
  }

  lemma OneRunsShutdown(s: State)
    requires OneRuns(s)
    ensures OneRuns(Apply(s, Shutdown))
  {
    var s' := Apply(s, Shutdown);
    forall i: nat | Live(s', i)
      ensures s'.tasks[i].aborted
    {
      assert Live(s, i);
    }
  }

  lemma OneRunsStep(s: State, step: Step)
    requires OneRuns(s)
    ensures OneRuns(Apply(s, step))
  {
    match step
    case Header(d, storeAnswers) => OneRunsHeader(s, d, storeAnswers);
    case Shutdown => OneRunsShutdown(s);
    case Restart(_, _) =>
    case _ =>
      forall i: nat | i < |s.tasks| {
        TaskStepKeeps(s, step, i);
      }
      if s.tasks != [] {
        OneRunsTask(s, Apply(s, step));
      }
  }

  /** In every interleaving, headers sent again included, at most one proposal runs uncancelled: the one
      in flight. */
  lemma {:induction false} OneRunsOverRuns(steps: seq<Step>)
    ensures OneRuns(Run(START, steps))
  {
    if steps != [] {
      OneRunsOverRuns(steps[..|steps| - 1]);
      OneRunsStep(Run(START, steps[..|steps| - 1]), steps[|steps| - 1]);
    }
  }

  /** An uncancelled, unfinished proposal of the header is under way. */
  ghost predicate Proposing(s: State, d: HeaderDigest) {
    exists i: nat | Live(s, i) :: !s.tasks[i].aborted && s.tasks[i].digest == d
  }

  /** The header is accepted: the loop runs, the store answers that it has no certificate of it, and it is
      not being proposed already. */
  ghost predicate Starts(s: State, d: HeaderDigest, storeAnswers: bool) {
    !s.stopped && storeAnswers && d !in s.store && !Proposing(s, d)
  }

  lemma InFlightIsProposed(s: State, d: HeaderDigest)
    requires OneRuns(s)
    ensures Proposing(s, d) <==>
            s.inFlight.Some? && s.tasks[s.inFlight.value].digest == d && !s.tasks[s.inFlight.value].phase.Finished?
  {
    if s.inFlight.Some? && !s.tasks[s.inFlight.value].phase.Finished? {
      assert Live(s, s.inFlight.value);
    }
  }

  /** A header that is accepted is the one proposed from then on, in place of any other; one that is not
      changes no proposal. */
  lemma HeaderDecides(s: State, d: HeaderDigest, storeAnswers: bool, e: HeaderDigest)
    requires OneRuns(s)
    ensures Proposing(OnHeader(s, d, storeAnswers), e) <==> if Starts(s, d, storeAnswers) then e == d else Proposing(s, e)
  {
    InFlightIsProposed(s, d);
    InFlightIsProposed(s, e);
    OneRunsHeader(s, d, storeAnswers);
    InFlightIsProposed(OnHeader(s, d, storeAnswers), e);
  }

  /** The step ends task `i`: given up, refused, published, or dead once cancelled. */
  ghost predicate Ends(s: State, step: Step, i: nat) {
    match step
    case GiveUp(j) => j == i && InPhase(s, i) == Voting
    case Refuse(j) => j == i && (InPhase(s, i).Formed? || InPhase(s, i).Submitted?)
    case Publish(j) => j == i && InPhase(s, i).Accepted?
    case Die(j) => j == i && Live(s, i) && s.tasks[i].aborted
    case _ => false
  }

  /** A task is over exactly after a step that ends it, and stays over until a restart. */
  lemma OverIffEnded(s: State, step: Step, i: nat)
    requires i < |s.tasks| && !step.Restart?
    ensures Live(Apply(s, step), i) <==> Live(s, i) && !Ends(s, step, i)
  {
  }

  /** The manager has the certificate and has not replied, to a task or to one that died. */
  ghost predicate Holds(s: State, c: Certificate) {
    c in s.orphans || exists i: nat | i < |s.tasks| :: s.tasks[i].phase == Submitted(c)
  }

  ghost predicate IsStored(s: State, c: Certificate) {
    c.header in s.store && s.store[c.header] == c
  }

  /** The step is one by which the manager gives a certificate up. */
  ghost predicate GivesUp(s: State, step: Step, c: Certificate) {
    || step == OrphanDropped(c)
    || (step.Refuse? && InPhase(s, step.task) == Submitted(c))
    || step.Restart?
  }

  lemma PendingIsHeld(s: State, c: Certificate)
    ensures c in Pending(s) <==> Holds(s, c)
  {
  }

  lemma OrphanStays(s: State, step: Step, c: Certificate)
    requires c in s.orphans && step != OrphanDropped(c) && !step.Restart?
    ensures c in Apply(s, step).orphans || (step == OrphanLands(c) && IsStored(Apply(s, step), c))
  {
  }

  lemma SubmittedStays(s: State, step: Step, i: nat, c: Certificate)
    requires i < |s.tasks| && s.tasks[i].phase == Submitted(c) && step != Refuse(i) && !step.Restart?
    ensures var s' := Apply(s, step);
            || (i < |s'.tasks| && s'.tasks[i].phase == Submitted(c)) || c in s'.orphans
            || (step == Land(i) && IsStored(s', c))
  {
  }

  /** A certificate the manager holds stays with it, though its task dies, until it is stored, refused or
      dropped. */
  lemma HeldUntilDecided(s: State, step: Step, c: Certificate)
    requires Holds(s, c) && !GivesUp(s, step, c)
    ensures Holds(Apply(s, step), c) || ((step.Land? || step.OrphanLands?) && IsStored(Apply(s, step), c))
  {
    if c in s.orphans {
      OrphanStays(s, step, c);
    } else {
      var i: nat :| i < |s.tasks| && s.tasks[i].phase == Submitted(c);
      SubmittedStays(s, step, i, c);
    }
  }

  /** Draining writes, of the certificates listed, those the manager holds, and nothing else. */
  lemma {:induction false} DrainWrites(s: State, landed: seq<Certificate>, d: HeaderDigest)
    ensures d in WriteAll(s, landed).store <==> d in s.store || exists c | c in landed :: c.header == d && Holds(s, c)
    decreases landed
  {
    if landed != [] {
      var s' := if landed[0] in Pending(s) then Write(s, landed[0]) else s;
      PendingIsHeld(s, landed[0]);
      DrainWrites(s', landed[1..], d);
      assert forall c :: Holds(s', c) <==> Holds(s, c);
      assert landed == [landed[0]] + landed[1..];
    }
  }

  ghost predicate StoreKeyed(s: State) {
    forall d | d in s.store :: s.store[d].header == d
  }

  lemma {:induction false} DrainKeepsKeys(s: State, landed: seq<Certificate>)
    requires StoreKeyed(s)
    ensures StoreKeyed(WriteAll(s, landed))
    decreases landed
  {
    if landed != [] {
      DrainKeepsKeys(if landed[0] in Pending(s) then Write(s, landed[0]) else s, landed[1..]);
    }
  }

  /** A restart forgets tasks and orphans; of the certificates the manager held, those that land are
      stored, and exactly the stored one of the republished header is handed to gossip. */
  lemma RestartRecovers(s: State, landed: seq<Certificate>, gossip: HeaderDigest)
    requires StoreKeyed(s)
    ensures var s' := Apply(s, Restart(landed, gossip));
            && (forall d :: d in s'.store <==> d in s.store || exists c | c in landed :: c.header == d && Holds(s, c))
            && (forall c :: c in s'.published <==> c in s.published || (c.header == gossip && IsStored(s', c)))
            && s' == State(s'.store, [], None, {}, s'.published, [], false)
  {
    forall d {
      DrainWrites(s, landed, d);
    }
    DrainKeepsKeys(s, landed);
  }
}
