/** Exactly which header streams the certifier answers with one certificate per header. */
module HeaderStreams {
  import opened Tables
  import opened Certifier

  /** What the proposer and the node's restarts contribute to an interleaving. */
  datatype Arrival = Sent(digest: HeaderDigest) | Restarted

  function ArrivalsOf(step: Step): seq<Arrival> {
    match step
    case Header(d, _) => [Sent(d)]
    case Restart(_, _) => [Restarted]
    case _ => []
  }

  function Arrivals(steps: seq<Step>): seq<Arrival> {
    if steps == [] then [] else Arrivals(steps[..|steps| - 1]) + ArrivalsOf(steps[|steps| - 1])
  }

  /** The headers sent since the last restart. */
  function Since(arrivals: seq<Arrival>): seq<HeaderDigest> {
    if arrivals == [] || arrivals[|arrivals| - 1].Restarted? then []
    else Since(arrivals[..|arrivals| - 1]) + [arrivals[|arrivals| - 1].digest]
  }

  /** The arrival is not a header sent before with a different one after it. */
  predicate Follows(sent: seq<HeaderDigest>, a: Arrival) {
    a.Sent? && a.digest in sent ==> sent[|sent| - 1] == a.digest
  }

  predicate OrderlyAt(arrivals: seq<Arrival>, j: nat)
    requires j < |arrivals|
  {
    Follows(Since(arrivals[..j]), arrivals[j])
  }

  /** Between restarts no header is sent again after a different one. */
  predicate Orderly(arrivals: seq<Arrival>) {
    forall j | 0 <= j < |arrivals| :: OrderlyAt(arrivals, j)
  }

  // ----- Orderly streams are safe -----

  lemma RunMore(s: State, steps: seq<Step>, step: Step)
    ensures Run(s, steps + [step]) == Apply(Run(s, steps), step)
  {
    assert (steps + [step])[..|steps|] == steps;
  }

  lemma ArrivalsMore(steps: seq<Step>, step: Step)
    ensures Arrivals(steps + [step]) == Arrivals(steps) + ArrivalsOf(step)
  {
    assert (steps + [step])[..|steps|] == steps;
  }

  /** A step that is neither a header nor a restart arrives as nothing. */
  lemma QuietStep(s: State, steps: seq<Step>, step: Step)
    requires ArrivalsOf(step) == []
    ensures Run(s, steps + [step]) == Apply(Run(s, steps), step) && Arrivals(steps + [step]) == Arrivals(steps)
  {
    RunMore(s, steps, step);
    ArrivalsMore(steps, step);
    assert Arrivals(steps) + [] == Arrivals(steps);
  }

  lemma SinceMore(arrivals: seq<Arrival>, a: Arrival)
    ensures Since(arrivals + [a]) == if a.Restarted? then [] else Since(arrivals) + [a.digest]
  {
    assert (arrivals + [a])[..|arrivals|] == arrivals;
  }

  lemma SentStep(s: State, step: Step, before: seq<Arrival>)
    requires s.sent == Since(before)
    ensures Apply(s, step).sent == Since(before + ArrivalsOf(step))
  {
    match step
    case Header(d, _) => SinceMore(before, Sent(d));
    case Restart(_, _) => SinceMore(before, Restarted);
    case _ => assert before + [] == before;
  }

  lemma {:induction false} SentIsSince(steps: seq<Step>)
    ensures Run(START, steps).sent == Since(Arrivals(steps))
  {
    if steps != [] {
      var init, step := steps[..|steps| - 1], steps[|steps| - 1];
      SentIsSince(init);
      SentStep(Run(START, init), step, Arrivals(init));
    }
  }

  lemma {:induction false} ArrivalsGrow(steps: seq<Step>, i: nat)
    requires i <= |steps|
    ensures Arrivals(steps[..i]) <= Arrivals(steps)
  {
    if i == |steps| {
      assert steps[..i] == steps;
    } else {
      var n := |steps| - 1;
      ArrivalsGrow(steps[..n], i);
      assert steps[..n][..i] == steps[..i];
    }
  }

  lemma NextArrival(steps: seq<Step>, i: nat)
    requires i < |steps| && steps[i].Header?
    ensures var before := Arrivals(steps[..i]);
            |before| < |Arrivals(steps)| && Arrivals(steps)[..|before|] == before
            && Arrivals(steps)[|before|] == Sent(steps[i].digest)
  {
    assert steps[..i + 1] == steps[..i] + [steps[i]];
    ArrivalsMore(steps[..i], steps[i]);
    ArrivalsGrow(steps, i + 1);
  }

  lemma OrderlyIsDisciplined(steps: seq<Step>, i: nat)
    requires i < |steps| && Orderly(Arrivals(steps))
    ensures Disciplined(Run(START, steps[..i]), steps[i])
  {
    if steps[i].Header? {
      NextArrival(steps, i);
      assert OrderlyAt(Arrivals(steps), |Arrivals(steps[..i])|);
      SentIsSince(steps[..i]);
    }
  }

  // ----- Others are not -----

  /** The interleaving in which nothing happens but the arrivals, with the store answering. */
  function PlainStep(a: Arrival): Step {
    if a.Sent? then Header(a.digest, true) else Restart([], 0)
  }

  function Plain(arrivals: seq<Arrival>): seq<Step> {
    if arrivals == [] then [] else Plain(arrivals[..|arrivals| - 1]) + [PlainStep(arrivals[|arrivals| - 1])]
  }

  lemma PlainStepArrives(a: Arrival)
    ensures ArrivalsOf(PlainStep(a)) == [a]
  {
  }

  lemma {:induction false} PlainArrives(arrivals: seq<Arrival>)
    ensures Arrivals(Plain(arrivals)) == arrivals
  {
    if arrivals != [] {
      var init, a := arrivals[..|arrivals| - 1], arrivals[|arrivals| - 1];
      PlainArrives(init);
      ArrivalsMore(Plain(init), PlainStep(a));
      PlainStepArrives(a);
      assert init + [a] == arrivals;
    }
  }

  ghost predicate LastInFlight(s: State, t: Task) {
    && s.sent != [] && s.inFlight.Some? && s.inFlight.value < |s.tasks| && s.tasks[s.inFlight.value] == t
    && t.digest == s.sent[|s.sent| - 1] && !t.phase.Finished?
  }

  /** The header sent last is being voted on, and nothing has been stored. */
  ghost predicate VotingOnLast(s: State) {
    && s.store == map[] && !s.stopped && s.published == {}
    && if s.sent == [] then s == START else LastInFlight(s, Task(s.sent[|s.sent| - 1], Voting, false))
  }

  lemma VotesStep(s: State, a: Arrival)
    requires VotingOnLast(s)
    ensures VotingOnLast(Apply(s, PlainStep(a)))
  {
  }

  lemma {:induction false} PlainVotes(arrivals: seq<Arrival>)
    ensures VotingOnLast(Run(START, Plain(arrivals)))
  {
    if arrivals != [] {
      var init, a := arrivals[..|arrivals| - 1], arrivals[|arrivals| - 1];
      PlainVotes(init);
      VotesStep(Run(START, Plain(init)), a);
      RunMore(START, Plain(init), PlainStep(a));
    }
  }

  /** Task `t` has its certificate with the manager, nothing is stored, and the header sent last is in
      flight. */
  ghost predicate Holding(s: State, t: nat, c: Certificate) {
    && s.store == map[] && !s.stopped
    && t < |s.tasks| && s.tasks[t].digest == c.header && s.tasks[t].phase == Submitted(c)
    && exists i: nat | i < |s.tasks| :: LastInFlight(s, s.tasks[i])
  }

  lemma HoldStep(s: State, t: nat, c: Certificate, d: HeaderDigest)
    requires Holding(s, t, c)
    ensures Holding(Apply(s, Header(d, true)), t, c)
  {
    var s' := Apply(s, Header(d, true));
    assert LastInFlight(s', s'.tasks[s'.inFlight.value]);
  }

  lemma {:induction false} PlainHolds(s: State, t: nat, c: Certificate, more: seq<Arrival>)
    requires Holding(s, t, c) && forall a | a in more :: a.Sent?
    ensures Holding(Run(s, Plain(more)), t, c)
  {
    if more != [] {
      var init, a := more[..|more| - 1], more[|more| - 1];
      PlainHolds(s, t, c, init);
      assert a in more;
      HoldStep(Run(s, Plain(init)), t, c, a.digest);
      RunMore(s, Plain(init), PlainStep(a));
    }
  }

  lemma GrowStep(s: State, step: Step)
    ensures s.published <= Apply(s, step).published
  {
  }

  lemma {:induction false} PublishedGrows(s: State, steps: seq<Step>)
    ensures s.published <= Run(s, steps).published
  {
    if steps != [] {
      PublishedGrows(s, steps[..|steps| - 1]);
      GrowStep(Run(s, steps[..|steps| - 1]), steps[|steps| - 1]);
    }
  }

  /** Where a header was sent last, with no restart since. */
  lemma {:induction false} LastSent(arrivals: seq<Arrival>, d: HeaderDigest) returns (k: nat)
    requires d in Since(arrivals)
    ensures k < |arrivals| && arrivals[k] == Sent(d)
    ensures forall a | a in arrivals[k + 1..] :: a.Sent?
  {
    var n := |arrivals| - 1;
    if arrivals[n] == Sent(d) {
      k := n;
    } else {
      k := LastSent(arrivals[..n], d);
      assert arrivals[k + 1..] == arrivals[..n][k + 1..] + [arrivals[n]];
    }
  }

  lemma SplitAt<T>(s: seq<T>, k: nat)
    requires k < |s|
    ensures s[..k] + [s[k]] + s[k + 1..] == s
  {
  }

  lemma Associates<T>(a: seq<T>, b: seq<T>, c: seq<T>)
    ensures a + b + c == a + (b + c)
  {
  }

  lemma {:induction false} RunJoin(s: State, a: seq<Step>, b: seq<Step>)
    ensures Run(s, a + b) == Run(Run(s, a), b)
  {
    if b == [] {
      assert a + b == a;
    } else {
      var n := |b| - 1;
      RunJoin(s, a, b[..n]);
      assert (a + b)[..|a + b| - 1] == a + b[..n];
    }
  }

  lemma {:induction false} ArrivalsJoin(a: seq<Step>, b: seq<Step>)
    ensures Arrivals(a + b) == Arrivals(a) + Arrivals(b)
  {
    if b == [] {
      assert a + b == a;
    } else {
      var init, step := b[..|b| - 1], b[|b| - 1];
      ArrivalsJoin(a, init);
      Associates(a, init, [step]);
      assert init + [step] == b;
      ArrivalsMore(a + init, step);
      Associates(Arrivals(a), Arrivals(init), ArrivalsOf(step));
    }
  }

  /** Two interleavings one after the other. */
  lemma Joined(s: State, a: seq<Step>, b: seq<Step>)
    ensures Run(s, a + b) == Run(Run(s, a), b) && Arrivals(a + b) == Arrivals(a) + Arrivals(b)
  {
    RunJoin(s, a, b);
    ArrivalsJoin(a, b);
  }

  const FIRST: nat := 10
  const SECOND: nat := 20

  /** The certificate of the proposal in flight is formed and handed to the manager. */
  lemma CertifyInFlight(s: State) returns (steps: seq<Step>)
    requires VotingOnLast(s) && s.sent != []
    ensures Arrivals(steps) == [] && Run(s, steps).sent == s.sent
    ensures Holding(Run(s, steps), s.inFlight.value, Certificate(s.sent[|s.sent| - 1], FIRST))
  {
    var t := s.inFlight.value;
    steps := TwoSteps(s, Certify(t, FIRST), Submit(t));
    CertifiedHolds(s, t);
  }

  lemma TwoSteps(s: State, x: Step, y: Step) returns (steps: seq<Step>)
    requires ArrivalsOf(x) == ArrivalsOf(y) == []
    ensures Arrivals(steps) == [] && Run(s, steps) == Apply(Apply(s, x), y)
  {
    var one := [] + [x];
    QuietStep(s, [], x);
    QuietStep(s, one, y);
    steps := one + [y];
  }

  lemma CertifiedHolds(s: State, t: nat)
    requires VotingOnLast(s) && s.sent != [] && t == s.inFlight.value
    ensures var s' := Apply(Apply(s, Certify(t, FIRST)), Submit(t));
            s'.sent == s.sent && Holding(s', t, Certificate(s.sent[|s.sent| - 1], FIRST))
  {
    var formed := Apply(s, Certify(t, FIRST));
    assert formed.tasks[t].phase == Formed(Certificate(s.sent[|s.sent| - 1], FIRST));
    var s' := Apply(formed, Submit(t));
    assert LastInFlight(s', s'.tasks[t]);
  }

  /** A second attempt starts at a header whose first attempt the manager still holds. */
  lemma SecondAttempt(s: State, t: nat, d: HeaderDigest)
    requires Holding(s, t, Certificate(d, FIRST)) && s.sent[|s.sent| - 1] != d
    ensures var s' := Apply(s, Header(d, true));
            && |s'.tasks| == |s.tasks| + 1 && s'.tasks[|s.tasks|] == Task(d, Voting, false)
            && s'.tasks[t].phase == Submitted(Certificate(d, FIRST))
  {
  }

  /** The first attempt's certificate is stored and published, and the second attempt, already past
      the lookup, publishes its own. */
  lemma FinishBoth(s: State, t: nat, u: nat, d: HeaderDigest) returns (steps: seq<Step>)
    requires t < |s.tasks| && u < |s.tasks| && t != u
    requires s.tasks[t].phase == Submitted(Certificate(d, FIRST)) && s.tasks[u] == Task(d, Voting, false)
    ensures Arrivals(steps) == []
    ensures Certificate(d, FIRST) in Run(s, steps).published && Certificate(d, SECOND) in Run(s, steps).published
  {
    var first := FinishFirst(s, t, u, d);
    var second := FinishSecond(Run(s, first), u, d);
    steps := first + second;
    Joined(s, first, second);
    PublishedGrows(Run(s, first), second);
  }

  lemma FirstPublishes(s: State, t: nat, u: nat, d: HeaderDigest)
    requires t < |s.tasks| && u < |s.tasks| && t != u && s.tasks[t].phase == Submitted(Certificate(d, FIRST))
    ensures var s' := Apply(Apply(s, Land(t)), Publish(t));
            |s'.tasks| == |s.tasks| && s'.tasks[u] == s.tasks[u] && d in s'.store && Certificate(d, FIRST) in s'.published
  {
  }

  lemma SecondPublishes(s: State, u: nat, d: HeaderDigest)
    requires u < |s.tasks| && s.tasks[u] == Task(d, Voting, false) && d in s.store
    ensures Certificate(d, SECOND) in Apply(Apply(Apply(s, Certify(u, SECOND)), Submit(u)), Publish(u)).published
  {
    var formed := Apply(s, Certify(u, SECOND));
    assert formed.tasks[u] == Task(d, Formed(Certificate(d, SECOND)), false) && formed.store == s.store;
    assert Apply(formed, Submit(u)).tasks[u].phase == Accepted(Certificate(d, SECOND));
  }

  lemma FinishFirst(s: State, t: nat, u: nat, d: HeaderDigest) returns (steps: seq<Step>)
    requires t < |s.tasks| && u < |s.tasks| && t != u && s.tasks[t].phase == Submitted(Certificate(d, FIRST))
    ensures Arrivals(steps) == []
    ensures var s' := Run(s, steps);
            |s'.tasks| == |s.tasks| && s'.tasks[u] == s.tasks[u] && d in s'.store && Certificate(d, FIRST) in s'.published
  {
    steps := TwoSteps(s, Land(t), Publish(t));
    FirstPublishes(s, t, u, d);
  }

  lemma FinishSecond(s: State, u: nat, d: HeaderDigest) returns (steps: seq<Step>)
    requires u < |s.tasks| && s.tasks[u] == Task(d, Voting, false) && d in s.store
    ensures Arrivals(steps) == [] && Certificate(d, SECOND) in Run(s, steps).published
  {
    var two := TwoSteps(s, Certify(u, SECOND), Submit(u));
    QuietStep(s, two, Publish(u));
    SecondPublishes(s, u, d);
    steps := two + [Publish(u)];
  }

  /** Both certificates of the header have been handed to gossip. */
  ghost predicate Twice(s: State, d: HeaderDigest) {
    Certificate(d, FIRST) in s.published && Certificate(d, SECOND) in s.published
  }

  /** The arrivals up to where the header was sent, arranged so that the manager holds its certificate. */
  lemma HeldFirst(before: seq<Arrival>, d: HeaderDigest) returns (steps: seq<Step>, t: nat)
    ensures Arrivals(steps) == before + [Sent(d)] && Holding(Run(START, steps), t, Certificate(d, FIRST))
  {
    var upTo := before + [Sent(d)];
    PlainVotes(upTo);
    PlainArrives(upTo);
    SentIsSince(Plain(upTo));
    SinceMore(before, Sent(d));
    var s := Run(START, Plain(upTo));
    t := s.inFlight.value;
    var certify := CertifyInFlight(s);
    Joined(START, Plain(upTo), certify);
    steps := Plain(upTo) + certify;
  }

  lemma HeldMore(steps: seq<Step>, t: nat, c: Certificate, after: seq<Arrival>) returns (more: seq<Step>)
    requires Holding(Run(START, steps), t, c) && forall a | a in after :: a.Sent?
    ensures Arrivals(more) == Arrivals(steps) + after && Holding(Run(START, more), t, c)
  {
    PlainHolds(Run(START, steps), t, c, after);
    PlainArrives(after);
    Joined(START, steps, Plain(after));
    more := steps + Plain(after);
  }

  /** The arrivals `before`, arranged so that the manager still holds the certificate of the header. */
  lemma HeldAt(before: seq<Arrival>, d: HeaderDigest) returns (steps: seq<Step>, t: nat)
    requires d in Since(before)
    ensures Arrivals(steps) == before && Holding(Run(START, steps), t, Certificate(d, FIRST))
  {
    var k := LastSent(before, d);
    var first;
    first, t := HeldFirst(before[..k], d);
    steps := HeldMore(first, t, Certificate(d, FIRST), before[k + 1..]);
    SplitAt(before, k);
  }

  /** The arrivals up to a header sent again, arranged so that it is certified twice. */
  lemma SentAgain(before: seq<Arrival>, d: HeaderDigest) returns (steps: seq<Step>)
    requires !Follows(Since(before), Sent(d))
    ensures Arrivals(steps) == before + [Sent(d)] && Twice(Run(START, steps), d)
  {
    var held, t := HeldAt(before, d);
    var s := Run(START, held);
    SentIsSince(held);
    SecondAttempt(s, t, d);
    RunMore(START, held, Header(d, true));
    ArrivalsMore(held, Header(d, true));
    var again := held + [Header(d, true)];
    var both := FinishBoth(Run(START, again), t, |s.tasks|, d);
    Joined(START, again, both);
    steps := again + both;
    assert before + [Sent(d)] + [] == before + [Sent(d)];
  }

  lemma TwiceStays(steps: seq<Step>, d: HeaderDigest, after: seq<Arrival>) returns (more: seq<Step>)
    requires Twice(Run(START, steps), d)
    ensures Arrivals(more) == Arrivals(steps) + after && Twice(Run(START, more), d)
  {
    PlainArrives(after);
    Joined(START, steps, Plain(after));
    PublishedGrows(Run(START, steps), Plain(after));
    more := steps + Plain(after);
  }

  lemma TwiceIsTwo(s: State, d: HeaderDigest)
    requires Twice(s, d)
    ensures !OnePublishedPerHeader(s)
  {
    assert Certificate(d, FIRST) != Certificate(d, SECOND);
  }

  /** Every stream that sends a header again after a different one has an interleaving that hands two
      certificates of that header to gossip. */
  lemma ResendDuplicates(arrivals: seq<Arrival>) returns (steps: seq<Step>)
    requires !Orderly(arrivals)
    ensures Arrivals(steps) == arrivals && !OnePublishedPerHeader(Run(START, steps))
  {
    var j :| 0 <= j < |arrivals| && !OrderlyAt(arrivals, j);
    var d := arrivals[j].digest;
    var again := SentAgain(arrivals[..j], d);
    steps := TwiceStays(again, d, arrivals[j + 1..]);
    TwiceIsTwo(Run(START, steps), d);
    SplitAt(arrivals, j);
  }

  ghost predicate Answers(arrivals: seq<Arrival>, steps: seq<Step>) {
    Arrivals(steps) == arrivals
  }

  /** However task steps, cancellations, store errors and restarts interleave with it, a stream of
      headers gets at most one certificate per header to gossip, exactly when it is orderly. */
  lemma OnePerHeaderIffOrderly(arrivals: seq<Arrival>)
    ensures (forall steps | Answers(arrivals, steps) :: OnePublishedPerHeader(Run(START, steps))) <==> Orderly(arrivals)
  {
    if Orderly(arrivals) {
      forall steps | Answers(arrivals, steps)
        ensures OnePublishedPerHeader(Run(START, steps))
      {
        forall i | 0 <= i < |steps|
          ensures Disciplined(Run(START, steps[..i]), steps[i])
        {
          OrderlyIsDisciplined(steps, i);
        }
        OneCertificatePerHeader(steps);
      }
    } else {
      var steps := ResendDuplicates(arrivals);
      assert Answers(arrivals, steps);
    }
  }

  /** The shortest such stream. */
  lemma SendingAgainDuplicates() returns (steps: seq<Step>)
    ensures Arrivals(steps) == [Sent(1), Sent(2), Sent(1)] && !OnePublishedPerHeader(Run(START, steps))
  {
    var arrivals := [Sent(1), Sent(2), Sent(1)];
    assert arrivals[..2] == [Sent(1), Sent(2)] && [Sent(1), Sent(2)][..1] == [Sent(1)] && [Sent(1)][..0] == [];
    SinceMore([], Sent(1));
    SinceMore([Sent(1)], Sent(2));
    assert [] + [Sent(1)] == [Sent(1)] && [Sent(1)] + [Sent(2)] == [Sent(1), Sent(2)];
    assert !OrderlyAt(arrivals, 2);
    steps := ResendDuplicates(arrivals);
  }
}
