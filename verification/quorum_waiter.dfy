/** The worker's quorum waiter: stake accounting with early exits over the peers' responses. */
module QuorumWaiter {
  const U64_MAX: nat := 0xFFFF_FFFF_FFFF_FFFF

  datatype Kind = Ack | Rejected | Network

  /** One peer's answer, carrying that peer's stake. */
  datatype Response = Response(kind: Kind, stake: nat)

  datatype Verdict = Reached | QuorumRejected | AntiQuorum | Timeout

  const ANSWERED: set<Kind> := {Ack, Rejected, Network}

  function SatAdd(a: nat, b: nat): nat {
    if a + b > U64_MAX then U64_MAX else a + b
  }

  function SatSub(a: nat, b: nat): nat {
    if a < b then 0 else a - b
  }

  /** The stake of the responses of the given kinds. */
  function Stake(rs: seq<Response>, kinds: set<Kind>): nat {
    if rs == [] then 0
    else Stake(rs[..|rs| - 1], kinds) + (if rs[|rs| - 1].kind in kinds then rs[|rs| - 1].stake else 0)
  }

  // ----- What the verdict means -----

  /** Own stake and the acks reach the threshold, and there is an ack. */
  ghost predicate Acked(own: nat, threshold: nat, rs: seq<Response>) {
    own + Stake(rs, {Ack}) >= threshold && exists r | r in rs :: r.kind == Ack
  }

  /** After the first `k` responses the threshold is out of reach, were every other peer to ack. */
  predicate Hopeless(own: nat, threshold: nat, rs: seq<Response>, k: nat)
    requires k <= |rs|
  {
    own + Stake(rs[..k], {Ack}) + Stake(rs[k..], ANSWERED) < threshold
  }

  function MaxRejected(own: nat, threshold: nat, rs: seq<Response>): nat {
    SatSub(own + Stake(rs, ANSWERED), threshold)
  }

  predicate TooManyRejected(own: nat, threshold: nat, rs: seq<Response>, k: nat)
    requires k <= |rs|
  {
    Stake(rs[..k], {Rejected}) > MaxRejected(own, threshold, rs)
  }

  /** Rejections alone made the `k`-th response the first hopeless one. */
  ghost predicate RejectedAt(own: nat, threshold: nat, rs: seq<Response>, k: nat) {
    && 1 <= k <= |rs|
    && TooManyRejected(own, threshold, rs, k)
    && forall j | 1 <= j < k :: !Hopeless(own, threshold, rs, j)
  }

  ghost predicate RejectedWithin(own: nat, threshold: nat, rs: seq<Response>, arrived: nat) {
    exists k | 1 <= k <= arrived :: RejectedAt(own, threshold, rs, k)
  }

  // ----- Stake sums -----

  lemma EveryKindAnswers(kind: Kind)
    ensures kind in ANSWERED
  {
    match kind {
      case Ack =>
      case Rejected =>
      case Network =>
    }
  }

  lemma {:induction false} StakeSplits(rs: seq<Response>, k: nat, kinds: set<Kind>)
    requires k <= |rs|
    ensures Stake(rs, kinds) == Stake(rs[..k], kinds) + Stake(rs[k..], kinds)
  {
    if k < |rs| {
      var n := |rs| - 1;
      StakeSplits(rs[..n], k, kinds);
      assert rs[..n][..k] == rs[..k];
      assert rs[k..][..n - k] == rs[..n][k..];
    } else {
      assert rs[..k] == rs;
    }
  }

  lemma {:induction false} StakeByKind(rs: seq<Response>)
    ensures Stake(rs, {Ack}) + Stake(rs, {Rejected}) + Stake(rs, {Network}) == Stake(rs, ANSWERED)
  {
    if rs != [] {
      StakeByKind(rs[..|rs| - 1]);
    }
  }

  /** One more response moves its stake out of the peers still to answer. */
  lemma StakeMoves(rs: seq<Response>, k: nat, kinds: set<Kind>)
    requires k < |rs|
    ensures Stake(rs[..k + 1], kinds) == Stake(rs[..k], kinds) + (if rs[k].kind in kinds then rs[k].stake else 0)
    ensures Stake(rs[k..], ANSWERED) == Stake(rs[k + 1..], ANSWERED) + rs[k].stake
  {
    assert rs[..k + 1][..k] == rs[..k];
    StakeSplits(rs[k..], 1, ANSWERED);
    assert rs[k..][..1] == [rs[k]] && rs[k..][1..] == rs[k + 1..];
    assert [rs[k]][..0] == [];
    EveryKindAnswers(rs[k].kind);
  }

  lemma {:induction false} StakeRemoves(rs: seq<Response>, i: nat, kinds: set<Kind>)
    requires i < |rs|
    ensures Stake(rs, kinds) == Stake(rs[..i] + rs[i + 1..], kinds) + (if rs[i].kind in kinds then rs[i].stake else 0)
  {
    StakeSplits(rs, i, kinds);
    StakeSplits(rs[i..], 1, kinds);
    assert rs[i..][..1] == [rs[i]] && rs[i..][1..] == rs[i + 1..];
    assert [rs[i]][..0] == [];
    var without := rs[..i] + rs[i + 1..];
    StakeSplits(without, i, kinds);
    assert without[..i] == rs[..i] && without[i..] == rs[i + 1..];
  }

  lemma TakenOut(rs: seq<Response>, rs': seq<Response>) returns (i: nat)
    requires rs != [] && multiset(rs) == multiset(rs')
    ensures i < |rs'| && rs'[i] == rs[|rs| - 1]
    ensures multiset(rs[..|rs| - 1]) == multiset(rs'[..i] + rs'[i + 1..])
  {
    var last := rs[|rs| - 1];
    assert rs == rs[..|rs| - 1] + [last];
    assert last in multiset(rs');
    i :| 0 <= i < |rs'| && rs'[i] == last;
    var a, b := rs'[..i], rs'[i + 1..];
    assert rs' == a + ([last] + b);
    assert multiset(rs') == multiset(a + b) + multiset{last};
    assert multiset(rs) == multiset(rs[..|rs| - 1]) + multiset{last};
    Cancels(multiset(rs[..|rs| - 1]), multiset(a + b), last);
  }

  lemma Cancels(a: multiset<Response>, b: multiset<Response>, r: Response)
    requires a + multiset{r} == b + multiset{r}
    ensures a == b
  {
    assert a == a + multiset{r} - multiset{r};
    assert b == b + multiset{r} - multiset{r};
  }

  /** Stake sums do not depend on the order of the responses. */
  lemma {:induction false} StakePermutes(rs: seq<Response>, rs': seq<Response>, kinds: set<Kind>)
    requires multiset(rs) == multiset(rs')
    ensures Stake(rs, kinds) == Stake(rs', kinds)
  {
    if rs == [] {
      assert |multiset(rs')| == 0;
    } else {
      var i := TakenOut(rs, rs');
      StakePermutes(rs[..|rs| - 1], rs'[..i] + rs'[i + 1..], kinds);
      StakeRemoves(rs', i, kinds);
    }
  }

  /** Hopeless stays hopeless, and leaves the whole count short of the threshold. */
  lemma {:induction false} HopelessLasts(own: nat, threshold: nat, rs: seq<Response>, k: nat, m: nat)
    requires k <= m <= |rs| && Hopeless(own, threshold, rs, k)
    ensures Hopeless(own, threshold, rs, m)
    ensures own + Stake(rs[..m], {Ack}) < threshold
    decreases m - k
  {
    if k < m {
      StakeMoves(rs, k, {Ack});
      HopelessLasts(own, threshold, rs, k + 1, m);
    }
  }

  /** Rejections beyond the maximum leave no hope, whatever the network failures were. */
  lemma RejectionsAreHopeless(own: nat, threshold: nat, rs: seq<Response>, k: nat)
    requires k <= |rs| && TooManyRejected(own, threshold, rs, k)
    ensures Hopeless(own, threshold, rs, k)
    ensures own + Stake(rs, {Ack}) + Stake(rs, {Network}) < threshold
  {
    StakeByKind(rs);
    StakeByKind(rs[..k]);
    StakeSplits(rs, k, ANSWERED);
    StakeSplits(rs, k, {Rejected});
  }

  lemma AckAppears(rs: seq<Response>, k: nat)
    requires k < |rs|
    ensures (exists r | r in rs[..k + 1] :: r.kind == Ack)
       <==> (exists r | r in rs[..k] :: r.kind == Ack) || rs[k].kind == Ack
  {
  }

  lemma {:induction false} AckedLasts(own: nat, threshold: nat, rs: seq<Response>, k: nat, m: nat)
    requires k <= m <= |rs| && Acked(own, threshold, rs[..k])
    ensures Acked(own, threshold, rs[..m])
  {
    StakeSplits(rs[..m], k, {Ack});
    assert rs[..m][..k] == rs[..k];
    var r :| r in rs[..k] && r.kind == Ack;
    assert r in rs[..m];
  }

  // ----- Where the loop stands after `k` responses -----

  ghost predicate Undecided(own: nat, threshold: nat, rs: seq<Response>, k: nat) {
    && k <= |rs|
    && !Acked(own, threshold, rs[..k])
    && forall j | 1 <= j <= k :: !Hopeless(own, threshold, rs, j)
  }

  ghost predicate AntiAt(own: nat, threshold: nat, rs: seq<Response>, k: nat) {
    && 1 <= k <= |rs|
    && Hopeless(own, threshold, rs, k)
    && !TooManyRejected(own, threshold, rs, k)
    && forall j | 1 <= j < k :: !Hopeless(own, threshold, rs, j)
  }

  lemma AckedIsNotRejected(own: nat, threshold: nat, rs: seq<Response>, arrived: nat)
    requires arrived <= |rs| && Acked(own, threshold, rs[..arrived])
    ensures !RejectedWithin(own, threshold, rs, arrived)
  {
    forall k | 1 <= k <= arrived
      ensures !RejectedAt(own, threshold, rs, k)
    {
      if RejectedAt(own, threshold, rs, k) {
        RejectionsAreHopeless(own, threshold, rs, k);
        HopelessLasts(own, threshold, rs, k, arrived);
      }
    }
  }

  lemma RejectedIsNotAcked(own: nat, threshold: nat, rs: seq<Response>, k: nat, arrived: nat)
    requires k <= arrived <= |rs| && RejectedAt(own, threshold, rs, k)
    ensures RejectedWithin(own, threshold, rs, arrived)
    ensures !Acked(own, threshold, rs[..arrived]) && Hopeless(own, threshold, rs, arrived)
  {
    RejectionsAreHopeless(own, threshold, rs, k);
    HopelessLasts(own, threshold, rs, k, arrived);
  }

  lemma AntiIsNeither(own: nat, threshold: nat, rs: seq<Response>, k: nat, arrived: nat)
    requires k <= arrived <= |rs| && AntiAt(own, threshold, rs, k)
    ensures !RejectedWithin(own, threshold, rs, arrived)
    ensures !Acked(own, threshold, rs[..arrived]) && Hopeless(own, threshold, rs, arrived)
  {
    HopelessLasts(own, threshold, rs, k, arrived);
    forall m | 1 <= m <= arrived
      ensures !RejectedAt(own, threshold, rs, m)
    {
      if RejectedAt(own, threshold, rs, m) {
        RejectionsAreHopeless(own, threshold, rs, m);
      }
    }
  }

  lemma UndecidedIsNotRejected(own: nat, threshold: nat, rs: seq<Response>, k: nat)
    requires Undecided(own, threshold, rs, k)
    ensures !RejectedWithin(own, threshold, rs, k)
  {
    forall m | 1 <= m <= k
      ensures !RejectedAt(own, threshold, rs, m)
    {
      if RejectedAt(own, threshold, rs, m) {
        RejectionsAreHopeless(own, threshold, rs, m);
      }
    }
  }

  /** The loop's variables after `k` responses. */
  ghost predicate Tallied(own: nat, rs: seq<Response>, k: nat, total: nat, rejected: nat, available: nat) {
    && k <= |rs|
    && total == own + Stake(rs[..k], {Ack})
    && rejected == Stake(rs[..k], {Rejected})
    && available == Stake(rs[k..], ANSWERED)
  }

  lemma TalliedFits(own: nat, rs: seq<Response>, k: nat, total: nat, rejected: nat, available: nat)
    requires Tallied(own, rs, k, total, rejected, available)
    ensures total + rejected + available <= own + Stake(rs, ANSWERED)
  {
    StakeByKind(rs[..k]);
    StakeSplits(rs, k, ANSWERED);
  }

  lemma TallyStep(own: nat, rs: seq<Response>, k: nat, total: nat, rejected: nat, available: nat)
    requires k < |rs| && Tallied(own, rs, k, total, rejected, available)
    ensures available >= rs[k].stake
    ensures Tallied(own, rs, k + 1,
                    total + (if rs[k].kind == Ack then rs[k].stake else 0),
                    rejected + (if rs[k].kind == Rejected then rs[k].stake else 0),
                    available - rs[k].stake)
  {
    StakeMoves(rs, k, {Ack});
    StakeMoves(rs, k, {Rejected});
  }

  // ----- The response loop -----

  /** Counts one response, and decides when it settles the matter. */
  method Count(own: nat, threshold: nat, rs: seq<Response>, k: nat, maxRejected: nat,
               total: nat, rejected: nat, available: nat)
    returns (v: Verdict, total': nat, rejected': nat, available': nat)
    requires k < |rs| && own + Stake(rs, ANSWERED) <= U64_MAX
    requires maxRejected == MaxRejected(own, threshold, rs)
    requires Tallied(own, rs, k, total, rejected, available) && Undecided(own, threshold, rs, k)
    ensures Tallied(own, rs, k + 1, total', rejected', available')
    ensures match v
            case Timeout => Undecided(own, threshold, rs, k + 1)
            case Reached => Acked(own, threshold, rs[..k + 1])
            case QuorumRejected => RejectedAt(own, threshold, rs, k + 1)
            case AntiQuorum => AntiAt(own, threshold, rs, k + 1)
  {
    TallyStep(own, rs, k, total, rejected, available);
    TalliedFits(own, rs, k, total, rejected, available);
    AckAppears(rs, k);
    var r := rs[k];
    total', rejected', available' := total, rejected, SatSub(available, r.stake);
    match r.kind {
      case Ack =>
        total' := SatAdd(total, r.stake);
        if total' >= threshold {
          assert Tallied(own, rs, k + 1, total', rejected', available');
          return Reached, total', rejected', available';
        }
      case Rejected => rejected' := SatAdd(rejected, r.stake);
      case Network =>
    }
    assert Tallied(own, rs, k + 1, total', rejected', available');
    TalliedFits(own, rs, k + 1, total', rejected', available');
    if rejected' > maxRejected {
      v := QuorumRejected;
    } else if SatAdd(total', available') < threshold {
      v := AntiQuorum;
    } else {
      v := Timeout;
    }
  }

  /** Sums the peers' stake, never past what a u64 holds. */
  method AvailableStake(rs: seq<Response>) returns (available: nat)
    ensures available == if Stake(rs, ANSWERED) > U64_MAX then U64_MAX else Stake(rs, ANSWERED)
  {
    available := 0;
    for i := 0 to |rs|
      invariant available == if Stake(rs[..i], ANSWERED) > U64_MAX then U64_MAX else Stake(rs[..i], ANSWERED)
    {
      StakeMoves(rs, i, ANSWERED);
      EveryKindAnswers(rs[i].kind);
      available := SatAdd(available, rs[i].stake);
    }
    assert rs[..|rs|] == rs;
  }

  /** Waits for the responses in the order they come, of which the first `arrived` beat the timeout.
      The committee's whole voting power fits the u64 it is summed in. */
  method VerifyBatch(own: nat, threshold: nat, rs: seq<Response>, arrived: nat) returns (v: Verdict)
    requires arrived <= |rs| && own + Stake(rs, ANSWERED) <= U64_MAX
    ensures v == Reached <==> Acked(own, threshold, rs[..arrived])
    ensures v == QuorumRejected <==> RejectedWithin(own, threshold, rs, arrived)
    ensures v == Timeout <==> && arrived < |rs| && !Acked(own, threshold, rs[..arrived])
                              && (arrived > 0 ==> !Hopeless(own, threshold, rs, arrived))
  {
    var available := AvailableStake(rs);
    assert rs[0..] == rs;
    var total, rejected, k := own, 0, 0;
    var maxRejected := SatSub(SatAdd(available, total), threshold);
    v := Timeout;
    while k < arrived && v == Timeout
      invariant k <= arrived
      invariant Tallied(own, rs, k, total, rejected, available)
      invariant v == Timeout ==> Undecided(own, threshold, rs, k)
      invariant v == Reached ==> Acked(own, threshold, rs[..k])
      invariant v == QuorumRejected ==> RejectedAt(own, threshold, rs, k)
      invariant v == AntiQuorum ==> AntiAt(own, threshold, rs, k)
    {
      v, total, rejected, available := Count(own, threshold, rs, k, maxRejected, total, rejected, available);
      k := k + 1;
    }
    match v {
      case Timeout =>
        UndecidedIsNotRejected(own, threshold, rs, k);
        if arrived == |rs| {
          v := AntiQuorum;
        }
      case Reached =>
        AckedLasts(own, threshold, rs, k, arrived);
        AckedIsNotRejected(own, threshold, rs, arrived);
      case QuorumRejected => RejectedIsNotAcked(own, threshold, rs, k, arrived);
      case AntiQuorum => AntiIsNeither(own, threshold, rs, k, arrived);
    }
  }

  // ----- What the verdict promises -----

  /** Quorum is exactly own stake and the acks reaching the threshold, unless own stake meets it
      already and nobody acks: that batch is still called short of quorum. */
  lemma AckedIsTheCount(own: nat, threshold: nat, rs: seq<Response>)
    ensures (Acked(own, threshold, rs) <==> own + Stake(rs, {Ack}) >= threshold)
       <==> own < threshold || exists r | r in rs :: r.kind == Ack
  {
    if forall r | r in rs :: r.kind != Ack {
      NoAckNoStake(rs);
    }
  }

  lemma {:induction false} NoAckNoStake(rs: seq<Response>)
    requires forall r | r in rs :: r.kind != Ack
    ensures Stake(rs, {Ack}) == 0
  {
    if rs != [] {
      NoAckNoStake(rs[..|rs| - 1]);
    }
  }

  /** Whether quorum is reached does not depend on the order of the responses. */
  lemma OrderDoesNotMatter(own: nat, threshold: nat, rs: seq<Response>, rs': seq<Response>)
    requires multiset(rs) == multiset(rs')
    ensures Acked(own, threshold, rs) <==> Acked(own, threshold, rs')
  {
    StakePermutes(rs, rs', {Ack});
    assert forall r :: r in rs <==> r in multiset(rs) <==> r in multiset(rs') <==> r in rs';
  }

  /** A batch is called rejected only if quorum would be missed were every network failure an ack. */
  lemma RejectedDespiteNetwork(own: nat, threshold: nat, rs: seq<Response>, arrived: nat)
    requires arrived <= |rs| && RejectedWithin(own, threshold, rs, arrived)
    ensures own + Stake(rs, {Ack}) + Stake(rs, {Network}) < threshold
  {
    var k :| 1 <= k <= arrived && RejectedAt(own, threshold, rs, k);
    RejectionsAreHopeless(own, threshold, rs, k);
  }

  /** A timeout cuts waiting short, it never changes a verdict: quorum on the responses that beat it
      is quorum on all of them, and so is a rejection. */
  lemma TimeoutOnlyCutsShort(own: nat, threshold: nat, rs: seq<Response>, arrived: nat)
    requires arrived <= |rs|
    ensures Acked(own, threshold, rs[..arrived]) ==> Acked(own, threshold, rs)
    ensures RejectedWithin(own, threshold, rs, arrived) ==> RejectedWithin(own, threshold, rs, |rs|)
  {
    assert rs[..|rs|] == rs;
    if Acked(own, threshold, rs[..arrived]) {
      AckedLasts(own, threshold, rs, arrived, |rs|);
    }
  }

  lemma StakeOfTwo(x: Response, y: Response, kinds: set<Kind>)
    ensures Stake([x, y], kinds) == Stake([x], kinds) + Stake([y], kinds)
    ensures Stake([x], kinds) == if x.kind in kinds then x.stake else 0
  {
  }

  /** The kind of failure does depend on the order: when both peers are needed, a rejection and a
      network failure give whichever error comes first. */
  lemma FailureKindDependsOnOrder(own: nat, threshold: nat, stake: nat)
    requires own + stake < threshold <= own + 2 * stake
    ensures var x, y := Response(Rejected, stake), Response(Network, stake);
            RejectedWithin(own, threshold, [x, y], 2) && !RejectedWithin(own, threshold, [y, x], 2)
  {
    var x, y := Response(Rejected, stake), Response(Network, stake);
    var rs, sr := [x, y], [y, x];
    assert rs[..1] == [x] && sr[..1] == [y] && sr[1..] == [x];
    EveryKindAnswers(x.kind);
    EveryKindAnswers(y.kind);
    StakeOfTwo(x, y, ANSWERED);
    StakeOfTwo(y, x, ANSWERED);
    StakeOfTwo(x, y, {Rejected});
    StakeOfTwo(y, x, {Rejected});
    StakeOfTwo(y, x, {Ack});
    assert TooManyRejected(own, threshold, rs, 1);
    assert RejectedAt(own, threshold, rs, 1);
    assert !TooManyRejected(own, threshold, sr, 1) && Hopeless(own, threshold, sr, 1);
    AntiIsNeither(own, threshold, sr, 1, 2);
  }
}
