/** The vote-failure tracker and the demotions it causes, over whole traces of vote errors. */
module VoteFailures {
  import opened Tables

  type Peer = nat
  /** Readings of a clock that does not run backwards, in milliseconds. */
  type Time = nat

  const REJECTION_GRACE: nat := 30_000

  datatype Reason = TooOld | WrongEpoch

  /** An error a vote request ends with; `other` errors carry no demotion signal. */
  datatype VoteError =
    | TooOldRejected(peer: Peer)
    | EpochRejected(peer: Peer, peerEpoch: nat, ourEpoch: nat)
    | OtherError

  /** A vote error handled at `now`, or a header of ours certified. */
  datatype Event = Failed(error: VoteError, now: Time) | Certified

  datatype Mode = CvvActive | CvvInactive | Observer

  // ----- The tracker -----

  datatype Tracker = Tracker(tooOld: set<Peer>, wrongEpoch: set<Peer>, rejectedSince: Option<Time>)

  const CLEAR := Tracker({}, {}, None)

  /** What handling one error does: the tracker after it, whether CvvInactive is requested, and
      whether the proposal is aborted. */
  datatype Handled = Handled(tracker: Tracker, demote: bool, abort: bool)

  function Threshold(committeeSize: nat): nat {
    committeeSize / 2
  }

  function StartGrace(t: Tracker, now: Time): Tracker {
    if t.rejectedSince.None? then t.(rejectedSince := Some(now)) else t
  }

  /** Whether a rejection at `now` is still within the grace. */
  predicate InGrace(t: Tracker, now: Time) {
    t.rejectedSince.None? || now < t.rejectedSince.value + REJECTION_GRACE
  }

  predicate Stale(e: VoteError) {
    e.EpochRejected? && e.peerEpoch < e.ourEpoch
  }

  predicate OneEpochBehind(e: VoteError) {
    e.EpochRejected? && e.peerEpoch == e.ourEpoch + 1
  }

  function HandleVoteError(t: Tracker, threshold: nat, e: VoteError, now: Time): Handled {
    match e
    case TooOldRejected(peer) =>
      if InGrace(t, now) then Handled(StartGrace(t, now), false, false)
      else
        var t' := t.(tooOld := t.tooOld + {peer});
        Handled(t', |t'.tooOld| >= threshold, |t'.tooOld| >= threshold)
    case EpochRejected(peer, peerEpoch, ourEpoch) =>
      if Stale(e) then Handled(t, false, false)
      else if OneEpochBehind(e) && InGrace(t, now) then Handled(StartGrace(t, now), false, true)
      else
        var t' := t.(wrongEpoch := t.wrongEpoch + {peer});
        Handled(t', |t'.wrongEpoch| >= threshold, true)
    case OtherError => Handled(t, false, false)
  }

  /** The mode the epoch manager is asked for: an observer stays one, and a repeated request
      changes nothing. */
  function RequestMode(current: Mode, pending: Option<Mode>, target: Mode): Option<Mode> {
    if current == Observer || current == target then pending else Some(target)
  }

  function Advance(t: Tracker, threshold: nat, e: Event): Tracker {
    match e
    case Failed(error, now) => HandleVoteError(t, threshold, error, now).tracker
    case Certified => CLEAR
  }

  function After(threshold: nat, events: seq<Event>): Tracker {
    if events == [] then CLEAR
    else Advance(After(threshold, events[..|events| - 1]), threshold, events[|events| - 1])
  }

  predicate DemotesOn(t: Tracker, threshold: nat, e: Event) {
    e.Failed? && HandleVoteError(t, threshold, e.error, e.now).demote
  }

  predicate AbortsOn(t: Tracker, threshold: nat, e: Event) {
    e.Failed? && HandleVoteError(t, threshold, e.error, e.now).abort
  }

  /** The last event of the trace requests the demotion. */
  predicate Demotes(threshold: nat, events: seq<Event>) {
    events != [] && DemotesOn(After(threshold, events[..|events| - 1]), threshold, events[|events| - 1])
  }

  /** The last event of the trace aborts the proposal. */
  predicate Aborts(threshold: nat, events: seq<Event>) {
    events != [] && AbortsOn(After(threshold, events[..|events| - 1]), threshold, events[|events| - 1])
  }

  /** Event by event, whether handling it aborts the proposal. */
  function Answers(threshold: nat, events: seq<Event>): seq<bool> {
    if events == [] then [] else Answers(threshold, events[..|events| - 1]) + [Aborts(threshold, events)]
  }

  lemma {:induction false} AnswerAt(threshold: nat, events: seq<Event>, i: nat)
    requires i < |events|
    ensures |Answers(threshold, events)| == |events| && Answers(threshold, events)[i] == Aborts(threshold, events[..i + 1])
  {
    var n := |events| - 1;
    if i < n {
      AnswerAt(threshold, events[..n], i);
      assert events[..n][..i + 1] == events[..i + 1];
    } else {
      if n > 0 {
        AnswerAt(threshold, events[..n], 0);
      }
      assert events[..i + 1] == events;
    }
  }

  // ----- The running code -----

  /** The tracker shared by the certifier's clones, with the bus it reports to. */
  class VoteFailureTracker {
    var tooOld: set<Peer>
    var wrongEpoch: set<Peer>
    var rejectedSince: Option<Time>
    const threshold: nat
    const mode: Mode
    var pending: Option<Mode>

    constructor (committeeSize: nat, mode: Mode)
      ensures View() == CLEAR && threshold == Threshold(committeeSize)
      ensures this.mode == mode && pending == None
    {
      tooOld, wrongEpoch, rejectedSince := {}, {}, None;
      threshold := committeeSize / 2;
      this.mode, pending := mode, None;
    }

    function View(): Tracker
      reads this
    {
      Tracker(tooOld, wrongEpoch, rejectedSince)
    }

    method ClearCounters()
      modifies this`tooOld, this`wrongEpoch, this`rejectedSince
      ensures View() == CLEAR
    {
      tooOld, wrongEpoch, rejectedSince := {}, {}, None;
    }

    method SkipWithRejectionGrace(now: Time) returns (skip: bool)
      modifies this`rejectedSince
      ensures skip == InGrace(old(View()), now)
      ensures View() == StartGrace(old(View()), now)
    {
      if rejectedSince.None? {
        rejectedSince := Some(now);
      }
      skip := now < rejectedSince.value + REJECTION_GRACE;
    }

    method RequestInactive()
      modifies this`pending
      ensures pending == RequestMode(mode, old(pending), CvvInactive)
    {
      if mode != Observer && mode != CvvInactive {
        pending := Some(CvvInactive);
      }
    }

    /** Evaluates a vote error; true when the proposal is to be aborted. */
    method Handle(e: VoteError, now: Time) returns (abort: bool)
      modifies this
      ensures var h := HandleVoteError(old(View()), threshold, e, now);
              && View() == h.tracker && abort == h.abort
              && pending == if h.demote then RequestMode(mode, old(pending), CvvInactive) else old(pending)
    {
      match e {
        case TooOldRejected(peer) =>
          var skip := SkipWithRejectionGrace(now);
          if skip {
            return false;
          }
          tooOld := tooOld + {peer};
          if |tooOld| < threshold {
            return false;
          }
          RequestInactive();
          return true;
        case EpochRejected(peer, peerEpoch, ourEpoch) =>
          if peerEpoch < ourEpoch {
            return false;
          }
          if peerEpoch == ourEpoch + 1 {
            var skip := SkipWithRejectionGrace(now);
            if skip {
              return true;
            }
          }
          wrongEpoch := wrongEpoch + {peer};
          if |wrongEpoch| >= threshold {
            RequestInactive();
          }
          return true;
        case OtherError => return false;
      }
    }

    /** Handles one event of a trace. */
    method HandleEvent(e: Event) returns (abort: bool)
      modifies this
      ensures View() == Advance(old(View()), threshold, e)
      ensures abort == AbortsOn(old(View()), threshold, e)
      ensures pending == if DemotesOn(old(View()), threshold, e) then RequestMode(mode, old(pending), CvvInactive) else old(pending)
    {
      abort := false;
      match e {
        case Failed(error, now) =>
          abort := Handle(error, now);
        case Certified =>
          ClearCounters();
      }
    }

    /** Handles a whole trace from a clear tracker; `aborts` are the answers, event by event. */
    method HandleAll(events: seq<Event>) returns (aborts: seq<bool>)
      requires View() == CLEAR && pending == None
      modifies this
      ensures View() == After(threshold, events) && pending == PendingAfter(mode, threshold, events)
      ensures aborts == Answers(threshold, events)
    {
      aborts := [];
      for i := 0 to |events|
        invariant View() == After(threshold, events[..i]) && pending == PendingAfter(mode, threshold, events[..i])
        invariant aborts == Answers(threshold, events[..i])
      {
        TraceGrows(mode, threshold, events[..i], events[i]);
        PrefixGrows(events, i);
        var abort := HandleEvent(events[i]);
        aborts := aborts + [abort];
      }
      assert events[..|events|] == events;
    }
  }

  lemma TraceGrows(mode: Mode, threshold: nat, events: seq<Event>, e: Event)
    ensures var more, t, pending := events + [e], After(threshold, events), PendingAfter(mode, threshold, events);
            && After(threshold, more) == Advance(t, threshold, e)
            && Answers(threshold, more) == Answers(threshold, events) + [AbortsOn(t, threshold, e)]
            && PendingAfter(mode, threshold, more)
               == if DemotesOn(t, threshold, e) then RequestMode(mode, pending, CvvInactive) else pending
  {
    assert (events + [e])[..|events|] == events;
  }

  // ----- What a demotion proves about the trace -----

  /** Events after the last certification of the trace. */
  function SinceCertified(events: seq<Event>): seq<Event> {
    if events == [] || events[|events| - 1].Certified? then []
    else SinceCertified(events[..|events| - 1]) + [events[|events| - 1]]
  }

  /** A rejection for a reason: too old, or wrong epoch from a peer that is not behind us. */
  predicate Rejects(e: Event, r: Reason) {
    && e.Failed?
    && match r
       case TooOld => e.error.TooOldRejected?
       case WrongEpoch => e.error.EpochRejected? && e.error.peerEpoch >= e.error.ourEpoch
  }

  function PeerOf(e: Event): Peer
    requires e.Failed? && e.error != OtherError
  {
    e.error.peer
  }

  /** The peers that rejected us for reason `r` since the last certification. */
  ghost function Rejecters(events: seq<Event>, r: Reason): set<Peer> {
    set e | e in SinceCertified(events) && Rejects(e, r) :: PeerOf(e)
  }

  /** A rejection whose handling consults the grace: too old, or by a peer one epoch ahead. */
  predicate GraceChecked(e: Event) {
    e.Failed? && (e.error.TooOldRejected? || (e.error.EpochRejected? && e.error.peerEpoch == e.error.ourEpoch + 1))
  }

  /** The time of the first grace-checked rejection since the last certification. */
  function FirstChecked(events: seq<Event>): Option<Time> {
    if events == [] || events[|events| - 1].Certified? then None
    else
      var first := FirstChecked(events[..|events| - 1]);
      if first.None? && GraceChecked(events[|events| - 1]) then Some(events[|events| - 1].now) else first
  }

  /** A rejection counts unless its handling consulted a grace that was not over. */
  predicate CountsFor(e: Event, r: Reason, first: Option<Time>) {
    Rejects(e, r) && (GraceChecked(e) ==> first.Some? && first.value + REJECTION_GRACE <= e.now)
  }

  ghost function CountedIn(events: seq<Event>, r: Reason, first: Option<Time>): set<Peer> {
    set e | e in events && CountsFor(e, r, first) :: PeerOf(e)
  }

  /** The peers whose rejections for reason `r` count since the last certification. */
  ghost function Counted(events: seq<Event>, r: Reason): set<Peer> {
    CountedIn(SinceCertified(events), r, FirstChecked(events))
  }

  lemma {:induction false} UncheckedTrace(events: seq<Event>)
    requires FirstChecked(events).None?
    ensures forall e | e in SinceCertified(events) :: !GraceChecked(e)
  {
    if events != [] && events[|events| - 1].Failed? {
      UncheckedTrace(events[..|events| - 1]);
    }
  }

  lemma CountedInGrows(events: seq<Event>, e: Event, r: Reason, first: Option<Time>)
    ensures CountedIn(events + [e], r, first)
         == if CountsFor(e, r, first) then CountedIn(events, r, first) + {PeerOf(e)} else CountedIn(events, r, first)
  {
  }

  lemma FirstIrrelevant(events: seq<Event>, r: Reason, first: Option<Time>, first': Option<Time>)
    requires forall e | e in events :: !GraceChecked(e)
    ensures CountedIn(events, r, first) == CountedIn(events, r, first')
  {
  }

  lemma CountedSteps(events: seq<Event>, r: Reason)
    requires events != [] && events[|events| - 1].Failed?
    ensures var e := events[|events| - 1];
            var before := Counted(events[..|events| - 1], r);
            Counted(events, r) == if CountsFor(e, r, FirstChecked(events)) then before + {PeerOf(e)} else before
  {
    var n := |events| - 1;
    CountedInGrows(SinceCertified(events[..n]), events[n], r, FirstChecked(events));
    if FirstChecked(events[..n]).None? {
      UncheckedTrace(events[..n]);
      FirstIrrelevant(SinceCertified(events[..n]), r, None, FirstChecked(events));
    }
  }

  /** The tracker holds exactly the peers whose rejections count, and its clock started at the
      first grace-checked rejection since the last certification. */
  lemma {:induction false} TrackerFollowsTrace(threshold: nat, events: seq<Event>)
    ensures After(threshold, events) == Tracker(Counted(events, TooOld), Counted(events, WrongEpoch), FirstChecked(events))
  {
    if events != [] {
      var n := |events| - 1;
      TrackerFollowsTrace(threshold, events[..n]);
      if events[n].Failed? {
        CountedSteps(events, TooOld);
        CountedSteps(events, WrongEpoch);
        HandledFollows(After(threshold, events[..n]), threshold, events[n], FirstChecked(events));
      }
    }
  }

  /** What handling an error does, in terms of the rejections that count. */
  lemma HandledFollows(t: Tracker, threshold: nat, e: Event, first: Option<Time>)
    requires e.Failed?
    requires first == if t.rejectedSince.None? && GraceChecked(e) then Some(e.now) else t.rejectedSince
    ensures var h := HandleVoteError(t, threshold, e.error, e.now);
            && h.tracker.tooOld == (if CountsFor(e, TooOld, first) then t.tooOld + {PeerOf(e)} else t.tooOld)
            && h.tracker.wrongEpoch == (if CountsFor(e, WrongEpoch, first) then t.wrongEpoch + {PeerOf(e)} else t.wrongEpoch)
            && h.tracker.rejectedSince == first
            && (h.demote <==> || (CountsFor(e, TooOld, first) && |h.tracker.tooOld| >= threshold)
                              || (CountsFor(e, WrongEpoch, first) && |h.tracker.wrongEpoch| >= threshold))
  {
  }

  function ReasonOf(e: VoteError): Reason {
    if e.TooOldRejected? then TooOld else WrongEpoch
  }

  /** A vote error demotes exactly when it counts for its reason and, with it, as many distinct
      peers as the threshold count for that reason since the last certification. */
  lemma DemotesIffThreshold(threshold: nat, events: seq<Event>)
    requires events != [] && events[|events| - 1].Failed?
    ensures var e := events[|events| - 1]; var r := ReasonOf(e.error);
            Demotes(threshold, events) <==>
              CountsFor(e, r, FirstChecked(events)) && |Counted(events, r)| >= threshold
  {
    var n := |events| - 1;
    TrackerFollowsTrace(threshold, events[..n]);
    TrackerFollowsTrace(threshold, events);
    HandledFollows(After(threshold, events[..n]), threshold, events[n], FirstChecked(events));
  }

  lemma AbortFollows(t: Tracker, threshold: nat, e: Event, first: Option<Time>)
    requires e.Failed?
    requires first == if t.rejectedSince.None? && GraceChecked(e) then Some(e.now) else t.rejectedSince
    ensures var h := HandleVoteError(t, threshold, e.error, e.now);
            h.abort <==> Rejects(e, WrongEpoch) || (CountsFor(e, TooOld, first) && |h.tracker.tooOld| >= threshold)
  {
  }

  /** A vote error aborts the proposal exactly when a peer not behind us rejected its epoch, within the
      grace or not and whatever the count, or when it is a too-old rejection that counts and brings
      the distinct peers that count to the threshold. */
  lemma AbortsIff(threshold: nat, events: seq<Event>)
    requires events != []
    ensures var e := events[|events| - 1];
            Aborts(threshold, events) <==>
              || Rejects(e, WrongEpoch)
              || (CountsFor(e, TooOld, FirstChecked(events)) && |Counted(events, TooOld)| >= threshold)
  {
    var n := |events| - 1;
    if events[n].Failed? {
      TrackerFollowsTrace(threshold, events[..n]);
      TrackerFollowsTrace(threshold, events);
      AbortFollows(After(threshold, events[..n]), threshold, events[n], FirstChecked(events));
    }
  }

  /** In a committee: a vote error demotes exactly when it counts for its reason and, with it, half of
      the committee, rounded down, counts as distinct peers for that reason. */
  lemma DemotesIffHalf(committeeSize: nat, events: seq<Event>)
    requires events != [] && events[|events| - 1].Failed?
    ensures var e := events[|events| - 1]; var r := ReasonOf(e.error);
            Demotes(Threshold(committeeSize), events) <==>
              CountsFor(e, r, FirstChecked(events)) && 2 * |Counted(events, r)| + 1 >= committeeSize
  {
    DemotesIffThreshold(Threshold(committeeSize), events);
  }

  /** A demotion needs half the committee, as distinct peers, rejecting for one same reason since
      the last certification. */
  lemma DemotionNeedsMajority(committeeSize: nat, events: seq<Event>)
    requires Demotes(Threshold(committeeSize), events)
    ensures var r := ReasonOf(events[|events| - 1].error);
            2 * |Rejecters(events, r)| + 1 >= committeeSize
  {
    var r := ReasonOf(events[|events| - 1].error);
    DemotesIffThreshold(Threshold(committeeSize), events);
    assert Counted(events, r) <= Rejecters(events, r);
    SubsetSize(Counted(events, r), Rejecters(events, r));
  }

  /** Rejections from a third of the committee or fewer, whatever they are and however often
      repeated, never demote a node. */
  lemma MinorityNeverDemotes(committeeSize: nat, events: seq<Event>, faulty: set<Peer>)
    requires |faulty| <= (committeeSize - 1) / 3
    requires forall e | e in SinceCertified(events) && e.Failed? && e.error != OtherError :: PeerOf(e) in faulty
    ensures !Demotes(Threshold(committeeSize), events)
  {
    if Demotes(Threshold(committeeSize), events) {
      DemotesIffThreshold(Threshold(committeeSize), events);
      DemotionNeedsMajority(committeeSize, events);
      var e := events[|events| - 1];
      assert e in SinceCertified(events);
      SubsetSize({PeerOf(e)}, faulty);
      SubsetSize(Rejecters(events, ReasonOf(e.error)), faulty);
    }
  }

  /** A too-old demotion, and a wrong-epoch one at the epoch boundary, comes only after a full grace
      since the first grace-checked rejection that followed the last certification. */
  lemma DemotionWaitsOutGrace(committeeSize: nat, events: seq<Event>)
    requires Demotes(Threshold(committeeSize), events) && GraceChecked(events[|events| - 1])
    ensures FirstChecked(events).Some?
    ensures FirstChecked(events).value + REJECTION_GRACE <= events[|events| - 1].now
  {
    DemotesIffThreshold(Threshold(committeeSize), events);
  }

  /** A rejection by a peer two or more epochs ahead of us. */
  predicate FarBehind(e: Event) {
    e.Failed? && e.error.EpochRejected? && e.error.peerEpoch >= e.error.ourEpoch + 2
  }

  ghost function FarRejecters(events: seq<Event>): set<Peer> {
    set e | e in SinceCertified(events) && FarBehind(e) :: PeerOf(e)
  }

  /** A node two or more epochs behind is not given the grace: whenever the rejections come, the
      threshold of distinct peers that far ahead demotes it, and where no nearer peer rejected its
      epoch since the last certification, nothing less does. */
  lemma FarBehindDemotesAtOnce(threshold: nat, events: seq<Event>)
    requires events != [] && FarBehind(events[|events| - 1])
    ensures |FarRejecters(events)| >= threshold ==> Demotes(threshold, events)
    ensures (forall e | e in SinceCertified(events) && Rejects(e, WrongEpoch) :: FarBehind(e)) ==>
              (Demotes(threshold, events) <==> |FarRejecters(events)| >= threshold)
  {
    var first := FirstChecked(events);
    DemotesIffThreshold(threshold, events);
    assert forall e | e in SinceCertified(events) && FarBehind(e) :: CountsFor(e, WrongEpoch, first);
    assert FarRejecters(events) <= Counted(events, WrongEpoch);
    SubsetSize(FarRejecters(events), Counted(events, WrongEpoch));
    if forall e | e in SinceCertified(events) && Rejects(e, WrongEpoch) :: FarBehind(e) {
      assert Counted(events, WrongEpoch) == FarRejecters(events);
    }
  }

  /** The pending mode after a trace handled in `mode`. */
  function PendingAfter(mode: Mode, threshold: nat, events: seq<Event>): Option<Mode> {
    if events == [] then None
    else
      var before := PendingAfter(mode, threshold, events[..|events| - 1]);
      if Demotes(threshold, events) then RequestMode(mode, before, CvvInactive) else before
  }

  predicate DemotesAt(threshold: nat, events: seq<Event>, k: nat)
    requires k <= |events|
  {
    Demotes(threshold, events[..k])
  }

  /** Some event of the trace requests the demotion. */
  ghost predicate EverDemotes(threshold: nat, events: seq<Event>) {
    exists k | 0 <= k <= |events| :: DemotesAt(threshold, events, k)
  }

  lemma EverDemotesMore(threshold: nat, events: seq<Event>)
    requires events != []
    ensures EverDemotes(threshold, events)
       <==> EverDemotes(threshold, events[..|events| - 1]) || Demotes(threshold, events)
  {
    var n := |events| - 1;
    forall k | 0 <= k <= n
      ensures DemotesAt(threshold, events[..n], k) == DemotesAt(threshold, events, k)
    {
      assert events[..n][..k] == events[..k];
    }
    assert events[..|events|] == events;
    assert DemotesAt(threshold, events, |events|) == Demotes(threshold, events);
  }

  /** A trace leaves a request with the epoch manager exactly when some event of it demotes and the
      node is an active validator, and what is requested is CvvInactive. */
  lemma {:induction false} OnlyActiveIsDemoted(mode: Mode, threshold: nat, events: seq<Event>)
    ensures PendingAfter(mode, threshold, events)
         == if mode == CvvActive && EverDemotes(threshold, events) then Some(CvvInactive) else None
  {
    if events == [] {
      assert forall k | 0 <= k <= |events| :: !DemotesAt(threshold, events, k);
    } else {
      OnlyActiveIsDemoted(mode, threshold, events[..|events| - 1]);
      EverDemotesMore(threshold, events);
    }
  }
}
