/** The certificate fetcher's request: which rounds it skips, the tightened bound, the wire form. */
module CertificateFetcher {
  import opened Tables

  type Authority = nat
  type Round = nat
  type Rounds = map<Authority, set<Round>>

  /** The authorities with a stored certificate of a round. */
  datatype Origins = Origins(round: Round, authorities: seq<Authority>)

  /** What a request asks for: certificates of its authorities above the bound, but not the skipped. */
  predicate Asks(bound: Round, skips: Rounds, a: Authority, r: Round) {
    a in skips && r > bound && r !in skips[a]
  }

  ghost predicate SameRequest(bound: Round, skips: Rounds, bound': Round, skips': Rounds) {
    forall a, r :: Asks(bound, skips, a, r) <==> Asks(bound', skips', a, r)
  }

  // ----- Rounds already written -----

  ghost predicate Has(origins: seq<Origins>, a: Authority, r: Round) {
    exists o | o in origins :: o.round == r && a in o.authorities
  }

  ghost predicate WrittenOf(committee: set<Authority>, origins: seq<Origins>, written: Rounds) {
    && written.Keys == committee
    && forall a, r | a in committee :: r in written[a] <==> Has(origins, a, r)
  }

  method WrittenRounds(committee: set<Authority>, origins: seq<Origins>) returns (written: Rounds)
    ensures WrittenOf(committee, origins, written)
  {
    written := map a | a in committee :: {};
    for i := 0 to |origins|
      invariant WrittenOf(committee, origins[..i], written)
    {
      assert origins[..i + 1] == origins[..i] + [origins[i]];
      written := WriteRound(written, origins[i]);
    }
    assert origins[..|origins|] == origins;
  }

  /** Adds a round to each of its authorities that the map has. */
  method WriteRound(written: Rounds, o: Origins) returns (more: Rounds)
    ensures more.Keys == written.Keys
    ensures forall a, r | a in written :: r in more[a] <==> r in written[a] || (r == o.round && a in o.authorities)
  {
    more := written;
    for i := 0 to |o.authorities|
      invariant more.Keys == written.Keys
      invariant forall a, r | a in written ::
                  r in more[a] <==> r in written[a] || (r == o.round && a in o.authorities[..i])
    {
      var origin := o.authorities[i];
      assert o.authorities[..i + 1] == o.authorities[..i] + [origin];
      if origin in more {
        more := more[origin := more[origin] + {o.round}];
      }
    }
    assert o.authorities[..|o.authorities|] == o.authorities;
  }

  // ----- The tightened bound -----

  /** Every round above `gc` up to `end` is there. */
  predicate Contiguous(gc: Round, rounds: set<Round>, end: Round) {
    forall r | gc < r <= end :: r in rounds
  }

  predicate AllAbove(gc: Round, rounds: set<Round>) {
    forall r | r in rounds :: r > gc
  }

  /** The last round of the unbroken stretch above `gc`; a round at or below `gc` hides the stretch. */
  method ContiguousPrefix(gc: Round, rounds: set<Round>) returns (end: Round)
    ensures end >= gc && Contiguous(gc, rounds, end)
    ensures EndsAt(gc, rounds, end)
  {
    var ascending := InOrder(rounds);
    var expected, i := gc + 1, 0;
    while i < |ascending| && ascending[i] == expected
      invariant i <= |ascending| && expected == gc + 1 + i
      invariant forall k | 0 <= k < i :: ascending[k] == gc + 1 + k
    {
      expected, i := ascending[i] + 1, i + 1;
    }
    end := expected - 1;
    forall r | gc < r <= end
      ensures r in rounds
    {
      assert ascending[r - gc - 1] == r;
    }
    if AllAbove(gc, rounds) {
      if i < |ascending| {
        assert ascending[i] in rounds && (i > 0 ==> ascending[i - 1] == end);
      }
    } else {
      var stale :| stale in rounds && stale <= gc;
      assert stale in ascending && ascending[0] <= stale;
    }
  }

  /** The unbroken stretch ends at the bound, or is hidden. */
  predicate EndsAt(gc: Round, rounds: set<Round>, bound: Round) {
    if AllAbove(gc, rounds) then bound + 1 !in rounds else bound == gc
  }

  predicate Within(gc: Round, rounds: set<Round>, bound: Round) {
    Contiguous(gc, rounds, bound) && (AllAbove(gc, rounds) || bound == gc)
  }

  /** The bound is within every authority's unbroken stretch and at the end of one of them. */
  ghost predicate Tight(gc: Round, written: Rounds, bound: Round) {
    && bound >= gc
    && (forall a | a in written :: Within(gc, written[a], bound))
    && (if written == map[] then bound == gc else exists a | a in written :: EndsAt(gc, written[a], bound))
  }

  ghost predicate TightFor(gc: Round, written: Rounds, bound: Round, done: seq<Authority>) {
    && bound >= gc
    && (forall a | a in done :: a in written && Within(gc, written[a], bound))
    && exists a | a in done :: EndsAt(gc, written[a], bound)
  }

  lemma TightStep(gc: Round, written: Rounds, bound: Round, done: seq<Authority>, a: Authority, end: Round)
    requires TightFor(gc, written, bound, done) && a in written
    requires end >= gc && Contiguous(gc, written[a], end) && EndsAt(gc, written[a], end)
    ensures TightFor(gc, written, if end < bound then end else bound, done + [a])
  {
  }

  /** The largest bound whose rounds above `gc` every authority has. */
  method TightenLowerBound(gc: Round, written: Rounds) returns (bound: Round)
    ensures Tight(gc, written, bound)
  {
    if written == map[] {
      return gc;
    }
    var authorities := KeysInOrder(written);
    ghost var some :| some in written;
    assert some in authorities;
    bound := ContiguousPrefix(gc, written[authorities[0]]);
    ghost var done := authorities[..1];
    assert done == [authorities[0]] && authorities[0] in done;
    for i := 1 to |authorities|
      invariant done == authorities[..i] && TightFor(gc, written, bound, done)
    {
      var a := authorities[i];
      assert a in authorities;
      var end := ContiguousPrefix(gc, written[a]);
      TightStep(gc, written, bound, done, a, end);
      PrefixGrows(authorities, i);
      bound, done := if end < bound then end else bound, done + [a];
    }
    assert done == authorities;
    TightForAll(gc, written, bound, authorities);
  }

  lemma TightForAll(gc: Round, written: Rounds, bound: Round, authorities: seq<Authority>)
    requires TightFor(gc, written, bound, authorities) && forall a :: a in authorities <==> a in written
    ensures Tight(gc, written, bound)
  {
  }

  // ----- The request -----

  /** Drops the skip-rounds a bound makes useless. */
  function Pruned(bound: Round, written: Rounds): (skips: Rounds)
    ensures skips.Keys == written.Keys
    ensures forall a | a in skips :: AllAbove(bound, skips[a]) && skips[a] <= written[a]
  {
    map a | a in written :: set r | r in written[a] && r > bound
  }

  /** The bounds from `gc` on that, with the skip-rounds pruned, ask for the same certificates as the
      full sets do above `gc` are exactly those up to the tightened one. */
  lemma TightenedIsLargest(gc: Round, written: Rounds, bound: Round, b: Round)
    requires Tight(gc, written, bound) && gc <= b
    requires written != map[] && forall a | a in written :: AllAbove(gc, written[a])
    ensures SameRequest(gc, written, b, Pruned(b, written)) <==> b <= bound
  {
    if b <= bound {
      TightenedIsSame(gc, written, bound, b);
    } else {
      var a :| a in written && EndsAt(gc, written[a], bound);
      assert Asks(gc, written, a, bound + 1) && !Asks(b, Pruned(b, written), a, bound + 1);
    }
  }

  /** Raising the bound up to the tightened one, for any sets, never changes the request. */
  lemma TightenedIsSame(gc: Round, written: Rounds, bound: Round, b: Round)
    requires Tight(gc, written, bound) && gc <= b <= bound
    ensures SameRequest(gc, written, b, Pruned(b, written))
  {
    forall a: Authority, r: Round
      ensures Asks(gc, written, a, r) <==> Asks(b, Pruned(b, written), a, r)
    {
      if a in written && gc < r <= b {
        assert Within(gc, written[a], bound);
      }
    }
  }

  ghost predicate NoLargerAsksTheSame(gc: Round, written: Rounds, bound: Round) {
    forall b: Round | b > bound :: !SameRequest(gc, written, b, Pruned(b, written))
  }

  /** The tightened bound is the largest that asks for the same certificates exactly when no round at
      or below `gc` is among the skip-rounds, or some authority lacks the round after `gc`. */
  lemma LargestIff(gc: Round, written: Rounds, bound: Round)
    requires Tight(gc, written, bound) && written != map[]
    ensures NoLargerAsksTheSame(gc, written, bound) <==>
            || (forall a | a in written :: AllAbove(gc, written[a]))
            || (exists a | a in written :: gc + 1 !in written[a])
  {
    if forall a | a in written :: AllAbove(gc, written[a]) {
      forall b: Round | b > bound
        ensures !SameRequest(gc, written, b, Pruned(b, written))
      {
        TightenedIsLargest(gc, written, bound, b);
      }
    } else if a :| a in written && gc + 1 !in written[a] {
      forall b: Round | b > bound
        ensures !SameRequest(gc, written, b, Pruned(b, written))
      {
        assert Asks(gc, written, a, gc + 1) && !Asks(b, Pruned(b, written), a, gc + 1);
      }
    } else {
      var stale :| stale in written && !AllAbove(gc, written[stale]);
      assert Within(gc, written[stale], bound);
      NextRoundHeldByAll(gc, written);
    }
  }

  lemma NextRoundHeldByAll(gc: Round, written: Rounds)
    requires forall a | a in written :: gc + 1 in written[a]
    ensures SameRequest(gc, written, gc + 1, Pruned(gc + 1, written))
  {
    forall a: Authority, r: Round
      ensures Asks(gc, written, a, r) <==> Asks(gc + 1, Pruned(gc + 1, written), a, r)
    {
    }
  }

  /** The store is read from the round after `gc` on, so the bound of the fetcher's own sets is the
      largest. */
  lemma FetchedBoundIsLargest(gc: Round, committee: set<Authority>, origins: seq<Origins>, written: Rounds, bound: Round)
    requires WrittenOf(committee, origins, written) && committee != {} && Tight(gc, written, bound)
    requires forall o | o in origins :: o.round >= gc + 1
    ensures NoLargerAsksTheSame(gc, written, bound)
  {
    forall a | a in written
      ensures AllAbove(gc, written[a])
    {
      forall r | r in written[a]
        ensures r > gc
      {
        assert Has(origins, a, r);
      }
    }
    LargestIff(gc, written, bound);
  }

  // ----- The wire form -----

  /** A request as sent: skip-rounds as distances from the bound, none below zero. */
  datatype Request = Request(bound: Round, deltas: map<Authority, set<nat>>)

  function Delta(bound: Round, r: Round): nat {
    if r < bound then 0 else r - bound
  }

  function Deltas(bound: Round, rounds: set<Round>): set<nat> {
    set r | r in rounds :: Delta(bound, r)
  }

  function ReadBack(bound: Round, deltas: set<nat>): set<Round> {
    set d | d in deltas :: bound + d
  }

  function SetBounds(bound: Round, skips: Rounds): Request {
    Request(bound, map a | a in skips :: Deltas(bound, skips[a]))
  }

  predicate TooMany(q: Request, maxRounds: nat, keep: set<Authority>) {
    exists a | a in q.deltas && a in keep :: |q.deltas[a]| > maxRounds
  }

  function ReadDeltas(q: Request, keep: set<Authority>): Rounds {
    map a | a in q.deltas && a in keep :: ReadBack(q.bound, q.deltas[a])
  }

  /** What the serving peer reads, for the origins it keeps; too many skip-rounds are refused. */
  function GetBounds(q: Request, maxRounds: nat, keep: set<Authority>): Option<(Round, Rounds)> {
    if TooMany(q, maxRounds, keep) then None
    else Some((q.bound, ReadDeltas(q, keep)))
  }

  lemma ReadsBackAbove(bound: Round, rounds: set<Round>, r: Round)
    requires r > bound
    ensures r in ReadBack(bound, Deltas(bound, rounds)) <==> r in rounds
  {
    if r in rounds {
      assert Delta(bound, r) in Deltas(bound, rounds);
      assert bound + (r - bound) in ReadBack(bound, Deltas(bound, rounds));
    }
  }

  lemma ReadsBackAll(bound: Round, rounds: set<Round>)
    requires AllAbove(bound, rounds)
    ensures ReadBack(bound, Deltas(bound, rounds)) == rounds
  {
    var read := ReadBack(bound, Deltas(bound, rounds));
    forall r | r in read || r in rounds
      ensures r in read <==> r in rounds
    {
      if r > bound {
        ReadsBackAbove(bound, rounds, r);
      }
    }
  }

  lemma {:induction false} DistancesDiffer(bound: Round, rounds: set<Round>)
    requires AllAbove(bound, rounds)
    ensures |Deltas(bound, rounds)| == |rounds| && 0 !in Deltas(bound, rounds)
    decreases |rounds|
  {
    if r :| r in rounds {
      DistancesDiffer(bound, rounds - {r});
      assert Deltas(bound, rounds) == Deltas(bound, rounds - {r}) + {r - bound};
    } else {
      assert Deltas(bound, rounds) == {};
    }
  }

  function Above(bound: Round, rounds: set<Round>): set<Round> {
    set r | r in rounds && r > bound
  }

  /** How many rounds a set of skip-rounds is sent as: those above the bound, and one for all others. */
  function SentRounds(bound: Round, rounds: set<Round>): nat {
    |Above(bound, rounds)| + (if rounds <= Above(bound, rounds) then 0 else 1)
  }

  lemma SentSize(bound: Round, rounds: set<Round>)
    ensures |Deltas(bound, rounds)| == SentRounds(bound, rounds)
  {
    var above := Above(bound, rounds);
    DistancesDiffer(bound, above);
    if rounds <= above {
      assert rounds == above;
    } else {
      var low :| low in rounds && low !in above;
      assert Delta(bound, low) == 0;
      assert Deltas(bound, rounds) == Deltas(bound, above) + {0};
    }
  }

  /** The peer reads a request exactly when no authority it keeps has more skip-rounds than it allows. */
  lemma ReadIff(bound: Round, skips: Rounds, maxRounds: nat, keep: set<Authority>)
    ensures GetBounds(SetBounds(bound, skips), maxRounds, keep).Some? <==>
            forall a | a in skips && a in keep :: SentRounds(bound, skips[a]) <= maxRounds
  {
    var q := SetBounds(bound, skips);
    forall a | a in skips
      ensures a in q.deltas && |q.deltas[a]| == SentRounds(bound, skips[a])
    {
      SentSize(bound, skips[a]);
    }
  }

  /** What the peer reads, whenever it reads at all: the bound as sent, and for the authorities it keeps,
      and no others, skip-rounds that ask for the same certificates and are those sent when pruned. */
  lemma RequestRoundTrips(bound: Round, skips: Rounds, maxRounds: nat, keep: set<Authority>)
    requires GetBounds(SetBounds(bound, skips), maxRounds, keep).Some?
    ensures var (read, rounds) := GetBounds(SetBounds(bound, skips), maxRounds, keep).value;
            && read == bound
            && (forall a: Authority, r: Round :: Asks(bound, rounds, a, r) <==> a in keep && Asks(bound, skips, a, r))
            && (forall a :: a in rounds <==> a in skips && a in keep)
            && forall a | a in rounds && AllAbove(bound, skips[a]) :: rounds[a] == skips[a]
  {
    var rounds := GetBounds(SetBounds(bound, skips), maxRounds, keep).value.1;
    forall a | a in rounds
      ensures rounds[a] == ReadBack(bound, Deltas(bound, skips[a]))
      ensures AllAbove(bound, skips[a]) ==> rounds[a] == skips[a]
    {
      if AllAbove(bound, skips[a]) {
        ReadsBackAll(bound, skips[a]);
      }
    }
    forall a: Authority, r: Round
      ensures Asks(bound, rounds, a, r) <==> a in keep && Asks(bound, skips, a, r)
    {
      if a in skips && a in keep && r > bound {
        ReadsBackAbove(bound, skips[a], r);
      }
    }
  }

  lemma PrunedIsAbove(bound: Round, written: Rounds, a: Authority)
    requires a in written
    ensures Pruned(bound, written)[a] == Above(bound, written[a])
    ensures SentRounds(bound, Pruned(bound, written)[a]) == |Above(bound, written[a])|
  {
    assert Above(bound, Pruned(bound, written)[a]) == Above(bound, written[a]);
  }

  /** A pruned request of kept authorities is read, and as it was sent, exactly when no authority has more
      rounds above the bound than allowed. */
  lemma PrunedReads(bound: Round, written: Rounds, maxRounds: nat, keep: set<Authority>)
    requires written.Keys <= keep
    ensures var got := GetBounds(SetBounds(bound, Pruned(bound, written)), maxRounds, keep);
            got == if forall a | a in written :: |Above(bound, written[a])| <= maxRounds
                   then Some((bound, Pruned(bound, written))) else None
  {
    ReadIff(bound, Pruned(bound, written), maxRounds, keep);
    forall a | a in written {
      PrunedIsAbove(bound, written, a);
    }
    if GetBounds(SetBounds(bound, Pruned(bound, written)), maxRounds, keep).Some? {
      PrunedReadsBack(bound, Pruned(bound, written), maxRounds, keep);
    }
  }

  lemma PrunedReadsBack(bound: Round, skips: Rounds, maxRounds: nat, keep: set<Authority>)
    requires skips.Keys <= keep && (forall a | a in skips :: AllAbove(bound, skips[a]))
    requires GetBounds(SetBounds(bound, skips), maxRounds, keep).Some?
    ensures GetBounds(SetBounds(bound, skips), maxRounds, keep).value == (bound, skips)
  {
    RequestRoundTrips(bound, skips, maxRounds, keep);
    SameRounds(GetBounds(SetBounds(bound, skips), maxRounds, keep).value.1, skips);
  }

  lemma SameRounds(a: Rounds, b: Rounds)
    requires forall x :: x in a <==> x in b
    requires forall x | x in a && x in b :: a[x] == b[x]
    ensures a == b
  {
  }

  /** From the store to the peer: the request is read exactly when no authority has more rounds stored
      above the bound than the peer allows, and then asks for every certificate of the committee above
      the garbage-collection round that is not stored. */
  lemma PeerIsAskedForTheMissing(gc: Round, committee: set<Authority>, origins: seq<Origins>, written: Rounds, bound: Round,
                                 maxRounds: nat)
    requires WrittenOf(committee, origins, written) && Tight(gc, written, bound)
    ensures var got := GetBounds(SetBounds(bound, Pruned(bound, written)), maxRounds, committee);
            && (got.Some? <==> forall a | a in written :: |Above(bound, written[a])| <= maxRounds)
            && (got.Some? ==> forall a: Authority, r: Round ::
                  Asks(got.value.0, got.value.1, a, r) <==> a in committee && r > gc && !Has(origins, a, r))
  {
    PrunedReads(bound, written, maxRounds, committee);
    TightenedIsSame(gc, written, bound, bound);
  }
}
