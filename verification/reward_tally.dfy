/** Hybrid-reward tallies: what a set of consensus rows earns each validator, stated by counting
    rows, and the row-by-row crediting both walkers perform. */
module RewardTally {
  import opened Tables

  type AuthorityId = nat
  type Address = nat

  /** A committee resolves authority identifiers to execution addresses. */
  type Committee = map<AuthorityId, Address>

  /** The projection of a consensus row the tally reads; participants may repeat. */
  datatype Row = Row(epoch: nat, round: nat, leader: AuthorityId, participants: seq<AuthorityId>)

  /** Consensus rows by consensus block number; keys may have gaps. */
  type Table = map<nat, Row>

  datatype Counts = Counts(participation: nat, leader: nat)

  datatype Tally = Tally(perAddress: map<Address, Counts>, total: nat)

  const NO_COUNTS := Counts(0, 0)
  const EMPTY_TALLY := Tally(map[], 0)

  const U32_MAX: nat := 0xFFFF_FFFF

  /** A count kept in a saturating 32-bit counter. */
  function Sat(n: nat): nat {
    if n <= U32_MAX then n else U32_MAX
  }

  function Inc(n: nat): nat {
    if n < U32_MAX then n + 1 else n
  }

  // ----- The tally of a set of rows, by counting -----

  /** One epoch close: the epoch, the last round executed at it and the committee in office. */
  datatype Close = Close(epoch: nat, lastRound: nat, committee: Committee)

  predicate Credited(row: Row, c: Close) {
    row.epoch == c.epoch && 1 <= row.round <= c.lastRound
  }

  predicate Leads(row: Row, c: Close, a: Address) {
    row.leader in c.committee && c.committee[row.leader] == a
  }

  /** The execution addresses that hold a certificate in the row, each once. */
  function Participating(participants: seq<AuthorityId>, committee: Committee): set<Address> {
    set p | p in participants && p in committee :: committee[p]
  }

  predicate Joins(row: Row, c: Close, a: Address) {
    a in Participating(row.participants, c.committee)
  }

  function CreditedIn(t: Table, c: Close, keys: set<nat>): set<nat> {
    set k | k in keys && k in t && Credited(t[k], c)
  }

  function LedIn(t: Table, c: Close, keys: set<nat>, a: Address): set<nat> {
    set k | k in keys && k in t && Credited(t[k], c) && Leads(t[k], c, a)
  }

  function JoinedIn(t: Table, c: Close, keys: set<nat>, a: Address): set<nat> {
    set k | k in keys && k in t && Credited(t[k], c) && Joins(t[k], c, a)
  }

  function CountsIn(t: Table, c: Close, keys: set<nat>, a: Address): Counts {
    Counts(Sat(|JoinedIn(t, c, keys, a)|), Sat(|LedIn(t, c, keys, a)|))
  }

  /** The tally of the rows at `keys`: per address the rounds led and the rounds joined, with an
      entry for each address that has either, and the number of rounds credited. */
  function TallyOver(t: Table, c: Close, keys: set<nat>): Tally {
    Tally(map a | a in c.committee.Values
                  && (LedIn(t, c, keys, a) != {} || JoinedIn(t, c, keys, a) != {}) ::
            CountsIn(t, c, keys, a),
          Sat(|CreditedIn(t, c, keys)|))
  }

  // ----- Crediting one row -----

  function CountsOf(m: map<Address, Counts>, a: Address): Counts {
    if a in m then m[a] else NO_COUNTS
  }

  function BumpLeader(m: map<Address, Counts>, row: Row, committee: Committee): map<Address, Counts> {
    if row.leader in committee then
      var a := committee[row.leader];
      m[a := CountsOf(m, a).(leader := Inc(CountsOf(m, a).leader))]
    else m
  }

  function BumpParticipants(m: map<Address, Counts>, who: set<Address>): map<Address, Counts> {
    map a | a in m.Keys + who ::
      if a in who then CountsOf(m, a).(participation := Inc(CountsOf(m, a).participation)) else m[a]
  }

  function CreditRow(tally: Tally, row: Row, committee: Committee): Tally {
    Tally(BumpParticipants(BumpLeader(tally.perAddress, row, committee),
                           Participating(row.participants, committee)),
          Inc(tally.total))
  }

  lemma ParticipatingSteps(participants: seq<AuthorityId>, committee: Committee, i: nat)
    requires i < |participants|
    ensures Participating(participants[..i + 1], committee)
         == Participating(participants[..i], committee)
            + (if participants[i] in committee then {committee[participants[i]]} else {})
  {
  }

  lemma BumpSteps(m: map<Address, Counts>, who: set<Address>, a: Address)
    requires a !in who
    ensures var m' := BumpParticipants(m, who);
            BumpParticipants(m, who + {a})
            == m'[a := CountsOf(m', a).(participation := Inc(CountsOf(m', a).participation))]
  {
  }

  /** One participation credit per distinct address, as the walkers loop over the authors. */
  method CreditParticipants(m: map<Address, Counts>, participants: seq<AuthorityId>, committee: Committee)
    returns (m': map<Address, Counts>)
    ensures m' == BumpParticipants(m, Participating(participants, committee))
  {
    m' := m;
    var seen: set<Address> := {};
    assert BumpParticipants(m, {}) == m;
    for i := 0 to |participants|
      invariant seen == Participating(participants[..i], committee)
      invariant m' == BumpParticipants(m, seen)
    {
      ParticipatingSteps(participants, committee, i);
      var p := participants[i];
      if p in committee {
        var a := committee[p];
        if a !in seen {
          BumpSteps(m, seen, a);
          m' := m'[a := CountsOf(m', a).(participation := Inc(CountsOf(m', a).participation))];
          seen := seen + {a};
        }
      }
    }
    assert participants[..|participants|] == participants;
  }

  method Credit(tally: Tally, row: Row, committee: Committee) returns (tally': Tally)
    ensures tally' == CreditRow(tally, row, committee)
  {
    var m := tally.perAddress;
    if row.leader in committee {
      var a := committee[row.leader];
      m := m[a := CountsOf(m, a).(leader := Inc(CountsOf(m, a).leader))];
    }
    m := CreditParticipants(m, row.participants, committee);
    tally' := Tally(m, Inc(tally.total));
  }

  // ----- Counting and crediting agree -----

  lemma LedGrows(t: Table, c: Close, keys: set<nat>, k: nat, a: Address)
    requires k in t && k !in keys && Credited(t[k], c)
    ensures var led, led' := LedIn(t, c, keys, a), LedIn(t, c, keys + {k}, a);
            && (led' == {} <==> led == {} && !Leads(t[k], c, a))
            && Sat(|led'|) == if Leads(t[k], c, a) then Inc(Sat(|led|)) else Sat(|led|)
  {
    var led, led' := LedIn(t, c, keys, a), LedIn(t, c, keys + {k}, a);
    if Leads(t[k], c, a) {
      assert led' == led + {k};
    } else {
      assert led' == led;
    }
  }

  lemma JoinedGrows(t: Table, c: Close, keys: set<nat>, k: nat, a: Address)
    requires k in t && k !in keys && Credited(t[k], c)
    ensures var joined, joined' := JoinedIn(t, c, keys, a), JoinedIn(t, c, keys + {k}, a);
            && (joined' == {} <==> joined == {} && !Joins(t[k], c, a))
            && Sat(|joined'|) == if Joins(t[k], c, a) then Inc(Sat(|joined|)) else Sat(|joined|)
  {
    var joined, joined' := JoinedIn(t, c, keys, a), JoinedIn(t, c, keys + {k}, a);
    if Joins(t[k], c, a) {
      assert joined' == joined + {k};
    } else {
      assert joined' == joined;
    }
  }

  /** The counts a tally reports for an address, whether or not it has an entry. */
  lemma CountsOfTally(t: Table, c: Close, keys: set<nat>, a: Address)
    requires a in c.committee.Values
    ensures CountsOf(TallyOver(t, c, keys).perAddress, a) == CountsIn(t, c, keys, a)
  {
  }

  lemma CreditedCounts(m: map<Address, Counts>, row: Row, c: Close, a: Address)
    ensures var m' := BumpParticipants(BumpLeader(m, row, c.committee), Participating(row.participants, c.committee));
            && (a in m' <==> a in m || Leads(row, c, a) || Joins(row, c, a))
            && CountsOf(m', a).leader
               == (if Leads(row, c, a) then Inc(CountsOf(m, a).leader) else CountsOf(m, a).leader)
            && CountsOf(m', a).participation
               == (if Joins(row, c, a) then Inc(CountsOf(m, a).participation) else CountsOf(m, a).participation)
  {
  }

  lemma EntryGrows(t: Table, c: Close, keys: set<nat>, k: nat, a: Address)
    requires k in t && k !in keys && Credited(t[k], c)
    ensures var new', credited := TallyOver(t, c, keys + {k}).perAddress,
                                  CreditRow(TallyOver(t, c, keys), t[k], c.committee).perAddress;
            (a in new' <==> a in credited) && CountsOf(new', a) == CountsOf(credited, a)
  {
    CreditedCounts(TallyOver(t, c, keys).perAddress, t[k], c, a);
    LedGrows(t, c, keys, k, a);
    JoinedGrows(t, c, keys, k, a);
    if a in c.committee.Values {
      CountsOfTally(t, c, keys, a);
      CountsOfTally(t, c, keys + {k}, a);
    }
  }

  /** Adding a credited row to the set of rows credits it in the tally. */
  lemma TallyGrows(t: Table, c: Close, keys: set<nat>, k: nat)
    requires k in t && k !in keys && Credited(t[k], c)
    ensures TallyOver(t, c, keys + {k}) == CreditRow(TallyOver(t, c, keys), t[k], c.committee)
  {
    var new', credited := TallyOver(t, c, keys + {k}), CreditRow(TallyOver(t, c, keys), t[k], c.committee);
    assert CreditedIn(t, c, keys + {k}) == CreditedIn(t, c, keys) + {k};
    forall a ensures (a in new'.perAddress <==> a in credited.perAddress)
                     && CountsOf(new'.perAddress, a) == CountsOf(credited.perAddress, a)
    {
      EntryGrows(t, c, keys, k, a);
    }
    SameCounts(new'.perAddress, credited.perAddress);
  }

  lemma SameCounts(m: map<Address, Counts>, m': map<Address, Counts>)
    requires forall a :: (a in m <==> a in m') && CountsOf(m, a) == CountsOf(m', a)
    ensures m == m'
  {
  }

  /** Only the credited rows matter. */
  lemma TallyOfCredited(t: Table, c: Close, keys: set<nat>, keys': set<nat>)
    requires CreditedIn(t, c, keys) == CreditedIn(t, c, keys')
    ensures TallyOver(t, c, keys) == TallyOver(t, c, keys')
  {
    forall a ensures LedIn(t, c, keys, a) == LedIn(t, c, keys', a)
             ensures JoinedIn(t, c, keys, a) == JoinedIn(t, c, keys', a)
    {
      forall k ensures k in LedIn(t, c, keys, a) <==> k in LedIn(t, c, keys', a)
               ensures k in JoinedIn(t, c, keys, a) <==> k in JoinedIn(t, c, keys', a)
      {
        assert k in CreditedIn(t, c, keys) <==> k in CreditedIn(t, c, keys');
      }
    }
  }

  lemma TallyOfNothing(t: Table, c: Close, keys: set<nat>)
    requires CreditedIn(t, c, keys) == {}
    ensures TallyOver(t, c, keys) == EMPTY_TALLY
  {
  }
}
