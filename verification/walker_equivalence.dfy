/** The bounded walker against the whole-table tally and against the live node's walker. */
module WalkerEquivalence {
  import opened Tables
  import opened RewardTally
  import opened BoundedWalker

  /** Leader epochs do not decrease with the consensus block number. */
  ghost predicate Monotone(t: Table) {
    forall i, j | i in t && j in t && i <= j :: t[i].epoch <= t[j].epoch
  }

  /** No row of `epoch` or a later one lies before `start`. */
  ghost predicate StartsBefore(t: Table, epoch: nat, start: nat) {
    forall k | k in t && t[k].epoch >= epoch :: start <= k
  }

  ghost predicate AscendingEpochs(closes: seq<Close>) {
    forall i, j | 0 <= i < j < |closes| :: closes[i].epoch < closes[j].epoch
  }

  // ----- Positioning -----

  lemma {:induction false} EpochAtFinds(t: Table, k: nat, last: nat)
    requires forall j | j in t :: j <= last
    ensures EpochAt(t, k, last).None? ==> forall j | j in t :: j < k
    ensures EpochAt(t, k, last).Some? ==>
              exists j | j in t && k <= j :: t[j].epoch == EpochAt(t, k, last).value && forall i | i in t && i < j :: i < k
    decreases last + 1 - k
  {
    if k <= last && k !in t {
      EpochAtFinds(t, k + 1, last);
    }
  }

  /** Every row below the position is of an earlier epoch, every row from it on is not. */
  ghost predicate Splits(t: Table, epoch: nat, p: nat) {
    && (forall k | k in t && k < p :: t[k].epoch < epoch)
    && (forall k | k in t && k >= p :: t[k].epoch >= epoch)
  }

  lemma {:induction false} SearchSplits(t: Table, epoch: nat, lo: nat, hi: nat, last: nat)
    requires Monotone(t) && lo <= hi && forall j | j in t :: j <= last
    requires forall k | k in t && k < lo :: t[k].epoch < epoch
    requires forall k | k in t && k >= hi :: t[k].epoch >= epoch
    ensures lo <= Search(t, epoch, lo, hi, last) <= hi
    ensures Splits(t, epoch, Search(t, epoch, lo, hi, last))
    decreases hi - lo
  {
    if lo < hi {
      var mid := lo + (hi - lo) / 2;
      EpochAtFinds(t, mid, last);
      var e := EpochAt(t, mid, last);
      if e.Some? && e.value < epoch {
        SearchSplits(t, epoch, mid + 1, hi, last);
      } else {
        SearchSplits(t, epoch, lo, mid, last);
      }
    }
  }

  /** On a table with non-decreasing epochs the binary search finds the epoch boundary. */
  lemma PositionedSplits(t: Table, epoch: nat)
    requires Monotone(t) && t != map[] && Last(t.Keys) < U64_MAX
    ensures Splits(t, epoch, Positioned(t, epoch))
  {
    assert forall j | j in t :: Min(t.Keys) <= j <= Last(t.Keys);
    SearchSplits(t, epoch, Min(t.Keys), Last(t.Keys) + 1, Last(t.Keys));
  }

  // ----- One walk, with no assumption on the order of epochs -----

  /** A walk that starts at or before every row of its epoch and later ones credits exactly the
      rows of its epoch that at most 16 later-epoch rows of the table precede. */
  lemma WalkCreditsUpToLookahead(t: Table, c: Close, start: nat)
    requires StartsBefore(t, c.epoch, start)
    ensures TallyOver(t, c, Reached(t, c.epoch, start))
         == TallyOver(t, c, set k | k in t && |LaterBetween(t, c.epoch, 0, k)| <= BOUNDARY_LOOKAHEAD)
  {
    var all := set k | k in t && |LaterBetween(t, c.epoch, 0, k)| <= BOUNDARY_LOOKAHEAD;
    forall k | k in t && t[k].epoch == c.epoch
      ensures k in Reached(t, c.epoch, start) <==> k in all
    {
      assert LaterBetween(t, c.epoch, 0, k) == LaterBetween(t, c.epoch, start, k);
    }
    assert CreditedIn(t, c, Reached(t, c.epoch, start)) == CreditedIn(t, c, all);
    TallyOfCredited(t, c, Reached(t, c.epoch, start), all);
  }

  /** The cursor a walk leaves lies at or before every row of a later epoch. */
  lemma ParkedStartsBefore(t: Table, epoch: nat, start: nat, later: nat)
    requires t != map[] && StartsBefore(t, epoch, start) && later > epoch
    ensures StartsBefore(t, later, Parked(t, epoch, start))
  {
    forall k | k in t && t[k].epoch >= later ensures Parked(t, epoch, start) <= k {
      assert k in LaterFrom(t, epoch, start);
    }
  }

  /** Over any ascending run from a cursor that starts before its first epoch, each close is
      credited its rows up to the lookahead, whatever the order of epochs in the table. */
  lemma {:induction false} ReplayCreditsUpToLookahead(t: Table, cursor: nat, closes: seq<Close>, i: nat)
    requires t != map[] && AscendingEpochs(closes) && i < |closes|
    requires StartsBefore(t, closes[0].epoch, cursor)
    ensures |Replay(t, Some(cursor), closes)| == |closes|
    ensures Replay(t, Some(cursor), closes)[i] == TallyOver(t, closes[i],
              set k | k in t && |LaterBetween(t, closes[i].epoch, 0, k)| <= BOUNDARY_LOOKAHEAD)
    decreases closes
  {
    var c, rest := closes[0], closes[1..];
    WalkCreditsUpToLookahead(t, c, cursor);
    if rest == [] {
      assert Replay(t, Some(Parked(t, c.epoch, cursor)), rest) == [];
    } else {
      ParkedStartsBefore(t, c.epoch, cursor, rest[0].epoch);
      ReplayCreditsUpToLookahead(t, Parked(t, c.epoch, cursor), rest, if i == 0 then 0 else i - 1);
    }
  }

  // ----- Non-decreasing epochs: the walk is the whole-table tally -----

  lemma LookaheadCoversMonotone(t: Table, c: Close)
    requires Monotone(t)
    ensures TallyOver(t, c, set k | k in t && |LaterBetween(t, c.epoch, 0, k)| <= BOUNDARY_LOOKAHEAD)
         == TallyOver(t, c, t.Keys)
  {
    var seen := set k | k in t && |LaterBetween(t, c.epoch, 0, k)| <= BOUNDARY_LOOKAHEAD;
    forall k | k in t && t[k].epoch == c.epoch ensures k in seen {
      assert LaterBetween(t, c.epoch, 0, k) == {};
    }
    assert CreditedIn(t, c, seen) == CreditedIn(t, c, t.Keys);
    TallyOfCredited(t, c, seen, t.Keys);
  }

  lemma SplitsStartsBefore(t: Table, epoch: nat, p: nat)
    requires Splits(t, epoch, p)
    ensures StartsBefore(t, epoch, p)
  {
  }

  /** Every strictly ascending sequence of closes returns, per close, exactly the tally of the
      whole table, through both the binary-search start and the resumed cursor. */
  lemma ReplayIsWholeTable(t: Table, closes: seq<Close>, i: nat)
    requires Monotone(t) && AscendingEpochs(closes) && i < |closes|
    requires t != map[] ==> Last(t.Keys) < U64_MAX
    ensures |Replay(t, None, closes)| == |closes|
    ensures Replay(t, None, closes)[i] == TallyOver(t, closes[i], t.Keys)
  {
    if t == map[] {
      EmptyReplay(t, closes, i);
    } else {
      var start := Positioned(t, closes[0].epoch);
      PositionedSplits(t, closes[0].epoch);
      SplitsStartsBefore(t, closes[0].epoch, start);
      assert Replay(t, None, closes) == Replay(t, Some(start), closes);
      ReplayCreditsUpToLookahead(t, start, closes, i);
      LookaheadCoversMonotone(t, closes[i]);
    }
  }

  lemma {:induction false} EmptyReplay(t: Table, closes: seq<Close>, i: nat)
    requires t == map[] && i < |closes|
    ensures |Replay(t, None, closes)| == |closes|
    ensures Replay(t, None, closes)[i] == TallyOver(t, closes[i], t.Keys)
    decreases closes
  {
    TallyOfNothing(t, closes[i], t.Keys);
    if |closes| > 1 {
      EmptyReplay(t, closes[1..], if i == 0 then 0 else i - 1);
    } else {
      assert Replay(t, None, closes[1..]) == [];
    }
  }

  // ----- The live node's walker -----

  /** The rows a walk from the newest row back reads before it meets an earlier epoch. */
  function ReadBack(t: Table, epoch: nat): set<nat> {
    set k | k in t && forall j | j in t && j >= k :: t[j].epoch >= epoch
  }

  /** Walks the table newest row first until it drops below the closing epoch. */
  method LiveTally(t: Table, c: Close) returns (tally: Tally)
    ensures tally == TallyOver(t, c, ReadBack(t, c.epoch))
  {
    tally := EMPTY_TALLY;
    var keys := KeysInOrder(t);
    var i, below := |keys|, false;
    TallyOfNothing(t, c, {});
    ghost var read: set<nat> := {};
    while i > 0 && !below
      invariant 0 <= i <= |keys|
      invariant read == set j | i <= j < |keys| :: keys[j]
      invariant forall k | k in read :: t[k].epoch >= c.epoch
      invariant tally == TallyOver(t, c, read)
      invariant below ==> i > 0 && t[keys[i - 1]].epoch < c.epoch
      decreases i, !below
    {
      var k := keys[i - 1];
      var row := t[k];
      if row.epoch < c.epoch {
        below := true;
      } else {
        assert k !in read;
        if row.epoch == c.epoch && row.round <= c.lastRound && row.round != 0 {
          TallyGrows(t, c, read, k);
          tally := Credit(tally, row, c.committee);
        } else {
          assert CreditedIn(t, c, read + {k}) == CreditedIn(t, c, read);
          TallyOfCredited(t, c, read + {k}, read);
        }
        read := read + {k};
        i := i - 1;
      }
    }
    assert read == ReadBack(t, c.epoch) by { BackIsSuffix(t, c.epoch, keys, i); }
  }

  lemma BackIsSuffix(t: Table, epoch: nat, keys: seq<nat>, i: nat)
    requires Ascending(keys) && (forall k :: k in keys <==> k in t) && i <= |keys|
    requires forall j | i <= j < |keys| :: t[keys[j]].epoch >= epoch
    requires i > 0 ==> t[keys[i - 1]].epoch < epoch
    ensures (set j | i <= j < |keys| :: keys[j]) == ReadBack(t, epoch)
  {
    var suffix := set j | i <= j < |keys| :: keys[j];
    forall k | k in t ensures k in suffix <==> k in ReadBack(t, epoch) {
      var j :| 0 <= j < |keys| && keys[j] == k;
      if i <= j {
        assert forall n | n in t && n >= k :: t[n].epoch >= epoch;
      } else {
        assert keys[i - 1] in t && keys[i - 1] >= k;
      }
    }
  }

  /** On a table with non-decreasing epochs the live walk is the whole-table tally. */
  lemma LiveIsWholeTable(t: Table, c: Close)
    requires Monotone(t)
    ensures TallyOver(t, c, ReadBack(t, c.epoch)) == TallyOver(t, c, t.Keys)
  {
    assert CreditedIn(t, c, ReadBack(t, c.epoch)) == CreditedIn(t, c, t.Keys);
    TallyOfCredited(t, c, ReadBack(t, c.epoch), t.Keys);
  }

  /** The bounded walker credits exactly as the live node's walker does, close by close. */
  lemma BoundedMatchesLive(t: Table, closes: seq<Close>, i: nat)
    requires Monotone(t) && AscendingEpochs(closes) && i < |closes|
    requires t != map[] ==> Last(t.Keys) < U64_MAX
    ensures |Replay(t, None, closes)| == |closes|
    ensures Replay(t, None, closes)[i] == TallyOver(t, closes[i], ReadBack(t, closes[i].epoch))
  {
    ReplayIsWholeTable(t, closes, i);
    LiveIsWholeTable(t, closes[i]);
  }

  // ----- The snapshot backend -----

  /** The leader rounds a close block commits as withdrawals, zero entries included. */
  function LeaderRounds(tally: Tally): map<Address, nat> {
    map a | a in tally.perAddress :: tally.perAddress[a].leader
  }

  /** A walked tally is served only when the block's withdrawals agree with it. */
  function Serve(tally: Tally, withdrawals: map<Address, nat>): Option<Tally> {
    if LeaderRounds(tally) == withdrawals then Some(tally) else None
  }

  /** The withdrawals are those of the table's rows: an address has one exactly if it led or joined a
      credited round, and it is the saturated number of rounds it led. */
  ghost predicate RightWithdrawals(t: Table, c: Close, withdrawals: map<Address, nat>) {
    && (forall a :: a in withdrawals <==>
          exists k | k in t && Credited(t[k], c) :: Leads(t[k], c, a) || Joins(t[k], c, a))
    && forall a | a in withdrawals :: withdrawals[a] == Sat(|LedIn(t, c, t.Keys, a)|)
  }

  lemma SameWithdrawals(t: Table, c: Close, a: map<Address, nat>, b: map<Address, nat>)
    requires RightWithdrawals(t, c, a) && RightWithdrawals(t, c, b)
    ensures a == b
  {
    assert a.Keys == b.Keys;
  }

  /** At every close of an ascending run the walked tally is served exactly when the block's withdrawals
      are those of the table's rows, and is then the whole-table tally. */
  lemma ServedIsExact(t: Table, closes: seq<Close>, i: nat, withdrawals: map<Address, nat>)
    requires Monotone(t) && AscendingEpochs(closes) && i < |closes| == |Replay(t, None, closes)|
    requires t != map[] ==> Last(t.Keys) < U64_MAX
    ensures Serve(Replay(t, None, closes)[i], withdrawals)
         == if RightWithdrawals(t, closes[i], withdrawals) then Some(TallyOver(t, closes[i], t.Keys)) else None
  {
    ReplayIsWholeTable(t, closes, i);
    WithdrawalsOfTally(t, closes[i]);
    if RightWithdrawals(t, closes[i], withdrawals) {
      SameWithdrawals(t, closes[i], withdrawals, LeaderRounds(TallyOver(t, closes[i], t.Keys)));
    }
  }

  lemma WithdrawalsOfTally(t: Table, c: Close)
    ensures RightWithdrawals(t, c, LeaderRounds(TallyOver(t, c, t.Keys)))
  {
    forall a ensures a in LeaderRounds(TallyOver(t, c, t.Keys)) <==>
      exists k | k in t && Credited(t[k], c) :: Leads(t[k], c, a) || Joins(t[k], c, a)
    {
      EntryIffCredited(t, c, a);
    }
  }

  lemma EntryIffCredited(t: Table, c: Close, a: Address)
    ensures a in TallyOver(t, c, t.Keys).perAddress <==>
              exists k | k in t && Credited(t[k], c) :: Leads(t[k], c, a) || Joins(t[k], c, a)
  {
    var led, joined := LedIn(t, c, t.Keys, a), JoinedIn(t, c, t.Keys, a);
    if k :| k in t && Credited(t[k], c) && (Leads(t[k], c, a) || Joins(t[k], c, a)) {
      assert k in led || k in joined;
    }
    if a in TallyOver(t, c, t.Keys).perAddress {
      var k :| k in led + joined;
      assert Credited(t[k], c);
    }
  }
}
