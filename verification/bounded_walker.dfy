/** The replay's forward, cursor-based walker over the snapshot's consensus rows. */
module BoundedWalker {
  import opened Tables
  import opened RewardTally

  /** Rows of a later epoch tolerated past an epoch boundary before the walk stops. */
  const BOUNDARY_LOOKAHEAD: nat := 16
  const U64_MAX: nat := 0xFFFF_FFFF_FFFF_FFFF

  // ----- Positioning by binary search -----

  /** Leader epoch of the row at `k`, or of the first row after it up to `last`. */
  function EpochAt(t: Table, k: nat, last: nat): Option<nat>
    decreases last + 1 - k
  {
    if k > last then None
    else if k in t then Some(t[k].epoch)
    else EpochAt(t, k + 1, last)
  }

  function Search(t: Table, epoch: nat, lo: nat, hi: nat, last: nat): nat
    decreases hi - lo
  {
    if lo >= hi then lo
    else
      var mid := lo + (hi - lo) / 2;
      var e := EpochAt(t, mid, last);
      if e.Some? && e.value < epoch then Search(t, epoch, mid + 1, hi, last)
      else Search(t, epoch, lo, mid, last)
  }

  /** One past `k`, saturating at the largest key. */
  function Above(k: nat): nat {
    if k < U64_MAX then k + 1 else U64_MAX
  }

  function Positioned(t: Table, epoch: nat): nat
    requires t != map[]
  {
    Search(t, epoch, Min(t.Keys), Above(Last(t.Keys)), Last(t.Keys))
  }

  // ----- One walk -----

  /** The rows of later epochs from `start` up to but not including `end`. */
  function LaterBetween(t: Table, epoch: nat, start: nat, end: nat): set<nat> {
    set k | k in t && start <= k < end && t[k].epoch > epoch
  }

  function LaterFrom(t: Table, epoch: nat, start: nat): set<nat> {
    set k | k in t && start <= k && t[k].epoch > epoch
  }

  /** The rows a walk from `start` reads: those with no more than the tolerated number of
      later-epoch rows before them. */
  function Reached(t: Table, epoch: nat, start: nat): set<nat> {
    set k | k in t && start <= k && |LaterBetween(t, epoch, start, k)| <= BOUNDARY_LOOKAHEAD
  }

  /** Where the walk leaves the cursor: at the first later-epoch row, or past the table. */
  function Parked(t: Table, epoch: nat, start: nat): nat
    requires t != map[]
  {
    if LaterFrom(t, epoch, start) != {} then Min(LaterFrom(t, epoch, start))
    else if start > Last(t.Keys) then start else Last(t.Keys) + 1
  }

  datatype Walked = Walked(tally: Tally, cursor: Option<nat>)

  /** One tally call, on the cursor the previous call left. */
  function TallyHybrid(t: Table, cursor: Option<nat>, c: Close): Walked {
    if t == map[] then Walked(EMPTY_TALLY, cursor)
    else
      var start := if cursor.Some? then cursor.value else Positioned(t, c.epoch);
      Walked(TallyOver(t, c, Reached(t, c.epoch, start)), Some(Parked(t, c.epoch, start)))
  }

  /** The tallies of a sequence of closes, each resuming where the previous one parked. */
  function Replay(t: Table, cursor: Option<nat>, closes: seq<Close>): seq<Tally>
    decreases closes
  {
    if closes == [] then []
    else
      var w := TallyHybrid(t, cursor, closes[0]);
      [w.tally] + Replay(t, w.cursor, closes[1..])
  }

  // ----- The running code -----

  method FindEpochAt(t: Table, key: nat, last: nat) returns (e: Option<nat>)
    ensures e == EpochAt(t, key, last)
  {
    var k := key;
    while k <= last
      invariant EpochAt(t, key, last) == EpochAt(t, k, last)
    {
      if k in t {
        return Some(t[k].epoch);
      }
      k := k + 1;
    }
    return None;
  }

  method Position(t: Table, epoch: nat, first: nat, last: nat) returns (k: nat)
    ensures k == Search(t, epoch, first, Above(last), last)
  {
    var lo, hi := first, Above(last);
    while lo < hi
      invariant Search(t, epoch, first, Above(last), last) == Search(t, epoch, lo, hi, last)
    {
      var mid := lo + (hi - lo) / 2;
      var e := FindEpochAt(t, mid, last);
      if e.Some? && e.value >= epoch {
        hi := mid;
      } else if e.Some? {
        lo := mid + 1;
      } else {
        hi := mid;
      }
    }
    return lo;
  }

  function Span(t: Table, start: nat, end: nat): set<nat> {
    set k | k in t && start <= k < end
  }

  lemma SpanSteps(t: Table, c: Close, start: nat, k: nat)
    requires start <= k
    ensures k !in t ==> Span(t, start, k + 1) == Span(t, start, k)
    ensures k in t ==> Span(t, start, k + 1) == Span(t, start, k) + {k}
    ensures k in t && t[k].epoch > c.epoch ==>
              LaterBetween(t, c.epoch, start, k + 1) == LaterBetween(t, c.epoch, start, k) + {k}
    ensures !(k in t && t[k].epoch > c.epoch) ==>
              LaterBetween(t, c.epoch, start, k + 1) == LaterBetween(t, c.epoch, start, k)
    ensures !(k in t && Credited(t[k], c)) ==>
              TallyOver(t, c, Span(t, start, k + 1)) == TallyOver(t, c, Span(t, start, k))
    ensures k in t && Credited(t[k], c) ==>
              TallyOver(t, c, Span(t, start, k + 1))
              == CreditRow(TallyOver(t, c, Span(t, start, k)), t[k], c.committee)
  {
    var keys, keys' := Span(t, start, k), Span(t, start, k + 1);
    if k in t {
      assert keys' == keys + {k};
      if Credited(t[k], c) {
        TallyGrows(t, c, keys, k);
      } else {
        assert CreditedIn(t, c, keys') == CreditedIn(t, c, keys);
        TallyOfCredited(t, c, keys', keys);
      }
    } else {
      assert keys' == keys;
    }
  }

  /** A walk stops having read exactly the rows it may reach: at the end of the table, or right
      after the later-epoch row that exceeds the tolerance. */
  lemma ReachedIsSpan(t: Table, epoch: nat, start: nat, k: nat)
    requires start <= k
    requires |LaterBetween(t, epoch, start, k)| <= BOUNDARY_LOOKAHEAD ==> forall j | j in t :: j < k
    requires |LaterBetween(t, epoch, start, k)| > BOUNDARY_LOOKAHEAD ==>
               start < k && |LaterBetween(t, epoch, start, k - 1)| <= BOUNDARY_LOOKAHEAD
    ensures Reached(t, epoch, start) == Span(t, start, k)
  {
    forall j | j in t && start <= j
      ensures j < k <==> |LaterBetween(t, epoch, start, j)| <= BOUNDARY_LOOKAHEAD
    {
      if |LaterBetween(t, epoch, start, k)| <= BOUNDARY_LOOKAHEAD {
        SubsetSize(LaterBetween(t, epoch, start, j), LaterBetween(t, epoch, start, k));
      } else if j < k {
        SubsetSize(LaterBetween(t, epoch, start, j), LaterBetween(t, epoch, start, k - 1));
      } else {
        SubsetSize(LaterBetween(t, epoch, start, k), LaterBetween(t, epoch, start, j));
      }
    }
  }

  /** The cursor remembered during a walk that has read up to `k`. */
  ghost predicate FirstLater(t: Table, epoch: nat, start: nat, k: nat, next: Option<nat>) {
    match next
    case None => LaterBetween(t, epoch, start, k) == {}
    case Some(n) => n in LaterBetween(t, epoch, start, k) && forall j | j in LaterFrom(t, epoch, start) :: n <= j
  }

  lemma FirstLaterSteps(t: Table, epoch: nat, start: nat, k: nat, next: Option<nat>)
    requires start <= k && FirstLater(t, epoch, start, k, next)
    ensures k in t && t[k].epoch > epoch && next.None? ==> FirstLater(t, epoch, start, k + 1, Some(k))
    ensures !(k in t && t[k].epoch > epoch && next.None?) ==> FirstLater(t, epoch, start, k + 1, next)
  {
    if next.None? {
      forall j | j in LaterFrom(t, epoch, start) ensures k <= j {
        assert j in LaterBetween(t, epoch, start, k) || k <= j;
      }
    }
  }

  lemma ParkedAtFirst(t: Table, epoch: nat, start: nat, k: nat, next: Option<nat>)
    requires t != map[] && start <= k && FirstLater(t, epoch, start, k, next)
    requires next.None? ==> k == if start > Last(t.Keys) then start else Last(t.Keys) + 1
    ensures Parked(t, epoch, start) == if next.Some? then next.value else k
  {
    if next.Some? {
      assert next.value in LaterFrom(t, epoch, start);
    } else {
      assert forall j | j in t :: j <= Last(t.Keys);
      assert LaterFrom(t, epoch, start) == {};
    }
  }

  /** What a walk knows once it has read up to `k`. */
  ghost predicate ReadUpTo(t: Table, c: Close, start: nat, k: nat, tally: Tally, lookahead: nat, next: Option<nat>) {
    && start <= k
    && tally == TallyOver(t, c, Span(t, start, k))
    && lookahead == |LaterBetween(t, c.epoch, start, k)|
    && FirstLater(t, c.epoch, start, k, next)
  }

  lemma ReadsRow(t: Table, c: Close, start: nat, k: nat, tally: Tally, lookahead: nat, next: Option<nat>)
    requires ReadUpTo(t, c, start, k, tally, lookahead, next)
    ensures k in t && t[k].epoch > c.epoch ==>
              ReadUpTo(t, c, start, k + 1, tally, lookahead + 1, if next.None? then Some(k) else next)
    ensures k in t && Credited(t[k], c) ==>
              ReadUpTo(t, c, start, k + 1, CreditRow(tally, t[k], c.committee), lookahead, next)
    ensures (k in t ==> t[k].epoch <= c.epoch && !Credited(t[k], c)) ==>
              ReadUpTo(t, c, start, k + 1, tally, lookahead, next)
  {
    SpanSteps(t, c, start, k);
    FirstLaterSteps(t, c.epoch, start, k, next);
  }

  lemma WalkEnds(t: Table, c: Close, start: nat, k: nat, tally: Tally, lookahead: nat, next: Option<nat>)
    requires t != map[] && ReadUpTo(t, c, start, k, tally, lookahead, next)
    requires lookahead <= BOUNDARY_LOOKAHEAD ==> k == if start > Last(t.Keys) then start else Last(t.Keys) + 1
    requires lookahead > BOUNDARY_LOOKAHEAD ==>
               start < k && |LaterBetween(t, c.epoch, start, k - 1)| <= BOUNDARY_LOOKAHEAD
    ensures tally == TallyOver(t, c, Reached(t, c.epoch, start))
    ensures Parked(t, c.epoch, start) == if next.Some? then next.value else k
  {
    assert forall j | j in t :: j <= Last(t.Keys);
    ReachedIsSpan(t, c.epoch, start, k);
    ParkedAtFirst(t, c.epoch, start, k, next);
  }

  /** Reads rows from `start`, crediting the closing epoch's and noting where the next one starts. */
  method WalkRows(t: Table, c: Close, start: nat, last: nat) returns (tally: Tally, next: nat)
    requires t != map[] && last == Last(t.Keys)
    ensures tally == TallyOver(t, c, Reached(t, c.epoch, start))
    ensures next == Parked(t, c.epoch, start)
  {
    tally := EMPTY_TALLY;
    var nextEpochStart: Option<nat> := None;
    var lookahead, capped, k := 0, false, start;
    TallyOfNothing(t, c, Span(t, start, start));
    while k <= last && !capped
      invariant k <= (if start > last then start else last + 1)
      invariant ReadUpTo(t, c, start, k, tally, lookahead, nextEpochStart)
      invariant capped <==> lookahead > BOUNDARY_LOOKAHEAD
      invariant capped ==> start < k && |LaterBetween(t, c.epoch, start, k - 1)| <= BOUNDARY_LOOKAHEAD
    {
      ReadsRow(t, c, start, k, tally, lookahead, nextEpochStart);
      if k in t {
        var row := t[k];
        if row.epoch > c.epoch {
          if nextEpochStart.None? {
            nextEpochStart := Some(k);
          }
          lookahead := lookahead + 1;
          capped := lookahead > BOUNDARY_LOOKAHEAD;
        } else if row.epoch == c.epoch && row.round <= c.lastRound && row.round != 0 {
          tally := Credit(tally, row, c.committee);
        }
      }
      k := k + 1;
    }
    WalkEnds(t, c, start, k, tally, lookahead, nextEpochStart);
    next := if nextEpochStart.Some? then nextEpochStart.value else k;
  }

  datatype TallyResult = Counted(tally: Tally) | MissingCommittee

  /** The walker a replay run builds once, over the snapshot's rows. */
  class BoundedHybridWalker {
    const table: Table
    var committee: Option<Committee>
    var cursor: Option<nat>

    constructor (t: Table)
      ensures table == t && committee == None && cursor == None
    {
      table, committee, cursor := t, None, None;
    }

    method SetCommittee(c: Committee)
      modifies this`committee
      ensures committee == Some(c)
    {
      committee := Some(c);
    }

    method CountEpoch(epoch: nat, lastRound: nat) returns (r: TallyResult)
      modifies this`cursor
      ensures committee.None? ==> r == MissingCommittee && cursor == old(cursor)
      ensures committee.Some? ==>
                r.Counted? && Walked(r.tally, cursor)
                              == TallyHybrid(table, old(cursor), Close(epoch, lastRound, committee.value))
    {
      if committee.None? {
        return MissingCommittee;
      }
      if table == map[] {
        return Counted(EMPTY_TALLY);
      }
      var last := Last(table.Keys);
      var start;
      if cursor.Some? {
        start := cursor.value;
      } else {
        start := Position(table, epoch, Min(table.Keys), last);
      }
      var tally, next := WalkRows(table, Close(epoch, lastRound, committee.value), start, last);
      cursor := Some(next);
      return Counted(tally);
    }
  }
}
