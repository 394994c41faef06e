/** The `participation` report: a second, independent count of what each validator did in an
    epoch, over every tier of a node's database, and its agreement with the reward walker. */
module Participation {
  import opened Tables
  import opened RewardTally
  import opened BoundedWalker
  import opened WalkerEquivalence

  // ----- A node's tiers -----

  /** The hot table, the cold archive with its key range per epoch, and the unprocessed cache. */
  datatype Node = Node(hot: Table, cold: Table, coldRange: map<nat, (nat, nat)>, cache: Table)

  /** The row at `n`: hot first, then cold, then the cache. */
  function HeaderAt(node: Node, n: nat): Option<Row> {
    if n in node.hot then Some(node.hot[n])
    else if n in node.cold then Some(node.cold[n])
    else if n in node.cache then Some(node.cache[n])
    else None
  }

  predicate InRange(range: (nat, nat), n: nat) {
    range.0 <= n <= range.1
  }

  function ColdNumbers(node: Node, epoch: nat): set<nat> {
    if epoch in node.coldRange
    then set n | 0 <= n <= node.coldRange[epoch].1 && InRange(node.coldRange[epoch], n)
    else {}
  }

  /** The epoch's processed header numbers: the hot rows read back before an earlier epoch shows,
      and the archive's range. */
  function Listed(node: Node, epoch: nat): set<nat> {
    (set k | k in ReadBack(node.hot, epoch) && node.hot[k].epoch == epoch) + ColdNumbers(node, epoch)
  }

  /** The listed headers as they read back. */
  function Read(node: Node, epoch: nat): Table {
    map n | n in Listed(node, epoch) && HeaderAt(node, n).Some? :: HeaderAt(node, n).value
  }

  /** The processed rows: cold and hot together. */
  function Canonical(node: Node): Table {
    node.cold + node.hot
  }

  /** The archive's range of the epoch has the number. */
  ghost predicate InArchive(node: Node, epoch: nat, n: nat) {
    epoch in node.coldRange && node.coldRange[epoch].0 <= n <= node.coldRange[epoch].1
  }

  /** The hot rows are in epoch order, the archive's range of the epoch names exactly its rows of
      that epoch, and a row in both tiers is the same row. */
  ghost predicate TiersAgree(node: Node, epoch: nat) {
    && Monotone(node.hot)
    && (forall n: nat :: InArchive(node, epoch, n) <==> n in node.cold && node.cold[n].epoch == epoch)
    && (forall n | n in node.hot && n in node.cold :: node.hot[n] == node.cold[n])
  }

  /** Reads the hot rows newest first until an earlier epoch shows. */
  method HotNumbers(hot: Table, epoch: nat) returns (numbers: set<nat>)
    ensures numbers == set k | k in ReadBack(hot, epoch) && hot[k].epoch == epoch
  {
    numbers := {};
    var keys := KeysInOrder(hot);
    var i, below := |keys|, false;
    ghost var read: set<nat> := {};
    while i > 0 && !below
      invariant 0 <= i <= |keys|
      invariant read == set j | i <= j < |keys| :: keys[j]
      invariant forall k | k in read :: hot[k].epoch >= epoch
      invariant numbers == set k | k in read && hot[k].epoch == epoch
      invariant below ==> i > 0 && hot[keys[i - 1]].epoch < epoch
      decreases i, !below
    {
      var k := keys[i - 1];
      if hot[k].epoch < epoch {
        below := true;
      } else {
        if hot[k].epoch == epoch {
          numbers := numbers + {k};
        }
        read := read + {k};
        i := i - 1;
      }
    }
    assert read == ReadBack(hot, epoch) by { BackIsSuffix(hot, epoch, keys, i); }
  }

  /** Lists the epoch's processed header numbers, and the cache rows without a processed copy. */
  method EpochHeaderNumbers(node: Node, epoch: nat) returns (canonical: set<nat>, cacheOnly: set<nat>)
    ensures canonical == Listed(node, epoch)
    ensures cacheOnly == set k | k in node.cache && node.cache[k].epoch == epoch && k !in canonical
  {
    canonical := HotNumbers(node.hot, epoch);
    canonical := canonical + ColdNumbers(node, epoch);
    cacheOnly := set k | k in node.cache && node.cache[k].epoch == epoch && k !in canonical;
  }

  /** When the tiers agree, the listed headers read back as exactly the processed rows of the epoch. */
  lemma ListedIsCanonical(node: Node, epoch: nat)
    requires TiersAgree(node, epoch)
    ensures forall n :: n in Listed(node, epoch) <==> n in Canonical(node) && Canonical(node)[n].epoch == epoch
    ensures forall n | n in Listed(node, epoch) :: n in Read(node, epoch) && Read(node, epoch)[n] == Canonical(node)[n]
  {
    forall n ensures n in Listed(node, epoch) <==> n in Canonical(node) && Canonical(node)[n].epoch == epoch {
      if n in node.hot && node.hot[n].epoch == epoch {
        assert n in ReadBack(node.hot, epoch);
      }
    }
  }

  /** A listed header reads back with its epoch. */
  ghost predicate ReadsBack(node: Node, epoch: nat, n: nat) {
    n in Read(node, epoch) && Read(node, epoch)[n].epoch == epoch
  }

  /** The header of a number of the archive's range is of the epoch in the first tier that has it: the
      hot table, the archive, or, where both lack it, the cache. */
  ghost predicate RightTier(node: Node, epoch: nat, n: nat) {
    || (n in node.hot && node.hot[n].epoch == epoch)
    || (n !in node.hot && n in node.cold && node.cold[n].epoch == epoch)
    || (n !in node.hot && n !in node.cold && n in node.cache && node.cache[n].epoch == epoch)
  }

  /** Every listed header reads back with its epoch exactly when those of the archive's range do. */
  lemma ReadsBackIff(node: Node, epoch: nat)
    ensures (forall n | n in Listed(node, epoch) :: ReadsBack(node, epoch, n)) <==>
            forall n: nat | InArchive(node, epoch, n) :: RightTier(node, epoch, n)
  {
    forall n: nat
      ensures n in Listed(node, epoch) && !InArchive(node, epoch, n) ==> ReadsBack(node, epoch, n)
      ensures InArchive(node, epoch, n) ==> n in Listed(node, epoch) && (ReadsBack(node, epoch, n) <==> RightTier(node, epoch, n))
    {
    }
  }

  // ----- What a set of headers counts -----

  /** The epoch reported on, and the round its close block stopped at when the record names it. */
  datatype Window = Window(epoch: nat, boundary: Option<nat>)

  predicate Counted(row: Row, w: Window) {
    row.epoch == w.epoch && row.round != 0 && (w.boundary.Some? ==> row.round <= w.boundary.value)
  }

  function CountedIn(t: Table, w: Window, keys: set<nat>): set<nat> {
    set k | k in keys && k in t && Counted(t[k], w)
  }

  function AnchoredBy(t: Table, w: Window, keys: set<nat>, id: AuthorityId): set<nat> {
    set k | k in keys && k in t && Counted(t[k], w) && t[k].leader == id
  }

  function JoinedBy(t: Table, w: Window, keys: set<nat>, id: AuthorityId): set<nat> {
    set k | k in keys && k in t && Counted(t[k], w) && id in t[k].participants
  }

  datatype Marks = Marks(participation: nat, anchor: nat)

  function MarksOf(m: map<AuthorityId, Marks>, id: AuthorityId): Marks {
    if id in m then m[id] else Marks(0, 0)
  }

  /** Running counts while walking one node's headers. */
  datatype Walk = Walk(headers: nat, tallies: map<AuthorityId, Marks>, genesis: seq<nat>, afterBoundary: seq<nat>)

  ghost predicate MarksMatch(t: Table, w: Window, keys: set<nat>, m: map<AuthorityId, Marks>, id: AuthorityId) {
    && MarksOf(m, id) == Marks(|JoinedBy(t, w, keys, id)|, |AnchoredBy(t, w, keys, id)|)
    && (id in m <==> MarksOf(m, id) != Marks(0, 0))
  }

  /** The counts of a walk are those of the headers at `keys`, with an entry per author seen. */
  ghost predicate CountsMatch(t: Table, w: Window, keys: set<nat>, walk: Walk) {
    && walk.headers == |CountedIn(t, w, keys)|
    && forall id :: MarksMatch(t, w, keys, walk.tallies, id)
  }

  // ----- Counting one header -----

  function MarkAnchor(m: map<AuthorityId, Marks>, id: AuthorityId): map<AuthorityId, Marks> {
    m[id := MarksOf(m, id).(anchor := MarksOf(m, id).anchor + 1)]
  }

  function MarkJoined(m: map<AuthorityId, Marks>, ids: set<AuthorityId>): map<AuthorityId, Marks> {
    map id | id in m.Keys + ids ::
      if id in ids then MarksOf(m, id).(participation := MarksOf(m, id).participation + 1) else m[id]
  }

  /** One participation round per distinct author among the sub-dag's certificates. */
  method MarkParticipants(m: map<AuthorityId, Marks>, authors: seq<AuthorityId>) returns (m': map<AuthorityId, Marks>)
    ensures m' == MarkJoined(m, ToSet(authors))
  {
    m' := m;
    var seen: set<AuthorityId> := {};
    assert MarkJoined(m, {}) == m;
    for i := 0 to |authors|
      invariant seen == ToSet(authors[..i])
      invariant m' == MarkJoined(m, seen)
    {
      assert authors[..i + 1] == authors[..i] + [authors[i]];
      if authors[i] !in seen {
        m' := m'[authors[i] := MarksOf(m', authors[i]).(participation := MarksOf(m', authors[i]).participation + 1)];
        seen := seen + {authors[i]};
      }
    }
    assert authors[..|authors|] == authors;
  }

  lemma MarksGrow(t: Table, w: Window, keys: set<nat>, k: nat, id: AuthorityId)
    requires k in t && k !in keys && Counted(t[k], w)
    ensures |AnchoredBy(t, w, keys + {k}, id)| == |AnchoredBy(t, w, keys, id)| + (if t[k].leader == id then 1 else 0)
    ensures |JoinedBy(t, w, keys + {k}, id)| == |JoinedBy(t, w, keys, id)| + (if id in t[k].participants then 1 else 0)
  {
    var a, a' := AnchoredBy(t, w, keys, id), AnchoredBy(t, w, keys + {k}, id);
    assert a' == if t[k].leader == id then a + {k} else a;
    JoinedGrow(t, w, keys, k, id);
  }

  lemma JoinedGrow(t: Table, w: Window, keys: set<nat>, k: nat, id: AuthorityId)
    requires k in t && k !in keys && Counted(t[k], w)
    ensures |JoinedBy(t, w, keys + {k}, id)| == |JoinedBy(t, w, keys, id)| + (if id in t[k].participants then 1 else 0)
  {
    var j, j' := JoinedBy(t, w, keys, id), JoinedBy(t, w, keys + {k}, id);
    if id in t[k].participants {
      assert j' == j + {k};
    } else {
      assert j' == j;
    }
  }

  lemma MarksAfter(m: map<AuthorityId, Marks>, row: Row, id: AuthorityId)
    ensures var m' := MarkJoined(MarkAnchor(m, row.leader), ToSet(row.participants));
            && MarksOf(m', id) == Marks(MarksOf(m, id).participation + (if id in row.participants then 1 else 0),
                                        MarksOf(m, id).anchor + (if row.leader == id then 1 else 0))
            && (id in m' <==> id in m || row.leader == id || id in row.participants)
  {
  }

  lemma CountsStep(t: Table, w: Window, keys: set<nat>, k: nat, walk: Walk, tallies: map<AuthorityId, Marks>)
    requires k in t && k !in keys && Counted(t[k], w) && CountsMatch(t, w, keys, walk)
    requires tallies == MarkJoined(MarkAnchor(walk.tallies, t[k].leader), ToSet(t[k].participants))
    ensures CountsMatch(t, w, keys + {k}, walk.(headers := walk.headers + 1, tallies := tallies))
  {
    assert CountedIn(t, w, keys + {k}) == CountedIn(t, w, keys) + {k};
    forall id ensures MarksMatch(t, w, keys + {k}, tallies, id) {
      assert MarksMatch(t, w, keys, walk.tallies, id);
      MarksGrow(t, w, keys, k, id);
      MarksAfter(walk.tallies, t[k], id);
    }
  }

  lemma CountsSkip(t: Table, w: Window, keys: set<nat>, k: nat, walk: Walk)
    requires k in t && !Counted(t[k], w) && CountsMatch(t, w, keys, walk)
    ensures CountsMatch(t, w, keys + {k}, walk)
  {
    assert CountedIn(t, w, keys + {k}) == CountedIn(t, w, keys);
    forall id ensures MarksMatch(t, w, keys + {k}, walk.tallies, id) {
      assert MarksMatch(t, w, keys, walk.tallies, id);
      assert JoinedBy(t, w, keys + {k}, id) == JoinedBy(t, w, keys, id);
      assert AnchoredBy(t, w, keys + {k}, id) == AnchoredBy(t, w, keys, id);
    }
  }

  /** Counts depend only on the counted headers. */
  lemma CountsTransfer(t: Table, keys: set<nat>, t': Table, keys': set<nat>, w: Window, walk: Walk)
    requires CountsMatch(t, w, keys, walk)
    requires CountedIn(t, w, keys) == CountedIn(t', w, keys')
    requires forall k | k in CountedIn(t, w, keys) :: t[k] == t'[k]
    ensures CountsMatch(t', w, keys', walk)
  {
    forall id ensures MarksMatch(t', w, keys', walk.tallies, id) {
      assert MarksMatch(t, w, keys, walk.tallies, id);
      SameMarks(t, keys, t', keys', w, id);
    }
  }

  lemma SameMarks(t: Table, keys: set<nat>, t': Table, keys': set<nat>, w: Window, id: AuthorityId)
    requires CountedIn(t, w, keys) == CountedIn(t', w, keys')
    requires forall k | k in CountedIn(t, w, keys) :: t[k] == t'[k]
    ensures JoinedBy(t, w, keys, id) == JoinedBy(t', w, keys', id)
    ensures AnchoredBy(t, w, keys, id) == AnchoredBy(t', w, keys', id)
  {
    forall k ensures k in JoinedBy(t, w, keys, id) <==> k in JoinedBy(t', w, keys', id)
             ensures k in AnchoredBy(t, w, keys, id) <==> k in AnchoredBy(t', w, keys', id)
    {
      assert k in CountedIn(t, w, keys) <==> k in CountedIn(t', w, keys');
    }
  }

  // ----- The walk -----

  datatype Report =
    | Tallied(walk: Walk, cacheOnly: set<nat>)
    | Unreadable(number: nat)
    | WrongEpoch(number: nat)

  /** The header's round is past the round the epoch's close block stopped at. */
  predicate IsAfter(row: Row, w: Window) {
    row.round != 0 && w.boundary.Some? && row.round > w.boundary.value
  }

  /** The headers not counted are listed apart: genesis headers, and those after the boundary. */
  ghost predicate ListedApart(t: Table, w: Window, numbers: seq<nat>, walk: Walk)
    requires forall n | n in numbers :: n in t
  {
    && (forall n :: n in walk.genesis <==> n in numbers && t[n].round == 0)
    && (forall n :: n in walk.afterBoundary <==> n in numbers && IsAfter(t[n], w))
  }

  lemma ListsGrow(t: Table, w: Window, numbers: seq<nat>, n: nat, walk: Walk)
    requires (forall m | m in numbers :: m in t) && n in t && ListedApart(t, w, numbers, walk)
    ensures forall m | m in numbers + [n] :: m in t
    ensures t[n].round == 0 ==> ListedApart(t, w, numbers + [n], walk.(genesis := walk.genesis + [n]))
    ensures IsAfter(t[n], w) ==> ListedApart(t, w, numbers + [n], walk.(afterBoundary := walk.afterBoundary + [n]))
    ensures t[n].round != 0 && !IsAfter(t[n], w) ==> ListedApart(t, w, numbers + [n], walk)
  {
  }

  /** What a walk knows once it has counted the headers `numbers[..i]`. */
  ghost predicate WalkedOver(t: Table, w: Window, numbers: seq<nat>, i: nat, walk: Walk) {
    && i <= |numbers| && Ascending(numbers) && (forall n | n in numbers[..i] :: n in t)
    && CountsMatch(t, w, ToSet(numbers[..i]), walk)
    && ListedApart(t, w, numbers[..i], walk)
  }

  /** The walk after one more header: listed apart, or counted. */
  function Walked(walk: Walk, n: nat, row: Row, w: Window): Walk {
    if row.round == 0 then walk.(genesis := walk.genesis + [n])
    else if IsAfter(row, w) then walk.(afterBoundary := walk.afterBoundary + [n])
    else walk.(headers := walk.headers + 1,
               tallies := MarkJoined(MarkAnchor(walk.tallies, row.leader), ToSet(row.participants)))
  }

  lemma CountsWalked(t: Table, w: Window, keys: set<nat>, n: nat, walk: Walk)
    requires n in t && n !in keys && t[n].epoch == w.epoch && CountsMatch(t, w, keys, walk)
    ensures CountsMatch(t, w, keys + {n}, Walked(walk, n, t[n], w))
  {
    if Counted(t[n], w) {
      CountsStep(t, w, keys, n, walk, MarkJoined(MarkAnchor(walk.tallies, t[n].leader), ToSet(t[n].participants)));
    } else {
      CountsSkip(t, w, keys, n, walk);
      SameCounts(t, w, keys + {n}, walk, Walked(walk, n, t[n], w));
    }
  }

  lemma SameCounts(t: Table, w: Window, keys: set<nat>, walk: Walk, walk': Walk)
    requires CountsMatch(t, w, keys, walk) && walk'.headers == walk.headers && walk'.tallies == walk.tallies
    ensures CountsMatch(t, w, keys, walk')
  {
  }

  lemma WalksOver(t: Table, w: Window, numbers: seq<nat>, i: nat, walk: Walk)
    requires WalkedOver(t, w, numbers, i, walk) && i < |numbers| && numbers[i] in t
    requires t[numbers[i]].epoch == w.epoch
    ensures WalkedOver(t, w, numbers, i + 1, Walked(walk, numbers[i], t[numbers[i]], w))
  {
    var n := numbers[i];
    var walk' := Walked(walk, n, t[n], w);
    PrefixGrows(numbers, i);
    assert ToSet(numbers[..i + 1]) == ToSet(numbers[..i]) + {n};
    CountsWalked(t, w, ToSet(numbers[..i]), n, walk);
    ListsGrow(t, w, numbers[..i], n, walk);
    assert ListedApart(t, w, numbers[..i] + [n], walk') by {
      assert !(t[n].round == 0) && !IsAfter(t[n], w) ==> walk'.genesis == walk.genesis && walk'.afterBoundary == walk.afterBoundary;
    }
  }

  /** `n` is the first of the numbers that cannot be read back or is of another epoch. */
  ghost predicate FirstBad(t: Table, w: Window, numbers: seq<nat>, n: nat) {
    && n in numbers && (n in t ==> t[n].epoch != w.epoch)
    && forall m | m in numbers && m < n :: m in t && t[m].epoch == w.epoch
  }

  /** Counts the headers `numbers`, each read back from `t`; one that cannot be read back, or is
      of another epoch, fails the report. */
  method CountHeaders(t: Table, w: Window, numbers: seq<nat>, cacheOnly: set<nat>) returns (r: Report)
    requires Ascending(numbers)
    ensures r.Tallied? <==> forall n | n in ToSet(numbers) :: n in t && t[n].epoch == w.epoch
    ensures r.Tallied? ==> CountsMatch(t, w, ToSet(numbers), r.walk) && r.cacheOnly == cacheOnly
    ensures r.Tallied? ==>
              && (forall n :: n in r.walk.genesis <==> n in numbers && t[n].round == 0)
              && (forall n :: n in r.walk.afterBoundary <==> n in numbers && IsAfter(t[n], w))
    ensures !r.Tallied? ==> FirstBad(t, w, numbers, r.number) && (r.Unreadable? <==> r.number !in t)
  {
    var walk := Walk(0, map[], [], []);
    var i := 0;
    while i < |numbers|
      invariant WalkedOver(t, w, numbers, i, walk)
      invariant forall n | n in numbers[..i] :: t[n].epoch == w.epoch
    {
      var n := numbers[i];
      if n !in t {
        return Unreadable(n);
      }
      var row := t[n];
      if row.epoch != w.epoch {
        return WrongEpoch(n);
      }
      WalksOver(t, w, numbers, i, walk);
      if row.round == 0 {
        walk := walk.(genesis := walk.genesis + [n]);
      } else if w.boundary.Some? && row.round > w.boundary.value {
        walk := walk.(afterBoundary := walk.afterBoundary + [n]);
      } else {
        var tallies := MarkAnchor(walk.tallies, row.leader);
        tallies := MarkParticipants(tallies, row.participants);
        walk := walk.(headers := walk.headers + 1, tallies := tallies);
      }
      i := i + 1;
    }
    assert numbers[..i] == numbers;
    r := Tallied(walk, cacheOnly);
  }

  /** Reports on the epoch's processed headers, in ascending order. */
  method TallyEpoch(node: Node, w: Window) returns (r: Report)
    ensures r.Tallied? <==> forall n: nat | InArchive(node, w.epoch, n) :: RightTier(node, w.epoch, n)
    ensures r.Tallied? ==>
              && CountsMatch(Read(node, w.epoch), w, Listed(node, w.epoch), r.walk)
              && r.cacheOnly == set k | k in node.cache && node.cache[k].epoch == w.epoch && k !in Listed(node, w.epoch)
  {
    ReadsBackIff(node, w.epoch);
    var canonical, cacheOnly := EpochHeaderNumbers(node, w.epoch);
    var numbers := SortedNumbers(canonical);
    r := CountHeaders(Read(node, w.epoch), w, numbers, cacheOnly);
  }

  method SortedNumbers(s: set<nat>) returns (numbers: seq<nat>)
    ensures Ascending(numbers) && ToSet(numbers) == s
  {
    numbers := Sorted(s);
  }

  /** When the tiers agree the report succeeds, and counts the whole processed table. */
  lemma ReportCountsCanonical(node: Node, w: Window)
    requires TiersAgree(node, w.epoch)
    ensures forall n | n in Listed(node, w.epoch) :: n in Read(node, w.epoch) && Read(node, w.epoch)[n].epoch == w.epoch
    ensures forall walk | CountsMatch(Read(node, w.epoch), w, Listed(node, w.epoch), walk) ::
              CountsMatch(Canonical(node), w, Canonical(node).Keys, walk)
  {
    var t := Canonical(node);
    ListedIsCanonical(node, w.epoch);
    assert CountedIn(Read(node, w.epoch), w, Listed(node, w.epoch)) == CountedIn(t, w, t.Keys);
    forall walk | CountsMatch(Read(node, w.epoch), w, Listed(node, w.epoch), walk)
      ensures CountsMatch(t, w, t.Keys, walk)
    {
      CountsTransfer(Read(node, w.epoch), Listed(node, w.epoch), t, t.Keys, w, walk);
    }
  }

  // ----- Agreement with the reward walker -----

  ghost predicate DistinctAddresses(committee: Committee) {
    forall i, j | i in committee && j in committee && committee[i] == committee[j] :: i == j
  }

  ghost predicate MembersAgree(tally: Tally, walk: Walk, committee: Committee) {
    && tally.total == Sat(walk.headers)
    && forall id | id in committee ::
         CountsOf(tally.perAddress, committee[id])
         == Counts(Sat(MarksOf(walk.tallies, id).participation), Sat(MarksOf(walk.tallies, id).anchor))
  }

  lemma SameRounds(t: Table, c: Close, id: AuthorityId)
    requires DistinctAddresses(c.committee) && id in c.committee
    ensures var w := Window(c.epoch, Some(c.lastRound));
            && LedIn(t, c, t.Keys, c.committee[id]) == AnchoredBy(t, w, t.Keys, id)
            && JoinedIn(t, c, t.Keys, c.committee[id]) == JoinedBy(t, w, t.Keys, id)
  {
    var w := Window(c.epoch, Some(c.lastRound));
    forall k | k in t && Credited(t[k], c)
      ensures Leads(t[k], c, c.committee[id]) <==> t[k].leader == id
      ensures Joins(t[k], c, c.committee[id]) <==> id in t[k].participants
    {
    }
  }

  /** With distinct execution addresses and the boundary at the last executed round, the report's
      headers, anchor and participation counts are the walker's total, leader and participation
      rounds, for every member. */
  lemma ReportMatchesWalker(t: Table, c: Close, walk: Walk)
    requires DistinctAddresses(c.committee)
    requires CountsMatch(t, Window(c.epoch, Some(c.lastRound)), t.Keys, walk)
    ensures MembersAgree(TallyOver(t, c, t.Keys), walk, c.committee)
  {
    var w := Window(c.epoch, Some(c.lastRound));
    assert CreditedIn(t, c, t.Keys) == CountedIn(t, w, t.Keys);
    forall id | id in c.committee
      ensures CountsOf(TallyOver(t, c, t.Keys).perAddress, c.committee[id])
              == Counts(Sat(MarksOf(walk.tallies, id).participation), Sat(MarksOf(walk.tallies, id).anchor))
    {
      assert MarksMatch(t, w, t.Keys, walk.tallies, id);
      SameRounds(t, c, id);
      CountsOfTally(t, c, t.Keys, c.committee[id]);
    }
  }

  /** Over any ascending run of closes, the report on a close's epoch and the bounded walker's
      tally of that close agree on every member. */
  lemma TwoImplementationsAgree(node: Node, closes: seq<Close>, i: nat, walk: Walk)
    requires AscendingEpochs(closes) && i < |closes| && DistinctAddresses(closes[i].committee)
    requires TiersAgree(node, closes[i].epoch) && Monotone(Canonical(node))
    requires Canonical(node) != map[] ==> Last(Canonical(node).Keys) < U64_MAX
    requires var w := Window(closes[i].epoch, Some(closes[i].lastRound));
             CountsMatch(Read(node, w.epoch), w, Listed(node, w.epoch), walk)
    ensures |Replay(Canonical(node), None, closes)| == |closes|
    ensures MembersAgree(Replay(Canonical(node), None, closes)[i], walk, closes[i].committee)
  {
    var w := Window(closes[i].epoch, Some(closes[i].lastRound));
    ReportCountsCanonical(node, w);
    ReportMatchesWalker(Canonical(node), closes[i], walk);
    ReplayIsWholeTable(Canonical(node), closes, i);
  }
}
