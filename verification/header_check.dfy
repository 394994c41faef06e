/** The header-check auditor: one node's chain walked back, its certificates verified in batches. */
module HeaderCheck {
  import opened Tables
  import opened ConsensusChain

  /** A committee's public keys. */
  type Keys = nat

  /** A stored header: whether its leader is an unsigned genesis certificate, and the committees its
      certificates verify against. */
  datatype Row = Row(header: Header, genesis: bool, signedBy: set<Keys>)

  datatype Committee = Committee(keys: Keys, next: Keys)

  /** A node's database: headers by number over all tiers, the digest index, the committees of its
      epoch records and its consensus tip. */
  datatype Node = Node(rows: map<nat, Row>, index: map<Digest, nat>, committees: map<nat, Committee>, tip: Option<nat>)

  // ----- Certificate verification -----

  datatype SignatureCheck = Genesis | Verified | Failed | NoKeys

  function CommitteeKeys(node: Node, epoch: nat): Option<Keys> {
    if epoch in node.committees then Some(node.committees[epoch].keys)
    else if epoch > 0 && epoch - 1 in node.committees then Some(node.committees[epoch - 1].next)
    else None
  }

  function CheckWith(keys: Option<Keys>, row: Row): SignatureCheck {
    if row.genesis then Genesis
    else if keys.None? then NoKeys
    else if keys.value in row.signedBy then Verified else Failed
  }

  /** One header on its own: against the committee the node has for its leader's epoch. */
  function CheckHeader(node: Node, row: Row): SignatureCheck {
    CheckWith(CommitteeKeys(node, row.header.subDag.leaderEpoch), row)
  }

  /** The committee of an epoch, as the node's records have it: the epoch's own record, or the next
      committee of the record before it. */
  ghost predicate CommitteeOf(node: Node, epoch: nat, keys: Keys) {
    || (epoch in node.committees && keys == node.committees[epoch].keys)
    || (epoch !in node.committees && epoch > 0 && epoch - 1 in node.committees && keys == node.committees[epoch - 1].next)
  }

  /** The certificates are those of an unsigned genesis, or the committee of the leader's epoch signed. */
  ghost predicate SignedByCommittee(node: Node, row: Row) {
    row.genesis || exists keys | keys in row.signedBy :: CommitteeOf(node, row.header.subDag.leaderEpoch, keys)
  }

  /** The committee of the leader's epoch is known and did not sign. */
  ghost predicate NotSigned(node: Node, row: Row) {
    !row.genesis && exists keys | CommitteeOf(node, row.header.subDag.leaderEpoch, keys) :: keys !in row.signedBy
  }

  ghost predicate CommitteeUnknown(node: Node, row: Row) {
    !row.genesis && forall keys :: !CommitteeOf(node, row.header.subDag.leaderEpoch, keys)
  }

  predicate Proved(check: SignatureCheck) {
    check == Verified || check == Genesis
  }

  /** What the answers of a check say about the row and the committees. */
  lemma CheckMeans(node: Node, row: Row)
    ensures Proved(CheckHeader(node, row)) <==> SignedByCommittee(node, row)
    ensures CheckHeader(node, row) == Genesis <==> row.genesis
    ensures CheckHeader(node, row) == Failed <==> NotSigned(node, row)
    ensures CheckHeader(node, row) == NoKeys <==> CommitteeUnknown(node, row)
  {
    var epoch := row.header.subDag.leaderEpoch;
    if CommitteeKeys(node, epoch).Some? {
      assert CommitteeOf(node, epoch, CommitteeKeys(node, epoch).value);
    }
  }

  type KeysByEpoch = map<nat, Option<Keys>>

  /** Against committees already looked up. */
  function VerifyHeader(keys: KeysByEpoch, row: Row): SignatureCheck {
    CheckWith(if row.header.subDag.leaderEpoch in keys then keys[row.header.subDag.leaderEpoch] else None, row)
  }

  function Checks(keys: KeysByEpoch, rows: seq<Row>): (r: seq<SignatureCheck>)
    ensures |r| == |rows|
    ensures forall i | 0 <= i < |rows| :: r[i] == VerifyHeader(keys, rows[i])
  {
    seq(|rows|, i requires 0 <= i < |rows| => VerifyHeader(keys, rows[i]))
  }

  lemma ChecksJoin(keys: KeysByEpoch, a: seq<Row>, b: seq<Row>)
    ensures Checks(keys, a + b) == Checks(keys, a) + Checks(keys, b)
  {
  }

  /** One thread's part. */
  method VerifyPart(keys: KeysByEpoch, rows: seq<Row>) returns (checks: seq<SignatureCheck>)
    ensures checks == Checks(keys, rows)
  {
    checks := [];
    for i := 0 to |rows|
      invariant checks == Checks(keys, rows[..i])
    {
      PrefixGrows(rows, i);
      ChecksJoin(keys, rows[..i], [rows[i]]);
      checks := checks + [VerifyHeader(keys, rows[i])];
    }
    assert rows[..|rows|] == rows;
  }

  /** Splits the headers into one chunk per core; joining the parts gives the results in order. */
  method VerifyHeaders(keys: KeysByEpoch, rows: seq<Row>, cores: nat) returns (checks: seq<SignatureCheck>)
    ensures checks == Checks(keys, rows)
  {
    checks := [];
    if rows == [] {
      return;
    }
    var threads := if cores < 1 then 1 else if cores > |rows| then |rows| else cores;
    var chunk := (|rows| + threads - 1) / threads;
    ChunkIsPositive(|rows|, threads);
    var start := 0;
    while start < |rows|
      invariant start <= |rows| && checks == Checks(keys, rows[..start])
    {
      var end := if start + chunk <= |rows| then start + chunk else |rows|;
      var part := VerifyPart(keys, rows[start..end]);
      ChecksJoin(keys, rows[..start], rows[start..end]);
      assert rows[..start] + rows[start..end] == rows[..end];
      checks, start := checks + part, end;
    }
    assert rows[..|rows|] == rows;
  }

  lemma ChunkIsPositive(n: nat, threads: nat)
    requires 1 <= threads <= n
    ensures (n + threads - 1) / threads >= 1
  {
  }

  // ----- The walk -----

  datatype Link = Root | Linked | EndOfRange | ParentMissing | ParentDigestMismatch | IndexMismatch

  predicate IsIntact(link: Link) {
    link == Root || link == Linked || link == EndOfRange
  }

  datatype Step = Step(row: Row, link: Link)

  datatype Hop = Hop(step: Step, verify: SignatureCheck)

  /** The chain starts here. */
  predicate IsRoot(h: Header) {
    h.number == 0 || h.parent == ZERO_HASH || h.parent == GENESIS_DIGEST
  }

  /** What the walk finds at a header with `left` parents still to follow: the chain's start, the end
      of the range, or how the parent resolves. */
  function LinkAt(node: Node, h: Header, left: nat): Link {
    if IsRoot(h) then Root
    else if left == 0 then EndOfRange
    else if h.number - 1 !in node.rows then ParentMissing
    else if Of(node.rows[h.number - 1].header) != h.parent then ParentDigestMismatch
    else if h.parent !in node.index || node.index[h.parent] != h.number - 1 then IndexMismatch
    else Linked
  }

  /** The walk goes on to the parent, even past an index that disagrees. */
  predicate Goes(link: Link) {
    link == Linked || link == IndexMismatch
  }

  /** The steps of a walk back from a header, following at most `left` parents. */
  function Walk(node: Node, row: Row, left: nat): seq<Step>
    decreases left
  {
    var link := LinkAt(node, row.header, left);
    [Step(row, link)] + (if Goes(link) then Walk(node, node.rows[row.header.number - 1], left - 1) else [])
  }

  function HopsOf(node: Node, steps: seq<Step>): (hops: seq<Hop>)
    ensures |hops| == |steps|
    ensures forall i | 0 <= i < |hops| :: hops[i] == Hop(steps[i], CheckHeader(node, steps[i].row))
  {
    seq(|steps|, i requires 0 <= i < |steps| => Hop(steps[i], CheckHeader(node, steps[i].row)))
  }

  lemma HopsJoin(node: Node, a: seq<Step>, b: seq<Step>)
    ensures HopsOf(node, a + b) == HopsOf(node, a) + HopsOf(node, b)
  {
  }

  predicate AllIntact(steps: seq<Step>) {
    forall s | s in steps :: IsIntact(s.link)
  }

  /** The cached committees are the node's. */
  predicate CacheOk(node: Node, keys: KeysByEpoch) {
    forall epoch | epoch in keys :: keys[epoch] == CommitteeKeys(node, epoch)
  }

  /** Looks up the committees the pending headers need, once per epoch. */
  method LookUp(node: Node, keys: KeysByEpoch, pending: seq<Step>) returns (all: KeysByEpoch)
    requires CacheOk(node, keys)
    ensures CacheOk(node, all)
    ensures forall s | s in pending :: s.row.header.subDag.leaderEpoch in all
  {
    all := keys;
    for i := 0 to |pending|
      invariant CacheOk(node, all)
      invariant forall s | s in pending[..i] :: s.row.header.subDag.leaderEpoch in all
    {
      PrefixGrows(pending, i);
      var epoch := pending[i].row.header.subDag.leaderEpoch;
      if epoch !in all {
        all := all[epoch := CommitteeKeys(node, epoch)];
      }
    }
    assert pending[..|pending|] == pending;
  }

  function RowsOf(steps: seq<Step>): (rows: seq<Row>)
    ensures |rows| == |steps|
    ensures forall i | 0 <= i < |rows| :: rows[i] == steps[i].row
  {
    seq(|steps|, i requires 0 <= i < |steps| => steps[i].row)
  }

  /** Verifies the pending hops together and moves them behind the verified ones. */
  method VerifyPending(node: Node, keys: KeysByEpoch, pending: seq<Step>, hops: seq<Hop>, cores: nat)
    returns (all: KeysByEpoch, moved: seq<Hop>)
    requires CacheOk(node, keys)
    ensures CacheOk(node, all) && moved == hops + HopsOf(node, pending)
  {
    all := LookUp(node, keys, pending);
    var checks := VerifyHeaders(all, RowsOf(pending), cores);
    forall i | 0 <= i < |pending|
      ensures checks[i] == CheckHeader(node, pending[i].row)
    {
      assert pending[i] in pending;
    }
    moved := hops;
    for i := 0 to |pending|
      invariant moved == hops + HopsOf(node, pending[..i])
    {
      PrefixGrows(pending, i);
      HopsJoin(node, pending[..i], [pending[i]]);
      moved := moved + [Hop(pending[i], checks[i])];
    }
    assert pending[..|pending|] == pending;
  }

  /** What is known of one node: it could not be read, it has not got to the start, the start is
      missing, or a walk from the start. */
  datatype View = Unreadable | NotReached | StartMissing | Walked(hops: seq<Hop>, ok: bool)

  function ViewOf(node: Node, start: nat, back: nat): View {
    if start !in node.rows then
      if node.tip.Some? && node.tip.value >= start then StartMissing else NotReached
    else
      var steps := Walk(node, node.rows[start], back);
      Walked(HopsOf(node, steps), AllIntact(steps))
  }

  const VERIFY_BATCH: nat := 256

  /** The steps so far and those still to come are the whole walk. */
  ghost predicate Walking(node: Node, whole: seq<Step>, back: nat, done: seq<Step>, current: Row) {
    && |done| <= back
    && whole == done + Walk(node, current, back - |done|)
  }

  lemma IntactGrows(done: seq<Step>, step: Step)
    ensures AllIntact(done + [step]) <==> AllIntact(done) && IsIntact(step.link)
  {
  }

  lemma WalkUnfolds(node: Node, row: Row, left: nat)
    ensures var link := LinkAt(node, row.header, left);
            Walk(node, row, left) ==
              if Goes(link) then [Step(row, link)] + Walk(node, node.rows[row.header.number - 1], left - 1)
              else [Step(row, link)]
  {
  }

  lemma Regroups(whole: seq<Step>, done: seq<Step>, s: Step, rest: seq<Step>)
    requires whole == done + ([s] + rest)
    ensures whole == done + [s] + rest
  {
  }

  lemma TakeStep(node: Node, whole: seq<Step>, back: nat, done: seq<Step>, current: Row)
    requires Walking(node, whole, back, done, current)
    ensures var link := LinkAt(node, current.header, back - |done|);
            var done' := done + [Step(current, link)];
            if Goes(link) then Walking(node, whole, back, done', node.rows[current.header.number - 1])
            else whole == done'
  {
    var left := back - |done|;
    var link := LinkAt(node, current.header, left);
    WalkUnfolds(node, current, left);
    if Goes(link) {
      Regroups(whole, done, Step(current, link), Walk(node, node.rows[current.header.number - 1], left - 1));
    }
  }

  /** Hops verified and hops pending, in order, are the hops of the steps done. */
  ghost predicate Held(node: Node, keys: KeysByEpoch, hops: seq<Hop>, pending: seq<Step>, done: seq<Step>) {
    CacheOk(node, keys) && hops + HopsOf(node, pending) == HopsOf(node, done)
  }

  /** Adds a hop to the batch, and verifies the batch when it is full. */
  method PushHop(node: Node, keys: KeysByEpoch, hops: seq<Hop>, pending: seq<Step>, step: Step, cores: nat, ghost done: seq<Step>)
    returns (keys': KeysByEpoch, hops': seq<Hop>, pending': seq<Step>)
    requires Held(node, keys, hops, pending, done)
    ensures Held(node, keys', hops', pending', done + [step])
  {
    HopsJoin(node, pending, [step]);
    HopsJoin(node, done, [step]);
    keys', hops', pending' := keys, hops, pending + [step];
    assert hops + HopsOf(node, pending') == HopsOf(node, done + [step]);
    if |pending'| >= VERIFY_BATCH {
      keys', hops' := VerifyPending(node, keys, pending', hops, cores);
      pending' := [];
      assert hops' + HopsOf(node, pending') == hops';
    }
  }

  /** Walks one node's chain back from `start`, verifying certificates a batch at a time. */
  method CheckNode(node: Node, start: nat, back: nat, cores: nat) returns (view: View)
    ensures view == ViewOf(node, start, back)
  {
    if start !in node.rows {
      if node.tip.Some? && node.tip.value >= start {
        return StartMissing;
      }
      return NotReached;
    }
    var first := node.rows[start];
    var current, ok, goes := first, true, true;
    var keys, hops, pending := map[], [], [];
    ghost var done: seq<Step> := [];
    ghost var whole := Walk(node, first, back);
    assert whole == [] + whole;
    while goes
      invariant Held(node, keys, hops, pending, done) && ok == AllIntact(done)
      invariant if goes then Walking(node, whole, back, done, current) else whole == done
      decreases goes, back - |done|
    {
      var followed := |hops| + |pending|;
      assert followed == |HopsOf(node, done)|;
      TakeStep(node, whole, back, done, current);
      IntactGrows(done, Step(current, LinkAt(node, current.header, back - |done|)));
      var link := LinkAt(node, current.header, back - followed);
      keys, hops, pending := PushHop(node, keys, hops, pending, Step(current, link), cores, done);
      done := done + [Step(current, link)];
      ok, goes := ok && IsIntact(link), Goes(link);
      if goes {
        current := node.rows[current.header.number - 1];
      }
    }
    keys, hops := VerifyPending(node, keys, pending, hops, cores);
    view := Walked(hops, ok);
  }

  // ----- What a walk reports -----

  /** A chain starts at number zero, or at a header whose parent is the zero hash or genesis. */
  predicate StartsChain(h: Header) {
    h.number == 0 || h.parent == Raw(0) || h.parent == Of(GENESIS)
  }

  predicate IndexAgrees(node: Node, h: Header) {
    h.number > 0 && h.parent in node.index && node.index[h.parent] == h.number - 1
  }

  /** Step `i` of a report over `back` parents: the walk ends at the start of a chain, after the last
      parent to follow, or where the row below is absent or has another digest; otherwise the row below
      is next, and the link tells whether the index agrees. */
  predicate ReportsAt(node: Node, back: nat, steps: seq<Step>, i: nat)
    requires i < |steps|
  {
    var h := steps[i].row.header;
    match steps[i].link
    case Root => StartsChain(h) && i + 1 == |steps|
    case EndOfRange => !StartsChain(h) && i == back && i + 1 == |steps|
    case ParentMissing => !StartsChain(h) && i < back && h.number - 1 !in node.rows && i + 1 == |steps|
    case ParentDigestMismatch =>
      && !StartsChain(h) && i < back && i + 1 == |steps|
      && h.number - 1 in node.rows && Of(node.rows[h.number - 1].header) != h.parent
    case Linked => FollowsAt(node, back, steps, i) && IndexAgrees(node, h)
    case IndexMismatch => FollowsAt(node, back, steps, i) && !IndexAgrees(node, h)
  }

  predicate FollowsAt(node: Node, back: nat, steps: seq<Step>, i: nat)
    requires i < |steps|
  {
    var h := steps[i].row.header;
    && !StartsChain(h) && i < back && i + 1 < |steps|
    && h.number - 1 in node.rows && steps[i + 1].row == node.rows[h.number - 1]
    && Of(steps[i + 1].row.header) == h.parent
  }

  predicate Reports(node: Node, row: Row, back: nat, steps: seq<Step>) {
    steps != [] && steps[0].row == row && forall i | 0 <= i < |steps| :: ReportsAt(node, back, steps, i)
  }

  lemma ReportShifts(node: Node, back: nat, s: Step, rest: seq<Step>, i: nat)
    requires back > 0 && i < |rest|
    ensures ReportsAt(node, back - 1, rest, i) <==> ReportsAt(node, back, [s] + rest, i + 1)
  {
    var steps := [s] + rest;
    assert steps[i + 1] == rest[i] && (i + 1 < |rest| ==> steps[i + 2] == rest[i + 1]);
  }

  lemma ReportFront(node: Node, row: Row, back: nat, s: Step, rest: seq<Step>)
    requires back > 0 && rest != [] && s.row == row && ReportsAt(node, back, [s] + rest, 0)
    ensures Reports(node, row, back, [s] + rest) <==> Reports(node, rest[0].row, back - 1, rest)
  {
    var steps, less := [s] + rest, back - 1;
    if Reports(node, row, back, steps) {
      forall i | 0 <= i < |rest|
        ensures ReportsAt(node, less, rest, i)
      {
        ReportShifts(node, back, s, rest, i);
      }
    }
    if Reports(node, rest[0].row, back - 1, rest) {
      forall j | 0 <= j < |steps|
        ensures ReportsAt(node, back, steps, j)
      {
        if j > 0 {
          ReportShifts(node, back, s, rest, j - 1);
        }
      }
    }
  }

  /** The first step is reported as the walk takes it. */
  lemma FirstReported(node: Node, back: nat, steps: seq<Step>)
    requires steps != []
    ensures var link := LinkAt(node, steps[0].row.header, back);
            ReportsAt(node, back, steps, 0) <==>
              && steps[0].link == link && (|steps| > 1 <==> Goes(link))
              && (|steps| > 1 ==> steps[1].row == node.rows[steps[0].row.header.number - 1])
  {
  }

  lemma LastReported(node: Node, row: Row, back: nat, steps: seq<Step>)
    requires !Goes(LinkAt(node, row.header, back))
    ensures Reports(node, row, back, steps) <==> steps == [Step(row, LinkAt(node, row.header, back))]
  {
    if steps != [] {
      FirstReported(node, back, steps);
    }
  }

  /** The walk is a report, row by row and link by link. */
  lemma {:induction false} WalkReports(node: Node, row: Row, back: nat)
    ensures Reports(node, row, back, Walk(node, row, back))
    decreases back
  {
    var link := LinkAt(node, row.header, back);
    WalkUnfolds(node, row, back);
    if Goes(link) {
      var p := node.rows[row.header.number - 1];
      var rest := Walk(node, p, back - 1);
      WalkReports(node, p, back - 1);
      FirstReported(node, back, [Step(row, link)] + rest);
      ReportFront(node, row, back, Step(row, link), rest);
    } else {
      LastReported(node, row, back, [Step(row, link)]);
    }
  }

  /** It is the only one. */
  lemma {:induction false} ReportIsWalk(node: Node, row: Row, back: nat, steps: seq<Step>)
    requires Reports(node, row, back, steps)
    ensures steps == Walk(node, row, back)
    decreases back
  {
    var link := LinkAt(node, row.header, back);
    WalkUnfolds(node, row, back);
    FirstReported(node, back, steps);
    if Goes(link) {
      var p, rest := node.rows[row.header.number - 1], steps[1..];
      assert steps == [steps[0]] + rest;
      ReportFront(node, row, back, steps[0], rest);
      ReportIsWalk(node, p, back - 1, rest);
    }
  }

  // ----- What an intact walk means -----

  /** `p` is the row read as the parent of `h`: it has the parent digest, and the index agrees. */
  predicate ParentRow(node: Node, h: Header, p: Row) {
    && !StartsChain(h) && h.number - 1 in node.rows && p == node.rows[h.number - 1]
    && h.parent == Of(p.header)
    && h.parent in node.index && node.index[h.parent] == h.number - 1
  }

  predicate LinkedRows(node: Node, rs: seq<Row>, i: nat)
    requires i + 1 < |rs|
  {
    ParentRow(node, rs[i].header, rs[i + 1])
  }

  /** `rs` are the rows from `row` on, each the parent of the one before, to the chain's start or over
      the whole range. */
  ghost predicate ChainOf(node: Node, row: Row, back: nat, rs: seq<Row>) {
    && 0 < |rs| <= back + 1 && rs[0] == row
    && (forall i | 0 <= i < |rs| - 1 :: LinkedRows(node, rs, i))
    && (StartsChain(rs[|rs| - 1].header) || |rs| == back + 1)
  }

  /** From `row` on the stored headers are hash-linked and indexed to the chain's start, or over the
      whole range. */
  ghost predicate Chained(node: Node, row: Row, back: nat) {
    exists rs :: ChainOf(node, row, back, rs)
  }

  lemma ChainedShifts(node: Node, row: Row, p: Row, back: nat)
    requires ParentRow(node, row.header, p) && back > 0
    ensures Chained(node, row, back) <==> Chained(node, p, back - 1)
  {
    var back' := back - 1;
    if rs :| ChainOf(node, row, back, rs) {
      ChainRest(node, row, p, back, rs);
    }
    if rest :| ChainOf(node, p, back', rest) {
      ChainFront(node, row, p, back, rest);
    }
  }

  lemma ChainRest(node: Node, row: Row, p: Row, back: nat, rs: seq<Row>)
    requires ParentRow(node, row.header, p) && back > 0 && ChainOf(node, row, back, rs)
    ensures ChainOf(node, p, back - 1, rs[1..])
  {
    var rest := rs[1..];
    assert LinkedRows(node, rs, 0);
    forall i | 0 <= i < |rest| - 1
      ensures LinkedRows(node, rest, i)
    {
      assert LinkedRows(node, rs, i + 1);
    }
  }

  lemma ChainFront(node: Node, row: Row, p: Row, back: nat, rest: seq<Row>)
    requires ParentRow(node, row.header, p) && back > 0 && ChainOf(node, p, back - 1, rest)
    ensures ChainOf(node, row, back, [row] + rest)
  {
    var rs := [row] + rest;
    forall i | 0 <= i < |rs| - 1
      ensures LinkedRows(node, rs, i)
    {
      assert i > 0 ==> LinkedRows(node, rest, i - 1);
    }
  }

  lemma BrokenIsNotChained(node: Node, row: Row, back: nat)
    requires !IsIntact(LinkAt(node, row.header, back))
    ensures !Chained(node, row, back)
  {
    forall rs: seq<Row>
      ensures !ChainOf(node, row, back, rs)
    {
      assert |rs| > 1 ==> (LinkedRows(node, rs, 0) <==> ParentRow(node, rs[0].header, rs[1]));
    }
  }

  lemma EndIsChained(node: Node, row: Row, back: nat)
    requires IsRoot(row.header) || back == 0
    ensures Chained(node, row, back) && AllIntact(Walk(node, row, back))
  {
    assert ChainOf(node, row, back, [row]);
    WalkUnfolds(node, row, back);
  }

  lemma LinkedStep(node: Node, row: Row, back: nat)
    requires LinkAt(node, row.header, back) == Linked
    ensures ParentRow(node, row.header, node.rows[row.header.number - 1])
    ensures AllIntact(Walk(node, row, back)) <==> AllIntact(Walk(node, node.rows[row.header.number - 1], back - 1))
  {
    WalkUnfolds(node, row, back);
    IntactFront(Step(row, Linked), Walk(node, node.rows[row.header.number - 1], back - 1));
  }

  lemma IntactFront(s: Step, rest: seq<Step>)
    ensures AllIntact([s] + rest) <==> IsIntact(s.link) && AllIntact(rest)
  {
  }

  lemma BrokenFirst(node: Node, row: Row, back: nat)
    requires !IsIntact(LinkAt(node, row.header, back))
    ensures !AllIntact(Walk(node, row, back))
  {
    assert Walk(node, row, back)[0] in Walk(node, row, back);
  }

  /** Every link of the walk is intact exactly when the stored headers are hash-linked and indexed
      from the row read, whatever keys they are filed under. */
  lemma {:induction false} IntactIffChained(node: Node, row: Row, back: nat)
    ensures AllIntact(Walk(node, row, back)) <==> Chained(node, row, back)
    decreases back
  {
    if LinkAt(node, row.header, back) == Linked {
      var p := node.rows[row.header.number - 1];
      LinkedStep(node, row, back);
      IntactIffChained(node, p, back - 1);
      ChainedShifts(node, row, p, back);
    } else if IsRoot(row.header) || back == 0 {
      EndIsChained(node, row, back);
    } else {
      BrokenIsNotChained(node, row, back);
      BrokenFirst(node, row, back);
    }
  }

  lemma RowsFront(s: Step, rest: seq<Step>)
    ensures RowsOf([s] + rest) == [s.row] + RowsOf(rest)
  {
  }

  lemma ChainEnds(node: Node, row: Row, back: nat, rs: seq<Row>)
    requires ChainOf(node, row, back, rs)
    ensures |rs| > 1 <==> LinkAt(node, row.header, back) == Linked
    ensures |rs| == 1 ==> !Goes(LinkAt(node, row.header, back))
    ensures |rs| > 1 ==> ParentRow(node, row.header, rs[1])
  {
    if |rs| > 1 {
      assert LinkedRows(node, rs, 0);
    }
  }

  /** The rows a walk visits. */
  function VisitedRows(node: Node, row: Row, back: nat): seq<Row> {
    RowsOf(Walk(node, row, back))
  }

  lemma VisitedUnfolds(node: Node, row: Row, back: nat)
    ensures VisitedRows(node, row, back) ==
              if Goes(LinkAt(node, row.header, back))
              then [row] + VisitedRows(node, node.rows[row.header.number - 1], back - 1)
              else [row]
  {
    var link := LinkAt(node, row.header, back);
    WalkUnfolds(node, row, back);
    if Goes(link) {
      RowsFront(Step(row, link), Walk(node, node.rows[row.header.number - 1], back - 1));
    }
  }

  lemma FirstAndRest(rs: seq<Row>)
    requires rs != []
    ensures rs == [rs[0]] + rs[1..]
  {
  }

  /** The chain is the walk's rows, so that there is one at most. */
  lemma {:induction false} ChainIsVisited(node: Node, row: Row, back: nat, rs: seq<Row>)
    requires ChainOf(node, row, back, rs)
    ensures rs == VisitedRows(node, row, back)
    decreases back
  {
    ChainEnds(node, row, back, rs);
    VisitedUnfolds(node, row, back);
    FirstAndRest(rs);
    if |rs| > 1 {
      ChainRest(node, row, rs[1], back, rs);
      ChainIsVisited(node, rs[1], back - 1, rs[1..]);
    }
  }

  // ----- Which numbers a walk visits -----

  /** The next row read is the one filed under the number below. */
  predicate ReadBelow(node: Node, steps: seq<Step>, i: nat)
    requires i + 1 < |steps|
  {
    var n := steps[i].row.header.number;
    n > 0 && n - 1 in node.rows && steps[i + 1].row == node.rows[n - 1]
  }

  /** A walk visits at most one header more than the parents to follow, each read under the number
      below the one before. */
  lemma {:induction false} WalkReads(node: Node, row: Row, back: nat)
    ensures var steps := Walk(node, row, back);
            && 1 <= |steps| <= back + 1 && steps[0].row == row
            && forall i | 0 <= i < |steps| - 1 :: ReadBelow(node, steps, i)
    decreases back
  {
    var link := LinkAt(node, row.header, back);
    WalkUnfolds(node, row, back);
    if Goes(link) {
      var p := node.rows[row.header.number - 1];
      WalkReads(node, p, back - 1);
      ReadsOn(node, Step(row, link), Walk(node, p, back - 1));
    }
  }

  lemma ReadsOn(node: Node, s: Step, rest: seq<Step>)
    requires rest != [] && s.row.header.number > 0 && s.row.header.number - 1 in node.rows
    requires rest[0].row == node.rows[s.row.header.number - 1]
    requires forall i | 0 <= i < |rest| - 1 :: ReadBelow(node, rest, i)
    ensures forall i | 0 <= i < |[s] + rest| - 1 :: ReadBelow(node, [s] + rest, i)
  {
    var steps := [s] + rest;
    forall i | 0 <= i < |steps| - 1
      ensures ReadBelow(node, steps, i)
    {
      assert i > 0 ==> ReadBelow(node, rest, i - 1);
    }
  }

  predicate NumberedAt(steps: seq<Step>, start: nat, i: nat)
    requires i < |steps|
  {
    steps[i].row.header.number == start - i
  }

  /** The hops carry the numbers `start`, `start - 1`, and so on. */
  predicate Numbered(steps: seq<Step>, start: nat) {
    forall i | 0 <= i < |steps| :: NumberedAt(steps, start, i)
  }

  predicate OneBelow(steps: seq<Step>, i: nat)
    requires i + 1 < |steps|
  {
    steps[i + 1].row.header.number == steps[i].row.header.number - 1
  }

  /** The start row carries its key, and each visited parent is numbered one below its child. */
  ghost predicate Filed(node: Node, start: nat, back: nat) {
    && start in node.rows && node.rows[start].header.number == start
    && var steps := Walk(node, node.rows[start], back);
       forall i | 0 <= i < |steps| - 1 :: OneBelow(steps, i)
  }

  lemma {:induction false} NumberedTo(steps: seq<Step>, start: nat, i: nat)
    requires i < |steps| && steps[0].row.header.number == start
    requires forall k | 0 <= k < |steps| - 1 :: OneBelow(steps, k)
    ensures NumberedAt(steps, start, i)
  {
    if i > 0 {
      NumberedTo(steps, start, i - 1);
      assert OneBelow(steps, i - 1);
    }
  }

  /** The hops are the consecutive numbers from the start down exactly when the start row carries its
      key and every visited parent is numbered one below; they are then the rows of those keys. */
  lemma HopsDescendIff(node: Node, start: nat, back: nat)
    requires start in node.rows
    ensures var steps := Walk(node, node.rows[start], back);
            && (Numbered(steps, start) <==> Filed(node, start, back))
            && (Filed(node, start, back) ==> Descends(node, steps, start))
  {
    var steps := Walk(node, node.rows[start], back);
    WalkReads(node, node.rows[start], back);
    if Filed(node, start, back) {
      forall i | 0 <= i < |steps|
        ensures NumberedAt(steps, start, i) && StoredAt(node, steps[i], start - i)
      {
        NumberedTo(steps, start, i);
        if i > 0 {
          NumberedTo(steps, start, i - 1);
          assert ReadBelow(node, steps, i - 1);
        }
      }
    }
    if Numbered(steps, start) {
      assert NumberedAt(steps, start, 0);
      forall i | 0 <= i < |steps| - 1
        ensures OneBelow(steps, i)
      {
        assert NumberedAt(steps, start, i) && NumberedAt(steps, start, i + 1);
      }
    }
  }

  predicate StoredAt(node: Node, step: Step, n: int) {
    n in node.rows && step.row == node.rows[n]
  }

  /** The steps are the rows filed under consecutive descending numbers. */
  predicate Descends(node: Node, steps: seq<Step>, start: nat) {
    forall i | 0 <= i < |steps| :: StoredAt(node, steps[i], start - i)
  }
}
