/** The epoch-check auditor: one node's epoch records walked forward, and the verdict over nodes. */
module EpochCheck {
  import opened Tables

  type Keys = nat

  /** A record's digest is the record itself; `Raw` are the values that are no record's digest. */
  datatype Digest = Of(record: Record) | Raw(id: nat)

  datatype Record = Record(epoch: nat, parent: Digest, committee: Keys, next: Keys)

  datatype Certificate = Valid | Invalid

  /** A stored record and its certificate, if any. */
  datatype Entry = Entry(record: Record, cert: Option<Certificate>)

  /** A node's epoch tables: records, records still awaiting their certificate, the digest index, and
      whether the node has closed an epoch. */
  datatype Node = Node(records: map<nat, Entry>, pending: map<nat, Record>, index: map<Digest, nat>, closed: bool)

  datatype Issue = Gap | InvalidCert | Uncertified | BadIndex | BrokenLink | BadHandoff

  datatype Finding = Finding(epoch: nat, issue: Issue)

  // ----- One epoch -----

  datatype CertState = Certified | InvalidState | Genesis | RecordOnly

  function CertStateOf(e: Entry): CertState {
    match e.cert
    case Some(Valid) => Certified
    case Some(Invalid) => InvalidState
    case None => if e.record.epoch == 0 then Genesis else RecordOnly
  }

  datatype LinkCheck = LinkGenesis | LinkOk | LinkBroken | PrevMissing

  function CheckLink(epoch: nat, prev: Option<Record>, r: Record): LinkCheck {
    if epoch == 0 then LinkGenesis
    else if prev.None? then PrevMissing
    else if Of(prev.value) == r.parent then LinkOk else LinkBroken
  }

  function CertIssue(epoch: nat, e: Entry): seq<Finding> {
    match CertStateOf(e)
    case Certified => []
    case InvalidState => [Finding(epoch, InvalidCert)]
    case Genesis => []
    case RecordOnly => [Finding(epoch, Uncertified)]
  }

  predicate Indexed(node: Node, epoch: nat, r: Record) {
    Of(r) in node.index && node.index[Of(r)] == epoch
  }

  predicate HandoffFails(epoch: nat, prev: Option<Record>, r: Record) {
    epoch > 0 && prev.Some? && prev.value.next != r.committee
  }

  /** What is wrong at one epoch, given the record of the epoch before where there is one. */
  function FindingsAt(node: Node, prev: Option<Record>, epoch: nat): seq<Finding> {
    if epoch in node.records then
      var e := node.records[epoch];
      CertIssue(epoch, e)
      + (if Indexed(node, epoch, e.record) then [] else [Finding(epoch, BadIndex)])
      + (if CheckLink(epoch, prev, e.record) == LinkBroken then [Finding(epoch, BrokenLink)] else [])
      + (if HandoffFails(epoch, prev, e.record) then [Finding(epoch, BadHandoff)] else [])
    else if epoch in node.pending then []
    else [Finding(epoch, Gap)]
  }

  /** The record an epoch hands on to the next one's checks. */
  function Handed(node: Node, epoch: nat): Option<Record> {
    if epoch in node.records then Some(node.records[epoch].record)
    else if epoch in node.pending then Some(node.pending[epoch])
    else None
  }

  /** The record checked against at `epoch` by a walk from `from`. */
  function Prev(node: Node, from: nat, epoch: nat): Option<Record>
    requires from <= epoch
  {
    if epoch > from then Handed(node, epoch - 1)
    else if from > 0 && from - 1 in node.records then Some(node.records[from - 1].record)
    else None
  }

  /** What a walk from `from` up to, not including, `end` finds. */
  function Findings(node: Node, from: nat, end: nat): seq<Finding> {
    if end <= from then []
    else Findings(node, from, end - 1) + FindingsAt(node, Prev(node, from, end - 1), end - 1)
  }

  function CheckedIn(node: Node, from: nat, end: nat): nat {
    if end <= from then 0 else CheckedIn(node, from, end - 1) + (if end - 1 in node.records then 1 else 0)
  }

  // ----- One node -----

  /** What one node's check reports. `checked` epochs are those of the range with a record. */
  datatype View = View(range: Option<(nat, nat)>, checked: nat, findings: seq<Finding>, pending: set<nat>,
                       recordsMissing: bool, ok: bool)

  /** The range a check covers: by default from the first to the last epoch the node has a record or
      a pending record of; nothing when it has none, or asks to start past the last. */
  function RangeOf(node: Node, from: Option<nat>, to: Option<nat>): Option<(nat, nat)> {
    var epochs := node.records.Keys + node.pending.Keys;
    if epochs == {} then None
    else
      var last := Last(epochs);
      var start := if from.Some? then from.value else Min(epochs);
      if start > last then None
      else Some((start, if to.Some? && to.value <= last then to.value else last))
  }

  function ViewOf(node: Node, from: Option<nat>, to: Option<nat>): View {
    var range := RangeOf(node, from, to);
    if range.None? then
      View(None, 0, [], node.pending.Keys, node.records == map[] && node.pending == map[] && node.closed, false)
    else
      var (start, end) := range.value;
      var findings := Findings(node, start, end + 1);
      var checked := CheckedIn(node, start, end + 1);
      View(range, checked, findings, node.pending.Keys, false,
           findings == [] && node.pending == map[] && checked > 0)
  }

  /** Checks the record of one epoch. */
  method CheckRecord(node: Node, prev: Option<Record>, epoch: nat, findings: seq<Finding>) returns (more: seq<Finding>)
    requires epoch in node.records
    ensures more == findings + FindingsAt(node, prev, epoch)
  {
    var e := node.records[epoch];
    var found: seq<Finding> := [];
    match CertStateOf(e) {
      case InvalidState => found := [Finding(epoch, InvalidCert)];
      case RecordOnly => found := [Finding(epoch, Uncertified)];
      case Certified =>
      case Genesis =>
    }
    if !Indexed(node, epoch, e.record) {
      found := found + [Finding(epoch, BadIndex)];
    }
    if CheckLink(epoch, prev, e.record) == LinkBroken {
      found := found + [Finding(epoch, BrokenLink)];
    }
    if HandoffFails(epoch, prev, e.record) {
      found := found + [Finding(epoch, BadHandoff)];
    }
    more := findings + found;
  }

  method WalkRecords(node: Node, from: nat, to: nat) returns (checked: nat, findings: seq<Finding>)
    ensures checked == CheckedIn(node, from, to + 1) && findings == Findings(node, from, to + 1)
  {
    checked, findings := 0, [];
    var prev := if from > 0 && from - 1 in node.records then Some(node.records[from - 1].record) else None;
    var epoch := from;
    while epoch <= to
      invariant from <= epoch && (epoch == from || epoch <= to + 1)
      invariant checked == CheckedIn(node, from, epoch) && findings == Findings(node, from, epoch)
      invariant prev == Prev(node, from, epoch)
    {
      ghost var before := findings;
      if epoch in node.records {
        checked := checked + 1;
        findings := CheckRecord(node, prev, epoch, findings);
        prev := Some(node.records[epoch].record);
      } else if epoch in node.pending {
        prev := Some(node.pending[epoch]);
      } else {
        findings, prev := findings + [Finding(epoch, Gap)], None;
      }
      assert findings == before + FindingsAt(node, Prev(node, from, epoch), epoch);
      epoch := epoch + 1;
    }
  }

  method CheckNode(node: Node, from: Option<nat>, to: Option<nat>) returns (view: View)
    ensures view == ViewOf(node, from, to)
  {
    var range := RangeOf(node, from, to);
    if range.None? {
      return View(None, 0, [], node.pending.Keys, node.records == map[] && node.pending == map[] && node.closed, false);
    }
    var checked, findings := WalkRecords(node, range.value.0, range.value.1);
    view := View(range, checked, findings, node.pending.Keys, false, findings == [] && node.pending == map[] && checked > 0);
  }

  // ----- Which epochs are checked -----

  /** The node has a record of the epoch, or one still awaiting its certificate. */
  predicate HasEpoch(node: Node, epoch: nat) {
    epoch in node.records || epoch in node.pending
  }

  /** The epochs a check covers: not before `from`, or not before every epoch the node has; not after
      every epoch the node has, and not after `to`. */
  ghost predicate InRange(node: Node, from: Option<nat>, to: Option<nat>, epoch: nat) {
    && (from.Some? ==> from.value <= epoch)
    && (from.None? ==> exists lo: nat | HasEpoch(node, lo) :: lo <= epoch)
    && (exists hi: nat | HasEpoch(node, hi) :: epoch <= hi)
    && (to.Some? ==> epoch <= to.value)
  }

  lemma RangeMeans(node: Node, from: Option<nat>, to: Option<nat>)
    ensures var range := RangeOf(node, from, to);
            && (range.None? ==> forall epoch: nat :: !InRange(node, from, to, epoch))
            && (range.Some? ==> forall epoch: nat :: InRange(node, from, to, epoch) <==> range.value.0 <= epoch <= range.value.1)
            && (range.None? <==> forall hi: nat | HasEpoch(node, hi) :: from.Some? && from.value > hi)
  {
    var epochs := node.records.Keys + node.pending.Keys;
    assert forall e: nat :: HasEpoch(node, e) <==> e in epochs;
    if epochs != {} {
      assert HasEpoch(node, Last(epochs)) && HasEpoch(node, Min(epochs));
    }
  }

  // ----- What a good node is -----

  /** The record of an epoch is certified, or is an unsigned record of epoch 0. */
  predicate Signed(e: Entry) {
    e.cert == Some(Valid) || (e.cert == None && e.record.epoch == 0)
  }

  /** The record follows the one of the epoch before, in digest and in committee. */
  predicate Follows(before: Record, r: Record) {
    r.parent == Of(before) && before.next == r.committee
  }

  predicate IndexedAt(node: Node, epoch: nat, d: Digest) {
    d in node.index && node.index[d] == epoch
  }

  predicate GoodEpoch(node: Node, epoch: nat) {
    && epoch in node.records
    && Signed(node.records[epoch])
    && IndexedAt(node, epoch, Of(node.records[epoch].record))
    && (epoch > 0 && epoch - 1 in node.records ==>
          Follows(node.records[epoch - 1].record, node.records[epoch].record))
  }

  /** Every epoch of a non-empty range has a good record, and no certificate is awaited. */
  predicate GoodChain(node: Node, from: nat, to: nat) {
    from <= to && node.pending == map[] && forall epoch | from <= epoch <= to :: GoodEpoch(node, epoch)
  }

  lemma NothingFoundIff(node: Node, from: nat, epoch: nat)
    requires from <= epoch && node.pending == map[]
    ensures FindingsAt(node, Prev(node, from, epoch), epoch) == [] <==> GoodEpoch(node, epoch)
  {
  }

  lemma {:induction false} FindingsEmptyIff(node: Node, from: nat, end: nat)
    requires node.pending == map[]
    ensures Findings(node, from, end) == [] <==> forall epoch | from <= epoch < end :: GoodEpoch(node, epoch)
  {
    if from < end {
      FindingsEmptyIff(node, from, end - 1);
      NothingFoundIff(node, from, end - 1);
    }
  }

  lemma {:induction false} CheckedAll(node: Node, from: nat, end: nat)
    requires from <= end && forall epoch | from <= epoch < end :: GoodEpoch(node, epoch)
    ensures CheckedIn(node, from, end) == end - from
  {
    if from < end {
      assert GoodEpoch(node, end - 1);
      CheckedAll(node, from, end - 1);
    }
  }

  lemma RangeGoodIff(node: Node, from: nat, to: nat)
    requires node.pending == map[]
    ensures Findings(node, from, to + 1) == [] && CheckedIn(node, from, to + 1) > 0 <==> GoodChain(node, from, to)
  {
    FindingsEmptyIff(node, from, to + 1);
    if GoodChain(node, from, to) {
      CheckedAll(node, from, to + 1);
    }
  }

  /** A node is reported good exactly when no certificate is awaited, some epoch is in the range and
      every epoch in it has a good record. */
  lemma NodeOkIff(node: Node, from: Option<nat>, to: Option<nat>)
    ensures ViewOf(node, from, to).ok <==>
            && node.pending == map[] && (exists epoch :: InRange(node, from, to, epoch))
            && forall epoch | InRange(node, from, to, epoch) :: GoodEpoch(node, epoch)
  {
    var range := RangeOf(node, from, to);
    RangeMeans(node, from, to);
    if range.Some? && node.pending == map[] {
      RangeGoodIff(node, range.value.0, range.value.1);
      assert InRange(node, from, to, range.value.0) <==> range.value.0 <= range.value.1;
    }
  }

  /** Without arguments: exactly when nothing is pending, there is a record, and every epoch between two
      records has a good one. */
  lemma DefaultOkIff(node: Node)
    ensures ViewOf(node, None, None).ok <==>
            && node.pending == map[] && node.records != map[]
            && forall lo, epoch, hi | lo in node.records && hi in node.records && lo <= epoch <= hi :: GoodEpoch(node, epoch)
  {
    NodeOkIff(node, None, None);
    if node.records != map[] {
      var e :| e in node.records;
      assert HasEpoch(node, e) && InRange(node, None, None, e);
    }
    if node.pending == map[] {
      forall lo, epoch: nat, hi | lo in node.records && hi in node.records && lo <= epoch <= hi
        ensures InRange(node, None, None, epoch)
      {
        assert HasEpoch(node, lo) && HasEpoch(node, hi);
      }
    }
  }

  function RecordAt(node: Node, epoch: nat): Option<Record> {
    if epoch in node.records then Some(node.records[epoch].record) else None
  }

  /** Two good chains that hold the same record at their end hold the same records below it. */
  lemma {:induction false} SameEndSameChain(a: Node, b: Node, from: nat, last: nat, epoch: nat)
    requires from <= epoch <= last
    requires GoodChain(a, from, last) && GoodChain(b, from, last)
    requires RecordAt(a, last) == RecordAt(b, last)
    ensures RecordAt(a, epoch) == RecordAt(b, epoch)
    decreases last - epoch
  {
    if epoch < last {
      assert GoodEpoch(a, epoch + 1) && GoodEpoch(b, epoch + 1) && GoodEpoch(a, epoch) && GoodEpoch(b, epoch);
      SameEndSameChain(a, b, from, last, epoch + 1);
    }
  }

  // ----- The verdict -----

  datatype Code = OK | PARTIAL | BROKEN | EMPTY | DIVERGENT

  /** The epochs of a node's range with a record. */
  ghost predicate CheckedAt(node: Node, from: Option<nat>, to: Option<nat>, epoch: nat) {
    InRange(node, from, to, epoch) && epoch in node.records
  }

  ghost predicate Conflict(a: Node, b: Node, from: Option<nat>, to: Option<nat>, epoch: nat) {
    CheckedAt(a, from, to, epoch) && CheckedAt(b, from, to, epoch) && RecordAt(a, epoch) != RecordAt(b, epoch)
  }

  /** Two nodes were found to hold different records of one epoch. */
  ghost predicate Diverges(nodes: seq<Node>, from: Option<nat>, to: Option<nat>) {
    exists a, b, epoch | a in nodes && b in nodes :: Conflict(a, b, from, to, epoch)
  }

  function Views(nodes: seq<Node>, from: Option<nat>, to: Option<nat>): (views: seq<View>)
    ensures |views| == |nodes|
    ensures forall i | 0 <= i < |views| :: views[i] == ViewOf(nodes[i], from, to)
  {
    seq(|nodes|, i requires 0 <= i < |nodes| => ViewOf(nodes[i], from, to))
  }

  function SumPending(views: seq<View>): nat {
    if views == [] then 0 else SumPending(views[..|views| - 1]) + |views[|views| - 1].pending|
  }

  function SumFindings(views: seq<View>): nat {
    if views == [] then 0 else SumFindings(views[..|views| - 1]) + |views[|views| - 1].findings|
  }

  lemma {:induction false} SumsZeroIff(views: seq<View>)
    ensures SumPending(views) == 0 <==> forall v | v in views :: v.pending == {}
    ensures SumFindings(views) == 0 <==> forall v | v in views :: v.findings == []
  {
    if views != [] {
      SumsZeroIff(views[..|views| - 1]);
      assert views == views[..|views| - 1] + [views[|views| - 1]];
    }
  }

  function VerdictCode(views: seq<View>, divergent: bool): Code {
    if divergent then DIVERGENT
    else if (forall v | v in views :: v.checked == 0) && SumPending(views) == 0 then EMPTY
    else if SumFindings(views) + SumPending(views) > 0 then BROKEN
    else if exists v | v in views :: v.recordsMissing then PARTIAL
    else OK
  }

  /** Nothing was checked at a node that need not have records: it holds none and has closed no epoch,
      or no epoch it has is in the range; and no certificate is awaited. */
  ghost predicate NothingDue(node: Node, from: Option<nat>, to: Option<nat>) {
    && node.pending == map[] && (node.records == map[] ==> !node.closed)
    && forall epoch :: !InRange(node, from, to, epoch)
  }

  lemma {:induction false} CheckedSome(node: Node, from: nat, end: nat)
    ensures CheckedIn(node, from, end) > 0 ==> from < end
    ensures Findings(node, from, end) == [] && node.pending == map[] && from < end ==> CheckedIn(node, from, end) > 0
  {
    if from < end {
      CheckedSome(node, from, end - 1);
      if Findings(node, from, end) == [] && node.pending == map[] {
        FindingsEmptyIff(node, from, end);
        assert GoodEpoch(node, end - 1);
      }
    }
  }

  /** A node counts towards a good verdict when it is good, or when nothing was due from it. */
  lemma CleanIff(node: Node, from: Option<nat>, to: Option<nat>)
    ensures var v := ViewOf(node, from, to);
            && (v.findings == [] && v.pending == {} && !v.recordsMissing <==> v.ok || NothingDue(node, from, to))
            && (v.ok ==> v.checked > 0)
            && (v.findings == [] && v.pending == {} && !v.ok ==> v.checked == 0)
  {
    var range := RangeOf(node, from, to);
    RangeMeans(node, from, to);
    if range.Some? {
      CheckedSome(node, range.value.0, range.value.1 + 1);
      assert InRange(node, from, to, range.value.0) <==> range.value.0 <= range.value.1;
      if range.value.0 > range.value.1 {
        assert Findings(node, range.value.0, range.value.1 + 1) == [];
      }
    } else if node.records != map[] {
      assert HasEpoch(node, Last(node.records.Keys));
    }
  }

  /** The verdict is good exactly when no two nodes differ at an epoch, every node is good or has
      nothing due, and at least one is good. */
  lemma VerdictIsExact(nodes: seq<Node>, from: Option<nat>, to: Option<nat>)
    ensures VerdictCode(Views(nodes, from, to), Diverges(nodes, from, to)) == OK <==>
            && !Diverges(nodes, from, to)
            && (forall n | n in nodes :: ViewOf(n, from, to).ok || NothingDue(n, from, to))
            && exists n | n in nodes :: ViewOf(n, from, to).ok
  {
    var views := Views(nodes, from, to);
    SumsZeroIff(views);
    forall n | n in nodes
      ensures ViewOf(n, from, to) in views
    {
      var i :| 0 <= i < |nodes| && nodes[i] == n;
      assert views[i] == ViewOf(n, from, to);
    }
    forall v | v in views
      ensures exists n | n in nodes :: ViewOf(n, from, to) == v
    {
      var i :| 0 <= i < |views| && views[i] == v;
      assert nodes[i] in nodes;
    }
    forall n | n in nodes {
      CleanIff(n, from, to);
    }
  }

  // ----- The report -----

  type Digests = map<nat, set<Digest>>

  predicate Noted(digests: Digests, epoch: nat, d: Digest) {
    epoch in digests && d in digests[epoch]
  }

  ghost predicate Holds(node: Node, from: Option<nat>, to: Option<nat>, epoch: nat, d: Digest) {
    CheckedAt(node, from, to, epoch) && RecordAt(node, epoch).Some? && Of(RecordAt(node, epoch).value) == d
  }

  /** The digests noted are those of the records the nodes were checked at. */
  ghost predicate Collected(nodes: seq<Node>, from: Option<nat>, to: Option<nat>, digests: Digests) {
    forall epoch: nat, d :: Noted(digests, epoch, d) <==> exists n | n in nodes :: Holds(n, from, to, epoch, d)
  }

  predicate HeldBetween(node: Node, start: nat, end: nat, epoch: nat, d: Digest) {
    start <= epoch < end && RecordAt(node, epoch).Some? && Of(RecordAt(node, epoch).value) == d
  }

  /** Notes the digests of one node's records from `start` up to, not including, `end`. */
  method NoteDigests(node: Node, start: nat, end: nat, digests: Digests) returns (more: Digests)
    ensures forall epoch: nat, d :: Noted(more, epoch, d) <==> Noted(digests, epoch, d) || HeldBetween(node, start, end, epoch, d)
  {
    more := digests;
    var epoch := start;
    while epoch < end
      invariant start <= epoch && (epoch == start || epoch <= end)
      invariant forall e: nat, d :: Noted(more, e, d) <==> Noted(digests, e, d) || HeldBetween(node, start, epoch, e, d)
    {
      ghost var was := more;
      if epoch in node.records {
        var before := if epoch in more then more[epoch] else {};
        more := more[epoch := before + {Of(node.records[epoch].record)}];
      }
      assert forall e: nat, d ::
          Noted(more, e, d) <==> Noted(was, e, d) || (e == epoch && HeldBetween(node, start, epoch + 1, e, d));
      epoch := epoch + 1;
    }
  }

  /** Notes the digests of the records a node was checked at. */
  method NoteNode(node: Node, from: Option<nat>, to: Option<nat>, digests: Digests) returns (more: Digests)
    ensures forall epoch: nat, d :: Noted(more, epoch, d) <==> Noted(digests, epoch, d) || Holds(node, from, to, epoch, d)
  {
    var range := RangeOf(node, from, to);
    RangeMeans(node, from, to);
    more := digests;
    if range.Some? {
      more := NoteDigests(node, range.value.0, range.value.1 + 1, digests);
    }
  }

  lemma CollectedGrows(nodes: seq<Node>, from: Option<nat>, to: Option<nat>, digests: Digests, node: Node, more: Digests)
    requires Collected(nodes, from, to, digests)
    requires forall epoch: nat, d :: Noted(more, epoch, d) <==> Noted(digests, epoch, d) || Holds(node, from, to, epoch, d)
    ensures Collected(nodes + [node], from, to, more)
  {
  }

  lemma DivergesIffNoted(nodes: seq<Node>, from: Option<nat>, to: Option<nat>, digests: Digests)
    requires Collected(nodes, from, to, digests)
    ensures Diverges(nodes, from, to) <==> exists epoch | epoch in digests :: |digests[epoch]| > 1
  {
    forall epoch | epoch in digests {
      TwoMembers(digests[epoch]);
    }
    if a, b, epoch :| a in nodes && b in nodes && Conflict(a, b, from, to, epoch) {
      var x, y := Of(RecordAt(a, epoch).value), Of(RecordAt(b, epoch).value);
      assert Holds(a, from, to, epoch, x) && Holds(b, from, to, epoch, y);
      assert Noted(digests, epoch, x) && Noted(digests, epoch, y);
    }
    if epoch :| epoch in digests && |digests[epoch]| > 1 {
      var x, y :| x in digests[epoch] && y in digests[epoch] && x != y;
      assert Noted(digests, epoch, x) && Noted(digests, epoch, y);
      var a :| a in nodes && Holds(a, from, to, epoch, x);
      var b :| b in nodes && Holds(b, from, to, epoch, y);
      assert Conflict(a, b, from, to, epoch);
    }
  }

  predicate HasEpochs(node: Node) {
    node.records != map[] || node.pending != map[]
  }

  method CheckAll(nodes: seq<Node>, from: Option<nat>, to: Option<nat>) returns (views: seq<View>)
    ensures views == Views(nodes, from, to)
  {
    views := [];
    for i := 0 to |nodes|
      invariant |views| == i && forall k | 0 <= k < i :: views[k] == ViewOf(nodes[k], from, to)
    {
      var view := CheckNode(nodes[i], from, to);
      views := views + [view];
    }
  }

  method FindDivergence(nodes: seq<Node>, from: Option<nat>, to: Option<nat>) returns (divergent: bool)
    ensures divergent <==> Diverges(nodes, from, to)
  {
    var digests: Digests := map[];
    ghost var seen: seq<Node> := [];
    for i := 0 to |nodes|
      invariant seen == nodes[..i] && Collected(seen, from, to, digests)
    {
      var more := NoteNode(nodes[i], from, to, digests);
      CollectedGrows(seen, from, to, digests, nodes[i], more);
      PrefixGrows(nodes, i);
      digests, seen := more, seen + [nodes[i]];
    }
    assert seen == nodes;
    DivergesIffNoted(nodes, from, to, digests);
    divergent := exists epoch | epoch in digests :: |digests[epoch]| > 1;
  }

  /** Checks every node; an explicit range that is inverted is an error once a node has epochs. */
  method Report(nodes: seq<Node>, from: Option<nat>, to: Option<nat>) returns (r: Option<(seq<View>, Code)>)
    ensures r.None? <==> && from.Some? && to.Some? && from.value > to.value
                         && exists n | n in nodes :: n.records != map[] || n.pending != map[]
    ensures r.Some? ==> r.value.0 == Views(nodes, from, to) && r.value.1 == VerdictCode(r.value.0, Diverges(nodes, from, to))
  {
    if from.Some? && to.Some? && from.value > to.value && exists n | n in nodes :: HasEpochs(n) {
      return None;
    }
    var views := CheckAll(nodes, from, to);
    var divergent := FindDivergence(nodes, from, to);
    r := Some((views, VerdictCode(views, divergent)));
  }

  /** A good verdict does not make every node good: one that holds no record and has closed no epoch
      is reported not good, yet never spoils the verdict. */
  lemma GoodVerdictToleratesEmpty(good: Node, empty: Node)
    requires empty.records == map[] && empty.pending == map[] && !empty.closed
    requires ViewOf(good, None, None).ok
    ensures VerdictCode(Views([good, empty], None, None), Diverges([good, empty], None, None)) == OK
    ensures !ViewOf(empty, None, None).ok
  {
    VerdictIsExact([good, empty], None, None);
    OneHolderNoConflict(good, empty);
    assert good in [good, empty] && NothingDue(empty, None, None);
  }

  lemma OneHolderNoConflict(good: Node, empty: Node)
    requires empty.records == map[]
    ensures !Diverges([good, empty], None, None)
  {
    forall a, b, epoch: nat | a in [good, empty] && b in [good, empty]
      ensures !Conflict(a, b, None, None, epoch)
    {
    }
  }
}
