/** What the epoch check's findings and its verdicts mean, over the nodes' own tables. */
module EpochVerdict {
  import opened Tables
  import opened EpochCheck

  // ----- Findings -----

  /** The check starts at the epoch. */
  ghost predicate FirstChecked(node: Node, from: Option<nat>, to: Option<nat>, epoch: nat) {
    InRange(node, from, to, epoch) && forall e: nat | InRange(node, from, to, e) :: epoch <= e
  }

  /** The record that the record of an epoch has to follow: the one of the epoch before, or, unless the
      check starts here, one of that epoch still awaiting its certificate. */
  ghost predicate Before(node: Node, from: Option<nat>, to: Option<nat>, epoch: nat, r: Record) {
    && epoch > 0
    && if epoch - 1 in node.records then r == node.records[epoch - 1].record
       else !FirstChecked(node, from, to, epoch) && epoch - 1 in node.pending && r == node.pending[epoch - 1]
  }

  ghost predicate LinkFails(node: Node, from: Option<nat>, to: Option<nat>, epoch: nat, r: Record) {
    exists before :: Before(node, from, to, epoch, before) && r.parent != Of(before)
  }

  ghost predicate CommitteeDiffers(node: Node, from: Option<nat>, to: Option<nat>, epoch: nat, r: Record) {
    exists before :: Before(node, from, to, epoch, before) && r.committee != before.next
  }

  /** What is wrong at an epoch of the range. */
  ghost predicate Flaw(node: Node, from: Option<nat>, to: Option<nat>, epoch: nat, issue: Issue) {
    && InRange(node, from, to, epoch)
    && match issue
       case Gap => !HasEpoch(node, epoch)
       case InvalidCert => epoch in node.records && node.records[epoch].cert == Some(Invalid)
       case Uncertified => epoch in node.records && node.records[epoch].cert == None && node.records[epoch].record.epoch != 0
       case BadIndex => epoch in node.records && !IndexedAt(node, epoch, Of(node.records[epoch].record))
       case BrokenLink => epoch in node.records && LinkFails(node, from, to, epoch, node.records[epoch].record)
       case BadHandoff => epoch in node.records && CommitteeDiffers(node, from, to, epoch, node.records[epoch].record)
  }

  /** What a walk from `from` finds at `epoch`. */
  function FoundBy(node: Node, from: nat, epoch: nat): seq<Finding>
    requires from <= epoch
  {
    FindingsAt(node, Prev(node, from, epoch), epoch)
  }

  lemma FindingsMore(node: Node, from: nat, end: nat, f: Finding)
    requires from < end
    ensures f in Findings(node, from, end) <==> f in Findings(node, from, end - 1) || f in FoundBy(node, from, end - 1)
  {
  }

  lemma {:induction false} FoundIn(node: Node, from: nat, end: nat, f: Finding)
    ensures f in Findings(node, from, end) <==> from <= f.epoch < end && f in FoundBy(node, from, f.epoch)
  {
    if from < end {
      FoundIn(node, from, end - 1, f);
      FindingsMore(node, from, end, f);
      FoundAt(node, Prev(node, from, end - 1), end - 1, f);
    }
  }

  /** What is found at an epoch is of that epoch. */
  lemma FoundAt(node: Node, prev: Option<Record>, epoch: nat, f: Finding)
    ensures f in FindingsAt(node, prev, epoch) ==> f.epoch == epoch
  {
  }

  lemma IssueIff(node: Node, prev: Option<Record>, epoch: nat, issue: Issue)
    ensures Finding(epoch, issue) in FindingsAt(node, prev, epoch) <==>
            match issue
            case Gap => !HasEpoch(node, epoch)
            case InvalidCert => epoch in node.records && node.records[epoch].cert == Some(Invalid)
            case Uncertified => epoch in node.records && node.records[epoch].cert == None && node.records[epoch].record.epoch != 0
            case BadIndex => epoch in node.records && !IndexedAt(node, epoch, Of(node.records[epoch].record))
            case BrokenLink => epoch in node.records && epoch > 0 && prev.Some? && node.records[epoch].record.parent != Of(prev.value)
            case BadHandoff => epoch in node.records && epoch > 0 && prev.Some? && node.records[epoch].record.committee != prev.value.next
  {
  }

  lemma PrevMeans(node: Node, from: Option<nat>, to: Option<nat>, epoch: nat, start: nat)
    requires InRange(node, from, to, epoch) && RangeOf(node, from, to).Some? && start == RangeOf(node, from, to).value.0
    ensures start <= epoch
    ensures forall r :: Before(node, from, to, epoch, r) <==> epoch > 0 && Prev(node, start, epoch) == Some(r)
  {
    RangeMeans(node, from, to);
    assert FirstChecked(node, from, to, epoch) <==> epoch == start by {
      assert InRange(node, from, to, start);
    }
  }

  /** The findings of a node's check are exactly what is wrong in its range. */
  lemma FindingsAreFlaws(node: Node, from: Option<nat>, to: Option<nat>, f: Finding)
    ensures f in ViewOf(node, from, to).findings <==> Flaw(node, from, to, f.epoch, f.issue)
  {
    var range := RangeOf(node, from, to);
    RangeMeans(node, from, to);
    if range.Some? {
      var (start, end) := range.value;
      FoundIn(node, start, end + 1, f);
      if InRange(node, from, to, f.epoch) {
        PrevMeans(node, from, to, f.epoch, start);
        IssueIff(node, Prev(node, start, f.epoch), f.epoch, f.issue);
        assert f == Finding(f.epoch, f.issue);
      }
    }
  }

  function RecordsIn(node: Node, from: nat, end: nat): set<nat> {
    set e | e in node.records && from <= e < end
  }

  lemma {:induction false} CheckedInIs(node: Node, from: nat, end: nat)
    ensures CheckedIn(node, from, end) == |RecordsIn(node, from, end)|
  {
    if end <= from {
      assert RecordsIn(node, from, end) == {};
    } else {
      CheckedInIs(node, from, end - 1);
      var before := RecordsIn(node, from, end - 1);
      assert RecordsIn(node, from, end) == if end - 1 in node.records then before + {end - 1} else before;
    }
  }

  ghost function CheckedEpochs(node: Node, from: Option<nat>, to: Option<nat>): set<nat> {
    set e | e in node.records && InRange(node, from, to, e)
  }

  /** The number of epochs checked is that of the records in the range. */
  lemma CheckedIsCount(node: Node, from: Option<nat>, to: Option<nat>)
    ensures ViewOf(node, from, to).checked == |CheckedEpochs(node, from, to)|
  {
    var range := RangeOf(node, from, to);
    RangeMeans(node, from, to);
    if range.Some? {
      CheckedInIs(node, range.value.0, range.value.1 + 1);
      assert CheckedEpochs(node, from, to) == RecordsIn(node, range.value.0, range.value.1 + 1);
    } else {
      assert CheckedEpochs(node, from, to) == {};
    }
  }

  lemma NoneCheckedIff(node: Node, from: Option<nat>, to: Option<nat>)
    ensures ViewOf(node, from, to).checked == 0 <==> forall epoch: nat :: !CheckedAt(node, from, to, epoch)
  {
    var checked := CheckedEpochs(node, from, to);
    CheckedIsCount(node, from, to);
    assert forall epoch: nat :: CheckedAt(node, from, to, epoch) <==> epoch in checked;
    if checked != {} {
      var epoch :| epoch in checked;
      assert CheckedAt(node, from, to, epoch);
    }
  }

  lemma NoneFoundIff(node: Node, from: Option<nat>, to: Option<nat>)
    ensures ViewOf(node, from, to).findings == [] <==> forall epoch: nat, issue :: !Flaw(node, from, to, epoch, issue)
  {
    var findings := ViewOf(node, from, to).findings;
    forall epoch: nat, issue
      ensures Flaw(node, from, to, epoch, issue) <==> Finding(epoch, issue) in findings
    {
      FindingsAreFlaws(node, from, to, Finding(epoch, issue));
    }
    if findings != [] {
      assert Finding(findings[0].epoch, findings[0].issue) == findings[0] && findings[0] in findings;
    }
  }

  // ----- Verdicts -----

  ghost predicate SomePending(nodes: seq<Node>) {
    exists n | n in nodes :: n.pending != map[]
  }

  ghost predicate SomeChecked(nodes: seq<Node>, from: Option<nat>, to: Option<nat>) {
    exists n, epoch: nat | n in nodes :: CheckedAt(n, from, to, epoch)
  }

  ghost predicate SomeFlaw(nodes: seq<Node>, from: Option<nat>, to: Option<nat>) {
    exists n, epoch: nat, issue | n in nodes :: Flaw(n, from, to, epoch, issue)
  }

  /** A node that has closed an epoch has no record at all. */
  ghost predicate SomeWithout(nodes: seq<Node>) {
    exists n | n in nodes :: n.records == map[] && n.pending == map[] && n.closed
  }

  lemma ViewMeans(node: Node, from: Option<nat>, to: Option<nat>)
    ensures var v := ViewOf(node, from, to);
            && (v.pending == {} <==> node.pending == map[])
            && (v.checked == 0 <==> forall epoch: nat :: !CheckedAt(node, from, to, epoch))
            && (v.findings == [] <==> forall epoch: nat, issue :: !Flaw(node, from, to, epoch, issue))
            && (v.recordsMissing <==> node.records == map[] && node.pending == map[] && node.closed)
  {
    NoneCheckedIff(node, from, to);
    NoneFoundIff(node, from, to);
    RangeMeans(node, from, to);
    if node.records != map[] {
      assert HasEpoch(node, Last(node.records.Keys));
    }
  }

  lemma ViewsMean(nodes: seq<Node>, from: Option<nat>, to: Option<nat>)
    ensures var views := Views(nodes, from, to);
            && ((forall v | v in views :: v.pending == {}) <==> !SomePending(nodes))
            && ((forall v | v in views :: v.checked == 0) <==> !SomeChecked(nodes, from, to))
            && ((forall v | v in views :: v.findings == []) <==> !SomeFlaw(nodes, from, to))
            && ((exists v | v in views :: v.recordsMissing) <==> SomeWithout(nodes))
  {
    var views := Views(nodes, from, to);
    forall n | n in nodes
      ensures ViewOf(n, from, to) in views
    {
      var i :| 0 <= i < |nodes| && nodes[i] == n;
      assert views[i] in views;
    }
    forall n | n in nodes {
      ViewMeans(n, from, to);
    }
    forall v | v in views
      ensures exists n | n in nodes :: ViewOf(n, from, to) == v
    {
      var i :| 0 <= i < |views| && views[i] == v;
      assert nodes[i] in nodes;
    }
  }

  /** Which verdict is given, for every set of nodes and every range. */
  lemma CodesAreExact(nodes: seq<Node>, from: Option<nat>, to: Option<nat>)
    ensures var code := VerdictCode(Views(nodes, from, to), Diverges(nodes, from, to));
            var differ, checked := Diverges(nodes, from, to), SomeChecked(nodes, from, to);
            && (code == DIVERGENT <==> differ)
            && (code == EMPTY <==> !differ && !SomePending(nodes) && !checked)
            && (code == BROKEN <==> !differ && (SomePending(nodes) || (checked && SomeFlaw(nodes, from, to))))
            && (code == PARTIAL <==>
                  !differ && !SomePending(nodes) && checked && !SomeFlaw(nodes, from, to) && SomeWithout(nodes))
            && (code == OK <==>
                  !differ && !SomePending(nodes) && checked && !SomeFlaw(nodes, from, to) && !SomeWithout(nodes))
  {
    SumsZeroIff(Views(nodes, from, to));
    ViewsMean(nodes, from, to);
  }
}
