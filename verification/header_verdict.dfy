/** The verdict of a header-check over several nodes. */
module HeaderVerdict {
  import opened Tables
  import opened ConsensusChain
  import opened HeaderCheck

  datatype Code = OK | PARTIAL | BROKEN | MISSING | NOT_REACHED | DIVERGENT

  datatype Source = Readable(node: Node) | Broken

  function ViewFrom(source: Source, start: nat, back: nat): View {
    if source.Readable? then ViewOf(source.node, start, back) else Unreadable
  }

  function Views(sources: seq<Source>, start: nat, back: nat): (views: seq<View>)
    ensures |views| == |sources|
    ensures forall i | 0 <= i < |views| :: views[i] == ViewFrom(sources[i], start, back)
  {
    seq(|sources|, i requires 0 <= i < |sources| => ViewFrom(sources[i], start, back))
  }

  function HopsIn(v: View): seq<Hop> {
    if v.Walked? then v.hops else []
  }

  function AllHops(views: seq<View>): seq<Hop> {
    if views == [] then [] else AllHops(views[..|views| - 1]) + HopsIn(views[|views| - 1])
  }

  lemma {:induction false} AllHopsHolds(views: seq<View>, h: Hop)
    ensures h in AllHops(views) <==> exists v | v in views :: h in HopsIn(v)
  {
    if views != [] {
      var init, last := views[..|views| - 1], views[|views| - 1];
      AllHopsHolds(init, h);
      assert views == init + [last];
    }
  }

  function Number(h: Hop): nat {
    h.step.row.header.number
  }

  function DigestOf(h: Hop): Digest {
    Of(h.step.row.header)
  }

  // ----- Divergence -----

  predicate Conflict(a: Hop, b: Hop) {
    Number(a) == Number(b) && DigestOf(a) != DigestOf(b)
  }

  /** Two hops at one number have different digests. */
  predicate Diverges(hops: seq<Hop>) {
    exists a, b | a in hops && b in hops :: Conflict(a, b)
  }

  type Digests = map<nat, set<Digest>>

  ghost predicate Grouped(hops: seq<Hop>, byNumber: Digests) {
    && (forall n, d | n in byNumber && d in byNumber[n] :: exists h | h in hops :: Number(h) == n && DigestOf(h) == d)
    && forall h | h in hops :: Number(h) in byNumber && DigestOf(h) in byNumber[Number(h)]
  }

  lemma GroupedGrows(hops: seq<Hop>, byNumber: Digests, h: Hop)
    requires Grouped(hops, byNumber)
    ensures var before := if Number(h) in byNumber then byNumber[Number(h)] else {};
            Grouped(hops + [h], byNumber[Number(h) := before + {DigestOf(h)}])
  {
    var before := if Number(h) in byNumber then byNumber[Number(h)] else {};
    var after := byNumber[Number(h) := before + {DigestOf(h)}];
    forall n, d | n in after && d in after[n]
      ensures exists x | x in hops + [h] :: Number(x) == n && DigestOf(x) == d
    {
      if n == Number(h) && d == DigestOf(h) {
        assert h in hops + [h];
      } else {
        var x :| x in hops && Number(x) == n && DigestOf(x) == d;
        assert x in hops + [h];
      }
    }
  }

  lemma DivergesIffGroup(hops: seq<Hop>, byNumber: Digests)
    requires Grouped(hops, byNumber)
    ensures Diverges(hops) <==> exists n | n in byNumber :: |byNumber[n]| > 1
  {
    forall n | n in byNumber {
      TwoMembers(byNumber[n]);
    }
    if a, b :| a in hops && b in hops && Conflict(a, b) {
      assert Number(a) in byNumber && DigestOf(a) in byNumber[Number(a)] && DigestOf(b) in byNumber[Number(a)];
    }
    if n :| n in byNumber && |byNumber[n]| > 1 {
      var x, y :| x in byNumber[n] && y in byNumber[n] && x != y;
      var a :| a in hops && Number(a) == n && DigestOf(a) == x;
      var b :| b in hops && Number(b) == n && DigestOf(b) == y;
      assert Conflict(a, b);
    }
  }

  method FindDivergence(hops: seq<Hop>) returns (divergent: bool)
    ensures divergent <==> Diverges(hops)
  {
    var byNumber: Digests := map[];
    ghost var seen: seq<Hop> := [];
    for i := 0 to |hops|
      invariant seen == hops[..i] && Grouped(seen, byNumber)
    {
      GroupedGrows(seen, byNumber, hops[i]);
      PrefixGrows(hops, i);
      var n := Number(hops[i]);
      var before := if n in byNumber then byNumber[n] else {};
      byNumber, seen := byNumber[n := before + {DigestOf(hops[i])}], seen + [hops[i]];
    }
    assert seen == hops;
    DivergesIffGroup(hops, byNumber);
    divergent := exists n | n in byNumber :: |byNumber[n]| > 1;
  }

  // ----- The chain verdict -----

  datatype Outcome = Outcome(ok: bool, startNotReached: bool, startMissing: bool)

  function OutcomeOf(v: View): Outcome {
    Outcome(v.Walked? && v.ok, v.NotReached?, v.StartMissing?)
  }

  predicate IsBroken(o: Outcome) {
    !o.ok && !o.startNotReached && !o.startMissing
  }

  function Count(views: seq<View>, p: View -> bool): nat {
    if views == [] then 0 else Count(views[..|views| - 1], p) + (if p(views[|views| - 1]) then 1 else 0)
  }

  lemma {:induction false} CountBounds(views: seq<View>, p: View -> bool)
    ensures Count(views, p) <= |views|
    ensures Count(views, p) == |views| <==> forall v | v in views :: p(v)
    ensures Count(views, p) == 0 <==> forall v | v in views :: !p(v)
  {
    if views != [] {
      CountBounds(views[..|views| - 1], p);
      assert views == views[..|views| - 1] + [views[|views| - 1]];
    }
  }

  function ChainCode(views: seq<View>, divergent: bool): Code {
    var notReached := Count(views, (v: View) => OutcomeOf(v).startNotReached);
    var missing := Count(views, (v: View) => OutcomeOf(v).startMissing);
    var broken := Count(views, (v: View) => IsBroken(OutcomeOf(v)));
    if divergent then DIVERGENT
    else if notReached == |views| then NOT_REACHED
    else if missing == |views| then MISSING
    else if broken > 0 then BROKEN
    else if missing + notReached > 0 then PARTIAL
    else OK
  }

  /** The chain verdict is good exactly when there are nodes, none diverges and all walks are intact. */
  lemma ChainOkIff(views: seq<View>, divergent: bool)
    ensures ChainCode(views, divergent) == OK <==> views != [] && !divergent && forall v | v in views :: v.Walked? && v.ok
  {
    var notReached := (v: View) => OutcomeOf(v).startNotReached;
    var missing := (v: View) => OutcomeOf(v).startMissing;
    var broken := (v: View) => IsBroken(OutcomeOf(v));
    CountBounds(views, notReached);
    CountBounds(views, missing);
    CountBounds(views, broken);
    if views != [] {
      assert views[0] in views;
    }
  }

  // ----- Signature checks -----

  /** Any failed signature breaks the verdict; one that cannot be checked makes a good one partial. */
  method WithSignatureChecks(code: Code, hops: seq<Hop>) returns (r: Code)
    ensures r == SignedCode(code, hops)
  {
    var failed, unverifiable := 0, 0;
    for i := 0 to |hops|
      invariant failed > 0 <==> exists h | h in hops[..i] :: h.verify == Failed
      invariant unverifiable > 0 <==> exists h | h in hops[..i] :: h.verify == NoKeys
    {
      PrefixGrows(hops, i);
      if hops[i].verify == Failed {
        failed := failed + 1;
      }
      if hops[i].verify == NoKeys {
        unverifiable := unverifiable + 1;
      }
    }
    assert hops[..|hops|] == hops;
    r := if failed > 0 then BROKEN else if unverifiable > 0 && code == OK then PARTIAL else code;
  }

  predicate SomeCheck(hops: seq<Hop>, check: SignatureCheck) {
    exists h | h in hops :: h.verify == check
  }

  function SignedCode(code: Code, hops: seq<Hop>): Code {
    if SomeCheck(hops, Failed) then BROKEN else if SomeCheck(hops, NoKeys) && code == OK then PARTIAL else code
  }

  // ----- The report -----

  function ReportCode(views: seq<View>): Code {
    var code := ChainCode(views, Diverges(AllHops(views)));
    SignedCode(if Count(views, (v: View) => v.Unreadable?) > 0 then BROKEN else code, AllHops(views))
  }

  method Report(sources: seq<Source>, start: nat, back: nat, cores: nat) returns (views: seq<View>, code: Code)
    ensures views == Views(sources, start, back) && code == ReportCode(views)
  {
    views := [];
    for i := 0 to |sources|
      invariant |views| == i && forall k | 0 <= k < i :: views[k] == ViewFrom(sources[k], start, back)
    {
      var view := Unreadable;
      if sources[i].Readable? {
        view := CheckNode(sources[i].node, start, back, cores);
      }
      views := views + [view];
    }
    assert views == Views(sources, start, back);
    var hops := AllHops(views);
    var divergent := FindDivergence(hops);
    code := ChainCode(views, divergent);
    if Count(views, (v: View) => v.Unreadable?) > 0 {
      code := BROKEN;
    }
    code := WithSignatureChecks(code, hops);
  }

  lemma ReportOkIff(views: seq<View>)
    ensures ReportCode(views) == OK <==>
            && views != [] && !Diverges(AllHops(views))
            && (forall v | v in views :: v.Walked? && v.ok)
            && forall h | h in AllHops(views) :: Proved(h.verify)
  {
    ChainOkIff(views, Diverges(AllHops(views)));
    CountBounds(views, (v: View) => v.Unreadable?);
  }

  // ----- What a good verdict means -----

  /** A readable node with stored headers hash-linked and indexed from the row at `start` to the start
      of the chain, or over the whole range, each signed by the committee of its epoch. */
  ghost predicate NodeOk(source: Source, start: nat, back: nat) {
    && source.Readable? && start in source.node.rows
    && exists rs :: ChainOf(source.node, source.node.rows[start], back, rs) && AllSigned(source.node, rs)
  }

  ghost predicate AllSigned(node: Node, rs: seq<Row>) {
    forall r | r in rs :: SignedByCommittee(node, r)
  }

  lemma HopsProvedIff(node: Node, steps: seq<Step>)
    ensures (forall h | h in HopsOf(node, steps) :: Proved(h.verify)) <==> AllSigned(node, RowsOf(steps))
  {
    var hops, rows := HopsOf(node, steps), RowsOf(steps);
    forall i | 0 <= i < |steps|
      ensures hops[i] in hops && rows[i] in rows && (Proved(hops[i].verify) <==> SignedByCommittee(node, rows[i]))
    {
      CheckMeans(node, steps[i].row);
    }
  }

  lemma NodeOkIff(source: Source, start: nat, back: nat)
    ensures var v := ViewFrom(source, start, back);
            NodeOk(source, start, back) <==> v.Walked? && v.ok && forall h | h in HopsIn(v) :: Proved(h.verify)
  {
    if source.Readable? && start in source.node.rows {
      var node, row := source.node, source.node.rows[start];
      IntactIffChained(node, row, back);
      HopsProvedIff(node, Walk(node, row, back));
      forall rs | ChainOf(node, row, back, rs)
        ensures rs == VisitedRows(node, row, back)
      {
        ChainIsVisited(node, row, back, rs);
      }
    }
  }

  function HeadersOf(steps: seq<Step>): (hs: seq<Header>)
    ensures |hs| == |steps|
    ensures forall i | 0 <= i < |hs| :: hs[i] == steps[i].row.header
  {
    seq(|steps|, i requires 0 <= i < |steps| => steps[i].row.header)
  }

  lemma HeadersFront(s: Step, rest: seq<Step>)
    ensures HeadersOf([s] + rest) == [s.row.header] + HeadersOf(rest)
  {
  }

  /** Two intact walks from one header visit the same headers. */
  lemma {:induction false} SameStartSameChain(a: Node, x: Row, b: Node, y: Row, back: nat)
    requires x.header == y.header && AllIntact(Walk(a, x, back)) && AllIntact(Walk(b, y, back))
    ensures HeadersOf(Walk(a, x, back)) == HeadersOf(Walk(b, y, back))
    decreases back
  {
    var linkA, linkB := LinkAt(a, x.header, back), LinkAt(b, y.header, back);
    WalkUnfolds(a, x, back);
    WalkUnfolds(b, y, back);
    assert Step(x, linkA) in Walk(a, x, back) && Step(y, linkB) in Walk(b, y, back);
    if linkA == Linked {
      var n := x.header.number - 1;
      var restA, restB := Walk(a, a.rows[n], back - 1), Walk(b, b.rows[n], back - 1);
      IntactFront(Step(x, linkA), restA);
      IntactFront(Step(y, linkB), restB);
      SameStartSameChain(a, a.rows[n], b, b.rows[n], back - 1);
      HeadersFront(Step(x, linkA), restA);
      HeadersFront(Step(y, linkB), restB);
    }
  }

  function StartHeader(source: Source, start: nat): Header
    requires source.Readable? && start in source.node.rows
  {
    source.node.rows[start].header
  }

  function Chain(source: Source, start: nat, back: nat): seq<Header>
    requires source.Readable? && start in source.node.rows
  {
    HeadersOf(Walk(source.node, source.node.rows[start], back))
  }

  ghost predicate AllNodesOk(sources: seq<Source>, start: nat, back: nat) {
    forall s | s in sources :: NodeOk(s, start, back)
  }

  lemma AllNodesOkIff(sources: seq<Source>, start: nat, back: nat)
    ensures var views := Views(sources, start, back);
            AllNodesOk(sources, start, back) <==>
              && (forall v | v in views :: v.Walked? && v.ok)
              && forall h | h in AllHops(views) :: Proved(h.verify)
  {
    var views := Views(sources, start, back);
    forall s | s in sources
      ensures ViewFrom(s, start, back) in views
    {
      var i :| 0 <= i < |sources| && sources[i] == s;
      assert views[i] == ViewFrom(s, start, back);
    }
    forall s | s in sources {
      NodeOkIff(s, start, back);
    }
    forall h {
      AllHopsHolds(views, h);
    }
    if AllNodesOk(sources, start, back) {
      forall v | v in views
        ensures v.Walked? && v.ok && forall h | h in HopsIn(v) :: Proved(h.verify)
      {
        var i :| 0 <= i < |views| && views[i] == v;
        assert sources[i] in sources;
      }
    }
  }

  ghost predicate InSomeChain(sources: seq<Source>, start: nat, back: nat, x: Header) {
    exists s | s in sources :: s.Readable? && start in s.node.rows && x in Chain(s, start, back)
  }

  /** Wherever nodes were walked at one number they hold the same header. */
  ghost predicate Agree(sources: seq<Source>, start: nat, back: nat) {
    forall x, y | InSomeChain(sources, start, back, x) && InSomeChain(sources, start, back, y) ::
      x.number == y.number ==> x == y
  }

  ghost predicate HopHeader(hops: seq<Hop>, x: Header) {
    exists h | h in hops :: h.step.row.header == x
  }

  /** The hops of all nodes are the headers of their chains. */
  lemma HopIffInChain(sources: seq<Source>, start: nat, back: nat, x: Header)
    ensures HopHeader(AllHops(Views(sources, start, back)), x) <==> InSomeChain(sources, start, back, x)
  {
    if h :| h in AllHops(Views(sources, start, back)) && h.step.row.header == x {
      var s := HopSource(sources, start, back, h);
      HopInChain(s, start, back, h);
    }
    if s :| s in sources && s.Readable? && start in s.node.rows && x in Chain(s, start, back) {
      var h := ChainHop(sources, start, back, s, x);
    }
  }

  lemma HopSource(sources: seq<Source>, start: nat, back: nat, h: Hop) returns (s: Source)
    requires h in AllHops(Views(sources, start, back))
    ensures s in sources && h in HopsIn(ViewFrom(s, start, back))
  {
    var views := Views(sources, start, back);
    AllHopsHolds(views, h);
    var v :| v in views && h in HopsIn(v);
    var i :| 0 <= i < |views| && views[i] == v;
    s := sources[i];
  }

  lemma HopInChain(s: Source, start: nat, back: nat, h: Hop)
    requires s.Readable? && start in s.node.rows && h in HopsIn(ViewFrom(s, start, back))
    ensures h.step.row.header in Chain(s, start, back)
  {
    var steps := Walk(s.node, s.node.rows[start], back);
    var hops := HopsOf(s.node, steps);
    var i :| 0 <= i < |hops| && hops[i] == h;
    assert HeadersOf(steps)[i] == h.step.row.header;
  }

  lemma ChainHop(sources: seq<Source>, start: nat, back: nat, s: Source, x: Header) returns (h: Hop)
    requires s in sources && s.Readable? && start in s.node.rows && x in Chain(s, start, back)
    ensures h in AllHops(Views(sources, start, back)) && h.step.row.header == x
  {
    var views := Views(sources, start, back);
    var i :| 0 <= i < |sources| && sources[i] == s;
    var v := views[i];
    assert v == ViewFrom(s, start, back) && v in views;
    var k :| 0 <= k < |Chain(s, start, back)| && Chain(s, start, back)[k] == x;
    h := v.hops[k];
    assert h in HopsIn(v);
    AllHopsHolds(views, h);
  }

  lemma DivergesIffHeadersDiffer(hops: seq<Hop>)
    ensures Diverges(hops) <==> exists x, y | HopHeader(hops, x) && HopHeader(hops, y) :: x.number == y.number && x != y
  {
    if a, b :| a in hops && b in hops && Conflict(a, b) {
      assert HopHeader(hops, a.step.row.header) && HopHeader(hops, b.step.row.header);
    }
    if x, y :| HopHeader(hops, x) && HopHeader(hops, y) && x.number == y.number && x != y {
      var a :| a in hops && a.step.row.header == x;
      var b :| b in hops && b.step.row.header == y;
      assert Conflict(a, b);
    }
  }

  lemma DivergesIffDisagree(sources: seq<Source>, start: nat, back: nat)
    ensures Diverges(AllHops(Views(sources, start, back))) <==> !Agree(sources, start, back)
  {
    var hops := AllHops(Views(sources, start, back));
    DivergesIffHeadersDiffer(hops);
    forall x: Header
      ensures HopHeader(hops, x) <==> InSomeChain(sources, start, back, x)
    {
      HopIffInChain(sources, start, back, x);
    }
  }

  /** The verdict is good exactly when there are nodes, each is readable with headers hash-linked and
      indexed from the row at the start and visited certificates that all verify, and no two headers
      visited at one number differ. */
  lemma VerdictIsExact(sources: seq<Source>, start: nat, back: nat)
    ensures ReportCode(Views(sources, start, back)) == OK
       <==> sources != [] && AllNodesOk(sources, start, back) && Agree(sources, start, back)
  {
    ReportOkIff(Views(sources, start, back));
    AllNodesOkIff(sources, start, back);
    DivergesIffDisagree(sources, start, back);
  }

  lemma OneChain(s: Source, t: Source, start: nat, back: nat)
    requires NodeOk(s, start, back) && NodeOk(t, start, back)
    requires StartHeader(s, start) == StartHeader(t, start)
    ensures Chain(s, start, back) == Chain(t, start, back)
  {
    IntactIffChained(s.node, s.node.rows[start], back);
    IntactIffChained(t.node, t.node.rows[start], back);
    SameStartSameChain(s.node, s.node.rows[start], t.node, t.node.rows[start], back);
  }

  lemma StartInChain(s: Source, start: nat, back: nat)
    requires s.Readable? && start in s.node.rows
    ensures Chain(s, start, back) != [] && Chain(s, start, back)[0] == StartHeader(s, start)
  {
    WalkReads(s.node, s.node.rows[start], back);
  }

  /** Under a good verdict two nodes hold the same chain over the whole range exactly when their start
      rows carry the same number. */
  lemma GoodVerdictOneChain(sources: seq<Source>, start: nat, back: nat, s: Source, t: Source)
    requires ReportCode(Views(sources, start, back)) == OK && s in sources && t in sources
    ensures NodeOk(s, start, back) && NodeOk(t, start, back)
    ensures Chain(s, start, back) == Chain(t, start, back) <==> StartHeader(s, start).number == StartHeader(t, start).number
  {
    VerdictIsExact(sources, start, back);
    StartInChain(s, start, back);
    StartInChain(t, start, back);
    assert InSomeChain(sources, start, back, StartHeader(s, start)) && InSomeChain(sources, start, back, StartHeader(t, start));
    if StartHeader(s, start).number == StartHeader(t, start).number {
      OneChain(s, t, start, back);
    }
  }

  // ----- What the other verdicts mean -----

  /** The node has not got to the start: it has no row there, and its tip is below. */
  ghost predicate Behind(s: Source, start: nat) {
    s.Readable? && start !in s.node.rows && (s.node.tip.None? || s.node.tip.value < start)
  }

  ghost predicate Lacks(s: Source, start: nat) {
    s.Readable? && start !in s.node.rows && s.node.tip.Some? && start <= s.node.tip.value
  }

  /** The node has the start, and its headers are not linked from there. */
  ghost predicate Unlinked(s: Source, start: nat, back: nat) {
    s.Readable? && start in s.node.rows && !Chained(s.node, s.node.rows[start], back)
  }

  /** A walk of one of the nodes visits a row that its epoch's committee did not sign. */
  ghost predicate SomeNotSigned(sources: seq<Source>, start: nat, back: nat) {
    exists s, r | s in sources && VisitsRow(s, start, back, r) :: NotSigned(s.node, r)
  }

  ghost predicate SomeUnknown(sources: seq<Source>, start: nat, back: nat) {
    exists s, r | s in sources && VisitsRow(s, start, back, r) :: CommitteeUnknown(s.node, r)
  }

  ghost predicate VisitsRow(s: Source, start: nat, back: nat, r: Row) {
    s.Readable? && start in s.node.rows && r in VisitedRows(s.node, s.node.rows[start], back)
  }

  lemma VisitedHop(sources: seq<Source>, start: nat, back: nat, s: Source, r: Row) returns (h: Hop)
    requires s in sources && VisitsRow(s, start, back, r)
    ensures h in AllHops(Views(sources, start, back)) && h.verify == CheckHeader(s.node, r)
  {
    var views := Views(sources, start, back);
    var i :| 0 <= i < |sources| && sources[i] == s;
    var v := views[i];
    assert v == ViewFrom(s, start, back) && v in views;
    var rows := VisitedRows(s.node, s.node.rows[start], back);
    var k :| 0 <= k < |rows| && rows[k] == r;
    h := v.hops[k];
    assert h in HopsIn(v);
    AllHopsHolds(views, h);
  }

  lemma HopVisits(sources: seq<Source>, start: nat, back: nat, h: Hop) returns (s: Source)
    requires h in AllHops(Views(sources, start, back))
    ensures s in sources && VisitsRow(s, start, back, h.step.row) && h.verify == CheckHeader(s.node, h.step.row)
  {
    s := HopSource(sources, start, back, h);
    var steps := Walk(s.node, s.node.rows[start], back);
    var i :| 0 <= i < |steps| && HopsOf(s.node, steps)[i] == h;
    assert RowsOf(steps)[i] == h.step.row;
  }

  lemma ChecksMean(sources: seq<Source>, start: nat, back: nat)
    ensures var hops := AllHops(Views(sources, start, back));
            && (SomeCheck(hops, Failed) <==> SomeNotSigned(sources, start, back))
            && (SomeCheck(hops, NoKeys) <==> SomeUnknown(sources, start, back))
  {
    var hops := AllHops(Views(sources, start, back));
    forall h | h in hops
      ensures h.verify == Failed ==> SomeNotSigned(sources, start, back)
      ensures h.verify == NoKeys ==> SomeUnknown(sources, start, back)
    {
      var s := HopVisits(sources, start, back, h);
      CheckMeans(s.node, h.step.row);
    }
    forall s, r | s in sources && VisitsRow(s, start, back, r)
      ensures NotSigned(s.node, r) ==> SomeCheck(hops, Failed)
      ensures CommitteeUnknown(s.node, r) ==> SomeCheck(hops, NoKeys)
    {
      var h := VisitedHop(sources, start, back, s, r);
      CheckMeans(s.node, r);
    }
  }

  /** The code before signatures are looked at, one condition a code. */
  lemma ChainCodes(views: seq<View>, divergent: bool)
    ensures var code := ChainCode(views, divergent);
            && (code == DIVERGENT <==> divergent)
            && (code == NOT_REACHED <==> !divergent && forall v | v in views :: v.NotReached?)
            && (code == MISSING <==> !divergent && views != [] && forall v | v in views :: v.StartMissing?)
            && (code == BROKEN <==> !divergent && exists v | v in views :: v.Unreadable? || (v.Walked? && !v.ok))
  {
    CountBounds(views, (v: View) => OutcomeOf(v).startNotReached);
    CountBounds(views, (v: View) => OutcomeOf(v).startMissing);
    CountBounds(views, (v: View) => IsBroken(OutcomeOf(v)));
    if views != [] {
      assert views[0] in views;
    }
  }

  lemma ViewMeans(s: Source, start: nat, back: nat)
    ensures var v := ViewFrom(s, start, back);
            && (v.NotReached? <==> Behind(s, start))
            && (v.StartMissing? <==> Lacks(s, start))
            && (v.Unreadable? <==> s == Broken)
            && (v.Walked? && !v.ok <==> Unlinked(s, start, back))
            && (!v.Walked? ==> HopsIn(v) == [])
  {
    if s.Readable? && start in s.node.rows {
      IntactIffChained(s.node, s.node.rows[start], back);
    }
  }

  lemma ViewsMean(sources: seq<Source>, start: nat, back: nat)
    ensures var views := Views(sources, start, back);
            && ((forall v | v in views :: v.NotReached?) <==> forall s | s in sources :: Behind(s, start))
            && ((forall v | v in views :: v.StartMissing?) <==> forall s | s in sources :: Lacks(s, start))
            && ((exists v | v in views :: v.Unreadable?) <==> Broken in sources)
            && ((exists v | v in views :: v.Walked? && !v.ok) <==> exists s | s in sources :: Unlinked(s, start, back))
  {
    var views := Views(sources, start, back);
    forall i | 0 <= i < |sources|
      ensures sources[i] in sources && views[i] in views && views[i] == ViewFrom(sources[i], start, back)
    {
    }
    forall s | s in sources {
      ViewMeans(s, start, back);
    }
    forall s | s in sources
      ensures ViewFrom(s, start, back) in views
    {
      var i :| 0 <= i < |sources| && sources[i] == s;
      assert views[i] in views;
    }
    forall v | v in views
      ensures exists s | s in sources :: ViewFrom(s, start, back) == v
    {
      var i :| 0 <= i < |views| && views[i] == v;
      assert sources[i] in sources;
    }
  }

  /** Which verdict is given, for every set of nodes. Bad signatures and unreadable nodes come before
      divergence, divergence before everything else, and a node that is merely behind breaks nothing. */
  lemma CodesAreExact(sources: seq<Source>, start: nat, back: nat)
    ensures var code := ReportCode(Views(sources, start, back));
            var spoiled := SomeNotSigned(sources, start, back) || Broken in sources;
            && (code == BROKEN <==>
                  spoiled || (Agree(sources, start, back) && exists s | s in sources :: Unlinked(s, start, back)))
            && (code == DIVERGENT <==> !spoiled && !Agree(sources, start, back))
            && (code == NOT_REACHED <==> forall s | s in sources :: Behind(s, start))
            && (code == MISSING <==> sources != [] && forall s | s in sources :: Lacks(s, start))
  {
    var views := Views(sources, start, back);
    var hops := AllHops(views);
    CountBounds(views, (v: View) => v.Unreadable?);
    ChainCodes(views, Diverges(hops));
    DivergesIffDisagree(sources, start, back);
    ChecksMean(sources, start, back);
    ViewsMean(sources, start, back);
    NothingVisited(sources, start, back);
  }

  /** Nodes without the start have nothing to disagree on or to check. */
  lemma NothingVisited(sources: seq<Source>, start: nat, back: nat)
    ensures (forall s | s in sources :: Behind(s, start)) || (forall s | s in sources :: Lacks(s, start)) ==>
              !SomeNotSigned(sources, start, back) && Agree(sources, start, back) && Broken !in sources
  {
  }

  /** The remaining verdict: some node is behind or lacks the start, but not all of them are or do, or
      some committee is not known. */
  lemma PartialIsExact(sources: seq<Source>, start: nat, back: nat)
    ensures ReportCode(Views(sources, start, back)) == PARTIAL <==>
            && !SomeNotSigned(sources, start, back) && Broken !in sources && Agree(sources, start, back)
            && (forall s | s in sources :: !Unlinked(s, start, back))
            && (exists s | s in sources :: !Behind(s, start)) && (exists s | s in sources :: !Lacks(s, start))
            && (SomeUnknown(sources, start, back) || exists s | s in sources :: Behind(s, start) || Lacks(s, start))
  {
    CodesAreExact(sources, start, back);
    OkMeans(sources, start, back);
  }

  lemma OkMeans(sources: seq<Source>, start: nat, back: nat)
    ensures ReportCode(Views(sources, start, back)) == OK <==>
            && sources != [] && Agree(sources, start, back) && Broken !in sources
            && !SomeNotSigned(sources, start, back) && !SomeUnknown(sources, start, back)
            && forall s | s in sources :: LinkedFrom(s, start, back)
  {
    var views := Views(sources, start, back);
    CountBounds(views, (v: View) => v.Unreadable?);
    ChainOkIff(views, Diverges(AllHops(views)));
    DivergesIffDisagree(sources, start, back);
    ChecksMean(sources, start, back);
    ViewsGood(sources, start, back);
  }

  ghost predicate LinkedFrom(s: Source, start: nat, back: nat) {
    s != Broken && !Unlinked(s, start, back) && !Behind(s, start) && !Lacks(s, start)
  }

  lemma ViewsGood(sources: seq<Source>, start: nat, back: nat)
    ensures (forall v | v in Views(sources, start, back) :: v.Walked? && v.ok) <==> forall s | s in sources :: LinkedFrom(s, start, back)
  {
    var views := Views(sources, start, back);
    forall s | s in sources
      ensures ViewFrom(s, start, back) in views
      ensures var v := ViewFrom(s, start, back); v.Walked? && v.ok <==> LinkedFrom(s, start, back)
    {
      var i :| 0 <= i < |sources| && sources[i] == s;
      assert views[i] in views;
      ViewMeans(s, start, back);
    }
    forall v | v in views
      ensures exists s | s in sources :: ViewFrom(s, start, back) == v
    {
      var i :| 0 <= i < |views| && views[i] == v;
      assert sources[i] in sources;
    }
  }

  // ----- Rows filed under their numbers -----

  ghost predicate AllFiled(sources: seq<Source>, start: nat, back: nat) {
    forall s | s in sources :: s.Readable? && Filed(s.node, start, back)
  }

  ghost predicate OneStart(sources: seq<Source>, start: nat)
    requires forall s | s in sources :: s.Readable? && start in s.node.rows
  {
    forall s, t | s in sources && t in sources :: StartHeader(s, start) == StartHeader(t, start)
  }

  predicate InPlace(chain: seq<Header>, start: nat, x: Header) {
    x.number <= start && start - x.number < |chain| && chain[start - x.number] == x
  }

  lemma OnePerPlace(chain: seq<Header>, start: nat, x: Header, y: Header)
    requires InPlace(chain, start, x) && InPlace(chain, start, y) && x.number == y.number
    ensures x == y
  {
  }

  /** In a filed chain a header's place is given by its number. */
  lemma PlaceInChain(s: Source, start: nat, back: nat, x: Header)
    requires s.Readable? && Filed(s.node, start, back) && x in Chain(s, start, back)
    ensures InPlace(Chain(s, start, back), start, x)
  {
    var steps := Walk(s.node, s.node.rows[start], back);
    HopsDescendIff(s.node, start, back);
    var i :| 0 <= i < |HeadersOf(steps)| && HeadersOf(steps)[i] == x;
    assert NumberedAt(steps, start, i);
  }

  lemma AgreeAtStart(sources: seq<Source>, start: nat, back: nat, s: Source, t: Source)
    requires AllFiled(sources, start, back) && Agree(sources, start, back) && s in sources && t in sources
    ensures StartHeader(s, start) == StartHeader(t, start)
  {
    StartInChain(s, start, back);
    StartInChain(t, start, back);
    assert InSomeChain(sources, start, back, StartHeader(s, start)) && InSomeChain(sources, start, back, StartHeader(t, start));
  }

  lemma SamePlaceSameHeader(s: Source, t: Source, start: nat, back: nat, x: Header, y: Header)
    requires NodeOk(s, start, back) && NodeOk(t, start, back) && StartHeader(s, start) == StartHeader(t, start)
    requires Filed(s.node, start, back) && Filed(t.node, start, back)
    requires x in Chain(s, start, back) && y in Chain(t, start, back) && x.number == y.number
    ensures x == y
  {
    OneChain(s, t, start, back);
    PlaceInChain(s, start, back, x);
    PlaceInChain(t, start, back, y);
    OnePerPlace(Chain(s, start, back), start, x, y);
  }

  lemma FiledAgreeIff(sources: seq<Source>, start: nat, back: nat)
    requires AllNodesOk(sources, start, back) && AllFiled(sources, start, back)
    ensures Agree(sources, start, back) <==> OneStart(sources, start)
  {
    if Agree(sources, start, back) {
      forall s, t | s in sources && t in sources
        ensures StartHeader(s, start) == StartHeader(t, start)
      {
        AgreeAtStart(sources, start, back, s, t);
      }
    }
    if OneStart(sources, start) {
      forall x, y | InSomeChain(sources, start, back, x) && InSomeChain(sources, start, back, y) && x.number == y.number
        ensures x == y
      {
        var s :| s in sources && s.Readable? && start in s.node.rows && x in Chain(s, start, back);
        var t :| t in sources && t.Readable? && start in t.node.rows && y in Chain(t, start, back);
        SamePlaceSameHeader(s, t, start, back, x, y);
      }
    }
  }

  /** When every visited row is filed under its number, the verdict is good exactly when there are
      nodes, each is good, and all hold the same header at the start. */
  lemma FiledVerdictIsExact(sources: seq<Source>, start: nat, back: nat)
    requires AllFiled(sources, start, back)
    ensures ReportCode(Views(sources, start, back)) == OK
       <==> sources != [] && AllNodesOk(sources, start, back) && OneStart(sources, start)
  {
    VerdictIsExact(sources, start, back);
    if AllNodesOk(sources, start, back) {
      FiledAgreeIff(sources, start, back);
    }
  }

  /** The key a row is filed under is never compared with its number: a header that starts a chain,
      filed under any other number, is reported good over every range. */
  lemma MisfiledRowIsOk(key: nat, content: nat, back: nat)
    requires key != 1
    ensures var h := Header(1, GENESIS_DIGEST, SubDag(0, 0, content));
            var node := Node(map[key := Row(h, true, {})], map[], map[], Some(key));
            ReportCode(Views([Readable(node)], key, back)) == OK && !Filed(node, key, back)
  {
    var h := Header(1, GENESIS_DIGEST, SubDag(0, 0, content));
    var row := Row(h, true, {});
    var node := Node(map[key := row], map[], map[], Some(key));
    OneRowIsOk(node, key, row, back);
  }

  lemma OneRowIsOk(node: Node, key: nat, row: Row, back: nat)
    requires node.rows == map[key := row] && row.genesis && StartsChain(row.header)
    ensures NodeOk(Readable(node), key, back) && ReportCode(Views([Readable(node)], key, back)) == OK
  {
    var sources := [Readable(node)];
    assert ChainOf(node, row, back, [row]) && AllSigned(node, [row]);
    WalkUnfolds(node, row, back);
    assert Walk(node, row, back) == [Step(row, Root)];
    assert HeadersOf(Walk(node, row, back)) == [row.header];
    VerdictIsExact(sources, key, back);
  }
}
