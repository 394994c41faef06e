/** The replay pipeline: plan windows read ahead, grouped by consensus output, flushed group by
    group, stopped at safe points and resumed. */
module Replay {
  import opened Tables

  /** A hash, read as a number. */
  type Digest = nat
  type Batch = nat
  type Store = map<Digest, Batch>

  /** What replay reads of a snapshot header; a block's number is its place in the chain. */
  datatype Header = Header(beaconRoot: Option<Digest>, mixHash: Digest, extraData: seq<bv8>)

  datatype PlanBlock = PlanBlock(number: nat, outputDigest: Digest, batchDigest: Digest,
                                 batch: Option<Batch>, closeEpoch: Option<seq<bv8>>)

  const ZERO: Digest := 0

  // ----- Plans -----

  /** Bitwise exclusive or. */
  function Xor(a: Digest, b: Digest): Digest
    decreases a + b
  {
    if a == 0 && b == 0 then 0 else (a + b) % 2 + 2 * Xor(a / 2, b / 2)
  }

  lemma LowBit(bit: nat, rest: nat)
    requires bit < 2
    ensures (bit + 2 * rest) % 2 == bit && (bit + 2 * rest) / 2 == rest
  {
  }

  lemma {:induction false} XorStep(a: Digest, b: Digest)
    ensures Xor(a, b) % 2 == (a + b) % 2 && Xor(a, b) / 2 == Xor(a / 2, b / 2)
  {
    LowBit((a + b) % 2, Xor(a / 2, b / 2));
  }

  lemma ParityUndoes(a: nat, b: nat, x: nat)
    requires x % 2 == (a + b) % 2
    ensures (x + a) % 2 == b % 2
  {
    var k := (a + b) / 2 - x / 2;
    assert x + a == b + 2 * (a - k);
  }

  lemma {:induction false} XorUndoes(a: Digest, b: Digest)
    ensures Xor(Xor(a, b), a) == b
    decreases a + b
  {
    if a != 0 || b != 0 {
      XorUndoes(a / 2, b / 2);
      XorStep(a, b);
      XorStep(Xor(a, b), a);
      ParityUndoes(a, b, Xor(a, b));
    }
  }

  function OutputDigest(h: Header): Digest {
    if h.beaconRoot.Some? then h.beaconRoot.value else ZERO
  }

  function BatchDigest(h: Header): Digest {
    Xor(h.mixHash, OutputDigest(h))
  }

  /** A block that executes a batch. */
  predicate HasBatch(h: Header) {
    BatchDigest(h) != ZERO
  }

  function CloseEpoch(h: Header): Option<seq<bv8>> {
    if |h.extraData| == 32 then Some(h.extraData) else None
  }

  /** The header live execution writes for a batch of an output. */
  function Executed(output: Digest, batch: Digest, close: Option<seq<bv8>>): Header {
    Header(Some(output), Xor(output, batch), if close.Some? then close.value else [])
  }

  /** A header carries its output digest, its batch digest and its close-epoch digest. */
  lemma HeaderRoundTrips(output: Digest, batch: Digest, close: Option<seq<bv8>>)
    requires close.Some? ==> |close.value| == 32
    ensures var h := Executed(output, batch, close);
            OutputDigest(h) == output && BatchDigest(h) == batch && CloseEpoch(h) == close
  {
    XorUndoes(output, batch);
  }

  function Resolve(store: Store, h: Header): Option<Batch> {
    if HasBatch(h) && BatchDigest(h) in store then Some(store[BatchDigest(h)]) else None
  }

  function Plan(store: Store, h: Header, number: nat): PlanBlock {
    PlanBlock(number, OutputDigest(h), BatchDigest(h), Resolve(store, h), CloseEpoch(h))
  }

  /** Replay plans for a block what live execution put into it: number, output, batch digest and close-epoch
      digest, and the batch the store has for it, unless the block has none. */
  lemma PlanRoundTrips(store: Store, output: Digest, batch: Digest, close: Option<seq<bv8>>, number: nat)
    requires close.Some? ==> |close.value| == 32
    ensures Plan(store, Executed(output, batch, close), number)
         == PlanBlock(number, output, batch, if batch != ZERO && batch in store then Some(store[batch]) else None, close)
  {
    HeaderRoundTrips(output, batch, close);
  }

  predicate AllFound(store: Store, hs: seq<Header>) {
    forall h | h in hs :: !Missing(store, h)
  }

  /** A content block whose batch is not in the store. */
  predicate Missing(store: Store, h: Header) {
    HasBatch(h) && BatchDigest(h) !in store
  }

  /** The snapshot's headers from `start` up to, not including, `end`, as far as its chain reaches. */
  function Range(chain: seq<Header>, start: nat, end: nat): seq<Header> {
    var stop := if end <= |chain| then end else |chain|;
    if start < stop then chain[start..stop] else []
  }

  function PlansOf(store: Store, hs: seq<Header>, start: nat): (ps: seq<PlanBlock>)
    ensures |ps| == |hs|
    ensures forall i | 0 <= i < |ps| :: ps[i] == Plan(store, hs[i], start + i)
  {
    seq(|hs|, i requires 0 <= i < |hs| => Plan(store, hs[i], start + i))
  }

  /** The plans of all the snapshot's blocks. */
  function Snapshot(chain: seq<Header>, store: Store): seq<PlanBlock> {
    PlansOf(store, chain, 0)
  }

  /** The blocks from `start` up to, not including, `end`, as far as there are any. */
  function Blocks(all: seq<PlanBlock>, start: nat, end: nat): seq<PlanBlock> {
    var stop := if end <= |all| then end else |all|;
    if start < stop then all[start..stop] else []
  }

  /** A block whose batch could not be found. */
  predicate Unresolved(p: PlanBlock) {
    p.batchDigest != ZERO && p.batch.None?
  }

  predicate AllResolved(plans: seq<PlanBlock>) {
    forall p | p in plans :: !Unresolved(p)
  }

  lemma RangeIsBlocks(chain: seq<Header>, store: Store, start: nat, end: nat)
    ensures PlansOf(store, Range(chain, start, end), start) == Blocks(Snapshot(chain, store), start, end)
  {
    var hs, all := Range(chain, start, end), Snapshot(chain, store);
    forall i | 0 <= i < |hs|
      ensures PlansOf(store, hs, start)[i] == Blocks(all, start, end)[i]
    {
      assert hs[i] == chain[start + i] && Blocks(all, start, end)[i] == all[start + i];
    }
  }

  lemma ResolvedIffFound(store: Store, hs: seq<Header>, start: nat)
    ensures AllResolved(PlansOf(store, hs, start)) <==> AllFound(store, hs)
  {
    var ps := PlansOf(store, hs, start);
    assert forall i | 0 <= i < |hs| :: Unresolved(ps[i]) <==> Missing(store, hs[i]);
    if h :| h in hs && Missing(store, h) {
      var i :| 0 <= i < |hs| && hs[i] == h;
      assert ps[i] in ps;
    }
  }

  lemma PlansJoin(store: Store, a: seq<Header>, b: seq<Header>, start: nat)
    ensures PlansOf(store, a + b, start) == PlansOf(store, a, start) + PlansOf(store, b, start + |a|)
  {
    var whole, parts := PlansOf(store, a + b, start), PlansOf(store, a, start) + PlansOf(store, b, start + |a|);
    assert |whole| == |parts|;
    forall i | 0 <= i < |whole|
      ensures whole[i] == parts[i]
    {
      if i >= |a| {
        var j := i - |a|;
        assert (a + b)[i] == b[j] && start + i == start + |a| + j;
      }
    }
  }

  /** The block is the first of them whose batch, of that digest, is missing. */
  predicate FirstMissing(plans: seq<PlanBlock>, block: nat, digest: Digest) {
    exists i | 0 <= i < |plans| :: FirstMissingAt(plans, i, block, digest)
  }

  predicate FirstMissingAt(plans: seq<PlanBlock>, i: nat, block: nat, digest: Digest)
    requires i < |plans|
  {
    && plans[i].number == block && plans[i].batchDigest == digest
    && Unresolved(plans[i]) && AllResolved(plans[..i])
  }

  datatype Window = Planned(plans: seq<PlanBlock>) | MissingBatch(block: nat, digest: Digest)

  // ----- Deriving one window -----

  function KeyOf(h: Header): seq<Digest> {
    if HasBatch(h) then [BatchDigest(h)] else []
  }

  function ContentKeys(hs: seq<Header>): seq<Digest> {
    if hs == [] then []
    else ContentKeys(hs[..|hs| - 1]) + KeyOf(hs[|hs| - 1])
  }

  function MultiGet(store: Store, keys: seq<Digest>): (r: seq<Option<Batch>>)
    ensures |r| == |keys|
    ensures forall i | 0 <= i < |r| :: r[i] == if keys[i] in store then Some(store[keys[i]]) else None
  {
    seq(|keys|, i requires 0 <= i < |keys| => if keys[i] in store then Some(store[keys[i]]) else None)
  }

  lemma {:induction false} ContentKeysSplit(hs: seq<Header>, i: nat)
    requires i <= |hs|
    ensures ContentKeys(hs[..i]) <= ContentKeys(hs)
  {
    if i < |hs| {
      ContentKeysSplit(hs[..|hs| - 1], i);
      assert hs[..|hs| - 1][..i] == hs[..i];
    } else {
      assert hs[..i] == hs;
    }
  }

  lemma NextKey(hs: seq<Header>, i: nat)
    requires i < |hs|
    ensures ContentKeys(hs[..i + 1]) == ContentKeys(hs[..i]) + KeyOf(hs[i])
    ensures HasBatch(hs[i]) ==>
              var j := |ContentKeys(hs[..i])|;
              j < |ContentKeys(hs)| && ContentKeys(hs)[j] == BatchDigest(hs[i])
  {
    assert hs[..i + 1][..i] == hs[..i];
    ContentKeysSplit(hs, i + 1);
  }

  /** The first `i` headers are resolved, from as many of the fetched batches as they have. */
  ghost predicate ResolvedUpTo(store: Store, hs: seq<Header>, start: nat, i: nat, next: nat, plans: seq<PlanBlock>) {
    && i <= |hs|
    && next == |ContentKeys(hs[..i])|
    && plans == PlansOf(store, hs[..i], start)
    && AllFound(store, hs[..i])
  }

  /** The next header's batch, if it has one, is the next one fetched. */
  lemma NextFetched(store: Store, hs: seq<Header>, i: nat)
    requires i < |hs| && HasBatch(hs[i])
    ensures var fetched, next := MultiGet(store, ContentKeys(hs)), |ContentKeys(hs[..i])|;
            && next < |fetched|
            && fetched[next] == Resolve(store, hs[i])
            && (fetched[next].None? <==> Missing(store, hs[i]))
  {
    NextKey(hs, i);
  }

  lemma ResolvedGrows(store: Store, hs: seq<Header>, start: nat, i: nat, next: nat, plans: seq<PlanBlock>)
    requires i < |hs| && ResolvedUpTo(store, hs, start, i, next, plans) && !Missing(store, hs[i])
    ensures ResolvedUpTo(store, hs, start, i + 1, next + |KeyOf(hs[i])|, plans + [Plan(store, hs[i], start + i)])
  {
    NextKey(hs, i);
    PlansGrow(store, hs, start, i);
    FoundGrows(store, hs, i);
  }

  lemma FoundGrows(store: Store, hs: seq<Header>, i: nat)
    requires i < |hs| && AllFound(store, hs[..i]) && !Missing(store, hs[i])
    ensures AllFound(store, hs[..i + 1])
  {
    assert hs[..i + 1] == hs[..i] + [hs[i]];
  }

  lemma PlansGrow(store: Store, hs: seq<Header>, start: nat, i: nat)
    requires i < |hs|
    ensures PlansOf(store, hs[..i + 1], start) == PlansOf(store, hs[..i], start) + [Plan(store, hs[i], start + i)]
  {
    assert hs[..i + 1] == hs[..i] + [hs[i]];
    PlansJoin(store, hs[..i], [hs[i]], start);
    assert PlansOf(store, [hs[i]], start + i) == [Plan(store, hs[i], start + i)];
  }

  /** Plans the i-th header, unless its batch is missing. */
  method ResolveHeader(store: Store, hs: seq<Header>, start: nat, i: nat, next: nat, plans: seq<PlanBlock>,
                       resolved: seq<Option<Batch>>)
    returns (missing: bool, next': nat, plans': seq<PlanBlock>)
    requires i < |hs| && resolved == MultiGet(store, ContentKeys(hs))
    requires ResolvedUpTo(store, hs, start, i, next, plans)
    ensures missing == Missing(store, hs[i])
    ensures missing ==> next' == next && plans' == plans
    ensures !missing ==> ResolvedUpTo(store, hs, start, i + 1, next', plans')
  {
    var h := hs[i];
    if !HasBatch(h) {
      ResolvedGrows(store, hs, start, i, next, plans);
      return false, next, plans + [PlanBlock(start + i, OutputDigest(h), BatchDigest(h), None, CloseEpoch(h))];
    }
    NextFetched(store, hs, i);
    var batch := resolved[next];
    if batch.None? {
      return true, next, plans;
    }
    ResolvedGrows(store, hs, start, i, next, plans);
    return false, next + 1, plans + [PlanBlock(start + i, OutputDigest(h), BatchDigest(h), batch, CloseEpoch(h))];
  }

  /** Gives each header the batch its digest names, taking the fetched batches in turn. */
  method ResolveHeaders(store: Store, hs: seq<Header>, start: nat) returns (w: Window)
    ensures w.Planned? <==> AllFound(store, hs)
    ensures w.Planned? ==> w.plans == PlansOf(store, hs, start)
    ensures w.MissingBatch? ==> FirstMissing(PlansOf(store, hs, start), w.block, w.digest)
  {
    var resolved := MultiGet(store, ContentKeys(hs));
    var plans, next, i := [], 0, 0;
    var missing := false;
    while i < |hs| && !missing
      invariant ResolvedUpTo(store, hs, start, i, next, plans)
      invariant missing ==> i < |hs| && Missing(store, hs[i])
      decreases |hs| - i, !missing
    {
      missing, next, plans := ResolveHeader(store, hs, start, i, next, plans, resolved);
      if !missing {
        i := i + 1;
      }
    }
    if missing {
      MissingAt(store, hs, start, i);
      return MissingBatch(start + i, BatchDigest(hs[i]));
    }
    assert hs[..i] == hs;
    return Planned(plans);
  }

  lemma MissingAt(store: Store, hs: seq<Header>, start: nat, i: nat)
    requires i < |hs| && Missing(store, hs[i]) && AllFound(store, hs[..i])
    ensures !AllFound(store, hs)
    ensures FirstMissing(PlansOf(store, hs, start), start + i, BatchDigest(hs[i]))
  {
    ResolvedIffFound(store, hs[..i], start);
    var ps := PlansOf(store, hs, start);
    assert ps[..i] == PlansOf(store, hs[..i], start);
    assert FirstMissingAt(ps, i, start + i, BatchDigest(hs[i]));
  }

  /** Resolves `start..=end` in one read: every content block gets the batch its own digest names,
      or the first block without one is reported. */
  method DerivePlanWindow(chain: seq<Header>, store: Store, start: nat, end: nat) returns (w: Window)
    ensures var plans := Blocks(Snapshot(chain, store), start, end + 1);
            && (w.Planned? ==> w.plans == plans)
            && (w.Planned? <==> AllResolved(plans))
            && (w.MissingBatch? ==> FirstMissing(plans, w.block, w.digest))
  {
    var hs := Range(chain, start, end + 1);
    RangeIsBlocks(chain, store, start, end + 1);
    ResolvedIffFound(store, hs, start);
    w := ResolveHeaders(store, hs, start);
  }
}
