/** Exactly when coverage holds: lost writes, shutdowns and commits, and how a walk heals. */
module WalkLimits {
  import opened ConsensusChain
  import opened Tables
  import opened BackwardsWalk
  import opened WalkCoverage

  // ----- What a walk fetched and stored -----

  /** What a walk fetches, in order. */
  function Fetches(db: Db, tip: Header, covered: Option<Digest>, d: Digest, env: Env): seq<Fetched>
    decreases d
  {
    if env.shutdown(d) || covered == Some(d) || d == GENESIS_DIGEST then []
    else
      var step := GetConsensusHeader(db, tip, d, env.replies(d));
      if step.next.None? then []
      else
        (if GetConsensus(db, d).Some? then [] else [FetchFrom(d, env.replies(d), 0).value])
        + Fetches(After(db, tip, d, env), step.tip, covered, step.next.value, env)
  }

  /** The executor commits nothing while the walk awaits. */
  ghost predicate Quiet(env: Env) {
    forall d :: env.commits(d) == []
  }

  lemma {:induction false} QuietIsGentle(db: Db, tip: Header, covered: Option<Digest>, d: Digest, env: Env, start: Digest)
    requires Quiet(env)
    ensures Gentle(db, tip, covered, d, env, start)
    decreases d
  {
    var step := GetConsensusHeader(db, tip, d, env.replies(d));
    if step.next.Some? {
      QuietIsGentle(After(db, tip, d, env), step.tip, covered, step.next.value, env, start);
    }
  }

  /** A header was fetched and its cache write succeeded. */
  predicate Landed(fs: seq<Fetched>, h: Header) {
    Fetched(h, true) in fs
  }

  /** A cache write took row `n`. */
  predicate Taken(fs: seq<Fetched>, n: nat) {
    exists f | f in fs :: f.stored && f.header.number == n
  }

  ghost predicate NumberedBelow(fs: seq<Fetched>, n: nat) {
    forall f | f in fs :: f.header.number < n
  }

  /** A walk fetches headers of distinct numbers, none above the digest it starts from. */
  lemma {:induction false} FetchesDescend(db: Db, tip: Header, covered: Option<Digest>, d: Digest, env: Env)
    requires DbOk(db) && NumberedEnv(env)
    ensures var fs := Fetches(db, tip, covered, d, env);
            && (d.Raw? ==> fs == [])
            && (d.Of? ==> NumberedBelow(fs, d.header.number + 1))
            && forall f, g | f in fs && g in fs && f.header.number == g.header.number :: f == g
    decreases d
  {
    if !env.shutdown(d) && covered != Some(d) && d != GENESIS_DIGEST {
      var step := GetConsensusHeader(db, tip, d, env.replies(d));
      if step.next.Some? {
        StepOk(db, tip, d.header, env);
        FetchesDescend(After(db, tip, d, env), step.tip, covered, step.next.value, env);
      }
    }
  }

  /** What a step's fetch, if it makes one, does to the rows when nothing is committed. */
  lemma QuietStep(db: Db, tip: Header, h: Header, env: Env)
    requires DbOk(db) && NumberedEnv(env) && Quiet(env)
    requires GetConsensusHeader(db, tip, Of(h), env.replies(Of(h))).next.Some?
    ensures WellNumbered(h) && !Canonical(db, Of(h)) && DbOk(After(db, tip, Of(h), env))
    ensures var stores := !Stored(db, Of(h)) && FetchFrom(Of(h), env.replies(Of(h)), 0).value.stored;
            After(db, tip, Of(h), env) == if stores then StoreInCache(db, h) else db
  {
    StepOk(db, tip, h, env);
    LookupIsRow(db, h);
  }

  /** What a header's rows are after the fetches `fs`: it is canonical as before, and stored if it
      landed, or was stored and no write took its row. */
  ghost predicate RowAfter(db: Db, db': Db, fs: seq<Fetched>, g: Header) {
    && (Canonical(db', Of(g)) <==> Canonical(db, Of(g)))
    && (Stored(db', Of(g)) <==>
          Canonical(db, Of(g)) || Landed(fs, g) || (Stored(db, Of(g)) && !Taken(fs, g.number)))
  }

  lemma RowAfterNothing(db: Db, g: Header)
    ensures RowAfter(db, db, [], g)
  {
    CanonicalIsStored(db, Of(g));
  }

  lemma RowAfterMore(db: Db, db1: Db, db': Db, f: Fetched, fs: seq<Fetched>, g: Header)
    requires DbOk(db) && WellNumbered(f.header) && !Stored(db, Of(f.header)) && NumberedBelow(fs, f.header.number)
    requires db1 == if f.stored then StoreInCache(db, f.header) else db
    requires RowAfter(db1, db', fs, g)
    ensures RowAfter(db, db', [f] + fs, g)
  {
    StoredRows(db, f.header);
    CanonicalIsStored(db, Of(g));
    assert Landed([f] + fs, g) <==> (f.stored && f.header == g) || Landed(fs, g);
    assert Taken([f] + fs, g.number) <==> (f.stored && f.header.number == g.number) || Taken(fs, g.number) by {
      assert forall x :: x in [f] + fs <==> x == f || x in fs;
    }
    assert g.number == f.header.number ==> !Landed(fs, g) && !Taken(fs, g.number);
  }

  /** The rows a walk leaves, header by header, when nothing is committed meanwhile. */
  lemma {:induction false} WalkRows(db: Db, tip: Header, covered: Option<Digest>, d: Digest, env: Env, g: Header)
    requires DbOk(db) && NumberedEnv(env) && Quiet(env)
    ensures var w := Walk(db, tip, covered, d, env);
            DbOk(w.db) && RowAfter(db, w.db, Fetches(db, tip, covered, d, env), g)
    decreases d
  {
    var step := GetConsensusHeader(db, tip, d, env.replies(d));
    RowAfterNothing(db, g);
    if !env.shutdown(d) && covered != Some(d) && d != GENESIS_DIGEST && step.next.Some? {
      var db1 := After(db, tip, d, env);
      QuietStep(db, tip, d.header, env);
      WalkRows(db1, step.tip, covered, step.next.value, env, g);
      var fs := Fetches(db1, step.tip, covered, step.next.value, env);
      FetchesDescend(db1, step.tip, covered, step.next.value, env);
      if Stored(db, d) {
        assert [] + fs == fs;
      } else {
        RowAfterMore(db, db1, Walk(db, tip, covered, d, env).db, FetchFrom(d, env.replies(d), 0).value, fs, g);
      }
    }
  }

  // ----- Lost writes -----

  ghost predicate AllLanded(fs: seq<Fetched>) {
    forall f | f in fs :: f.stored
  }

  lemma AnchorKeptByStep(db: Db, tip: Header, covered: Option<Digest>, h: Header, env: Env)
    requires DbOk(db) && NumberedEnv(env) && Quiet(env) && AnchorHolds(db, covered, Of(h))
    requires GetConsensusHeader(db, tip, Of(h), env.replies(Of(h))).next.Some?
    ensures AnchorHolds(After(db, tip, Of(h), env), covered, h.parent)
  {
    QuietStep(db, tip, h, env);
    StoredRows(db, h);
    if covered.Some? && Ancestor(covered.value, h.parent) && covered.value.Of? {
      AncestorNumbers(covered.value, h.parent);
      GroundedKept(db, After(db, tip, Of(h), env), covered.value, Of(h));
    }
  }

  /** A walk that reports coverage has grounded its start exactly when every header it fetched was
      also written to the cache. */
  lemma {:induction false} CoveredGroundsIff(db: Db, tip: Header, covered: Option<Digest>, d: Digest, env: Env)
    requires DbOk(db) && NumberedEnv(env) && Quiet(env) && AnchorHolds(db, covered, d)
    requires Walk(db, tip, covered, d, env).outcome == Covered
    ensures Grounded(Walk(db, tip, covered, d, env).db, d) <==> AllLanded(Fetches(db, tip, covered, d, env))
    decreases d
  {
    var step := GetConsensusHeader(db, tip, d, env.replies(d));
    if covered != Some(d) && d != GENESIS_DIGEST && step.next.Some? {
      var db1, p := After(db, tip, d, env), step.next.value;
      QuietStep(db, tip, d.header, env);
      AnchorKeptByStep(db, tip, covered, d.header, env);
      CoveredGroundsIff(db1, step.tip, covered, p, env);
      WalkRows(db, tip, covered, d, env, d.header);
      FetchesDescend(db1, step.tip, covered, p, env);
      StoredIffLanded(db, tip, covered, d.header, env);
    }
  }

  /** The header a walk starts from ends up stored exactly when it was, or its own write landed. */
  lemma StoredIffLanded(db: Db, tip: Header, covered: Option<Digest>, h: Header, env: Env)
    requires DbOk(db) && NumberedEnv(env) && Quiet(env)
    requires !env.shutdown(Of(h)) && covered != Some(Of(h)) && Of(h) != GENESIS_DIGEST
    requires GetConsensusHeader(db, tip, Of(h), env.replies(Of(h))).next.Some?
    ensures Stored(Walk(db, tip, covered, Of(h), env).db, Of(h))
       <==> Stored(db, Of(h)) || FetchFrom(Of(h), env.replies(Of(h)), 0).value.stored
  {
    var d := Of(h);
    var step := GetConsensusHeader(db, tip, d, env.replies(d));
    var db1 := After(db, tip, d, env);
    QuietStep(db, tip, h, env);
    StoredRows(db, h);
    WalkRows(db1, step.tip, covered, h.parent, env, h);
    FetchesDescend(db1, step.tip, covered, h.parent, env);
  }

  /** With well-numbered headers and no commit meanwhile, a walk keeps the session's guarantee exactly
      when it does not report coverage over a lost write. */
  lemma SyncKeepsCoverageIff(s: Session, start: Digest, env: Env)
    requires CoverageHolds(s) && !s.ended && NumberedEnv(env) && Quiet(env)
    ensures CoverageHolds(Apply(s, Sync(start, env))) <==>
            (Walk(s.db, s.tip, AnchorOf(s), start, env).outcome == Covered ==>
               AllLanded(Fetches(s.db, s.tip, AnchorOf(s), start, env)))
  {
    AnchorGrounded(s.db);
    WalkRows(s.db, s.tip, AnchorOf(s), start, env, GENESIS);
    if Walk(s.db, s.tip, AnchorOf(s), start, env).outcome == Covered {
      CoveredGroundsIff(s.db, s.tip, AnchorOf(s), start, env);
    }
  }

  // ----- Shutdowns -----

  /** A cache write of `h` takes the row of another header on the uncommitted way down from `a`. */
  ghost predicate TakesFrom(db: Db, a: Digest, h: Header) {
    && a != GENESIS_DIGEST && a.Of? && !Canonical(db, a)
    && ((a.header.number == h.number && a.header != h) || TakesFrom(db, a.header.parent, h))
  }

  ghost predicate TakesNothing(db: Db, a: Digest, fs: seq<Fetched>) {
    forall f | f in fs && f.stored :: !TakesFrom(db, a, f.header)
  }

  /** A grounded digest is still grounded after a walk from anywhere exactly when no header the walk
      stored takes the row of another header on the digest's uncommitted way down. */
  lemma {:induction false} GroundedAfterWalkIff(db: Db, tip: Header, covered: Option<Digest>, d: Digest, env: Env, a: Digest)
    requires DbOk(db) && NumberedEnv(env) && Quiet(env) && Grounded(db, a)
    ensures Grounded(Walk(db, tip, covered, d, env).db, a)
       <==> TakesNothing(db, a, Fetches(db, tip, covered, d, env))
    decreases a
  {
    if a != GENESIS_DIGEST && a.Of? {
      WalkRows(db, tip, covered, d, env, a.header);
      assert a == Of(a.header);
      if !Canonical(db, a) {
        GroundedAfterWalkIff(db, tip, covered, d, env, a.header.parent);
        RowKeptIff(db, tip, covered, d, env, a.header);
      }
    }
  }

  lemma RowKeptIff(db: Db, tip: Header, covered: Option<Digest>, d: Digest, env: Env, g: Header)
    requires DbOk(db) && NumberedEnv(env) && Quiet(env) && Stored(db, Of(g)) && !Canonical(db, Of(g))
    ensures Stored(Walk(db, tip, covered, d, env).db, Of(g)) <==>
            forall f | f in Fetches(db, tip, covered, d, env) && f.stored :: f.header.number == g.number ==> f.header == g
  {
    WalkRows(db, tip, covered, d, env, g);
    FetchesDescend(db, tip, covered, d, env);
    var fs := Fetches(db, tip, covered, d, env);
    if f :| f in fs && f.stored && f.header.number == g.number {
      assert f == Fetched(f.header, true);
    }
  }

  /** A shutdown leaves the anchor grounded exactly when no header the walk had stored takes the row
      of another header on the anchor's uncommitted way down. */
  lemma ShutdownKeepsAnchorIff(s: Session, start: Digest, env: Env)
    requires CoverageHolds(s) && !s.ended && s.covered.Some? && NumberedEnv(env) && Quiet(env)
    requires Walk(s.db, s.tip, s.covered, start, env).outcome == Shutdown
    ensures var s' := Apply(s, Sync(start, env));
            && s'.ended && s'.covered == s.covered
            && (Grounded(s'.db, s.covered.value) <==>
                  TakesNothing(s.db, s.covered.value, Fetches(s.db, s.tip, s.covered, start, env)))
  {
    GroundedAfterWalkIff(s.db, s.tip, s.covered, start, env, s.covered.value);
  }

  // ----- Outcomes -----

  /** Following parents from `d` through headers that are stored or served reaches the anchor, the
      canonical chain or genesis. */
  ghost predicate Reachable(db: Db, covered: Option<Digest>, d: Digest, env: Env) {
    || d == GENESIS_DIGEST || covered == Some(d) || Canonical(db, d)
    || (&& d.Of? && (Stored(db, d) || FetchFrom(d, env.replies(d), 0).Some?)
        && Reachable(db, covered, d.header.parent, env))
  }

  lemma {:induction false} ReachableSame(db: Db, h: Header, covered: Option<Digest>, d: Digest, env: Env)
    requires DbOk(db) && WellNumbered(h)
    requires d.Of? ==> WellNumbered(d.header) && d.header.number < h.number
    ensures Reachable(StoreInCache(db, h), covered, d, env) <==> Reachable(db, covered, d, env)
    decreases d
  {
    StoredRows(db, h);
    if d.Of? {
      assert d == Of(d.header);
      ReachableSame(db, h, covered, d.header.parent, env);
    } else {
      RawIsAbsent(db, d);
      RawIsAbsent(StoreInCache(db, h), d);
    }
  }

  lemma RawIsAbsent(db: Db, d: Digest)
    requires DbOk(db) && d.Raw?
    ensures !Stored(db, d) && !Canonical(db, d)
  {
  }

  /** With no shutdown and no commit meanwhile, a walk over well-numbered headers reports coverage exactly
      when the way down from its start is stored or served, and is otherwise incomplete. */
  lemma {:induction false} OutcomeIff(db: Db, tip: Header, covered: Option<Digest>, d: Digest, env: Env)
    requires DbOk(db) && NumberedEnv(env) && Quiet(env) && forall x :: !env.shutdown(x)
    ensures Walk(db, tip, covered, d, env).outcome == if Reachable(db, covered, d, env) then Covered else Incomplete
    decreases d
  {
    if covered != Some(d) && d != GENESIS_DIGEST {
      var step := GetConsensusHeader(db, tip, d, env.replies(d));
      assert env.commits(d) == [];
      if step.next.Some? {
        QuietStep(db, tip, d.header, env);
        OutcomeIff(After(db, tip, d, env), step.tip, covered, d.header.parent, env);
        ReachableSame(db, d.header, covered, d.header.parent, env);
      }
    }
  }

  /** A walk that ends with a shutdown met one at its start or at an ancestor of it; one that meets it at
      its start changes nothing. */
  lemma {:induction false} ShutdownWasRequested(db: Db, tip: Header, covered: Option<Digest>, d: Digest, env: Env)
    ensures Walk(db, tip, covered, d, env).outcome == Shutdown ==> exists x :: Ancestor(x, d) && env.shutdown(x)
    ensures env.shutdown(d) ==> Walk(db, tip, covered, d, env) == Walked(db, tip, Shutdown)
    decreases d
  {
    assert Ancestor(d, d);
    if !env.shutdown(d) && covered != Some(d) && d != GENESIS_DIGEST {
      var step := GetConsensusHeader(db, tip, d, env.replies(d));
      if step.next.Some? {
        ShutdownWasRequested(After(db, tip, d, env), step.tip, covered, d.header.parent, env);
        if x :| Ancestor(x, d.header.parent) && env.shutdown(x) {
          assert Ancestor(x, d);
        }
      }
    }
  }

  // ----- Healing -----

  /** Following parents from `d` through headers that are stored or that a peer serves and that verify
      reaches the canonical chain or genesis. */
  ghost predicate Supplied(db: Db, d: Digest, env: Env) {
    || d == GENESIS_DIGEST
    || Canonical(db, d)
    || (d.Of? && (Stored(db, d) || FetchFrom(d, env.replies(d), 0).Some?) && Supplied(db, d.header.parent, env))
  }

  lemma {:induction false} SuppliedKept(db: Db, db': Db, d: Digest, env: Env, start: Digest)
    requires Supplied(db, d, env) && d.Of? && WellNumbered(d.header) && Ancestor(d, start)
    requires KeepsBelow(db, db', start, d.header.number + 1)
    ensures Supplied(db', d, env)
    decreases d
  {
    if d != GENESIS_DIGEST {
      assert KeepsHeader(db, db', d.header);
      if !Canonical(db, d) && d.header.parent.Of? {
        ParentIsAncestor(d, start);
        SuppliedKept(db, db', d.header.parent, env, start);
      }
    }
  }

  /** A walk that no shutdown stops, from a header whose way down is supplied, reports coverage. */
  lemma {:induction false} WalkHeals(db: Db, tip: Header, covered: Option<Digest>, d: Digest, env: Env, start: Digest)
    requires DbOk(db) && Benign(env) && Gentle(db, tip, covered, d, env, start)
    requires (forall x :: !env.shutdown(x)) && Supplied(db, d, env)
    requires d.Of? && WellNumbered(d.header) && Ancestor(d, start)
    ensures Walk(db, tip, covered, d, env).outcome == Covered
    decreases d
  {
    if covered != Some(d) && d != GENESIS_DIGEST {
      var step := GetConsensusHeader(db, tip, d, env.replies(d));
      if Canonical(db, d) {
        PromoteAllKeeps(db, env.commits(d), start);
        assert KeepsHeader(db, After(db, tip, d, env), d.header);
      } else {
        StepKeeps(db, tip, d.header, env, start);
        ParentIsAncestor(d, start);
        SuppliedKept(db, After(db, tip, d, env), step.next.value, env, start);
        WalkHeals(After(db, tip, d, env), step.tip, covered, step.next.value, env, start);
      }
    }
  }

  /** A live session heals: whatever earlier walks left behind, a walk whose way down is supplied ends
      with its start as the session's grounded anchor. */
  lemma SyncHeals(s: Session, start: Digest, env: Env)
    requires CoverageHolds(s) && !s.ended && BenignEvent(s, Sync(start, env))
    requires (forall x :: !env.shutdown(x)) && Supplied(s.db, start, env) && start.Of? && WellNumbered(start.header)
    ensures var s' := Apply(s, Sync(start, env));
            CoverageHolds(s') && !s'.ended && s'.covered == Some(start) && Grounded(s'.db, start)
  {
    ApplyKeepsCoverage(s, Sync(start, env));
    WalkHeals(s.db, s.tip, AnchorOf(s), start, env, start);
  }

  /** So does a restart, also after a session that was told to exit or whose anchor a shutdown stranded:
      the next walk whose way down is supplied ends with its start as the grounded anchor. */
  lemma RestartHeals(s: Session, start: Digest, env: Env)
    requires DbOk(s.db) && BenignEvent(Apply(s, Restart), Sync(start, env))
    requires (forall x :: !env.shutdown(x)) && Supplied(s.db, start, env) && start.Of? && WellNumbered(start.header)
    ensures var s' := Run(s, [Restart, Sync(start, env)]);
            CoverageHolds(s') && !s'.ended && s'.covered == Some(start) && Grounded(s'.db, start)
  {
    var events := [Restart, Sync(start, env)];
    assert events[..1] == [Restart] && [Restart][..0] == [];
    assert Run(s, [Restart]) == Apply(s, Restart);
    assert Run(s, events) == Apply(Apply(s, Restart), Sync(start, env));
    SyncHeals(Apply(s, Restart), start, env);
  }

  // ----- Where coverage does not hold -----

  function At(n: nat, parent: Digest, content: nat): Header {
    Header(n, parent, SubDag(0, 0, content))
  }

  /** A peer that serves one header, whose cache write turns out as `stored`. */
  function Serving(h: Header, stored: bool, shutdown: Digest -> bool): Env {
    Env(shutdown, d => if d == Of(h) then [Answer(h, true, true, stored)] else [], d => [])
  }

  lemma ServingIsBenign(h: Header, shutdown: Digest -> bool)
    requires WellNumbered(h)
    ensures Benign(Serving(h, true, shutdown))
    ensures forall d :: Serving(h, true, shutdown).commits(d) == []
  {
    var env := Serving(h, true, shutdown);
    assert forall d, i | 0 <= i < |env.replies(d)| :: env.replies(d)[i] == Answer(h, true, true, true);
    assert forall d :: env.commits(d) == [];
  }

  /** A walk stopped by shutdown can leave the session with an anchor whose rows it has already
      overwritten; the tracker exits on that outcome, so the anchor is not used again. */
  lemma ShutdownStrandsTheAnchor() returns (s: Session, e: Event)
    ensures CoverageHolds(s) && BenignEvent(s, e) && s.covered.Some?
    ensures Apply(s, e).ended && Apply(s, e).covered == s.covered
    ensures !Grounded(Apply(s, e).db, s.covered.value)
  {
    var h1 := At(1, GENESIS_DIGEST, 1);
    var fork := At(1, GENESIS_DIGEST, 2);
    var db := OneCached(h1);
    var env := Serving(fork, true, d => d == GENESIS_DIGEST);
    s := Session(db, GENESIS, Some(Of(h1)), false);
    e := Sync(Of(fork), env);
    ServingIsBenign(fork, d => d == GENESIS_DIGEST);
    QuietIsGentle(db, GENESIS, s.covered, e.start, env, e.start);
    ForkStep(db, h1, fork, env);
    Overwritten(db, h1, fork);
    ShutdownEnds(s, e);
  }

  lemma ShutdownEnds(s: Session, e: Event)
    requires e.Sync? && !s.ended && s.covered.Some?
    requires Walk(s.db, s.tip, s.covered, e.start, e.env).outcome == Shutdown
    ensures Apply(s, e).ended && Apply(s, e).covered == s.covered
    ensures Apply(s, e).db == Walk(s.db, s.tip, s.covered, e.start, e.env).db
  {
  }

  lemma OneCached(h: Header) returns (db: Db)
    requires h.number == 1 && h.parent == GENESIS_DIGEST
    ensures db.canonical == map[] && db.cache == map[1 := Readable(h)]
    ensures DbOk(db) && Grounded(db, Of(h))
  {
    var empty := Db(map[], map[], map[]);
    db := StoreInCache(empty, h);
    StoredRows(empty, h);
    assert Grounded(db, h.parent);
  }

  lemma Overwritten(db: Db, h: Header, fork: Header)
    requires DbOk(db) && db.canonical == map[] && db.cache == map[1 := Readable(h)]
    requires h.number == fork.number == 1 && h != fork && WellNumbered(fork)
    ensures !Grounded(StoreInCache(db, fork), Of(h))
  {
    StoredRows(db, fork);
    LookupIsRow(StoreInCache(db, fork), h);
  }

  /** A fork of a cached header is fetched over it. */
  lemma ForkStep(db: Db, h: Header, fork: Header, env: Env)
    requires DbOk(db) && db.canonical == map[] && db.cache == map[1 := Readable(h)]
    requires h.number == fork.number == 1 && h != fork && fork.parent == GENESIS_DIGEST && fork != GENESIS
    requires !env.shutdown(Of(fork)) && env.shutdown(GENESIS_DIGEST) && env.commits(Of(fork)) == []
    requires env.replies(Of(fork)) == [Answer(fork, true, true, true)]
    ensures Walk(db, GENESIS, Some(Of(h)), Of(fork), env)
         == Walked(StoreInCache(db, fork), fork, Shutdown)
  {
    LookupIsRow(db, fork);
    assert FetchFrom(Of(fork), env.replies(Of(fork)), 0) == Some(Fetched(fork, true));
  }

  /** The cache write's error is only logged, so a lost write leaves a hole below the anchor. */
  lemma LostWriteBreaksCoverage() returns (s: Session, start: Digest, env: Env)
    ensures CoverageHolds(s) && !s.ended
    ensures var s' := Synced(s, start, env);
            !s'.ended && s'.covered == Some(start) && !Grounded(s'.db, start)
  {
    var h1 := At(1, GENESIS_DIGEST, 1);
    var db := Db(map[], map[], map[]);
    s := Session(db, GENESIS, None, false);
    start := Of(h1);
    env := Serving(h1, false, d => false);
    assert FetchFrom(start, env.replies(start), 0) == Some(Fetched(h1, false));
    assert Walk(db, GENESIS, None, start, env) == Walk(db, h1, None, GENESIS_DIGEST, env);
  }

  /** A header numbered like its own parent overwrites the row it has to link to. */
  lemma MisnumberingBreaksCoverage() returns (s: Session, start: Digest, env: Env)
    ensures CoverageHolds(s) && !s.ended
    ensures var s' := Synced(s, start, env);
            !s'.ended && s'.covered == Some(start) && !Grounded(s'.db, start)
  {
    var h1 := At(1, GENESIS_DIGEST, 1);
    var bad := At(1, Of(h1), 2);
    var db := OneCached(h1);
    s := Session(db, GENESIS, Some(Of(h1)), false);
    start := Of(bad);
    env := Serving(bad, true, d => false);
    assert FetchFrom(start, env.replies(start), 0) == Some(Fetched(bad, true));
    var db' := StoreInCache(db, bad);
    assert Walk(db, GENESIS, s.covered, start, env) == Walk(db', bad, s.covered, Of(h1), env);
  }

  /** A commit of another header at the number of the anchor's row takes that row away. */
  lemma ConflictingCommitBreaksCoverage() returns (s: Session, h: Header)
    ensures CoverageHolds(s) && !s.ended && s.covered.Some? && WellNumbered(h)
    ensures !CoverageHolds(Apply(s, Commit(h)))
  {
    var fork := At(1, GENESIS_DIGEST, 1);
    h := At(1, GENESIS_DIGEST, 2);
    var db := OneCached(fork);
    s := Session(db, GENESIS, Some(Of(fork)), false);
    CommitKeepsCoverageIff(s, h);
    assert Displaces(db, Of(fork), h);
  }
}
