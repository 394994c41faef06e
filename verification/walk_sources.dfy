/** Where cached headers come from: every row a walk adds was served by a peer and verified. */
module WalkSources {
  import opened ConsensusChain
  import opened Tables
  import opened BackwardsWalk
  import opened WalkCoverage
  import opened WalkLimits

  // ----- One fetch -----

  /** An attempt that ended without deciding: nothing came, or a header of another digest. */
  predicate Inconclusive(d: Digest, r: Reply) {
    r == Failed || (r.Answer? && Of(r.header) != d)
  }

  /** Attempt `i` served the header, its committee's keys arrived and its signatures verified. */
  predicate ServedAt(replies: seq<Reply>, i: nat, f: Fetched) {
    i < |replies| && replies[i] == Answer(f.header, true, true, f.stored)
  }

  /** Attempt `i` is the first conclusive one, is one of three, and served `f`. */
  ghost predicate DecidedAt(d: Digest, replies: seq<Reply>, i: nat, f: Fetched) {
    && i < 3 && ServedAt(replies, i, f) && Of(f.header) == d
    && forall j | 0 <= j < i :: Inconclusive(d, replies[j])
  }

  lemma {:induction false} FetchedFrom(d: Digest, replies: seq<Reply>, from: nat, f: Fetched)
    requires from <= |replies| && forall j | 0 <= j < from :: Inconclusive(d, replies[j])
    ensures FetchFrom(d, replies, from) == Some(f) <==> exists i: nat | from <= i :: DecidedAt(d, replies, i, f)
    decreases ATTEMPTS - from
  {
    if from < ATTEMPTS && from < |replies| {
      if Inconclusive(d, replies[from]) {
        FetchedFrom(d, replies, from + 1, f);
        assert !ServedAt(replies, from, f) || Of(f.header) != d;
      } else {
        assert forall i | from < i :: !DecidedAt(d, replies, i, f);
        assert FetchFrom(d, replies, from) == Some(f) ==> DecidedAt(d, replies, from, f);
      }
    }
  }

  /** A fetch yields a header exactly when one of three attempts served the header of that digest,
      with keys and signatures in order, and every attempt before it was inconclusive. */
  lemma FetchedIff(d: Digest, replies: seq<Reply>, f: Fetched)
    ensures FetchFrom(d, replies, 0) == Some(f) <==> exists i: nat :: DecidedAt(d, replies, i, f)
  {
    FetchedFrom(d, replies, 0, f);
  }

  // ----- Walks and runs -----

  /** A peer served the header to a walk that stood at its digest, and it verified. */
  ghost predicate Vouched(env: Env, f: Fetched) {
    exists i: nat :: DecidedAt(Of(f.header), env.replies(Of(f.header)), i, f)
  }

  lemma FetchIsVouched(d: Digest, env: Env)
    requires FetchFrom(d, env.replies(d), 0).Some?
    ensures Vouched(env, FetchFrom(d, env.replies(d), 0).value)
  {
    FetchedIff(d, env.replies(d), FetchFrom(d, env.replies(d), 0).value);
  }

  /** Every header a walk fetches was served and verified. */
  lemma {:induction false} FetchesAreVouched(db: Db, tip: Header, covered: Option<Digest>, d: Digest, env: Env)
    ensures forall f | f in Fetches(db, tip, covered, d, env) :: Vouched(env, f)
    decreases d
  {
    if !env.shutdown(d) && covered != Some(d) && d != GENESIS_DIGEST {
      var step := GetConsensusHeader(db, tip, d, env.replies(d));
      if step.next.Some? {
        FetchesAreVouched(After(db, tip, d, env), step.tip, covered, step.next.value, env);
        if GetConsensus(db, d).None? {
          FetchIsVouched(d, env);
        }
      }
    }
  }

  /** Row `n` of the cache was there before, or holds a header of that number served and verified. */
  ghost predicate RowVouched(before: Db, after: Db, n: nat, env: Env) {
    n in after.cache ==>
      || (n in before.cache && after.cache[n] == before.cache[n])
      || (after.cache[n].Readable? && after.cache[n].header.number == n && Vouched(env, Fetched(after.cache[n].header, true)))
  }

  lemma {:induction false} PromoteAllShrinks(db: Db, hs: seq<Header>, n: nat)
    ensures n in PromoteAll(db, hs).cache ==> n in db.cache && PromoteAll(db, hs).cache[n] == db.cache[n]
    decreases hs
  {
    if hs != [] {
      PromoteAllShrinks(Promote(db, hs[0]), hs[1..], n);
    }
  }

  lemma StepVouched(db: Db, tip: Header, d: Digest, env: Env, n: nat)
    ensures RowVouched(db, After(db, tip, d, env), n, env)
  {
    var step := GetConsensusHeader(db, tip, d, env.replies(d));
    PromoteAllShrinks(step.db, env.commits(d), n);
    if GetConsensus(db, d).None? && FetchFrom(d, env.replies(d), 0).Some? {
      FetchIsVouched(d, env);
    }
  }

  /** Every row a walk leaves in the cache was there before it, or a peer served it and it verified. */
  lemma {:induction false} WalkVouched(db: Db, tip: Header, covered: Option<Digest>, d: Digest, env: Env, n: nat)
    ensures RowVouched(db, Walk(db, tip, covered, d, env).db, n, env)
    decreases d
  {
    if !env.shutdown(d) && covered != Some(d) && d != GENESIS_DIGEST {
      var step := GetConsensusHeader(db, tip, d, env.replies(d));
      StepVouched(db, tip, d, env, n);
      if step.next.Some? {
        WalkVouched(After(db, tip, d, env), step.tip, covered, step.next.value, env, n);
      }
    }
  }

  /** Some walk of the run had the header served and verified. */
  ghost predicate VouchedIn(events: seq<Event>, h: Header) {
    exists e | e in events :: e.Sync? && Vouched(e.env, Fetched(h, true))
  }

  /** Over every run, whatever peers answer, a cached row is one from before the run or a header that
      a peer served to one of its walks and that verified. */
  lemma {:induction false} CacheIsVouched(s: Session, events: seq<Event>, n: nat)
    ensures var after := Run(s, events).db;
            n in after.cache ==>
              || (n in s.db.cache && after.cache[n] == s.db.cache[n])
              || (after.cache[n].Readable? && after.cache[n].header.number == n && VouchedIn(events, after.cache[n].header))
  {
    if events != [] {
      var init, e := events[..|events| - 1], events[|events| - 1];
      var before, after := Run(s, init), Run(s, events);
      CacheIsVouched(s, init, n);
      assert e in events && forall x | x in init :: x in events;
      if e.Sync? && !before.ended {
        WalkVouched(before.db, before.tip, AnchorOf(before), e.start, e.env, n);
      }
    }
  }

  /** A header whose keys arrive but whose signatures fail is not fetched, whatever later attempts hold. */
  lemma ForgeryIsRefused(d: Digest, replies: seq<Reply>, h: Header, keysArrive: bool, verified: bool, stored: bool)
    requires Of(h) == d && !(keysArrive && verified)
    requires replies != [] && replies[0] == Answer(h, keysArrive, verified, stored)
    ensures FetchFrom(d, replies, 0) == None
  {
    forall f
      ensures FetchFrom(d, replies, 0) != Some(f)
    {
      FetchedIff(d, replies, f);
    }
  }
}
