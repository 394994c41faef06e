/** Coverage: a session's anchor always heads a chain of stored headers that reaches the
    canonical chain or genesis. */
module WalkCoverage {
  import opened ConsensusChain
  import opened Tables
  import opened BackwardsWalk

  // ----- What coverage means -----

  ghost predicate Stored(db: Db, d: Digest) {
    GetConsensus(db, d).Some?
  }

  ghost predicate Canonical(db: Db, d: Digest) {
    GetCanonical(db, d).Some?
  }

  /** Following parent hashes from `d` through stored headers reaches the canonical chain or
      the genesis digest. */
  ghost predicate Grounded(db: Db, d: Digest) {
    || d == GENESIS_DIGEST
    || Canonical(db, d)
    || (Stored(db, d) && d.Of? && Grounded(db, d.header.parent))
  }

  ghost predicate TableOk(t: map<nat, Row>, index: map<Digest, nat>) {
    forall n | n in t && t[n].Readable? ::
      t[n].header.number == n && WellNumbered(t[n].header) && Of(t[n].header) in index
  }

  /** Rows are keyed by their number, well numbered and indexed by digest. */
  ghost predicate DbOk(db: Db) {
    && TableOk(db.canonical, db.index)
    && TableOk(db.cache, db.index)
    && forall d | d in db.index :: d.Of? && db.index[d] == d.header.number
  }

  /** The headers peers and the executor produce are well numbered. */
  ghost predicate NumberedEnv(env: Env) {
    && (forall d, i | 0 <= i < |env.replies(d)| && env.replies(d)[i].Answer? :: WellNumbered(env.replies(d)[i].header))
    && (forall d, i | 0 <= i < |env.commits(d)| :: WellNumbered(env.commits(d)[i]))
  }

  /** Moreover every cache write succeeds. */
  ghost predicate Benign(env: Env) {
    NumberedEnv(env) && forall d, i | 0 <= i < |env.replies(d)| && env.replies(d)[i].Answer? :: env.replies(d)[i].stored
  }

  lemma LookupIsRow(db: Db, h: Header)
    requires DbOk(db)
    ensures Canonical(db, Of(h)) <==> h.number in db.canonical && db.canonical[h.number] == Readable(h)
    ensures Stored(db, Of(h)) <==>
            || (h.number in db.canonical && db.canonical[h.number] == Readable(h))
            || (h.number in db.cache && db.cache[h.number] == Readable(h))
  {
  }

  // ----- What storage steps keep -----

  ghost predicate KeepsHeader(db: Db, db': Db, h: Header) {
    (Stored(db, Of(h)) ==> Stored(db', Of(h))) && (Canonical(db, Of(h)) ==> Canonical(db', Of(h)))
  }

  /** Every ancestor of `start` numbered above `n` that `db` holds, `db'` holds. */
  ghost predicate KeepsAbove(db: Db, db': Db, start: Digest, n: int) {
    forall h: Header | h.number > n && Ancestor(Of(h), start) :: KeepsHeader(db, db', h)
  }

  /** Every ancestor of `start` numbered below `n` that `db` holds, `db'` holds. */
  ghost predicate KeepsBelow(db: Db, db': Db, start: Digest, n: int) {
    forall h: Header | h.number < n && Ancestor(Of(h), start) :: KeepsHeader(db, db', h)
  }

  /** A cache write stores its header, replaces a cached header of its number and changes no other. */
  lemma StoredRows(db: Db, h: Header)
    requires DbOk(db) && WellNumbered(h)
    ensures DbOk(StoreInCache(db, h))
    ensures forall g: Header ::
              && (Canonical(StoreInCache(db, h), Of(g)) <==> Canonical(db, Of(g)))
              && (Stored(StoreInCache(db, h), Of(g)) <==>
                    g == h || Canonical(db, Of(g)) || (g.number != h.number && Stored(db, Of(g))))
  {
    var db' := StoreInCache(db, h);
    assert DbOk(db');
    forall g: Header
      ensures Canonical(db', Of(g)) <==> Canonical(db, Of(g))
      ensures Stored(db', Of(g)) <==> g == h || Canonical(db, Of(g)) || (g.number != h.number && Stored(db, Of(g)))
    {
      LookupIsRow(db, g);
      LookupIsRow(db', g);
    }
  }

  /** A commit makes its header canonical, removes every other header of its number from both tables
      and changes no other number. */
  lemma PromotedRows(db: Db, h: Header)
    requires DbOk(db) && WellNumbered(h)
    ensures DbOk(Promote(db, h))
    ensures forall g: Header ::
              && (Canonical(Promote(db, h), Of(g)) <==> g == h || (g.number != h.number && Canonical(db, Of(g))))
              && (Stored(Promote(db, h), Of(g)) <==> g == h || (g.number != h.number && Stored(db, Of(g))))
  {
    var db' := Promote(db, h);
    assert DbOk(db') by {
      assert forall d | d in Superseded(db, h) :: d.Of? && d.header.number == h.number;
    }
    forall g: Header
      ensures Canonical(db', Of(g)) <==> g == h || (g.number != h.number && Canonical(db, Of(g)))
      ensures Stored(db', Of(g)) <==> g == h || (g.number != h.number && Stored(db, Of(g)))
    {
      LookupIsRow(db, g);
      LookupIsRow(db', g);
    }
  }

  /** The commit of `h` supersedes no stored ancestor of `start`. */
  /** A commit leaves no entry in the index for a header it supersedes in either table, and touches no
      other entry but its own. */
  lemma PromotedIndex(db: Db, h: Header, g: Header)
    ensures Of(g) in Promote(db, h).index <==>
            || g == h
            || (&& Of(g) in db.index
                && !(h.number in db.canonical && db.canonical[h.number] == Readable(g))
                && !(h.number in db.cache && db.cache[h.number] == Readable(g)))
    ensures g != h && Of(g) in Promote(db, h).index ==> Promote(db, h).index[Of(g)] == db.index[Of(g)]
  {
  }

  ghost predicate Spares(db: Db, h: Header, start: Digest) {
    forall g: Header | g.number == h.number && g != h && Stored(db, Of(g)) :: !Ancestor(Of(g), start)
  }

  ghost predicate SparesAll(db: Db, hs: seq<Header>, start: Digest)
    decreases hs
  {
    hs == [] || (Spares(db, hs[0], start) && SparesAll(Promote(db, hs[0]), hs[1..], start))
  }

  lemma CanonicalIsStored(db: Db, d: Digest)
    ensures Canonical(db, d) ==> Stored(db, d)
  {
  }

  lemma {:induction false} PromoteAllKeeps(db: Db, hs: seq<Header>, start: Digest)
    requires DbOk(db) && (forall i | 0 <= i < |hs| :: WellNumbered(hs[i])) && SparesAll(db, hs, start)
    ensures var db' := PromoteAll(db, hs);
            DbOk(db') && KeepsAbove(db, db', start, -1)
    decreases hs
  {
    if hs != [] {
      PromotedRows(db, hs[0]);
      forall h: Header | Ancestor(Of(h), start)
        ensures KeepsHeader(db, Promote(db, hs[0]), h)
      {
        CanonicalIsStored(db, Of(h));
      }
      PromoteAllKeeps(Promote(db, hs[0]), hs[1..], start);
    }
  }

  lemma {:induction false} FetchedIsBenign(d: Digest, env: Env, i: nat)
    requires NumberedEnv(env) && FetchFrom(d, env.replies(d), i).Some?
    ensures WellNumbered(FetchFrom(d, env.replies(d), i).value.header)
    ensures Benign(env) ==> FetchFrom(d, env.replies(d), i).value.stored
    decreases ATTEMPTS - i
  {
    var r := env.replies(d)[i];
    if r.Failed? || (r.Answer? && Of(r.header) != d) {
      FetchedIsBenign(d, env, i + 1);
    }
  }

  /** Groundedness survives any step that keeps the headers from `d`'s number down. */
  lemma {:induction false} GroundedKept(db: Db, db': Db, d: Digest, start: Digest)
    requires Grounded(db, d) && d.Of? && WellNumbered(d.header) && Ancestor(d, start)
    requires KeepsBelow(db, db', start, d.header.number + 1)
    ensures Grounded(db', d)
    decreases d
  {
    if d != GENESIS_DIGEST {
      assert KeepsHeader(db, db', d.header);
      if !Canonical(db, d) && d.header.parent.Of? {
        ParentIsAncestor(d, start);
        GroundedKept(db, db', d.header.parent, start);
      }
    }
  }

  // ----- One walk -----

  /** The state in which a walk continues from `d`: after the step at `d` and the commits. */
  function After(db: Db, tip: Header, d: Digest, env: Env): Db {
    PromoteAll(GetConsensusHeader(db, tip, d, env.replies(d)).db, env.commits(d))
  }

  /** The commits made while the walk stands at `d` supersede no stored ancestor of `start`. */
  ghost predicate GentleAt(db: Db, tip: Header, d: Digest, env: Env, start: Digest) {
    SparesAll(GetConsensusHeader(db, tip, d, env.replies(d)).db, env.commits(d), start)
  }

  /** No commit made during the walk supersedes a stored ancestor of `start`. */
  ghost predicate Gentle(db: Db, tip: Header, covered: Option<Digest>, d: Digest, env: Env, start: Digest)
    decreases d
  {
    env.shutdown(d) || covered == Some(d) || d == GENESIS_DIGEST ||
    (var step := GetConsensusHeader(db, tip, d, env.replies(d));
     GentleAt(db, tip, d, env, start) &&
     (step.next.Some? ==> Gentle(After(db, tip, d, env), step.tip, covered, step.next.value, env, start)))
  }

  lemma {:induction false} PromoteAllOk(db: Db, hs: seq<Header>)
    requires DbOk(db) && forall i | 0 <= i < |hs| :: WellNumbered(hs[i])
    ensures DbOk(PromoteAll(db, hs))
    decreases hs
  {
    if hs != [] {
      PromotedRows(db, hs[0]);
      PromoteAllOk(Promote(db, hs[0]), hs[1..]);
    }
  }

  /** Whatever is fetched, lost or committed, the tables stay well kept. */
  lemma StepOk(db: Db, tip: Header, h: Header, env: Env)
    requires DbOk(db) && NumberedEnv(env)
    ensures DbOk(After(db, tip, Of(h), env))
    ensures GetConsensusHeader(db, tip, Of(h), env.replies(Of(h))).next.Some? ==> WellNumbered(h)
  {
    LookupIsRow(db, h);
    if FetchFrom(Of(h), env.replies(Of(h)), 0).Some? {
      FetchedIsBenign(Of(h), env, 0);
      StoredRows(db, h);
    }
    PromoteAllOk(GetConsensusHeader(db, tip, Of(h), env.replies(Of(h))).db, env.commits(Of(h)));
  }

  /** A step down leaves the header it passed stored, and touches only that header's number. */
  lemma StepKeeps(db: Db, tip: Header, h: Header, env: Env, start: Digest)
    requires DbOk(db) && Benign(env) && GentleAt(db, tip, Of(h), env, start)
    ensures var db' := After(db, tip, Of(h), env);
            && DbOk(db')
            && KeepsAbove(db, db', start, h.number) && KeepsBelow(db, db', start, h.number)
            && (GetConsensusHeader(db, tip, Of(h), env.replies(Of(h))).next.Some? ==>
                  WellNumbered(h) && (Ancestor(Of(h), start) ==> Stored(db', Of(h))))
  {
    DescentKeeps(db, tip, h, env);
    PromoteAllKeeps(GetConsensusHeader(db, tip, Of(h), env.replies(Of(h))).db, env.commits(Of(h)), start);
  }

  lemma DescentKeeps(db: Db, tip: Header, h: Header, env: Env)
    requires DbOk(db) && Benign(env)
    ensures var step := GetConsensusHeader(db, tip, Of(h), env.replies(Of(h)));
            && DbOk(step.db) && (step.next.Some? ==> WellNumbered(h) && Stored(step.db, Of(h)))
            && forall g: Header | g.number != h.number :: KeepsHeader(db, step.db, g)
  {
    var d := Of(h);
    LookupIsRow(db, h);
    if !Stored(db, d) && FetchFrom(d, env.replies(d), 0).Some? {
      FetchedIsBenign(d, env, 0);
      StoredRows(db, h);
    }
    forall g: Header | g.number != h.number
      ensures KeepsHeader(db, GetConsensusHeader(db, tip, d, env.replies(d)).db, g)
    {
      CanonicalIsStored(db, Of(g));
    }
  }

  /** A walk keeps every ancestor of `start` numbered above the digest it walks from. */
  lemma {:induction false} WalkKeeps(db: Db, tip: Header, covered: Option<Digest>, d: Digest, env: Env, start: Digest)
    requires DbOk(db) && Benign(env) && Gentle(db, tip, covered, d, env, start)
    requires d.Of? && WellNumbered(d.header)
    ensures var w := Walk(db, tip, covered, d, env);
            DbOk(w.db) && KeepsAbove(db, w.db, start, d.header.number)
    decreases d
  {
    if !env.shutdown(d) && covered != Some(d) && d != GENESIS_DIGEST {
      var step := GetConsensusHeader(db, tip, d, env.replies(d));
      StepKeeps(db, tip, d.header, env, start);
      if step.next.Some? {
        var db1 := After(db, tip, d, env);
        if step.next.value.Of? {
          WalkKeeps(db1, step.tip, covered, step.next.value, env, start);
        } else {
          UnservedWalk(db1, step.tip, covered, step.next.value, env, start);
        }
      }
    }
  }

  /** A digest of no header, or of one that is not well numbered. */
  ghost predicate Unserved(d: Digest) {
    d.Raw? || !WellNumbered(d.header)
  }

  lemma UnservedIsAbsent(db: Db, d: Digest, env: Env)
    requires DbOk(db) && NumberedEnv(env) && Unserved(d)
    ensures !Stored(db, d) && !Canonical(db, d) && FetchFrom(d, env.replies(d), 0).None?
  {
    if d.Of? {
      LookupIsRow(db, d.header);
    }
    if FetchFrom(d, env.replies(d), 0).Some? {
      FetchedIsBenign(d, env, 0);
    }
  }

  /** Such a digest is neither stored nor served, so a walk that meets it ends there. */
  lemma UnservedWalk(db: Db, tip: Header, covered: Option<Digest>, d: Digest, env: Env, start: Digest)
    requires DbOk(db) && Benign(env) && Gentle(db, tip, covered, d, env, start) && Unserved(d)
    ensures var w := Walk(db, tip, covered, d, env);
            && DbOk(w.db) && KeepsAbove(db, w.db, start, -1)
            && (w.outcome.Covered? ==> covered == Some(d))
  {
    if !env.shutdown(d) && covered != Some(d) && d != GENESIS_DIGEST {
      UnservedIsAbsent(db, d, env);
      PromoteAllKeeps(db, env.commits(d), start);
      UnservedIsAbsent(PromoteAll(db, env.commits(d)), d, env);
    }
  }

  /** The anchor is grounded for as long as the walk can still reach it. */
  ghost predicate AnchorHolds(db: Db, covered: Option<Digest>, d: Digest) {
    covered.Some? && Ancestor(covered.value, d) ==> Grounded(db, covered.value)
  }

  lemma AnchorKept(db: Db, tip: Header, covered: Option<Digest>, h: Header, env: Env, start: Digest)
    requires DbOk(db) && Benign(env) && WellNumbered(h) && GentleAt(db, tip, Of(h), env, start)
    requires AnchorHolds(db, covered, Of(h)) && Ancestor(Of(h), start)
    ensures AnchorHolds(After(db, tip, Of(h), env), covered, h.parent)
  {
    if covered.Some? && Ancestor(covered.value, h.parent) {
      StepKeeps(db, tip, h, env, start);
      var a := covered.value;
      if a.Of? {
        AncestorNumbers(a, h.parent);
        AncestorsCompose(a, Of(h), start);
        GroundedKept(db, After(db, tip, Of(h), env), a, start);
      }
    }
  }

  /** A walk that reports coverage has grounded the digest it started from. */
  lemma {:induction false} WalkGrounds(db: Db, tip: Header, covered: Option<Digest>, d: Digest, env: Env, start: Digest)
    requires DbOk(db) && Benign(env) && AnchorHolds(db, covered, d)
    requires Ancestor(d, start) && Gentle(db, tip, covered, d, env, start)
    ensures var w := Walk(db, tip, covered, d, env);
            DbOk(w.db) && (w.outcome.Covered? ==> Grounded(w.db, d))
    decreases d
  {
    if Unserved(d) {
      UnservedWalk(db, tip, covered, d, env, start);
    } else {
      WalkKeeps(db, tip, covered, d, env, start);
      var step := GetConsensusHeader(db, tip, d, env.replies(d));
      if !env.shutdown(d) && covered != Some(d) && d != GENESIS_DIGEST && step.next.Some? {
        var db1, p := After(db, tip, d, env), step.next.value;
        StepKeeps(db, tip, d.header, env, start);
        AnchorKept(db, tip, covered, d.header, env, start);
        ParentIsAncestor(d, start);
        WalkGrounds(db1, step.tip, covered, p, env, start);
        StaysStored(db1, step.tip, covered, d.header, env, start);
      }
    }
  }

  /** What a walk passed stays stored while it descends further. */
  lemma StaysStored(db: Db, tip: Header, covered: Option<Digest>, h: Header, env: Env, start: Digest)
    requires DbOk(db) && Benign(env) && Gentle(db, tip, covered, h.parent, env, start)
    requires WellNumbered(h) && Ancestor(Of(h), start) && Stored(db, Of(h))
    ensures Stored(Walk(db, tip, covered, h.parent, env).db, Of(h))
  {
    if Unserved(h.parent) {
      UnservedWalk(db, tip, covered, h.parent, env, start);
    } else {
      WalkKeeps(db, tip, covered, h.parent, env, start);
    }
    assert KeepsHeader(db, Walk(db, tip, covered, h.parent, env).db, h);
  }

  // ----- The recovered anchor -----

  /** The cached rows a sweep sees before it meets an unreadable one. */
  function Visible(cache: map<nat, Row>): map<nat, Row> {
    map n | n in cache && (forall m | m in cache && m <= n :: cache[m].Readable?) :: cache[n]
  }

  predicate LinkAt(rows: map<nat, Row>, parent: Digest, n: nat) {
    n in rows && rows[n].Readable? && rows[n].header.parent == parent
  }

  function KeysFrom(rows: map<nat, Row>, n: nat): set<nat> {
    set k | k in rows && k >= n
  }

  /** Follows hash links upwards, number by number, from the header below `n`. */
  function Climb(rows: map<nat, Row>, parent: Digest, n: nat): Digest
    decreases KeysFrom(rows, n)
  {
    if LinkAt(rows, parent, n) then
      assert n in KeysFrom(rows, n) && n !in KeysFrom(rows, n + 1);
      Climb(rows, Of(rows[n].header), n + 1)
    else parent
  }

  ghost predicate Keyed(t: map<nat, Row>) {
    forall n | n in t && t[n].Readable? :: t[n].header.number == n
  }

  /** The rows swept are below the ones left, readable and numbered below the expected row. */
  ghost predicate SweptBefore(rows: map<nat, Row>, rest: set<nat>, n: nat) {
    && rest <= rows.Keys
    && forall k | k in rows && k !in rest :: rows[k].Readable? && k < n && forall j | j in rest :: k < j
  }

  lemma SweepSees(rows: map<nat, Row>, rest: set<nat>, n: nat)
    requires SweptBefore(rows, rest, n)
    ensures rest == {} ==> n !in Visible(rows)
    ensures rest != {} && rows[Min(rest)].Unreadable? ==> n !in Visible(rows)
    ensures rest != {} && rows[Min(rest)].Readable? ==>
              Min(rest) in Visible(rows) && (Min(rest) > n ==> n !in Visible(rows))
  {
  }

  /** On rows kept under their numbers the sweep in key order is the climb. */
  lemma {:induction false} SweptIsClimbed(rows: map<nat, Row>, rest: set<nat>, head: Digest, n: nat, anchor: Option<Digest>)
    requires Keyed(rows) && SweptBefore(rows, rest, n)
    ensures Swept(rows, rest, head, n, anchor)
         == if LinkAt(Visible(rows), head, n) then Some(Climb(Visible(rows), head, n)) else anchor
    decreases rest
  {
    SweepSees(rows, rest, n);
    if rest != {} && rows[Min(rest)].Readable? {
      var k := Min(rest);
      var h := rows[k].header;
      if h.number < n {
        SweptIsClimbed(rows, rest - {k}, head, n, anchor);
      } else if h.number == n && h.parent == head {
        SweptIsClimbed(rows, rest - {k}, Of(h), n + 1, Some(Of(h)));
      }
    }
  }

  function DigestAt(rows: map<nat, Row>, n: nat): Digest {
    if n in rows && rows[n].Readable? then Of(rows[n].header) else ZERO_HASH
  }

  /** Row `m` is readable and hash-links to row `m - 1`, or to `parent` at the start of the run. */
  ghost predicate LinkedRow(rows: map<nat, Row>, parent: Digest, n: nat, m: nat) {
    LinkAt(rows, if m <= n then parent else DigestAt(rows, m - 1), m)
  }

  /** The rows `n .. end` continue the chain whose head is `parent`, one number at a time. */
  ghost predicate IsRun(rows: map<nat, Row>, parent: Digest, n: nat, end: nat) {
    n <= end && forall m | n <= m < end :: LinkedRow(rows, parent, n, m)
  }

  /** Climbing stops at the end of the longest run. */
  lemma {:induction false} ClimbIsLongest(rows: map<nat, Row>, parent: Digest, n: nat) returns (end: nat)
    ensures IsRun(rows, parent, n, end) && !LinkedRow(rows, parent, n, end)
    ensures end == n <==> !LinkAt(rows, parent, n)
    ensures Climb(rows, parent, n) == if end == n then parent else DigestAt(rows, end - 1)
    decreases KeysFrom(rows, n)
  {
    if LinkAt(rows, parent, n) {
      assert n in KeysFrom(rows, n) && n !in KeysFrom(rows, n + 1);
      var head := Of(rows[n].header);
      end := ClimbIsLongest(rows, head, n + 1);
      assert forall m | m > n :: LinkedRow(rows, head, n + 1, m) <==> LinkedRow(rows, parent, n, m);
      assert LinkedRow(rows, parent, n, n);
    } else {
      end := n;
    }
  }

  /** Row `k` is the last of the canonical table. */
  ghost predicate IsTip(db: Db, k: nat) {
    k in db.canonical && forall j | j in db.canonical :: j <= k
  }

  /** The digest and number a cached run above the canonical chain starts from: those of the last
      canonical row, or of genesis while the canonical table is empty. */
  ghost predicate RunStart(db: Db, parent: Digest, n: nat) {
    || (db.canonical == map[] && parent == GENESIS_DIGEST && n == 1)
    || exists k: nat, t: Header :: IsTip(db, k) && db.canonical[k] == Readable(t) && parent == Of(t) && n == t.number + 1
  }

  ghost predicate TipUnreadable(db: Db) {
    exists k: nat :: IsTip(db, k) && db.canonical[k] == Unreadable
  }

  lemma AnchorStart(db: Db) returns (parent: Digest, n: nat)
    ensures TipUnreadable(db) ==> Anchor(db) == None
    ensures !TipUnreadable(db) ==> RunStart(db, parent, n) && Anchor(db) == Swept(db.cache, db.cache.Keys, parent, n, None)
    ensures forall p, m | RunStart(db, p, m) :: !TipUnreadable(db) && p == parent && m == n
  {
    parent, n := GENESIS_DIGEST, 1;
    if db.canonical != map[] {
      var k := Last(db.canonical.Keys);
      assert IsTip(db, k) && forall j | IsTip(db, j) :: j == k;
      if db.canonical[k].Readable? {
        parent, n := Of(db.canonical[k].header), db.canonical[k].header.number + 1;
      }
    }
  }

  /** On rows kept under their numbers the recovered anchor is the head of the longest
      number-contiguous, hash-linked cached run above the canonical tip (or genesis), and is absent
      exactly when that run is empty or the tip's row cannot be read. */
  lemma AnchorIsLongestRun(db: Db) returns (parent: Digest, n: nat, end: nat)
    requires Keyed(db.cache)
    ensures TipUnreadable(db) ==> Anchor(db) == None
    ensures !TipUnreadable(db) ==>
              var rows := Visible(db.cache);
              && RunStart(db, parent, n) && IsRun(rows, parent, n, end) && !IsRun(rows, parent, n, end + 1)
              && Anchor(db) == if end == n then None else Some(DigestAt(rows, end - 1))
  {
    parent, n := AnchorStart(db);
    SweptIsClimbed(db.cache, db.cache.Keys, parent, n, None);
    end := ClimbIsLongest(Visible(db.cache), parent, n);
  }

  predicate RunLink(hs: seq<Header>, i: nat, parent: Digest, n: nat)
    requires i < |hs|
  {
    hs[i].number == n + i && hs[i].parent == if i == 0 then parent else Of(hs[i - 1])
  }

  /** The headers `hs` are cached rows, numbered upwards from `n` and hash-linked from `parent`. */
  ghost predicate CachedRun(rows: map<nat, Row>, hs: seq<Header>, parent: Digest, n: nat) {
    && (forall h | h in hs :: exists k | k in rows :: rows[k] == Readable(h))
    && forall i | 0 <= i < |hs| :: RunLink(hs, i, parent, n)
  }

  lemma RunGrows(rows: map<nat, Row>, hs: seq<Header>, parent: Digest, n: nat, k: nat)
    requires CachedRun(rows, hs, parent, n) && k in rows && rows[k].Readable?
    requires rows[k].header.number == n + |hs|
    requires rows[k].header.parent == if hs == [] then parent else Of(hs[|hs| - 1])
    ensures CachedRun(rows, hs + [rows[k].header], parent, n)
  {
    var run := hs + [rows[k].header];
    forall i | 0 <= i < |run|
      ensures RunLink(run, i, parent, n)
    {
      assert i < |hs| ==> RunLink(hs, i, parent, n);
    }
  }

  /** Whatever keys the rows lie under, the sweep's anchor heads a contiguous, hash-linked run. */
  lemma {:induction false} SweptHeadsARun(rows: map<nat, Row>, rest: set<nat>, hs: seq<Header>, parent: Digest, n: nat)
    returns (run: seq<Header>)
    requires rest <= rows.Keys && CachedRun(rows, hs, parent, n)
    ensures CachedRun(rows, run, parent, n) && hs <= run
    ensures var head := if hs == [] then parent else Of(hs[|hs| - 1]);
            Swept(rows, rest, head, n + |hs|, if hs == [] then None else Some(head))
            == if run == [] then None else Some(Of(run[|run| - 1]))
    decreases rest
  {
    run := hs;
    if rest != {} && rows[Min(rest)].Readable? {
      var k := Min(rest);
      var h := rows[k].header;
      if h.number < n + |hs| {
        run := SweptHeadsARun(rows, rest - {k}, hs, parent, n);
      } else if h.number == n + |hs| && h.parent == if hs == [] then parent else Of(hs[|hs| - 1]) {
        RunGrows(rows, hs, parent, n, k);
        run := SweptHeadsARun(rows, rest - {k}, hs + [h], parent, n);
      }
    }
  }

  /** For every cache, misfiled rows included, the recovered anchor heads a contiguous, hash-linked
      run of cached headers above the canonical tip or genesis. */
  lemma AnchorHeadsARun(db: Db) returns (run: seq<Header>, parent: Digest, n: nat)
    ensures Anchor(db).Some? ==>
              && RunStart(db, parent, n) && run != [] && CachedRun(db.cache, run, parent, n)
              && Anchor(db).value == Of(run[|run| - 1])
  {
    parent, n := AnchorStart(db);
    run := SweptHeadsARun(db.cache, db.cache.Keys, [], parent, n);
  }

  lemma {:induction false} RunGrounded(db: Db, run: seq<Header>, parent: Digest, n: nat, i: nat)
    requires DbOk(db) && Grounded(db, parent) && CachedRun(db.cache, run, parent, n) && i < |run|
    ensures Grounded(db, Of(run[i]))
  {
    if i > 0 {
      RunGrounded(db, run, parent, n, i - 1);
    }
    assert run[i] in run && RunLink(run, i, parent, n);
    LookupIsRow(db, run[i]);
    assert Stored(db, Of(run[i]));
  }

  lemma AnchorGrounded(db: Db)
    requires DbOk(db)
    ensures Anchor(db).Some? ==> Grounded(db, Anchor(db).value)
  {
    var run, parent, n := AnchorHeadsARun(db);
    if Anchor(db).Some? {
      if parent != GENESIS_DIGEST {
        LookupIsRow(db, parent.header);
      }
      RunGrounded(db, run, parent, n, |run| - 1);
    }
  }

  // ----- Commits -----

  /** Another header numbered like `h` lies on the way from `d` down to its first canonical header. */
  ghost predicate Displaces(db: Db, d: Digest, h: Header) {
    && d != GENESIS_DIGEST && d.Of?
    && ((d.header.number == h.number && d.header != h) || (!Canonical(db, d) && Displaces(db, d.header.parent, h)))
  }

  /** A commit keeps a grounded digest grounded exactly when it displaces nothing on its way down. */
  lemma {:induction false} CommitGroundsIff(db: Db, h: Header, d: Digest)
    requires DbOk(db) && WellNumbered(h) && Grounded(db, d)
    ensures DbOk(Promote(db, h))
    ensures Grounded(Promote(db, h), d) <==> !Displaces(db, d, h)
    decreases d
  {
    PromotedRows(db, h);
    if d != GENESIS_DIGEST && d.Of? {
      LookupIsRow(db, d.header);
      assert d == Of(d.header);
      if !Canonical(db, d) {
        CommitGroundsIff(db, h, d.header.parent);
        if d.header == h {
          OwnAncestorsSpared(db, h, h.parent);
        }
      }
    }
  }

  /** Nothing below a well-numbered header has its number. */
  lemma {:induction false} OwnAncestorsSpared(db: Db, h: Header, d: Digest)
    requires WellNumbered(h) && (d.Of? ==> WellNumbered(d.header) && d.header.number < h.number)
    ensures !Displaces(db, d, h)
    decreases d
  {
    if d.Of? {
      OwnAncestorsSpared(db, h, d.header.parent);
    }
  }

  // ----- Whole runs -----

  function AnchorOf(s: Session): Option<Digest> {
    if s.covered.None? then Anchor(s.db) else s.covered
  }

  /** What a live session's guarantee asks of an event: peers' and the executor's headers are well
      numbered, cache writes succeed, and a commit takes no header away from the walk's chain or
      from the anchor's. */
  ghost predicate BenignEvent(s: Session, e: Event) {
    match e
    case Sync(start, env) => s.ended || (Benign(env) && Gentle(s.db, s.tip, AnchorOf(s), start, env, start))
    case Commit(h) => WellNumbered(h) && (!s.ended && s.covered.Some? ==> !Displaces(s.db, s.covered.value, h))
    case Restart => true
  }

  ghost predicate BenignRun(s: Session, events: seq<Event>) {
    events == [] ||
    (BenignRun(s, events[..|events| - 1]) && BenignEvent(Run(s, events[..|events| - 1]), events[|events| - 1]))
  }

  /** A live session's anchor is grounded. */
  ghost predicate CoverageHolds(s: Session) {
    DbOk(s.db) && (!s.ended && s.covered.Some? ==> Grounded(s.db, s.covered.value))
  }

  lemma ApplyKeepsCoverage(s: Session, e: Event)
    requires CoverageHolds(s) && BenignEvent(s, e)
    ensures CoverageHolds(Apply(s, e))
  {
    match e
    case Sync(start, env) =>
      if !s.ended {
        AnchorGrounded(s.db);
        WalkGrounds(s.db, s.tip, AnchorOf(s), start, env, start);
      }
    case Commit(h) =>
      PromotedRows(s.db, h);
      if !s.ended && s.covered.Some? {
        CommitGroundsIff(s.db, h, s.covered.value);
      }
    case Restart =>
  }

  /** Over every run of walks, commits and restarts, whatever the targets, forks and failed
      fetches, the anchor of a live session is grounded at every call boundary. */
  lemma {:induction false} CoverageOverRuns(s: Session, events: seq<Event>)
    requires CoverageHolds(s) && BenignRun(s, events)
    ensures CoverageHolds(Run(s, events))
  {
    if events != [] {
      var n := |events| - 1;
      CoverageOverRuns(s, events[..n]);
      ApplyKeepsCoverage(Run(s, events[..n]), events[n]);
    }
  }

  /** Between walks a commit keeps the guarantee exactly when it displaces no header on the way from
      the anchor down to its first canonical header. */
  lemma CommitKeepsCoverageIff(s: Session, h: Header)
    requires CoverageHolds(s) && WellNumbered(h) && !s.ended && s.covered.Some?
    ensures CoverageHolds(Apply(s, Commit(h))) <==> !Displaces(s.db, s.covered.value, h)
  {
    CommitGroundsIff(s.db, h, s.covered.value);
  }

  lemma {:induction false} PromoteAllKeyed(db: Db, hs: seq<Header>)
    requires Keyed(db.cache)
    ensures Keyed(PromoteAll(db, hs).cache)
    decreases hs
  {
    if hs != [] {
      PromoteAllKeyed(Promote(db, hs[0]), hs[1..]);
    }
  }

  lemma {:induction false} WalkKeyed(db: Db, tip: Header, covered: Option<Digest>, d: Digest, env: Env)
    requires Keyed(db.cache)
    ensures Keyed(Walk(db, tip, covered, d, env).db.cache)
    decreases d
  {
    if !env.shutdown(d) && covered != Some(d) && d != GENESIS_DIGEST {
      var step := GetConsensusHeader(db, tip, d, env.replies(d));
      PromoteAllKeyed(step.db, env.commits(d));
      if step.next.Some? {
        WalkKeyed(After(db, tip, d, env), step.tip, covered, step.next.value, env);
      }
    }
  }

  /** Nothing a run does, whatever peers and executor produce, files a cached row under a number that
      is not its own. */
  lemma {:induction false} KeyedOverRuns(s: Session, events: seq<Event>)
    requires Keyed(s.db.cache)
    ensures Keyed(Run(s, events).db.cache)
  {
    if events != [] {
      var before, e := Run(s, events[..|events| - 1]), events[|events| - 1];
      KeyedOverRuns(s, events[..|events| - 1]);
      if e.Sync? && !before.ended {
        WalkKeyed(before.db, before.tip, AnchorOf(before), e.start, e.env);
      }
    }
  }

  // ----- The published tip, and how far a walk goes -----

  /** The headers a walk reads or fetches, in order. */
  function Visited(db: Db, tip: Header, covered: Option<Digest>, d: Digest, env: Env): seq<Header>
    decreases d
  {
    if env.shutdown(d) || covered == Some(d) || d == GENESIS_DIGEST then []
    else
      var step := GetConsensusHeader(db, tip, d, env.replies(d));
      if d.Of? && (GetConsensus(db, d).Some? || FetchFrom(d, env.replies(d), 0).Some?) then
        [d.header]
        + (if step.next.None? then []
           else Visited(After(db, tip, d, env), step.tip, covered, step.next.value, env))
      else []
  }

  /** The published tip ends as the highest of its old value and every header read or fetched. */
  lemma {:induction false} TipIsMaximum(db: Db, tip: Header, covered: Option<Digest>, d: Digest, env: Env)
    ensures var w, hs := Walk(db, tip, covered, d, env), Visited(db, tip, covered, d, env);
            && (w.tip == tip || tip.number < w.tip.number)
            && (forall h | h in hs :: h.number <= w.tip.number)
            && (w.tip == tip || w.tip in hs)
    decreases d
  {
    if !env.shutdown(d) && covered != Some(d) && d != GENESIS_DIGEST {
      var step := GetConsensusHeader(db, tip, d, env.replies(d));
      if step.next.Some? {
        TipIsMaximum(After(db, tip, d, env), step.tip, covered, step.next.value, env);
      }
    }
  }

  /** A walk visits consecutive numbers downwards, so it ends after at most one step per number. */
  lemma {:induction false} VisitedDescends(db: Db, tip: Header, covered: Option<Digest>, d: Digest, env: Env)
    requires DbOk(db) && NumberedEnv(env)
    ensures var hs := Visited(db, tip, covered, d, env);
            forall i | 0 <= i < |hs| :: d.Of? && hs[i].number == d.header.number - i
    ensures |Visited(db, tip, covered, d, env)| <= if d.Of? then d.header.number + 1 else 0
    decreases d
  {
    if d.Of? && !env.shutdown(d) && covered != Some(d) && d != GENESIS_DIGEST {
      var step := GetConsensusHeader(db, tip, d, env.replies(d));
      StepOk(db, tip, d.header, env);
      if step.next.Some? {
        VisitedDescends(After(db, tip, d, env), step.tip, covered, step.next.value, env);
      }
    }
  }

  lemma TipRises(s: Session, e: Event)
    ensures Apply(s, e).tip == s.tip || s.tip.number < Apply(s, e).tip.number
  {
    if e.Sync? {
      var covered := if s.covered.None? then Anchor(s.db) else s.covered;
      TipIsMaximum(s.db, s.tip, covered, e.start, e.env);
    }
  }

  lemma {:induction false} TipOverRuns(s: Session, events: seq<Event>)
    ensures Run(s, events).tip == s.tip || s.tip.number < Run(s, events).tip.number
  {
    if events != [] {
      var n := |events| - 1;
      TipOverRuns(s, events[..n]);
      TipRises(Run(s, events[..n]), events[n]);
    }
  }

}
