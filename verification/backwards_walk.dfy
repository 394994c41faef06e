/** The backwards walk of state-sync: descending parent hashes from a gossiped tip to local
    coverage, and the covered anchor a session remembers between walks. */
module BackwardsWalk {
  import opened ConsensusChain
  import opened Tables

  // ----- Storage -----

  datatype Row = Readable(header: Header) | Unreadable

  /** The canonical table, the verified-but-unprocessed cache and the digest index. */
  datatype Db = Db(canonical: map<nat, Row>, cache: map<nat, Row>, index: map<Digest, nat>)

  /** The row of `t` at `n`, if its digest is `d`. */
  function Matching(t: map<nat, Row>, n: nat, d: Digest): Option<Header> {
    if n in t && t[n].Readable? && Of(t[n].header) == d then Some(t[n].header) else None
  }

  function GetCanonical(db: Db, d: Digest): Option<Header> {
    if d in db.index then Matching(db.canonical, db.index[d], d) else None
  }

  function GetConsensus(db: Db, d: Digest): Option<Header> {
    if d !in db.index then None
    else if Matching(db.canonical, db.index[d], d).Some? then Matching(db.canonical, db.index[d], d)
    else Matching(db.cache, db.index[d], d)
  }

  function StoreInCache(db: Db, h: Header): Db {
    db.(cache := db.cache[h.number := Readable(h)], index := db.index[Of(h) := h.number])
  }

  /** The digests a commit of `h` supersedes at its number. */
  function Superseded(db: Db, h: Header): set<Digest> {
    (if h.number in db.canonical && db.canonical[h.number].Readable?
     then {Of(db.canonical[h.number].header)} else {})
    + (if h.number in db.cache && db.cache[h.number].Readable?
       then {Of(db.cache[h.number].header)} else {})
    - {Of(h)}
  }

  /** Promotes `h` to the canonical table, out of the cache. */
  function Promote(db: Db, h: Header): Db {
    Db(db.canonical[h.number := Readable(h)],
       db.cache - {h.number},
       db.index[Of(h) := h.number] - Superseded(db, h))
  }

  /** The executor's commits while a walk awaits, in order. */
  function PromoteAll(db: Db, hs: seq<Header>): Db
    decreases hs
  {
    if hs == [] then db else PromoteAll(Promote(db, hs[0]), hs[1..])
  }

  // ----- The environment of one walk -----

  /** One fetch attempt: no answer, a shutdown noticed before it, or a header from a peer. The
      peer is free to answer anything; `keysArrive` and `verified` are the outcomes of waiting
      for the committee keys and of the signature check, `stored` that of the cache write. */
  datatype Reply =
    | Failed
    | Stopped
    | Answer(header: Header, keysArrive: bool, verified: bool, stored: bool)

  /** What a walk meets while it stands at each digest. */
  datatype Env = Env(
    shutdown: Digest -> bool,
    replies: Digest -> seq<Reply>,
    commits: Digest -> seq<Header>)

  const ATTEMPTS := 3

  datatype Fetched = Fetched(header: Header, stored: bool)

  /** What the fetch of `d` yields from attempt `i` on. */
  function FetchFrom(d: Digest, replies: seq<Reply>, i: nat): (r: Option<Fetched>)
    ensures r.Some? ==> Of(r.value.header) == d
    decreases ATTEMPTS - i
  {
    if i >= ATTEMPTS || i >= |replies| then None
    else match replies[i]
      case Stopped => None
      case Failed => FetchFrom(d, replies, i + 1)
      case Answer(h, keysArrive, verified, stored) =>
        if Of(h) != d then FetchFrom(d, replies, i + 1)
        else if keysArrive && verified then Some(Fetched(h, stored))
        else None
  }

  // ----- The walk -----

  /** The published tip after `h` was read or fetched. */
  function Republish(tip: Header, h: Header): Header {
    if h.number > tip.number then h else tip
  }

  datatype Descent = Descent(db: Db, tip: Header, next: Option<Digest>)

  /** One step down: stop at the canonical chain, traverse a stored header or fetch one. */
  function GetConsensusHeader(db: Db, tip: Header, d: Digest, replies: seq<Reply>): (r: Descent)
    ensures r.next.Some? ==> d.Of? && r.next.value == d.header.parent
  {
    match GetCanonical(db, d)
    case Some(block) => Descent(db, Republish(tip, block), None)
    case None =>
      match GetConsensus(db, d)
      case Some(cached) => Descent(db, Republish(tip, cached), Some(cached.parent))
      case None =>
        match FetchFrom(d, replies, 0)
        case None => Descent(db, tip, None)
        case Some(f) =>
          Descent(if f.stored then StoreInCache(db, f.header) else db,
                  Republish(tip, f.header), Some(f.header.parent))
  }

  datatype Outcome = Covered | Incomplete | Shutdown

  datatype Walked = Walked(db: Db, tip: Header, outcome: Outcome)

  function Walk(db: Db, tip: Header, covered: Option<Digest>, current: Digest, env: Env): Walked
    decreases current
  {
    if env.shutdown(current) then Walked(db, tip, Shutdown)
    else if covered == Some(current) || current == GENESIS_DIGEST then Walked(db, tip, Covered)
    else
      var step := GetConsensusHeader(db, tip, current, env.replies(current));
      var db' := PromoteAll(step.db, env.commits(current));
      match step.next
      case Some(parent) => Walk(db', step.tip, covered, parent, env)
      case None =>
        Walked(db', step.tip, if GetCanonical(db', current).Some? then Covered else Incomplete)
  }

  // ----- The anchor recovered from the cache -----

  /** What sweeping the rows `rest` in key order finds: rows numbered below the expected `n` are
      stale, a row that is unreadable, further on or not a child of `head` ends the sweep. */
  function Swept(rows: map<nat, Row>, rest: set<nat>, head: Digest, n: nat, anchor: Option<Digest>): Option<Digest>
    requires rest <= rows.Keys
    decreases rest
  {
    if rest == {} then anchor
    else
      match rows[Min(rest)]
      case Unreadable => anchor
      case Readable(h) =>
        if h.number < n then Swept(rows, rest - {Min(rest)}, head, n, anchor)
        else if h.number != n || h.parent != head then anchor
        else Swept(rows, rest - {Min(rest)}, Of(h), n + 1, Some(Of(h)))
  }

  /** The digest and number above which the cache is climbed; `None` for an unreadable tip. */
  function Base(db: Db): Option<(Digest, nat)> {
    if db.canonical.Keys == {} then Some((GENESIS_DIGEST, 1))
    else match db.canonical[Last(db.canonical.Keys)]
      case Readable(h) => Some((Of(h), h.number + 1))
      case Unreadable => None
  }

  function Anchor(db: Db): Option<Digest> {
    match Base(db)
    case None => None
    case Some((parent, n)) => Swept(db.cache, db.cache.Keys, parent, n, None)
  }

  // ----- Sessions -----

  /** A tracker session and the node state it works on. `ended`: the tracker was told to exit. */
  datatype Session = Session(db: Db, tip: Header, covered: Option<Digest>, ended: bool)

  function Synced(s: Session, start: Digest, env: Env): Session {
    var covered := if s.covered.None? then Anchor(s.db) else s.covered;
    var w := Walk(s.db, s.tip, covered, start, env);
    match w.outcome
    case Covered => Session(w.db, w.tip, Some(start), s.ended)
    case Incomplete => Session(w.db, w.tip, None, s.ended)
    case Shutdown => Session(w.db, w.tip, covered, true)
  }

  datatype Event =
    | Sync(start: Digest, env: Env)   // one walk; a session that ended makes none
    | Commit(header: Header)          // the executor promotes a header between walks
    | Restart                         // a fresh session on the persisted state

  function Apply(s: Session, e: Event): Session {
    match e
    case Sync(start, env) => if s.ended then s else Synced(s, start, env)
    case Commit(h) => s.(db := Promote(s.db, h))
    case Restart => s.(covered := None, ended := false)
  }

  function Run(s: Session, events: seq<Event>): Session {
    if events == [] then s
    else Apply(Run(s, events[..|events| - 1]), events[|events| - 1])
  }

  // ----- The running code, proved against the functions above -----

  method FetchHeader(d: Digest, replies: seq<Reply>) returns (r: Option<Fetched>)
    ensures r == FetchFrom(d, replies, 0)
  {
    for attempt := 0 to ATTEMPTS
      invariant FetchFrom(d, replies, 0) == FetchFrom(d, replies, attempt)
    {
      if attempt >= |replies| {
        return None;
      }
      match replies[attempt] {
        case Stopped => return None;
        case Failed =>
        case Answer(h, keysArrive, verified, stored) =>
          if Of(h) == d {
            if !keysArrive || !verified {
              return None;
            }
            return Some(Fetched(h, stored));
          }
      }
    }
    return None;
  }

  /** Sweeps the cached rows in key order, keeping the head of the chain proved so far. */
  method Sweep(cache: map<nat, Row>, parent: Digest, n: nat) returns (anchor: Option<Digest>)
    ensures anchor == Swept(cache, cache.Keys, parent, n, None)
  {
    var head, m, rest := parent, n, cache.Keys;
    anchor := None;
    while rest != {}
      invariant rest <= cache.Keys
      invariant Swept(cache, cache.Keys, parent, n, None) == Swept(cache, rest, head, m, anchor)
      decreases rest
    {
      var k := Min(rest);
      var row := cache[k];
      if row.Unreadable? {
        return;
      }
      if row.header.number >= m {
        if row.header.number != m || row.header.parent != head {
          return;
        }
        head, m, anchor := Of(row.header), m + 1, Some(Of(row.header));
      }
      rest := rest - {k};
    }
  }

  method DeriveCoveredAnchor(db: Db) returns (anchor: Option<Digest>)
    ensures anchor == Anchor(db)
  {
    var base := Base(db);
    if base.None? {
      return None;
    }
    anchor := Sweep(db.cache, base.value.0, base.value.1);
  }

  /** One tracker session of backwards walks over the node's tables and published tip. */
  class WalkSession {
    var db: Db
    var tip: Header
    var covered: Option<Digest>
    var ended: bool

    constructor (db: Db, tip: Header)
      ensures State() == Session(db, tip, None, false)
    {
      this.db, this.tip, this.covered, this.ended := db, tip, None, false;
    }

    function State(): Session
      reads this
    {
      Session(db, tip, covered, ended)
    }

    method RepublishIfHigher(h: Header)
      modifies this`tip
      ensures tip == Republish(old(tip), h)
    {
      if h.number > tip.number {
        tip := h;
      }
    }

    method Descend(d: Digest, env: Env) returns (next: Option<Digest>)
      modifies this`db, this`tip
      ensures var r := GetConsensusHeader(old(db), old(tip), d, env.replies(d));
              db == r.db && tip == r.tip && next == r.next
    {
      var block := GetCanonical(db, d);
      if block.Some? {
        RepublishIfHigher(block.value);
        return None;
      }
      var cached := GetConsensus(db, d);
      if cached.Some? {
        RepublishIfHigher(cached.value);
        return Some(cached.value.parent);
      }
      var f := FetchHeader(d, env.replies(d));
      if f.None? {
        return None;
      }
      if f.value.stored {
        db := StoreInCache(db, f.value.header);
      }
      RepublishIfHigher(f.value.header);
      return Some(f.value.header.parent);
    }

    /** Descends parent hashes from `start` until reaching local coverage. */
    method WalkDown(start: Digest, env: Env) returns (outcome: Outcome)
      modifies this`db, this`tip
      ensures Walk(old(db), old(tip), covered, start, env) == Walked(db, tip, outcome)
    {
      var current := start;
      while true
        invariant Walk(old(db), old(tip), covered, start, env) == Walk(db, tip, covered, current, env)
        decreases current
      {
        if env.shutdown(current) {
          return Shutdown;
        }
        if covered == Some(current) || current == GENESIS_DIGEST {
          return Covered;
        }
        var next := Descend(current, env);
        db := PromoteAll(db, env.commits(current));
        if next.None? {
          return if GetCanonical(db, current).Some? then Covered else Incomplete;
        }
        current := next.value;
      }
    }

    /** Walks to local coverage and records the result; false when the tracker must exit. */
    method SyncTo(start: Digest, env: Env) returns (goOn: bool)
      modifies this
      ensures State() == Synced(old(State()), start, env)
      ensures goOn <==> Walk(old(db), old(tip), if old(covered).None? then Anchor(old(db)) else old(covered), start, env).outcome != Shutdown
    {
      if covered.None? {
        covered := DeriveCoveredAnchor(db);
      }
      var outcome := WalkDown(start, env);
      match outcome {
        case Covered => covered := Some(start); goOn := true;
        case Incomplete => covered := None; goOn := true;
        case Shutdown => ended := true; goOn := false;
      }
    }
  }
}
