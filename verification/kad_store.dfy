/** The Kademlia record store: cached counters and provider lists over a fallible database. */
module KadStore {
  import opened Tables

  type Key = nat
  type Peer = nat

  const MAX_VALUE_BYTES: nat := 65 * 1024
  const MAX_RECORDS: nat := 1024
  const MAX_PROVIDED_KEYS: nat := 1024
  const MAX_PROVIDERS_PER_KEY: nat := 20

  datatype Record = Record(value: seq<bv8>, publisher: Option<Peer>)

  datatype Provider = Provider(peer: Peer, info: nat)

  datatype StoreType = Primary | Worker

  /** The tables of one store type. */
  datatype Rows = Rows(records: map<Key, Record>, providers: map<Key, seq<Provider>>)

  datatype Db = Db(primary: Rows, worker: Rows)

  /** What the database does to one operation's reads and writes; a failed write writes nothing. */
  datatype Fault = Fault(read: bool, write: bool)

  datatype Error = ValueTooLarge | MaxRecords | MaxProvidedKeys

  datatype Answer = Ok | Err(error: Error)

  function RowsOf(db: Db, kind: StoreType): Rows {
    if kind.Primary? then db.primary else db.worker
  }

  function With(db: Db, kind: StoreType, rows: Rows): Db {
    if kind.Primary? then db.(primary := rows) else db.(worker := rows)
  }

  function Other(kind: StoreType): StoreType {
    if kind.Primary? then Worker else Primary
  }

  datatype State = State(kind: StoreType, db: Db, numRecords: nat, numProviders: nat) {
    function Rows(): Rows {
      RowsOf(db, kind)
    }

    function WithRecords(records: map<Key, Record>): State {
      this.(db := With(db, kind, Rows().(records := records)))
    }

    function WithProviders(providers: map<Key, seq<Provider>>): State {
      this.(db := With(db, kind, Rows().(providers := providers)))
    }
  }

  // ----- The operations -----

  function Put(s: State, key: Key, r: Record, f: Fault): (State, Answer) {
    if |r.value| >= MAX_VALUE_BYTES || f.read then (s, Err(ValueTooLarge))
    else if key !in s.Rows().records && s.numRecords >= MAX_RECORDS then (s, Err(MaxRecords))
    else if f.write then (s, Err(ValueTooLarge))
    else
      var s' := s.WithRecords(s.Rows().records[key := r]);
      (if key in s.Rows().records then s' else s'.(numRecords := s.numRecords + 1), Ok)
  }

  function Less(n: nat): nat {
    if n == 0 then 0 else n - 1
  }

  function Remove(s: State, key: Key, f: Fault): State {
    if f.read || f.write || key !in s.Rows().records then s
    else s.WithRecords(s.Rows().records - {key}).(numRecords := Less(s.numRecords))
  }

  /** What becomes of a listed entry when `p` is added. */
  function Entry(q: Provider, p: Provider): Provider {
    if q.peer == p.peer then p else q
  }

  function Replaced(ps: seq<Provider>, p: Provider): (r: seq<Provider>)
    ensures |r| == |ps|
  {
    seq(|ps|, i requires 0 <= i < |ps| => Entry(ps[i], p))
  }

  predicate Lists(ps: seq<Provider>, peer: Peer) {
    exists p | p in ps :: p.peer == peer
  }

  function AddProvider(s: State, key: Key, p: Provider, f: Fault): (State, Answer) {
    var rows := s.Rows();
    if s.numProviders == MAX_PROVIDED_KEYS then (s, Err(MaxProvidedKeys))
    else if !f.read && key in rows.providers then
      var ps := rows.providers[key];
      if !Lists(ps, p.peer) && |ps| >= MAX_PROVIDERS_PER_KEY then (s, Err(MaxProvidedKeys))
      else if f.write then (s, Err(ValueTooLarge))
      else
        var ps' := if Lists(ps, p.peer) then Replaced(ps, p) else ps + [p];
        (s.WithProviders(rows.providers[key := ps']), Ok)
    else if f.write then (s, Err(ValueTooLarge))
    else (s.WithProviders(rows.providers[key := [p]]).(numProviders := s.numProviders + 1), Ok)
  }

  function Without(ps: seq<Provider>, peer: Peer): seq<Provider> {
    if ps == [] then []
    else
      var init, last := Without(ps[..|ps| - 1], peer), ps[|ps| - 1];
      if last.peer == peer then init else init + [last]
  }

  function RemoveProvider(s: State, key: Key, peer: Peer, f: Fault): State {
    var rows := s.Rows();
    if f.read || f.write || key !in rows.providers then s
    else
      var ps := Without(rows.providers[key], peer);
      if ps == [] then s.WithProviders(rows.providers - {key}).(numProviders := Less(s.numProviders))
      else s.WithProviders(rows.providers[key := ps])
  }

  // ----- The running store -----

  class Store {
    const kind: StoreType
    var db: Db
    var numRecords: nat
    var numProviders: nat

    /** Counts what the database already holds; an unreadable one counts as empty. */
    constructor (db: Db, kind: StoreType, readFails: bool)
      ensures this.kind == kind && this.db == db
      ensures numRecords == if readFails then 0 else |RowsOf(db, kind).records|
      ensures numProviders == if readFails then 0 else |RowsOf(db, kind).providers|
    {
      this.db, this.kind := db, kind;
      numRecords := if readFails then 0 else |RowsOf(db, kind).records|;
      numProviders := if readFails then 0 else |RowsOf(db, kind).providers|;
    }

    function View(): State
      reads this
    {
      State(kind, db, numRecords, numProviders)
    }

    method PutRecord(key: Key, r: Record, f: Fault) returns (answer: Answer)
      modifies this
      ensures (View(), answer) == Put(old(View()), key, r, f)
    {
      if |r.value| >= MAX_VALUE_BYTES {
        return Err(ValueTooLarge);
      }
      if f.read {
        return Err(ValueTooLarge);
      }
      var rows := RowsOf(db, kind);
      var isNew := key !in rows.records;
      if isNew && numRecords >= MAX_RECORDS {
        return Err(MaxRecords);
      }
      if f.write {
        return Err(ValueTooLarge);
      }
      db := With(db, kind, rows.(records := rows.records[key := r]));
      if isNew {
        numRecords := numRecords + 1;
      }
      answer := Ok;
    }

    method RemoveRecord(key: Key, f: Fault)
      modifies this
      ensures View() == Remove(old(View()), key, f)
    {
      var rows := RowsOf(db, kind);
      var existed := !f.read && key in rows.records;
      if !existed {
        return;
      }
      if !f.write {
        db := With(db, kind, rows.(records := rows.records - {key}));
        numRecords := Less(numRecords);
      }
    }

    method AddProviderRecord(key: Key, p: Provider, f: Fault) returns (answer: Answer)
      modifies this
      ensures (View(), answer) == AddProvider(old(View()), key, p, f)
    {
      if MAX_PROVIDED_KEYS == numProviders {
        return Err(MaxProvidedKeys);
      }
      var rows := RowsOf(db, kind);
      var increases := false;
      var ps := [p];
      if !f.read && key in rows.providers {
        var found;
        ps, found := ReplaceListed(rows.providers[key], p);
        if !found {
          if |ps| >= MAX_PROVIDERS_PER_KEY {
            return Err(MaxProvidedKeys);
          }
          ps := ps + [p];
        }
      } else {
        increases := true;
      }
      if f.write {
        return Err(ValueTooLarge);
      }
      db := With(db, kind, rows.(providers := rows.providers[key := ps]));
      if increases {
        numProviders := numProviders + 1;
      }
      answer := Ok;
    }

    method RemoveProviderRecord(key: Key, peer: Peer, f: Fault)
      modifies this
      ensures View() == RemoveProvider(old(View()), key, peer, f)
    {
      var rows := RowsOf(db, kind);
      if !f.read && key in rows.providers {
        var ps := DropListed(rows.providers[key], peer);
        if ps == [] {
          if !f.write {
            db := With(db, kind, rows.(providers := rows.providers - {key}));
            numProviders := Less(numProviders);
          }
        } else if !f.write {
          db := With(db, kind, rows.(providers := rows.providers[key := ps]));
        }
      }
    }
  }

  /** Replaces the entries of the provider's peer in place. */
  method ReplaceListed(ps: seq<Provider>, p: Provider) returns (r: seq<Provider>, found: bool)
    ensures found <==> Lists(ps, p.peer)
    ensures r == Replaced(ps, p)
    ensures !found ==> r == ps
  {
    r, found := ps, false;
    for i := 0 to |ps|
      invariant |r| == |ps| && forall k | 0 <= k < |ps| :: r[k] == if k < i then Entry(ps[k], p) else ps[k]
      invariant found ==> Lists(ps, p.peer)
      invariant !found ==> r == ps && forall k | 0 <= k < i :: ps[k].peer != p.peer
    {
      if ps[i].peer == p.peer {
        r, found := r[i := p], true;
      }
    }
  }

  method DropListed(ps: seq<Provider>, peer: Peer) returns (r: seq<Provider>)
    ensures r == Without(ps, peer)
  {
    r := [];
    for i := 0 to |ps|
      invariant r == Without(ps[..i], peer)
    {
      assert ps[..i + 1][..i] == ps[..i];
      if ps[i].peer != peer {
        r := r + [ps[i]];
      }
    }
    assert ps[..|ps|] == ps;
  }

  // ----- What every operation keeps -----

  predicate Distinct(ps: seq<Provider>) {
    forall i, j | 0 <= i < j < |ps| :: ps[i].peer != ps[j].peer
  }

  predicate ListOk(ps: seq<Provider>) {
    ps != [] && |ps| <= MAX_PROVIDERS_PER_KEY && Distinct(ps)
  }

  predicate RecordsCounted(s: State) {
    s.numRecords == |s.Rows().records| <= MAX_RECORDS
  }

  predicate ProvidersCounted(s: State) {
    && s.numProviders == |s.Rows().providers| <= MAX_PROVIDED_KEYS
    && forall key | key in s.Rows().providers :: ListOk(s.Rows().providers[key])
  }

  lemma KeyAdded<V>(m: map<Key, V>, key: Key, v: V)
    ensures |m[key := v]| == if key in m then |m| else |m| + 1
  {
    assert m[key := v].Keys == m.Keys + {key};
  }

  lemma KeyRemoved<V>(m: map<Key, V>, key: Key)
    requires key in m
    ensures |m - {key}| == |m| - 1
  {
    assert (m - {key}).Keys == m.Keys - {key};
  }

  lemma PutKeeps(s: State, key: Key, r: Record, f: Fault)
    requires RecordsCounted(s)
    ensures RecordsCounted(Put(s, key, r, f).0)
  {
    KeyAdded(s.Rows().records, key, r);
  }

  lemma RemoveKeeps(s: State, key: Key, f: Fault)
    requires RecordsCounted(s)
    ensures RecordsCounted(Remove(s, key, f))
  {
    if key in s.Rows().records {
      KeyRemoved(s.Rows().records, key);
    }
  }

  lemma ReplacedOk(ps: seq<Provider>, p: Provider)
    requires ListOk(ps)
    ensures ListOk(Replaced(ps, p))
  {
    var r := Replaced(ps, p);
    assert forall i | 0 <= i < |r| :: r[i].peer == ps[i].peer;
  }

  lemma {:induction false} WithoutOk(ps: seq<Provider>, peer: Peer)
    ensures |Without(ps, peer)| <= |ps|
    ensures forall p :: p in Without(ps, peer) <==> p in ps && p.peer != peer
    ensures Distinct(ps) ==> Distinct(Without(ps, peer))
  {
    if ps != [] {
      var init, last := ps[..|ps| - 1], ps[|ps| - 1];
      WithoutOk(init, peer);
      assert ps == init + [last];
      if Distinct(ps) && last.peer != peer {
        assert forall p | p in init :: p.peer != last.peer;
      }
    }
  }

  // ----- Runs -----

  datatype Op =
    | OpPut(key: Key, record: Record, fault: Fault)
    | OpRemove(key: Key, fault: Fault)
    | OpAdd(key: Key, provider: Provider, fault: Fault)
    | OpDrop(key: Key, peer: Peer, fault: Fault)

  function Apply(s: State, op: Op): State {
    match op
    case OpPut(key, r, f) => Put(s, key, r, f).0
    case OpRemove(key, f) => Remove(s, key, f)
    case OpAdd(key, p, f) => AddProvider(s, key, p, f).0
    case OpDrop(key, peer, f) => RemoveProvider(s, key, peer, f)
  }

  function Run(s: State, ops: seq<Op>): State {
    if ops == [] then s else Apply(Run(s, ops[..|ops| - 1]), ops[|ops| - 1])
  }

  /** The record counter tracks the table through every run, whatever reads and writes fail, and the
      other store type's tables are never touched. */
  lemma {:induction false} RecordsCountedOverRuns(s: State, ops: seq<Op>)
    requires RecordsCounted(s)
    ensures RecordsCounted(Run(s, ops))
    ensures Run(s, ops).kind == s.kind && RowsOf(Run(s, ops).db, Other(s.kind)) == RowsOf(s.db, Other(s.kind))
  {
    if ops != [] {
      var before, op := Run(s, ops[..|ops| - 1]), ops[|ops| - 1];
      RecordsCountedOverRuns(s, ops[..|ops| - 1]);
      match op {
        case OpPut(key, r, f) => PutKeeps(before, key, r, f);
        case OpRemove(key, f) => RemoveKeeps(before, key, f);
        case OpAdd(_, _, _) =>
        case OpDrop(_, _, _) =>
      }
    }
  }

  /** The operation counts a provided key that is already counted: the key cannot be read, so it is
      taken for new and its list overwritten. */
  predicate Overcounts(s: State, op: Op) {
    && op.OpAdd? && op.fault.read && !op.fault.write
    && op.key in s.Rows().providers && s.numProviders != MAX_PROVIDED_KEYS
  }

  function Overcounted(s: State, ops: seq<Op>): nat {
    if ops == [] then 0
    else
      var init, op := ops[..|ops| - 1], ops[|ops| - 1];
      Overcounted(s, init) + if Overcounts(Run(s, init), op) then 1 else 0
  }

  /** The counter is `n` ahead of the table, within the cap, and the lists are right. */
  ghost predicate Ahead(s: State, n: nat) {
    && s.numProviders == |s.Rows().providers| + n <= MAX_PROVIDED_KEYS
    && forall key | key in s.Rows().providers :: ListOk(s.Rows().providers[key])
  }

  lemma AddAhead(s: State, n: nat, key: Key, p: Provider, f: Fault)
    requires Ahead(s, n)
    ensures Ahead(AddProvider(s, key, p, f).0, if Overcounts(s, OpAdd(key, p, f)) then n + 1 else n)
  {
    var providers := s.Rows().providers;
    KeyAdded(providers, key, [p]);
    if !f.read && key in providers {
      var ps := providers[key];
      ReplacedOk(ps, p);
      KeyAdded(providers, key, Replaced(ps, p));
      KeyAdded(providers, key, ps + [p]);
    }
  }

  /** Adding a provider keeps the counter and the lists right, except where an unreadable key that is
      already there is counted and overwritten again. */
  lemma AddProviderKeeps(s: State, key: Key, p: Provider, f: Fault)
    requires ProvidersCounted(s)
    ensures ProvidersCounted(AddProvider(s, key, p, f).0) <==>
            !(f.read && !f.write && key in s.Rows().providers && s.numProviders != MAX_PROVIDED_KEYS)
  {
    AddAhead(s, 0, key, p, f);
  }

  lemma DropAhead(s: State, n: nat, key: Key, peer: Peer, f: Fault)
    requires Ahead(s, n)
    ensures Ahead(RemoveProvider(s, key, peer, f), n)
  {
    var providers := s.Rows().providers;
    if key in providers {
      WithoutOk(providers[key], peer);
      KeyRemoved(providers, key);
      KeyAdded(providers, key, Without(providers[key], peer));
    }
  }

  lemma StepAhead(s: State, n: nat, op: Op)
    requires Ahead(s, n)
    ensures Ahead(Apply(s, op), if Overcounts(s, op) then n + 1 else n)
  {
    match op
    case OpPut(_, _, _) => ApartStep(s, op);
    case OpRemove(_, _) => ApartStep(s, op);
    case OpAdd(key, p, f) => AddAhead(s, n, key, p, f);
    case OpDrop(key, peer, f) => DropAhead(s, n, key, peer, f);
  }

  /** Over every run, whatever fails, the provider counter is ahead of the table by exactly the number
      of keys counted again, so that it is right exactly when none was; the lists stay right. */
  lemma {:induction false} CounterDrift(s: State, ops: seq<Op>)
    requires ProvidersCounted(s)
    ensures Ahead(Run(s, ops), Overcounted(s, ops))
    ensures ProvidersCounted(Run(s, ops)) <==> Overcounted(s, ops) == 0
  {
    if ops != [] {
      var init := ops[..|ops| - 1];
      CounterDrift(s, init);
      StepAhead(Run(s, init), Overcounted(s, init), ops[|ops| - 1]);
    }
  }

  lemma {:induction false} NoneOvercounted(s: State, ops: seq<Op>)
    requires forall op | op in ops :: op.OpAdd? ==> !op.fault.read
    ensures Overcounted(s, ops) == 0
  {
    if ops != [] {
      NoneOvercounted(s, ops[..|ops| - 1]);
      assert ops[|ops| - 1] in ops;
    }
  }

  /** The provider counter tracks the table through every run whose provider reads succeed, writes
      failing or not, and every provider list stays non-empty, bounded and free of duplicates. */
  lemma ProvidersCountedOverRuns(s: State, ops: seq<Op>)
    requires ProvidersCounted(s) && forall op | op in ops :: op.OpAdd? ==> !op.fault.read
    ensures ProvidersCounted(Run(s, ops))
  {
    NoneOvercounted(s, ops);
    CounterDrift(s, ops);
  }

  predicate WithinCap(s: State, ops: seq<Op>) {
    Run(s, ops).numProviders <= MAX_PROVIDED_KEYS
  }

  /** The cap on provided keys holds over every run, faults and all, exactly when the counter starts
      within it: the check is for meeting the cap, not for being past it. */
  lemma CapHoldsIffFromBelow(s: State)
    ensures (forall ops :: WithinCap(s, ops)) <==> s.numProviders <= MAX_PROVIDED_KEYS
  {
    var none: seq<Op> := [];
    assert WithinCap(s, none) == (s.numProviders <= MAX_PROVIDED_KEYS);
    if s.numProviders <= MAX_PROVIDED_KEYS {
      forall ops
        ensures WithinCap(s, ops)
      {
        CapHolds(s, ops);
      }
    }
  }

  lemma {:induction false} CapHolds(s: State, ops: seq<Op>)
    requires s.numProviders <= MAX_PROVIDED_KEYS
    ensures WithinCap(s, ops)
  {
    if ops != [] {
      CapHolds(s, ops[..|ops| - 1]);
    }
  }

  lemma {:induction false} Bound(keys: set<Key>) returns (bound: nat)
    ensures forall key | key in keys :: key < bound
    decreases |keys|
  {
    bound := 0;
    if key :| key in keys {
      var rest := Bound(keys - {key});
      bound := if key < rest then rest else key + 1;
      assert forall k | k in keys :: k == key || k in keys - {key};
    }
  }

  /** A store counted above the cap takes new keys without end. */
  lemma {:induction false} AboveCapGrows(s: State, p: Provider, n: nat) returns (ops: seq<Op>)
    requires s.numProviders > MAX_PROVIDED_KEYS
    ensures |ops| == n
    ensures Run(s, ops).numProviders == s.numProviders + n && |Run(s, ops).Rows().providers| == |s.Rows().providers| + n
  {
    ops := [];
    if n > 0 {
      var init := AboveCapGrows(s, p, n - 1);
      var before := Run(s, init);
      var key := Bound(before.Rows().providers.Keys);
      ops := init + [OpAdd(key, p, Fault(false, false))];
      assert ops[..|ops| - 1] == init;
      KeyAdded(before.Rows().providers, key, [p]);
    }
  }

  /** A store at the cap takes no provider, not even a refresh of one it lists, until one is removed. */
  lemma {:induction false} FullStoreIsFrozen(s: State, ops: seq<Op>)
    requires s.numProviders == MAX_PROVIDED_KEYS && forall op | op in ops :: !op.OpDrop?
    ensures Run(s, ops).numProviders == MAX_PROVIDED_KEYS && Run(s, ops).Rows().providers == s.Rows().providers
    ensures Run(s, ops).kind == s.kind
  {
    if ops != [] {
      FullStoreIsFrozen(s, ops[..|ops| - 1]);
    }
  }

  lemma ApartStep(s: State, op: Op)
    ensures var s' := Apply(s, op);
            && s'.kind == s.kind
            && (op.OpPut? || op.OpRemove? ==>
                  s'.Rows().providers == s.Rows().providers && s'.numProviders == s.numProviders)
            && (op.OpAdd? || op.OpDrop? ==> s'.Rows().records == s.Rows().records && s'.numRecords == s.numRecords)
  {
  }

  /** Whatever runs among them, operations on records leave the provider table and its counter as
      they were, and operations on providers the record table and its counter. */
  lemma {:induction false} TablesAreApart(s: State, ops: seq<Op>)
    ensures (forall op | op in ops :: op.OpPut? || op.OpRemove?) ==>
              Run(s, ops).Rows().providers == s.Rows().providers && Run(s, ops).numProviders == s.numProviders
    ensures (forall op | op in ops :: op.OpAdd? || op.OpDrop?) ==>
              Run(s, ops).Rows().records == s.Rows().records && Run(s, ops).numRecords == s.numRecords
    ensures Run(s, ops).kind == s.kind
  {
    if ops != [] {
      var init, op := ops[..|ops| - 1], ops[|ops| - 1];
      TablesAreApart(s, init);
      ApartStep(Run(s, init), op);
      assert op in ops && forall o | o in init :: o in ops;
    }
  }

  // ----- What the operations are for -----

  ghost function Entries(s: State, key: Key): set<Provider> {
    if key in s.Rows().providers then ToSet(s.Rows().providers[key]) else {}
  }

  /** An added provider is taken unless the database does not write, the store is at its cap of keys, or
      the key's list is known, full and without an entry of the peer. */
  ghost predicate Takes(s: State, key: Key, p: Provider, f: Fault) {
    && !f.write && s.numProviders != MAX_PROVIDED_KEYS
    && (f.read || key !in s.Rows().providers || |s.Rows().providers[key]| < MAX_PROVIDERS_PER_KEY
        || exists q | q in Entries(s, key) :: q.peer == p.peer)
  }

  lemma ReplacedHolds(ps: seq<Provider>, p: Provider, q: Provider)
    ensures q in Replaced(ps, p) <==> (q == p && Lists(ps, p.peer)) || (q in ps && q.peer != p.peer)
  {
    if i :| 0 <= i < |ps| && ps[i].peer == p.peer {
      assert Replaced(ps, p)[i] == p;
    }
    if j :| 0 <= j < |ps| && ps[j] == q && q.peer != p.peer {
      assert Replaced(ps, p)[j] == q;
    }
  }

  /** A provider that is taken is its key's one entry for that peer, and no other entry changes, except
      that a list that could not be read is lost; one that is refused changes nothing. */
  lemma AddedProviderIsListed(s: State, key: Key, p: Provider, f: Fault)
    ensures var answer := AddProvider(s, key, p, f).1;
            && (answer == Ok <==> Takes(s, key, p, f))
            && (answer == Err(ValueTooLarge) <==> f.write && Takes(s, key, p, f.(write := false)))
            && answer != Err(MaxRecords)
    ensures var s' := AddProvider(s, key, p, f).0;
            && (Takes(s, key, p, f) ==>
                  forall q :: q in Entries(s', key) <==> q == p || (!f.read && q in Entries(s, key) && q.peer != p.peer))
            && (!Takes(s, key, p, f) ==> s' == s)
            && forall k | k != key :: Entries(s', k) == Entries(s, k)
  {
    if !f.read && key in s.Rows().providers {
      forall q {
        ReplacedHolds(s.Rows().providers[key], p, q);
      }
    }
  }

  /** A dropped provider is gone and the key's other providers stay. */
  lemma DroppedProviderIsGone(s: State, key: Key, peer: Peer, f: Fault)
    requires !f.read && !f.write
    ensures var s' := RemoveProvider(s, key, peer, f);
            && (forall q :: q in Entries(s', key) <==> q in Entries(s, key) && q.peer != peer)
            && forall k | k != key :: Entries(s', k) == Entries(s, k)
  {
    if key in s.Rows().providers {
      WithoutOk(s.Rows().providers[key], peer);
    }
  }

  /** A removed record is gone, and storing it again gives back the store it was removed from. */
  lemma RemovedRecordIsGone(s: State, key: Key, f: Fault)
    requires RecordsCounted(s) && !f.read && !f.write
    ensures key !in Remove(s, key, f).Rows().records
    ensures forall k | k != key :: k in Remove(s, key, f).Rows().records <==> k in s.Rows().records
    ensures key in s.Rows().records && |s.Rows().records[key].value| < MAX_VALUE_BYTES ==>
              Put(Remove(s, key, f), key, s.Rows().records[key], f) == (s, Ok)
  {
    if key in s.Rows().records {
      KeyRemoved(s.Rows().records, key);
      assert (s.Rows().records - {key})[key := s.Rows().records[key]] == s.Rows().records;
    }
  }

  /** The operation, done to `s`, decides the key's entry of the peer: a provider of the peer is taken, the
      list is lost to one that is taken unread, or the peer is dropped. */
  ghost predicate Touches(s: State, op: Op, key: Key, peer: Peer) {
    match op
    case OpAdd(k, p, f) => k == key && Takes(s, k, p, f) && (p.peer == peer || f.read)
    case OpDrop(k, who, f) => k == key && who == peer && !f.read && !f.write
    case _ => false
  }

  lemma EntryStep(s: State, op: Op, key: Key, q: Provider)
    ensures q in Entries(Apply(s, op), key) <==>
            if Touches(s, op, key, q.peer) then op.OpAdd? && op.provider == q else q in Entries(s, key)
  {
    match op
    case OpAdd(k, p, f) => AddedProviderIsListed(s, k, p, f);
    case OpDrop(k, peer, f) =>
      if !f.read && !f.write {
        DroppedProviderIsGone(s, k, peer, f);
      }
    case _ => ApartStep(s, op);
  }

  ghost predicate TouchesAt(s: State, ops: seq<Op>, i: nat, key: Key, peer: Peer)
    requires i < |ops|
  {
    Touches(Run(s, ops[..i]), ops[i], key, peer)
  }

  ghost predicate Untouched(s: State, ops: seq<Op>, from: nat, key: Key, peer: Peer) {
    forall j | from <= j < |ops| :: !TouchesAt(s, ops, j, key, peer)
  }

  lemma UntouchedBefore(s: State, ops: seq<Op>, from: nat, key: Key, peer: Peer)
    requires from < |ops| && Untouched(s, ops, from, key, peer)
    ensures Untouched(s, ops[..|ops| - 1], from, key, peer) && !Touches(Run(s, ops[..|ops| - 1]), ops[|ops| - 1], key, peer)
  {
    var n := |ops| - 1;
    assert !TouchesAt(s, ops, n, key, peer);
    forall j | from <= j < n
      ensures !TouchesAt(s, ops[..n], j, key, peer)
    {
      assert !TouchesAt(s, ops, j, key, peer) && ops[..n][..j] == ops[..j];
    }
  }

  lemma {:induction false} EntryStays(s: State, ops: seq<Op>, from: nat, key: Key, q: Provider)
    requires from <= |ops| && Untouched(s, ops, from, key, q.peer)
    ensures q in Entries(Run(s, ops), key) <==> q in Entries(Run(s, ops[..from]), key)
  {
    if from == |ops| {
      assert ops[..from] == ops;
    } else {
      var n := |ops| - 1;
      UntouchedBefore(s, ops, from, key, q.peer);
      EntryStays(s, ops[..n], from, key, q);
      assert ops[..n][..from] == ops[..from];
      EntryStep(Run(s, ops[..n]), ops[n], key, q);
    }
  }

  lemma LastTouchStands(s: State, ops: seq<Op>, i: nat, key: Key, q: Provider)
    requires i < |ops| && TouchesAt(s, ops, i, key, q.peer) && Untouched(s, ops, i + 1, key, q.peer)
    ensures q in Entries(Run(s, ops), key) <==> ops[i].OpAdd? && ops[i].provider == q
  {
    EntryStays(s, ops, i + 1, key, q);
    assert ops[..i + 1][..i] == ops[..i];
    EntryStep(Run(s, ops[..i]), ops[i], key, q);
  }

  /** After every run a key lists exactly the providers whose peers' last decisive operation took them,
      and those from before the run that nothing touched. */
  lemma EntriesAreLastTouches(s: State, ops: seq<Op>, key: Key, q: Provider)
    ensures Untouched(s, ops, 0, key, q.peer) ==> (q in Entries(Run(s, ops), key) <==> q in Entries(s, key))
    ensures forall i | 0 <= i < |ops| && TouchesAt(s, ops, i, key, q.peer) && Untouched(s, ops, i + 1, key, q.peer) ::
              q in Entries(Run(s, ops), key) <==> ops[i].OpAdd? && ops[i].provider == q
  {
    if Untouched(s, ops, 0, key, q.peer) {
      EntryStays(s, ops, 0, key, q);
      assert ops[..0] == [];
    }
    forall i | 0 <= i < |ops| && TouchesAt(s, ops, i, key, q.peer) && Untouched(s, ops, i + 1, key, q.peer)
      ensures q in Entries(Run(s, ops), key) <==> ops[i].OpAdd? && ops[i].provider == q
    {
      LastTouchStands(s, ops, i, key, q);
    }
  }

  function Lookup(s: State, key: Key): Option<Record> {
    if key in s.Rows().records then Some(s.Rows().records[key]) else None
  }

  /** The operation, done to `s`, writes the key's record: a put of a value that fits, of a key that is
      stored or finds room, or a removal, that reaches the database. */
  predicate WritesTo(s: State, op: Op, key: Key) {
    match op
    case OpPut(k, r, f) =>
      && k == key && !f.read && !f.write && |r.value| < MAX_VALUE_BYTES
      && (Lookup(s, k).Some? || s.numRecords < MAX_RECORDS)
    case OpRemove(k, f) => k == key && !f.read && !f.write
    case _ => false
  }

  /** Nothing but room is lacking for a new record. */
  predicate OnlyRoomLacks(s: State, key: Key, r: Record, f: Fault) {
    !f.read && |r.value| < MAX_VALUE_BYTES && Lookup(s, key).None? && s.numRecords >= MAX_RECORDS
  }

  function Written(op: Op): Option<Record> {
    if op.OpPut? then Some(op.record) else None
  }

  lemma LookupStep(s: State, op: Op, key: Key)
    ensures Lookup(Apply(s, op), key) == if WritesTo(s, op, key) then Written(op) else Lookup(s, key)
    ensures op.OpPut? ==>
              var answer := Put(s, op.key, op.record, op.fault).1;
              && (answer == Ok <==> WritesTo(s, op, op.key))
              && (answer == Err(MaxRecords) <==> OnlyRoomLacks(s, op.key, op.record, op.fault))
              && answer != Err(MaxProvidedKeys)
  {
  }

  predicate WritesAt(s: State, ops: seq<Op>, i: nat, key: Key)
    requires i < |ops|
  {
    WritesTo(Run(s, ops[..i]), ops[i], key)
  }

  predicate LastWriteAt(s: State, ops: seq<Op>, i: nat, key: Key)
    requires i < |ops|
  {
    WritesAt(s, ops, i, key) && forall j | i < j < |ops| :: !WritesAt(s, ops, j, key)
  }

  lemma WritesBefore(s: State, ops: seq<Op>, i: nat, key: Key)
    requires i + 1 < |ops|
    ensures WritesAt(s, ops[..|ops| - 1], i, key) == WritesAt(s, ops, i, key)
  {
    assert ops[..|ops| - 1][..i] == ops[..i];
  }

  lemma {:induction false} Unwritten(s: State, ops: seq<Op>, from: nat, key: Key)
    requires from <= |ops| && forall j | from <= j < |ops| :: !WritesAt(s, ops, j, key)
    ensures Lookup(Run(s, ops), key) == Lookup(Run(s, ops[..from]), key)
  {
    if from == |ops| {
      assert ops[..from] == ops;
    } else {
      var n := |ops| - 1;
      forall j | from <= j < n
        ensures !WritesAt(s, ops[..n], j, key)
      {
        WritesBefore(s, ops, j, key);
      }
      Unwritten(s, ops[..n], from, key);
      assert ops[..n][..from] == ops[..from] && !WritesAt(s, ops, n, key);
      LookupStep(Run(s, ops[..n]), ops[n], key);
    }
  }

  lemma LastWriteStands(s: State, ops: seq<Op>, i: nat, key: Key)
    requires i < |ops| && LastWriteAt(s, ops, i, key)
    ensures Lookup(Run(s, ops), key) == Written(ops[i])
  {
    Unwritten(s, ops, i + 1, key);
    assert ops[..i + 1][..i] == ops[..i];
    LookupStep(Run(s, ops[..i]), ops[i], key);
  }

  /** After every run a key reads back as its last write, put or removal, wherever other
      puts were refused, other operations came between and the database failed; and as it was before
      the run when nothing wrote it. */
  lemma LookupIsLastWrite(s: State, ops: seq<Op>, key: Key)
    ensures (forall i | 0 <= i < |ops| :: !WritesAt(s, ops, i, key)) ==> Lookup(Run(s, ops), key) == Lookup(s, key)
    ensures forall i | 0 <= i < |ops| && LastWriteAt(s, ops, i, key) :: Lookup(Run(s, ops), key) == Written(ops[i])
  {
    if forall i | 0 <= i < |ops| :: !WritesAt(s, ops, i, key) {
      Unwritten(s, ops, 0, key);
      assert ops[..0] == [];
    }
    forall i | 0 <= i < |ops| && LastWriteAt(s, ops, i, key)
      ensures Lookup(Run(s, ops), key) == Written(ops[i])
    {
      LastWriteStands(s, ops, i, key);
    }
  }
}
