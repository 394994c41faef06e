/** Values shared by the models: optional values, and database tables iterated in key order. */
module Tables {

  datatype Option<+T> = None | Some(value: T)

  function ToSet<T(==)>(s: seq<T>): set<T> {
    set x | x in s
  }

  lemma PrefixGrows<T>(s: seq<T>, i: nat)
    requires i < |s|
    ensures s[..i + 1] == s[..i] + [s[i]]
  {
  }

  lemma TwoMembers<T>(s: set<T>)
    ensures |s| > 1 <==> exists x, y | x in s && y in s :: x != y
  {
    if |s| > 1 {
      var x :| x in s;
      assert |s - {x}| > 0;
      var y :| y in s - {x};
      assert x in s && y in s && x != y;
    }
    if x, y :| x in s && y in s && x != y {
      assert |s - {x}| == |s| - 1 && y in s - {x};
    }
  }

  lemma SubsetSize<T>(a: set<T>, b: set<T>)
    requires a <= b
    ensures |a| <= |b|
  {
    assert b == a + (b - a);
  }

  ghost predicate Ascending(s: seq<nat>) {
    forall i, j | 0 <= i < j < |s| :: s[i] < s[j]
  }

  lemma {:induction false} LeastBelow(s: set<nat>, x: nat) returns (m: nat)
    requires x in s
    ensures m in s && forall k | k in s :: m <= k
  {
    if y :| y in s && y < x {
      m := LeastBelow(s, y);
    } else {
      m := x;
    }
  }

  function Min(s: set<nat>): (m: nat)
    requires s != {}
    ensures m in s && forall k | k in s :: m <= k
  {
    assert exists m :: m in s && forall k | k in s :: m <= k by {
      var x :| x in s;
      var m := LeastBelow(s, x);
    }
    var m :| m in s && forall k | k in s :: m <= k;
    m
  }

  /** The keys of a table in iteration order. */
  function Sorted(s: set<nat>): (r: seq<nat>)
    ensures Ascending(r)
    ensures forall k :: k in r <==> k in s
    ensures |r| == |s|
    decreases |s|
  {
    if s == {} then [] else
      var m := Min(s);
      [m] + Sorted(s - {m})
  }

  lemma {:induction false} GreatestOf(s: set<nat>) returns (m: nat)
    requires s != {}
    ensures m in s && forall k | k in s :: k <= m
    decreases |s|
  {
    m :| m in s;
    if s != {m} {
      var rest := s - {m};
      assert s == rest + {m};
      var g := GreatestOf(rest);
      m := if g > m then g else m;
    }
  }

  /** Greatest key of a table. */
  function Last(s: set<nat>): (m: nat)
    requires s != {}
    ensures m in s && forall k | k in s :: k <= m
  {
    assert exists m :: m in s && forall k | k in s :: k <= m by { var m := GreatestOf(s); }
    var m :| m in s && forall k | k in s :: k <= m;
    m
  }

  /** Iterates an ordered set. */
  method InOrder(s: set<nat>) returns (keys: seq<nat>)
    ensures Ascending(keys) && forall k :: k in keys <==> k in s
  {
    keys := Sorted(s);
  }

  /** Iterates a table in key order. */
  method KeysInOrder<V>(t: map<nat, V>) returns (keys: seq<nat>)
    ensures Ascending(keys) && forall k :: k in keys <==> k in t
  {
    keys := InOrder(t.Keys);
  }
}
