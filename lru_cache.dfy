/** The bounded recency cache `_LRUDict` of the dashboard's interactive-args dock:
    an insertion-ordered dictionary (oldest entry first) with a size cap.
    The ordered dictionary is a sequence of key/value pairs; the functions below
    say what each operation makes of it, and the class `LruDict` performs the
    same updates in place. */
module LruCache {
  import opened Wrappers

  const DefaultSizeLimit: nat := 100

  /** The keys present in an ordered dictionary. */
  function Keys<K, V>(s: seq<(K, V)>): set<K> {
    set i | 0 <= i < |s| :: s[i].0
  }

  /** A dictionary never holds a key twice. */
  predicate DistinctKeys<K(==), V>(s: seq<(K, V)>) {
    forall i, j :: 0 <= i < j < |s| ==> s[i].0 != s[j].0
  }

  /** The value stored under `k`, or None (Python's KeyError / `get` default). */
  function Lookup<K(==), V>(s: seq<(K, V)>, k: K): (r: Option<V>)
    ensures r.Some? ==> (k, r.value) in s
  {
    if s == [] then None
    else if s[0].0 == k then Some(s[0].1)
    else
      Lookup(s[1..], k)
  }

  /** The plain dictionary view: what `dict(...)` of the ordered dictionary holds. */
  function AsMap<K(==), V>(s: seq<(K, V)>): (m: map<K, V>)
    ensures m.Keys == Keys(s)
  {
    if s == [] then map[]
    else
      KeysCons(s);
      AsMap(s[1..])[s[0].0 := s[0].1]
  }

  /** `pop(k)`: the dictionary with the entry for `k` taken out, order otherwise kept. */
  function Without<K(==), V>(s: seq<(K, V)>, k: K): (r: seq<(K, V)>)
    ensures |r| <= |s|
    ensures |r| == |s| ==> r == s
  {
    if s == [] then []
    else if s[0].0 == k then Without(s[1..], k)
    else [s[0]] + Without(s[1..], k)
  }

  /** `d[k] = v` on `_LRUDict`: drop any old entry for `k`, append `(k, v)` at the
      end, then evict the first (oldest) entry when the size exceeds `limit`. */
  function Put<K(==), V>(s: seq<(K, V)>, limit: nat, k: K, v: V): (r: seq<(K, V)>)
    ensures |s| <= limit ==> |r| <= limit
    ensures limit > 0 ==> |r| > 0 && r[|r| - 1] == (k, v)
  {
    var t := Without(s, k) + [(k, v)];
    if |t| > limit then t[1..] else t
  }

  /** `move_to_end(k)` after a successful lookup; a missing key changes nothing. */
  function Touch<K(==), V>(s: seq<(K, V)>, k: K): (r: seq<(K, V)>)
    ensures Lookup(s, k).Some? ==> |r| > 0 && r[|r| - 1] == (k, Lookup(s, k).value)
    ensures Lookup(s, k).None? ==> r == s
  {
    match Lookup(s, k)
    case None => s
    case Some(v) => Without(s, k) + [(k, v)]
  }

  /** `update(items)`: one `d[k] = v` per item, in the items' order. */
  function PutAll<K(==), V>(s: seq<(K, V)>, limit: nat, items: seq<(K, V)>): (r: seq<(K, V)>)
    ensures |s| <= limit ==> |r| <= limit
    decreases |items|
  {
    if items == [] then s else PutAll(Put(s, limit, items[0].0, items[0].1), limit, items[1..])
  }

  // ---------------------------------------------------------------------------
  // Facts about the pieces

  lemma {:induction false} LookupPresent<K, V>(s: seq<(K, V)>, k: K)
    ensures Lookup(s, k).Some? <==> k in Keys(s)
    ensures AsMap(s).Keys == Keys(s)
    ensures k in Keys(s) ==> AsMap(s)[k] == Lookup(s, k).value
  {
    if s != [] {
      LookupPresent(s[1..], k);
      KeysCons(s);
    }
  }

  lemma KeysCons<K, V>(s: seq<(K, V)>)
    requires s != []
    ensures Keys(s) == {s[0].0} + Keys(s[1..])
  {
    forall x | x in Keys(s) ensures x in {s[0].0} + Keys(s[1..]) {
      var i :| 0 <= i < |s| && s[i].0 == x;
      if i > 0 { assert s[1..][i - 1].0 == x; }
    }
    forall x | x in Keys(s[1..]) ensures x in Keys(s) {
      var i :| 0 <= i < |s[1..]| && s[1..][i].0 == x;
      assert s[i + 1].0 == x;
    }
  }

  lemma DistinctTail<K, V>(s: seq<(K, V)>)
    requires DistinctKeys(s) && s != []
    ensures DistinctKeys(s[1..])
    ensures s[0].0 !in Keys(s[1..])
  {
    forall a, b | 0 <= a < b < |s[1..]| ensures s[1..][a].0 != s[1..][b].0 {
      assert s[1..][a] == s[a + 1] && s[1..][b] == s[b + 1];
    }
    forall j | 0 <= j < |s[1..]| ensures s[1..][j].0 != s[0].0 {
      assert s[1..][j] == s[j + 1];
    }
  }

  /** In a dictionary without duplicates, Lookup finds the entry at its position. */
  lemma {:induction false} LookupAt<K, V>(s: seq<(K, V)>, i: nat)
    requires DistinctKeys(s) && i < |s|
    ensures Lookup(s, s[i].0) == Some(s[i].1)
  {
    if i > 0 {
      DistinctTail(s);
      assert s[1..][i - 1] == s[i];
      LookupAt(s[1..], i - 1);
    }
  }

  lemma {:induction false} WithoutAbsent<K, V>(s: seq<(K, V)>, k: K)
    requires k !in Keys(s)
    ensures Without(s, k) == s
  {
    if s != [] {
      KeysCons(s);
      WithoutAbsent(s[1..], k);
    }
  }

  /** In a dictionary without duplicates, `pop(k)` cuts out exactly the one
      entry at `k`'s position: everything before and after keeps its order. */
  lemma {:induction false} WithoutAt<K, V>(s: seq<(K, V)>, i: nat)
    requires DistinctKeys(s) && i < |s|
    ensures Without(s, s[i].0) == s[..i] + s[i + 1..]
  {
    var k := s[i].0;
    DistinctTail(s);
    if i == 0 {
      WithoutAbsent(s[1..], k);
    } else {
      assert s[1..][i - 1] == s[i];
      WithoutAt(s[1..], i - 1);
      assert s[1..][..i - 1] + s[1..][i..] == s[1..i] + s[i + 1..];
      assert s[..i] + s[i + 1..] == [s[0]] + (s[1..i] + s[i + 1..]);
    }
  }

  lemma WithoutKeys<K, V>(s: seq<(K, V)>, k: K)
    requires DistinctKeys(s)
    ensures Keys(Without(s, k)) == Keys(s) - {k}
    ensures DistinctKeys(Without(s, k))
    ensures |Without(s, k)| == if k in Keys(s) then |s| - 1 else |s|
  {
    if k in Keys(s) {
      var i :| 0 <= i < |s| && s[i].0 == k;
      WithoutAt(s, i);
      SpliceKeys(s, i);
      SpliceDistinct(s, i);
    } else {
      WithoutAbsent(s, k);
    }
  }

  lemma SpliceKeys<K, V>(s: seq<(K, V)>, i: nat)
    requires DistinctKeys(s) && i < |s|
    ensures Keys(s[..i] + s[i + 1..]) == Keys(s) - {s[i].0}
  {
    var w := s[..i] + s[i + 1..];
    forall x | x in Keys(w) ensures x in Keys(s) - {s[i].0} {
      var j :| 0 <= j < |w| && w[j].0 == x;
      if j < i { assert w[j] == s[j]; } else { assert w[j] == s[j + 1]; }
    }
    forall x | x in Keys(s) - {s[i].0} ensures x in Keys(w) {
      var j :| 0 <= j < |s| && s[j].0 == x;
      if j < i { assert w[j] == s[j]; } else { assert w[j - 1] == s[j]; }
    }
  }

  lemma SpliceDistinct<K, V>(s: seq<(K, V)>, i: nat)
    requires DistinctKeys(s) && i < |s|
    ensures DistinctKeys(s[..i] + s[i + 1..])
  {
    var w := s[..i] + s[i + 1..];
    forall a, b | 0 <= a < b < |w| ensures w[a].0 != w[b].0 {
      var a' := if a < i then a else a + 1;
      var b' := if b < i then b else b + 1;
      assert w[a] == s[a'] && w[b] == s[b'];
    }
  }

  lemma KeysAppend<K, V>(s: seq<(K, V)>, e: (K, V))
    ensures Keys(s + [e]) == Keys(s) + {e.0}
  {
    var t := s + [e];
    forall x | x in Keys(t) ensures x in Keys(s) + {e.0} {
      var j :| 0 <= j < |t| && t[j].0 == x;
      if j < |s| { assert t[j] == s[j]; }
    }
    forall x | x in Keys(s) ensures x in Keys(t) {
      var j :| 0 <= j < |s| && s[j].0 == x;
      assert t[j] == s[j];
    }
    assert t[|s|] == e;
  }

  lemma DistinctAppend<K, V>(s: seq<(K, V)>, e: (K, V))
    requires DistinctKeys(s) && e.0 !in Keys(s)
    ensures DistinctKeys(s + [e])
  {
    var t := s + [e];
    forall a, b | 0 <= a < b < |t| ensures t[a].0 != t[b].0 {
      assert t[a] == s[a];
      if b == |s| { assert t[b] == e; } else { assert t[b] == s[b]; }
    }
  }

  lemma KeysDropFirst<K, V>(s: seq<(K, V)>)
    requires DistinctKeys(s) && s != []
    ensures Keys(s[1..]) == Keys(s) - {s[0].0}
  {
    WithoutAt(s, 0);
    WithoutKeys(s, s[0].0);
  }

  // ---------------------------------------------------------------------------
  // `d[k] = v`

  /** After `d[k] = v` (with a positive cap) `k` maps to `v` and is the most
      recent entry; keys stay distinct. */
  lemma PutStoresLast<K, V>(s: seq<(K, V)>, limit: nat, k: K, v: V)
    requires DistinctKeys(s) && limit > 0
    ensures var r := Put(s, limit, k, v);
      && |r| > 0 && r[|r| - 1] == (k, v)
      && Lookup(r, k) == Some(v)
      && DistinctKeys(r)
  {
    var w := Without(s, k);
    WithoutKeys(s, k);
    var t := w + [(k, v)];
    KeysAppend(w, (k, v));
    DistinctAppend(w, (k, v));
    var r := Put(s, limit, k, v);
    if |t| > limit {
      DistinctTail(t);
      KeysDropFirst(t);
      assert r == t[1..];
    }
    LookupAt(r, |r| - 1);
  }

  /** Setting an existing key never grows the dictionary. */
  lemma PutExistingNoGrowth<K, V>(s: seq<(K, V)>, limit: nat, k: K, v: V)
    requires DistinctKeys(s) && k in Keys(s)
    ensures |Put(s, limit, k, v)| <= |s|
  {
    WithoutKeys(s, k);
  }

  /** The cap: a dictionary of at most `limit` entries stays within it. When
      there is room, or when `k` is already present, nothing is evicted and the
      other entries keep their order; when a new key arrives at a full
      dictionary, exactly the first (oldest) entry is evicted. */
  lemma PutEviction<K, V>(s: seq<(K, V)>, limit: nat, k: K, v: V)
    requires DistinctKeys(s) && |s| <= limit
    ensures |Put(s, limit, k, v)| <= limit
    ensures k in Keys(s) || |s| < limit ==> Put(s, limit, k, v) == Without(s, k) + [(k, v)]
    ensures k !in Keys(s) && |s| == limit > 0 ==> Put(s, limit, k, v) == s[1..] + [(k, v)]
    ensures k !in Keys(s) && |s| == limit > 0 ==> |Put(s, limit, k, v)| == limit
  {
    WithoutKeys(s, k);
    if k !in Keys(s) {
      WithoutAbsent(s, k);
    }
  }

  /** Every other key keeps its value unless it was the evicted oldest one. */
  lemma {:induction false} PutOthers<K, V>(s: seq<(K, V)>, limit: nat, k: K, v: V, k': K)
    requires DistinctKeys(s) && k' != k && k' in Keys(Put(s, limit, k, v))
    ensures Lookup(Put(s, limit, k, v), k') == Lookup(s, k')
  {
    var w := Without(s, k);
    WithoutKeys(s, k);
    var t := w + [(k, v)];
    DistinctAppend(w, (k, v));
    var r := Put(s, limit, k, v);
    var j :| 0 <= j < |r| && r[j].0 == k';
    var jt := if |t| > limit then j + 1 else j;
    assert t[jt] == r[j];
    LookupAt(t, jt);
    if |t| > limit {
      DistinctTail(t);
      KeysDropFirst(t);
      LookupAt(r, j);
    }
    assert jt < |w| && w[jt] == t[jt];
    LookupAt(w, jt);
    assert k' in Keys(w);
    WithoutLookup(s, k, k');
  }

  lemma {:induction false} WithoutLookup<K, V>(s: seq<(K, V)>, k: K, k': K)
    requires k' != k
    ensures Lookup(Without(s, k), k') == Lookup(s, k')
  {
    if s != [] {
      WithoutLookup(s[1..], k, k');
    }
  }

  // ---------------------------------------------------------------------------
  // `d[k]` (with `move_to_end`)

  /** Reading `d[k]` moves `k` to the end but keeps the same key/value pairs,
      the same size and distinct keys. */
  lemma TouchKeepsPairs<K, V>(s: seq<(K, V)>, k: K)
    requires DistinctKeys(s)
    ensures AsMap(Touch(s, k)) == AsMap(s)
    ensures |Touch(s, k)| == |s| && DistinctKeys(Touch(s, k))
    ensures Lookup(s, k).Some? ==> Touch(s, k)[|s| - 1] == (k, Lookup(s, k).value)
  {
    LookupPresent(s, k);
    if k in Keys(s) {
      var v := Lookup(s, k).value;
      var w := Without(s, k);
      assert Touch(s, k) == w + [(k, v)];
      WithoutKeys(s, k);
      DistinctAppend(w, (k, v));
      assert AsMap(w + [(k, v)]) == AsMap(s) by {
        AsMapWithout(s, k);
        AsMapAppend(w, (k, v));
        assert (AsMap(s) - {k})[k := v] == AsMap(s);
      }
    }
  }

  lemma {:induction false} AsMapWithout<K, V>(s: seq<(K, V)>, k: K)
    ensures AsMap(Without(s, k)) == AsMap(s) - {k}
  {
    if s != [] {
      AsMapWithout(s[1..], k);
      if s[0].0 != k {
        assert ([s[0]] + Without(s[1..], k))[1..] == Without(s[1..], k);
        assert (AsMap(s[1..]) - {k})[s[0].0 := s[0].1] == AsMap(s[1..])[s[0].0 := s[0].1] - {k};
      } else {
        assert AsMap(s[1..]) - {k} == AsMap(s[1..])[s[0].0 := s[0].1] - {k};
      }
    }
  }

  lemma {:induction false} AsMapAppend<K, V>(t: seq<(K, V)>, e: (K, V))
    requires e.0 !in Keys(t)
    ensures AsMap(t + [e]) == AsMap(t)[e.0 := e.1]
  {
    if t == [] {
      assert ([] + [e])[1..] == [];
    } else {
      KeysCons(t);
      assert (t + [e])[1..] == t[1..] + [e];
      AsMapAppend(t[1..], e);
      assert AsMap(t[1..])[e.0 := e.1][t[0].0 := t[0].1] == AsMap(t[1..])[t[0].0 := t[0].1][e.0 := e.1];
    }
  }

  /** Moving the first entry to the end rotates the dictionary by one. */
  lemma TouchFirst<K, V>(s: seq<(K, V)>)
    requires DistinctKeys(s) && s != []
    ensures Touch(s, s[0].0) == s[1..] + [s[0]]
  {
    LookupAt(s, 0);
    WithoutAt(s, 0);
  }

  // ---------------------------------------------------------------------------
  // `update(...)`

  /** Replaying a saved dictionary into an empty cache rebuilds it exactly, in
      the same order, when it is within the cap. */
  lemma RestoreRebuilds<K, V>(items: seq<(K, V)>, limit: nat)
    requires DistinctKeys(items) && |items| <= limit
    ensures PutAll([], limit, items) == items
  {
    PutAllAppends([], items, limit);
  }

  lemma {:induction false} PutAllAppends<K, V>(p: seq<(K, V)>, q: seq<(K, V)>, limit: nat)
    requires DistinctKeys(p + q) && |p + q| <= limit
    ensures PutAll(p, limit, q) == p + q
    decreases |q|
  {
    if q != [] {
      var e := q[0];
      assert (p + q)[|p|] == e;
      assert e.0 !in Keys(p) by {
        forall j | 0 <= j < |p| ensures p[j].0 != e.0 {
          assert (p + q)[j] == p[j];
        }
      }
      WithoutAbsent(p, e.0);
      assert Put(p, limit, e.0, e.1) == p + [e];
      assert p + [e] + q[1..] == p + q;
      PutAllAppends(p + [e], q[1..], limit);
    }
  }

  /** The cache after `update` stays within the cap and keeps distinct keys. */
  lemma {:induction false} PutAllValid<K, V>(s: seq<(K, V)>, limit: nat, items: seq<(K, V)>)
    requires DistinctKeys(s) && |s| <= limit
    ensures DistinctKeys(PutAll(s, limit, items)) && |PutAll(s, limit, items)| <= limit
    decreases |items|
  {
    if items != [] {
      var k, v := items[0].0, items[0].1;
      PutEviction(s, limit, k, v);
      PutPreservesDistinct(s, limit, k, v);
      PutAllValid(Put(s, limit, k, v), limit, items[1..]);
    }
  }

  lemma PutPreservesDistinct<K, V>(s: seq<(K, V)>, limit: nat, k: K, v: V)
    requires DistinctKeys(s)
    ensures DistinctKeys(Put(s, limit, k, v))
  {
    var w := Without(s, k);
    WithoutKeys(s, k);
    var t := w + [(k, v)];
    DistinctAppend(w, (k, v));
    if |t| > limit {
      DistinctTail(t);
      KeysDropFirst(t);
    }
  }

  // ---------------------------------------------------------------------------
  // The object

  class LruDict<K(==), V> {
    const sizeLimit: nat
    /** Oldest entry first. */
    var entries: seq<(K, V)>

    ghost predicate Valid()
      reads this
    {
      DistinctKeys(entries) && |entries| <= sizeLimit
    }

    constructor (sizeLimit: nat)
      ensures Valid() && this.sizeLimit == sizeLimit && entries == []
    {
      this.sizeLimit := sizeLimit;
      entries := [];
    }

    /** Position of `k`, if present. */
    method IndexOf(k: K) returns (found: bool, i: nat)
      ensures found <==> k in Keys(entries)
      ensures found ==> i < |entries| && entries[i].0 == k
    {
      i := 0;
      while i < |entries|
        invariant i <= |entries|
        invariant forall j :: 0 <= j < i ==> entries[j].0 != k
      {
        if entries[i].0 == k {
          return true, i;
        }
        i := i + 1;
      }
      found := false;
    }

    /** `d.get(k)`: the stored value or None; the order is left alone. */
    method Peek(k: K) returns (r: Option<V>)
      requires DistinctKeys(entries)
      ensures r == Lookup(entries, k)
      ensures r.Some? <==> k in Keys(entries)
    {
      var found, i := IndexOf(k);
      LookupPresent(entries, k);
      if found {
        LookupAt(entries, i);
        r := Some(entries[i].1);
      } else {
        r := None;
      }
    }

    /** `OrderedDict.pop(k)`: None stands for the KeyError of a missing key. */
    method Pop(k: K) returns (r: Option<V>)
      requires DistinctKeys(entries)
      modifies this
      ensures r == Lookup(old(entries), k)
      ensures entries == Without(old(entries), k) && DistinctKeys(entries)
    {
      var found, i := IndexOf(k);
      LookupPresent(entries, k);
      WithoutKeys(entries, k);
      if found {
        LookupAt(entries, i);
        WithoutAt(entries, i);
        r := Some(entries[i].1);
        entries := entries[..i] + entries[i + 1..];
      } else {
        WithoutAbsent(entries, k);
        r := None;
      }
    }

    /** `OrderedDict.popitem(last=False)`: None stands for the KeyError of an empty dictionary. */
    method PopOldest() returns (r: Option<(K, V)>)
      requires DistinctKeys(entries)
      modifies this
      ensures old(entries) == [] ==> r == None && entries == []
      ensures old(entries) != [] ==> r == Some(old(entries)[0]) && entries == old(entries)[1..]
      ensures DistinctKeys(entries)
    {
      if entries == [] {
        r := None;
      } else {
        DistinctTail(entries);
        KeysDropFirst(entries);
        r := Some(entries[0]);
        entries := entries[1..];
      }
    }

    /** `d[k] = v`. */
    method Set(k: K, v: V)
      requires Valid()
      modifies this
      ensures Valid()
      ensures entries == Put(old(entries), sizeLimit, k, v)
    {
      ghost var s := entries;
      var found, _ := IndexOf(k);
      if found {
        var _ := Pop(k);
      } else {
        WithoutAbsent(entries, k);
      }
      WithoutKeys(s, k);
      DistinctAppend(entries, (k, v));
      entries := entries + [(k, v)];
      if |entries| > sizeLimit {
        var _ := PopOldest();
      }
      PutEviction(s, sizeLimit, k, v);
    }

    /** `d[k]`: the stored value (None for a KeyError), moving `k` to the end. */
    method Get(k: K) returns (r: Option<V>)
      requires Valid()
      modifies this
      ensures Valid()
      ensures r == Lookup(old(entries), k)
      ensures entries == Touch(old(entries), k)
    {
      ghost var s := entries;
      r := Peek(k);
      if r.Some? {
        var _ := Pop(k);
        WithoutKeys(s, k);
        DistinctAppend(entries, (k, r.value));
        entries := entries + [(k, r.value)];
      }
      TouchKeepsPairs(s, k);
    }
  }
}
