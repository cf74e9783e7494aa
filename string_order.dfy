/** Python's ordering of `str` values (code point by code point, a proper
    prefix first) and `sorted` of a set of distinct strings. */
module StringOrder {

  /** Python's `a < b` on str. */
  predicate Less(a: string, b: string)
    ensures |a| < |b| && a == b[..|a|] ==> Less(a, b)
  {
    if a == [] then b != []
    else if b == [] then false
    else
      assert |a| < |b| && a == b[..|a|] ==> a[0] == b[0] && a[1..] == b[1..][..|a| - 1];
      a[0] < b[0] || (a[0] == b[0] && Less(a[1..], b[1..]))
  }

  lemma {:induction false} LessIrreflexive(a: string)
    ensures !Less(a, a)
  {
    if a != [] {
      LessIrreflexive(a[1..]);
    }
  }

  lemma {:induction false} LessTransitive(a: string, b: string, c: string)
    requires Less(a, b) && Less(b, c)
    ensures Less(a, c)
  {
    if a != [] && a[0] == b[0] && b[0] == c[0] {
      LessTransitive(a[1..], b[1..], c[1..]);
    }
  }

  lemma {:induction false} LessTotal(a: string, b: string)
    requires a != b
    ensures Less(a, b) || Less(b, a)
  {
    if a != [] && b != [] && a[0] == b[0] {
      assert a == [a[0]] + a[1..] && b == [b[0]] + b[1..];
      LessTotal(a[1..], b[1..]);
    }
  }

  lemma LessAsymmetric(a: string, b: string)
    requires Less(a, b)
    ensures !Less(b, a)
  {
    if Less(b, a) {
      LessTransitive(a, b, a);
      LessIrreflexive(a);
    }
  }

  /** The strings a list holds. */
  function Elems(s: seq<string>): set<string> {
    set x | x in s
  }

  predicate StrictlySorted(s: seq<string>) {
    forall i, j :: 0 <= i < j < |s| ==> Less(s[i], s[j])
  }

  predicate IsLeast(m: string, keys: set<string>) {
    m in keys && forall y :: y in keys && y != m ==> Less(m, y)
  }

  /** Every non-empty finite set of strings has a least element. */
  lemma {:induction false} LeastExists(keys: set<string>)
    requires keys != {}
    ensures exists m :: IsLeast(m, keys)
    decreases |keys|
  {
    var x :| x in keys;
    var rest := keys - {x};
    if rest == {} {
      forall y | y in keys ensures y == x {
        assert y !in rest;
      }
      assert IsLeast(x, keys);
    } else {
      LeastExists(rest);
      var m :| IsLeast(m, rest);
      if Less(x, m) {
        forall y | y in keys && y != x ensures Less(x, y) {
          if y != m { LessTransitive(x, m, y); }
        }
        assert IsLeast(x, keys);
      } else {
        LessTotal(x, m);
        assert IsLeast(m, keys);
      }
    }
  }

  /** The sorted list of a key set: what `sorted` makes of distinct str keys. */
  ghost function SortedKeys(keys: set<string>): (r: seq<string>)
    ensures |r| == |keys|
    ensures keys != {} ==> IsLeast(r[0], keys)
    decreases |keys|
  {
    if keys == {} then []
    else
      LeastExists(keys);
      var m :| IsLeast(m, keys);
      [m] + SortedKeys(keys - {m})
  }

  /** The sorted list holds each key once, in strictly ascending order. */
  lemma {:induction false} SortedKeysSpec(keys: set<string>)
    ensures StrictlySorted(SortedKeys(keys))
    ensures Elems(SortedKeys(keys)) == keys
    decreases |keys|
  {
    if keys != {} {
      var r := SortedKeys(keys);
      var m := r[0];
      assert IsLeast(m, keys) && r == [m] + SortedKeys(keys - {m});
      SortedKeysSpec(keys - {m});
      LeastThenSorted(m, SortedKeys(keys - {m}), keys);
    }
  }

  /** Putting the least key in front of a sorted list of the others gives a
      sorted list of all of them. */
  lemma LeastThenSorted(m: string, t: seq<string>, keys: set<string>)
    requires IsLeast(m, keys) && StrictlySorted(t) && Elems(t) == keys - {m}
    ensures StrictlySorted([m] + t) && Elems([m] + t) == keys
  {
    var r := [m] + t;
    forall i, j | 0 <= i < j < |r| ensures Less(r[i], r[j]) {
      assert r[j] == t[j - 1];
      if i > 0 {
        assert r[i] == t[i - 1];
      } else {
        assert r[j] in Elems(t);
      }
    }
    forall x | x in keys ensures x in Elems(r) {
      if x != m {
        assert x in Elems(t);
        var i :| 0 <= i < |t| && t[i] == x;
        assert r[i + 1] == x;
      } else {
        assert r[0] == x;
      }
    }
    forall x | x in Elems(r) ensures x in keys {
      var i :| 0 <= i < |r| && r[i] == x;
      if i > 0 {
        assert t[i - 1] == x;
        assert x in Elems(t);
      }
    }
  }

  /** A strictly sorted list is determined by its elements. */
  lemma {:induction false} SortedUnique(a: seq<string>, b: seq<string>)
    requires StrictlySorted(a) && StrictlySorted(b)
    requires Elems(a) == Elems(b)
    ensures a == b
    decreases |a|
  {
    if a != [] {
      assert a[0] in Elems(a);
    }
    if b != [] {
      assert b[0] in Elems(b);
    }
    if a != [] && b != [] {
      var i :| 0 <= i < |b| && b[i] == a[0];
      var j :| 0 <= j < |a| && a[j] == b[0];
      if i != 0 && j != 0 {
        LessAsymmetric(a[0], a[j]);
      }
      assert a[0] == b[0];
      TailElems(a);
      TailElems(b);
      SortedUnique(a[1..], b[1..]);
      assert a == [a[0]] + a[1..] && b == [b[0]] + b[1..];
    }
  }

  /** The tail of a strictly sorted list holds everything but its head. */
  lemma TailElems(a: seq<string>)
    requires StrictlySorted(a) && a != []
    ensures Elems(a[1..]) == Elems(a) - {a[0]}
  {
    forall x | x in Elems(a[1..]) ensures x in Elems(a) - {a[0]} {
      var i :| 0 <= i < |a[1..]| && a[1..][i] == x;
      assert a[i + 1] == x;
      if x == a[0] {
        LessIrreflexive(x);
      }
    }
    forall x | x in Elems(a) - {a[0]} ensures x in Elems(a[1..]) {
      var i :| 0 <= i < |a| && a[i] == x;
      assert a[1..][i - 1] == x;
    }
  }

  /** The least element of a non-empty set. */
  method Least(keys: set<string>) returns (m: string)
    requires keys != {}
    ensures IsLeast(m, keys)
  {
    m :| m in keys;
    var rest := keys - {m};
    while rest != {}
      invariant rest <= keys && m in keys && m !in rest
      invariant forall y :: y in keys - rest && y != m ==> Less(m, y)
      decreases rest
    {
      var y :| y in rest;
      if Less(y, m) {
        forall z | z in keys - rest && z != y ensures Less(y, z) {
          if z != m { LessTransitive(y, m, z); }
        }
        m := y;
      } else if y != m {
        LessTotal(y, m);
      }
      rest := rest - {y};
    }
  }

  /** `sorted(keys)`: repeatedly takes the least remaining key. */
  method Sort(keys: set<string>) returns (r: seq<string>)
    ensures StrictlySorted(r) && Elems(r) == keys
    ensures r == SortedKeys(keys)
  {
    r := [];
    var rest := keys;
    while rest != {}
      invariant rest <= keys
      invariant Elems(r) == keys - rest
      invariant StrictlySorted(r)
      invariant forall i, y :: 0 <= i < |r| && y in rest ==> Less(r[i], y)
      decreases rest
    {
      var m := Least(rest);
      forall x ensures x in Elems(r + [m]) <==> x in Elems(r) + {m} {
        if x in Elems(r + [m]) {
          var i :| 0 <= i < |r + [m]| && (r + [m])[i] == x;
          if i < |r| { assert r[i] == x; }
        }
        if x in Elems(r) {
          var i :| 0 <= i < |r| && r[i] == x;
          assert (r + [m])[i] == x;
        }
        assert (r + [m])[|r|] == m;
      }
      r := r + [m];
      rest := rest - {m};
    }
    SortedKeysSpec(keys);
    SortedUnique(r, SortedKeys(keys));
  }
}
