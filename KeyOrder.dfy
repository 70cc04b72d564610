/**
 * The order in which the key store hands out the children of a collection:
 * by key, compared character by character. Queries that filter on a child
 * value list the matching children in the same key order, so a snapshot of
 * a collection is a function of the map that holds it.
 */
module KeyOrder {

  type Key = string

  /** Lexicographic order on keys; a proper prefix comes first. */
  predicate KeyLeq(a: Key, b: Key)
  {
    |a| == 0 || (|b| > 0 && (a[0] < b[0] || (a[0] == b[0] && KeyLeq(a[1..], b[1..]))))
  }

  predicate KeyLess(a: Key, b: Key)
  {
    KeyLeq(a, b) && a != b
  }

  lemma {:induction false} KeyLeqTotal(a: Key, b: Key)
    ensures KeyLeq(a, b) || KeyLeq(b, a)
  {
    if |a| > 0 && |b| > 0 && a[0] == b[0] {
      KeyLeqTotal(a[1..], b[1..]);
    }
  }

  lemma {:induction false} KeyLeqReflexive(a: Key)
    ensures KeyLeq(a, a)
  {
    if |a| > 0 { KeyLeqReflexive(a[1..]); }
  }

  lemma {:induction false} KeyLeqAntisymmetric(a: Key, b: Key)
    requires KeyLeq(a, b) && KeyLeq(b, a)
    ensures a == b
  {
    if |a| > 0 && |b| > 0 {
      KeyLeqAntisymmetric(a[1..], b[1..]);
      assert a == [a[0]] + a[1..] && b == [b[0]] + b[1..];
    }
  }

  lemma {:induction false} KeyLeqTransitive(a: Key, b: Key, c: Key)
    requires KeyLeq(a, b) && KeyLeq(b, c)
    ensures KeyLeq(a, c)
  {
    if |a| > 0 && |b| > 0 && |c| > 0 && a[0] == b[0] == c[0] {
      KeyLeqTransitive(a[1..], b[1..], c[1..]);
    }
  }

  predicate IsLeast(k: Key, ks: set<Key>)
  {
    k in ks && forall j :: j in ks ==> KeyLeq(k, j)
  }

  lemma {:induction false} LeastKeyExists(ks: set<Key>)
    requires ks != {}
    ensures exists k :: IsLeast(k, ks)
    decreases ks
  {
    var x :| x in ks;
    KeyLeqReflexive(x);
    if ks - {x} == {} {
      assert ks == {x};
      assert IsLeast(x, ks);
    } else {
      LeastKeyExists(ks - {x});
      var y :| IsLeast(y, ks - {x});
      KeyLeqTotal(x, y);
      if KeyLeq(x, y) {
        forall j | j in ks ensures KeyLeq(x, j) {
          if j != x { KeyLeqTransitive(x, y, j); }
        }
        assert IsLeast(x, ks);
      } else {
        assert IsLeast(y, ks);
      }
    }
  }

  lemma LeastKeyUnique(ks: set<Key>)
    ensures forall k, k' :: IsLeast(k, ks) && IsLeast(k', ks) ==> k == k'
  {
    forall k, k' | IsLeast(k, ks) && IsLeast(k', ks) ensures k == k' {
      KeyLeqAntisymmetric(k, k');
    }
  }

  /** The keys of a collection in the order its children are listed. */
  function SortedKeys(ks: set<Key>): (r: seq<Key>)
    ensures |r| == |ks|
    ensures forall k :: k in r <==> k in ks
    ensures forall i, j :: 0 <= i < j < |r| ==> KeyLess(r[i], r[j])
    decreases ks
  {
    if ks == {} then []
    else
      LeastKeyExists(ks);
      LeastKeyUnique(ks);
      var k :| IsLeast(k, ks);
      var rest := SortedKeys(ks - {k});
      [k] + rest
  }

  /** The values stored under the keys `ks`, in that order. */
  function ValuesAt<V>(m: map<Key, V>, ks: seq<Key>): (r: seq<V>)
    requires forall k :: k in ks ==> k in m
    ensures |r| == |ks|
    ensures forall i :: 0 <= i < |ks| ==> r[i] == m[ks[i]]
  {
    if ks == [] then [] else [m[ks[0]]] + ValuesAt(m, ks[1..])
  }

  /** The values at keys `ks` are exactly the values stored under the keys of `m`. */
  lemma ValuesAtCoversAll<V>(m: map<Key, V>, ks: seq<Key>)
    requires forall k :: k in ks <==> k in m
    ensures forall v :: v in ValuesAt(m, ks) <==> v in m.Values
  {
    var r := ValuesAt(m, ks);
    forall v | v in m.Values ensures v in r {
      var k :| k in m && m[k] == v;
      var i :| 0 <= i < |ks| && ks[i] == k;
      assert r[i] == v;
    }
    forall v | v in r ensures v in m.Values {
      var i :| 0 <= i < |r| && r[i] == v;
      assert ks[i] in m && m[ks[i]] == v;
    }
  }

  /** The children of a collection, as a snapshot lists them. */
  function ChildrenOf<V(==,!new)>(m: map<Key, V>): (r: seq<V>)
    ensures |r| == |m|
    ensures forall i :: 0 <= i < |r| ==> r[i] == m[SortedKeys(m.Keys)[i]]
    ensures forall v :: v in r <==> v in m.Values
  {
    var ks := SortedKeys(m.Keys);
    ValuesAtCoversAll(m, ks);
    ValuesAt(m, ks)
  }
}
