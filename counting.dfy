/** A nullable reference: `None` plays the part of C++'s `nullptr`. */
module Optional {
  datatype Option<+T> = None | Some(value: T)
}

/**
 * Counting the keys of a map that hold a given value. Both reference-counting
 * models use it: a control block's use count is the number of live owners
 * whose pointer field refers to that block.
 */
module Counting {

  /** Every address in `s` was handed out before `next`. */
  ghost predicate Below(s: set<nat>, next: nat)
  {
    forall k :: k in s ==> k < next
  }

  /** The keys of `m` that are mapped to `v`. */
  ghost function Holders<K, V>(m: map<K, V>, v: V): set<K>
  {
    set k | k in m && m[k] == v
  }

  /** How many keys of `m` are mapped to `v`. */
  ghost function Count<K, V>(m: map<K, V>, v: V): (n: nat)
    ensures n <= |m|
  {
    var s := Holders(m, v);
    SubsetCard(s, m.Keys);
    |s|
  }

  lemma SubsetCard<K>(a: set<K>, b: set<K>)
    requires a <= b
    ensures |a| <= |b|
  {
    assert b == a + (b - a);
  }

  /** Adding a key that was absent adds one holder of its value and no other. */
  lemma CountInsert<K, V>(m: map<K, V>, k: K, v: V)
    requires k !in m
    ensures forall w :: Count(m[k := v], w) == Count(m, w) + (if v == w then 1 else 0)
  {
    forall w ensures Count(m[k := v], w) == Count(m, w) + (if v == w then 1 else 0) {
      var before, after := Holders(m, w), Holders(m[k := v], w);
      assert k !in before;
      if v == w {
        assert after == before + {k};
        assert |after| == |before| + 1;
      } else {
        assert after == before;
      }
    }
  }

  /** Removing a key takes one holder away from its value and no other. */
  lemma CountRemove<K, V>(m: map<K, V>, k: K)
    requires k in m
    ensures forall w :: Count(m - {k}, w) == Count(m, w) - (if m[k] == w then 1 else 0)
  {
    forall w ensures Count(m - {k}, w) == Count(m, w) - (if m[k] == w then 1 else 0) {
      if m[k] == w {
        assert Holders(m, w) == Holders(m - {k}, w) + {k};
      } else {
        assert Holders(m - {k}, w) == Holders(m, w);
      }
    }
  }

  /** Re-pointing a present key moves one holder from its old value to its new one. */
  lemma CountUpdate<K, V>(m: map<K, V>, k: K, v: V)
    requires k in m
    ensures forall w :: Count(m[k := v], w)
                        == Count(m, w) - (if m[k] == w then 1 else 0) + (if v == w then 1 else 0)
  {
    CountRemove(m, k);
    CountInsert(m - {k}, k, v);
    assert (m - {k})[k := v] == m[k := v];
  }

  /** A value has no holder iff no key is mapped to it. */
  lemma CountZero<K, V>(m: map<K, V>, v: V)
    ensures Count(m, v) == 0 <==> forall k :: k in m ==> m[k] != v
  {
    var s := Holders(m, v);
    assert Count(m, v) == |s|;
    if |s| != 0 {
      var k :| k in s;
    } else {
      forall k | k in m ensures m[k] != v {
        assert m[k] == v ==> k in s;
      }
    }
  }

  /** A key's own value has at least one holder: the key itself. */
  lemma CountPositive<K, V>(m: map<K, V>, k: K)
    requires k in m
    ensures Count(m, m[k]) >= 1
  {
    assert k in Holders(m, m[k]);
  }

  /** A value has exactly one holder iff the one key known to hold it is the only one. */
  lemma CountOne<K, V>(m: map<K, V>, k: K)
    requires k in m
    ensures Count(m, m[k]) == 1 <==> forall j :: j in m && m[j] == m[k] ==> j == k
  {
    var s := Holders(m, m[k]);
    if forall j :: j in m && m[j] == m[k] ==> j == k {
      assert s == {k};
    } else {
      var j :| j in m && m[j] == m[k] && j != k;
      assert {j, k} <= s;
      SubsetCard({j, k}, s);
    }
  }
}
