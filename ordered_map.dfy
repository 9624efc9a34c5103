/** A JavaScript `Map` filled by `set(ks[i], vs[i])` for i = 0, 1, ... in
    order: a later `set` with an equal key overwrites the earlier entry. */
module OrderedMap {
  /** The map after the `set` calls, as a fold from the last call. */
  function SetAll<K(==), V>(ks: seq<K>, vs: seq<V>): map<K, V>
    requires |ks| == |vs|
  {
    if ks == [] then map[]
    else SetAll(ks[..|ks| - 1], vs[..|vs| - 1])[ks[|ks| - 1] := vs[|vs| - 1]]
  }

  /** Call `i` sets key `k` and no later call does. */
  predicate LastSetAt<K(==)>(ks: seq<K>, i: int, k: K)
  {
    0 <= i < |ks| && ks[i] == k && forall j :: i < j < |ks| ==> ks[j] != k
  }

  /** The calls up to and including call `i` are those before it, then call `i`. */
  lemma SetAllStep<K, V>(ks: seq<K>, vs: seq<V>, i: int)
    requires |ks| == |vs| && 0 <= i < |ks|
    ensures SetAll(ks[..i + 1], vs[..i + 1]) == SetAll(ks[..i], vs[..i])[ks[i] := vs[i]]
  {
    assert ks[..i + 1][..i] == ks[..i];
    assert vs[..i + 1][..i] == vs[..i];
  }

  /** Every key that was set is present. */
  lemma {:induction false} SetAllKeys<K, V>(ks: seq<K>, vs: seq<V>)
    requires |ks| == |vs|
    ensures forall i :: 0 <= i < |ks| ==> ks[i] in SetAll(ks, vs)
  {
    if ks != [] {
      var n := |ks| - 1;
      SetAllKeys(ks[..n], vs[..n]);
      assert forall i :: 0 <= i < n ==> ks[..n][i] == ks[i];
    }
  }

  /** The last call with a key decides its entry. */
  lemma {:induction false} SetAllLastWins<K, V>(ks: seq<K>, vs: seq<V>, i: int)
    requires |ks| == |vs| && 0 <= i < |ks| && LastSetAt(ks, i, ks[i])
    ensures ks[i] in SetAll(ks, vs) && SetAll(ks, vs)[ks[i]] == vs[i]
  {
    var n := |ks| - 1;
    if i < n {
      LastSetRestricts(ks, i, ks[i]);
      SetAllLastWins(ks[..n], vs[..n], i);
      assert ks[..n][i] == ks[i] && vs[..n][i] == vs[i];
    }
  }

  lemma LastSetRestricts<K>(ks: seq<K>, i: int, k: K)
    requires LastSetAt(ks, i, k) && i < |ks| - 1
    ensures LastSetAt(ks[..|ks| - 1], i, k) && ks[|ks| - 1] != k
  {
    var init := ks[..|ks| - 1];
    assert forall j :: 0 <= j < |init| ==> init[j] == ks[j];
  }

  /** Every entry was stored by the last call with its key, so the map holds
      no key that was not set. */
  lemma {:induction false} SetAllValues<K, V>(ks: seq<K>, vs: seq<V>, k: K)
    requires |ks| == |vs| && k in SetAll(ks, vs)
    ensures exists i :: LastSetAt(ks, i, k) && SetAll(ks, vs)[k] == vs[i]
  {
    var n := |ks| - 1;
    if k != ks[n] {
      SetAllValues(ks[..n], vs[..n], k);
      var i :| LastSetAt(ks[..n], i, k) && SetAll(ks[..n], vs[..n])[k] == vs[..n][i];
      LastSetExtends(ks, i, k);
    } else {
      assert LastSetAt(ks, n, k);
    }
  }

  lemma LastSetExtends<K>(ks: seq<K>, i: int, k: K)
    requires ks != [] && LastSetAt(ks[..|ks| - 1], i, k) && ks[|ks| - 1] != k
    ensures LastSetAt(ks, i, k)
  {
    var init := ks[..|ks| - 1];
    forall j | i < j < |ks|
      ensures ks[j] != k
    {
      if j < |init| {
        assert ks[j] == init[j];
      }
    }
  }

  /** A key is present exactly when some call set it. */
  lemma {:induction false} SetAllDomain<K, V>(ks: seq<K>, vs: seq<V>, k: K)
    requires |ks| == |vs|
    ensures k in SetAll(ks, vs) <==> exists i :: 0 <= i < |ks| && ks[i] == k
  {
    SetAllKeys(ks, vs);
    if k in SetAll(ks, vs) {
      SetAllValues(ks, vs, k);
    }
  }

  /** There are never more entries than calls. */
  lemma {:induction false} SetAllSize<K, V>(ks: seq<K>, vs: seq<V>)
    requires |ks| == |vs|
    ensures |SetAll(ks, vs)| <= |ks|
  {
    if ks != [] {
      SetAllSize(ks[..|ks| - 1], vs[..|vs| - 1]);
    }
  }
}
