/** Totals of the counts held in a map, independent of the order in which the
    keys are visited. */
module Sums {

  /** The sum of the values of `m`. */
  ghost function SumValues<K>(m: map<K, nat>): nat
    decreases |m.Keys|
  {
    if m.Keys == {} then 0
    else
      var k :| k in m.Keys;
      m[k] + SumValues(m - {k})
  }

  /** Any key may be taken out first. */
  lemma {:induction false} SumValuesRemove<K>(m: map<K, nat>, k: K)
    requires k in m
    ensures SumValues(m) == m[k] + SumValues(m - {k})
    decreases |m.Keys|
  {
    var j :| j in m.Keys && SumValues(m) == m[j] + SumValues(m - {j});
    if j != k {
      var mj, mk := m - {j}, m - {k};
      SumValuesRemove(mj, k);
      SumValuesRemove(mk, j);
      assert mj - {k} == mk - {j};
    }
  }

  /** Setting one key: the total changes by the difference. */
  lemma SumValuesUpdate<K>(m: map<K, nat>, k: K, v: nat)
    ensures SumValues(m[k := v]) + (if k in m then m[k] else 0) == SumValues(m) + v
  {
    var m' := m[k := v];
    SumValuesRemove(m', k);
    assert m' - {k} == m - {k};
    if k in m {
      SumValuesRemove(m, k);
    } else {
      assert m - {k} == m;
    }
  }

  /** The empty map sums to zero. */
  lemma SumValuesEmpty<K>(m: map<K, nat>)
    requires m.Keys == {}
    ensures SumValues(m) == 0
  {
  }

  /** The entries of `m` whose key satisfies `p`. */
  ghost function Restrict(m: map<string, nat>, p: string -> bool): (r: map<string, nat>)
    ensures forall k :: k in r <==> k in m && p(k)
    ensures forall k :: k in r ==> r[k] == m[k]
  {
    map k | k in m && p(k) :: m[k]
  }

  /** A new key adds its value to every restriction that admits it. */
  lemma RestrictAdd(m: map<string, nat>, k: string, v: nat, p: string -> bool)
    requires k !in m
    ensures SumValues(Restrict(m[k := v], p)) == SumValues(Restrict(m, p)) + (if p(k) then v else 0)
  {
    var r := Restrict(m, p);
    if p(k) {
      assert Restrict(m[k := v], p) == r[k := v];
      SumValuesUpdate(r, k, v);
    } else {
      assert Restrict(m[k := v], p) == r;
    }
  }

  /** Sum of `m` over the keys listed in `ks`, in that order. */
  ghost function SumAlong<K>(m: map<K, nat>, ks: seq<K>): nat
    requires forall i :: 0 <= i < |ks| ==> ks[i] in m
  {
    if |ks| == 0 then 0 else SumAlong(m, ks[..|ks| - 1]) + m[ks[|ks| - 1]]
  }

  /** Visiting every key once, in any order, gives the total. */
  lemma {:induction false} SumAlongAll<K>(m: map<K, nat>, ks: seq<K>)
    requires forall i, j :: 0 <= i < j < |ks| ==> ks[i] != ks[j]
    requires forall k :: k in m <==> k in ks
    ensures SumAlong(m, ks) == SumValues(m)
    decreases |ks|
  {
    if |ks| == 0 {
      assert m.Keys == {};
    } else {
      var last := ks[|ks| - 1];
      var init := ks[..|ks| - 1];
      var m' := m - {last};
      forall k ensures k in m' <==> k in init {
        if k in init {
          var i :| 0 <= i < |init| && init[i] == k;
          assert ks[i] == k;
        }
        if k in ks && k != last {
          var i :| 0 <= i < |ks| && ks[i] == k;
          assert i < |ks| - 1;
          assert init[i] == k;
        }
      }
      SumAlongAll(m', init);
      SumAlongFrame(m, m', init);
      SumValuesRemove(m, last);
    }
  }

  /** `SumAlong` only looks at the listed keys. */
  lemma {:induction false} SumAlongFrame<K>(m: map<K, nat>, m': map<K, nat>, ks: seq<K>)
    requires forall i :: 0 <= i < |ks| ==> ks[i] in m && ks[i] in m' && m[ks[i]] == m'[ks[i]]
    ensures SumAlong(m, ks) == SumAlong(m', ks)
  {
    if |ks| > 0 {
      SumAlongFrame(m, m', ks[..|ks| - 1]);
    }
  }
}
