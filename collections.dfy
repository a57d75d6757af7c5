/**
 * Key enumerations and order-independent sums over maps. A store hands out its
 * keys in an order the storage layer does not control; these definitions let a
 * contract say what a loop over such an enumeration computes without naming the
 * order.
 */
module Collections {
  import opened Js

  /** `s` enumerates `keys`: every key exactly once, in some order. */
  ghost predicate Lists(s: seq<string>, keys: set<string>) {
    && (forall i, j :: 0 <= i < j < |s| ==> s[i] != s[j])
    && (forall k :: k in keys <==> k in s)
  }

  lemma {:induction false} ListsLength(s: seq<string>, keys: set<string>)
    requires Lists(s, keys)
    ensures |s| == |keys|
  {
    if s != [] {
      var rest := keys - {s[0]};
      forall k ensures k in rest <==> k in s[1..] {
        if k in s[1..] {
          var j :| 1 <= j < |s| && s[j] == k;
          assert s[0] != s[j];
        }
        if k in s && k != s[0] {
          var j :| 0 <= j < |s| && s[j] == k;
          assert j != 0;
          assert s[1..][j - 1] == k;
        }
      }
      assert Lists(s[1..], rest);
      ListsLength(s[1..], rest);
    }
  }

  /** Every finite set of keys has an enumeration. */
  lemma {:induction false} ListsExist(keys: set<string>)
    ensures exists s :: Lists(s, keys)
    decreases |keys|
  {
    if keys == {} {
      assert Lists([], keys);
    } else {
      var x :| x in keys;
      ListsExist(keys - {x});
      var s :| Lists(s, keys - {x});
      var t := [x] + s;
      assert forall i :: 0 < i < |t| ==> t[i] == s[i - 1];
      assert Lists(t, keys);
    }
  }

  /** `ks.filter(k => k.startsWith(p))`. */
  function KeepPrefixed(ks: seq<string>, p: string): (r: seq<string>)
    ensures forall k :: k in r <==> k in ks && p <= k
    ensures (forall i, j :: 0 <= i < j < |ks| ==> ks[i] != ks[j]) ==>
              (forall i, j :: 0 <= i < j < |r| ==> r[i] != r[j])
  {
    if ks == [] then []
    else
      var rest := KeepPrefixed(ks[1..], p);
      assert forall k :: k in ks[1..] ==> k in ks;
      if p <= ks[0] then
        assert (forall i, j :: 0 <= i < j < |ks| ==> ks[i] != ks[j]) ==> ks[0] !in ks[1..];
        [ks[0]] + rest
      else rest
  }

  /** The keys in `ks`, as a set. */
  function KeySet(ks: seq<string>): set<string> {
    set k | k in ks
  }

  /** The part of `m` whose keys lie in `ks`. */
  function Restrict<V>(m: map<string, V>, ks: set<string>): (r: map<string, V>)
    ensures r.Keys == m.Keys * ks
    ensures forall k :: k in r ==> r[k] == m[k]
  {
    map k | k in m && k in ks :: m[k]
  }

  /** The values stored under `ks`, in that order. */
  function Pick<V>(m: map<string, V>, ks: seq<string>): (r: seq<V>)
    requires forall k :: k in ks ==> k in m
    ensures |r| == |ks| && forall i :: 0 <= i < |ks| ==> r[i] == m[ks[i]]
  {
    seq(|ks|, i requires 0 <= i < |ks| => m[ks[i]])
  }

  /** `r` holds the values of `m`, one per key, in some order. */
  ghost predicate HoldsValues<V>(r: seq<V>, m: map<string, V>) {
    exists ks :: Lists(ks, m.Keys) && multiset(r) == multiset(Pick(m, ks))
  }

  lemma HoldsValuesOfEmpty<V>(r: seq<V>, m: map<string, V>)
    requires HoldsValues(r, m)
    ensures r == [] <==> m == map[]
  {
    var ks :| Lists(ks, m.Keys) && multiset(r) == multiset(Pick(m, ks));
    ListsLength(ks, m.Keys);
    assert |multiset(r)| == |r|;
    if m == map[] {
      assert |ks| == 0;
    } else {
      assert |ks| > 0;
    }
  }

  /** `ks.filter(k => m[k])`: the keys whose stored value is truthy. */
  function KeepTruthy(m: map<string, Json>, ks: seq<string>): (r: seq<string>)
    requires forall k :: k in ks ==> k in m
    ensures forall k :: k in r <==> k in ks && Truthy(m[k])
    ensures (forall i, j :: 0 <= i < j < |ks| ==> ks[i] != ks[j]) ==>
              (forall i, j :: 0 <= i < j < |r| ==> r[i] != r[j])
  {
    if ks == [] then []
    else
      var rest := KeepTruthy(m, ks[1..]);
      assert forall k :: k in ks[1..] ==> k in ks;
      if Truthy(m[ks[0]]) then
        assert (forall i, j :: 0 <= i < j < |ks| ==> ks[i] != ks[j]) ==> ks[0] !in ks[1..];
        [ks[0]] + rest
      else rest
  }

  lemma {:induction false} KeepTruthySnoc(m: map<string, Json>, ks: seq<string>, k: string)
    requires (forall j :: j in ks ==> j in m) && k in m
    ensures KeepTruthy(m, ks + [k]) == KeepTruthy(m, ks) + (if Truthy(m[k]) then [k] else [])
  {
    if ks != [] {
      assert (ks + [k])[1..] == ks[1..] + [k];
      KeepTruthySnoc(m, ks[1..], k);
    }
  }

  lemma {:induction false} KeepPrefixedSnoc(ks: seq<string>, k: string, p: string)
    ensures KeepPrefixed(ks + [k], p) == KeepPrefixed(ks, p) + (if p <= k then [k] else [])
  {
    if ks != [] {
      assert (ks + [k])[1..] == ks[1..] + [k];
      KeepPrefixedSnoc(ks[1..], k, p);
    }
  }

  /** One step of a listing loop: the next key contributes its value when that is truthy. */
  lemma {:induction false} PickTruthyStep(m: map<string, Json>, ks: seq<string>, i: nat)
    requires (forall k :: k in ks ==> k in m) && i < |ks|
    ensures forall k :: k in ks[..i] ==> k in m
    ensures Pick(m, KeepTruthy(m, ks[..i + 1]))
         == Pick(m, KeepTruthy(m, ks[..i])) + (if Truthy(m[ks[i]]) then [m[ks[i]]] else [])
  {
    assert ks[..i + 1] == ks[..i] + [ks[i]];
    assert forall k :: k in ks[..i] ==> k in ks;
    KeepTruthySnoc(m, ks[..i], ks[i]);
  }

  /** One step of a loop that copies a store key by key. */
  lemma RestrictStep<V>(m: map<string, V>, ks: seq<string>, j: nat)
    requires j < |ks| && ks[j] in m
    ensures Restrict(m, KeySet(ks[..j + 1])) == Restrict(m, KeySet(ks[..j]))[ks[j] := m[ks[j]]]
  {
    assert ks[..j + 1] == ks[..j] + [ks[j]];
    assert KeySet(ks[..j + 1]) == KeySet(ks[..j]) + {ks[j]};
  }

  lemma RestrictAll<V>(m: map<string, V>, ks: seq<string>)
    requires Lists(ks, m.Keys)
    ensures Restrict(m, KeySet(ks)) == m
  {
  }

  /** `m` after writing the entries of `e` listed in `ks`, in that order. */
  function Merged<V>(m: map<string, V>, e: map<string, V>, ks: seq<string>): map<string, V> {
    if ks == [] then m
    else
      var k := ks[|ks| - 1];
      var r := Merged(m, e, ks[..|ks| - 1]);
      if k in e then r[k := e[k]] else r
  }

  lemma {:induction false} MergedRestrict<V>(m: map<string, V>, e: map<string, V>, ks: seq<string>)
    ensures Merged(m, e, ks) == m + Restrict(e, KeySet(ks))
  {
    if ks != [] {
      var init := ks[..|ks| - 1];
      MergedRestrict(m, e, init);
      assert ks == init + [ks[|ks| - 1]];
      assert KeySet(ks) == KeySet(init) + {ks[|ks| - 1]};
    }
  }

  /** Writing every key of `e` merges all of `e` into `m`. */
  lemma MergedCovering<V>(m: map<string, V>, e: map<string, V>, ks: seq<string>)
    requires forall k :: k in e ==> k in ks
    ensures Merged(m, e, ks) == m + e
  {
    MergedRestrict(m, e, ks);
    RestrictCovering(e, ks);
  }

  /** A key outside `m` adds nothing to the part of `m` selected so far. */
  lemma RestrictSkip<V>(m: map<string, V>, ks: seq<string>, j: nat)
    requires j < |ks| && ks[j] !in m
    ensures Restrict(m, KeySet(ks[..j + 1])) == Restrict(m, KeySet(ks[..j]))
  {
    assert ks[..j + 1] == ks[..j] + [ks[j]];
    assert KeySet(ks[..j + 1]) == KeySet(ks[..j]) + {ks[j]};
  }

  /** Keys that cover `m` select all of it. */
  lemma RestrictCovering<V>(m: map<string, V>, ks: seq<string>)
    requires forall k :: k in m ==> k in ks
    ensures Restrict(m, KeySet(ks)) == m
  {
  }

  /** The map left when every key that starts with `p` is removed. */
  function WithoutPrefix(items: map<string, string>, p: string): (r: map<string, string>)
    ensures forall k :: k in r <==> k in items && !(p <= k)
    ensures forall k :: k in r ==> r[k] == items[k]
  {
    map k | k in items && !(p <= k) :: items[k]
  }

  /** Filtering an enumeration of the keys keeps an enumeration of the truthy ones. */
  lemma TruthyListed(m: map<string, Json>, ks: seq<string>)
    requires Lists(ks, m.Keys)
    ensures Lists(KeepTruthy(m, ks), set k | k in m && Truthy(m[k]))
  {
  }

  lemma PrefixedListed(ks: seq<string>, keys: set<string>, p: string)
    requires Lists(ks, keys)
    ensures Lists(KeepPrefixed(ks, p), set k | k in keys && p <= k)
  {
  }

  /** Reordering a listing of the values keeps it a listing. */
  lemma HoldsValuesPermuted<V>(a: seq<V>, b: seq<V>, m: map<string, V>)
    requires HoldsValues(a, m) && multiset(a) == multiset(b)
    ensures HoldsValues(b, m)
  {
    var ks :| Lists(ks, m.Keys) && multiset(a) == multiset(Pick(m, ks));
    assert Lists(ks, m.Keys) && multiset(b) == multiset(Pick(m, ks));
  }

  /** Some enumeration of `s`; nothing is promised about its order. */
  method Enumerate(s: set<string>) returns (ks: seq<string>)
    ensures Lists(ks, s)
  {
    ks := [];
    var rest := s;
    while rest != {}
      invariant forall i, j :: 0 <= i < j < |ks| ==> ks[i] != ks[j]
      invariant forall k :: k in s <==> k in ks || k in rest
      invariant forall k :: k in ks ==> k !in rest
      decreases rest
    {
      var k :| k in rest;
      ks := ks + [k];
      rest := rest - {k};
    }
  }

  /** The sum of the values of `m`. */
  ghost function Total(m: map<string, nat>): nat
    decreases m.Keys
  {
    if m.Keys == {} then 0
    else
      var k :| k in m.Keys;
      m[k] + Total(m - {k})
  }

  lemma {:induction false} TotalRemove(m: map<string, nat>, k: string)
    requires k in m
    ensures Total(m) == m[k] + Total(m - {k})
    decreases m.Keys
  {
    var j :| j in m.Keys && Total(m) == m[j] + Total(m - {j});
    if j != k {
      var mj, mk := m - {j}, m - {k};
      assert mj.Keys < m.Keys && mk.Keys < m.Keys;
      TotalRemove(mj, k);
      TotalRemove(mk, j);
      assert mj - {k} == mk - {j};
    }
  }

  lemma TotalAdd(m: map<string, nat>, k: string, n: nat)
    requires k !in m
    ensures Total(m[k := n]) == Total(m) + n
  {
    TotalRemove(m[k := n], k);
    assert m[k := n] - {k} == m;
  }

  /** The sum of `m[k]` over the keys `k` of `ks` that `m` holds, in the order of `ks`. */
  function SumOver(m: map<string, nat>, ks: seq<string>): nat {
    if ks == [] then 0
    else (if ks[0] in m then m[ks[0]] else 0) + SumOver(m, ks[1..])
  }

  lemma {:induction false} SumOverSnoc(m: map<string, nat>, ks: seq<string>, k: string)
    ensures SumOver(m, ks + [k]) == SumOver(m, ks) + (if k in m then m[k] else 0)
  {
    if ks != [] {
      assert (ks + [k])[1..] == ks[1..] + [k];
      SumOverSnoc(m, ks[1..], k);
    } else {
      assert [k][1..] == [];
    }
  }

  /** One more key of an enumeration adds its value to the running sum. */
  lemma SumOverStep(m: map<string, nat>, ks: seq<string>, j: nat)
    requires j < |ks|
    ensures SumOver(m, ks[..j + 1]) == SumOver(m, ks[..j]) + (if ks[j] in m then m[ks[j]] else 0)
  {
    assert ks[..j + 1] == ks[..j] + [ks[j]];
    SumOverSnoc(m, ks[..j], ks[j]);
  }

  /** Summing over keys without repeats sums exactly the part of `m` they select. */
  lemma {:induction false} SumOverListed(m: map<string, nat>, ks: seq<string>)
    requires forall a, b :: 0 <= a < b < |ks| ==> ks[a] != ks[b]
    ensures SumOver(m, ks) == Total(Restrict(m, KeySet(ks)))
  {
    if ks == [] {
      assert KeySet(ks) == {};
      assert Restrict(m, KeySet(ks)) == map[];
      TotalOfEmpty(map[]);
    } else {
      var rest := Restrict(m, KeySet(ks[1..]));
      SumOverListed(m, ks[1..]);
      assert KeySet(ks) == KeySet(ks[1..]) + {ks[0]};
      assert ks[0] !in KeySet(ks[1..]);
      if ks[0] in m {
        assert Restrict(m, KeySet(ks)) == rest[ks[0] := m[ks[0]]];
        TotalAdd(rest, ks[0], m[ks[0]]);
      } else {
        assert Restrict(m, KeySet(ks)) == rest;
      }
    }
  }

  /** Every key of `m` with the value 1: summing it counts the keys. */
  function Ones(m: map<string, nat>): (r: map<string, nat>)
    ensures r.Keys == m.Keys
    ensures forall k :: k in r ==> r[k] == 1
  {
    map k | k in m :: 1
  }

  lemma {:induction false} TotalOnes(m: map<string, nat>)
    ensures Total(Ones(m)) == |m|
    decreases |m|
  {
    if m == map[] {
      assert Ones(m) == map[];
    } else {
      var k :| k in m;
      TotalRemove(Ones(m), k);
      assert Ones(m) - {k} == Ones(m - {k});
      assert m.Keys == (m - {k}).Keys + {k};
      assert |m.Keys| == |(m - {k}).Keys| + 1;
      TotalOnes(m - {k});
    }
  }

  lemma TotalOfEmpty(m: map<string, nat>)
    requires m == map[]
    ensures Total(m) == 0
  {
  }
}
