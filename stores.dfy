/**
 * The four namespaced key-value stores of the storage manager and the
 * localStorage layout its fallback wrappers use for them.
 */
module Stores {
  import opened Js
  import opened Collections

  /** The keys of `storageInstances`, in the order `Object.entries` lists them. */
  datatype Namespace = AppData | Cache | Settings | OfflineQueue {
    function Name(): string {
      match this
      case AppData => "appData"
      case Cache => "cache"
      case Settings => "settings"
      case OfflineQueue => "offlineQueue"
    }

    /** The prefix the localStorage wrapper of this namespace puts before each key. */
    function Prefix(): (p: string)
      ensures |p| >= 12 && p[..11] == "excalidraw_"
    {
      match this
      case AppData => "excalidraw_app_"
      case Cache => "excalidraw_cache_"
      case Settings => "excalidraw_settings_"
      case OfflineQueue => "excalidraw_queue_"
    }
  }

  const Namespaces: seq<Namespace> := [AppData, Cache, Settings, OfflineQueue]

  /** A loop over `Namespaces` has visited one more store after each pass. */
  lemma NamespacesStep(i: nat)
    requires i < |Namespaces|
    ensures forall ns :: ns in Namespaces[..i + 1] <==> ns in Namespaces[..i] || ns == Namespaces[i]
  {
    assert Namespaces[..i + 1] == Namespaces[..i] + [Namespaces[i]];
  }

  lemma NamespacesListed()
    ensures forall ns :: ns in Namespaces
    ensures forall i, j :: 0 <= i < j < |Namespaces| ==> Namespaces[i] != Namespaces[j]
  {
    forall ns ensures ns in Namespaces {
      match ns
      case AppData => assert Namespaces[0] == ns;
      case Cache => assert Namespaces[1] == ns;
      case Settings => assert Namespaces[2] == ns;
      case OfflineQueue => assert Namespaces[3] == ns;
    }
  }

  /** The namespace a property name of `storageInstances` denotes, if any. */
  function Named(name: string): (r: Option<Namespace>)
    ensures r.Some? ==> r.value.Name() == name
    ensures forall ns: Namespace :: ns.Name() == name ==> r == Some(ns)
  {
    if name == "appData" then Some(AppData)
    else if name == "cache" then Some(Cache)
    else if name == "settings" then Some(Settings)
    else if name == "offlineQueue" then Some(OfflineQueue)
    else None
  }

  /** No key carries two of the wrapper prefixes: they share "excalidraw_" and differ in the next character. */
  lemma {:induction false} PrefixesDisjoint(a: Namespace, b: Namespace, k: string)
    requires a != b && a.Prefix() <= k
    ensures !(b.Prefix() <= k)
  {
    assert a.Prefix()[11] != b.Prefix()[11];
    assert k[11] == a.Prefix()[11];
  }

  /** The contents of the four stores. */
  datatype Stores = Stores(appData: map<string, Json>, cache: map<string, Json>,
                           settings: map<string, Json>, offlineQueue: map<string, Json>)
  {
    function Get(ns: Namespace): map<string, Json> {
      match ns
      case AppData => appData
      case Cache => cache
      case Settings => settings
      case OfflineQueue => offlineQueue
    }

    function With(ns: Namespace, m: map<string, Json>): (r: Stores)
      ensures r.Get(ns) == m
      ensures forall o :: o != ns ==> r.Get(o) == Get(o)
    {
      match ns
      case AppData => this.(appData := m)
      case Cache => this.(cache := m)
      case Settings => this.(settings := m)
      case OfflineQueue => this.(offlineQueue := m)
    }

    function Put(ns: Namespace, key: string, v: Json): (r: Stores)
      ensures r.Get(ns) == Get(ns)[key := v]
      ensures forall o :: o != ns ==> r.Get(o) == Get(o)
    {
      With(ns, Get(ns)[key := v])
    }

    function Remove(ns: Namespace, key: string): (r: Stores)
      ensures r.Get(ns) == Get(ns) - {key}
      ensures forall o :: o != ns ==> r.Get(o) == Get(o)
    {
      With(ns, Get(ns) - {key})
    }
  }

  /** Two store contents are equal when every namespace is. */
  lemma StoresEqual(a: Stores, b: Stores)
    requires forall ns :: a.Get(ns) == b.Get(ns)
    ensures a == b
  {
    assert a.Get(AppData) == b.Get(AppData) && a.Get(Cache) == b.Get(Cache);
    assert a.Get(Settings) == b.Get(Settings) && a.Get(OfflineQueue) == b.Get(OfflineQueue);
  }

  const Empty := Stores(map[], map[], map[], map[])

  /** `getItem(key)`: the stored value, or null when the key is absent. */
  function Lookup(m: map<string, Json>, key: string): (r: Json)
    ensures key in m ==> r == m[key]
    ensures key !in m ==> r == JNull
  {
    if key in m then m[key] else JNull
  }

  // ---------------------------------------------------------------------------
  // The localStorage layout of the fallback wrappers.

  predicate IsWrapperKey(k: string) {
    AppData.Prefix() <= k || Cache.Prefix() <= k || Settings.Prefix() <= k || OfflineQueue.Prefix() <= k
  }

  lemma WrapperKeyOf(ns: Namespace, k: string)
    requires ns.Prefix() <= k
    ensures IsWrapperKey(k)
  {
  }

  /**
   * Whether a wrapper's `getItem` returns for the localStorage key `k`: an
   * absent or empty item reads as null, anything else goes to `JSON.parse`,
   * which throws unless it is JSON text.
   */
  predicate Parses(pl: Platform, items: map<string, string>, k: string) {
    k !in items || items[k] == "" || pl.parse(items[k]).Some?
  }

  /** Every localStorage key starting with `q` is readable. */
  ghost predicate PrefixParses(pl: Platform, items: map<string, string>, q: string) {
    forall k :: k in items && q <= k ==> Parses(pl, items, k)
  }

  /** The localStorage keys under `pre + p` are the keys under `p` of the store a wrapper with prefix `pre` presents. */
  lemma {:induction false} PrefixParsesView(items: map<string, string>, pl: Platform, pre: string, p: string)
    ensures PrefixParses(pl, items, pre + p) <==>
      forall key :: key in WrapperView(items, pl, pre) && p <= key ==> Parses(pl, items, pre + key)
  {
    if forall key :: key in WrapperView(items, pl, pre) && p <= key ==> Parses(pl, items, pre + key) {
      forall k | k in items && pre + p <= k ensures Parses(pl, items, k) {
        var key := k[|pre|..];
        assert k == pre + key;
        WrapperViewAt(items, pl, pre, key);
        assert p <= key;
      }
    }
  }

  /** What a wrapper's `getItem` makes of a stored string: `item ? JSON.parse(item) : null`. */
  function Decode(pl: Platform, s: string): Json {
    if s == "" then JNull
    else match pl.parse(s)
      case Some(v) => v
      case None => JNull
  }

  lemma DecodeEncode(pl: Platform, v: Json)
    requires Lawful(pl)
    ensures Decode(pl, pl.stringify(v)) == v
  {
  }

  /** The store a wrapper with prefix `p` presents: the prefixed keys, prefix stripped, values decoded. */
  function WrapperView(items: map<string, string>, pl: Platform, p: string): map<string, Json> {
    var keys := set k | k in items && p <= k :: k[|p|..];
    map key | key in keys :: if p + key in items then Decode(pl, items[p + key]) else JNull
  }

  function WrapperStores(items: map<string, string>, pl: Platform): Stores {
    Stores(WrapperView(items, pl, AppData.Prefix()), WrapperView(items, pl, Cache.Prefix()),
           WrapperView(items, pl, Settings.Prefix()), WrapperView(items, pl, OfflineQueue.Prefix()))
  }

  lemma WrapperStoresGet(items: map<string, string>, pl: Platform, ns: Namespace)
    ensures WrapperStores(items, pl).Get(ns) == WrapperView(items, pl, ns.Prefix())
  {
  }

  /** The localStorage entries that belong to no wrapper (the legacy layout among them). */
  function Foreign(items: map<string, string>): (r: map<string, string>)
    ensures forall k :: k in r <==> k in items && !IsWrapperKey(k)
    ensures forall k :: k in r ==> r[k] == items[k]
  {
    map k | k in items && !IsWrapperKey(k) :: items[k]
  }

  /** `key` is in a wrapper's store exactly when `p + key` is in localStorage. */
  lemma {:induction false} WrapperViewAt(items: map<string, string>, pl: Platform, p: string, key: string)
    ensures key in WrapperView(items, pl, p) <==> p + key in items
    ensures p + key in items ==> WrapperView(items, pl, p)[key] == Decode(pl, items[p + key])
  {
    var full := p + key;
    assert full[|p|..] == key;
    if key in WrapperView(items, pl, p) {
      var k :| k in items && p <= k && k[|p|..] == key;
      assert k == p + k[|p|..];
    }
    if full in items {
      assert p <= full;
    }
  }

  /** Two localStorage states that agree on the keys with prefix `p` present the same store. */
  lemma {:induction false} WrapperViewUntouched(a: map<string, string>, b: map<string, string>, pl: Platform, p: string)
    requires forall k :: p <= k ==> (k in a <==> k in b)
    requires forall k :: p <= k && k in a ==> a[k] == b[k]
    ensures WrapperView(a, pl, p) == WrapperView(b, pl, p)
  {
    forall key ensures key in WrapperView(a, pl, p) <==> key in WrapperView(b, pl, p) {
      WrapperViewAt(a, pl, p, key);
      WrapperViewAt(b, pl, p, key);
      assert p <= p + key;
    }
    forall key | key in WrapperView(a, pl, p) ensures WrapperView(a, pl, p)[key] == WrapperView(b, pl, p)[key] {
      WrapperViewAt(a, pl, p, key);
      WrapperViewAt(b, pl, p, key);
      assert p <= p + key;
    }
  }

  lemma {:induction false} WrapperViewSet(items: map<string, string>, pl: Platform, p: string, key: string, s: string)
    ensures WrapperView(items[p + key := s], pl, p) == WrapperView(items, pl, p)[key := Decode(pl, s)]
  {
    var after := items[p + key := s];
    var expected := WrapperView(items, pl, p)[key := Decode(pl, s)];
    forall k ensures k in WrapperView(after, pl, p) <==> k in expected {
      WrapperViewAt(items, pl, p, k);
      WrapperViewAt(after, pl, p, k);
    }
    forall k | k in expected ensures WrapperView(after, pl, p)[k] == expected[k] {
      WrapperViewAt(after, pl, p, k);
      if k == key {
        assert after[p + k] == s;
      } else {
        WrapperViewAt(items, pl, p, k);
        assert p + k != p + key by {
          assert (p + k)[|p|..] == k && (p + key)[|p|..] == key;
        }
      }
    }
  }

  lemma {:induction false} WrapperViewRemove(items: map<string, string>, pl: Platform, p: string, key: string)
    ensures WrapperView(items - {p + key}, pl, p) == WrapperView(items, pl, p) - {key}
  {
    var after := items - {p + key};
    var expected := WrapperView(items, pl, p) - {key};
    forall k ensures k in WrapperView(after, pl, p) <==> k in expected {
      WrapperViewAt(items, pl, p, k);
      WrapperViewAt(after, pl, p, k);
    }
    forall k | k in expected ensures WrapperView(after, pl, p)[k] == expected[k] {
      WrapperViewAt(items, pl, p, k);
      WrapperViewAt(after, pl, p, k);
    }
  }

  lemma {:induction false} WrapperViewCleared(items: map<string, string>, pl: Platform, p: string)
    requires forall k :: k in items ==> !(p <= k)
    ensures WrapperView(items, pl, p) == map[]
  {
    forall key ensures key !in WrapperView(items, pl, p) {
      WrapperViewAt(items, pl, p, key);
      assert p <= p + key;
    }
  }

  lemma {:induction false} WrapperSetAt(items: map<string, string>, pl: Platform, ns: Namespace, o: Namespace,
                                        key: string, s: string)
    ensures WrapperView(items[ns.Prefix() + key := s], pl, o.Prefix())
         == WrapperStores(items, pl).Put(ns, key, Decode(pl, s)).Get(o)
  {
    WrapperStoresGet(items, pl, o);
    if o == ns {
      WrapperViewSet(items, pl, ns.Prefix(), key, s);
    } else {
      if o.Prefix() <= ns.Prefix() + key {
        PrefixesDisjoint(o, ns, ns.Prefix() + key);
      }
      WrapperViewUntouched(items[ns.Prefix() + key := s], items, pl, o.Prefix());
    }
  }

  /** Writing or removing a wrapper key leaves the foreign entries as they were. */
  lemma ForeignUntouched(a: map<string, string>, b: map<string, string>, k: string)
    requires IsWrapperKey(k)
    requires forall j :: j != k ==> (j in a <==> j in b)
    requires forall j :: j != k && j in a ==> a[j] == b[j]
    ensures Foreign(a) == Foreign(b)
  {
  }

  /** `keys.map(key => key.replace(prefix, ''))` for keys that start with the prefix. */
  function Stripped(ks: seq<string>, p: string): (r: seq<string>)
    requires forall i :: 0 <= i < |ks| ==> p <= ks[i]
    ensures |r| == |ks| && forall i :: 0 <= i < |ks| ==> ks[i] == p + r[i]
  {
    seq(|ks|, i requires 0 <= i < |ks| => ks[i][|p|..])
  }

  /** A wrapper's `keys()` lists exactly the keys of its store. */
  lemma {:induction false} WrapperKeysListed(items: map<string, string>, pl: Platform, all: seq<string>, p: string)
    requires Lists(all, items.Keys)
    ensures forall i :: 0 <= i < |KeepPrefixed(all, p)| ==> p <= KeepPrefixed(all, p)[i]
    ensures Lists(Stripped(KeepPrefixed(all, p), p), WrapperView(items, pl, p).Keys)
  {
    var pk := KeepPrefixed(all, p);
    assert forall i :: 0 <= i < |pk| ==> pk[i] in pk;
    var r := Stripped(pk, p);
    forall key ensures key in WrapperView(items, pl, p) <==> key in r {
      WrapperViewAt(items, pl, p, key);
      assert p <= p + key;
      if p + key in items {
        var i :| 0 <= i < |pk| && pk[i] == p + key;
        assert r[i] == key;
      }
      if key in r {
        var i :| 0 <= i < |r| && r[i] == key;
        assert pk[i] in pk;
      }
    }
  }

  /** A wrapper's `setItem` changes its own store and no other. */
  lemma {:induction false} WrapperSet(items: map<string, string>, pl: Platform, ns: Namespace, key: string, s: string)
    ensures WrapperStores(items[ns.Prefix() + key := s], pl)
         == WrapperStores(items, pl).Put(ns, key, Decode(pl, s))
    ensures Foreign(items[ns.Prefix() + key := s]) == Foreign(items)
  {
    var after := items[ns.Prefix() + key := s];
    forall o ensures WrapperStores(after, pl).Get(o) == WrapperStores(items, pl).Put(ns, key, Decode(pl, s)).Get(o) {
      WrapperStoresGet(after, pl, o);
      WrapperSetAt(items, pl, ns, o, key, s);
    }
    StoresEqual(WrapperStores(after, pl), WrapperStores(items, pl).Put(ns, key, Decode(pl, s)));
    WrapperKeyOf(ns, ns.Prefix() + key);
    ForeignUntouched(items[ns.Prefix() + key := s], items, ns.Prefix() + key);
  }

  /** A wrapper's `removeItem` changes its own store and no other. */
  lemma {:induction false} WrapperRemove(items: map<string, string>, pl: Platform, ns: Namespace, key: string)
    ensures WrapperStores(items - {ns.Prefix() + key}, pl) == WrapperStores(items, pl).Remove(ns, key)
    ensures Foreign(items - {ns.Prefix() + key}) == Foreign(items)
  {
    var after := items - {ns.Prefix() + key};
    forall o ensures WrapperStores(after, pl).Get(o) == WrapperStores(items, pl).Remove(ns, key).Get(o) {
      if o == ns {
        WrapperViewRemove(items, pl, ns.Prefix(), key);
      } else {
        if o.Prefix() <= ns.Prefix() + key {
          PrefixesDisjoint(o, ns, ns.Prefix() + key);
        }
        WrapperViewUntouched(after, items, pl, o.Prefix());
      }
    }
    StoresEqual(WrapperStores(after, pl), WrapperStores(items, pl).Remove(ns, key));
    WrapperKeyOf(ns, ns.Prefix() + key);
  }

  /** Writing or removing a key that carries no wrapper prefix leaves every wrapper store as it was. */
  lemma {:induction false} ForeignWrite(items: map<string, string>, after: map<string, string>, pl: Platform, k: string)
    requires !IsWrapperKey(k)
    requires forall j :: j != k ==> (j in after <==> j in items)
    requires forall j :: j != k && j in items ==> after[j] == items[j]
    ensures WrapperStores(after, pl) == WrapperStores(items, pl)
  {
    WrapperViewUntouched(after, items, pl, AppData.Prefix());
    WrapperViewUntouched(after, items, pl, Cache.Prefix());
    WrapperViewUntouched(after, items, pl, Settings.Prefix());
    WrapperViewUntouched(after, items, pl, OfflineQueue.Prefix());
  }

  /** A wrapper's `clear()` empties its own store and no other. */
  lemma {:induction false} WrapperClear(items: map<string, string>, pl: Platform, ns: Namespace)
    ensures WrapperStores(WithoutPrefix(items, ns.Prefix()), pl) == WrapperStores(items, pl).With(ns, map[])
    ensures Foreign(WithoutPrefix(items, ns.Prefix())) == Foreign(items)
  {
    var after := WithoutPrefix(items, ns.Prefix());
    forall o ensures WrapperStores(after, pl).Get(o) == WrapperStores(items, pl).With(ns, map[]).Get(o) {
      if o == ns {
        WrapperViewCleared(after, pl, ns.Prefix());
      } else {
        forall k | k in items && o.Prefix() <= k ensures !(ns.Prefix() <= k) {
          PrefixesDisjoint(o, ns, k);
        }
        WrapperViewUntouched(after, items, pl, o.Prefix());
      }
    }
    StoresEqual(WrapperStores(after, pl), WrapperStores(items, pl).With(ns, map[]));
    forall k | k in items && ns.Prefix() <= k ensures IsWrapperKey(k) {
      WrapperKeyOf(ns, k);
    }
  }

  /** Writing a key no wrapper owns: the foreign part records the write. */
  lemma ForeignSet(items: map<string, string>, k: string, v: string)
    requires !IsWrapperKey(k)
    ensures Foreign(items[k := v]) == Foreign(items)[k := v]
  {
  }
}
