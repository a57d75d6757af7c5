/**
 * The storage manager: four namespaced stores behind one facade. Each store is
 * a localforage instance (the primary backend) or, once initialisation has
 * failed, a wrapper over prefixed localStorage keys (the fallback). The
 * abstract state is `View()`; every operation is specified by what it does to it.
 */
module Manager {
  import opened Js
  import opened Collections
  import opened Stores
  import opened Records
  import opened Sorting
  import opened WebStorage

  datatype Backend = Primary | Fallback

  const TestKey := "_storage_test"

  /** The primary stores after every probe passed: the probe key was written and removed again. */
  function Probed(db: Stores): Stores {
    Stores(db.appData - {TestKey}, db.cache - {TestKey}, db.settings - {TestKey}, db.offlineQueue - {TestKey})
  }

  /** The object `{[ns.Name()]: f(ns)}` a loop over `Object.entries(storageInstances)` has built after visiting `nss`. */
  function Tabulate<T>(f: Namespace -> T, nss: seq<Namespace>): map<string, T> {
    if nss == [] then map[]
    else Tabulate(f, nss[..|nss| - 1])[nss[|nss| - 1].Name() := f(nss[|nss| - 1])]
  }

  lemma TabulateStep<T>(f: Namespace -> T, nss: seq<Namespace>, i: nat)
    requires i < |nss|
    ensures Tabulate(f, nss[..i + 1]) == Tabulate(f, nss[..i])[nss[i].Name() := f(nss[i])]
  {
    assert nss[..i + 1][..i] == nss[..i];
  }

  lemma TabulateAll<T>(f: Namespace -> T)
    ensures Tabulate(f, Namespaces) ==
      map["appData" := f(AppData), "cache" := f(Cache), "settings" := f(Settings), "offlineQueue" := f(OfflineQueue)]
  {
    var n := Namespaces;
    assert n[..1][..0] == [] && n[..2][..1] == n[..1] && n[..3][..2] == n[..2] && n[..3] == n[..|n| - 1];
    assert Tabulate(f, n[..1]) == map["appData" := f(AppData)];
    assert Tabulate(f, n[..2]) == map["appData" := f(AppData), "cache" := f(Cache)];
  }

  lemma TabulateLookup<T>(f: Namespace -> T)
    ensures forall name :: name in Tabulate(f, Namespaces) <==> Named(name).Some?
    ensures forall ns: Namespace :: ns.Name() in Tabulate(f, Namespaces) && Tabulate(f, Namespaces)[ns.Name()] == f(ns)
  {
    TabulateAll(f);
  }

  lemma TabulateExport(st: Stores)
    ensures Tabulate((ns: Namespace) => JObj(Exportable(st.Get(ns))), Namespaces) == ExportBody(st)
  {
    TabulateAll((ns: Namespace) => JObj(Exportable(st.Get(ns))));
  }

  /** What `getStorageUsage` reports for one store. */
  ghost function UsageOf(pl: Platform, m: map<string, Json>): Usage {
    Usage(|m|, Total(Sizes(pl, m)))
  }

  /** One write of the import's inner loop: the next entry joins those already merged in. */
  lemma MergeStep(st: Stores, ns: Namespace, e: map<string, Json>, keys: seq<string>, j: nat)
    requires j < |keys| && keys[j] in e
    ensures st.With(ns, Merged(st.Get(ns), e, keys[..j])).Put(ns, keys[j], e[keys[j]])
         == st.With(ns, Merged(st.Get(ns), e, keys[..j + 1]))
  {
    assert keys[..j + 1][..j] == keys[..j];
    var a := Merged(st.Get(ns), e, keys[..j]);
    StoresEqual(st.With(ns, a).Put(ns, keys[j], e[keys[j]]), st.With(ns, a[keys[j] := e[keys[j]]]));
  }

  class StorageManager {
    const platform: Platform
    /** The page's localStorage, which the fallback wrappers share with everything else. */
    const local: LocalStorage
    var isInitialized: bool
    var backend: Backend
    /** The contents of the four localforage instances. */
    var instances: Stores

    ghost predicate Valid()
      reads this, local
    {
      Lawful(platform) && isInitialized
    }

    /** What `storageInstances` presents: the primary stores, or all four wrappers, never a mix. */
    ghost function View(): Stores
      reads this, local
    {
      if backend == Primary then instances else WrapperStores(local.items, platform)
    }

    /** An operation keeps the backend, and touches nothing outside the stores it presents. */
    twostate predicate Framed()
      reads this, local
    {
      backend == old(backend) && isInitialized == old(isInitialized) &&
      (backend == Primary ==> local.items == old(local.items)) &&
      (backend == Fallback ==> instances == old(instances) && Foreign(local.items) == Foreign(old(local.items)))
    }

    /**
     * Whether `getItem(key)` on store `ns` returns rather than throws: the
     * primary stores always answer; a fallback wrapper throws when the item
     * under its prefixed key is not JSON text.
     */
    ghost predicate Readable(ns: Namespace, key: string)
      reads this, local
    {
      backend == Primary || Parses(platform, local.items, ns.Prefix() + key)
    }

    /**
     * Every key of store `ns` that starts with `p` is readable, stated on the
     * localStorage keys under the wrapper's prefix; `ReadableFromView` states
     * it on the store.
     */
    ghost predicate ReadableFrom(ns: Namespace, p: string)
      reads this, local
    {
      backend == Primary || PrefixParses(platform, local.items, ns.Prefix() + p)
    }

    lemma ReadableFromView(ns: Namespace, p: string)
      ensures ReadableFrom(ns, p) <==> forall key :: key in View().Get(ns) && p <= key ==> Readable(ns, key)
    {
      if backend == Fallback {
        WrapperStoresGet(local.items, platform, ns);
        PrefixParsesView(local.items, platform, ns.Prefix(), p);
        assert View().Get(ns) == WrapperView(local.items, platform, ns.Prefix());
        assert forall key :: Readable(ns, key) == Parses(platform, local.items, ns.Prefix() + key);
      }
    }

    /** Every key of every store is readable. */
    ghost predicate AllReadable()
      reads this, local
    {
      forall ns :: ReadableFrom(ns, "")
    }

    /** A store is readable when each key of an enumeration of it is. */
    lemma ReadableListed(ns: Namespace, keys: seq<string>)
      requires Lists(keys, View().Get(ns).Keys)
      ensures ReadableFrom(ns, "") <==> forall n :: 0 <= n < |keys| ==> Readable(ns, keys[n])
    {
      ReadableFromView(ns, "");
      if forall n :: 0 <= n < |keys| ==> Readable(ns, keys[n]) {
        forall key | key in View().Get(ns) ensures Readable(ns, key) {
          var n :| 0 <= n < |keys| && keys[n] == key;
        }
      }
    }

    /** The prefixed keys of a listing of appData are all readable exactly when the prefix is. */
    lemma ReadablePrefixed(keys: seq<string>, p: string, kp: seq<string>)
      requires Lists(keys, View().appData.Keys) && kp == KeepPrefixed(keys, p)
      ensures ReadableFrom(AppData, p) <==> forall n :: 0 <= n < |kp| ==> Readable(AppData, kp[n])
    {
      ReadableFromView(AppData, p);
      if forall n :: 0 <= n < |kp| ==> Readable(AppData, kp[n]) {
        forall key | key in View().appData && p <= key ensures Readable(AppData, key) {
          assert key in keys;
          var n :| 0 <= n < |kp| && kp[n] == key;
        }
      }
    }

    /** A loop over `Namespaces` that found each store readable has found them all. */
    lemma AllNamespacesReadable()
      requires forall ns :: ns in Namespaces ==> ReadableFrom(ns, "")
      ensures AllReadable()
    {
      NamespacesListed();
    }

    /**
     * `new StorageManager()`, with initialisation run to completion. `db` is what
     * the localforage databases already hold, `probe(ns)` whether the
     * write/read/delete round trip of `testStorage` succeeds on that store, and
     * `logOk` whether `logStorageInfo` returns normally.
     */
    constructor (local: LocalStorage, platform: Platform, db: Stores, probe: Namespace -> bool, logOk: bool)
      requires Lawful(platform)
      ensures this.local == local && this.platform == platform
      ensures Valid()
      ensures backend == Primary <==> (forall ns :: probe(ns)) && logOk
      ensures backend == Primary ==> View() == Probed(db)
      ensures backend == Fallback ==> View() == WrapperStores(local.items, platform)
    {
      this.local := local;
      this.platform := platform;
      isInitialized := false;
      backend := Primary;
      instances := db;
      new;
      Init(probe, logOk);
    }

    /** `init()`: probe every store in order; on the first failure, or if logging fails, fall back. */
    method Init(probe: Namespace -> bool, logOk: bool)
      requires Lawful(platform)
      modifies this
      ensures Valid()
      ensures backend == Primary <==> (forall ns :: probe(ns)) && logOk
      ensures backend == Primary ==> instances == Probed(old(instances))
      ensures backend == Fallback ==> View() == WrapperStores(local.items, platform)
    {
      backend := Primary;
      var passed := true;
      var i := 0;
      while i < |Namespaces| && passed
        invariant 0 <= i <= |Namespaces|
        invariant backend == Primary
        invariant passed <==> forall j :: 0 <= j < i ==> probe(Namespaces[j])
        invariant passed ==> forall ns :: instances.Get(ns) ==
                               (if ns in Namespaces[..i] then old(instances).Get(ns) - {TestKey} else old(instances).Get(ns))
      {
        var ns := Namespaces[i];
        if probe(ns) {
          instances := instances.Remove(ns, TestKey);
        } else {
          passed := false;
        }
        i := i + 1;
      }
      isInitialized := true;
      if !passed || !logOk {
        FallbackToLocalStorage();
      } else {
        NamespacesListed();
        assert Namespaces[..i] == Namespaces;
        forall ns ensures probe(ns) {
          match ns
          case AppData => assert probe(Namespaces[0]);
          case Cache => assert probe(Namespaces[1]);
          case Settings => assert probe(Namespaces[2]);
          case OfflineQueue => assert probe(Namespaces[3]);
        }
        StoresEqual(instances, Probed(old(instances)));
      }
    }

    /** `fallbackToLocalStorage()`: all four stores become localStorage wrappers at once. */
    method FallbackToLocalStorage()
      requires Lawful(platform)
      modifies this
      ensures Valid() && backend == Fallback && instances == old(instances)
      ensures View() == WrapperStores(local.items, platform)
    {
      isInitialized := true;
      backend := Fallback;
    }

    // -------------------------------------------------------------------------
    // The instance interface: setItem, getItem, removeItem, clear, keys.

    method SetItem(ns: Namespace, key: string, v: Json)
      requires Valid()
      modifies this, local
      ensures Valid() && Framed()
      ensures View() == old(View()).Put(ns, key, v)
      ensures backend == Fallback ==> local.items == old(local.items)[ns.Prefix() + key := platform.stringify(v)]
      ensures Readable(ns, key)
    {
      if backend == Primary {
        instances := instances.Put(ns, key, v);
      } else {
        WrapperSet(local.items, platform, ns, key, platform.stringify(v));
        local.SetItem(ns.Prefix() + key, platform.stringify(v));
      }
    }

    /** `getItem(key)`; `ok` is false when the fallback wrapper's `JSON.parse` throws. */
    method GetItem(ns: Namespace, key: string) returns (ok: bool, r: Json)
      requires Valid()
      ensures ok == Readable(ns, key)
      ensures ok && key in View().Get(ns) ==> r == View().Get(ns)[key]
      ensures ok && key !in View().Get(ns) ==> r == JNull
    {
      if backend == Primary {
        ok, r := true, Lookup(instances.Get(ns), key);
      } else {
        WrapperStoresGet(local.items, platform, ns);
        WrapperViewAt(local.items, platform, ns.Prefix(), key);
        WrapperKeyOf(ns, ns.Prefix() + key);
        var item := local.GetItem(ns.Prefix() + key);
        if item.None? || item.value == "" {
          ok, r := true, JNull;
        } else {
          var parsed := platform.parse(item.value);
          if parsed.None? {
            return false, JNull;
          }
          ok, r := true, parsed.value;
        }
      }
    }

    method RemoveItem(ns: Namespace, key: string)
      requires Valid()
      modifies this, local
      ensures Valid() && Framed()
      ensures View() == old(View()).Remove(ns, key)
    {
      if backend == Primary {
        instances := instances.Remove(ns, key);
      } else {
        WrapperRemove(local.items, platform, ns, key);
        local.RemoveItem(ns.Prefix() + key);
      }
    }

    method Clear(ns: Namespace)
      requires Valid()
      modifies this, local
      ensures Valid() && Framed()
      ensures View() == old(View()).With(ns, map[])
    {
      if backend == Primary {
        instances := instances.With(ns, map[]);
      } else {
        WrapperClear(local.items, platform, ns);
        local.RemovePrefixed(ns.Prefix());
      }
    }

    method Keys(ns: Namespace) returns (ks: seq<string>)
      requires Valid()
      ensures Lists(ks, View().Get(ns).Keys)
    {
      if backend == Primary {
        ks := Enumerate(instances.Get(ns).Keys);
      } else {
        var all := local.Keys();
        WrapperKeysListed(local.items, platform, all, ns.Prefix());
        WrapperStoresGet(local.items, platform, ns);
        var prefixed := KeepPrefixed(all, ns.Prefix());
        ks := Stripped(prefixed, ns.Prefix());
      }
    }

    /**
     * The loop shared by the listings: fetch each key in turn and keep the
     * truthy values; `ok` is false when a fetch throws, which ends the loop.
     */
    method Collect(ns: Namespace, keys: seq<string>) returns (ok: bool, items: seq<Json>)
      requires Valid()
      requires forall k :: k in keys ==> k in View().Get(ns)
      ensures ok <==> forall n :: 0 <= n < |keys| ==> Readable(ns, keys[n])
      ensures ok ==> items == Pick(View().Get(ns), KeepTruthy(View().Get(ns), keys))
    {
      var m := View().Get(ns);
      items := [];
      var i := 0;
      while i < |keys|
        invariant 0 <= i <= |keys|
        invariant forall n :: 0 <= n < i ==> Readable(ns, keys[n])
        invariant items == Pick(m, KeepTruthy(m, keys[..i]))
      {
        var read;
        read, items := CollectOne(ns, keys, i, items);
        if !read {
          return false, items;
        }
        i := i + 1;
      }
      assert keys[..i] == keys;
      ok := true;
    }

    /** One pass of the listing loop: fetch `keys[i]` and keep its value when truthy. */
    method CollectOne(ns: Namespace, keys: seq<string>, i: nat, items: seq<Json>) returns (read: bool, items': seq<Json>)
      requires Valid()
      requires (forall k :: k in keys ==> k in View().Get(ns)) && i < |keys|
      ensures read == Readable(ns, keys[i])
      ensures read && (forall n :: 0 <= n < i ==> Readable(ns, keys[n])) ==> forall n :: 0 <= n < i + 1 ==> Readable(ns, keys[n])
      ensures read && items == Pick(View().Get(ns), KeepTruthy(View().Get(ns), keys[..i])) ==>
        items' == Pick(View().Get(ns), KeepTruthy(View().Get(ns), keys[..i + 1]))
    {
      var item;
      read, item := GetItem(ns, keys[i]);
      PickTruthyStep(View().Get(ns), keys, i);
      items' := if Truthy(item) then items + [item] else items;
    }

    /** The records of appData under keys starting with `p`, newest first; `ok` is false when a fetch throws. */
    method Listing(p: string) returns (ok: bool, r: seq<Json>)
      requires Valid()
      ensures ok == ReadableFrom(AppData, p)
      ensures ok ==> Sorted(Newest, r)
      ensures ok ==> HoldsValues(r, Selected(View().appData, p))
    {
      var keys := Keys(AppData);
      var m := View().appData;
      SelectedListed(m, keys, p);
      var kp := KeepPrefixed(keys, p);
      ReadablePrefixed(keys, p, kp);
      var found;
      ok, found := Collect(AppData, kp);
      if !ok {
        return false, [];
      }
      assert HoldsValues(found, Selected(m, p)) by {
        var ks := KeepTruthy(m, KeepPrefixed(keys, p));
        assert Pick(Selected(m, p), ks) == Pick(m, ks);
      }
      r := Sort(Newest, found);
      HoldsValuesPermuted(found, r, Selected(m, p));
    }

    // -------------------------------------------------------------------------
    // Drawings and files.

    method SaveDrawing(id: string, drawing: Json, now: nat) returns (r: Json)
      requires Valid()
      modifies this, local
      ensures Valid() && Framed()
      ensures r == DrawingRecord(id, drawing, now)
      ensures View() == old(View()).Put(AppData, DrawingKey(id), r)
    {
      r := DrawingRecord(id, drawing, now);
      SetItem(AppData, DrawingKey(id), r);
    }

    method GetDrawing(id: string) returns (ok: bool, r: Json)
      requires Valid()
      ensures ok == Readable(AppData, DrawingKey(id))
      ensures ok ==> r == Lookup(View().appData, DrawingKey(id))
    {
      ok, r := GetItem(AppData, DrawingKey(id));
    }

    method GetAllDrawings() returns (ok: bool, r: seq<Json>)
      requires Valid()
      ensures ok == ReadableFrom(AppData, "drawing_")
      ensures ok ==> Sorted(Newest, r)
      ensures ok ==> HoldsValues(r, Selected(View().appData, "drawing_"))
    {
      ok, r := Listing("drawing_");
    }

    method DeleteDrawing(id: string)
      requires Valid()
      modifies this, local
      ensures Valid() && Framed()
      ensures View() == old(View()).Remove(AppData, DrawingKey(id))
    {
      RemoveItem(AppData, DrawingKey(id));
    }

    method SaveFile(name: Option<Json>, file: Json, now: nat) returns (r: Json)
      requires Valid()
      modifies this, local
      ensures Valid() && Framed()
      ensures r == FileRecord(platform, name, file, now)
      ensures View() == old(View()).Put(AppData, FileKey(name), r)
    {
      r := FileRecord(platform, name, file, now);
      SetItem(AppData, FileKey(name), r);
    }

    method GetFile(name: Option<Json>) returns (ok: bool, r: Json)
      requires Valid()
      ensures ok == Readable(AppData, FileKey(name))
      ensures ok ==> r == Lookup(View().appData, FileKey(name))
    {
      ok, r := GetItem(AppData, FileKey(name));
    }

    method GetAllFiles() returns (ok: bool, r: seq<Json>)
      requires Valid()
      ensures ok == ReadableFrom(AppData, "file_")
      ensures ok ==> Sorted(Newest, r)
      ensures ok ==> HoldsValues(r, Selected(View().appData, "file_"))
    {
      ok, r := Listing("file_");
    }

    method DeleteFile(name: Option<Json>)
      requires Valid()
      modifies this, local
      ensures Valid() && Framed()
      ensures View() == old(View()).Remove(AppData, FileKey(name))
    {
      RemoveItem(AppData, FileKey(name));
    }

    // -------------------------------------------------------------------------
    // Settings.

    method SaveSetting(key: string, value: Json)
      requires Valid()
      modifies this, local
      ensures Valid() && Framed()
      ensures View() == old(View()).Put(Settings, key, value)
      ensures backend == Fallback ==> local.items == old(local.items)[Settings.Prefix() + key := platform.stringify(value)]
    {
      SetItem(Settings, key, value);
    }

    /** `getSetting(key, default)`: the stored value unless it is null or absent. */
    method GetSetting(key: string, default: Json) returns (ok: bool, r: Json)
      requires Valid()
      ensures ok == Readable(Settings, key)
      ensures ok && key in View().settings && View().settings[key] != JNull ==> r == View().settings[key]
      ensures ok && (key !in View().settings || View().settings[key] == JNull) ==> r == default
    {
      var value;
      ok, value := GetItem(Settings, key);
      r := if value != JNull then value else default;
    }

    // -------------------------------------------------------------------------
    // The resource cache.

    /**
     * `cacheResource(url, data)`, with the two clock readings of the record;
     * false when `btoa` throws on a URL outside Latin-1.
     */
    method CacheResource(url: string, data: Json, stampedAt: nat, at: nat) returns (ok: bool)
      requires Valid()
      modifies this, local
      ensures Valid() && Framed()
      ensures ok == Latin1(url)
      ensures ok ==> View() == old(View()).Put(Cache, CacheKey(platform, url), CacheRecord(url, data, stampedAt, at))
      ensures !ok ==> View() == old(View())
    {
      if !Latin1(url) {
        return false;
      }
      SetItem(Cache, CacheKey(platform, url), CacheRecord(url, data, stampedAt, at));
      ok := true;
    }

    /**
     * `getCachedResource(url)`: the cached data while the entry is fresh; null
     * otherwise, evicting a stale entry. `ok` is false when `btoa` throws, or
     * when reading the entry does. `r` is None when a fresh entry has no
     * `data` (undefined).
     */
    method GetCachedResource(url: string, now: nat) returns (ok: bool, r: Option<Json>)
      requires Valid()
      modifies this, local
      ensures Valid() && Framed()
      ensures ok == (Latin1(url) && old(Readable(Cache, CacheKey(platform, url))))
      ensures !ok ==> View() == old(View())
      ensures ok && Fresh(Lookup(old(View()).cache, CacheKey(platform, url)), now) ==>
        r == Field(Lookup(old(View()).cache, CacheKey(platform, url)), "data") && View() == old(View())
      ensures ok && !Fresh(Lookup(old(View()).cache, CacheKey(platform, url)), now) ==> r == Some(JNull)
      ensures ok && !Fresh(Lookup(old(View()).cache, CacheKey(platform, url)), now) ==>
        View() == if Truthy(Lookup(old(View()).cache, CacheKey(platform, url)))
                  then old(View()).Remove(Cache, CacheKey(platform, url)) else old(View())
    {
      if !Latin1(url) {
        return false, None;
      }
      var cached;
      ok, cached := GetItem(Cache, CacheKey(platform, url));
      if !ok {
        return false, None;
      }
      if Fresh(cached, now) {
        return true, Field(cached, "data");
      }
      if Truthy(cached) {
        RemoveItem(Cache, CacheKey(platform, url));
      }
      r := Some(JNull);
    }

    // -------------------------------------------------------------------------
    // The offline queue.

    /** `addToOfflineQueue(operation)`; `d` holds its two clock readings and its random suffix. */
    method AddToOfflineQueue(operation: Json, d: QueueDraw) returns (item: Json)
      requires Valid()
      modifies this, local
      ensures Valid() && Framed()
      ensures item == QueueItem(operation, d)
      ensures View() == old(View()).Put(OfflineQueue, d.Id(), item)
    {
      item := QueueItem(operation, d);
      SetItem(OfflineQueue, d.Id(), item);
    }

    /** Every truthy queue entry, oldest first; `ok` is false when a fetch throws. */
    method GetOfflineQueue() returns (ok: bool, r: seq<Json>)
      requires Valid()
      ensures ok == ReadableFrom(OfflineQueue, "")
      ensures ok ==> Sorted(Oldest, r)
      ensures ok ==> HoldsValues(r, Selected(View().offlineQueue, ""))
    {
      var keys := Keys(OfflineQueue);
      var m := View().offlineQueue;
      TruthyListed(m, keys);
      ReadableListed(OfflineQueue, keys);
      var found;
      ok, found := Collect(OfflineQueue, keys);
      if !ok {
        return false, [];
      }
      assert HoldsValues(found, Selected(m, "")) by {
        var ks := KeepTruthy(m, keys);
        assert Selected(m, "").Keys == set k | k in m && Truthy(m[k]);
        assert Pick(Selected(m, ""), ks) == Pick(m, ks);
      }
      r := Sort(Oldest, found);
      HoldsValuesPermuted(found, r, Selected(m, ""));
    }

    method RemoveFromOfflineQueue(id: string)
      requires Valid()
      modifies this, local
      ensures Valid() && Framed()
      ensures View() == old(View()).Remove(OfflineQueue, id)
    {
      RemoveItem(OfflineQueue, id);
    }

    method ClearOfflineQueue()
      requires Valid()
      modifies this, local
      ensures Valid() && Framed()
      ensures View() == old(View()).With(OfflineQueue, map[])
    {
      Clear(OfflineQueue);
    }

    // -------------------------------------------------------------------------
    // Usage, clear-all, export and import.

    /** `if (item) totalSize += JSON.stringify(item).length` for one key of a listing. */
    method ItemSize(ns: Namespace, key: string) returns (ok: bool, size: nat)
      requires Valid() && key in View().Get(ns)
      ensures ok == Readable(ns, key)
      ensures ok ==> size == Sizes(platform, View().Get(ns))[key]
    {
      var item;
      ok, item := GetItem(ns, key);
      size := if Truthy(item) then |platform.stringify(item)| else 0;
    }

    /** The inner loop of `getStorageUsage` for one store: the sizes of the items under `keys`, summed. */
    method SumSizes(ns: Namespace, keys: seq<string>) returns (ok: bool, total: nat)
      requires Valid()
      requires forall k :: k in keys ==> k in View().Get(ns)
      ensures ok <==> forall n :: 0 <= n < |keys| ==> Readable(ns, keys[n])
      ensures ok ==> total == SumOver(Sizes(platform, View().Get(ns)), keys)
    {
      ghost var sizes := Sizes(platform, View().Get(ns));
      total := 0;
      var j := 0;
      while j < |keys|
        invariant 0 <= j <= |keys|
        invariant forall n :: 0 <= n < j ==> Readable(ns, keys[n])
        invariant total == SumOver(sizes, keys[..j])
      {
        var read, size := ItemSize(ns, keys[j]);
        if !read {
          return false, total;
        }
        SumOverStep(sizes, keys, j);
        total := total + size;
        j := j + 1;
      }
      assert keys[..j] == keys;
      ok := true;
    }

    /** One store's figures for `getStorageUsage`: its key count and the sizes of its truthy items. */
    method StoreUsage(ns: Namespace) returns (ok: bool, u: Usage)
      requires Valid()
      ensures ok == ReadableFrom(ns, "")
      ensures ok ==> u == UsageOf(platform, View().Get(ns))
    {
      var keys := Keys(ns);
      ReadableListed(ns, keys);
      ghost var m := View().Get(ns);
      ghost var sizes := Sizes(platform, m);
      var total;
      ok, total := SumSizes(ns, keys);
      if !ok {
        return false, Usage(0, 0);
      }
      SumOverListed(sizes, keys);
      RestrictCovering(sizes, keys);
      ListsLength(keys, m.Keys);
      u := Usage(|keys|, total);
    }

    /**
     * For each namespace: how many keys it has and the JSON length of its
     * truthy items. `ok` is false when a fetch throws.
     */
    method GetStorageUsage() returns (ok: bool, usage: map<string, Usage>)
      requires Valid()
      ensures ok == AllReadable()
      ensures ok ==> forall name :: name in usage <==> Named(name).Some?
      ensures ok ==> forall ns: Namespace :: ns.Name() in usage && usage[ns.Name()] == UsageOf(platform, View().Get(ns))
    {
      ghost var st := View();
      ghost var f := (ns: Namespace) => UsageOf(platform, st.Get(ns));
      usage := map[];
      var i := 0;
      while i < |Namespaces|
        invariant 0 <= i <= |Namespaces|
        invariant forall ns :: ns in Namespaces[..i] ==> ReadableFrom(ns, "")
        invariant usage == Tabulate(f, Namespaces[..i])
      {
        var read;
        read, usage := UsageStep(f, i, usage);
        if !read {
          return false, usage;
        }
        i := i + 1;
      }
      assert Namespaces[..i] == Namespaces;
      TabulateLookup(f);
      AllNamespacesReadable();
      ok := true;
    }

    /** One pass of the `getStorageUsage` loop: the figures of the i-th store join the report. */
    method UsageStep(ghost f: Namespace -> Usage, i: nat, usage: map<string, Usage>) returns (read: bool, usage': map<string, Usage>)
      requires Valid() && i < |Namespaces|
      requires forall ns :: f(ns) == UsageOf(platform, View().Get(ns))
      ensures read == ReadableFrom(Namespaces[i], "")
      ensures !read ==> !AllReadable()
      ensures read && (forall ns :: ns in Namespaces[..i] ==> ReadableFrom(ns, "")) ==>
        forall ns :: ns in Namespaces[..i + 1] ==> ReadableFrom(ns, "")
      ensures read && usage == Tabulate(f, Namespaces[..i]) ==> usage' == Tabulate(f, Namespaces[..i + 1])
    {
      var u;
      read, u := StoreUsage(Namespaces[i]);
      usage' := usage[Namespaces[i].Name() := u];
      TabulateStep(f, Namespaces, i);
      NamespacesStep(i);
    }

    method ClearAllData()
      requires Valid()
      modifies this, local
      ensures Valid() && Framed()
      ensures View() == Empty
    {
      var i := 0;
      while i < |Namespaces|
        invariant 0 <= i <= |Namespaces|
        invariant Valid() && Framed()
        invariant forall ns :: View().Get(ns) == if ns in Namespaces[..i] then map[] else old(View()).Get(ns)
      {
        Clear(Namespaces[i]);
        NamespacesStep(i);
        i := i + 1;
      }
      NamespacesListed();
      assert Namespaces[..i] == Namespaces;
      StoresEqual(View(), Empty);
    }

    /**
     * Once every store is empty, as `clearAllData` leaves them, every store is
     * readable and `getStorageUsage` reports no items and no bytes for each.
     */
    lemma ClearedUsage()
      requires View() == Empty
      ensures AllReadable()
      ensures forall ns :: UsageOf(platform, View().Get(ns)) == Usage(0, 0)
    {
      forall ns: Namespace ensures ReadableFrom(ns, "") && View().Get(ns) == map[] {
        ReadableFromView(ns, "");
      }
      assert Sizes(platform, map[]) == map[];
      TotalOfEmpty(Sizes(platform, map[]));
    }

    /**
     * The inner loop of `exportData` for one store: every key of `keys` with
     * its value, except `__proto__`, whose assignment sets the object's
     * prototype instead of adding a property.
     */
    method ExportKeys(ns: Namespace, keys: seq<string>) returns (ok: bool, obj: map<string, Json>)
      requires Valid()
      requires forall k :: k in keys ==> k in View().Get(ns)
      ensures ok <==> forall n :: 0 <= n < |keys| ==> Readable(ns, keys[n])
      ensures ok ==> obj == Exportable(Restrict(View().Get(ns), KeySet(keys)))
    {
      var m := View().Get(ns);
      obj := map[];
      var j := 0;
      while j < |keys|
        invariant 0 <= j <= |keys|
        invariant forall n :: 0 <= n < j ==> Readable(ns, keys[n])
        invariant obj == Exportable(Restrict(m, KeySet(keys[..j])))
      {
        var read;
        read, obj := ExportOne(ns, keys, j, obj);
        if !read {
          return false, obj;
        }
        j := j + 1;
      }
      assert keys[..j] == keys;
      ok := true;
    }

    /**
     * One pass of the inner export loop: fetch `keys[j]` and add it to the
     * store's object; for `__proto__` the fetch happens but nothing is added.
     */
    method ExportOne(ns: Namespace, keys: seq<string>, j: nat, obj: map<string, Json>) returns (read: bool, obj': map<string, Json>)
      requires Valid()
      requires (forall k :: k in keys ==> k in View().Get(ns)) && j < |keys|
      ensures read == Readable(ns, keys[j])
      ensures read && (forall n :: 0 <= n < j ==> Readable(ns, keys[n])) ==> forall n :: 0 <= n < j + 1 ==> Readable(ns, keys[n])
      ensures read && obj == Exportable(Restrict(View().Get(ns), KeySet(keys[..j]))) ==>
        obj' == Exportable(Restrict(View().Get(ns), KeySet(keys[..j + 1])))
    {
      var v;
      read, v := GetItem(ns, keys[j]);
      ghost var m := View().Get(ns);
      RestrictStep(m, keys, j);
      ghost var before := Restrict(m, KeySet(keys[..j]));
      if keys[j] == ProtoKey {
        assert Exportable(before[keys[j] := m[keys[j]]]) == Exportable(before);
        obj' := obj;
      } else {
        assert Exportable(before[keys[j] := m[keys[j]]]) == Exportable(before)[keys[j] := m[keys[j]]];
        obj' := obj[keys[j] := v];
      }
    }

    /** One store's part of `exportData`: every key but `__proto__`, with its value. */
    method ExportStore(ns: Namespace) returns (ok: bool, obj: map<string, Json>)
      requires Valid()
      ensures ok == ReadableFrom(ns, "")
      ensures ok ==> obj.Keys == View().Get(ns).Keys - {ProtoKey}
      ensures ok ==> forall k :: k in obj ==> obj[k] == View().Get(ns)[k]
    {
      var keys := Keys(ns);
      ReadableListed(ns, keys);
      ok, obj := ExportKeys(ns, keys);
      if ok {
        RestrictAll(View().Get(ns), keys);
      }
    }

    /** `exportData()`: every key of every store, with its value; `ok` is false when a fetch throws. */
    method ExportData(now: nat) returns (ok: bool, r: Json)
      requires Valid()
      ensures ok == AllReadable()
      ensures ok ==> r == Export(View(), now)
    {
      ghost var st := View();
      ghost var f := (ns: Namespace) => JObj(Exportable(st.Get(ns)));
      var body: map<string, Json> := map[];
      var i := 0;
      while i < |Namespaces|
        invariant 0 <= i <= |Namespaces|
        invariant forall ns :: ns in Namespaces[..i] ==> ReadableFrom(ns, "")
        invariant body == Tabulate(f, Namespaces[..i])
      {
        var read;
        read, body := ExportStep(f, i, body);
        if !read {
          return false, JNull;
        }
        i := i + 1;
      }
      assert Namespaces[..i] == Namespaces;
      AllNamespacesReadable();
      TabulateExport(st);
      ok := true;
      r := JObj(map["timestamp" := JNum(now), "version" := JStr("1.0"), "data" := JObj(body)]);
    }

    /** One pass of the `exportData` loop: the i-th store joins the exported object. */
    method ExportStep(ghost f: Namespace -> Json, i: nat, body: map<string, Json>) returns (read: bool, body': map<string, Json>)
      requires Valid() && i < |Namespaces|
      requires forall ns :: f(ns) == JObj(Exportable(View().Get(ns)))
      ensures read == ReadableFrom(Namespaces[i], "")
      ensures !read ==> !AllReadable()
      ensures read && (forall ns :: ns in Namespaces[..i] ==> ReadableFrom(ns, "")) ==>
        forall ns :: ns in Namespaces[..i + 1] ==> ReadableFrom(ns, "")
      ensures read && body == Tabulate(f, Namespaces[..i]) ==> body' == Tabulate(f, Namespaces[..i + 1])
    {
      var obj;
      read, obj := ExportStore(Namespaces[i]);
      if read {
        assert obj == Exportable(View().Get(Namespaces[i]));
      }
      body' := body[Namespaces[i].Name() := JObj(obj)];
      TabulateStep(f, Namespaces, i);
      NamespacesStep(i);
    }

    /** The inner loop of `importData` for one store: every entry of `e` is written over it. */
    method WriteAll(ns: Namespace, e: map<string, Json>)
      requires Valid()
      modifies this, local
      ensures Valid() && Framed()
      ensures View() == old(View()).With(ns, old(View()).Get(ns) + e)
    {
      var keys := Enumerate(e.Keys);
      WriteKeys(ns, e, keys);
      MergedCovering(old(View()).Get(ns), e, keys);
    }

    /** `for (const [key, value] of Object.entries(e)) setItem(key, value)`, in the order of `keys`. */
    method WriteKeys(ns: Namespace, e: map<string, Json>, keys: seq<string>)
      requires Valid()
      requires forall i :: 0 <= i < |keys| ==> keys[i] in e
      modifies this, local
      ensures Valid() && Framed()
      ensures View() == old(View()).With(ns, Merged(old(View()).Get(ns), e, keys))
      decreases |keys|
    {
      if keys == [] {
        StoresEqual(View(), View().With(ns, View().Get(ns)));
        return;
      }
      var j := |keys| - 1;
      WriteKeys(ns, e, keys[..j]);
      MergeStep(old(View()), ns, e, keys, j);
      SetItem(ns, keys[j], e[keys[j]]);
      assert keys[..j + 1] == keys;
    }

    /** One pass of the `importData` loop: write every entry of a store, skip an unknown name,
        or throw where `Object.entries` or `setItem` would. */
    method ImportEntry(name: string, v: Json) returns (accepted: bool)
      requires Valid()
      modifies this, local
      ensures Valid() && Framed()
      ensures accepted == ImportStep(old(View()), name, v).Some?
      ensures View() == if accepted then ImportStep(old(View()), name, v).value else old(View())
    {
      var target := Named(name);
      if target.Some? {
        var e := Entries(v);
        if e.None? {
          return false;
        }
        WriteAll(target.value, e.value);
      } else if name in Inherited && Entries(v) != Some(map[]) {
        return false;
      }
      accepted := true;
    }

    /** The loop of `importData` over the entries of `importData.data`, in the order of `names`. */
    method ImportEntries(entries: map<string, Json>, names: seq<string>) returns (ok: bool)
      requires Valid()
      requires forall j :: 0 <= j < |names| ==> names[j] in entries
      modifies this, local
      ensures Valid() && Framed()
      ensures ok == ImportInto(old(View()), entries, names).ok
      ensures View() == ImportInto(old(View()), entries, names).stores
    {
      ghost var st := View();
      var i := 0;
      while i < |names|
        invariant 0 <= i <= |names|
        invariant Valid() && Framed()
        invariant ImportInto(st, entries, names) == ImportInto(View(), entries, names[i..])
      {
        var name := names[i];
        ImportIntoFrom(View(), entries, names, i);
        var accepted := ImportEntry(name, entries[name]);
        if !accepted {
          return false;
        }
        i := i + 1;
      }
      ok := true;
    }

    method ImportData(importData: Json) returns (ok: bool, ghost order: seq<string>)
      requires Valid()
      modifies this, local
      ensures Valid() && Framed()
      ensures Field(importData, "data").Some? && Truthy(Field(importData, "data").value) ==>
        Lists(order, Entries(Field(importData, "data").value).value.Keys)
      ensures ok == Import(old(View()), importData, order).ok
      ensures View() == Import(old(View()), importData, order).stores
    {
      var data := Field(importData, "data");
      if data.None? || !Truthy(data.value) {
        return false, [];
      }
      var entries := Entries(data.value).value;
      var names := Enumerate(entries.Keys);
      order := names;
      ok := ImportEntries(entries, names);
    }
  }
}
