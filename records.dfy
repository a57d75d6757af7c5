/**
 * What the storage manager writes and reads: the shapes of its records, the
 * listings it builds, its usage figures, and the export and import formats.
 */
module Records {
  import opened Js
  import opened Collections
  import opened Stores

  // ---------------------------------------------------------------------------
  // Drawings and files in the appData store.

  function DrawingKey(id: string): string { "drawing_" + id }

  /** `{id, data: drawingData, timestamp: now, version: '1.0'}` */
  function DrawingRecord(id: string, drawing: Json, now: nat): Json {
    JObj(map["id" := JStr(id), "data" := drawing, "timestamp" := JNum(now), "version" := JStr("1.0")])
  }

  /** `file_${fileName}`; the name may be any value, or undefined. */
  function FileKey(name: Option<Json>): string { "file_" + Text(name) }

  /** `{name: fileName, data: fileData, timestamp: now, size: JSON.stringify(fileData).length}` */
  function FileRecord(pl: Platform, name: Option<Json>, file: Json, now: nat): Json {
    JObj(WithOptional(map["data" := file, "timestamp" := JNum(now), "size" := JNum(|pl.stringify(file)|)], "name", name))
  }

  /** The truthy records under keys that start with `p`: what a listing returns, before sorting. */
  function Selected(m: map<string, Json>, p: string): (r: map<string, Json>)
    ensures forall k :: k in r <==> k in m && p <= k && Truthy(m[k])
    ensures forall k :: k in r ==> r[k] == m[k]
  {
    map k | k in m && p <= k && Truthy(m[k]) :: m[k]
  }

  /** Filtering an enumeration of the keys by prefix and then by truthiness enumerates the selection. */
  lemma {:induction false} SelectedListed(m: map<string, Json>, ks: seq<string>, p: string)
    requires Lists(ks, m.Keys)
    ensures forall k :: k in KeepPrefixed(ks, p) ==> k in m
    ensures Lists(KeepTruthy(m, KeepPrefixed(ks, p)), Selected(m, p).Keys)
  {
  }

  /** Saving a file never changes the drawing listing, and saving a drawing never changes the file listing. */
  lemma {:induction false} ListingsIndependent(m: map<string, Json>, name: Option<Json>, id: string, v: Json)
    ensures Selected(m[FileKey(name) := v], "drawing_") == Selected(m, "drawing_")
    ensures Selected(m[DrawingKey(id) := v], "file_") == Selected(m, "file_")
  {
    assert FileKey(name)[0] == 'f' && DrawingKey(id)[0] == 'd';
    assert !("drawing_" <= FileKey(name));
    assert !("file_" <= DrawingKey(id));
  }

  // ---------------------------------------------------------------------------
  // The resource cache.

  /** 24 hours in milliseconds. */
  const CacheTtl: nat := 24 * 60 * 60 * 1000

  function CacheKey(pl: Platform, url: string): string { "cache_" + pl.btoa(url) }

  /**
   * `{url, data, timestamp: Date.now(), expires: Date.now() + 24h}`: the clock
   * is read twice, `stampedAt` for the timestamp and then `at` for the expiry.
   */
  function CacheRecord(url: string, data: Json, stampedAt: nat, at: nat): Json {
    JObj(map["url" := JStr(url), "data" := data, "timestamp" := JNum(stampedAt), "expires" := JNum(at + CacheTtl)])
  }

  /** `cached && cached.expires > now` */
  predicate Fresh(cached: Json, now: nat) {
    Truthy(cached) &&
    match Field(cached, "expires")
    case Some(JNum(e)) => e > now
    case _ => false
  }

  /** A freshly cached entry serves its data for exactly 24 hours after the second clock reading. */
  lemma CacheLifetime(url: string, data: Json, stampedAt: nat, at: nat, t: nat)
    ensures Fresh(CacheRecord(url, data, stampedAt, at), t) <==> t < at + CacheTtl
    ensures Field(CacheRecord(url, data, stampedAt, at), "data") == Some(data)
  {
  }

  /** Different URLs (all Latin-1) get different cache keys. */
  lemma CacheKeysDistinct(pl: Platform, a: string, b: string)
    requires Lawful(pl) && Latin1(a) && Latin1(b) && a != b
    ensures CacheKey(pl, a) != CacheKey(pl, b)
  {
    assert CacheKey(pl, a)[6..] == pl.btoa(a);
    assert CacheKey(pl, b)[6..] == pl.btoa(b);
  }

  // ---------------------------------------------------------------------------
  // The offline queue.

  /** `queue_${now}_${suffix}`, where the suffix comes from `Math.random`. */
  function QueueId(now: nat, suffix: string): string { "queue_" + NatText(now) + "_" + suffix }

  /**
   * What one `addToOfflineQueue` draws: `Date.now()` for the id, the random
   * suffix, and `Date.now()` read again for the timestamp.
   */
  datatype QueueDraw = QueueDraw(idAt: nat, suffix: string, queuedAt: nat) {
    function Id(): string { QueueId(idAt, suffix) }
  }

  /** `{id, operation, timestamp, retries: 0}` */
  function QueueItem(operation: Json, d: QueueDraw): Json {
    JObj(map["id" := JStr(d.Id()), "operation" := operation, "timestamp" := JNum(d.queuedAt), "retries" := JNum(0)])
  }

  /** Two queue ids coincide only when both the time and the random suffix do. */
  lemma {:induction false} QueueIdsDistinct(n1: nat, s1: string, n2: nat, s2: string)
    requires QueueId(n1, s1) == QueueId(n2, s2)
    ensures n1 == n2 && s1 == s2
  {
    var a, b := NatText(n1), NatText(n2);
    assert QueueId(n1, s1) == "queue_" + (a + "_" + s1);
    assert QueueId(n2, s2) == "queue_" + (b + "_" + s2);
    var x, y := a + "_" + s1, b + "_" + s2;
    assert x == QueueId(n1, s1)[6..] == y;
    var m := if |a| <= |b| then |a| else |b|;
    assert x[m] == y[m];
    assert x[m] == '_' <==> m == |a|;
    assert y[m] == '_' <==> m == |b|;
    assert a == x[..|a|] == y[..|b|] == b;
    assert s1 == x[|a| + 1..] && s2 == y[|b| + 1..];
    NatTextInjective(n1, n2);
  }

  // ---------------------------------------------------------------------------
  // Usage accounting.

  datatype Usage = Usage(itemCount: nat, sizeBytes: nat)

  /** The JSON length of each truthy item; falsy items count 0. */
  function Sizes(pl: Platform, m: map<string, Json>): map<string, nat> {
    map k | k in m :: if Truthy(m[k]) then |pl.stringify(m[k])| else 0
  }

  // ---------------------------------------------------------------------------
  // Export and import.

  /**
   * The one key a plain object never gets as its own property by assignment:
   * `obj["__proto__"] = v` calls the inherited `__proto__` setter instead.
   */
  const ProtoKey := "__proto__"

  /** What the object `exportData` fills key by key keeps of a store: every key but `__proto__`. */
  function Exportable(m: map<string, Json>): map<string, Json> {
    m - {ProtoKey}
  }

  /** `exportData.data`: each namespace name mapped to an object holding that store, without `__proto__`. */
  function ExportBody(st: Stores): (r: map<string, Json>)
    ensures forall name :: name in r <==> Named(name).Some?
    ensures forall ns: Namespace :: ns.Name() in r && r[ns.Name()] == JObj(st.Get(ns) - {ProtoKey})
  {
    map["appData" := JObj(Exportable(st.appData)), "cache" := JObj(Exportable(st.cache)),
        "settings" := JObj(Exportable(st.settings)), "offlineQueue" := JObj(Exportable(st.offlineQueue))]
  }

  /** `{timestamp: now, version: '1.0', data: {...}}` */
  function Export(st: Stores, now: nat): Json {
    JObj(map["timestamp" := JNum(now), "version" := JStr("1.0"), "data" := JObj(ExportBody(st))])
  }

  /** The names an object inherits from `Object.prototype`: `storageInstances[name]` is truthy for them. */
  const Inherited: set<string> := {
    "constructor", "__proto__", "__defineGetter__", "__defineSetter__", "__lookupGetter__",
    "__lookupSetter__", "hasOwnProperty", "isPrototypeOf", "propertyIsEnumerable",
    "toLocaleString", "toString", "valueOf"
  }

  lemma NamespacesNotInherited(ns: Namespace)
    ensures ns.Name() !in Inherited
  {
  }

  /** `Object.entries(items)` of an array, as an object keyed by index. */
  function Indexed(items: seq<Json>): map<string, Json> {
    if items == [] then map[]
    else Indexed(items[..|items| - 1])[NatText(|items| - 1) := items[|items| - 1]]
  }

  function Chars(s: string): (r: seq<Json>)
    ensures |r| == |s|
  {
    seq(|s|, i requires 0 <= i < |s| => JStr([s[i]]))
  }

  /** `Object.entries(v)`; None when it throws (null). Numbers and booleans have no entries. */
  function Entries(v: Json): (r: Option<map<string, Json>>)
    ensures r.None? <==> v == JNull
    ensures v.JObj? ==> r == Some(v.fields)
  {
    match v
    case JNull => None
    case JBool(_) => Some(map[])
    case JNum(_) => Some(map[])
    case JStr(s) => Some(Indexed(Chars(s)))
    case JArr(items) => Some(Indexed(items))
    case JObj(fields) => Some(fields)
  }

  datatype Imported = Imported(stores: Stores, ok: bool)

  /**
   * One entry `[storageName, storageData]` of the import loop; None when it throws.
   * A namespace gets every entry of its data written; a name inherited from
   * `Object.prototype` passes the guard but has no `setItem`; any other name is skipped.
   */
  function ImportStep(st: Stores, name: string, v: Json): Option<Stores> {
    match Named(name)
    case Some(ns) =>
      (match Entries(v)
       case None => None
       case Some(e) => Some(st.With(ns, st.Get(ns) + e)))
    case None =>
      if name !in Inherited then Some(st)
      else if Entries(v) == Some(map[]) then Some(st)
      else None
  }

  /** The import loop over the entries of `importData.data`, taken in `order`. */
  function ImportInto(st: Stores, data: map<string, Json>, order: seq<string>): Imported
    requires forall i :: 0 <= i < |order| ==> order[i] in data
    decreases |order|
  {
    if order == [] then Imported(st, true)
    else match ImportStep(st, order[0], data[order[0]])
      case None => Imported(st, false)
      case Some(next) => ImportInto(next, data, order[1..])
  }

  /** `importData`: throws unless `importData.data` is truthy, then runs the loop. */
  function Import(st: Stores, importData: Json, order: seq<string>): (r: Imported)
    requires Field(importData, "data").Some? && Truthy(Field(importData, "data").value) ==>
      Lists(order, Entries(Field(importData, "data").value).value.Keys)
    ensures !(Field(importData, "data").Some? && Truthy(Field(importData, "data").value)) ==> r == Imported(st, false)
  {
    match Field(importData, "data")
    case None => Imported(st, false)
    case Some(d) =>
      if !Truthy(d) then Imported(st, false)
      else ImportInto(st, Entries(d).value, order)
  }

  /** The import loop from position `i` on: one step, then the rest. */
  lemma ImportIntoFrom(st: Stores, data: map<string, Json>, order: seq<string>, i: nat)
    requires forall j :: 0 <= j < |order| ==> order[j] in data
    requires i < |order|
    ensures ImportInto(st, data, order[i..]) ==
      match ImportStep(st, order[i], data[order[i]])
      case None => Imported(st, false)
      case Some(next) => ImportInto(next, data, order[i + 1..])
  {
    assert order[i..][1..] == order[i + 1..];
  }

  /** An entry the loop gets past without throwing, whatever the stores hold. */
  predicate Accepted(name: string, v: Json) {
    (Named(name).Some? ==> v != JNull) && (name in Inherited ==> Entries(v) == Some(map[]))
  }

  /** One store after writing every entry listed for it, when its name is in `names`. */
  function AppliedTo(st: Stores, data: map<string, Json>, names: set<string>, ns: Namespace): map<string, Json> {
    if ns.Name() in names && ns.Name() in data && Entries(data[ns.Name()]).Some?
    then st.Get(ns) + Entries(data[ns.Name()]).value else st.Get(ns)
  }

  /** The stores after writing every entry listed for a namespace whose name is in `names`. */
  function Applied(st: Stores, data: map<string, Json>, names: set<string>): (r: Stores)
    ensures forall ns :: r.Get(ns) == AppliedTo(st, data, names, ns)
  {
    Stores(AppliedTo(st, data, names, AppData), AppliedTo(st, data, names, Cache),
           AppliedTo(st, data, names, Settings), AppliedTo(st, data, names, OfflineQueue))
  }

  function Names(order: seq<string>): set<string> {
    set i | 0 <= i < |order| :: order[i]
  }

  lemma NamesCons(order: seq<string>)
    requires order != []
    ensures Names(order) == Names(order[1..]) + {order[0]}
  {
    forall k | k in Names(order) ensures k in Names(order[1..]) + {order[0]} {
      var i :| 0 <= i < |order| && order[i] == k;
      if i > 0 { assert order[1..][i - 1] == k; }
    }
  }

  /** A step throws exactly when its entry is not accepted. */
  lemma StepAccepted(st: Stores, name: string, v: Json)
    ensures ImportStep(st, name, v).Some? <==> Accepted(name, v)
  {
    if Named(name).Some? {
      NamespacesNotInherited(Named(name).value);
    }
  }

  /** Every entry in `order` is accepted. */
  predicate AllAccepted(data: map<string, Json>, order: seq<string>)
    requires forall i :: 0 <= i < |order| ==> order[i] in data
  {
    forall i :: 0 <= i < |order| ==> Accepted(order[i], data[order[i]])
  }

  lemma AllAcceptedCons(data: map<string, Json>, order: seq<string>)
    requires order != [] && forall i :: 0 <= i < |order| ==> order[i] in data
    ensures AllAccepted(data, order) <==> Accepted(order[0], data[order[0]]) && AllAccepted(data, order[1..])
  {
    assert forall i :: 0 <= i < |order[1..]| ==> order[1..][i] == order[i + 1];
  }

  /** The store the step names receives that entry's data. */
  lemma ImportStepAppliesSame(st: Stores, next: Stores, data: map<string, Json>, name: string, names: set<string>, ns: Namespace)
    requires name in data && ImportStep(st, name, data[name]) == Some(next)
    requires name !in names && ns.Name() == name
    ensures AppliedTo(next, data, names, ns) == AppliedTo(st, data, names + {name}, ns)
  {
    assert Named(name) == Some(ns);
    assert next == st.With(ns, st.Get(ns) + Entries(data[name]).value);
  }

  /** Every other store is left as it was. */
  lemma ImportStepAppliesOther(st: Stores, next: Stores, data: map<string, Json>, name: string, names: set<string>, ns: Namespace)
    requires name in data && ImportStep(st, name, data[name]) == Some(next)
    requires ns.Name() != name
    ensures AppliedTo(next, data, names, ns) == AppliedTo(st, data, names + {name}, ns)
  {
    assert ns.Name() in names + {name} <==> ns.Name() in names;
    assert next.Get(ns) == st.Get(ns) by {
      match Named(name)
      case Some(n) =>
        assert n != ns;
      case None =>
    }
  }

  /** A step that does not throw applies that one entry. */
  lemma ImportStepApplies(st: Stores, next: Stores, data: map<string, Json>, name: string, names: set<string>)
    requires name in data && ImportStep(st, name, data[name]) == Some(next)
    requires name !in names
    ensures Applied(next, data, names) == Applied(st, data, names + {name})
  {
    forall ns ensures Applied(next, data, names).Get(ns) == Applied(st, data, names + {name}).Get(ns) {
      if ns.Name() == name {
        ImportStepAppliesSame(st, next, data, name, names, ns);
      } else {
        ImportStepAppliesOther(st, next, data, name, names, ns);
      }
    }
    StoresEqual(Applied(next, data, names), Applied(st, data, names + {name}));
  }

  /**
   * The import loop succeeds exactly when every entry is accepted, and then its
   * outcome does not depend on the order: every listed key of a known namespace
   * is overwritten, unknown names are ignored and unlisted keys keep their values.
   */
  lemma {:induction false} ImportIntoOutcome(st: Stores, data: map<string, Json>, order: seq<string>)
    requires forall i :: 0 <= i < |order| ==> order[i] in data
    requires forall i, j :: 0 <= i < j < |order| ==> order[i] != order[j]
    ensures ImportInto(st, data, order).ok <==> AllAccepted(data, order)
    ensures ImportInto(st, data, order).ok ==> ImportInto(st, data, order).stores == Applied(st, data, Names(order))
    decreases |order|
  {
    if order == [] {
      StoresEqual(st, Applied(st, data, Names(order)));
    } else {
      var name, rest := order[0], order[1..];
      NamesCons(order);
      AllAcceptedCons(data, order);
      var step := ImportStep(st, name, data[name]);
      StepAccepted(st, name, data[name]);
      if step.Some? {
        assert forall i :: 0 <= i < |rest| ==> rest[i] == order[i + 1];
        ImportIntoOutcome(step.value, data, rest);
        assert name !in Names(rest);
        ImportStepApplies(st, step.value, data, name, Names(rest));
      }
    }
  }

  /** Every entry of an export gets through the import loop. */
  lemma ExportAccepted(st: Stores, name: string)
    requires name in ExportBody(st)
    ensures Accepted(name, ExportBody(st)[name])
  {
    var ns := Named(name).value;
    assert ExportBody(st)[name] == JObj(Exportable(st.Get(ns)));
    NamespacesNotInherited(ns);
  }

  /** The import loop over an export body, in any order, adds each exported store (without `__proto__`) to the current one. */
  lemma ImportIntoExport(st0: Stores, st: Stores, order: seq<string>)
    requires Lists(order, ExportBody(st).Keys)
    ensures ImportInto(st0, ExportBody(st), order).ok
    ensures forall ns :: ImportInto(st0, ExportBody(st), order).stores.Get(ns) == st0.Get(ns) + Exportable(st.Get(ns))
  {
    var data := ExportBody(st);
    forall i | 0 <= i < |order| ensures Accepted(order[i], data[order[i]]) {
      ExportAccepted(st, order[i]);
    }
    ImportIntoOutcome(st0, data, order);
    forall ns: Namespace ensures ns.Name() in Names(order) {
      assert ns.Name() in data;
    }
  }

  /**
   * Importing an export overwrites each store with the exported one, key by
   * key; a `__proto__` entry never reaches the export, so it is not imported.
   */
  lemma ImportExport(st0: Stores, st: Stores, now: nat, order: seq<string>)
    requires Lists(order, ExportBody(st).Keys)
    ensures Import(st0, Export(st, now), order).ok
    ensures forall ns :: Import(st0, Export(st, now), order).stores.Get(ns) == st0.Get(ns) + Exportable(st.Get(ns))
  {
    assert Field(Export(st, now), "data") == Some(JObj(ExportBody(st)));
    assert Import(st0, Export(st, now), order) == ImportInto(st0, ExportBody(st), order);
    ImportIntoExport(st0, st, order);
  }

  /** Exporting the stores and importing the result changes nothing. */
  lemma ExportThenImport(st: Stores, now: nat, order: seq<string>)
    requires Lists(order, ExportBody(st).Keys)
    ensures Import(st, Export(st, now), order) == Imported(st, true)
  {
    ImportExport(st, st, now, order);
    forall ns ensures Import(st, Export(st, now), order).stores.Get(ns) == st.Get(ns) {
      assert st.Get(ns) + Exportable(st.Get(ns)) == st.Get(ns);
    }
    StoresEqual(Import(st, Export(st, now), order).stores, st);
  }
}
