/**
 * The one-off migration from the legacy flat localStorage layout
 * (`excalidraw-files`, `excalidraw-last-file`, `excalidraw-offline-changes`)
 * into the storage manager, guarded by the persisted setting
 * `storage_migrated_v1`, together with the legacy size report, the cleanup of
 * the legacy keys and the rollback that writes the files back.
 *
 * Each step is specified by a function of the manager's stores before it and
 * of the legacy entries of localStorage, which no manager operation touches.
 */
module Migration {
  import opened Js
  import opened Collections
  import opened Stores
  import opened Records
  import opened Sorting
  import opened Manager

  const MigrationKey := "storage_migrated_v1"
  const LegacyFiles := "excalidraw-files"
  const LegacyLastFile := "excalidraw-last-file"
  const LegacyChanges := "excalidraw-offline-changes"
  /** What `getLegacyStorageSize` counts: every localStorage key starting with this. */
  const LegacyPrefix := "excalidraw"

  /** The legacy keys have '-' where every wrapper prefix has '_', so no wrapper owns them. */
  lemma LegacyKeysForeign()
    ensures !IsWrapperKey(LegacyFiles) && !IsWrapperKey(LegacyLastFile) && !IsWrapperKey(LegacyChanges)
  {
    forall ns: Namespace ensures !(ns.Prefix() <= LegacyFiles) && !(ns.Prefix() <= LegacyLastFile) && !(ns.Prefix() <= LegacyChanges) {
      assert ns.Prefix()[10] == '_';
      assert LegacyFiles[10] == '-' && LegacyLastFile[10] == '-' && LegacyChanges[10] == '-';
    }
  }

  /** Every wrapper key also starts with `excalidraw`, so the legacy size report counts the fallback stores too. */
  lemma WrapperKeysCountedAsLegacy(k: string)
    requires IsWrapperKey(k)
    ensures LegacyPrefix <= k
  {
    var ns: Namespace :| ns.Prefix() <= k;
    assert ns.Prefix()[..10] == LegacyPrefix;
  }

  /** `localStorage.getItem(key)`; None stands for null. */
  function Stored(items: map<string, string>, key: string): Option<string> {
    if key in items then Some(items[key]) else None
  }

  /** `if (item)` on what `getItem` returned. */
  predicate Present(item: Option<string>) {
    item.Some? && item.value != ""
  }

  /**
   * `x.length` followed by `for (const y of x)` on a parsed legacy value: the
   * elements of an array or the characters of a string. None when either
   * throws (`null.length`, or iterating a number, boolean or object).
   */
  function Iterated(v: Json): Option<seq<Json>> {
    match v
    case JArr(items) => Some(items)
    case JStr(s) => Some(Chars(s))
    case _ => None
  }

  // ---------------------------------------------------------------------------
  // migrateFiles

  /**
   * The clock readings of one pass of the file loop: the ISO times that
   * `createdAt` and `updatedAt` default to (each read only when needed), and
   * the `Date.now()` of `saveFile`.
   */
  datatype FileClock = FileClock(createdAt: string, updatedAt: string, savedAt: nat)

  /**
   * The record built for one legacy file: `id` and `name` copied; `elements`,
   * `appState`, `createdAt` and `updatedAt` kept when truthy and defaulted to
   * `[]`, `{}` and the ISO times of `c` otherwise.
   */
  function LegacyFileData(file: Json, c: FileClock): (r: Json)
    ensures r.JObj?
  {
    var fields := map[
      "elements" := FieldOr(file, "elements", JArr([])),
      "appState" := FieldOr(file, "appState", JObj(map[])),
      "createdAt" := FieldOr(file, "createdAt", JStr(c.createdAt)),
      "updatedAt" := FieldOr(file, "updatedAt", JStr(c.updatedAt))];
    JObj(WithOptional(WithOptional(fields, "id", Field(file, "id")), "name", Field(file, "name")))
  }

  /** The normalised record has the four data properties, and `id` and `name` exactly when the file has them, with its values. */
  lemma LegacyFileDataKeys(file: Json, c: FileClock)
    ensures var r := LegacyFileData(file, c);
      && Field(r, "id") == Field(file, "id") && Field(r, "name") == Field(file, "name")
      && r.fields.Keys == {"elements", "appState", "createdAt", "updatedAt"}
           + (if Field(file, "id").Some? then {"id"} else {}) + (if Field(file, "name").Some? then {"name"} else {})
  {
  }

  /**
   * The four data properties are truthy (each date once its ISO time is non-empty) and
   * keep the file's value whenever that was truthy.
   */
  lemma LegacyFileDataValues(file: Json, c: FileClock)
    ensures var r := LegacyFileData(file, c);
      && "elements" in r.fields && "appState" in r.fields && "createdAt" in r.fields && "updatedAt" in r.fields
      && Truthy(r.fields["elements"]) && Truthy(r.fields["appState"])
      && (c.createdAt != "" ==> Truthy(r.fields["createdAt"]))
      && (c.updatedAt != "" ==> Truthy(r.fields["updatedAt"]))
      && (forall f :: f in r.fields && f != "id" && f != "name" && Field(file, f).Some? && Truthy(Field(file, f).value) ==>
            r.fields[f] == Field(file, f).value)
  {
    LegacyFileDataKeys(file, c);
  }

  /** A record already in the new shape: the six properties at most, the four data ones truthy. */
  predicate NewShape(r: Json) {
    && r.JObj?
    && r.fields.Keys <= {"id", "name", "elements", "appState", "createdAt", "updatedAt"}
    && (forall f :: f in {"elements", "appState", "createdAt", "updatedAt"} ==> f in r.fields && Truthy(r.fields[f]))
  }

  lemma LegacyFileDataFixed(r: Json, c: FileClock)
    requires NewShape(r)
    ensures LegacyFileData(r, c) == r
  {
    var again := LegacyFileData(r, c);
    LegacyFileDataKeys(r, c);
    LegacyFileDataValues(r, c);
    assert "elements" in {"elements", "appState", "createdAt", "updatedAt"};
    assert "appState" in {"elements", "appState", "createdAt", "updatedAt"};
    assert "createdAt" in {"elements", "appState", "createdAt", "updatedAt"};
    assert "updatedAt" in {"elements", "appState", "createdAt", "updatedAt"};
    assert again.fields.Keys == r.fields.Keys;
    forall f | f in r.fields ensures again.fields[f] == r.fields[f] {
      if f == "id" || f == "name" {
        assert Field(again, f) == Field(r, f);
      }
    }
  }

  /** A record already in the new shape is left as it is: normalising twice is normalising once. */
  lemma LegacyFileDataIdempotent(file: Json, c: FileClock, later: FileClock)
    requires c.createdAt != "" && c.updatedAt != ""
    ensures LegacyFileData(LegacyFileData(file, c), later) == LegacyFileData(file, c)
  {
    LegacyFileDataKeys(file, c);
    LegacyFileDataValues(file, c);
    LegacyFileDataFixed(LegacyFileData(file, c), later);
  }

  /** Some entry of the list is null. */
  predicate HasNull(items: seq<Json>) {
    exists j :: 0 <= j < |items| && items[j].JNull?
  }

  /** Where the file loop stops, starting at `from`: the first null entry, or the end. */
  function FirstNull(items: seq<Json>, from: nat): (r: nat)
    requires from <= |items|
    ensures from <= r <= |items|
    decreases |items| - from
  {
    if from == |items| || items[from].JNull? then from else FirstNull(items, from + 1)
  }

  lemma {:induction false} FirstNullHasNull(items: seq<Json>, from: nat)
    requires from <= |items|
    ensures FirstNull(items, from) == |items| <==> !HasNull(items[from..])
    decreases |items| - from
  {
    if from < |items| {
      if items[from].JNull? {
        assert items[from..][0].JNull?;
      } else {
        FirstNullHasNull(items, from + 1);
        assert items[from..] == [items[from]] + items[from + 1..];
        if HasNull(items[from..]) {
          var j :| 0 <= j < |items[from..]| && items[from..][j].JNull?;
          assert items[from + 1..][j - 1].JNull?;
        }
        if HasNull(items[from + 1..]) {
          var j :| 0 <= j < |items[from + 1..]| && items[from + 1..][j].JNull?;
          assert items[from..][j + 1].JNull?;
        }
      }
    }
  }

  /** `storageManager.saveFile(file.name, fileData)` for one legacy file. */
  function SaveLegacy(pl: Platform, st: Stores, file: Json, c: FileClock): Stores {
    st.Put(AppData, FileKey(Field(file, "name")), SavedRecord(pl, file, c))
  }

  /** The record `saveFile` writes for one legacy file. */
  function SavedRecord(pl: Platform, file: Json, c: FileClock): Json {
    FileRecord(pl, Field(file, "name"), LegacyFileData(file, c), c.savedAt)
  }

  /** The file loop of `migrateFiles` from position `from` on; a null entry throws at `file.id` and ends it. */
  function SaveFiles(pl: Platform, st: Stores, items: seq<Json>, clock: nat -> FileClock, from: nat): Stores
    decreases |items| - from
  {
    if from >= |items| || items[from].JNull? then st
    else SaveFiles(pl, SaveLegacy(pl, st, items[from], clock(from)), items, clock, from + 1)
  }

  /** The file loop writes only the appData store. */
  lemma {:induction false} SaveFilesOnlyAppData(pl: Platform, st: Stores, items: seq<Json>, clock: nat -> FileClock, from: nat)
    ensures forall o :: o != AppData ==> SaveFiles(pl, st, items, clock, from).Get(o) == st.Get(o)
    decreases |items| - from
  {
    if from < |items| && !items[from].JNull? {
      SaveFilesOnlyAppData(pl, SaveLegacy(pl, st, items[from], clock(from)), items, clock, from + 1);
    }
  }

  /** A key that no remaining legacy file is saved under keeps its entry. */
  lemma {:induction false} SaveFilesUntouched(pl: Platform, st: Stores, items: seq<Json>, clock: nat -> FileClock, from: nat, k: string)
    requires forall j :: from <= j < |items| ==> FileKey(Field(items[j], "name")) != k
    ensures var r := SaveFiles(pl, st, items, clock, from).Get(AppData);
      (k in r <==> k in st.Get(AppData)) && (k in st.Get(AppData) ==> r[k] == st.Get(AppData)[k])
    decreases |items| - from
  {
    if from < |items| && !items[from].JNull? {
      SaveFilesUntouched(pl, SaveLegacy(pl, st, items[from], clock(from)), items, clock, from + 1, k);
    }
  }

  /** The appData store holds the record `saveFile` writes for `file`, under the file's key. */
  predicate HoldsSaved(r: Stores, pl: Platform, file: Json, c: FileClock) {
    FileKey(Field(file, "name")) in r.appData && r.appData[FileKey(Field(file, "name"))] == SavedRecord(pl, file, c)
  }

  /** No file after position `i` is saved under the key of file `i`. */
  predicate LastWithName(items: seq<Json>, i: nat)
    requires i < |items|
  {
    forall j :: i < j < |items| ==> FileKey(Field(items[j], "name")) != FileKey(Field(items[i], "name"))
  }

  /**
   * Every legacy file before the first null is saved under `file_${name}` as its
   * normalised record, unless a later file has the same name and overwrites it.
   */
  lemma SaveFilesSaved(pl: Platform, st: Stores, items: seq<Json>, clock: nat -> FileClock, from: nat, i: nat)
    requires from <= i < |items|
    requires forall j :: from <= j <= i ==> !items[j].JNull?
    requires LastWithName(items, i)
    ensures HoldsSaved(SaveFiles(pl, st, items, clock, from), pl, items[i], clock(i))
  {
    SaveFilesReach(pl, st, items, clock, from, i);
    var mid :| SaveFiles(pl, st, items, clock, from) == SaveFiles(pl, mid, items, clock, i);
    SaveFilesSavedFirst(pl, mid, items, clock, i);
  }

  /** The loop from `from` passes through position `i` when no file before it is null. */
  lemma {:induction false} SaveFilesReach(pl: Platform, st: Stores, items: seq<Json>, clock: nat -> FileClock, from: nat, i: nat)
    requires from <= i <= |items|
    requires forall j :: from <= j < i ==> !items[j].JNull?
    ensures exists mid :: SaveFiles(pl, st, items, clock, from) == SaveFiles(pl, mid, items, clock, i)
    decreases i - from
  {
    if from == i {
      assert SaveFiles(pl, st, items, clock, from) == SaveFiles(pl, st, items, clock, i);
    } else {
      var next := SaveLegacy(pl, st, items[from], clock(from));
      SaveFilesStep(pl, st, items, clock, from);
      SaveFilesReach(pl, next, items, clock, from + 1, i);
      var mid :| SaveFiles(pl, next, items, clock, from + 1) == SaveFiles(pl, mid, items, clock, i);
      assert SaveFiles(pl, st, items, clock, from) == SaveFiles(pl, mid, items, clock, i);
    }
  }

  /** One pass of the file loop over a non-null file. */
  lemma SaveFilesStep(pl: Platform, st: Stores, items: seq<Json>, clock: nat -> FileClock, from: nat)
    requires from < |items| && !items[from].JNull?
    ensures SaveFiles(pl, st, items, clock, from) == SaveFiles(pl, SaveLegacy(pl, st, items[from], clock(from)), items, clock, from + 1)
  {
  }

  /** The file the loop saves first keeps its record when no later file has its key. */
  lemma SaveFilesSavedFirst(pl: Platform, st: Stores, items: seq<Json>, clock: nat -> FileClock, i: nat)
    requires i < |items| && !items[i].JNull?
    requires LastWithName(items, i)
    ensures HoldsSaved(SaveFiles(pl, st, items, clock, i), pl, items[i], clock(i))
  {
    SaveFilesStep(pl, st, items, clock, i);
    SaveFilesUntouched(pl, SaveLegacy(pl, st, items[i], clock(i)), items, clock, i + 1, FileKey(Field(items[i], "name")));
  }

  /** The `saveFile` clock readings of the file loop never go back, below position `n`. */
  predicate FileClockRuns(clock: nat -> FileClock, n: nat) {
    forall i, j :: 0 <= i < j < n ==> clock(i).savedAt <= clock(j).savedAt
  }

  /**
   * With a clock that does not go back, two saved legacy files are stamped in
   * the order of the legacy list.
   */
  lemma SaveFilesInOrder(pl: Platform, st: Stores, items: seq<Json>, clock: nat -> FileClock, i: nat, j: nat)
    requires i < j < |items| && forall k :: 0 <= k <= j ==> !items[k].JNull?
    requires LastWithName(items, i) && LastWithName(items, j)
    requires FileClockRuns(clock, |items|)
    ensures var r := SaveFiles(pl, st, items, clock, 0).Get(AppData);
      var ki, kj := FileKey(Field(items[i], "name")), FileKey(Field(items[j], "name"));
      ki in r && kj in r && Stamp(r[ki]) == clock(i).savedAt && Stamp(r[kj]) == clock(j).savedAt &&
      Stamp(r[ki]) <= Stamp(r[kj])
  {
    SaveFilesSaved(pl, st, items, clock, 0, i);
    SaveFilesSaved(pl, st, items, clock, 0, j);
    FileRecordStamp(pl, Field(items[i], "name"), LegacyFileData(items[i], clock(i)), clock(i).savedAt);
    FileRecordStamp(pl, Field(items[j], "name"), LegacyFileData(items[j], clock(j)), clock(j).savedAt);
  }

  lemma FileRecordStamp(pl: Platform, name: Option<Json>, file: Json, now: nat)
    ensures Stamp(FileRecord(pl, name, file, now)) == now
  {
    assert "timestamp" != "name";
  }

  /**
   * `migrateFiles()`: when `excalidraw-files` holds a list, save every file of
   * it; `filesList` receives the raw list only when the loop finishes. A parse
   * failure, a value that cannot be iterated or a null file is caught and ends
   * the step, keeping the files saved before it.
   */
  function FilesMigrated(pl: Platform, st: Stores, legacy: map<string, string>, clock: nat -> FileClock): Stores {
    var saved := Stored(legacy, LegacyFiles);
    if !Present(saved) then st
    else match pl.parse(saved.value)
      case None => st
      case Some(files) =>
        match Iterated(files)
        case None => st
        case Some(items) =>
          var r := SaveFiles(pl, st, items, clock, 0);
          if FirstNull(items, 0) < |items| then r else r.Put(Settings, "filesList", files)
  }

  /** What `migrateFiles` establishes about a legacy list without nulls. */
  lemma {:induction false} FilesMigratedOutcome(pl: Platform, st: Stores, legacy: map<string, string>, clock: nat -> FileClock, items: seq<Json>)
    requires Present(Stored(legacy, LegacyFiles)) && pl.parse(legacy[LegacyFiles]) == Some(JArr(items))
    requires !HasNull(items)
    ensures FilesMigrated(pl, st, legacy, clock) == SaveFiles(pl, st, items, clock, 0).Put(Settings, "filesList", JArr(items))
    ensures FilesMigrated(pl, st, legacy, clock).Get(Settings) == st.Get(Settings)["filesList" := JArr(items)]
    ensures FilesMigrated(pl, st, legacy, clock).Get(Cache) == st.Get(Cache)
    ensures FilesMigrated(pl, st, legacy, clock).Get(OfflineQueue) == st.Get(OfflineQueue)
  {
    assert Iterated(JArr(items)) == Some(items);
    FirstNullHasNull(items, 0);
    assert items[0..] == items;
    SaveFilesOnlyAppData(pl, st, items, clock, 0);
  }

  /** The file step leaves the migration flag and the offline queue alone. */
  lemma FilesKeepFlag(pl: Platform, st: Stores, legacy: map<string, string>, clock: nat -> FileClock)
    ensures Lookup(FilesMigrated(pl, st, legacy, clock).Get(Settings), MigrationKey) == Lookup(st.Get(Settings), MigrationKey)
    ensures FilesMigrated(pl, st, legacy, clock).Get(OfflineQueue) == st.Get(OfflineQueue)
  {
    var saved := Stored(legacy, LegacyFiles);
    if Present(saved) && pl.parse(saved.value).Some? && Iterated(pl.parse(saved.value).value).Some? {
      var files := pl.parse(saved.value).value;
      var items := Iterated(files).value;
      SaveFilesOnlyAppData(pl, st, items, clock, 0);
      var r := SaveFiles(pl, st, items, clock, 0);
      assert "filesList" != MigrationKey;
      assert r.Put(Settings, "filesList", files).Get(Settings) == r.Get(Settings)["filesList" := files];
    }
  }

  // ---------------------------------------------------------------------------
  // migrateSettings

  /** Reading `sessionStorage`: Blocked when touching it throws. */
  datatype SessionRead = Blocked | Read(value: Option<string>)

  /** The stores after a step, and whether the step returned normally. */
  datatype Outcome = Outcome(stores: Stores, completed: bool)

  /**
   * `migrateSettings()`: a non-empty `excalidraw-last-file` becomes the
   * `lastOpenedFile` setting; a truthy `pwa-install-dismissed` becomes the
   * boolean setting `pwaInstallDismissed`. It has no catch: when reading
   * sessionStorage throws, the step ends there, not completed.
   */
  function SettingsMigrated(st: Stores, legacy: map<string, string>, session: SessionRead): (r: Outcome)
    ensures r.completed <==> session.Read?
  {
    var last := Stored(legacy, LegacyLastFile);
    var a := if Present(last) then st.Put(Settings, "lastOpenedFile", JStr(last.value)) else st;
    match session
    case Blocked => Outcome(a, false)
    case Read(dismissed) =>
      Outcome(if Present(dismissed) then a.Put(Settings, "pwaInstallDismissed", JBool(dismissed.value == "true")) else a, true)
  }

  /**
   * The settings step writes `lastOpenedFile` from a non-empty legacy entry and
   * `pwaInstallDismissed` from a truthy session entry, and nothing else.
   */
  lemma SettingsMigratedOutcome(st: Stores, legacy: map<string, string>, session: SessionRead)
    ensures var r := SettingsMigrated(st, legacy, session).stores;
      && (forall o :: o != Settings ==> r.Get(o) == st.Get(o))
      && (forall k :: k != "lastOpenedFile" && k != "pwaInstallDismissed" ==> Lookup(r.Get(Settings), k) == Lookup(st.Get(Settings), k))
      && Lookup(r.Get(Settings), "lastOpenedFile") ==
           (if Present(Stored(legacy, LegacyLastFile)) then JStr(legacy[LegacyLastFile]) else Lookup(st.Get(Settings), "lastOpenedFile"))
      && Lookup(r.Get(Settings), "pwaInstallDismissed") ==
           (if session.Read? && Present(session.value) then JBool(session.value.value == "true")
            else Lookup(st.Get(Settings), "pwaInstallDismissed"))
  {
    assert "lastOpenedFile" != "pwaInstallDismissed";
  }

  /** The settings step leaves the migration flag and the offline queue alone. */
  lemma SettingsKeepFlag(st: Stores, legacy: map<string, string>, session: SessionRead)
    ensures Lookup(SettingsMigrated(st, legacy, session).stores.Get(Settings), MigrationKey) == Lookup(st.Get(Settings), MigrationKey)
    ensures SettingsMigrated(st, legacy, session).stores.Get(OfflineQueue) == st.Get(OfflineQueue)
  {
    SettingsMigratedOutcome(st, legacy, session);
  }

  // ---------------------------------------------------------------------------
  // migrateOfflineQueue

  /**
   * The loop of `migrateOfflineQueue` from position `from` on: one
   * `addToOfflineQueue` per change. `draws(i)` is the random id suffix drawn
   * for the i-th change.
   */
  function Enqueue(st: Stores, changes: seq<Json>, draws: nat -> QueueDraw, from: nat): Stores
    decreases |changes| - from
  {
    if from >= |changes| then st
    else Enqueue(st.Put(OfflineQueue, draws(from).Id(), QueueItem(changes[from], draws(from))),
                 changes, draws, from + 1)
  }

  /** Ids drawn for the changes from `from` on are pairwise different. */
  predicate DistinctDraws(changes: seq<Json>, draws: nat -> QueueDraw, from: nat) {
    forall i, j :: from <= i < j < |changes| ==> draws(i).suffix != draws(j).suffix
  }

  /** Ids of different changes differ when their suffixes do. */
  lemma FreshIds(changes: seq<Json>, draws: nat -> QueueDraw, from: nat)
    requires DistinctDraws(changes, draws, from)
    ensures forall i :: from < i < |changes| ==> draws(i).Id() != draws(from).Id()
  {
    forall i | from < i < |changes| ensures draws(i).Id() != draws(from).Id() {
      if draws(i).Id() == draws(from).Id() {
        QueueIdsDistinct(draws(i).idAt, draws(i).suffix, draws(from).idAt, draws(from).suffix);
      }
    }
  }

  /** The queue loop writes only the offline queue, and only under the ids it draws. */
  lemma {:induction false} EnqueueUntouched(st: Stores, changes: seq<Json>, draws: nat -> QueueDraw, from: nat, k: string)
    requires forall i :: from <= i < |changes| ==> k != draws(i).Id()
    ensures forall o :: o != OfflineQueue ==> Enqueue(st, changes, draws, from).Get(o) == st.Get(o)
    ensures Lookup(Enqueue(st, changes, draws, from).Get(OfflineQueue), k) == Lookup(st.Get(OfflineQueue), k)
    ensures k in Enqueue(st, changes, draws, from).Get(OfflineQueue) <==> k in st.Get(OfflineQueue)
    decreases |changes| - from
  {
    if from < |changes| {
      EnqueueUntouched(st.Put(OfflineQueue, draws(from).Id(), QueueItem(changes[from], draws(from))),
                       changes, draws, from + 1, k);
    }
  }

  /** With distinct id suffixes, the entry of change i holds change i. */
  lemma {:induction false} EnqueueEntries(st: Stores, changes: seq<Json>, draws: nat -> QueueDraw, from: nat, i: nat)
    requires from <= i < |changes| && DistinctDraws(changes, draws, from)
    ensures draws(i).Id() in Enqueue(st, changes, draws, from).Get(OfflineQueue)
    ensures Enqueue(st, changes, draws, from).Get(OfflineQueue)[draws(i).Id()] == QueueItem(changes[i], draws(i))
    decreases |changes| - from
  {
    var next := st.Put(OfflineQueue, draws(from).Id(), QueueItem(changes[from], draws(from)));
    if i == from {
      FreshIds(changes, draws, from);
      EnqueueUntouched(next, changes, draws, from + 1, draws(i).Id());
    } else {
      EnqueueEntries(next, changes, draws, from + 1, i);
    }
  }

  /** With distinct suffixes and none of the drawn ids queued already, the queue grows by one entry per change. */
  lemma {:induction false} EnqueueCount(st: Stores, changes: seq<Json>, draws: nat -> QueueDraw, from: nat)
    requires from <= |changes| && DistinctDraws(changes, draws, from)
    requires forall i :: from <= i < |changes| ==> draws(i).Id() !in st.Get(OfflineQueue)
    ensures |Enqueue(st, changes, draws, from).Get(OfflineQueue)| == |st.Get(OfflineQueue)| + (|changes| - from)
    decreases |changes| - from
  {
    if from < |changes| {
      var id := draws(from).Id();
      var next := st.Put(OfflineQueue, id, QueueItem(changes[from], draws(from)));
      FreshIds(changes, draws, from);
      assert |next.Get(OfflineQueue)| == |st.Get(OfflineQueue)| + 1;
      EnqueueCount(next, changes, draws, from + 1);
    }
  }

  /**
   * The clock never goes back across the queue loop below position `n`: each
   * pass reads the time for its id, then for its timestamp, and the next pass
   * reads no earlier.
   */
  predicate QueueClockRuns(draws: nat -> QueueDraw, n: nat) {
    && (forall i :: 0 <= i < n ==> draws(i).idAt <= draws(i).queuedAt)
    && (forall i, j :: 0 <= i < j < n ==> draws(i).queuedAt <= draws(j).idAt)
  }

  /**
   * With distinct suffixes and a clock that does not go back, the migrated
   * changes are stamped in the order of the legacy list, so the oldest-first
   * queue listing replays them in that order.
   */
  lemma EnqueueInOrder(st: Stores, changes: seq<Json>, draws: nat -> QueueDraw, i: nat, j: nat)
    requires i < j < |changes| && DistinctDraws(changes, draws, 0) && QueueClockRuns(draws, |changes|)
    ensures var q := Enqueue(st, changes, draws, 0).Get(OfflineQueue);
      draws(i).Id() in q && draws(j).Id() in q &&
      Stamp(q[draws(i).Id()]) == draws(i).queuedAt && Stamp(q[draws(j).Id()]) == draws(j).queuedAt &&
      Stamp(q[draws(i).Id()]) <= Stamp(q[draws(j).Id()])
  {
    EnqueueEntries(st, changes, draws, 0, i);
    EnqueueEntries(st, changes, draws, 0, j);
  }

  /**
   * `migrateOfflineQueue()`: when `excalidraw-offline-changes` holds a list,
   * queue each of its changes in order; parse and iteration failures are caught
   * before anything is queued.
   */
  function QueueMigrated(pl: Platform, st: Stores, legacy: map<string, string>, draws: nat -> QueueDraw): Stores {
    var saved := Stored(legacy, LegacyChanges);
    if !Present(saved) then st
    else match pl.parse(saved.value)
      case None => st
      case Some(changes) =>
        match Iterated(changes)
        case None => st
        case Some(items) => Enqueue(st, items, draws, 0)
  }

  /** Without a legacy queue, nothing is queued. */
  lemma QueueMigratedAbsent(pl: Platform, st: Stores, legacy: map<string, string>, draws: nat -> QueueDraw)
    requires !Present(Stored(legacy, LegacyChanges))
    ensures QueueMigrated(pl, st, legacy, draws) == st
  {
  }

  /** The queue step writes only the offline queue. */
  lemma QueueOnlyQueue(pl: Platform, st: Stores, legacy: map<string, string>, draws: nat -> QueueDraw)
    ensures QueueMigrated(pl, st, legacy, draws).Get(Settings) == st.Get(Settings)
  {
    var saved := Stored(legacy, LegacyChanges);
    if Present(saved) && pl.parse(saved.value).Some? && Iterated(pl.parse(saved.value).value).Some? {
      var items := Iterated(pl.parse(saved.value).value).value;
      EnqueueSettings(st, items, draws, 0);
    }
  }

  lemma {:induction false} EnqueueSettings(st: Stores, changes: seq<Json>, draws: nat -> QueueDraw, from: nat)
    ensures Enqueue(st, changes, draws, from).Get(Settings) == st.Get(Settings)
    decreases |changes| - from
  {
    if from < |changes| {
      EnqueueSettings(st.Put(OfflineQueue, draws(from).Id(), QueueItem(changes[from], draws(from))),
                      changes, draws, from + 1);
    }
  }

  // ---------------------------------------------------------------------------
  // checkAndMigrate

  /** `await storageManager.getSetting(migrationKey, false)` is truthy. */
  predicate AlreadyMigrated(st: Stores) {
    var flag := Lookup(st.Get(Settings), MigrationKey);
    Truthy(if flag != JNull then flag else JBool(false))
  }

  /**
   * `checkAndMigrate()`: nothing when the flag is set; otherwise the three
   * steps in order and then the flag. An exception out of a step (only
   * `migrateSettings` lets one out) skips the rest, the flag included.
   */
  function Migrate(pl: Platform, st: Stores, legacy: map<string, string>, session: SessionRead,
                   clock: nat -> FileClock, draws: nat -> QueueDraw): Stores
  {
    if AlreadyMigrated(st) then st
    else
      var files := FilesMigrated(pl, st, legacy, clock);
      var settings := SettingsMigrated(files, legacy, session);
      if !settings.completed then settings.stores
      else QueueMigrated(pl, settings.stores, legacy, draws).Put(Settings, MigrationKey, JBool(true))
  }

  /**
   * The flag ends up set exactly when every step returned normally; a migration
   * that stopped in `migrateSettings` leaves it unset and queues nothing.
   */
  lemma MigrationFlag(pl: Platform, st: Stores, legacy: map<string, string>, session: SessionRead,
                      clock: nat -> FileClock, draws: nat -> QueueDraw)
    requires !AlreadyMigrated(st)
    ensures AlreadyMigrated(Migrate(pl, st, legacy, session, clock, draws)) <==> session.Read?
    ensures session.Blocked? ==> Migrate(pl, st, legacy, session, clock, draws).Get(OfflineQueue) == st.Get(OfflineQueue)
  {
    FilesKeepFlag(pl, st, legacy, clock);
    SettingsKeepFlag(FilesMigrated(pl, st, legacy, clock), legacy, session);
  }

  /** Once a migration has completed, running it again, with any inputs, changes nothing. */
  lemma MigrateTwice(pl: Platform, st: Stores, legacy: map<string, string>, session: SessionRead,
                     clock: nat -> FileClock, draws: nat -> QueueDraw,
                     legacy2: map<string, string>, session2: SessionRead, clock2: nat -> FileClock, draws2: nat -> QueueDraw)
    requires session.Read?
    ensures var once := Migrate(pl, st, legacy, session, clock, draws);
      Migrate(pl, once, legacy2, session2, clock2, draws2) == once
  {
    if !AlreadyMigrated(st) {
      MigrationFlag(pl, st, legacy, session, clock, draws);
    }
  }

  // ---------------------------------------------------------------------------
  // getLegacyStorageSize

  /** The length of every localStorage value whose key starts with `excalidraw`. */
  function LegacyLengths(items: map<string, string>): (r: map<string, nat>)
    ensures forall k :: k in r <==> k in items && LegacyPrefix <= k
    ensures forall k :: k in r ==> r[k] == |items[k]|
  {
    map k | k in items && LegacyPrefix <= k :: |items[k]|
  }

  /** `getLegacyStorageSize()` without `sizeMB`: the number of such keys and their total length. */
  ghost function LegacyUsage(items: map<string, string>): Usage {
    Usage(|LegacyLengths(items)|, Total(LegacyLengths(items)))
  }

  // ---------------------------------------------------------------------------
  // rollbackToLocalStorage

  /** `value.data` as `JSON.stringify` writes it inside an array: undefined becomes null. */
  function DataOf(value: Json): Json {
    match Field(value, "data")
    case Some(d) => d
    case None => JNull
  }

  /** What rollback restores of a file is exactly what `saveFile` was given. */
  lemma DataOfFileRecord(pl: Platform, name: Option<Json>, file: Json, now: nat)
    ensures DataOf(FileRecord(pl, name, file, now)) == file
  {
  }

  /** The `.data` of every entry under a `file_` key, in the order of `ks`. */
  function FileDataList(m: map<string, Json>, ks: seq<string>): (r: seq<Json>)
    requires forall k :: k in ks ==> k in m
    ensures |r| == |KeepPrefixed(ks, "file_")|
    ensures forall i :: 0 <= i < |r| ==> r[i] == DataOf(m[KeepPrefixed(ks, "file_")[i]])
  {
    var fk := KeepPrefixed(ks, "file_");
    seq(|fk|, i requires 0 <= i < |fk| => DataOf(m[fk[i]]))
  }

  lemma FileDataStep(m: map<string, Json>, ks: seq<string>, i: nat)
    requires (forall k :: k in ks ==> k in m) && i < |ks|
    ensures forall k :: k in ks[..i] ==> k in m
    ensures FileDataList(m, ks[..i + 1]) ==
      FileDataList(m, ks[..i]) + (if "file_" <= ks[i] then [DataOf(m[ks[i]])] else [])
  {
    assert ks[..i + 1] == ks[..i] + [ks[i]];
    KeepPrefixedSnoc(ks[..i], ks[i], "file_");
  }

  /** Rollback writes one element per `file_` entry of appData, and none for any other key. */
  lemma FileDataCount(m: map<string, Json>, order: seq<string>)
    requires Lists(order, m.Keys)
    ensures |FileDataList(m, order)| == |set k | k in m && "file_" <= k|
  {
    PrefixedListed(order, m.Keys, "file_");
    ListsLength(KeepPrefixed(order, "file_"), set k | k in m && "file_" <= k);
  }

  /** A `file_` entry that is null makes `value.data` throw. */
  predicate HasNullFile(m: map<string, Json>) {
    exists k :: k in m && "file_" <= k && m[k].JNull?
  }

  /** Where `exportData()` keeps the appData store, which holds every key but `__proto__`. */
  lemma ExportedAppData(st: Stores, now: nat)
    ensures Field(Export(st, now), "data").Some?
    ensures Field(Field(Export(st, now), "data").value, "appData") == Some(JObj(Exportable(st.appData)))
  {
  }

  /** The key export drops is no `file_` key, so rollback sees every file entry of appData. */
  lemma ExportableFiles(m: map<string, Json>)
    ensures HasNullFile(Exportable(m)) == HasNullFile(m)
    ensures (set k | k in Exportable(m) && "file_" <= k) == (set k | k in m && "file_" <= k)
  {
    assert !("file_" <= ProtoKey) by {
      assert ProtoKey[0] != "file_"[0];
    }
    if HasNullFile(m) {
      var k :| k in m && "file_" <= k && m[k].JNull?;
      assert k in Exportable(m);
    }
  }

  /**
   * The loop of `rollbackToLocalStorage` over `Object.entries(appData)`, in the
   * order `keys`: the `.data` of each `file_` entry; `ok` is false when a null
   * entry makes `value.data` throw.
   */
  method FileData(appData: map<string, Json>) returns (ok: bool, files: seq<Json>, ghost keys: seq<string>)
    ensures Lists(keys, appData.Keys)
    ensures ok <==> !HasNullFile(appData)
    ensures ok ==> files == FileDataList(appData, keys)
  {
    var ks := Enumerate(appData.Keys);
    keys := ks;
    files := [];
    var i := 0;
    while i < |ks|
      invariant 0 <= i <= |ks|
      invariant files == FileDataList(appData, ks[..i])
      invariant forall k :: k in ks[..i] && "file_" <= k ==> !appData[k].JNull?
    {
      var key := ks[i];
      FileDataStep(appData, ks, i);
      if "file_" <= key {
        var value := appData[key];
        if value.JNull? {
          assert key in appData && "file_" <= key && appData[key].JNull?;
          return false, files, keys;
        }
        files := files + [DataOf(value)];
      }
      assert ks[..i + 1] == ks[..i] + [key];
      i := i + 1;
    }
    assert ks[..i] == ks;
    assert forall k :: k in appData ==> k in ks;
    ok := true;
  }

  // ---------------------------------------------------------------------------

  class StorageMigration {
    const manager: StorageManager

    constructor (manager: StorageManager)
      ensures this.manager == manager
    {
      this.manager := manager;
    }

    ghost predicate Valid()
      reads manager, manager.local
    {
      manager.Valid()
    }

    /** The part of localStorage no wrapper owns: the legacy layout. */
    ghost function Legacy(): map<string, string>
      reads manager.local
    {
      Foreign(manager.local.items)
    }

    method ReadLegacy(key: string) returns (item: Option<string>)
      requires !IsWrapperKey(key)
      ensures item == Stored(Legacy(), key)
    {
      item := manager.local.GetItem(key);
    }

    /** One pass of the file loop: normalise the legacy file and save it under its name. */
    method SaveLegacyFile(file: Json, c: FileClock)
      requires manager.Valid()
      modifies manager, manager.local
      ensures manager.Valid() && manager.Framed()
      ensures manager.View() == SaveLegacy(manager.platform, old(manager.View()), file, c)
    {
      var record := manager.SaveFile(Field(file, "name"), LegacyFileData(file, c), c.savedAt);
    }

    /** The file loop of `migrateFiles`; `completed` is false when a null file throws. */
    method SaveLegacyFiles(items: seq<Json>, clock: nat -> FileClock) returns (completed: bool)
      requires manager.Valid()
      modifies manager, manager.local
      ensures manager.Valid() && manager.Framed()
      ensures manager.View() == SaveFiles(manager.platform, old(manager.View()), items, clock, 0)
      ensures completed <==> FirstNull(items, 0) == |items|
    {
      ghost var st := manager.View();
      var i := 0;
      while i < |items|
        invariant 0 <= i <= |items|
        invariant manager.Valid() && manager.Framed()
        invariant FirstNull(items, 0) == FirstNull(items, i)
        invariant SaveFiles(manager.platform, st, items, clock, 0) == SaveFiles(manager.platform, manager.View(), items, clock, i)
      {
        var file := items[i];
        if file.JNull? {
          return false;
        }
        SaveLegacyFile(file, clock(i));
        i := i + 1;
      }
      completed := true;
    }

    method MigrateFiles(clock: nat -> FileClock)
      requires Valid()
      modifies manager, manager.local
      ensures Valid() && manager.Framed()
      ensures manager.View() == FilesMigrated(manager.platform, old(manager.View()), old(Legacy()), clock)
    {
      LegacyKeysForeign();
      var saved := ReadLegacy(LegacyFiles);
      if saved.None? || saved.value == "" {
        return;
      }
      var parsed := manager.platform.parse(saved.value);
      if parsed.None? {
        return;
      }
      var files := Iterated(parsed.value);
      if files.None? {
        return;
      }
      var completed := SaveLegacyFiles(files.value, clock);
      if completed {
        manager.SaveSetting("filesList", parsed.value);
      }
    }

    /** `migrateSettings()`; `ok` is false when it throws. */
    method MigrateSettings(session: SessionRead) returns (ok: bool)
      requires Valid()
      modifies manager, manager.local
      ensures Valid() && manager.Framed()
      ensures manager.View() == SettingsMigrated(old(manager.View()), old(Legacy()), session).stores
      ensures ok == SettingsMigrated(old(manager.View()), old(Legacy()), session).completed
    {
      LegacyKeysForeign();
      var last := ReadLegacy(LegacyLastFile);
      if last.Some? && last.value != "" {
        manager.SaveSetting("lastOpenedFile", JStr(last.value));
      }
      if session.Blocked? {
        return false;
      }
      var dismissed := session.value;
      if dismissed.Some? && dismissed.value != "" {
        manager.SaveSetting("pwaInstallDismissed", JBool(dismissed.value == "true"));
      }
      ok := true;
    }

    method MigrateOfflineQueue(draws: nat -> QueueDraw)
      requires Valid()
      modifies manager, manager.local
      ensures Valid() && manager.Framed()
      ensures manager.View() == QueueMigrated(manager.platform, old(manager.View()), old(Legacy()), draws)
    {
      LegacyKeysForeign();
      var saved := ReadLegacy(LegacyChanges);
      if saved.None? || saved.value == "" {
        return;
      }
      var parsed := manager.platform.parse(saved.value);
      if parsed.None? {
        return;
      }
      var changes := Iterated(parsed.value);
      if changes.None? {
        return;
      }
      var items := changes.value;
      ghost var st := manager.View();
      var i := 0;
      while i < |items|
        invariant 0 <= i <= |items|
        invariant Valid() && manager.Framed()
        invariant Enqueue(st, items, draws, 0) == Enqueue(manager.View(), items, draws, i)
      {
        var item := manager.AddToOfflineQueue(items[i], draws(i));
        i := i + 1;
      }
    }

    /**
     * `checkAndMigrate()`. `clock(i)` holds the clock readings of the i-th
     * pass of the file loop, `draws(i)` the clock readings and random suffix of
     * the i-th queued change, `session` what reading sessionStorage gives. `ok` is
     * false when reading the flag throws, which happens outside the `try`: the
     * call then rejects before anything is written.
     */
    method CheckAndMigrate(clock: nat -> FileClock, session: SessionRead, draws: nat -> QueueDraw) returns (ok: bool)
      requires Valid()
      modifies manager, manager.local
      ensures Valid() && manager.Framed()
      ensures ok == old(manager.Readable(Settings, MigrationKey))
      ensures ok ==> manager.View() == Migrate(manager.platform, old(manager.View()), old(Legacy()), session, clock, draws)
      ensures !ok || AlreadyMigrated(old(manager.View())) ==>
        manager.local.items == old(manager.local.items) && manager.instances == old(manager.instances)
    {
      var already;
      ok, already := manager.GetSetting(MigrationKey, JBool(false));
      if !ok || Truthy(already) {
        return;
      }
      MigrateFiles(clock);
      var completed := MigrateSettings(session);
      if !completed {
        return;
      }
      MigrateOfflineQueue(draws);
      manager.SaveSetting(MigrationKey, JBool(true));
    }

    /** Remove one legacy key from localStorage; the stores do not notice. */
    method RemoveLegacy(key: string)
      requires Valid() && !IsWrapperKey(key)
      modifies manager.local
      ensures Valid()
      ensures manager.View() == old(manager.View())
      ensures manager.local.items == old(manager.local.items) - {key}
    {
      if manager.backend == Fallback {
        ForeignWrite(manager.local.items, manager.local.items - {key}, manager.platform, key);
      }
      manager.local.RemoveItem(key);
    }

    /** Write one legacy key of localStorage; the stores do not notice. */
    method WriteLegacy(key: string, value: string)
      requires Valid() && !IsWrapperKey(key)
      modifies manager.local
      ensures Valid()
      ensures manager.View() == old(manager.View())
      ensures manager.local.items == old(manager.local.items)[key := value]
      ensures Foreign(manager.local.items) == Foreign(old(manager.local.items))[key := value]
    {
      ForeignSet(manager.local.items, key, value);
      if manager.backend == Fallback {
        ForeignWrite(manager.local.items, manager.local.items[key := value], manager.platform, key);
      }
      manager.local.SetItem(key, value);
    }

    /**
     * `cleanupOldData()`: remove the three legacy keys, but only once the flag
     * is set. `ok` is false when reading the flag throws.
     */
    method CleanupOldData() returns (ok: bool)
      requires Valid()
      modifies manager.local
      ensures Valid()
      ensures manager.View() == old(manager.View())
      ensures ok == old(manager.Readable(Settings, MigrationKey))
      ensures ok && AlreadyMigrated(manager.View()) ==>
        manager.local.items == old(manager.local.items) - {LegacyFiles, LegacyLastFile, LegacyChanges}
      ensures !ok || !AlreadyMigrated(manager.View()) ==> manager.local.items == old(manager.local.items)
    {
      var migrated;
      ok, migrated := manager.GetSetting(MigrationKey, JBool(false));
      if ok && Truthy(migrated) {
        LegacyKeysForeign();
        RemoveLegacy(LegacyFiles);
        RemoveLegacy(LegacyLastFile);
        RemoveLegacy(LegacyChanges);
      }
    }

    /** `getLegacyStorageSize()`: the loop over the keys of localStorage. */
    method GetLegacyStorageSize() returns (u: Usage)
      ensures u == LegacyUsage(manager.local.items)
    {
      var keys := manager.local.Keys();
      ghost var m := LegacyLengths(manager.local.items);
      var total: nat, count: nat := 0, 0;
      var j := 0;
      while j < |keys|
        invariant 0 <= j <= |keys|
        invariant count == SumOver(Ones(m), keys[..j]) && total == SumOver(m, keys[..j])
      {
        var key := keys[j];
        assert keys[..j + 1] == keys[..j] + [key];
        SumOverSnoc(m, keys[..j], key);
        SumOverSnoc(Ones(m), keys[..j], key);
        if LegacyPrefix <= key {
          var item := manager.local.GetItem(key);
          total := total + |item.value|;
          count := count + 1;
        }
        j := j + 1;
      }
      assert keys[..j] == keys;
      SumOverListed(m, keys);
      SumOverListed(Ones(m), keys);
      RestrictCovering(m, keys);
      RestrictCovering(Ones(m), keys);
      TotalOnes(m);
      u := Usage(count, total);
    }

    /** `getStorageStats()`: the manager's usage next to the legacy size; `ok` is false when the usage report throws. */
    method GetStorageStats() returns (ok: bool, enhanced: map<string, Usage>, legacy: Usage)
      requires Valid()
      ensures ok == manager.AllReadable()
      ensures ok ==> forall name :: name in enhanced <==> Named(name).Some?
      ensures ok ==> forall ns: Namespace ::
        ns.Name() in enhanced && enhanced[ns.Name()] == UsageOf(manager.platform, manager.View().Get(ns))
      ensures ok ==> legacy == LegacyUsage(manager.local.items)
    {
      ok, enhanced := manager.GetStorageUsage();
      if !ok {
        return false, enhanced, Usage(0, 0);
      }
      legacy := GetLegacyStorageSize();
    }

    /**
     * `rollbackToLocalStorage()`: write the `.data` of every `file_` entry of
     * appData back to `excalidraw-files` and clear the flag. `order` is the
     * order of `Object.entries` over the exported appData. `ok` is false when
     * the export throws or a null entry makes the loop throw; the catch then
     * leaves everything as it was.
     */
    method RollbackToLocalStorage(now: nat) returns (ok: bool, ghost order: seq<string>)
      requires Valid()
      modifies manager, manager.local
      ensures Valid()
      ensures manager.backend == old(manager.backend)
      ensures manager.backend == Fallback ==> manager.instances == old(manager.instances)
      ensures Lists(order, Exportable(old(manager.View()).appData).Keys)
      ensures ok <==> old(manager.AllReadable()) && !HasNullFile(old(manager.View()).appData)
      ensures !ok ==> manager.View() == old(manager.View())
      ensures !ok ==> manager.local.items == old(manager.local.items) && manager.instances == old(manager.instances)
      ensures ok ==> manager.View() == old(manager.View()).Put(Settings, MigrationKey, JBool(false))
      ensures ok ==> !AlreadyMigrated(manager.View())
      ensures ok ==> Legacy() == old(Legacy())[LegacyFiles :=
        manager.platform.stringify(JArr(FileDataList(Exportable(old(manager.View()).appData), order)))]
      ensures ok && manager.backend == Primary ==> manager.local.items == old(manager.local.items)[LegacyFiles :=
        manager.platform.stringify(JArr(FileDataList(Exportable(old(manager.View()).appData), order)))]
      ensures ok && manager.backend == Fallback ==> manager.local.items == old(manager.local.items)[LegacyFiles :=
        manager.platform.stringify(JArr(FileDataList(Exportable(old(manager.View()).appData), order)))]
        [Settings.Prefix() + MigrationKey := manager.platform.stringify(JBool(false))]
    {
      var files;
      ok, files, order := ExportedFiles(now);
      if !ok {
        return;
      }
      RestoreFiles(files);
    }

    /**
     * The reading half of `rollbackToLocalStorage()`: export the stores and
     * collect the `.data` of every `file_` entry of appData, in the order
     * `order`. `ok` is false when the export or the loop throws.
     */
    method ExportedFiles(now: nat) returns (ok: bool, files: seq<Json>, ghost order: seq<string>)
      requires Valid()
      ensures Lists(order, Exportable(manager.View().appData).Keys)
      ensures ok <==> manager.AllReadable() && !HasNullFile(manager.View().appData)
      ensures ok ==> files == FileDataList(Exportable(manager.View().appData), order)
    {
      var exportedOk, exported := manager.ExportData(now);
      if !exportedOk {
        ListsExist(Exportable(manager.View().appData).Keys);
        order :| Lists(order, Exportable(manager.View().appData).Keys);
        return false, [], order;
      }
      ExportedAppData(manager.View(), now);
      ExportableFiles(manager.View().appData);
      // `exportData.data.appData` is always an object, so its truthiness test passes.
      var appData := Field(Field(exported, "data").value, "appData").value.fields;
      ok, files, order := FileData(appData);
    }

    /** The tail of `rollbackToLocalStorage()`: write the file list back and clear the flag. */
    method RestoreFiles(files: seq<Json>)
      requires Valid()
      modifies manager, manager.local
      ensures Valid()
      ensures manager.backend == old(manager.backend)
      ensures manager.backend == Fallback ==> manager.instances == old(manager.instances)
      ensures manager.View() == old(manager.View()).Put(Settings, MigrationKey, JBool(false))
      ensures !AlreadyMigrated(manager.View())
      ensures Legacy() == old(Legacy())[LegacyFiles := manager.platform.stringify(JArr(files))]
      ensures manager.backend == Primary ==>
        manager.local.items == old(manager.local.items)[LegacyFiles := manager.platform.stringify(JArr(files))]
      ensures manager.backend == Fallback ==>
        manager.local.items == old(manager.local.items)[LegacyFiles := manager.platform.stringify(JArr(files))]
          [Settings.Prefix() + MigrationKey := manager.platform.stringify(JBool(false))]
    {
      LegacyKeysForeign();
      WriteLegacy(LegacyFiles, manager.platform.stringify(JArr(files)));
      manager.SaveSetting(MigrationKey, JBool(false));
    }
  }
}
