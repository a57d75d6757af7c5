/**
 * The storage side of the application component: replaying the offline queue
 * when the browser comes back online, saving a file with offline support,
 * deleting a file, and the updaters the component hands to `setFiles` when a
 * file is renamed, duplicated or loaded from storage.
 *
 * React state (`files`, `currentFile`, `isOnline`) is passed in and returned;
 * the clock (`Date.now()`, `new Date().toISOString()`), the random part of
 * generated ids and the user's answer to `window.confirm` are parameters.
 */
module App {
  import opened Js
  import opened Collections
  import opened Stores
  import opened Records
  import opened Sorting
  import opened Manager

  // ---------------------------------------------------------------------------
  // Finding a file in the list.

  /** `f.id === id`. Only objects carry an `id` property. */
  predicate HasId(f: Json, id: Json) {
    Field(f, "id") == Some(id)
  }

  /** `files.find(f => f.id === id)`: the first entry with that id. */
  function FindById(files: seq<Json>, id: Json): (r: Option<Json>)
    ensures r.Some? <==> exists i :: 0 <= i < |files| && HasId(files[i], id)
    ensures r.Some? ==> r.value in files && HasId(r.value, id)
    ensures r.Some? ==> exists i :: 0 <= i < |files| && files[i] == r.value && HasId(files[i], id) &&
                                 forall j :: 0 <= j < i ==> !HasId(files[j], id)
  {
    if files == [] then None
    else if HasId(files[0], id) then Some(files[0])
    else
      var r := FindById(files[1..], id);
      assert forall i :: 0 < i < |files| ==> files[i] == files[1..][i - 1];
      r
  }

  /** No two entries that have an id share it. */
  ghost predicate DistinctIds(files: seq<Json>) {
    forall i, j :: 0 <= i < j < |files| && Field(files[i], "id").Some? ==> Field(files[i], "id") != Field(files[j], "id")
  }

  // ---------------------------------------------------------------------------
  // Replaying the offline queue.

  /**
   * `processOfflineOperation(operation)`: true when it returns normally. Reading
   * `type` of an undefined or null operation throws, and so does reading
   * `data.name` for a `'save'` whose `data` is undefined or null; every other
   * operation, an unknown type included, only logs.
   */
  function ProcessOfflineOperation(operation: Option<Json>): bool {
    match operation
    case None => false
    case Some(op) =>
      if op == JNull then false
      else if Field(op, "type") == Some(JStr("save")) then
        Field(op, "data").Some? && Field(op, "data").value != JNull
      else true
  }

  /** Processing the operation of a queue entry returns normally. */
  predicate Replays(item: Json) {
    ProcessOfflineOperation(Field(item, "operation"))
  }

  /** The key `removeFromOfflineQueue(queueItem.id)` removes. */
  function EntryKey(item: Json): string {
    Text(Field(item, "id"))
  }

  /** The keys the replay removes: those of the entries whose operation was processed without error. */
  function Done(items: seq<Json>): set<string> {
    set i | 0 <= i < |items| && Replays(items[i]) :: EntryKey(items[i])
  }

  lemma {:induction false} DoneStep(items: seq<Json>, i: nat)
    requires i < |items|
    ensures Done(items[..i + 1]) == Done(items[..i]) + (if Replays(items[i]) then {EntryKey(items[i])} else {})
  {
    var a, b := items[..i], items[..i + 1];
    forall k ensures k in Done(b) <==> k in Done(a) || (Replays(items[i]) && k == EntryKey(items[i])) {
      if k in Done(b) {
        var j :| 0 <= j < |b| && Replays(b[j]) && EntryKey(b[j]) == k;
        if j < i {
          assert a[j] == b[j];
        }
      }
      if k in Done(a) {
        var j :| 0 <= j < |a| && Replays(a[j]) && EntryKey(a[j]) == k;
        assert b[j] == a[j];
      }
      if Replays(items[i]) && k == EntryKey(items[i]) {
        assert b[i] == items[i];
      }
    }
  }

  /** Every stored entry sits under its own id, as `addToOfflineQueue` writes it. */
  ghost predicate SelfKeyed(q: map<string, Json>) {
    forall k :: k in q && Truthy(q[k]) ==> Field(q[k], "id") == Some(JStr(k))
  }

  /** Adding an entry keeps every entry under its own id; so does removing one. */
  lemma QueueStaysSelfKeyed(q: map<string, Json>, operation: Json, d: QueueDraw, id: string)
    requires SelfKeyed(q)
    ensures SelfKeyed(q[d.Id() := QueueItem(operation, d)])
    ensures SelfKeyed(q - {id})
  {
  }

  /**
   * After replaying a listing of a self-keyed queue, an entry is still queued
   * exactly when it was queued and was not a truthy entry whose operation
   * processes without error; the entries that stay keep their values.
   */
  lemma {:induction false} ReplayedExactly(q: map<string, Json>, queue: seq<Json>, k: string)
    requires SelfKeyed(q) && HoldsValues(queue, Selected(q, ""))
    ensures k in q - Done(queue) <==> k in q && !(Truthy(q[k]) && Replays(q[k]))
  {
    var sel := Selected(q, "");
    var ks :| Lists(ks, sel.Keys) && multiset(queue) == multiset(Pick(sel, ks));
    if k in q && Truthy(q[k]) && Replays(q[k]) {
      ProcessedRemoved(q, queue, ks, k);
    }
    if k in Done(queue) {
      RemovedProcessed(q, queue, ks, k);
    }
  }

  /** A truthy queued entry whose operation processes is listed, so the replay removes it. */
  lemma ProcessedRemoved(q: map<string, Json>, queue: seq<Json>, ks: seq<string>, k: string)
    requires SelfKeyed(q)
    requires Lists(ks, Selected(q, "").Keys) && multiset(queue) == multiset(Pick(Selected(q, ""), ks))
    requires k in q && Truthy(q[k]) && Replays(q[k])
    ensures k in Done(queue)
  {
    var picked := Pick(Selected(q, ""), ks);
    var j :| 0 <= j < |ks| && ks[j] == k;
    assert picked[j] == q[k];
    assert q[k] in multiset(queue);
    var i :| 0 <= i < |queue| && queue[i] == q[k];
    assert EntryKey(queue[i]) == k;
  }

  /** A key the replay removes belongs to a truthy queued entry whose operation processes. */
  lemma RemovedProcessed(q: map<string, Json>, queue: seq<Json>, ks: seq<string>, k: string)
    requires SelfKeyed(q)
    requires Lists(ks, Selected(q, "").Keys) && multiset(queue) == multiset(Pick(Selected(q, ""), ks))
    requires k in Done(queue)
    ensures k in q && Truthy(q[k]) && Replays(q[k])
  {
    var picked := Pick(Selected(q, ""), ks);
    var i :| 0 <= i < |queue| && Replays(queue[i]) && EntryKey(queue[i]) == k;
    assert queue[i] in multiset(picked);
    var j :| 0 <= j < |picked| && picked[j] == queue[i];
    var k' := ks[j];
    assert k' in q && q[k'] == queue[i] && Truthy(q[k']);
    assert Field(q[k'], "id") == Some(JStr(k'));
  }

  /** The entries that `saveWithOfflineSupport` queues for a defined file replay without error. */
  lemma SaveOperationReplays(fileData: Json, iso: string, d: QueueDraw)
    requires fileData != JNull
    ensures Replays(QueueItem(SaveOperation(fileData, iso), d))
  {
  }

  /** The entries that `deleteFile` queues replay without error. */
  lemma DeleteOperationReplays(fileId: Json, file: Json, iso: string, d: QueueDraw)
    ensures Replays(QueueItem(DeleteOperation(fileId, file, iso), d))
  {
  }

  /** An operation with a type other than `'save'`, unknown types included, replays without error. */
  lemma OtherTypesReplay(op: Json)
    requires op != JNull && Field(op, "type") != Some(JStr("save"))
    ensures ProcessOfflineOperation(Some(op))
  {
  }

  /** An entry without an operation, or a `'save'` without data, fails and so stays queued. */
  lemma MalformedOperationsFail(op: Option<Json>)
    requires op.None? || op == Some(JNull) ||
             (Field(op.value, "type") == Some(JStr("save")) && (Field(op.value, "data").None? || Field(op.value, "data") == Some(JNull)))
    ensures !ProcessOfflineOperation(op)
  {
  }

  /** The queue left after replaying `items` in order: each processed entry is removed under its id. */
  function Pending(q: map<string, Json>, items: seq<Json>): map<string, Json> {
    if items == [] then q
    else
      var last := items[|items| - 1];
      var r := Pending(q, items[..|items| - 1]);
      if Replays(last) then r - {EntryKey(last)} else r
  }

  /** Replaying removes exactly the ids of the entries that were processed, whatever the order. */
  lemma {:induction false} PendingIsDone(q: map<string, Json>, items: seq<Json>)
    ensures Pending(q, items) == q - Done(items)
  {
    if items == [] {
      assert Done(items) == {};
    } else {
      var i := |items| - 1;
      PendingIsDone(q, items[..i]);
      DoneStep(items, i);
      assert items[..i + 1] == items;
    }
  }

  /** One pass of the `syncOfflineData` loop: process the entry, and remove it from the queue when that succeeded. */
  method ReplayEntry(m: StorageManager, item: Json)
    requires m.Valid()
    modifies m, m.local
    ensures m.Valid() && m.Framed()
    ensures m.View() == old(m.View()).With(OfflineQueue,
      if Replays(item) then old(m.View()).offlineQueue - {EntryKey(item)} else old(m.View()).offlineQueue)
  {
    if ProcessOfflineOperation(Field(item, "operation")) {
      m.RemoveFromOfflineQueue(EntryKey(item));
    } else {
      StoresEqual(m.View(), m.View().With(OfflineQueue, m.View().offlineQueue));
    }
  }

  /** The loop of `syncOfflineData` over the listed entries, oldest first. */
  method ReplayQueue(m: StorageManager, queue: seq<Json>)
    requires m.Valid()
    modifies m, m.local
    ensures m.Valid() && m.Framed()
    ensures m.View() == old(m.View()).With(OfflineQueue, Pending(old(m.View()).offlineQueue, queue))
  {
    ghost var st := m.View();
    var i := 0;
    StoresEqual(st, st.With(OfflineQueue, Pending(st.offlineQueue, queue[..0])));
    while i < |queue|
      invariant 0 <= i <= |queue|
      invariant m.Valid() && m.Framed()
      invariant m.View() == st.With(OfflineQueue, Pending(st.offlineQueue, queue[..i]))
    {
      ghost var before := m.View();
      ReplayEntry(m, queue[i]);
      assert queue[..i + 1][..i] == queue[..i];
      StoresEqual(m.View(), st.With(OfflineQueue, Pending(st.offlineQueue, queue[..i + 1])));
      i := i + 1;
    }
    assert queue[..i] == queue;
  }

  /**
   * `syncOfflineData()`: list the queue oldest first, then replay it. Only the
   * queue changes, and only by losing the entries that were processed. `ok` is
   * false when listing the queue throws; the catch then leaves everything as
   * it was.
   */
  method SyncOfflineData(m: StorageManager) returns (ok: bool, queue: seq<Json>)
    requires m.Valid()
    modifies m, m.local
    ensures m.Valid() && m.Framed()
    ensures ok == old(m.ReadableFrom(OfflineQueue, ""))
    ensures !ok ==> m.local.items == old(m.local.items) && m.instances == old(m.instances)
    ensures ok ==> Sorted(Oldest, queue) && HoldsValues(queue, Selected(old(m.View()).offlineQueue, ""))
    ensures ok ==> m.View() == old(m.View()).With(OfflineQueue, old(m.View()).offlineQueue - Done(queue))
  {
    ok, queue := m.GetOfflineQueue();
    if !ok {
      return;
    }
    PendingIsDone(m.View().offlineQueue, queue);
    if |queue| > 0 {
      ReplayQueue(m, queue);
    } else {
      assert Done(queue) == {};
      StoresEqual(m.View(), m.View().With(OfflineQueue, m.View().offlineQueue - Done(queue)));
    }
  }

  // ---------------------------------------------------------------------------
  // Saving and deleting with offline support.

  /** `{type: 'save', fileId: fileData.id, timestamp, data: fileData}` */
  function SaveOperation(fileData: Json, iso: string): Json {
    JObj(WithOptional(map["type" := JStr("save"), "timestamp" := JStr(iso), "data" := fileData], "fileId", Field(fileData, "id")))
  }

  /** `{type: 'delete', fileId, fileName: file.name, timestamp}` */
  function DeleteOperation(fileId: Json, file: Json, iso: string): Json {
    JObj(WithOptional(map["type" := JStr("delete"), "fileId" := fileId, "timestamp" := JStr(iso)], "fileName", Field(file, "name")))
  }

  /**
   * `saveWithOfflineSupport(fileData)`: save the file under its name and, when
   * offline, queue a `'save'` operation. False when `fileData.name` throws on a
   * null file (nothing is written then) or when the PWA cache write throws
   * (`cached` is false; the storage writes stay).
   */
  method SaveWithOfflineSupport(m: StorageManager, fileData: Json, isOnline: bool, cached: bool,
                                savedAt: nat, queued: QueueDraw, iso: string) returns (ok: bool)
    requires m.Valid()
    modifies m, m.local
    ensures m.Valid() && m.Framed()
    ensures ok <==> fileData != JNull && cached
    ensures fileData == JNull ==> m.View() == old(m.View())
    ensures fileData != JNull ==>
      var saved := old(m.View()).Put(AppData, FileKey(Field(fileData, "name")),
                                     FileRecord(m.platform, Field(fileData, "name"), fileData, savedAt));
      m.View() == if isOnline then saved
                  else saved.Put(OfflineQueue, queued.Id(), QueueItem(SaveOperation(fileData, iso), queued))
  {
    if fileData == JNull {
      return false;
    }
    var record := m.SaveFile(Field(fileData, "name"), fileData, savedAt);
    if !isOnline {
      var item := m.AddToOfflineQueue(SaveOperation(fileData, iso), queued);
    }
    ok := cached;
  }

  /** `prev.filter(file => file.id !== fileId)` */
  function WithoutId(files: seq<Json>, id: Json): seq<Json> {
    if files == [] then []
    else (if HasId(files[0], id) then [] else [files[0]]) + WithoutId(files[1..], id)
  }

  /** The filter keeps exactly the entries with another id, each as often as before. */
  lemma {:induction false} WithoutIdCounts(files: seq<Json>, id: Json, x: Json)
    ensures multiset(WithoutId(files, id))[x] == if HasId(x, id) then 0 else multiset(files)[x]
  {
    if files != [] {
      var head, tail := files[0], files[1..];
      var kept := if HasId(head, id) then [] else [head];
      var rest := WithoutId(tail, id);
      WithoutIdCounts(tail, id, x);
      assert WithoutId(files, id) == kept + rest;
      assert files == [head] + tail;
      var n := multiset(WithoutId(files, id))[x];
      assert n == multiset(kept)[x] + multiset(rest)[x];
      assert multiset(files)[x] == multiset([head])[x] + multiset(tail)[x];
      if HasId(x, id) {
        assert multiset(kept)[x] == 0;
      } else if head == x {
        assert kept == [x];
      } else {
        assert multiset(kept)[x] == 0 && multiset([head])[x] == 0;
      }
    }
  }

  /** The filter works entry by entry, so it keeps the order of the list. */
  lemma {:induction false} WithoutIdAppend(a: seq<Json>, b: seq<Json>, id: Json)
    ensures WithoutId(a + b, id) == WithoutId(a, id) + WithoutId(b, id)
  {
    if a != [] {
      assert (a + b)[1..] == a[1..] + b;
      WithoutIdAppend(a[1..], b, id);
    } else {
      assert a + b == b;
    }
  }

  /**
   * The confirmed branch of `deleteFile(fileId)`: delete the file under its
   * name, queue a `'delete'` operation when offline, drop every entry with that
   * id from the list, and clear the current file when it was the one deleted.
   * Without a matching file, or when the user does not confirm, nothing happens.
   * `files` is the list the lookup sees; `prev` is the list the `setFiles`
   * updater is given, which the filter works on.
   */
  method DeleteFile(m: StorageManager, files: seq<Json>, prev: seq<Json>, current: Json, fileId: Json, confirmed: bool,
                    isOnline: bool, queued: QueueDraw, iso: string)
    returns (files': seq<Json>, current': Json)
    requires m.Valid()
    modifies m, m.local
    ensures m.Valid() && m.Framed()
    ensures !(FindById(files, fileId).Some? && confirmed) ==>
      m.View() == old(m.View()) && files' == prev && current' == current
    ensures FindById(files, fileId).Some? && confirmed ==>
      var file := FindById(files, fileId).value;
      var deleted := old(m.View()).Remove(AppData, FileKey(Field(file, "name")));
      && m.View() == (if isOnline then deleted
                      else deleted.Put(OfflineQueue, queued.Id(), QueueItem(DeleteOperation(fileId, file, iso), queued)))
      && Lookup(m.View().appData, FileKey(Field(file, "name"))) == JNull
      && files' == WithoutId(prev, fileId)
      && current' == if Truthy(current) && HasId(current, fileId) then JNull else current
  {
    var found := FindById(files, fileId);
    if found.None? || !confirmed {
      return prev, current;
    }
    var file := found.value;
    m.DeleteFile(Field(file, "name"));
    if !isOnline {
      var item := m.AddToOfflineQueue(DeleteOperation(fileId, file, iso), queued);
    }
    files' := WithoutId(prev, fileId);
    current' := if Truthy(current) && HasId(current, fileId) then JNull else current;
  }

  // ---------------------------------------------------------------------------
  // The `setFiles` updaters of renameFile, duplicateFile and loadFile.

  /** `{ ...file, name: newName, updatedAt }` for the entry being renamed. */
  function Renamed(file: Json, newName: Json, iso: string): Json {
    if file.JObj? then JObj(file.fields["name" := newName]["updatedAt" := JStr(iso)]) else file
  }

  /**
   * `prev.map(file => file.id === fileId ? { ...file, name: newName, updatedAt } : file)`.
   * The callback reads the clock afresh for every matching entry: `iso(i)` is
   * the reading taken for entry `i`.
   */
  function RenameInList(files: seq<Json>, fileId: Json, newName: Json, iso: nat -> string): (r: seq<Json>)
    ensures |r| == |files|
    ensures forall i :: 0 <= i < |files| ==> Field(r[i], "id") == Field(files[i], "id")
    ensures forall i :: 0 <= i < |files| && !HasId(files[i], fileId) ==> r[i] == files[i]
    ensures forall i :: 0 <= i < |files| && HasId(files[i], fileId) ==>
      && Field(r[i], "name") == Some(newName) && Field(r[i], "updatedAt") == Some(JStr(iso(i)))
      && r[i].fields.Keys == files[i].fields.Keys + {"name", "updatedAt"}
      && forall f :: f in files[i].fields && f != "name" && f != "updatedAt" ==> r[i].fields[f] == files[i].fields[f]
  {
    var r := seq(|files|, i requires 0 <= i < |files| => if HasId(files[i], fileId) then Renamed(files[i], newName, iso(i)) else files[i]);
    assert forall i :: 0 <= i < |files| ==> r[i] == if HasId(files[i], fileId) then Renamed(files[i], newName, iso(i)) else files[i];
    r
  }

  /** Ids stay distinct under a rename. */
  lemma RenameKeepsIdsDistinct(files: seq<Json>, fileId: Json, newName: Json, iso: nat -> string)
    requires DistinctIds(files)
    ensures DistinctIds(RenameInList(files, fileId, newName, iso))
  {
  }

  /** `setCurrentFile(prev => ({ ...prev, name: newName }))` when the current file is the one renamed. */
  function RenameCurrent(current: Json, fileId: Json, newName: Json): Json {
    if Truthy(current) && HasId(current, fileId) then JObj(current.fields["name" := newName]) else current
  }

  /**
   * When the current file is an entry of the list, after a rename the two
   * agree on everything but `updatedAt`, which only the list entry receives.
   */
  lemma RenameCurrentAgrees(files: seq<Json>, current: Json, fileId: Json, newName: Json, iso: nat -> string, i: nat)
    requires i < |files| && files[i] == current && HasId(current, fileId)
    ensures RenameCurrent(current, fileId, newName).JObj?
    ensures RenameInList(files, fileId, newName, iso)[i]
         == JObj(RenameCurrent(current, fileId, newName).fields["updatedAt" := JStr(iso(i))])
  {
  }

  /**
   * `{ ...file, id: newId, name: `${file.name} (Copy)`, createdAt, updatedAt }`,
   * where `createdIso` and `updatedIso` are the two clock readings.
   */
  function Duplicated(file: Json, newId: string, createdIso: string, updatedIso: string): Json {
    var fields := if file.JObj? then file.fields else map[];
    JObj(fields["id" := JStr(newId)]["name" := JStr(Text(Field(file, "name")) + " (Copy)")]
               ["createdAt" := JStr(createdIso)]["updatedAt" := JStr(updatedIso)])
  }

  /** `duplicateFile(fileId)`: look the file up in `files`, then `setFiles(prev => [...prev, duplicatedFile])`. */
  function DuplicateFile(files: seq<Json>, prev: seq<Json>, fileId: Json, newId: string, createdIso: string, updatedIso: string): seq<Json> {
    match FindById(files, fileId)
    case None => prev
    case Some(file) => prev + [Duplicated(file, newId, createdIso, updatedIso)]
  }

  /**
   * Duplicating a file that exists appends exactly one entry and leaves the
   * others as they were. The new entry carries the generated id, the name with
   * " (Copy)" added, the two dates read from the clock, and the original's
   * other properties, and nothing else. A generated id that no entry has keeps
   * the ids distinct.
   */
  lemma DuplicateAppendsOne(files: seq<Json>, prev: seq<Json>, fileId: Json, newId: string, createdIso: string, updatedIso: string)
    requires FindById(files, fileId).Some?
    ensures var r := DuplicateFile(files, prev, fileId, newId, createdIso, updatedIso);
      var file := FindById(files, fileId).value;
      && |r| == |prev| + 1 && r[..|prev|] == prev
      && Field(r[|prev|], "id") == Some(JStr(newId))
      && Field(r[|prev|], "name") == Some(JStr(Text(Field(file, "name")) + " (Copy)"))
      && Field(r[|prev|], "createdAt") == Some(JStr(createdIso))
      && Field(r[|prev|], "updatedAt") == Some(JStr(updatedIso))
      && r[|prev|].fields.Keys == file.fields.Keys + {"id", "name", "createdAt", "updatedAt"}
      && forall f :: f in file.fields && f !in {"id", "name", "createdAt", "updatedAt"} ==> r[|prev|].fields[f] == file.fields[f]
    ensures DistinctIds(prev) && FindById(prev, JStr(newId)).None? ==>
      DistinctIds(DuplicateFile(files, prev, fileId, newId, createdIso, updatedIso))
  {
    var r := DuplicateFile(files, prev, fileId, newId, createdIso, updatedIso);
    assert r[..|prev|] == prev;
    if DistinctIds(prev) && FindById(prev, JStr(newId)).None? {
      forall i, j | 0 <= i < j < |r| && Field(r[i], "id").Some? ensures Field(r[i], "id") != Field(r[j], "id") {
        if j == |prev| {
          assert r[i] == prev[i];
          assert !HasId(prev[i], JStr(newId));
        } else {
          assert r[i] == prev[i] && r[j] == prev[j];
        }
      }
    }
  }

  /** Nothing is appended when no file in the list has that id. */
  lemma DuplicateMissing(files: seq<Json>, prev: seq<Json>, fileId: Json, newId: string, createdIso: string, updatedIso: string)
    requires FindById(files, fileId).None?
    ensures DuplicateFile(files, prev, fileId, newId, createdIso, updatedIso) == prev
  {
  }

  /** `setFiles(prev => prev.find(f => f.id === fileId) ? prev : [...prev, file])` */
  function AddLoaded(prev: seq<Json>, file: Json, fileId: Json): seq<Json> {
    if FindById(prev, fileId).Some? then prev else prev + [file]
  }

  /**
   * The loaded file is appended exactly when no entry has the id asked for;
   * when the file's own id is that id, or it has none, ids stay distinct.
   */
  lemma AddLoadedOnce(prev: seq<Json>, file: Json, fileId: Json)
    ensures (exists i :: 0 <= i < |prev| && HasId(prev[i], fileId)) ==> AddLoaded(prev, file, fileId) == prev
    ensures !(exists i :: 0 <= i < |prev| && HasId(prev[i], fileId)) ==> AddLoaded(prev, file, fileId) == prev + [file]
    ensures DistinctIds(prev) && (Field(file, "id").None? || HasId(file, fileId)) ==> DistinctIds(AddLoaded(prev, file, fileId))
  {
    var r := AddLoaded(prev, file, fileId);
    if DistinctIds(prev) && (Field(file, "id").None? || HasId(file, fileId)) && r != prev {
      forall i, j | 0 <= i < j < |r| && Field(r[i], "id").Some? ensures Field(r[i], "id") != Field(r[j], "id") {
        assert r[i] == prev[i];
        if j == |prev| {
          assert r[j] == file;
          assert !HasId(prev[i], fileId);
        } else {
          assert r[j] == prev[j];
        }
      }
    }
  }

  /**
   * `getFile(fileId)` returns the record `saveFile` wrote, which has no `id`
   * property, so a second load of the same stored file finds no entry with
   * that id and appends the record again.
   */
  lemma LoadStoredTwice(pl: Platform, prev: seq<Json>, name: Option<Json>, file: Json, now: nat, fileId: Json)
    requires FindById(prev, fileId).None?
    ensures var rec := FileRecord(pl, name, file, now);
      Field(rec, "id").None? && AddLoaded(AddLoaded(prev, rec, fileId), rec, fileId) == prev + [rec, rec]
  {
    var rec := FileRecord(pl, name, file, now);
    var once := prev + [rec];
    assert forall i :: 0 <= i < |once| ==> !HasId(once[i], fileId) by {
      forall i | 0 <= i < |once| ensures !HasId(once[i], fileId) {
        if i < |prev| {
          assert once[i] == prev[i];
        }
      }
    }
    assert once + [rec] == prev + [rec, rec];
  }
}
