# Excalidraw PWA storage layer in Dafny

This project models the persistence layer of a small Excalidraw progressive web app and proves properties of the model. It also models the app-level code that drives that layer. There are three parts.

- `StorageManager` (`src/storageManager.js`) is a facade over four namespaced key-value stores: `appData`, `cache`, `settings` and `offlineQueue`.
  - Initialisation probes each store with a write/read/delete round trip.
  - If any probe fails, all four stores are replaced together by prefixed wrappers over `localStorage`.
  - On top of the stores it offers:
    - file and drawing records under the `file_` and `drawing_` prefixes;
    - settings with a default value;
    - a URL cache with a 24-hour lifetime and eviction on read;
    - an offline operation queue, read back oldest first;
    - usage statistics, export, additive import and clear-all.
- `StorageMigration` (`src/storageMigration.js`) copies the legacy flat `localStorage` layout into the manager once. A persisted setting, `storage_migrated_v1`, guards it. It also has a flag-guarded cleanup of the legacy keys, size statistics, and a manual rollback that rebuilds the legacy file list.
- From `src/App.jsx`, the model covers:
  - the replay loop over the offline queue (`syncOfflineData`) and its dispatcher (`processOfflineOperation`);
  - the save path that enqueues only when offline (`saveWithOfflineSupport`);
  - the storage and queue part of `deleteFile`;
  - the `setFiles` list updaters of `renameFile`, `duplicateFile` and `loadFile`.

## Layout

| file | module | contents |
|---|---|---|
| `js.dfy` | `Js` | JSON values, JavaScript truthiness, property access and `String(v)`. `JSON.stringify`, `JSON.parse` and `btoa` are fields of a `Platform` value, and `Lawful` states what the code relies on about them. |
| `collections.dfy` | `Collections` | Key enumerations (`Lists`, `Enumerate`), filters, merges and sums over maps. |
| `sorting.dfy` | `Sorting` | The timestamp orders used by `sort`, and a stable insertion sort proved sorted and a permutation. |
| `webstorage.dfy` | `WebStorage` | The browser's `localStorage`, as a class over a `map<string, string>`. |
| `stores.dfy` | `Stores` | The four namespaces and their wrapper prefixes, and the `Stores` value. It also gives the view a `localStorage` wrapper presents, and proves the wrappers independent. |
| `records.dfy` | `Records` | Keys and record shapes (file, drawing, cache, queue item), listings, usage, and export and import as functions. |
| `manager.dfy` | `Manager` | The `StorageManager` class: each public method, proved against the abstract state `View()`. |
| `migration.dfy` | `Migration` | The migration steps, as functions with their lemmas. The `StorageMigration` class is proved against those functions. |
| `app.dfy` | `App` | Queue replay, save and delete with offline support, and the file-list updaters. |

`StorageManager` keeps the four primary stores as `map` fields, and it shares one `LocalStorage` object with the migration. `View()` is the abstract content of the four stores:

- while the primary backend is in use, it is the primary maps;
- after the fallback, it is what the four prefixed wrappers present of `localStorage`.

Because the backend is one field, no state mixes the two backends. Every state-changing method of the manager, and every migration step that writes only through it, states its new `View()`. It also states that it keeps `Valid()` and `Framed()`: the backend stays, and no `localStorage` key outside the wrappers changes. The methods that write legacy keys state instead exactly how `localStorage` changes. `RemoveLegacy`, `WriteLegacy` and `CleanupOldData` state it as the whole new `localStorage`. `RestoreFiles` and `RollbackToLocalStorage` state it on each backend:

- on the primary backend, the only change is the `excalidraw-files` key;
- on the fallback, that key changes and so does the settings wrapper's key for the flag, which holds the JSON text of `false`.

These two also state that the backend, and on the fallback the wrapper instances, are kept.

On the fallback, a wrapper's `getItem` runs `JSON.parse` on the stored string, so it throws when that string is not JSON text. `Readable(ns, key)` says that this read returns. `ReadableFrom(ns, p)` says the same for every key of the store that starts with `p`. Every reader returns an `ok` flag. The flag is false exactly when one of its reads throws, and the reader's other results are promised only when it is true. The primary stores are always readable.

Inputs that come from outside the code are parameters:

- the clock: `now` or `iso` where a call reads it once. `cacheResource` gets `stampedAt` and `at`, one for each of its two readings. `duplicateFile` gets `createdIso` and `updatedIso`, and `renameFile` gets `iso(i)`, the reading its `map` callback takes for entry `i`;
- each `addToOfflineQueue` gets a `QueueDraw`: the time read for the id, the `Math.random` suffix, and the time read again for the timestamp;
- the migration loops get one reading per pass: `clock(i)` is a `FileClock` holding the two ISO defaults and the `saveFile` time of file `i`, and `draws(i)` is the `QueueDraw` of change `i`;
- the result of each namespace probe (`probe`), and whether the driver logging succeeded (`logOk`);
- whether `sessionStorage` could be read (`session`);
- `navigator.onLine` (`isOnline`);
- `window.confirm` (`confirmed`);
- `generateId()` (`newId`);
- whether the PWA cache write succeeded (`cached`).

## Model

| member | source | states |
|---|---|---|
| Stores.PrefixesDisjoint | src/storageManager.js:100-105 | No key carries two of the four wrapper prefixes. |
| Stores.DecodeEncode | src/storageManager.js:110-116 | A wrapper reads back exactly the value its `setItem` wrote. |
| Stores.WrapperViewAt | src/storageManager.js:113-116 | A key is in a wrapper's store exactly when the prefixed key is in `localStorage`. Its value is the parsed string, or null for an empty string. |
| Stores.WrapperSet | src/storageManager.js:110-112 | A wrapper's `setItem` changes its own store at that key only. The other three stores and all foreign `localStorage` entries are unchanged. |
| Stores.WrapperRemove | src/storageManager.js:117-119 | A wrapper's `removeItem` removes that key from its own store only. Every other store and the foreign entries are unchanged. |
| Stores.WrapperClear | src/storageManager.js:120-124 | A wrapper's `clear` empties its own store and leaves the other stores and the foreign entries as they were. |
| Stores.WrapperKeysListed | src/storageManager.js:125-129 | A wrapper's `keys()` lists each key of its store exactly once, prefix stripped. |
| Stores.ForeignWrite | src/storageManager.js:108-131 | Writing or removing a `localStorage` key that carries no wrapper prefix leaves all four wrapper stores unchanged. |
| Stores.PrefixParsesView | src/storageManager.js:113-116 | Every `localStorage` key under a wrapper prefix plus `p` parses exactly when every key under `p` of the store that wrapper presents parses. |
| WebStorage.LocalStorage.RemovePrefixed | src/storageManager.js:121-123 | Removes exactly the keys that start with the prefix and keeps the rest. |
| WebStorage.LocalStorage.Keys | src/storageManager.js:126-127 | Lists every key of `localStorage` exactly once. |
| Sorting.Sort | src/storageManager.js:170 | The result is ordered by timestamp in the requested direction, and it is a permutation of the input. |
| Records.SelectedListed | src/storageManager.js:159-168 | Filtering a key enumeration by prefix and then by truthiness of the value enumerates exactly the truthy records under that prefix. |
| Records.ListingsIndependent | src/storageManager.js:156-215 | Writing a `file_` key never changes the `drawing_` selection, and writing a `drawing_` key never changes the `file_` selection. |
| Records.CacheLifetime | src/storageManager.js:239-256 | A freshly cached entry is served exactly while the time is below the second clock reading plus 86400000. What it serves is the cached data. |
| Records.CacheKeysDistinct | src/storageManager.js:246 | Two different Latin-1 URLs get different cache keys. |
| Records.QueueIdsDistinct | src/storageManager.js:271 | Two queue ids are equal only when both their times and their random suffixes are equal. |
| Records.ExportBody | src/storageManager.js:353-360 | The export body has exactly the four namespace names. Each is mapped to an object holding that store without a `__proto__` key, because assigning that key to a plain object sets its prototype instead of adding a property. |
| Records.NamespacesNotInherited | src/storageManager.js:373 | No namespace name is a property inherited from `Object.prototype`. |
| Records.Entries | src/storageManager.js:374 | `Object.entries` throws exactly on null. On an object it yields the object's own properties. |
| Records.Import | src/storageManager.js:368-370 | An import whose `data` is missing or falsy throws and changes nothing. |
| Records.StepAccepted | src/storageManager.js:372-377 | One step of the import loop throws exactly for these entries: a known namespace with null contents, or an inherited property name with a non-empty entry list. |
| Records.ImportIntoOutcome | src/storageManager.js:372-378 | The import loop completes exactly when every entry is accepted. The stores are then merged entry by entry, unknown names change nothing, and unlisted keys are kept. |
| Records.ExportAccepted | src/storageManager.js:353-360 | Every entry of an export body gets through the import loop. |
| Records.ImportIntoExport | src/storageManager.js:372-378 | Importing an export body, in any entry order, adds each exported store, `__proto__` excluded, over the current one. |
| Records.ImportExport | src/storageManager.js:344-381 | Importing an export completes and overwrites each store key by key with the exported one. A `__proto__` key of the exported stores is not carried over. |
| Records.ExportThenImport | src/storageManager.js:344-381 | Exporting the stores and importing the result gives back the same stores, `__proto__` entries included, since the import never touches them. |
| Manager.StorageManager.constructor | src/storageManager.js:7-56 | The manager comes up on the primary backend exactly when every namespace probe and the logging succeed. Otherwise all four stores present the `localStorage` wrappers. |
| Manager.StorageManager.Init | src/storageManager.js:13-56 | Same as the constructor, for an existing manager. On the primary path each store loses only its test key. |
| Manager.StorageManager.FallbackToLocalStorage | src/storageManager.js:96-106 | Switches all four namespaces to the wrappers at once. The manager is then valid and presents the wrapper view of `localStorage`. |
| Manager.StorageManager.SetItem | src/storageManager.js:110-112 | On either backend, writes one key of one store and nothing else. On the fallback, the raw `localStorage` gains exactly the prefixed key holding the value's JSON text. |
| Manager.StorageManager.GetItem | src/storageManager.js:113-116 | The read returns exactly when the key is readable: always on the primary backend, and on the fallback when the stored string is absent, empty or JSON text. It then gives the stored value, or null when the key is absent. |
| Manager.StorageManager.RemoveItem | src/storageManager.js:117-119 | On either backend, removes one key of one store and nothing else. |
| Manager.StorageManager.Clear | src/storageManager.js:120-124 | On either backend, empties one store and nothing else. |
| Manager.StorageManager.Keys | src/storageManager.js:125-129 | On either backend, lists each key of one store exactly once. |
| Manager.StorageManager.ReadableFromView | src/storageManager.js:113-116 | The keys under a prefix are all readable exactly when every key of the store under that prefix is readable. |
| Manager.StorageManager.ReadableListed | src/storageManager.js:113-116 | A whole store is readable exactly when every key of a listing of it is readable. |
| Manager.StorageManager.ReadablePrefixed | src/storageManager.js:159-168 | The keys of `appData` under a prefix are all readable exactly when every key the prefix filter keeps from a listing is readable. |
| Manager.StorageManager.AllNamespacesReadable | src/storageManager.js:313-314 | A loop that found each of the four stores readable has found every store readable. |
| Manager.StorageManager.Collect | src/storageManager.js:162-168 | The read loop completes exactly when every listed key is readable. It returns the values of the truthy items, in key order. |
| Manager.StorageManager.CollectOne | src/storageManager.js:163-167 | One pass reads exactly when its key is readable, and then keeps the value exactly when it is truthy. |
| Manager.StorageManager.Listing | src/storageManager.js:156-171 | A listing completes exactly when the keys under the prefix are readable. It returns exactly their truthy records, each once, newest first. |
| Manager.StorageManager.SaveDrawing | src/storageManager.js:136-149 | Stores `{id, data, timestamp: now, version: '1.0'}` under `drawing_<id>` and returns it. Nothing else changes. |
| Manager.StorageManager.GetDrawing | src/storageManager.js:151-154 | Returns, when the key is readable, the record under `drawing_<id>`, or null. |
| Manager.StorageManager.GetAllDrawings | src/storageManager.js:156-171 | Completes exactly when every `drawing_` key is readable. It then returns exactly the truthy records under `drawing_` keys, each once, newest first. |
| Manager.StorageManager.DeleteDrawing | src/storageManager.js:173-177 | Removes `drawing_<id>` and nothing else. |
| Manager.StorageManager.SaveFile | src/storageManager.js:180-193 | Stores `{name, data, timestamp: now, size}` under `file_<name>` and returns it. `size` is the JSON length of the data, and all other keys are unchanged. |
| Manager.StorageManager.GetFile | src/storageManager.js:195-198 | Returns, when the key is readable, the record under `file_<name>`, or null. |
| Manager.StorageManager.GetAllFiles | src/storageManager.js:200-215 | Completes exactly when every `file_` key is readable. It then returns exactly the truthy records under `file_` keys, each once, newest first. |
| Manager.StorageManager.DeleteFile | src/storageManager.js:217-221 | Removes `file_<name>` and nothing else. |
| Manager.StorageManager.SaveSetting | src/storageManager.js:224-227 | Writes one setting and nothing else. On the fallback, exactly the `excalidraw_settings_` key of that setting changes in `localStorage`. |
| Manager.StorageManager.GetSetting | src/storageManager.js:229-233 | Completes exactly when the setting is readable. It then returns the default exactly when the setting is absent or null, and the stored value otherwise. |
| Manager.StorageManager.CacheResource | src/storageManager.js:236-247 | A Latin-1 URL gets `{url, data, timestamp, expires}` under `cache_<btoa(url)>`, with `expires` 24 hours after the second clock reading. Any other URL throws before anything is written. |
| Manager.StorageManager.GetCachedResource | src/storageManager.js:249-264 | A fresh entry returns its data and changes nothing. Otherwise the result is null, and a truthy stale entry is removed. A non-Latin-1 URL, or an unreadable entry, throws and changes nothing. |
| Manager.StorageManager.AddToOfflineQueue | src/storageManager.js:267-280 | Stores `{id, operation, timestamp, retries: 0}` under its own `queue_` id. The id uses the first clock reading and the suffix, and the timestamp is the second reading. It returns the item, and nothing else changes. |
| Manager.StorageManager.GetOfflineQueue | src/storageManager.js:282-296 | Completes exactly when the whole queue is readable. It then returns exactly the truthy queue entries, each once, oldest first. |
| Manager.StorageManager.RemoveFromOfflineQueue | src/storageManager.js:298-301 | Removes one queue entry and nothing else. |
| Manager.StorageManager.ClearOfflineQueue | src/storageManager.js:303-306 | Empties the queue and nothing else. |
| Manager.StorageManager.ItemSize | src/storageManager.js:319-322 | Reads exactly when the key is readable. An item then contributes its JSON length to `sizeBytes` when it is truthy, and 0 otherwise. |
| Manager.StorageManager.SumSizes | src/storageManager.js:318-323 | The size loop completes exactly when every listed key is readable. It then totals the sizes of exactly the listed keys. |
| Manager.StorageManager.StoreUsage | src/storageManager.js:315-329 | Completes exactly when the store is readable. It then reports the store's key count and the total JSON length of its truthy items. |
| Manager.StorageManager.GetStorageUsage | src/storageManager.js:309-333 | Completes exactly when every store is readable. It then reports one entry per namespace name, each with that store's key count and byte total. |
| Manager.StorageManager.UsageStep | src/storageManager.js:313-330 | One pass reads exactly when its store is readable. A failed pass means not every store is readable, and a completed one adds that store's figures to the report. |
| Manager.StorageManager.ClearAllData | src/storageManager.js:335-342 | Afterwards all four stores are empty. |
| Manager.StorageManager.ClearedUsage | src/storageManager.js:309-342 | In the state `clearAllData` leaves, every store is readable, so `getStorageUsage` completes, and it reports `itemCount` 0 and `sizeBytes` 0 for each of the four stores. |
| Manager.StorageManager.ExportStore | src/storageManager.js:354-359 | The inner export loop completes exactly when the store is readable. It then holds every key of the store except `__proto__`, each with its stored value. |
| Manager.StorageManager.ExportKeys | src/storageManager.js:357-359 | The key loop completes exactly when every listed key is readable. It then holds exactly the listed keys other than `__proto__`, with their values. |
| Manager.StorageManager.ExportOne | src/storageManager.js:358 | One pass reads exactly when its key is readable. It then adds that key with its value, unless the key is `__proto__`, which the read still fetches but the object never gets as its own property. |
| Manager.StorageManager.ExportStep | src/storageManager.js:353-360 | One pass reads exactly when its store is readable. A failed pass means not every store is readable, and a completed one adds that store to the export body. |
| Manager.StorageManager.ExportData | src/storageManager.js:344-363 | Completes exactly when every store is readable. It then returns `{timestamp: now, version: '1.0', data}`, where `data` holds one object per namespace with that store minus any `__proto__` key. |
| Manager.StorageManager.WriteAll | src/storageManager.js:374-376 | Writing every entry of one namespace's import data overwrites those keys and keeps all other keys. |
| Manager.StorageManager.WriteKeys | src/storageManager.js:374-376 | The writes done so far have merged the listed entries in order. |
| Manager.StorageManager.ImportEntry | src/storageManager.js:373-377 | One step of the import loop. It either throws with no write, or applies that entry as the import function says. |
| Manager.StorageManager.ImportEntries | src/storageManager.js:372-378 | The import loop matches the import function, whose meaning `Records.ImportIntoOutcome` states. |
| Manager.StorageManager.ImportData | src/storageManager.js:365-381 | The stores end as `Records.Import` says. The call succeeds exactly when it does not throw. |
| Migration.LegacyKeysForeign | src/storageMigration.js:45 | The three legacy keys carry no wrapper prefix, so they never alias a store entry. |
| Migration.WrapperKeysCountedAsLegacy | src/storageMigration.js:146-148 | Every wrapper key starts with `excalidraw`, so after a fallback the legacy size count also counts the stores. |
| Migration.LegacyFileDataKeys | src/storageMigration.js:54-61 | A normalised file keeps `id` and `name`. Its keys are exactly the four data keys plus `id` and `name` when the file had them. |
| Migration.LegacyFileDataValues | src/storageMigration.js:54-61 | `elements`, `appState`, `createdAt` and `updatedAt` are present. The first two are truthy, and each date is truthy once its ISO default is non-empty. Each keeps the file's own value when that value is truthy. |
| Migration.LegacyFileDataFixed | src/storageMigration.js:54-61 | A record already in the new shape is left as it is. |
| Migration.LegacyFileDataIdempotent | src/storageMigration.js:54-61 | Normalising twice gives the same record as normalising once. |
| Migration.SaveFilesOnlyAppData | src/storageMigration.js:52-66 | The file loop writes only to `appData`. |
| Migration.SaveFilesUntouched | src/storageMigration.js:52-66 | A key that no remaining file's name maps to is left as it was. |
| Migration.SaveFilesSaved | src/storageMigration.js:52-66 | If the loop reaches a file and no later file has the same name, that file is stored under `file_<name>`. It is normalised with the clock readings of its own pass. |
| Migration.SaveFilesReach | src/storageMigration.js:52-66 | When no file before position `i` is null, the loop gets to position `i`. |
| Migration.SaveFilesInOrder | src/storageMigration.js:52-63 | Each saved file is stamped with the time of its own pass. With a clock that does not go back, earlier files in the legacy list get timestamps no later than later ones. |
| Migration.FilesMigratedOutcome | src/storageMigration.js:44-75 | For a legacy list without nulls, every file is saved and `filesList` holds the raw list. The cache and queue stores are untouched. |
| Migration.FilesKeepFlag | src/storageMigration.js:44-75 | Migrating files never changes the migration flag or the queue. |
| Migration.SettingsMigrated | src/storageMigration.js:77-91 | The settings step completes exactly when `sessionStorage` can be read. |
| Migration.SettingsMigratedOutcome | src/storageMigration.js:77-91 | Only `lastOpenedFile` and `pwaInstallDismissed` can change, each only when its legacy value is present. `pwaInstallDismissed` becomes `value === 'true'`. |
| Migration.SettingsKeepFlag | src/storageMigration.js:77-91 | Migrating settings never changes the migration flag or the queue. |
| Migration.EnqueueUntouched | src/storageMigration.js:101-103 | No store but the queue changes, and no queue key other than the new ids changes. |
| Migration.EnqueueEntries | src/storageMigration.js:101-103 | When the random suffixes differ, each legacy change is stored as a queue item under its own id, with the clock readings of its own pass. |
| Migration.EnqueueCount | src/storageMigration.js:101-103 | With distinct fresh ids, the queue grows by exactly one entry per legacy change. |
| Migration.EnqueueInOrder | src/storageManager.js:267-276 | With distinct suffixes and a clock that does not go back, earlier legacy changes get queue timestamps no later than later ones. Only under strictly increasing readings does the oldest-first listing keep their list order. Changes queued in the same millisecond tie, and `getOfflineQueue` then lists them in key order, which depends on the random suffix. |
| Migration.QueueMigratedAbsent | src/storageMigration.js:94-96 | Without a legacy change list, nothing is enqueued. |
| Migration.QueueOnlyQueue | src/storageMigration.js:93-111 | Migrating the queue never changes the settings. |
| Migration.MigrationFlag | src/storageMigration.js:9-42 | From an unmigrated state, the flag ends set exactly when the settings step did not throw. When it throws, the queue is untouched. The files, and `lastOpenedFile`, may already have been written. |
| Migration.MigrateTwice | src/storageMigration.js:9-16 | Once a migration has completed, running it again changes nothing, whatever the legacy data, clock or random draws. |
| Migration.LegacyLengths | src/storageMigration.js:146-151 | Counts exactly the `localStorage` keys starting with `excalidraw`, with their value lengths. |
| Migration.DataOfFileRecord | src/storageMigration.js:174 | Rollback recovers from a `saveFile` record exactly the data that was saved. |
| Migration.FileDataList | src/storageMigration.js:172-176 | The rollback list has one element per `file_` key, in key order. Each element is that record's `.data`, or null when `.data` is undefined. |
| Migration.FileDataCount | src/storageMigration.js:172-176 | The rollback list is as long as the number of `file_` keys in `appData`. |
| Migration.ExportedAppData | src/storageMigration.js:166-169 | `exportData().data.appData` is the `appData` store without a `__proto__` key. |
| Migration.ExportableFiles | src/storageMigration.js:170-176 | Dropping `__proto__` from the export loses no `file_` key, so rollback sees every file entry and the same null entries. |
| Migration.FileData | src/storageMigration.js:170-176 | The rollback loop throws exactly when some `file_` entry is null. Otherwise it returns that list. |
| Migration.StorageMigration.constructor | src/storageMigration.js:5-7 | The migration works on the given manager. |
| Migration.StorageMigration.ReadLegacy | src/storageMigration.js:45 | Reads a legacy key: its string, or nothing. |
| Migration.StorageMigration.SaveLegacyFile | src/storageMigration.js:54-63 | Saves one normalised legacy file through `saveFile`. |
| Migration.StorageMigration.SaveLegacyFiles | src/storageMigration.js:52-66 | The file loop. It stops at the first null entry and reports whether it got through the whole list. |
| Migration.StorageMigration.MigrateFiles | src/storageMigration.js:44-75 | Matches the files step function. Parse and iteration errors are caught. |
| Migration.StorageMigration.MigrateSettings | src/storageMigration.js:77-91 | Matches the settings step function, which has no catch. |
| Migration.StorageMigration.MigrateOfflineQueue | src/storageMigration.js:93-111 | Matches the queue step function. Parse and iteration errors are caught. |
| Migration.StorageMigration.CheckAndMigrate | src/storageMigration.js:9-42 | Completes exactly when the flag is readable, and then matches `Migrate`. When the flag cannot be read, or is already set, neither the stores nor `localStorage` are written. |
| Migration.StorageMigration.RemoveLegacy | src/storageMigration.js:121-123 | Removes one legacy key and leaves all four stores unchanged. |
| Migration.StorageMigration.WriteLegacy | src/storageMigration.js:178 | Writes one legacy key and leaves all four stores unchanged. |
| Migration.StorageMigration.CleanupOldData | src/storageMigration.js:113-127 | Completes exactly when the flag is readable. It removes the three legacy keys exactly when the flag is set; otherwise nothing changes. The stores never change. |
| Migration.StorageMigration.GetLegacyStorageSize | src/storageMigration.js:142-158 | Reports the count of `excalidraw` keys and their total value length. |
| Migration.StorageMigration.GetStorageStats | src/storageMigration.js:129-140 | Completes exactly when every store is readable. It then reports the manager's usage per namespace and the legacy size. |
| Migration.StorageMigration.RollbackToLocalStorage | src/storageMigration.js:161-189 | Succeeds exactly when every store is readable and no file record is null. It then writes the rebuilt list to the legacy key and clears the flag. The list follows an enumeration of the exported `appData` keys, which are the stored keys minus `__proto__`. The whole new `localStorage` is stated. On the primary backend only `excalidraw-files` changes. On the fallback, the flag's settings wrapper key changes as well. Otherwise nothing changes. |
| Migration.StorageMigration.ExportedFiles | src/storageMigration.js:166-176 | The reading half of the rollback succeeds exactly when every store is readable and no file record is null. It then returns the `.data` of every `file_` record, in key order. |
| Migration.StorageMigration.RestoreFiles | src/storageMigration.js:178-182 | Writes the legacy file list, then stores the flag as false. The whole new `localStorage` is stated: on the primary backend only `excalidraw-files` changes, and on the fallback the flag's settings wrapper key changes as well. |
| App.FindById | src/App.jsx:320 | Finds an entry exactly when some entry has that id. What it finds is the first such entry. |
| App.SaveOperationReplays | src/App.jsx:105-110 | A queued `save` of a non-null file is processed without error. |
| App.DeleteOperationReplays | src/App.jsx:111-114 | A queued `delete` is always processed without error. |
| App.OtherTypesReplay | src/App.jsx:115-117 | Any non-null operation that is not a `save` falls through without error. |
| App.MalformedOperationsFail | src/App.jsx:105-109 | A missing or null operation, or a `save` without data or with null `data`, throws. |
| App.QueueStaysSelfKeyed | src/storageManager.js:277 | Enqueuing an item, or removing one, keeps every truthy queue entry under its own `id`. |
| App.ReplayedExactly | src/App.jsx:85-94 | For a queue whose truthy entries sit under their own id, a key stays queued after the replay exactly when its entry was falsy or processing it threw. `importData` can break that premise. |
| App.PendingIsDone | src/App.jsx:85-94 | `Pending`, the queue left by removing entry by entry, is the queue without exactly the ids of the entries that were processed. |
| App.ReplayEntry | src/App.jsx:86-93 | One loop body: removes the entry's id exactly when processing does not throw. |
| App.ReplayQueue | src/App.jsx:85-94 | The replay loop leaves exactly the queue `Pending` describes. |
| App.SyncOfflineData | src/App.jsx:79-102 | When the queue is readable, visits it oldest first and removes exactly the ids of the entries processed without error. When it is not, nothing changes. |
| App.SaveWithOfflineSupport | src/App.jsx:121-146 | Saves a non-null file under its name, and enqueues a `save` only when offline. A null file throws at `fileData.name` and writes nothing. It returns true exactly when no step throws: the file is non-null and the cache write succeeded. |
| App.WithoutIdCounts | src/App.jsx:336 | `WithoutId`, the filter, keeps every entry with another id, as often as before, and none with the deleted id. |
| App.WithoutIdAppend | src/App.jsx:336 | The filter keeps the order of the list. |
| App.DeleteFile | src/App.jsx:319-350 | Does nothing unless the file is found and confirmed. If it is, deletes `file_<name>` and enqueues a `delete` only when offline. It also drops exactly the entries with that id from the list the updater is given, and clears the current file only if it was the deleted one. |
| App.RenameInList | src/App.jsx:368-373 | The list keeps its length and its ids. An entry with another id is unchanged. Each entry with the id gets the new `name` and its own clock reading as `updatedAt`, and keeps every other property. |
| App.RenameKeepsIdsDistinct | src/App.jsx:368-373 | Renaming keeps ids distinct. |
| App.RenameCurrentAgrees | src/App.jsx:375-377 | `RenameCurrent`, the renamed current file, matches its renamed list entry except for `updatedAt`. |
| App.DuplicateAppendsOne | src/App.jsx:352-364 | `DuplicateFile` appends exactly one copy. The copy has the new id, `name + " (Copy)"`, the two clock readings as `createdAt` and `updatedAt`, and the original's other properties, and no further property. With a fresh id, ids stay distinct. |
| App.DuplicateMissing | src/App.jsx:353-354 | A missing id leaves the list unchanged. |
| App.AddLoadedOnce | src/App.jsx:284-287 | `AddLoaded`, the updater of `loadFile`, appends the loaded file exactly when no entry has that id. Distinct ids stay distinct when the loaded file has no `id` or has the id that was asked for. A stored file carrying another id, which `importData` can write, may duplicate an id. |
| App.LoadStoredTwice | src/App.jsx:279-288 | A record from `getFile` has no `id`, so loading the same stored file twice appends it twice. |

## Left out

- Console logging, `logStorageInfo`, `navigator.storage.estimate`, toasts and the React state setters other than the file list are output only. They are not modelled. Failure of `logStorageInfo` is the `logOk` input.
- Storage I/O failures (quota, a broken IndexedDB) are left out: every store write succeeds. The exceptions that are modelled are:
  - `btoa` outside Latin-1;
  - a missing import payload, or a null one;
  - `JSON.parse` and `for...of` failures in migration;
  - null legacy files;
  - an unreadable `sessionStorage`;
  - the `TypeError`s of `processOfflineOperation`;
  - null `file_` records during rollback;
  - the PWA cache write, as the `cached` input.
- Concurrency is left out. This covers the constructor calling `init()` without awaiting it, the lazy `if (!this.isInitialized) await this.init()` guard, and several tabs sharing storage. Initialisation is one explicit step, and every other method requires an initialised manager.
- Clock readings are inputs, one per reading the source makes, with nothing assumed about them. The ordering lemmas `Migration.SaveFilesInOrder` and `Migration.EnqueueInOrder` add the assumption that the clock does not go back. The ISO strings of a `FileClock` are not tied to its millisecond time.
- `Records.Fresh`: `cached.expires > Date.now()` is modelled for an integer `expires`, and any other `expires` counts as stale. JavaScript would coerce a numeric string such as `"99999999999999"` and serve the entry. The only entries the code writes have integer `expires`. So `Manager.StorageManager.GetCachedResource` evicts a hand-written entry whose `expires` is a string or a boolean, where the source may serve it.
- `View()` shows a wrapper string that is not JSON text as null. No reader returns that null: reading such a key throws, and the reader reports `ok` false.
- `Manager.StorageManager.GetStorageUsage`: `sizeMB` (a floating-point `toFixed` string) is not modelled. Only `itemCount` and `sizeBytes` are. `sizeBytes`, like `Manager.StorageManager.ItemSize`, counts Dafny characters of `JSON.stringify(item)`, not JavaScript's UTF-16 code units, so a character outside the Basic Multilingual Plane counts 1 instead of 2.
- `Records.Entries`: a string is split into Dafny characters (Unicode scalar values), where JavaScript's `Object.entries` splits it into UTF-16 code units. Importing `{data: {appData: "😀"}}` therefore writes one key `"0"` in the model, where the source writes `"0"` and `"1"`, each holding a lone surrogate. `Records.Import`, `Records.ImportIntoOutcome` and `Manager.StorageManager.ImportData` inherit this.
- `Migration.StorageMigration.GetLegacyStorageSize`: `sizeMB` is not modelled. Lengths count Dafny characters, not JavaScript's UTF-16 code units, so a character outside the Basic Multilingual Plane counts 1 instead of 2. The same holds for the `size` of a file record.
- `Sorting.Sort`: the comparator `b.timestamp - a.timestamp` is modelled for integer timestamps. A non-numeric timestamp ranks as 0. The order among equal timestamps is not stated. The source's sort is stable and keeps the driver's `keys()` order, but the model does not fix that enumeration, so `Manager.StorageManager.Listing`, `GetAllFiles`, `GetAllDrawings` and `GetOfflineQueue` leave ties in any order.
- JSON numbers are integers, and objects never hold `undefined`-valued properties: JSON drops those, so an undefined property is simply absent. Floating-point values are not modelled.
- `===` between objects (`f.id === fileId`) is modelled as value equality. The ids the app generates are strings, for which the two agree.
- A null entry in the React file list is not modelled. `files.find(f => f.id === …)` would throw on it.
- `localforage` drivers are abstract maps. The primary stores are modelled as four `map` fields, and the driver choice is not modelled.
- `Manager.StorageManager.WriteKeys` is a recursive method over the key enumeration, not a `while` loop. It performs the same writes in the same order as the source's `for...of`.
- `App.ProcessOfflineOperation` is a pure function with no contract of its own. Its behaviour is stated by `App.SaveOperationReplays`, `App.DeleteOperationReplays`, `App.OtherTypesReplay` and `App.MalformedOperationsFail`.
- The rest of `src/App.jsx` (rendering, export to images, keyboard handling, auto-save timers, install prompts) is not modelled. Neither are `src/pwa.js`, `src/main.jsx` and `src/components/StorageInfo.jsx`.
- The migration marks itself complete only when `migrateSettings` returned normally. A failure in the files or queue step is caught inside that step, so the flag is still set after it, and the files or changes after the failure are never copied. When `migrateSettings` throws, the queue step never runs and the flag stays unset.
