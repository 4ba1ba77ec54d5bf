/** The processed-files ledger as `FitFileManager` and the application's
    "mark as new" and "clear" actions use it. The ledger maps the key
    `<name>_<size>` to an entry; an entry written by the current code is a
    JSON object whose `hash` field holds the file's truncated content hash,
    while entries of the older format are plain values. */
module FileManager {
  import opened Common
  import opened Settings

  /** A scanned FIT file (`FileInfo`) reduced to what the ledger uses. The hash
      is the truncated SHA-256 text, or "" when it could not be computed. */
  datatype FileInfo = FileInfo(name: string, path: string, sizeBytes: nat, fileHash: string)

  /** `f"{name}_{size_bytes}"`. */
  function FileKey(info: FileInfo): string
  {
    info.name + "_" + NatToString(info.sizeBytes)
  }

  /** `isinstance(data, dict) and data.get('hash') == h`. */
  predicate HashIs(data: Json, h: string)
  {
    data.JObject? && "hash" in data.fields && data.fields["hash"] == JStr(h)
  }

  /** `is_file_processed`: a match on the hash of any entry first (only for a
      non-empty hash), then the `<name>_<size>` key. */
  predicate IsFileProcessed(entries: map<string, Json>, info: FileInfo)
  {
    (info.fileHash != "" && exists k | k in entries :: HashIs(entries[k], info.fileHash))
    || FileKey(info) in entries
  }

  /** The entry `mark_file_processed` writes, `timestamp` being `now()` in ISO form. */
  function ProcessedEntry(info: FileInfo, timestamp: string): (e: Json)
    ensures HashIs(e, info.fileHash)
  {
    JObject(map[
      "timestamp" := JStr(timestamp),
      "hash" := JStr(info.fileHash),
      "size" := JInt(info.sizeBytes),
      "path" := JStr(info.path)])
  }

  /** Once a file is marked, the lookup finds it, whatever hash it has. */
  lemma MarkedIsProcessed(entries: map<string, Json>, info: FileInfo, timestamp: string)
    ensures IsFileProcessed(entries[FileKey(info) := ProcessedEntry(info, timestamp)], info)
  {
  }

  /** Fingerprint precedence: a file whose content was recorded under another
      name (or another size) is still found, as long as its hash is non-empty. */
  lemma {:induction false} RenamedFileIsProcessed(entries: map<string, Json>, recorded: FileInfo, renamed: FileInfo, timestamp: string)
    requires recorded.fileHash != "" && renamed.fileHash == recorded.fileHash
    ensures IsFileProcessed(entries[FileKey(recorded) := ProcessedEntry(recorded, timestamp)], renamed)
  {
    var e := entries[FileKey(recorded) := ProcessedEntry(recorded, timestamp)];
    assert HashIs(e[FileKey(recorded)], renamed.fileHash);
  }

  /** An empty hash never matches by hash: only the key decides. */
  lemma EmptyHashMatchesByKeyOnly(entries: map<string, Json>, info: FileInfo)
    requires info.fileHash == ""
    ensures IsFileProcessed(entries, info) <==> FileKey(info) in entries
  {
  }

  /** Without a matching hash, the lookup is exactly key membership. */
  lemma {:induction false} NoHashMatchMeansKeyLookup(entries: map<string, Json>, info: FileInfo)
    requires forall k | k in entries :: !HashIs(entries[k], info.fileHash)
    ensures IsFileProcessed(entries, info) <==> FileKey(info) in entries
  {
  }

  /** Marking the same file twice leaves the ledger as marking it once. */
  lemma MarkIdempotent(entries: map<string, Json>, info: FileInfo, timestamp: string)
    ensures var once := entries[FileKey(info) := ProcessedEntry(info, timestamp)];
      once[FileKey(info) := ProcessedEntry(info, timestamp)] == once
  {
  }

  /** `mark_file_processed` as written: the dictionary returned by `get` is the
      store's own, the entry is written into it in place, and the following
      `set` compares the dictionary with itself. The ledger changes, but the
      store stays as clean as it was and no save is scheduled. */
  method MarkFileProcessedInPlace(store: ConfigStore, info: FileInfo, timestamp: string)
    requires store.Valid()
    modifies store, store.ledger
    ensures store.Valid() && store.ledger == old(store.ledger)
    ensures store.ledger.entries == old(store.ledger.entries)[FileKey(info) := ProcessedEntry(info, timestamp)]
    ensures store.values == old(store.values) && store.disk == old(store.disk)
    ensures store.dirty == old(store.dirty) && store.autoSavePending == old(store.autoSavePending)
  {
    var processedInfo := store.ledger;
    processedInfo.entries := processedInfo.entries[FileKey(info) := ProcessedEntry(info, timestamp)];
    store.SetLedger(processedInfo);
  }

  /** A file uploaded in a fresh session is recorded in memory, yet neither the
      automatic save nor a plain `save()` writes it to the settings file. */
  method LedgerUpdateNotPersisted() returns (inMemory: bool, persisted: SettingsFile)
    ensures inMemory
    ensures persisted == Missing
  {
    DefaultConfigConforms();
    var store := new ConfigStore(DefaultConfig(), Missing);
    var info := FileInfo("MyNewActivity-7.fit", "/data/MyNewActivity-7.fit", 1024, "0123456789abcdef");
    MarkFileProcessedInPlace(store, info, "2024-01-01T10:00:00");
    inMemory := IsFileProcessed(store.ledger.entries, info);
    store.AutoSaveFires(true);
    store.Save(false, true);
    persisted := store.disk;
  }

  /** `mark_file_processed` with the ledger handed back as a new dictionary, so
      that `set` sees the change: the entry is recorded, and whenever that
      changes the ledger the store turns dirty and schedules a save. */
  method MarkFileProcessed(store: ConfigStore, info: FileInfo, timestamp: string)
    requires store.Valid()
    modifies store
    ensures store.Valid() && store.values == old(store.values) && store.disk == old(store.disk)
    ensures store.ledger.entries == old(store.ledger.entries)[FileKey(info) := ProcessedEntry(info, timestamp)]
    ensures IsFileProcessed(store.ledger.entries, info)
    ensures store.ledger.entries != old(store.ledger.entries) ==> store.dirty && store.autoSavePending
    ensures store.ledger.entries == old(store.ledger.entries) ==>
              store.dirty == old(store.dirty) && store.autoSavePending == old(store.autoSavePending)
  {
    var updated := new Ledger(store.ledger.entries[FileKey(info) := ProcessedEntry(info, timestamp)]);
    store.SetLedger(updated);
  }

  /** With the copy, a file not yet in the ledger reaches the settings file
      at the next automatic save, when the write succeeds. */
  method MarkThenAutoSave(store: ConfigStore, info: FileInfo, timestamp: string)
    returns (persisted: SettingsFile)
    requires store.Valid() && FileKey(info) !in store.ledger.entries
    modifies store
    ensures persisted == store.disk && persisted.Document? && ProcessedFiles in persisted.fields
    ensures persisted.fields[ProcessedFiles] == JObject(store.ledger.entries)
    ensures FileKey(info) in store.ledger.entries
  {
    MarkFileProcessed(store, info, timestamp);
    store.AutoSaveFires(true);
    persisted := store.disk;
  }

  /** The same session as `LedgerUpdateNotPersisted`, with the copy: it ends
      with the entry in the settings file. */
  method LedgerUpdatePersisted() returns (persisted: SettingsFile)
    ensures persisted.Document? && ProcessedFiles in persisted.fields
    ensures var ledger := persisted.fields[ProcessedFiles];
      ledger.JObject? && "MyNewActivity-7.fit_1024" in ledger.fields
  {
    DefaultConfigConforms();
    var store := new ConfigStore(DefaultConfig(), Missing);
    assert store.Config() == DefaultConfig();
    var info := FileInfo("MyNewActivity-7.fit", "/data/MyNewActivity-7.fit", 1024, "0123456789abcdef");
    persisted := MarkThenAutoSave(store, info, "2024-01-01T10:00:00");
    assert FileKey(info) == "MyNewActivity-7.fit_1024";
  }

  // ---------------------------------------------------------------------------
  // "Mark as new" and "clear"
  // ---------------------------------------------------------------------------

  /** The removal test of `mark_as_new` for one ledger entry: an object entry
      goes when its hash equals the file's non-empty hash or its key contains
      the file name; an entry of the old format goes when its key contains the
      file name. */
  predicate RemovedByMarkAsNew(key: string, data: Json, filename: string, fileHash: string)
  {
    if data.JObject? then (HashIs(data, fileHash) && fileHash != "") || Contains(key, filename)
    else Contains(key, filename)
  }

  /** The first scanned file with the given name (`next(...)` over `file_infos`). */
  function FirstNamed(infos: seq<FileInfo>, filename: string): (r: Option<FileInfo>)
    ensures r.Some? ==> r.value in infos && r.value.name == filename
    ensures r.None? ==> forall i :: 0 <= i < |infos| ==> infos[i].name != filename
  {
    if infos == [] then None
    else if infos[0].name == filename then Some(infos[0])
    else FirstNamed(infos[1..], filename)
  }

  /** The loop of `mark_as_new` that collects `keys_to_remove`. */
  method KeysToRemove(entries: map<string, Json>, filename: string, fileHash: string) returns (keys: set<string>)
    ensures keys <= entries.Keys
    ensures forall k :: k in entries ==> (k in keys <==> RemovedByMarkAsNew(k, entries[k], filename, fileHash))
  {
    keys := {};
    var todo := entries.Keys;
    while todo != {}
      invariant todo <= entries.Keys
      invariant keys <= entries.Keys - todo
      invariant forall k :: k in entries && k !in todo ==>
                  (k in keys <==> RemovedByMarkAsNew(k, entries[k], filename, fileHash))
      decreases |todo|
    {
      var key :| key in todo;
      if RemovedByMarkAsNew(key, entries[key], filename, fileHash) {
        keys := keys + {key};
      }
      todo := todo - {key};
    }
  }

  /** The loop of `processed_files.pop(key, None)` over the collected keys. */
  method PopKeys(ledger: Ledger, keys: set<string>)
    modifies ledger
    ensures ledger.entries == old(ledger.entries) - keys
  {
    var todo := keys;
    while todo != {}
      invariant todo <= keys
      invariant ledger.entries == old(ledger.entries) - (keys - todo)
      decreases |todo|
    {
      var key :| key in todo;
      ledger.entries := ledger.entries - {key};
      todo := todo - {key};
    }
  }

  /** `mark_as_new` as written: when a scanned file of that name exists, every
      entry its hash or name selects is popped from the live ledger in place;
      the closing `set` sees no change, so the store is not made dirty. */
  method MarkAsNewInPlace(store: ConfigStore, filename: string, infos: seq<FileInfo>)
    requires store.Valid()
    modifies store, store.ledger
    ensures store.Valid() && store.ledger == old(store.ledger)
    ensures store.values == old(store.values) && store.disk == old(store.disk)
    ensures store.dirty == old(store.dirty) && store.autoSavePending == old(store.autoSavePending)
    ensures FirstNamed(infos, filename).None? ==> store.ledger.entries == old(store.ledger.entries)
    ensures FirstNamed(infos, filename).Some? ==>
      var h := FirstNamed(infos, filename).value.fileHash;
      forall k :: (k in store.ledger.entries <==>
        k in old(store.ledger.entries) && !RemovedByMarkAsNew(k, old(store.ledger.entries)[k], filename, h))
    ensures forall k :: k in store.ledger.entries ==>
              k in old(store.ledger.entries) && store.ledger.entries[k] == old(store.ledger.entries)[k]
  {
    var info := FirstNamed(infos, filename);
    if info.None? {
      return;
    }
    var processedFiles := store.ledger;
    var keys := KeysToRemove(processedFiles.entries, filename, info.value.fileHash);
    PopKeys(processedFiles, keys);
    store.SetLedger(processedFiles);
  }

  /** `mark_as_new` with the ledger handed back as a new dictionary: the same
      entries go, everything else stays with its value, and the store turns
      dirty whenever something was removed. */
  method MarkAsNew(store: ConfigStore, filename: string, infos: seq<FileInfo>)
    requires store.Valid()
    modifies store
    ensures store.Valid() && store.values == old(store.values) && store.disk == old(store.disk)
    ensures FirstNamed(infos, filename).None? ==> store.ledger.entries == old(store.ledger.entries)
    ensures FirstNamed(infos, filename).Some? ==>
      var h := FirstNamed(infos, filename).value.fileHash;
      forall k :: (k in store.ledger.entries <==>
        k in old(store.ledger.entries) && !RemovedByMarkAsNew(k, old(store.ledger.entries)[k], filename, h))
    ensures forall k :: k in store.ledger.entries ==>
              k in old(store.ledger.entries) && store.ledger.entries[k] == old(store.ledger.entries)[k]
    ensures store.ledger.entries != old(store.ledger.entries) ==> store.dirty && store.autoSavePending
  {
    var info := FirstNamed(infos, filename);
    if info.None? {
      return;
    }
    var keys := KeysToRemove(store.ledger.entries, filename, info.value.fileHash);
    var copy := new Ledger(store.ledger.entries);
    PopKeys(copy, keys);
    store.SetLedger(copy);
  }

  /** After "mark as new", the file is no longer found by its hash, and it is not
      found by its key either when its key contains its own name (which
      `<name>_<size>` always does). */
  lemma {:induction false} MarkedAsNewIsNotProcessed(entries: map<string, Json>, info: FileInfo)
    ensures var kept := map k | k in entries && !RemovedByMarkAsNew(k, entries[k], info.name, info.fileHash) :: entries[k];
      !IsFileProcessed(kept, info)
  {
    var kept := map k | k in entries && !RemovedByMarkAsNew(k, entries[k], info.name, info.fileHash) :: entries[k];
    var key := FileKey(info);
    assert key[..|info.name|] == info.name;
    OccursContains(key, info.name, 0);
    assert key !in kept;
  }

  /** `cleanup_processed_files`: `set('processed_files', {})` replaces the
      ledger by a new empty dictionary; the store turns dirty unless the
      ledger was already empty. */
  method CleanupProcessedFiles(store: ConfigStore)
    requires store.Valid()
    modifies store
    ensures store.Valid() && store.values == old(store.values) && store.disk == old(store.disk)
    ensures store.ledger.entries == map[]
    ensures old(store.ledger.entries) != map[] ==> store.dirty && store.autoSavePending
    ensures old(store.ledger.entries) == map[] ==>
              store.dirty == old(store.dirty) && store.autoSavePending == old(store.autoSavePending)
  {
    var empty := new Ledger(map[]);
    store.SetLedger(empty);
  }
}
