/** The settings store (`ConfigManager`): a validated key/value document, a
    dirty flag that decides whether `save` writes anything, and the
    processed-files ledger, which the store hands out as a live object that
    callers mutate in place. */
module Settings {
  import opened Common

  /** The `processed_files` dictionary. It is an object because `get` returns
      the very dictionary the store holds, and callers change it in place. */
  class Ledger {
    var entries: map<string, Json>

    constructor (entries: map<string, Json>)
      ensures this.entries == entries
    {
      this.entries := entries;
    }
  }

  /** What the settings file on disk holds: nothing, text that `json.load`
      rejects, or a decoded document. */
  datatype SettingsFile = Missing | Corrupt | Document(fields: map<string, Json>)

  const ProcessedFiles: string := "processed_files"

  /** Keys whose change schedules the debounced automatic save. */
  const AutoSaveKeys: set<string> := {"username", "backup_path", "processed_files"}

  /** The default configuration, which is also the schema the loaded file is
      checked against. */
  function DefaultConfig(): map<string, Json>
  {
    map[
      "username" := JStr(""),
      "backup_path" := JStr(""),
      "processed_files" := JObject(map[]),
      "auto_select_new" := JBool(true),
      "max_concurrent_uploads" := JInt(2),
      "auto_save_interval" := JInt(30),
      "ui_theme" := JStr("default"),
      "log_level" := JStr("INFO")
    ]
  }

  /** `isinstance(value, type(default))`. A Python `bool` is an `int`, so a
      boolean passes for an integer default; an integer does not pass for a
      float default, nor a float for an integer one. */
  predicate IsInstance(value: Json, default: Json)
  {
    match default
    case JNull => value.JNull?
    case JBool(_) => value.JBool?
    case JInt(_) => value.JInt? || value.JBool?
    case JFloat(_) => value.JFloat?
    case JStr(_) => value.JStr?
    case JArray(_) => value.JArray?
    case JObject(_) => value.JObject?
  }

  /** Every key of the schema is present and holds a value of the schema's type. */
  ghost predicate Conforms(config: map<string, Json>, schema: map<string, Json>)
  {
    config.Keys == schema.Keys &&
    forall k :: k in config ==> IsInstance(config[k], schema[k])
  }

  /** `_validate_config` against a given schema: start from the defaults and
      take each loaded value whose type matches the default's. */
  function ValidateAgainst(schema: map<string, Json>, loaded: map<string, Json>): (r: map<string, Json>)
    requires forall k :: k in schema ==> IsInstance(schema[k], schema[k])
    ensures Conforms(r, schema)
    ensures forall k :: k in r ==> r[k] == schema[k] || (k in loaded && r[k] == loaded[k])
  {
    map k | k in schema :: if k in loaded && IsInstance(loaded[k], schema[k]) then loaded[k] else schema[k]
  }

  lemma DefaultConfigConforms()
    ensures forall k :: k in DefaultConfig() ==> IsInstance(DefaultConfig()[k], DefaultConfig()[k])
    ensures ProcessedFiles in DefaultConfig() && DefaultConfig()[ProcessedFiles] == JObject(map[])
  {
  }

  function ValidateConfig(loaded: map<string, Json>): (r: map<string, Json>)
    ensures Conforms(r, DefaultConfig())
    ensures ProcessedFiles in r && r[ProcessedFiles].JObject?
  {
    DefaultConfigConforms();
    ValidateAgainst(DefaultConfig(), loaded)
  }

  /** A loaded value survives validation exactly when its key is in the schema
      and its type matches; every other key of the result holds the default,
      and keys outside the schema are dropped. */
  lemma {:induction false} ValidateKeepsExactlyMatching(schema: map<string, Json>, loaded: map<string, Json>, k: string)
    requires forall k :: k in schema ==> IsInstance(schema[k], schema[k])
    ensures k in ValidateAgainst(schema, loaded) <==> k in schema
    ensures k in schema && k in loaded && IsInstance(loaded[k], schema[k]) ==>
              ValidateAgainst(schema, loaded)[k] == loaded[k]
    ensures k in schema && !(k in loaded && IsInstance(loaded[k], schema[k])) ==>
              ValidateAgainst(schema, loaded)[k] == schema[k]
  {
  }

  /** Validation is idempotent, and a document that already conforms to the
      schema comes back unchanged: saving a validated configuration and
      loading it again reproduces it. */
  lemma {:induction false} ValidateRoundTrip(schema: map<string, Json>, config: map<string, Json>)
    requires forall k :: k in schema ==> IsInstance(schema[k], schema[k])
    requires Conforms(config, schema)
    ensures ValidateAgainst(schema, config) == config
  {
    var r := ValidateAgainst(schema, config);
    assert r.Keys == config.Keys;
    forall k | k in r ensures r[k] == config[k] {
      assert IsInstance(config[k], schema[k]);
    }
  }

  lemma ValidateIdempotent(schema: map<string, Json>, loaded: map<string, Json>)
    requires forall k :: k in schema ==> IsInstance(schema[k], schema[k])
    ensures ValidateAgainst(schema, ValidateAgainst(schema, loaded)) == ValidateAgainst(schema, loaded)
  {
    ValidateRoundTrip(schema, ValidateAgainst(schema, loaded));
  }

  /** A boolean is accepted for an integer setting, a float is not. */
  lemma BoolPassesForIntSetting()
    ensures ValidateConfig(map["max_concurrent_uploads" := JBool(false)])["max_concurrent_uploads"] == JBool(false)
    ensures ValidateConfig(map["auto_save_interval" := JFloat(7.5)])["auto_save_interval"] == JInt(30)
  {
    var r := ValidateConfig(map["max_concurrent_uploads" := JBool(false)]);
    ValidateKeepsExactlyMatching(DefaultConfig(), map["max_concurrent_uploads" := JBool(false)], "max_concurrent_uploads");
    ValidateKeepsExactlyMatching(DefaultConfig(), map["auto_save_interval" := JFloat(7.5)], "auto_save_interval");
  }

  /** What `load` puts in `_config` for a given state of the settings file. */
  function LoadedConfig(schema: map<string, Json>, disk: SettingsFile): (r: map<string, Json>)
    requires forall k :: k in schema ==> IsInstance(schema[k], schema[k])
    ensures Conforms(r, schema)
  {
    match disk
    case Document(fields) => ValidateAgainst(schema, fields)
    case _ => schema
  }

  /** The number a value stands for in a Python comparison, if it is one. */
  function NumericValue(v: Json): Option<real>
  {
    match v
    case JBool(b) => Some(if b then 1.0 else 0.0)
    case JInt(i) => Some(i as real)
    case JFloat(x) => Some(x)
    case _ => None
  }

  /** Python `==` between two loaded values: numbers compare by value across
      `bool`, `int` and `float`; everything else structurally. */
  predicate PyEq(a: Json, b: Json)
  {
    if NumericValue(a).Some? && NumericValue(b).Some? then NumericValue(a) == NumericValue(b) else a == b
  }

  class ConfigStore {
    /** The schema `load` validates against (the default configuration). */
    const schema: map<string, Json>
    /** Every entry of `_config` except `processed_files`. */
    var values: map<string, Json>
    /** `_config["processed_files"]`, the live ledger object. */
    var ledger: Ledger
    /** `_dirty`. */
    var dirty: bool
    /** A debounced automatic save has been scheduled and has not fired yet. */
    var autoSavePending: bool
    /** The settings file. */
    var disk: SettingsFile

    ghost predicate Valid()
      reads this
    {
      ProcessedFiles !in values &&
      ProcessedFiles in schema && schema[ProcessedFiles].JObject? &&
      forall k :: k in schema ==> IsInstance(schema[k], schema[k])
    }

    /** `_config` as a value. */
    function Config(): (c: map<string, Json>)
      reads this, ledger
      ensures ProcessedFiles in c && c[ProcessedFiles] == JObject(ledger.entries)
      ensures forall k :: k in values ==> k in c
    {
      values[ProcessedFiles := JObject(ledger.entries)]
    }

    /** `ConfigManager()` followed by its `load()`. */
    constructor (schema: map<string, Json>, disk: SettingsFile)
      requires ProcessedFiles in schema && schema[ProcessedFiles].JObject?
      requires forall k :: k in schema ==> IsInstance(schema[k], schema[k])
      ensures Valid() && fresh(ledger)
      ensures this.schema == schema && this.disk == disk
      ensures Config() == LoadedConfig(schema, disk)
      ensures !dirty && !autoSavePending
    {
      var loaded := LoadedConfig(schema, disk);
      this.schema := schema;
      values := loaded - {ProcessedFiles};
      ledger := new Ledger(loaded[ProcessedFiles].fields);
      dirty := false;
      autoSavePending := false;
      this.disk := disk;
      new;
      assert Config() == loaded;
    }

    /** `load()`: re-read the settings file; the dirty flag is left alone. */
    method Load()
      requires Valid()
      modifies this
      ensures Valid() && fresh(ledger)
      ensures Config() == LoadedConfig(schema, disk)
      ensures disk == old(disk) && dirty == old(dirty) && autoSavePending == old(autoSavePending)
    {
      var loaded := LoadedConfig(schema, disk);
      values := loaded - {ProcessedFiles};
      ledger := new Ledger(loaded[ProcessedFiles].fields);
      assert Config() == loaded;
    }

    /** `get(key, default)`; for `processed_files` this is the live ledger's content. */
    function Get(key: string, default: Json): (r: Json)
      reads this, ledger
      ensures key in Config() ==> r == Config()[key]
      ensures key !in Config() ==> r == default
    {
      if key == ProcessedFiles then JObject(ledger.entries)
      else if key in values then values[key]
      else default
    }

    /** `set(key, value)` for every key but the ledger: nothing happens when
        the value equals the current one (a missing key reads as `None`);
        otherwise the value is stored, the store turns dirty, and a change to
        an auto-save key schedules a save. */
    method Set(key: string, value: Json)
      requires Valid() && key != ProcessedFiles
      modifies this
      ensures Valid() && ledger == old(ledger) && disk == old(disk)
      ensures var current := if key in old(values) then old(values)[key] else JNull;
        if PyEq(current, value) then
          values == old(values) && dirty == old(dirty) && autoSavePending == old(autoSavePending)
        else
          values == old(values)[key := value] && dirty &&
          autoSavePending == (old(autoSavePending) || key in AutoSaveKeys)
    {
      var current := if key in values then values[key] else JNull;
      if !PyEq(current, value) {
        values := values[key := value];
        dirty := true;
        if key in AutoSaveKeys {
          autoSavePending := true;
        }
      }
    }

    /** `set("processed_files", d)`. Dictionaries compare by content, so when
        `d` is the ledger the store already holds (possibly just mutated in
        place) nothing changes: the store stays clean and no save is scheduled. */
    method SetLedger(d: Ledger)
      requires Valid()
      modifies this
      ensures Valid() && values == old(values) && disk == old(disk)
      ensures if d.entries == old(ledger.entries) then
          ledger == old(ledger) && dirty == old(dirty) && autoSavePending == old(autoSavePending)
        else
          ledger == d && dirty && autoSavePending
    {
      if ledger.entries != d.entries {
        ledger := d;
        dirty := true;
        autoSavePending := true;
      }
    }

    /** `save(force)`: writes the whole configuration when dirty or forced;
        `writeSucceeds` is whether the temporary-file write and rename went
        through. A failed write leaves the old file and the dirty flag. */
    method Save(force: bool, writeSucceeds: bool)
      requires Valid()
      modifies this
      ensures Valid() && values == old(values) && ledger == old(ledger)
      ensures autoSavePending == old(autoSavePending)
      ensures if (old(dirty) || force) && writeSucceeds then
          disk == Document(Config()) && !dirty
        else
          disk == old(disk) && dirty == old(dirty)
    {
      if !dirty && !force {
        return;
      }
      if writeSucceeds {
        disk := Document(Config());
        dirty := false;
      }
    }

    /** The debounced timer firing: a plain `save()`. */
    method AutoSaveFires(writeSucceeds: bool)
      requires Valid()
      modifies this
      ensures Valid() && values == old(values) && ledger == old(ledger) && !autoSavePending
      ensures if old(autoSavePending) && old(dirty) && writeSucceeds then
          disk == Document(Config()) && !dirty
        else
          disk == old(disk) && dirty == old(dirty)
    {
      if autoSavePending {
        autoSavePending := false;
        Save(false, writeSucceeds);
      }
    }
  }

  /** Saving a store whose configuration conforms to its schema and loading the
      file again gives the same configuration back. */
  lemma SaveLoadRoundTrip(schema: map<string, Json>, config: map<string, Json>)
    requires forall k :: k in schema ==> IsInstance(schema[k], schema[k])
    requires Conforms(config, schema)
    ensures LoadedConfig(schema, Document(config)) == config
  {
    ValidateRoundTrip(schema, config);
  }

  // ---------------------------------------------------------------------------
  // Preferences the application stores but the schema does not list
  // ---------------------------------------------------------------------------

  /** The default configuration extended with the two preferences the
      application writes with `set` and reads back at start-up: the remembered
      e-mail address and the interface language. */
  function PreferencesSchema(): (r: map<string, Json>)
    ensures DefaultConfig().Keys <= r.Keys
  {
    DefaultConfig()["email" := JStr("")]["language" := JStr("en")]
  }

  /** With the schema as written, a language preference in the settings file is
      always dropped when the file is loaded. */
  lemma {:induction false} DefaultSchemaDropsLanguage(fields: map<string, Json>)
    ensures "language" !in LoadedConfig(DefaultConfig(), Document(fields))
  {
    DefaultConfigConforms();
    ValidateKeepsExactlyMatching(DefaultConfig(), fields, "language");
  }

  /** The language chosen in one session is gone after a restart: it is set,
      force-saved, and the next store loaded from the same file answers with
      the default. */
  method RestartForgetsLanguage() returns (before: Json, after: Json)
    ensures before == JStr("nl")
    ensures after == JStr("en")
  {
    DefaultConfigConforms();
    var store := new ConfigStore(DefaultConfig(), Missing);
    store.Set("language", JStr("nl"));
    before := store.Get("language", JStr("en"));
    store.Save(true, true);
    DefaultSchemaDropsLanguage(store.disk.fields);
    var restarted := new ConfigStore(DefaultConfig(), store.disk);
    after := restarted.Get("language", JStr("en"));
  }

  /** With the preferences in the schema, a saved configuration that conforms
      to it, whatever e-mail and language it holds, is loaded back unchanged. */
  lemma {:induction false} PreferencesSurviveRestart(config: map<string, Json>)
    requires Conforms(config, PreferencesSchema())
    ensures LoadedConfig(PreferencesSchema(), Document(config)) == config
    ensures config["language"].JStr? && config["email"].JStr?
  {
    SaveLoadRoundTrip(PreferencesSchema(), config);
  }

  /** A string setting the schema lists, set and force-saved in one session,
      is read back by the next session loaded from the same file. */
  method SetSaveRestart(schema: map<string, Json>, key: string, value: string) returns (before: Json, after: Json)
    requires ProcessedFiles in schema && schema[ProcessedFiles].JObject?
    requires forall k :: k in schema ==> IsInstance(schema[k], schema[k])
    requires key in schema && key != ProcessedFiles && schema[key].JStr?
    ensures before == JStr(value) && after == JStr(value)
  {
    var store := new ConfigStore(schema, Missing);
    store.Set(key, JStr(value));
    before := store.Get(key, schema[key]);
    store.Save(true, true);
    assert store.Config() == schema[key := JStr(value)];
    SaveLoadRoundTrip(schema, store.Config());
    var restarted := new ConfigStore(schema, store.disk);
    after := restarted.Get(key, schema[key]);
  }

  /** The same session as `RestartForgetsLanguage`, against the extended schema. */
  method RestartKeepsLanguage() returns (before: Json, after: Json)
    ensures before == JStr("nl")
    ensures after == JStr("nl")
  {
    DefaultConfigConforms();
    var schema := PreferencesSchema();
    assert forall k :: k in schema ==> IsInstance(schema[k], schema[k]);
    before, after := SetSaveRestart(schema, "language", "nl");
  }
}
