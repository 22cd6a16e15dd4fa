/** The settings store of sipg/config.py.
  *
  * `Config` keeps the settings dictionary `_config` in memory and writes it through to a
  * JSON file after every change. The file is modelled by a `ConfigFile` object whose
  * `disk` field says what a later `json.load` would find there; two `Config` objects built
  * over the same file share it, as two instances over one path do in the source. */
module Configuration {

  /** The JSON scalars a setting can hold; `Null` is also Python's None. */
  datatype Value = Null | Bool(b: bool) | Int(i: int) | Str(s: string)

  /** Python truthiness of a setting value (`if not api_key:`). */
  predicate Truthy(v: Value) {
    match v
    case Null => false
    case Bool(b) => b
    case Int(i) => i != 0
    case Str(s) => s != ""
  }

  const ApiKeyName: string := "api_key"

  /** What the configuration file holds: nothing, something that cannot be opened or is not
    * valid JSON, or a JSON object. */
  datatype Disk = Missing | Corrupt | Stored(contents: map<string, Value>)

  /** `_load_config`: a missing file, one that cannot be opened, or one that is not valid JSON
    * loads as the empty dictionary. */
  function Loaded(d: Disk): (m: map<string, Value>)
    ensures d.Stored? ==> m == d.contents
    ensures !d.Stored? ==> m == map[]
  {
    if d.Stored? then d.contents else map[]
  }

  /** The value `get_api_key` returns for a settings dictionary. */
  function ApiKeyOf(m: map<string, Value>): (v: Value)
    ensures v != Null <==> ApiKeyName in m && m[ApiKeyName] != Null
    ensures ApiKeyName in m ==> v == m[ApiKeyName]
  {
    if ApiKeyName in m then m[ApiKeyName] else Null
  }

  class ConfigFile {
    var disk: Disk

    constructor (disk: Disk)
      ensures this.disk == disk
    {
      this.disk := disk;
    }
  }

  class Config {
    const file: ConfigFile
    var settings: map<string, Value>

    /** The in-memory settings are what a fresh load of the file would give. */
    ghost predicate Synced()
      reads this, file
    {
      Loaded(file.disk) == settings
    }

    /** `Config(config_file)`: load the settings from the file. */
    constructor (file: ConfigFile)
      ensures this.file == file && file.disk == old(file.disk)
      ensures settings == Loaded(file.disk) && Synced()
    {
      this.file := file;
      new;
      LoadConfig();
    }

    /** `_load_config`. */
    method LoadConfig()
      modifies this
      ensures settings == Loaded(file.disk) && Synced()
    {
      if file.disk.Stored? {
        settings := file.disk.contents;
      } else {
        settings := map[];
      }
    }

    /** `_save_config`: the file now holds exactly the in-memory settings. */
    method SaveConfig()
      modifies file
      ensures file.disk == Stored(settings) && Synced()
    {
      file.disk := Stored(settings);
    }

    /** `get_api_key`: the stored key, or None when there is none. */
    function GetApiKey(): (v: Value)
      reads this
      ensures v == ApiKeyOf(settings)
    {
      if ApiKeyName in settings then settings[ApiKeyName] else Null
    }

    /** `set_api_key`. */
    method SetApiKey(apiKey: string)
      modifies this, file
      ensures settings == old(settings)[ApiKeyName := Str(apiKey)]
      ensures GetApiKey() == Str(apiKey)
      ensures file.disk == Stored(settings) && Synced()
    {
      settings := settings[ApiKeyName := Str(apiKey)];
      SaveConfig();
    }

    /** `get_setting(key, default)`: the stored value, even a stored None, else the default. */
    function GetSetting(key: string, default: Value): (v: Value)
      reads this
      ensures key in settings ==> v == settings[key]
      ensures key !in settings ==> v == default
    {
      if key in settings then settings[key] else default
    }

    /** `set_setting`. */
    method SetSetting(key: string, value: Value)
      modifies this, file
      ensures settings == old(settings)[key := value]
      ensures GetSetting(key, Null) == value
      ensures forall k :: k != key ==> GetSetting(k, Null) == old(GetSetting(k, Null))
      ensures file.disk == Stored(settings) && Synced()
    {
      settings := settings[key := value];
      SaveConfig();
    }

    /** `get_all_settings`: a copy. Maps are values here, so a caller changing its copy
      * cannot reach `settings`. */
    function GetAllSettings(): (m: map<string, Value>)
      reads this
      ensures m == settings
    {
      settings
    }

    /** `clear_api_key`: drop the key and save; with no key stored, neither changes nor saves. */
    method ClearApiKey()
      modifies this, file
      ensures settings == old(settings) - {ApiKeyName}
      ensures GetApiKey() == Null
      ensures forall k :: k != ApiKeyName ==> GetSetting(k, Null) == old(GetSetting(k, Null))
      ensures ApiKeyName in old(settings) ==> file.disk == Stored(settings) && Synced()
      ensures ApiKeyName !in old(settings) ==> file.disk == old(file.disk) && settings == old(settings)
    {
      if ApiKeyName in settings {
        settings := settings - {ApiKeyName};
        SaveConfig();
      }
    }

    /** `is_configured`: an API key is stored and it is not None. */
    predicate IsConfigured()
      reads this
      ensures IsConfigured() <==> GetApiKey() != Null
    {
      GetApiKey() != Null
    }
  }

  /** A second `Config` over the same file, built after the first has saved, sees the same
    * settings and the same API key. */
  method Reload(c: Config) returns (c2: Config)
    requires c.Synced()
    ensures fresh(c2) && c2.file == c.file
    ensures c2.settings == c.settings && c2.GetApiKey() == c.GetApiKey()
  {
    c2 := new Config(c.file);
  }

  /** The life cycle the tests walk through: set a key and a setting, reload, clear. */
  method Lifecycle(apiKey: string, setting: string, value: Value)
    requires setting != ApiKeyName
  {
    var file := new ConfigFile(Missing);
    var c1 := new Config(file);
    assert !c1.IsConfigured();
    c1.SetApiKey(apiKey);
    c1.SetSetting(setting, value);
    var c2 := Reload(c1);
    assert c2.GetApiKey() == Str(apiKey) && c2.IsConfigured();
    assert c2.GetSetting(setting, Null) == value;
    c2.ClearApiKey();
    assert !c2.IsConfigured() && c2.GetSetting(setting, Null) == value;
  }

  /** An empty key counts as configured, yet a search refuses it as "no API key". */
  lemma EmptyKeyConfiguredButFalsy()
    ensures ApiKeyOf(map[ApiKeyName := Str("")]) != Null
    ensures !Truthy(ApiKeyOf(map[ApiKeyName := Str("")]))
  {
  }
}
