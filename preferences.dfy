/**
 * The user's settings for asset backup: each one a lazily read cache over
 * the editor's persistent key/value store.
 */
module AssetBackupPreferences {
  import opened Wrappers
  import opened Numerals

  /** `EditorPrefs`: the editor's persistent store, one map per value type. */
  class EditorPrefs {
    var bools: map<string, bool>
    var ints: map<string, Int32>

    constructor (bools: map<string, bool>, ints: map<string, Int32>)
      ensures this.bools == bools && this.ints == ints
    {
      this.bools := bools;
      this.ints := ints;
    }

    /** `EditorPrefs.GetBool(key, defaultValue)`. */
    function GetBool(key: string, defaultValue: bool): (v: bool)
      reads this
      ensures key !in bools ==> v == defaultValue
    {
      if key in bools then bools[key] else defaultValue
    }

    /** `EditorPrefs.GetInt(key, defaultValue)`. */
    function GetInt(key: string, defaultValue: Int32): (v: Int32)
      reads this
      ensures key !in ints ==> v == defaultValue
    {
      if key in ints then ints[key] else defaultValue
    }

    /** `EditorPrefs.SetBool(key, value)`. */
    method SetBool(key: string, value: bool)
      modifies this
      ensures bools == old(bools)[key := value] && ints == old(ints)
    {
      bools := bools[key := value];
    }

    /** `EditorPrefs.SetInt(key, value)`. */
    method SetInt(key: string, value: Int32)
      modifies this
      ensures ints == old(ints)[key := value] && bools == old(bools)
    {
      ints := ints[key := value];
    }
  }

  /** `BoolPreference`: a boolean setting; `cache` is the nullable `m_value`. */
  class BoolPreference {
    const key: string
    const defaultValue: bool
    const prefs: EditorPrefs
    var cache: Option<bool>

    constructor (prefs: EditorPrefs, key: string, defaultValue: bool)
      ensures this.prefs == prefs && this.key == key && this.defaultValue == defaultValue
      ensures cache == None
    {
      this.prefs := prefs;
      this.key := key;
      this.defaultValue := defaultValue;
      cache := None;
    }

    /** What `value` reads now: the cached value once there is one, else
        the store's value for the key, else the default. */
    function Value(): bool
      reads this, prefs
    {
      match cache
      case Some(v) => v
      case None => prefs.GetBool(key, defaultValue)
    }

    /** The `value` getter: the first read consults the store and caches
        its answer; later reads return the cache and leave the store alone. */
    method Get() returns (v: bool)
      modifies this
      ensures v == old(Value()) && cache == Some(v)
      ensures old(cache).Some? ==> v == old(cache).value
      ensures old(cache).None? ==> v == prefs.GetBool(key, defaultValue)
    {
      if cache.None? {
        cache := Some(prefs.GetBool(key, defaultValue));
      }
      v := cache.value;
    }

    /** The `value` setter: write through to both the cache and the store. */
    method Set(value: bool)
      modifies this, prefs
      ensures cache == Some(value) && Value() == value
      ensures prefs.bools == old(prefs.bools)[key := value] && prefs.ints == old(prefs.ints)
    {
      cache := Some(value);
      prefs.SetBool(key, value);
    }
  }

  /** `IntPreference`: an integer setting; `cache` is the nullable `m_value`. */
  class IntPreference {
    const key: string
    const defaultValue: Int32
    const prefs: EditorPrefs
    var cache: Option<Int32>

    constructor (prefs: EditorPrefs, key: string, defaultValue: Int32)
      ensures this.prefs == prefs && this.key == key && this.defaultValue == defaultValue
      ensures cache == None
    {
      this.prefs := prefs;
      this.key := key;
      this.defaultValue := defaultValue;
      cache := None;
    }

    /** What `value` reads now. */
    function Value(): Int32
      reads this, prefs
    {
      match cache
      case Some(v) => v
      case None => prefs.GetInt(key, defaultValue)
    }

    /** The `value` getter. */
    method Get() returns (v: Int32)
      modifies this
      ensures v == old(Value()) && cache == Some(v)
      ensures old(cache).Some? ==> v == old(cache).value
      ensures old(cache).None? ==> v == prefs.GetInt(key, defaultValue)
    {
      if cache.None? {
        cache := Some(prefs.GetInt(key, defaultValue));
      }
      v := cache.value;
    }

    /** The `value` setter. */
    method Set(value: Int32)
      modifies this, prefs
      ensures cache == Some(value) && Value() == value
      ensures prefs.ints == old(prefs.ints)[key := value] && prefs.bools == old(prefs.bools)
    {
      cache := Some(value);
      prefs.SetInt(key, value);
    }
  }

  /** The store keys: the class's full name, a dot and the property name. */
  const AssetBackupDisabledKey: string := "UnityExtensions.AssetBackupPreferences.assetBackupDisabled"
  const MaxBackupsPerAssetKey: string := "UnityExtensions.AssetBackupPreferences.maxBackupsPerAsset"

  const DefaultAssetBackupDisabled: bool := false
  const DefaultMaxBackupsPerAsset: Int32 := 3

  /** `Mathf.Max(1, value)`: the smallest count at least 1 and at least
      `value`. */
  function ClampMaxBackups(value: Int32): (r: Int32)
    ensures r >= 1 && r >= value
    ensures r == value || r == 1
  {
    if value < 1 then 1 else value
  }

  /** Clamping is idempotent, and leaves every count of at least 1 alone. */
  lemma ClampMaxBackupsFixedPoints(value: Int32)
    ensures ClampMaxBackups(ClampMaxBackups(value)) == ClampMaxBackups(value)
    ensures ClampMaxBackups(value) == value <==> value >= 1
  {
  }

  /** The static state of `AssetBackupPreferences`: its two settings over
      one store. */
  class Preferences {
    const prefs: EditorPrefs
    const assetBackupDisabled: BoolPreference
    const maxBackupsPerAsset: IntPreference

    /** Both settings use this store, under their own keys and defaults. */
    predicate Valid() {
      && assetBackupDisabled.prefs == prefs
      && maxBackupsPerAsset.prefs == prefs
      && assetBackupDisabled.key == AssetBackupDisabledKey
      && assetBackupDisabled.defaultValue == DefaultAssetBackupDisabled
      && maxBackupsPerAsset.key == MaxBackupsPerAssetKey
      && maxBackupsPerAsset.defaultValue == DefaultMaxBackupsPerAsset
    }

    /** The static initialisers; over a store holding neither key, backup
        starts enabled with at most 3 backups per asset. */
    constructor (prefs: EditorPrefs)
      ensures Valid() && this.prefs == prefs
      ensures fresh(assetBackupDisabled) && fresh(maxBackupsPerAsset)
      ensures AssetBackupDisabledKey !in prefs.bools ==> !assetBackupDisabled.Value()
      ensures MaxBackupsPerAssetKey !in prefs.ints ==> maxBackupsPerAsset.Value() == 3
    {
      this.prefs := prefs;
      assetBackupDisabled := new BoolPreference(prefs, AssetBackupDisabledKey, DefaultAssetBackupDisabled);
      maxBackupsPerAsset := new IntPreference(prefs, MaxBackupsPerAssetKey, DefaultMaxBackupsPerAsset);
    }

    /** The `assetBackupDisabled` getter. */
    method GetAssetBackupDisabled() returns (v: bool)
      requires Valid()
      modifies assetBackupDisabled
      ensures v == old(assetBackupDisabled.Value()) && assetBackupDisabled.Value() == v
    {
      v := assetBackupDisabled.Get();
    }

    /** The `assetBackupDisabled` setter. */
    method SetAssetBackupDisabled(v: bool)
      requires Valid()
      modifies assetBackupDisabled, prefs
      ensures assetBackupDisabled.Value() == v
      ensures prefs.bools == old(prefs.bools)[AssetBackupDisabledKey := v] && prefs.ints == old(prefs.ints)
      ensures maxBackupsPerAsset.cache == old(maxBackupsPerAsset.cache)
    {
      assetBackupDisabled.Set(v);
    }

    /** The `assetBackupEnabled` getter: the negation of the disabled flag. */
    method GetAssetBackupEnabled() returns (v: bool)
      requires Valid()
      modifies assetBackupDisabled
      ensures v == !old(assetBackupDisabled.Value()) && v == !assetBackupDisabled.Value()
    {
      var disabled := GetAssetBackupDisabled();
      v := !disabled;
    }

    /** The `assetBackupEnabled` setter: stores the negation as disabled. */
    method SetAssetBackupEnabled(v: bool)
      requires Valid()
      modifies assetBackupDisabled, prefs
      ensures assetBackupDisabled.Value() == !v
      ensures prefs.bools == old(prefs.bools)[AssetBackupDisabledKey := !v] && prefs.ints == old(prefs.ints)
    {
      SetAssetBackupDisabled(!v);
    }

    /** The `maxBackupsPerAsset` getter; it does not clamp what the store
        holds. */
    method GetMaxBackupsPerAsset() returns (v: Int32)
      requires Valid()
      modifies maxBackupsPerAsset
      ensures v == old(maxBackupsPerAsset.Value()) && maxBackupsPerAsset.Value() == v
    {
      v := maxBackupsPerAsset.Get();
    }

    /** The `maxBackupsPerAsset` setter: stores the value raised to at
        least 1. */
    method SetMaxBackupsPerAsset(v: Int32)
      requires Valid()
      modifies maxBackupsPerAsset, prefs
      ensures maxBackupsPerAsset.Value() == ClampMaxBackups(v) && maxBackupsPerAsset.Value() >= 1
      ensures prefs.ints == old(prefs.ints)[MaxBackupsPerAssetKey := ClampMaxBackups(v)]
      ensures prefs.bools == old(prefs.bools)
      ensures assetBackupDisabled.cache == old(assetBackupDisabled.cache)
    {
      maxBackupsPerAsset.Set(ClampMaxBackups(v));
    }
  }
}
