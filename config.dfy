/**
 * The renderer's configuration (src/composables/useConfig.ts): the config
 * object, loaded once from config.json in the user-data directory with the
 * defaults under it, saved only after that load, and the data directory
 * setter that saves on a change.
 *
 * The user-data directory comes from the main process; it is a parameter
 * here, with "" standing for "not available" (readConfigFile and
 * writeConfigFile then throw and swallow the error).
 */
module AppConfig {
  import opened Base
  import opened JsonModel
  import opened Paths
  import Storage
  import FS = FileSystemAccess

  const DataDirectoryKey: string := "dataDirectory"
  const PatientsFilenameKey: string := "patientsFilename"
  const NotesBaseDirKey: string := "notesBaseDir"
  const ThemeKey: string := "theme"
  const ConfigFileName: string := "config.json"
  const LoadFailed: string := "Failed to load configuration: "
  const UsingDefaults: string := ". Using defaults."

  /** defaultConfig: no data directory yet, patients.json, notes, the light theme. */
  const Defaults: Fields := [
    (DataDirectoryKey, JNull),
    (PatientsFilenameKey, JStr("patients.json")),
    (NotesBaseDirKey, JStr("notes")),
    (ThemeKey, JStr("light"))
  ]

  /** The config file's path; None when the user-data directory is not available. */
  function ConfigPath(userData: string): (r: Option<string>)
    ensures r.Some? <==> userData != ""
    ensures r.Some? ==> Segments(r.value) == Segments(userData) + Segments(ConfigFileName)
  {
    if userData == "" then None
    else
      FS.StrSegments(userData);
      FS.StrSegments(ConfigFileName);
      Some(FS.Join2(Str(userData), Str(ConfigFileName)).value)
  }

  lemma ConfigNameIsSegment()
    ensures IsSegment(ConfigFileName)
  {
    assert |ConfigFileName| == 11;
    assert forall i | 0 <= i < |ConfigFileName| :: ConfigFileName[i] != '/';
  }

  /** readConfigFile: the file's contents, or null when it is missing or anything on the way fails. */
  function ReadConfigFile(d: Storage.Disk, userData: string): (r: Option<Content>)
    ensures r.Some? ==>
      ConfigPath(userData).Some? && Storage.Kind(d, Segments(ConfigPath(userData).value)) == Some(Storage.File(r.value))
  {
    match ConfigPath(userData)
    case None => None
    case Some(path) =>
      match FS.ReadFileAbsolute(d, path)
      case Ok(c) => c
      case Err(_) => None
  }

  /** writeConfigFile: true when the config was written, and then it reads back as written. */
  function WriteConfigFile(d: Storage.Disk, userData: string, config: Fields): (r: (bool, Storage.Disk))
    ensures userData == "" ==> !r.0
    ensures !r.0 ==> r.1 == d
    ensures r.0 ==> ReadConfigFile(r.1, userData) == Some(JsonText(JObj(config)))
  {
    match ConfigPath(userData)
    case None => (false, d)
    case Some(path) =>
      match FS.WriteFileAbsolute(d, path, JsonText(JObj(config)))
      case Ok(written) =>
        FS.WrittenIsThere(written, path, JsonText(JObj(config)));
        (true, written)
      case Err(_) => (false, d)
  }

  /** `{...defaultConfig, ...loaded}`: every key the file has, as the file has it; the defaults for the rest. */
  function Merged(loaded: Json): (r: Fields)
    ensures forall k :: Lookup(r, k) == if Get(loaded, k).Some? then Get(loaded, k) else Lookup(Defaults, k)
  {
    forall k ensures Lookup(Spread(Defaults, Entries(loaded)), k) ==
                     if Get(loaded, k).Some? then Get(loaded, k) else Lookup(Defaults, k) {
      SpreadLookup(Defaults, Entries(loaded), k);
    }
    Spread(Defaults, Entries(loaded))
  }

  /** The module's refs, and the disk holding the config file. */
  datatype ConfigState = ConfigState(config: Fields, isLoading: bool, error: Option<string>, isConfigLoaded: bool,
                                     disk: Storage.Disk)

  /**
   * saveConfig: refused before the first load; afterwards the outcome of
   * writeConfigFile, with nothing but the disk and `isLoading` changed.
   */
  function Save(s: ConfigState, userData: string): (r: (ConfigState, bool))
    ensures !s.isConfigLoaded ==> r == (s, false)
    ensures s.isConfigLoaded ==> !r.0.isLoading
    ensures r.0.config == s.config && r.0.error == s.error && r.0.isConfigLoaded == s.isConfigLoaded
    ensures !r.1 ==> r.0.disk == s.disk
    ensures r.1 ==> ReadConfigFile(r.0.disk, userData) == Some(JsonText(JObj(s.config)))
  {
    if !s.isConfigLoaded then (s, false)
    else
      var (ok, written) := WriteConfigFile(s.disk, userData, s.config);
      (s.(disk := written, isLoading := false), ok)
  }

  /** The file holds text (`if (fileContent)`). */
  predicate HasText(c: Option<Content>) {
    c.Some? && Text(c.value) != ""
  }

  /**
   * loadConfig as written. A missing, empty or unreadable file leaves the
   * defaults and calls saveConfig while `isConfigLoaded` is still false, so
   * that save is refused and the disk never changes.
   */
  function Load(s: ConfigState, userData: string): (r: ConfigState)
    ensures s.isConfigLoaded ==> r == s
    ensures !s.isConfigLoaded ==> r.isConfigLoaded && !r.isLoading
    ensures r.disk == s.disk
    ensures !s.isConfigLoaded && HasText(ReadConfigFile(s.disk, userData)) ==>
      var parsed := Parse(ReadConfigFile(s.disk, userData).value);
      (parsed.Ok? ==> r.config == Merged(parsed.value) && r.error.None?) &&
      (parsed.Err? ==> r.config == Defaults && r.error == Some(LoadFailed + parsed.error + UsingDefaults))
    ensures !s.isConfigLoaded && !HasText(ReadConfigFile(s.disk, userData)) ==> r.config == Defaults && r.error.None?
  {
    if s.isConfigLoaded then s
    else
      var started := s.(isLoading := true, error := None);
      var fileContent := ReadConfigFile(s.disk, userData);
      if HasText(fileContent) then
        match Parse(fileContent.value)
        case Ok(loaded) => started.(config := Merged(loaded), isConfigLoaded := true, isLoading := false)
        case Err(m) =>
          started.(error := Some(LoadFailed + m + UsingDefaults), config := Defaults, isConfigLoaded := true, isLoading := false)
      else
        var saved := Save(started.(config := Defaults), userData).0;
        saved.(isConfigLoaded := true, isLoading := false)
  }

  /**
   * loadConfig as its comment intends: with no file, the defaults are saved
   * for the first time. Marking the config loaded before that save lets it through.
   */
  function LoadIntended(s: ConfigState, userData: string): (r: ConfigState)
    ensures s.isConfigLoaded ==> r == s
    ensures !s.isConfigLoaded ==> r.isConfigLoaded && !r.isLoading
    ensures !s.isConfigLoaded && HasText(ReadConfigFile(s.disk, userData)) ==> r == Load(s, userData)
    ensures !s.isConfigLoaded && !HasText(ReadConfigFile(s.disk, userData)) ==>
      r.config == Defaults && r.error.None? &&
      (WriteConfigFile(s.disk, userData, Defaults).0 ==> ReadConfigFile(r.disk, userData) == Some(JsonText(JObj(Defaults))))
  {
    if s.isConfigLoaded || HasText(ReadConfigFile(s.disk, userData)) then Load(s, userData)
    else
      var started := s.(isLoading := true, error := None, config := Defaults, isConfigLoaded := true);
      Save(started, userData).0.(isLoading := false)
  }

  /**
   * On a first start with an empty disk the defaults are never written by
   * loadConfig as written, while the intended version leaves them in
   * config.json.
   */
  lemma FirstStartLosesDefaults(userData: string, s: ConfigState)
    requires userData != "" && !s.isConfigLoaded && s.disk == Storage.Disk(map[], {})
    ensures ReadConfigFile(Load(s, userData).disk, userData).None?
    ensures ReadConfigFile(LoadIntended(s, userData).disk, userData) == Some(JsonText(JObj(Defaults)))
  {
    EmptyDisk(userData, s.disk);
  }

  /** On an empty disk there is no config file, and writing one succeeds. */
  lemma EmptyDisk(userData: string, d: Storage.Disk)
    requires userData != "" && d == Storage.Disk(map[], {})
    ensures ReadConfigFile(d, userData).None?
    ensures WriteConfigFile(d, userData, Defaults).0
  {
    var path := ConfigPath(userData).value;
    ConfigPathNonEmpty(userData);
    EmptyAt(d, Segments(path), JsonText(JObj(Defaults)));
  }

  lemma ConfigPathNonEmpty(userData: string)
    requires userData != ""
    ensures ConfigPath(userData).value != "" && Segments(ConfigPath(userData).value) != []
  {
    ConfigNameIsSegment();
    FS.SegmentOf(ConfigFileName);
    FS.SegmentsEmpty();
  }

  lemma EmptyAt(d: Storage.Disk, p: Path, c: Content)
    requires d == Storage.Disk(map[], {}) && p != []
    ensures Storage.Kind(d, p).None? && Storage.Write(d, p, c).Ok?
  {
    assert !Storage.UnderNonDir(d, p) && !Storage.Blocked(d, p);
  }

  /**
   * Loading from a file the app saved gives back every key as saved, once
   * the saved config has all the default keys (as every loaded config has).
   */
  lemma SaveThenLoad(s: ConfigState, userData: string, later: ConfigState)
    requires s.isConfigLoaded && Save(s, userData).1
    requires forall k | Lookup(Defaults, k).Some? :: Lookup(s.config, k).Some?
    requires !later.isConfigLoaded && later.disk == Save(s, userData).0.disk
    ensures forall k :: Lookup(Load(later, userData).config, k) == Lookup(s.config, k)
  {
    WrittenTextIsTruthy(JObj(s.config));
    var merged := Load(later, userData).config;
    assert merged == Merged(JObj(s.config));
    forall k ensures Lookup(merged, k) == Lookup(s.config, k) {
      assert Get(JObj(s.config), k) == Lookup(s.config, k);
    }
  }

  /** setDataDirectory: nothing to do for the current value; otherwise set it and save. */
  function SetDataDirectoryState(s: ConfigState, userData: string, newPath: Option<string>): (r: (ConfigState, bool))
    ensures
      var v := if newPath.Some? then JStr(newPath.value) else JNull;
      (StrictEq(Lookup(s.config, DataDirectoryKey), Some(v)) ==> r == (s, true)) &&
      (!StrictEq(Lookup(s.config, DataDirectoryKey), Some(v)) ==>
         Lookup(r.0.config, DataDirectoryKey) == Some(v) &&
         (forall k | k != DataDirectoryKey :: Lookup(r.0.config, k) == Lookup(s.config, k)) &&
         r == Save(s.(config := Put(s.config, DataDirectoryKey, v)), userData))
    ensures !s.isConfigLoaded ==> r.0.disk == s.disk && (r.1 <==> r.0 == s)
  {
    var v := if newPath.Some? then JStr(newPath.value) else JNull;
    if StrictEq(Lookup(s.config, DataDirectoryKey), Some(v)) then (s, true)
    else Save(s.(config := Put(s.config, DataDirectoryKey, v)), userData)
  }

  /**
   * isDataDirectorySet: `!!dataDirectory`. For the values the app itself
   * stores there (a string or null), that is "a non-empty string".
   */
  function IsDataDirectorySet(config: Fields): (r: bool)
    ensures (Lookup(config, DataDirectoryKey).None? || Lookup(config, DataDirectoryKey).value.JStr? ||
             Lookup(config, DataDirectoryKey).value.JNull?) ==>
            (r <==> StrOf(Lookup(config, DataDirectoryKey)).Some? && StrOf(Lookup(config, DataDirectoryKey)).value != "")
  {
    Truthy(Lookup(config, DataDirectoryKey))
  }

  /** The module-level refs of useConfig, and the disk. */
  class ConfigStore {
    var config: Fields
    var isLoading: bool
    var error: Option<string>
    var isConfigLoaded: bool
    var disk: Storage.Disk

    function Snapshot(): ConfigState
      reads this
    {
      ConfigState(config, isLoading, error, isConfigLoaded, disk)
    }

    constructor (d: Storage.Disk)
      ensures Snapshot() == ConfigState(Defaults, false, None, false, d)
    {
      config := Defaults;
      isLoading := false;
      error := None;
      isConfigLoaded := false;
      disk := d;
    }

    method SaveConfig(userData: string) returns (ok: bool)
      modifies this
      ensures (Snapshot(), ok) == Save(old(Snapshot()), userData)
    {
      if !isConfigLoaded {
        return false;
      }
      isLoading := true;
      var written := WriteConfigFile(disk, userData, config);
      ok := written.0;
      disk := written.1;
      isLoading := false;
    }

    method LoadConfig(userData: string)
      modifies this
      ensures Snapshot() == Load(old(Snapshot()), userData)
    {
      if isConfigLoaded {
        return;
      }
      isLoading := true;
      error := None;
      var fileContent := ReadConfigFile(disk, userData);
      if HasText(fileContent) {
        var parsed := Parse(fileContent.value);
        if parsed.Ok? {
          config := Merged(parsed.value);
          isConfigLoaded := true;
        } else {
          error := Some(LoadFailed + parsed.error + UsingDefaults);
          config := Defaults;
          isConfigLoaded := true;
        }
      } else {
        config := Defaults;
        var _ := SaveConfig(userData);
        isConfigLoaded := true;
      }
      isLoading := false;
    }

    method SetDataDirectory(userData: string, newPath: Option<string>) returns (ok: bool)
      modifies this
      ensures (Snapshot(), ok) == SetDataDirectoryState(old(Snapshot()), userData, newPath)
    {
      var v := if newPath.Some? then JStr(newPath.value) else JNull;
      if !StrictEq(Lookup(config, DataDirectoryKey), Some(v)) {
        config := Put(config, DataDirectoryKey, v);
        ok := SaveConfig(userData);
        return;
      }
      return true;
    }
  }
}
