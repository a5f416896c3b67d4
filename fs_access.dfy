/**
 * The renderer's filesystem access layer (src/composables/useFileSystemAccess.ts):
 * path validation, the re-throwing wrapper around every bridge call, joinPaths,
 * and the note-file path rule with the reads and writes built on it.
 *
 * Path strings are resolved to segment lists; the disk is the value the main
 * process's handlers work on.
 */
module FileSystemAccess {
  import opened Base
  import opened JsonModel
  import opened Paths
  import Storage
  import Calendar

  // The messages of this layer, word for word.
  const NotAbsolute: string := " requires a valid absolute path."
  const NoJoinArgs: string := "joinPaths requires at least one path argument."
  const NotConfigured: string := "Data directory is not configured."
  const UmrnNotString: string := "patient.umrn.trim is not a function"

  /**
   * The message of the Error `ipcRenderer.invoke(channel, ...)` rejects with
   * when the main process's handler throws an Error with `message`: Electron
   * names the channel and prints the handler's error as `Error: <message>`.
   */
  function RemoteError(channel: string, message: string): (s: string)
    ensures EndsWith(s, message)
  {
    var s := "Error invoking remote method '" + channel + "': Error: " + message;
    assert s[|s| - |message|..] == message;
    s
  }

  /**
   * callElectronApi around the bridge call on `channel`: a result passes
   * through, and the invoke's rejection is re-thrown with the caller's prefix.
   */
  function CallElectronApi<T>(outcome: Result<T>, channel: string, prefix: string): (r: Result<T>)
    ensures outcome.Ok? ==> r == outcome
    ensures outcome.Err? ==> r.Err? && r.error == prefix + ": " + RemoteError(channel, outcome.error)
    ensures outcome.Err? ==> StartsWith(r.error, prefix) && EndsWith(r.error, outcome.error)
  {
    match outcome
    case Ok(v) => Ok(v)
    case Err(m) =>
      var e := prefix + ": " + RemoteError(channel, m);
      assert e[..|prefix|] == prefix;
      assert e[|e| - |m|..] == RemoteError(channel, m)[|RemoteError(channel, m)| - |m|..];
      Err(e)
  }

  /** validateAbsolutePath: an empty path is refused with the function's name. */
  function ValidateAbsolutePath(path: string, functionName: string): (r: Result<()>)
    ensures r.Err? <==> path == ""
    ensures r.Err? ==> r.error == functionName + NotAbsolute
  {
    if path == "" then Err(functionName + NotAbsolute) else Ok(())
  }

  // ---------------------------------------------------------------------------
  // joinPaths

  /** A property value passed as a path argument: strings pass, anything else is dropped by join-paths. */
  function AsArg(v: Option<Json>): Arg {
    if v.Some? && v.value.JStr? then Str(v.value.s) else NotString
  }

  /** The segments of all string arguments, in order. */
  function ArgSegments(args: seq<Arg>): (p: Path)
    ensures WellFormed(p)
  {
    if |args| == 0 then [] else (if args[0].Str? then Segments(args[0].s) else []) + ArgSegments(args[1..])
  }

  lemma SegmentsEmpty()
    ensures Segments("") == []
  {
    assert Split("", '/') == [[]];
    var pieces: seq<string> := [[]];
    assert pieces[1..] == [];
  }

  /** A single segment resolves to itself. */
  lemma SegmentOf(name: string)
    requires IsSegment(name)
    ensures Segments(name) == [name]
  {
    SplitFree(name, '/');
    assert [name][1..] == [];
  }

  /** Dropping empty strings does not change what the arguments resolve to. */
  lemma {:induction false} FlattenValid(args: seq<Arg>)
    ensures Flatten(ValidSegments(args)) == ArgSegments(args)
  {
    if |args| > 0 {
      var rest := ValidSegments(args[1..]);
      FlattenValid(args[1..]);
      if args[0].Str? && args[0].s != "" {
        var s := args[0].s;
        assert ValidSegments(args) == [s] + rest;
        assert ([s] + rest)[1..] == rest;
      } else if args[0].Str? {
        SegmentsEmpty();
      }
    }
  }

  /** joinPaths(...paths): at least one argument, then the join-paths handler through callElectronApi. */
  function JoinPaths(args: seq<Arg>): (r: Result<string>)
    ensures |args| == 0 ==> r == Err(NoJoinArgs)
    ensures |args| > 0 ==> (r.Err? <==> ValidSegments(args) == [])
    ensures r.Ok? ==> Segments(r.value) == ArgSegments(args)
  {
    if |args| == 0 then Err(NoJoinArgs)
    else
      FlattenValid(args);
      CallElectronApi(JoinPathsHandler(args), "join-paths", "Error joining paths")
  }

  /** `joinPaths(a, b)`: when `b` is a non-empty string it succeeds and appends b's segments. */
  function Join2(a: Arg, b: Arg): (r: Result<string>)
    ensures r.Ok? ==> Segments(r.value) == ArgSegments([a]) + ArgSegments([b])
    ensures b.Str? && b.s != "" ==> r.Ok?
  {
    var args := [a, b];
    assert args[1..] == [b] && args[1..][1..] == [];
    assert ArgSegments(args) == ArgSegments([a]) + ArgSegments([b]);
    assert b.Str? && b.s != "" ==> b.s in ValidSegments(args);
    JoinPaths(args)
  }

  /** A piece that is one segment contributes exactly that segment. */
  lemma PieceSegments(name: string)
    requires IsSegment(name)
    ensures ArgSegments([Str(name)]) == [name]
  {
    SegmentOf(name);
    assert [Str(name)][1..] == [];
  }

  /** A string argument contributes its own segments. */
  lemma StrSegments(s: string)
    ensures ArgSegments([Str(s)]) == Segments(s)
  {
    assert [Str(s)][1..] == [];
  }

  // ---------------------------------------------------------------------------
  // The absolute-path operations: validate, then call the bridge.

  function ReadFileAbsolute(d: Storage.Disk, path: string): (r: Result<Option<Content>>)
    ensures path == "" ==> r == Err("readFileAbsolute" + NotAbsolute)
    ensures path != "" && Storage.Kind(d, Segments(path)).None? ==> r == Ok(None)
    ensures r.Ok? && r.value.Some? ==> Storage.Kind(d, Segments(path)) == Some(Storage.File(r.value.value))
    ensures path != "" && Storage.Read(d, Segments(path)).Err? ==> r.Err?
  {
    if ValidateAbsolutePath(path, "readFileAbsolute").Err? then Err("readFileAbsolute" + NotAbsolute)
    else CallElectronApi(Storage.Read(d, Segments(path)), "read-file-absolute", "Error reading file " + path)
  }

  function WriteFileAbsolute(d: Storage.Disk, path: string, c: Content): (r: Result<Storage.Disk>)
    ensures path == "" ==> r == Err("writeFileAbsolute" + NotAbsolute)
    ensures r.Ok? ==> Storage.Read(r.value, Segments(path)) == Ok(Some(c))
    ensures r.Ok? ==> r.value.faulty == d.faulty
    ensures r.Ok? ==> Storage.Write(d, Segments(path), c) == Ok(r.value)
    ensures r.Ok? && Storage.Valid(d) ==> Storage.Valid(r.value)
  {
    if ValidateAbsolutePath(path, "writeFileAbsolute").Err? then Err("writeFileAbsolute" + NotAbsolute)
    else
      var w := Storage.Write(d, Segments(path), c);
      if w.Ok? then
        Storage.WriteThenRead(d, Segments(path), c);
        if Storage.Valid(d) then Storage.WriteValid(d, Segments(path), c); Ok(w.value) else Ok(w.value)
      else CallElectronApi(w, "write-file-absolute", "Error writing file " + path)
  }

  function ExistsAbsolute(d: Storage.Disk, path: string): (r: Result<bool>)
    ensures path == "" ==> r == Err("existsAbsolute" + NotAbsolute)
    ensures r.Ok? ==> (r.value <==> Storage.Kind(d, Segments(path)).Some? && !Storage.Kind(d, Segments(path)).value.Dangling?)
    ensures path != "" && !Storage.Blocked(d, Segments(path)) && !Storage.UnderNonDir(d, Segments(path)) ==> r.Ok?
  {
    if ValidateAbsolutePath(path, "existsAbsolute").Err? then Err("existsAbsolute" + NotAbsolute)
    else CallElectronApi(Storage.Exists(d, Segments(path)), "exists-absolute", "Error checking existence for " + path)
  }

  function MkdirAbsolute(d: Storage.Disk, path: string): (r: Result<Storage.Disk>)
    ensures path == "" ==> r == Err("mkdirAbsolute" + NotAbsolute)
    ensures r.Ok? ==> Storage.Accessible(r.value, Segments(path))
    ensures r.Ok? ==> r.value.faulty == d.faulty
    ensures r.Ok? ==> Storage.Mkdir(d, Segments(path)) == Ok(r.value)
    ensures r.Ok? && Storage.Valid(d) ==> Storage.Valid(r.value)
  {
    if ValidateAbsolutePath(path, "mkdirAbsolute").Err? then Err("mkdirAbsolute" + NotAbsolute)
    else
      var m := Storage.Mkdir(d, Segments(path));
      if m.Ok? then
        Storage.MkdirIdempotent(d, Segments(path));
        if Storage.Valid(d) then Storage.MkdirValid(d, Segments(path)); Ok(m.value) else Ok(m.value)
      else CallElectronApi(m, "mkdir-absolute", "Error creating directory " + path)
  }

  function RmdirAbsolute(d: Storage.Disk, path: string): (r: Result<Storage.Disk>)
    ensures path == "" ==> r == Err("rmdirAbsolute" + NotAbsolute)
    ensures r.Ok? && Segments(path) != [] ==> !Storage.Accessible(r.value, Segments(path))
    ensures path != "" && !Storage.Accessible(d, Segments(path)) ==> r == Ok(d)
    ensures r.Ok? ==> r.value.faulty == d.faulty
    ensures r.Ok? ==> Storage.Rmdir(d, Segments(path)) == Ok(r.value)
    ensures r.Ok? && Storage.Valid(d) ==> Storage.Valid(r.value)
  {
    if ValidateAbsolutePath(path, "rmdirAbsolute").Err? then Err("rmdirAbsolute" + NotAbsolute)
    else
      var m := Storage.Rmdir(d, Segments(path));
      if m.Ok? && Storage.Valid(d) then Storage.RmdirValid(d, Segments(path)); Ok(m.value)
      else CallElectronApi(m, "rmdir-absolute", "Error removing directory " + path)
  }

  function ListFiles(d: Storage.Disk, path: string): (r: Result<Option<set<string>>>)
    ensures path == "" ==> r == Err("listFiles" + NotAbsolute)
    ensures r.Ok? && r.value.Some? ==> Storage.Kind(d, Segments(path)) == Some(Storage.Dir) && r.value.value == Storage.Children(d, Segments(path))
    ensures r.Ok? && r.value.None? ==> Storage.Kind(d, Segments(path)).None? || Storage.Kind(d, Segments(path)) == Some(Storage.Dangling)
  {
    if ValidateAbsolutePath(path, "listFiles").Err? then Err("listFiles" + NotAbsolute)
    else CallElectronApi(Storage.List(d, Segments(path)), "list-files", "Error listing files in directory " + path)
  }

  // ---------------------------------------------------------------------------
  // getNoteFilePath, readFileForDate, writeFileForDate

  /** Which identifier a patient's notes are filed under. */
  datatype OwnerKind = ByUmrn | ByUuid

  /** The notes sub-directory of a kind: `by-${type}`. */
  function KindDir(kind: OwnerKind): (s: string)
    ensures IsSegment(s)
  {
    var s := if kind.ByUmrn? then "by-umrn" else "by-uuid";
    assert |s| == 7;
    assert forall i | 0 <= i < |s| :: s[i] != '/';
    s
  }

  /** The two kinds file notes in different sub-directories. */
  lemma KindDirsDiffer()
    ensures KindDir(ByUuid) != KindDir(ByUmrn)
  {
    assert KindDir(ByUuid)[4] != KindDir(ByUmrn)[4];
  }

  /**
   * The directory kind and name a note is filed under: the umrn when it is a
   * string that is not blank (the untrimmed umrn names the directory), the id
   * otherwise. Reading `umrn` of a null patient throws, and so does a truthy
   * umrn that is not a string, which has no `trim`.
   */
  function NoteOwner(patient: Json): (r: Result<(OwnerKind, Arg)>)
    ensures patient.JNull? ==> r == Err(NullRead("umrn"))
    ensures r.Ok? && r.value.0 == ByUmrn ==>
      (StrOf(Get(patient, "umrn")).Some? && Trim(StrOf(Get(patient, "umrn")).value) != "" &&
       r.value.1 == Str(StrOf(Get(patient, "umrn")).value))
    ensures r.Ok? && r.value.0 == ByUuid ==>
      (r.value.1 == AsArg(Get(patient, "id")) &&
       (StrOf(Get(patient, "umrn")).None? || Trim(StrOf(Get(patient, "umrn")).value) == ""))
    ensures r.Err? <==> patient.JNull? || (Truthy(Get(patient, "umrn")) && !Get(patient, "umrn").value.JStr?)
  {
    if patient.JNull? then Err(NullRead("umrn")) else
    var umrn := Get(patient, "umrn");
    match umrn
    case Some(JStr(s)) =>
      if s != "" && Trim(s) != "" then Ok((ByUmrn, Str(s))) else Ok((ByUuid, AsArg(Get(patient, "id"))))
    case _ =>
      if Truthy(umrn) then Err(UmrnNotString) else Ok((ByUuid, AsArg(Get(patient, "id"))))
  }

  /** `joinPaths(joinPaths(base, name), last)`. */
  function Under(base: Arg, name: string, last: Arg): (r: Result<string>)
    requires IsSegment(name)
    ensures r.Ok?
    ensures Segments(r.value) == ArgSegments([base]) + [name] + ArgSegments([last])
  {
    var dir := Join2(base, Str(name)).value;
    PieceSegments(name);
    StrSegments(dir);
    Join2(Str(dir), last)
  }

  lemma Regroup(head: Path, a: string, b: string, tail: Path)
    ensures head + [a] + [b] + tail == head + [a, b] + tail
  {
    assert head + [a] + [b] == head + [a, b];
  }

  /** `base/outer/inner/last`, built by joining one piece at a time. */
  function UnderTwo(base: Arg, outer: string, inner: string, last: Arg): (r: Result<string>)
    requires IsSegment(outer) && IsSegment(inner)
    ensures r.Ok?
    ensures Segments(r.value) == ArgSegments([base]) + [outer, inner] + ArgSegments([last])
  {
    var head, tail := ArgSegments([base]), ArgSegments([last]);
    var dir := Join2(base, Str(outer)).value;
    PieceSegments(outer);
    StrSegments(dir);
    var r := Under(Str(dir), inner, last);
    Regroup(head, outer, inner, tail);
    r
  }

  /** The directory under the data directory that holds every patient's notes. */
  const Notes: string := "notes"

  lemma NotesIsSegment()
    ensures IsSegment(Notes)
  {
    assert |Notes| == 5;
    assert forall i | 0 <= i < |Notes| :: Notes[i] != '/';
  }

  /** The notes/by-<kind>/<name> directory under the data directory. */
  function OwnerDir(dataDirectory: Json, owner: (OwnerKind, Arg)): (r: Result<string>)
    ensures r.Ok?
    ensures Segments(r.value) == ArgSegments([AsArg(Some(dataDirectory))]) + [Notes, KindDir(owner.0)] + ArgSegments([owner.1])
  {
    NotesIsSegment();
    UnderTwo(AsArg(Some(dataDirectory)), Notes, KindDir(owner.0), owner.1)
  }

  /** `${dateString}.json`, a single segment. */
  function NoteFileName(date: Calendar.Date): (s: string)
    requires Calendar.Valid(date)
    ensures s == Calendar.FormatIso(date) + ".json"
    ensures IsSegment(s)
  {
    var iso := Calendar.FormatIso(date);
    var s := iso + ".json";
    assert forall i | 0 <= i < |s| :: s[i] != '/' by {
      forall i | 0 <= i < |s| ensures s[i] != '/' {
        if i < |iso| {
          assert s[i] == iso[i];
        }
      }
    }
    s
  }

  /**
   * getNoteFilePath with `configured` the value get-config-value gave for
   * dataDirectory and `date` the Date passed in (None: an invalid Date, whose
   * toISOString throws).
   */
  function GetNoteFilePath(configured: Option<Json>, patient: Json, date: Option<Calendar.Date>): (r: Result<string>)
    requires date.Some? ==> Calendar.Valid(date.value)
    ensures date.None? ==> r == Err("Invalid time value")
    ensures date.Some? && !Truthy(configured) ==> r == Err(NotConfigured)
    ensures date.Some? && Truthy(configured) ==> (r.Err? <==> NoteOwner(patient).Err?)
    ensures r.Ok? ==>
      (Truthy(configured) && NoteOwner(patient).Ok? &&
       Segments(r.value) == Segments(OwnerDir(configured.value, NoteOwner(patient).value).value) +
                            [NoteFileName(date.value)])
  {
    if date.None? then Err("Invalid time value")
    else
      var fileName := NoteFileName(date.value);
      if !Truthy(configured) then Err(NotConfigured)
      else match NoteOwner(patient)
        case Err(e) => Err(e)
        case Ok(owner) =>
          var patientDir := OwnerDir(configured.value, owner).value;
          PieceSegments(fileName);
          StrSegments(patientDir);
          Join2(Str(patientDir), Str(fileName))
  }

  /** readFileForDate: null when the note file does not exist, its contents otherwise. */
  function ReadFileForDate(d: Storage.Disk, configured: Option<Json>, patient: Json, date: Option<Calendar.Date>): (r: Result<Option<Content>>)
    requires date.Some? ==> Calendar.Valid(date.value)
    ensures GetNoteFilePath(configured, patient, date).Err? ==> r == Err(GetNoteFilePath(configured, patient, date).error)
    ensures r.Ok? && r.value.Some? ==> Storage.Kind(d, Segments(GetNoteFilePath(configured, patient, date).value)) == Some(Storage.File(r.value.value))
    ensures (GetNoteFilePath(configured, patient, date).Ok? &&
             Storage.Kind(d, Segments(GetNoteFilePath(configured, patient, date).value)).None? &&
             ExistsAbsolute(d, GetNoteFilePath(configured, patient, date).value).Ok?) ==> r == Ok(None)
  {
    match GetNoteFilePath(configured, patient, date)
    case Err(e) => Err(e)
    case Ok(filePath) =>
      match ExistsAbsolute(d, filePath)
      case Err(e) => Err(e)
      case Ok(fileExists) => if !fileExists then Ok(None) else ReadFileAbsolute(d, filePath)
  }

  /**
   * writeFileForDate: resolve the note file, create its patient directory when
   * it is missing, then write.
   */
  method WriteFileForDate(d: Storage.Disk, configured: Option<Json>, patient: Json, date: Option<Calendar.Date>, content: Content)
    returns (r: Result<Storage.Disk>)
    requires date.Some? ==> Calendar.Valid(date.value)
    ensures GetNoteFilePath(configured, patient, date).Err? ==> r == Err(GetNoteFilePath(configured, patient, date).error)
    ensures r.Ok? ==>
      (GetNoteFilePath(configured, patient, date).Ok? &&
       Storage.Read(r.value, Segments(GetNoteFilePath(configured, patient, date).value)) == Ok(Some(content)))
    ensures r.Ok? ==> ReadFileForDate(r.value, configured, patient, date) == Ok(Some(content))
    ensures r.Ok? ==> forall q | Apart(Segments(GetNoteFilePath(configured, patient, date).value), q) ::
      Storage.Read(r.value, q) == Storage.Read(d, q)
  {
    var filePath := GetNoteFilePath(configured, patient, date);
    if filePath.Err? {
      return Err(filePath.error);
    }
    var owner := NoteOwner(patient).value;
    var patientDir := OwnerDir(configured.value, owner).value;
    var dirExists := ExistsAbsolute(d, patientDir);
    if dirExists.Err? {
      return Err(dirExists.error);
    }
    var current := d;
    var file := Segments(filePath.value);
    if !dirExists.value {
      var made := MkdirAbsolute(current, patientDir);
      if made.Err? {
        return Err(made.error);
      }
      current := made.value;
      forall q | Apart(file, q) ensures Storage.Read(current, q) == Storage.Read(d, q) {
        InsideFile(Segments(patientDir), file, q);
        Storage.ReadAfterMkdir(d, Segments(patientDir), q);
      }
    }
    r := WriteFileAbsolute(current, filePath.value, content);
    if r.Ok? {
      WrittenIsThere(r.value, filePath.value, content);
      WriteAbsoluteFrame(current, filePath.value, content);
    }
  }

  /** A path apart from a file is not an enclosing directory of the file's directory. */
  lemma InsideFile(dir: Path, file: Path, q: Path)
    requires |file| == |dir| + 1 && file[..|dir|] == dir && Apart(file, q)
    ensures !Within(dir, q)
  {
  }

  /** A write through the bridge leaves every path apart from the written one as it was. */
  lemma WriteAbsoluteFrame(d: Storage.Disk, path: string, c: Content)
    requires WriteFileAbsolute(d, path, c).Ok?
    ensures forall q | Apart(Segments(path), q) :: Storage.Read(WriteFileAbsolute(d, path, c).value, q) == Storage.Read(d, q)
  {
    forall q | Apart(Segments(path), q)
      ensures Storage.Read(WriteFileAbsolute(d, path, c).value, q) == Storage.Read(d, q)
    {
      Storage.ReadAfterWrite(d, Segments(path), c, q);
    }
  }

  /** A file a write left readable is there for exists-then-read. */
  lemma WrittenIsThere(d: Storage.Disk, path: string, c: Content)
    requires Storage.Read(d, Segments(path)) == Ok(Some(c))
    ensures path != "" ==> ExistsAbsolute(d, path) == Ok(true) && ReadFileAbsolute(d, path) == Ok(Some(c))
  {
    if path != "" {
      assert Storage.Accessible(d, Segments(path));
    }
  }
}
