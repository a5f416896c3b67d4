/**
 * The note editor (src/composables/useNoteEditor.ts): its own note path
 * resolver, and loading and saving one note with the `isLoading`/`error`
 * state around the read or the write.
 *
 * The editor reads `dataDirectory` and `notesBaseDir` from the renderer's
 * configuration; they are passed in as the property values found there.
 */
module NoteEditor {
  import opened Base
  import opened JsonModel
  import opened Paths
  import Storage
  import FS = FileSystemAccess
  import Calendar

  // The messages the editor reports, word for word.
  const LoadNotConfigured: string := "Data directory not configured."
  const NoLoadPath: string := "Could not determine note path."
  const LoadFailed: string := "Failed to load note: "
  const SaveNotConfigured: string := "Cannot save note: Data directory not configured."
  const NoSavePath: string := "Could not determine note path for saving."
  const SaveFailed: string := "Failed to save note: "

  /** `joinPaths(a, b, c)`: it succeeds as soon as `b` or `c` is a non-empty string. */
  function Join3(a: Arg, b: Arg, c: Arg): (r: Result<string>)
    ensures (b.Str? && b.s != "") || (c.Str? && c.s != "") ==> r.Ok?
    ensures r.Ok? ==> Segments(r.value) == FS.ArgSegments([a]) + FS.ArgSegments([b]) + FS.ArgSegments([c])
  {
    ArgSegmentsThree(a, b, c);
    LaterKept(a, b, c);
    FS.JoinPaths([a, b, c])
  }

  lemma ArgSegmentsThree(a: Arg, b: Arg, c: Arg)
    ensures FS.ArgSegments([a, b, c]) == FS.ArgSegments([a]) + FS.ArgSegments([b]) + FS.ArgSegments([c])
  {
    assert [a, b, c] == [a] + [b, c] && [b, c] == [b] + [c];
    ArgSegmentsCons(a, [b, c]);
    ArgSegmentsCons(b, [c]);
  }

  lemma ArgSegmentsCons(x: Arg, rest: seq<Arg>)
    ensures FS.ArgSegments([x] + rest) == FS.ArgSegments([x]) + FS.ArgSegments(rest)
  {
    assert ([x] + rest)[1..] == rest && [x][1..] == [];
  }

  lemma LaterKept(a: Arg, b: Arg, c: Arg)
    ensures (b.Str? && b.s != "") || (c.Str? && c.s != "") ==> ValidSegments([a, b, c]) != []
  {
    var args := [a, b, c];
    assert args[1..] == [b, c] && args[1..][1..] == [c];
    if !(b.Str? && b.s != "") && c.Str? && c.s != "" {
      assert [c][1..] == [];
      assert ValidSegments([c]) == [c.s];
      assert ValidSegments([b, c]) == [c.s];
    }
  }

  /** `joinPaths(notesBaseDir, 'by-<kind>', owner)`, the patient's note directory below the data directory. */
  function NoteDir(notesBaseDir: Option<Json>, owner: (FS.OwnerKind, Arg)): (r: string)
    ensures Segments(r) == FS.ArgSegments([FS.AsArg(notesBaseDir)]) + [FS.KindDir(owner.0)] + FS.ArgSegments([owner.1])
  {
    var kind := FS.KindDir(owner.0);
    FS.PieceSegments(kind);
    Join3(FS.AsArg(notesBaseDir), Str(kind), owner.1).value
  }

  /** `joinPaths(dataDirectory, dir, fileName)` for a note directory and a file name. */
  function NoteFile(dataDirectory: Option<Json>, dir: string, fileName: string): (r: string)
    requires fileName != "" && Segments(dir) != []
    ensures Segments(r) == FS.ArgSegments([FS.AsArg(dataDirectory)]) + Segments(dir) + Segments(fileName)
    ensures r != ""
  {
    FS.StrSegments(dir);
    FS.StrSegments(fileName);
    var r := Join3(FS.AsArg(dataDirectory), Str(dir), Str(fileName)).value;
    FS.SegmentsEmpty();
    r
  }

  /**
   * The directory kind and the identifier a note is filed under here: a
   * truthy umrn exactly as it is (neither trimmed nor required to be a
   * string), the id otherwise.
   */
  function Owner(patient: Json): (r: (FS.OwnerKind, Arg))
    ensures r.0 == FS.ByUmrn <==> Truthy(Get(patient, "umrn"))
    ensures r.1 == FS.AsArg(Get(patient, if Truthy(Get(patient, "umrn")) then "umrn" else "id"))
  {
    if Truthy(Get(patient, "umrn")) then (FS.ByUmrn, FS.AsArg(Get(patient, "umrn")))
    else (FS.ByUuid, FS.AsArg(Get(patient, "id")))
  }

  /** `${date.split('T')[0]}.json` */
  function FileName(date: string): (s: string)
    ensures s == Calendar.DatePart(date) + ".json"
    ensures s != ""
  {
    Calendar.DatePart(date) + ".json"
  }

  /**
   * getNotePath: `<dataDirectory>/<notesBaseDir>/by-<kind>/<owner>/<d>.json`
   * with `d` the date before any 'T'. It is null when the data directory is
   * not set, and whenever a step throws: the date is not a string (no
   * `split`), or the patient is null.
   */
  function GetNotePath(dataDirectory: Option<Json>, notesBaseDir: Option<Json>, patient: Json, date: Option<Json>): (r: Option<string>)
    ensures r.Some? <==> Truthy(dataDirectory) && date.Some? && date.value.JStr? && !patient.JNull?
    ensures r.Some? ==> r.value != ""
    ensures r.Some? ==>
      Segments(r.value) ==
        FS.ArgSegments([FS.AsArg(dataDirectory)]) + FS.ArgSegments([FS.AsArg(notesBaseDir)]) +
        [FS.KindDir(Owner(patient).0)] + FS.ArgSegments([Owner(patient).1]) + Segments(FileName(date.value.s))
  {
    if !Truthy(dataDirectory) || date.None? || !date.value.JStr? || patient.JNull? then None
    else
      var owner := Owner(patient);
      var dir := NoteDir(notesBaseDir, owner);
      var file := FileName(date.value.s);
      var path := NoteFile(dataDirectory, dir, file);
      AppendRegroup(FS.ArgSegments([FS.AsArg(dataDirectory)]), FS.ArgSegments([FS.AsArg(notesBaseDir)]),
                    FS.KindDir(owner.0), FS.ArgSegments([owner.1]), Segments(file));
      Some(path)
  }

  lemma AppendRegroup(a: seq<string>, b: seq<string>, k: string, c: seq<string>, f: seq<string>)
    ensures a + (b + [k] + c) + f == a + b + [k] + c + f
  {
  }

  // ---------------------------------------------------------------------------
  // The two resolvers side by side

  /**
   * With a base directory that resolves to "notes" (the default) and a date
   * whose part before 'T' is the formatted calendar date, getNotePath and
   * getNoteFilePath name the same file, provided the umrn is falsy or a
   * string that is not blank.
   */
  lemma ResolversAgree(configured: Option<Json>, notesBaseDir: Option<Json>, patient: Json, d: Calendar.Date, date: string)
    requires Truthy(configured) && patient.JObj? && Calendar.Valid(d)
    requires FS.ArgSegments([FS.AsArg(notesBaseDir)]) == [FS.Notes]
    requires Calendar.DatePart(date) == Calendar.FormatIso(d)
    requires !Truthy(Get(patient, "umrn")) ||
             (Get(patient, "umrn").value.JStr? && Trim(Get(patient, "umrn").value.s) != "")
    ensures GetNotePath(configured, notesBaseDir, patient, Some(JStr(date))).Some?
    ensures FS.GetNoteFilePath(configured, patient, Some(d)).Ok?
    ensures Segments(GetNotePath(configured, notesBaseDir, patient, Some(JStr(date))).value) ==
            Segments(FS.GetNoteFilePath(configured, patient, Some(d)).value)
  {
    var owner := SameOwner(patient);
    var f := FS.NoteFileName(d);
    var head, kind, tail := FS.ArgSegments([FS.AsArg(configured)]), FS.KindDir(owner.0), FS.ArgSegments([owner.1]);
    EditorSegments(configured, notesBaseDir, patient, date, f);
    AccessSegments(configured, patient, d);
    Regrouped(head, FS.Notes, kind, tail, f);
  }

  /** getNotePath's segments below a base directory that resolves to "notes". */
  lemma EditorSegments(configured: Option<Json>, notesBaseDir: Option<Json>, patient: Json, date: string, f: string)
    requires Truthy(configured) && patient.JObj?
    requires FS.ArgSegments([FS.AsArg(notesBaseDir)]) == [FS.Notes]
    requires FileName(date) == f && IsSegment(f)
    ensures GetNotePath(configured, notesBaseDir, patient, Some(JStr(date))).Some?
    ensures Segments(GetNotePath(configured, notesBaseDir, patient, Some(JStr(date))).value) ==
            FS.ArgSegments([FS.AsArg(configured)]) + [FS.Notes] + [FS.KindDir(Owner(patient).0)] +
            FS.ArgSegments([Owner(patient).1]) + [f]
  {
    FS.SegmentOf(f);
  }

  /** getNoteFilePath's segments for a patient it can file. */
  lemma AccessSegments(configured: Option<Json>, patient: Json, d: Calendar.Date)
    requires Truthy(configured) && Calendar.Valid(d) && FS.NoteOwner(patient).Ok?
    ensures FS.GetNoteFilePath(configured, patient, Some(d)).Ok?
    ensures Segments(FS.GetNoteFilePath(configured, patient, Some(d)).value) ==
            FS.ArgSegments([FS.AsArg(configured)]) + [FS.Notes, FS.KindDir(FS.NoteOwner(patient).value.0)] +
            FS.ArgSegments([FS.NoteOwner(patient).value.1]) + [FS.NoteFileName(d)]
  {
    assert Some(configured.value) == configured;
  }

  /** Both resolvers file a patient object whose umrn is falsy or a non-blank string under the same owner. */
  lemma SameOwner(patient: Json) returns (owner: (FS.OwnerKind, Arg))
    requires patient.JObj?
    requires !Truthy(Get(patient, "umrn")) ||
             (Get(patient, "umrn").value.JStr? && Trim(Get(patient, "umrn").value.s) != "")
    ensures FS.NoteOwner(patient) == Ok(owner) && owner == Owner(patient)
  {
    owner := FS.NoteOwner(patient).value;
  }

  lemma Regrouped(head: Path, a: string, b: string, tail: Path, last: string)
    ensures head + [a] + [b] + tail + [last] == head + [a, b] + tail + [last]
  {
    assert head + [a] + [b] == head + [a, b];
  }

  /**
   * A umrn made only of spaces is truthy, so getNotePath files the note under
   * by-umrn, while getNoteFilePath trims it away and uses by-uuid: for any
   * one-segment base directory (the default "notes" among them) the two
   * resolvers name files in different places, whatever the dates.
   */
  lemma BlankUmrnDiverges(configured: Option<Json>, notesBaseDir: Option<Json>, patient: Json, d: Calendar.Date,
                          date: string, umrn: string)
    requires Truthy(configured) && patient.JObj? && Calendar.Valid(d)
    requires |FS.ArgSegments([FS.AsArg(notesBaseDir)])| == 1
    requires Get(patient, "umrn") == Some(JStr(umrn)) && umrn != "" && Trim(umrn) == ""
    ensures GetNotePath(configured, notesBaseDir, patient, Some(JStr(date))).Some?
    ensures FS.GetNoteFilePath(configured, patient, Some(d)).Ok?
    ensures Apart(Segments(GetNotePath(configured, notesBaseDir, patient, Some(JStr(date))).value),
                  Segments(FS.GetNoteFilePath(configured, patient, Some(d)).value))
  {
    BlankOwners(patient, umrn);
    var at := |FS.ArgSegments([FS.AsArg(configured)])| + 1;
    var editorSegments := EditorByUmrn(configured, notesBaseDir, patient, date);
    var accessSegments := AccessByUuid(configured, patient, d);
    KindsApart(editorSegments, accessSegments, at);
  }

  /** Paths with by-umrn and by-uuid at the same position are apart. */
  lemma KindsApart(p: Path, q: Path, at: nat)
    requires at < |p| && at < |q| && p[at] == FS.KindDir(FS.ByUmrn) && q[at] == FS.KindDir(FS.ByUuid)
    ensures Apart(p, q)
  {
    FS.KindDirsDiffer();
    ApartAt(p, q, at);
  }

  /** getNotePath for a patient filed by umrn, below a one-segment base directory. */
  lemma EditorByUmrn(configured: Option<Json>, notesBaseDir: Option<Json>, patient: Json, date: string)
    returns (segments: Path)
    requires Truthy(configured) && patient.JObj? && Owner(patient).0 == FS.ByUmrn
    requires |FS.ArgSegments([FS.AsArg(notesBaseDir)])| == 1
    ensures GetNotePath(configured, notesBaseDir, patient, Some(JStr(date))).Some?
    ensures segments == Segments(GetNotePath(configured, notesBaseDir, patient, Some(JStr(date))).value)
    ensures |FS.ArgSegments([FS.AsArg(configured)])| + 1 < |segments|
    ensures segments[|FS.ArgSegments([FS.AsArg(configured)])| + 1] == FS.KindDir(FS.ByUmrn)
  {
    EditorKindAt(configured, notesBaseDir, patient, JStr(date));
    segments := Segments(GetNotePath(configured, notesBaseDir, patient, Some(JStr(date))).value);
  }

  /** getNoteFilePath for a patient filed by id. */
  lemma AccessByUuid(configured: Option<Json>, patient: Json, d: Calendar.Date) returns (segments: Path)
    requires Truthy(configured) && Calendar.Valid(d)
    requires FS.NoteOwner(patient).Ok? && FS.NoteOwner(patient).value.0 == FS.ByUuid
    ensures FS.GetNoteFilePath(configured, patient, Some(d)).Ok?
    ensures segments == Segments(FS.GetNoteFilePath(configured, patient, Some(d)).value)
    ensures |FS.ArgSegments([FS.AsArg(configured)])| + 1 < |segments|
    ensures segments[|FS.ArgSegments([FS.AsArg(configured)])| + 1] == FS.KindDir(FS.ByUuid)
  {
    AccessKindAt(configured, patient, d);
    segments := Segments(FS.GetNoteFilePath(configured, patient, Some(d)).value);
  }

  /** A blank umrn is truthy for one resolver and trimmed away by the other. */
  lemma BlankOwners(patient: Json, umrn: string)
    requires Get(patient, "umrn") == Some(JStr(umrn)) && umrn != "" && Trim(umrn) == ""
    ensures Owner(patient).0 == FS.ByUmrn
    ensures FS.NoteOwner(patient).Ok? && FS.NoteOwner(patient).value.0 == FS.ByUuid
  {
  }

  /** Where getNotePath puts the `by-<kind>` segment. */
  lemma EditorKindAt(configured: Option<Json>, notesBaseDir: Option<Json>, patient: Json, date: Json)
    requires GetNotePath(configured, notesBaseDir, patient, Some(date)).Some?
    ensures var at := |FS.ArgSegments([FS.AsArg(configured)])| + |FS.ArgSegments([FS.AsArg(notesBaseDir)])|;
      at < |Segments(GetNotePath(configured, notesBaseDir, patient, Some(date)).value)| &&
      Segments(GetNotePath(configured, notesBaseDir, patient, Some(date)).value)[at] == FS.KindDir(Owner(patient).0)
  {
  }

  /** Where getNoteFilePath puts the `by-<kind>` segment. */
  lemma AccessKindAt(configured: Option<Json>, patient: Json, d: Calendar.Date)
    requires Calendar.Valid(d)
    requires FS.GetNoteFilePath(configured, patient, Some(d)).Ok?
    ensures |FS.ArgSegments([FS.AsArg(configured)])| + 1 < |Segments(FS.GetNoteFilePath(configured, patient, Some(d)).value)|
    ensures Segments(FS.GetNoteFilePath(configured, patient, Some(d)).value)[|FS.ArgSegments([FS.AsArg(configured)])| + 1] ==
            FS.KindDir(FS.NoteOwner(patient).value.0)
  {
  }

  // ---------------------------------------------------------------------------
  // loadNote and saveNote

  /** The note loadNote makes up for a missing or empty file. */
  function EmptyNote(date: string): (note: Json)
    ensures Get(note, "date") == Some(JStr(Calendar.DatePart(date)))
    ensures Get(note, "content") == Some(JStr(""))
  {
    var fields := [("date", JStr(Calendar.DatePart(date))), ("content", JStr(""))];
    assert fields[1].0 != "date" by { assert fields[1].0[0] == 'c'; }
    assert fields[..1] == [fields[0]];
    assert Lookup(fields[..1], "date") == Some(JStr(Calendar.DatePart(date)));
    assert Lookup(fields, "date") == Lookup(fields[..1], "date");
    assert Get(JObj(fields), "date") == Lookup(fields, "date");
    JObj(fields)
  }

  /**
   * What loadNote returns and the error it leaves. The note is whatever the
   * file parses to (`as Note` checks nothing); a file that does not parse is
   * a load failure.
   */
  function Loaded(d: Storage.Disk, dataDirectory: Option<Json>, notesBaseDir: Option<Json>, patient: Json, date: string)
    : (r: (Option<Json>, Option<string>))
    ensures !Truthy(dataDirectory) ==> r == (None, Some(LoadNotConfigured))
    ensures Truthy(dataDirectory) && patient.JNull? ==> r == (None, Some(NoLoadPath))
    ensures r.0.Some? <==> r.1.None?
    ensures r.1.Some? && r.1.value != LoadNotConfigured && r.1.value != NoLoadPath ==> StartsWith(r.1.value, LoadFailed)
  {
    if !Truthy(dataDirectory) then (None, Some(LoadNotConfigured))
    else match GetNotePath(dataDirectory, notesBaseDir, patient, Some(JStr(date)))
      case None => (None, Some(NoLoadPath))
      case Some(path) => ReadNote(d, path, date)
  }

  /** The guarded read of loadNote once the path is known. */
  function ReadNote(d: Storage.Disk, path: string, date: string): (r: (Option<Json>, Option<string>))
    ensures r.0.Some? <==> r.1.None?
    ensures r.1.Some? ==> StartsWith(r.1.value, LoadFailed)
  {
    match FS.ReadFileAbsolute(d, path)
    case Err(m) => (None, Some(LoadFailed + m))
    case Ok(c) =>
      if c.None? || Text(c.value) == "" then (Some(EmptyNote(date)), None)
      else match Parse(c.value)
        case Err(m) => (None, Some(LoadFailed + m))
        case Ok(j) => (Some(j), None)
  }

  /** A configured load of a file that is not there gives the empty note for the date. */
  lemma LoadMissing(d: Storage.Disk, dataDirectory: Option<Json>, notesBaseDir: Option<Json>, patient: Json, date: string)
    requires Truthy(dataDirectory) && !patient.JNull?
    requires Storage.Kind(d, Segments(GetNotePath(dataDirectory, notesBaseDir, patient, Some(JStr(date))).value)).None?
    ensures Loaded(d, dataDirectory, notesBaseDir, patient, date) == (Some(EmptyNote(date)), None)
  {
    var path := GetNotePath(dataDirectory, notesBaseDir, patient, Some(JStr(date))).value;
    assert FS.ReadFileAbsolute(d, path) == Ok(None);
  }

  /** `{...note, date: date.split('T')[0]}`: the note with its date cut to the day, every other field kept. */
  function NoteToSave(note: Fields, date: string): (r: Fields)
    ensures Lookup(r, "date") == Some(JStr(Calendar.DatePart(date)))
    ensures forall k | k != "date" :: Lookup(r, k) == Lookup(note, k)
  {
    var copy := Spread([], note);
    forall k ensures Lookup(copy, k) == Lookup(note, k) {
      SpreadLookup([], note, k);
    }
    Put(copy, "date", JStr(Calendar.DatePart(date)))
  }

  /** What saveNote returns, the disk it leaves and the error it reports. */
  function Saved(d: Storage.Disk, dataDirectory: Option<Json>, notesBaseDir: Option<Json>, patient: Json, note: Fields)
    : (r: (bool, Storage.Disk, Option<string>))
    ensures !Truthy(dataDirectory) ==> r == (false, d, Some(SaveNotConfigured))
    ensures r.0 <==> r.2.None?
    ensures !r.0 ==> r.1 == d
    ensures r.0 ==>
      GetNotePath(dataDirectory, notesBaseDir, patient, Lookup(note, "date")).Some? &&
      Storage.Read(r.1, Segments(GetNotePath(dataDirectory, notesBaseDir, patient, Lookup(note, "date")).value)) ==
        Ok(Some(JsonText(JObj(NoteToSave(note, Lookup(note, "date").value.s)))))
  {
    if !Truthy(dataDirectory) then (false, d, Some(SaveNotConfigured))
    else match GetNotePath(dataDirectory, notesBaseDir, patient, Lookup(note, "date"))
      case None => (false, d, Some(NoSavePath))
      case Some(path) =>
        var toSave := NoteToSave(note, Lookup(note, "date").value.s);
        match FS.WriteFileAbsolute(d, path, JsonText(JObj(toSave)))
        case Err(m) => (false, d, Some(SaveFailed + m))
        case Ok(written) => (true, written, None)
  }

  /**
   * Saving a note and then loading it for any timestamp of the same day gives
   * back the saved note: its content as it was, its date cut to the day.
   */
  lemma SaveThenLoad(d: Storage.Disk, dataDirectory: Option<Json>, notesBaseDir: Option<Json>, patient: Json,
                     note: Fields, savedDate: string, date: string)
    requires Lookup(note, "date") == Some(JStr(savedDate))
    requires Calendar.DatePart(date) == Calendar.DatePart(savedDate)
    requires Saved(d, dataDirectory, notesBaseDir, patient, note).0
    ensures Loaded(Saved(d, dataDirectory, notesBaseDir, patient, note).1, dataDirectory, notesBaseDir, patient, date) ==
            (Some(JObj(NoteToSave(note, savedDate))), None)
    ensures Get(JObj(NoteToSave(note, savedDate)), "content") == Lookup(note, "content")
    ensures Get(JObj(NoteToSave(note, savedDate)), "date") == Some(JStr(Calendar.DatePart(date)))
  {
    var written := Saved(d, dataDirectory, notesBaseDir, patient, note).1;
    var saved := NoteToSave(note, savedDate);
    var path := SavedAt(d, dataDirectory, notesBaseDir, patient, note, savedDate);
    SameDaySamePath(dataDirectory, notesBaseDir, patient, date, savedDate);
    LoadWritten(written, dataDirectory, notesBaseDir, patient, date, path, saved);
    SavedFields(note, savedDate);
  }

  /** The saved note keeps the content and carries the day of its date. */
  lemma SavedFields(note: Fields, savedDate: string)
    ensures Lookup(NoteToSave(note, savedDate), "content") == Lookup(note, "content")
    ensures Get(JObj(NoteToSave(note, savedDate)), "content") == Lookup(note, "content")
    ensures Get(JObj(NoteToSave(note, savedDate)), "date") == Some(JStr(Calendar.DatePart(savedDate)))
  {
    var saved := NoteToSave(note, savedDate);
    var content := "content";
    assert content != "date" by { assert content[0] == 'c'; }
    assert Lookup(saved, content) == Lookup(note, content);
    assert Get(JObj(saved), content) == Lookup(saved, content);
    assert Get(JObj(saved), "date") == Lookup(saved, "date");
  }

  /** A successful save changes the read of no path apart from the note's own file. */
  lemma SavedFrame(d: Storage.Disk, dataDirectory: Option<Json>, notesBaseDir: Option<Json>, patient: Json, note: Fields)
    requires Saved(d, dataDirectory, notesBaseDir, patient, note).0
    ensures forall q | Apart(Segments(GetNotePath(dataDirectory, notesBaseDir, patient, Lookup(note, "date")).value), q) ::
      Storage.Read(Saved(d, dataDirectory, notesBaseDir, patient, note).1, q) == Storage.Read(d, q)
  {
    var path := GetNotePath(dataDirectory, notesBaseDir, patient, Lookup(note, "date")).value;
    FS.WriteAbsoluteFrame(d, path, JsonText(JObj(NoteToSave(note, Lookup(note, "date").value.s))));
  }

  /** getNotePath looks only at the part of the date before 'T'. */
  lemma SameDaySamePath(dataDirectory: Option<Json>, notesBaseDir: Option<Json>, patient: Json, a: string, b: string)
    requires Calendar.DatePart(a) == Calendar.DatePart(b)
    ensures GetNotePath(dataDirectory, notesBaseDir, patient, Some(JStr(a))) ==
            GetNotePath(dataDirectory, notesBaseDir, patient, Some(JStr(b)))
  {
    assert FileName(a) == FileName(b);
  }

  /** A successful save leaves the saved note readable at the path for its date. */
  lemma SavedAt(d: Storage.Disk, dataDirectory: Option<Json>, notesBaseDir: Option<Json>, patient: Json,
                note: Fields, savedDate: string) returns (path: string)
    requires Lookup(note, "date") == Some(JStr(savedDate))
    requires Saved(d, dataDirectory, notesBaseDir, patient, note).0
    ensures Truthy(dataDirectory)
    ensures GetNotePath(dataDirectory, notesBaseDir, patient, Some(JStr(savedDate))) == Some(path)
    ensures FS.ReadFileAbsolute(Saved(d, dataDirectory, notesBaseDir, patient, note).1, path) ==
            Ok(Some(JsonText(JObj(NoteToSave(note, savedDate)))))
  {
    path := GetNotePath(dataDirectory, notesBaseDir, patient, Some(JStr(savedDate))).value;
    FS.WrittenIsThere(Saved(d, dataDirectory, notesBaseDir, patient, note).1, path, JsonText(JObj(NoteToSave(note, savedDate))));
  }

  /** A load whose path holds an object written as JSON gives that object back. */
  lemma LoadWritten(d: Storage.Disk, dataDirectory: Option<Json>, notesBaseDir: Option<Json>, patient: Json, date: string,
                    path: string, fields: Fields)
    requires Truthy(dataDirectory)
    requires GetNotePath(dataDirectory, notesBaseDir, patient, Some(JStr(date))) == Some(path)
    requires FS.ReadFileAbsolute(d, path) == Ok(Some(JsonText(JObj(fields))))
    ensures Loaded(d, dataDirectory, notesBaseDir, patient, date) == (Some(JObj(fields)), None)
  {
    WrittenTextIsTruthy(JObj(fields));
  }

  /** The editor's state: the disk it reads and writes, and its two refs. */
  class Editor {
    var disk: Storage.Disk
    var isLoading: bool
    var error: Option<string>

    constructor (d: Storage.Disk)
      ensures disk == d && !isLoading && error.None?
    {
      disk := d;
      isLoading := false;
      error := None;
    }

    /**
     * loadNote. Without a data directory it only sets `error`; otherwise it
     * clears `error`, reads, and leaves `isLoading` false on every return.
     */
    method LoadNote(dataDirectory: Option<Json>, notesBaseDir: Option<Json>, patient: Json, date: string)
      returns (note: Option<Json>)
      modifies this
      ensures disk == old(disk)
      ensures (note, error) == Loaded(disk, dataDirectory, notesBaseDir, patient, date)
      ensures isLoading == (if Truthy(dataDirectory) then false else old(isLoading))
    {
      if !Truthy(dataDirectory) {
        error := Some(LoadNotConfigured);
        return None;
      }
      isLoading := true;
      error := None;
      var absolutePath := GetNotePath(dataDirectory, notesBaseDir, patient, Some(JStr(date)));
      if absolutePath.None? {
        error := Some(NoLoadPath);
        isLoading := false;
        return None;
      }
      assert Loaded(disk, dataDirectory, notesBaseDir, patient, date) == ReadNote(disk, absolutePath.value, date);
      var fileContent := FS.ReadFileAbsolute(disk, absolutePath.value);
      if fileContent.Err? {
        error := Some(LoadFailed + fileContent.error);
        note := None;
      } else if fileContent.value.None? || Text(fileContent.value.value) == "" {
        note := Some(EmptyNote(date));
      } else {
        var parsed := Parse(fileContent.value.value);
        if parsed.Err? {
          error := Some(LoadFailed + parsed.error);
          note := None;
        } else {
          note := Some(parsed.value);
        }
      }
      isLoading := false;
    }

    /**
     * saveNote. Without a data directory it only sets `error`; otherwise it
     * writes the note with its date cut to the day and leaves `isLoading`
     * false on every return.
     */
    method SaveNote(dataDirectory: Option<Json>, notesBaseDir: Option<Json>, patient: Json, note: Fields)
      returns (ok: bool)
      modifies this
      ensures (ok, disk, error) == Saved(old(disk), dataDirectory, notesBaseDir, patient, note)
      ensures isLoading == (if Truthy(dataDirectory) then false else old(isLoading))
    {
      if !Truthy(dataDirectory) {
        error := Some(SaveNotConfigured);
        return false;
      }
      isLoading := true;
      error := None;
      var absolutePath := GetNotePath(dataDirectory, notesBaseDir, patient, Lookup(note, "date"));
      if absolutePath.None? {
        error := Some(NoSavePath);
        isLoading := false;
        return false;
      }
      var noteToSave := NoteToSave(note, Lookup(note, "date").value.s);
      var written := FS.WriteFileAbsolute(disk, absolutePath.value, JsonText(JObj(noteToSave)));
      if written.Err? {
        error := Some(SaveFailed + written.error);
        ok := false;
      } else {
        disk := written.value;
        ok := true;
      }
      isLoading := false;
    }
  }
}
