/**
 * The patient-list store (src/composables/usePatientData.ts): the state that
 * every caller of usePatientData shares, and the operations that load, save
 * and change the list of the active date and move notes between a patient's
 * directories.
 *
 * The store takes the configured data directory as a string; "not set" is
 * the empty string (isDataDirectorySet is `!!dataDirectory`).
 */
module PatientData {
  import opened Base
  import opened JsonModel
  import opened Paths
  import Storage
  import FS = FileSystemAccess
  import opened Patients
  import Calendar
  import Sorting

  // The messages the store reports, word for word.
  const AddSaveFailed: string := "Failed to add patient: Failed to save updated patient list after adding patient."
  const AddFailed: string := "Failed to add patient: "
  const AddUnset: string := "addPatient: Data directory not configured or invalid."
  const SaveNoPath: string := "savePatients: Could not determine patients file path."
  const SaveNotList: string := "savePatients: Invalid input, expected Patient[]."
  const SaveFailed: string := "Failed to save patients: "
  const LoadNotList: string := "parsedPatients.map is not a function"
  const LoadFailed: string := "Failed to load patients: "
  const MergeNoDir: string := "UUID notes directory not found."
  const MergeNoFile: string := "Patients file not found or empty."
  const MergeFailed: string := "Failed to merge patient data: "
  const FindNotList: string := "parsedPatients.findIndex is not a function"
  const UuidPrefix: string := "Patient with UUID "
  const NotFoundSuffix: string := " not found."
  const UpdateUnset: string := "Cannot update patient: Data directory not configured."
  const UpdateFailed: string := "Failed to update patient: "
  const UpdateSaveFailed: string := "Failed to update patient: Failed to save updated patient list."
  const IdPrefix: string := "Patient with ID "
  const NotListedSuffix: string := " not found in the list."
  const RemoveUnknown: string := "Patient not found."
  const RemoveUnset: string := "Cannot remove patient: Data directory not configured or invalid."
  const RemoveFailed: string := "Failed to remove patient: "
  const RemoveSaveFailed: string := "Failed to remove patient: Failed to save patient list after removing patient."
  const ToDateFailed: string := "Failed to add patients to date: "
  const ExistingNotList: string := "existingPatients.map is not a function"

  // ---------------------------------------------------------------------------
  // getPatientsFilePath and getPatientNotesDir

  /** `<data directory>/patients_<date>.json`, or null when no data directory is set. */
  function ListPath(dataDirectory: string, date: string): (r: Option<string>)
    ensures r.Some? <==> dataDirectory != ""
  {
    if dataDirectory == "" then None
    else Some(FS.Join2(Str(dataDirectory), Str(ListFileName(date))).value)
  }

  /** The list file is the list file name's segments under the data directory. */
  lemma ListPathSegments(dataDirectory: string, date: string)
    requires dataDirectory != ""
    ensures Segments(ListPath(dataDirectory, date).value) == Segments(dataDirectory) + Segments(ListFileName(date))
  {
    FS.StrSegments(dataDirectory);
    FS.StrSegments(ListFileName(date));
  }

  /** `<data directory>/notes/by-<kind>/<id>`, or null when no data directory is set. */
  function NotesDir(dataDirectory: string, kind: FS.OwnerKind, id: Arg): (r: Option<string>)
    ensures r.Some? <==> dataDirectory != ""
  {
    if dataDirectory == "" then None
    else Some(FS.OwnerDir(JStr(dataDirectory), (kind, id)).value)
  }

  /** A notes directory is notes/by-<kind>/<id> under the data directory. */
  lemma NotesDirSegments(dataDirectory: string, kind: FS.OwnerKind, id: Arg)
    requires dataDirectory != ""
    ensures Segments(NotesDir(dataDirectory, kind, id).value) == Segments(dataDirectory) + [FS.Notes, FS.KindDir(kind)] + FS.ArgSegments([id])
  {
    FS.StrSegments(dataDirectory);
  }

  /** A uuid notes directory and a umrn notes directory never contain one another. */
  lemma NotesDirsApart(dataDirectory: string, a: Arg, b: Arg)
    requires dataDirectory != ""
    ensures Apart(Segments(NotesDir(dataDirectory, FS.ByUuid, a).value), Segments(NotesDir(dataDirectory, FS.ByUmrn, b).value))
  {
    NotesDirSegments(dataDirectory, FS.ByUuid, a);
    NotesDirSegments(dataDirectory, FS.ByUmrn, b);
    var pre := Segments(dataDirectory);
    FS.Regroup(pre, FS.Notes, FS.KindDir(FS.ByUuid), FS.ArgSegments([a]));
    FS.Regroup(pre, FS.Notes, FS.KindDir(FS.ByUmrn), FS.ArgSegments([b]));
    FS.KindDirsDiffer();
    ApartBranch(pre + [FS.Notes], FS.KindDir(FS.ByUuid), FS.KindDir(FS.ByUmrn), FS.ArgSegments([a]), FS.ArgSegments([b]));
  }

  /** The text before the first separator of `a + b`, when `a` has none. */
  lemma {:induction false} SplitHead(a: string, b: string, c: char)
    requires c !in a
    ensures Split(a + b, c)[0] == a + Split(b, c)[0]
  {
    if a == [] {
      assert a + b == b;
    } else {
      FirstOfAppend(a, b, c);
      SplitHead(a[1..], b, c);
      assert [a[0]] + a[1..] == a;
    }
  }

  /** A snapshot file name resolves to segments whose first one starts with 'p'. */
  lemma ListFileHead(date: string)
    ensures |Segments(ListFileName(date))| > 0 && Segments(ListFileName(date))[0][0] == 'p'
  {
    var prefix := "patients_";
    assert '/' !in prefix by {
      assert forall i | 0 <= i < |prefix| :: prefix[i] != '/';
    }
    assert ListFileName(date) == prefix + (date + ".json");
    SplitHead(prefix, date + ".json", '/');
    var pieces := Split(ListFileName(date), '/');
    assert pieces[0][0] == 'p' && |pieces[0]| >= 9;
    assert IsSegment(pieces[0]);
  }

  /** The patient list file lies outside every notes directory. */
  lemma ListApartFromNotes(dataDirectory: string, date: string, kind: FS.OwnerKind, id: Arg)
    requires dataDirectory != ""
    ensures Apart(Segments(ListPath(dataDirectory, date).value), Segments(NotesDir(dataDirectory, kind, id).value))
  {
    var n := |Segments(dataDirectory)|;
    ListPathSegments(dataDirectory, date);
    NotesDirSegments(dataDirectory, kind, id);
    ListFileHead(date);
    var p := Segments(ListPath(dataDirectory, date).value);
    var q := Segments(NotesDir(dataDirectory, kind, id).value);
    assert p[n] == Segments(ListFileName(date))[0] && q[n] == FS.Notes;
    assert p[n][0] != q[n][0];
    ApartAt(p, q, n);
  }

  // ---------------------------------------------------------------------------
  // What loadPatients reads and what savePatients writes.

  /** `{ ...patient, type: patient.umrn ? "umrn" : "uuid" }`. */
  function LoadedPatient(p: Json): (r: Json)
    ensures r.JObj?
    ensures Get(r, "type") == Some(JStr(if Truthy(Get(p, "umrn")) then "umrn" else "uuid"))
    ensures forall k | k != "type" :: Get(r, k) == Get(p, k)
  {
    var base := Spread([], Entries(p));
    assert forall k :: Lookup(base, k) == Get(p, k) by {
      forall k ensures Lookup(base, k) == Get(p, k) {
        SpreadLookup([], Entries(p), k);
      }
    }
    JObj(Put(base, "type", JStr(if Truthy(Get(p, "umrn")) then "umrn" else "uuid")))
  }

  /** `parsedPatients.map(...)`: only an array has `map`, and a null entry throws on `.umrn`. */
  function Loaded(j: Json): (r: Result<seq<Json>>)
    ensures j.JNull? ==> r == Err(NullRead("map"))
    ensures !j.JNull? && !j.JArr? ==> r == Err(LoadNotList)
    ensures j.JArr? ==> (r.Err? <==> JNull in j.items)
    ensures j.JArr? && r.Err? ==> r.error == NullRead("umrn")
    ensures r.Ok? ==> |r.value| == |j.items| && forall i | 0 <= i < |j.items| :: r.value[i] == LoadedPatient(j.items[i])
  {
    match j
    case JNull => Err(NullRead("map"))
    case JArr(items) =>
      if JNull in items then Err(NullRead("umrn"))
      else Ok(seq(|items|, i requires 0 <= i < |items| => LoadedPatient(items[i])))
    case _ => Err(LoadNotList)
  }

  /**
   * What loadPatients finds at `path`: a failure message, nothing (no file,
   * or an empty one), or the loaded list.
   */
  function ReadList(d: Storage.Disk, path: string): (r: Result<Option<seq<Json>>>)
    ensures FS.ReadFileAbsolute(d, path).Err? ==> r == Err(FS.ReadFileAbsolute(d, path).error)
    ensures FS.ReadFileAbsolute(d, path) == Ok(None) ==> r == Ok(None)
    ensures r.Ok? && r.value.Some? ==> forall i | 0 <= i < |r.value.value| ::
      r.value.value[i].JObj? && Get(r.value.value[i], "type") in {Some(JStr("umrn")), Some(JStr("uuid"))}
  {
    match FS.ReadFileAbsolute(d, path)
    case Err(e) => Err(e)
    case Ok(None) => Ok(None)
    case Ok(Some(c)) =>
      if Text(c) == "" then Ok(None)
      else match Parse(c)
        case Err(e) => Err(e)
        case Ok(j) =>
          match Loaded(j)
          case Err(e) => Err(e)
          case Ok(list) => Ok(Some(list))
  }

  /**
   * savePatients once the path is known: refuse anything but an array, keep
   * the twelve patient properties of each entry and write the list as JSON.
   */
  function Saved(d: Storage.Disk, path: string, input: Json): (r: Result<(Storage.Disk, seq<Json>)>)
    ensures !input.JArr? ==> r == Err(SaveNotList)
    ensures input.JArr? && JNull in input.items ==> r == Err(SaveFailed + NullRead("id"))
    ensures input.JArr? && JNull !in input.items && FS.WriteFileAbsolute(d, path, JsonText(JArr(SanitizeAll(input.items).value))).Err? ==>
      r == Err(SaveFailed + FS.WriteFileAbsolute(d, path, JsonText(JArr(SanitizeAll(input.items).value))).error)
    ensures r.Ok? ==> (input.JArr? && |r.value.1| == |input.items| &&
      forall i | 0 <= i < |input.items| :: r.value.1[i] == Sanitize(input.items[i]))
    ensures r.Ok? ==> Storage.Read(r.value.0, Segments(path)) == Ok(Some(JsonText(JArr(r.value.1))))
    ensures r.Ok? ==> Storage.Write(d, Segments(path), JsonText(JArr(r.value.1))) == Ok(r.value.0)
    ensures r.Ok? && Storage.Valid(d) ==> Storage.Valid(r.value.0)
  {
    if !input.JArr? then Err(SaveNotList)
    else match SanitizeAll(input.items)
      case Err(e) => Err(SaveFailed + e)
      case Ok(sanitized) =>
        match FS.WriteFileAbsolute(d, path, JsonText(JArr(sanitized)))
        case Err(e) => Err(SaveFailed + e)
        case Ok(d') => Ok((d', sanitized))
  }

  /** A saved list loads back as the saved objects, each tagged by whether it has a umrn. */
  lemma SaveThenLoad(d: Storage.Disk, path: string, input: Json)
    requires Saved(d, path, input).Ok?
    ensures var (d', saved) := Saved(d, path, input).value;
      ReadList(d', path) == Ok(Some(seq(|saved|, i requires 0 <= i < |saved| => LoadedPatient(saved[i]))))
  {
    var (d', saved) := Saved(d, path, input).value;
    assert path != "";
    assert FS.ReadFileAbsolute(d', path) == Ok(Some(JsonText(JArr(saved))));
    WrittenTextIsTruthy(JArr(saved));
    assert JNull !in saved by {
      forall i | 0 <= i < |saved| ensures saved[i] != JNull {
        assert saved[i].JObj?;
      }
    }
  }

  /** The whole state of the store, for stating what an operation leaves alone. */
  datatype State = State(
    disk: Storage.Disk,
    patients: seq<Json>,
    customOrder: seq<Json>,
    identifiers: map<string, Json>,
    error: Option<string>,
    isLoading: bool,
    activeDate: string,
    availableDates: seq<string>)

  /**
   * The module-level refs of usePatientData, and the filesystem behind the
   * bridge that its operations read and write.
   */
  class PatientStore {
    var disk: Storage.Disk
    var patients: seq<Json>
    var customOrder: seq<Json>
    var identifiers: map<string, Json>
    var error: Option<string>
    var isLoading: bool
    var activeDate: string
    var availableDates: seq<string>

    ghost predicate Valid()
      reads this
    {
      Storage.Valid(disk)
    }

    function Snapshot(): State
      reads this
    {
      State(disk, patients, customOrder, identifiers, error, isLoading, activeDate, availableDates)
    }

    /** The initial refs: empty lists, and today's date (the date part of the ISO timestamp) as the active date. */
    constructor (d: Storage.Disk, today: Calendar.Date, time: string)
      requires Storage.Valid(d) && Calendar.Valid(today)
      ensures Valid()
      ensures Snapshot() == State(d, [], [], map[], None, false, Calendar.FormatIso(today), [])
    {
      disk := d;
      patients := [];
      customOrder := [];
      identifiers := map[];
      error := None;
      isLoading := false;
      Calendar.DatePartOfTimestamp(today, time);
      activeDate := Calendar.DatePart(Calendar.FormatIso(today) + "T" + time);
      availableDates := [];
    }

    /**
     * updatePatientIdentifierArray: map each truthy name to its truthy umrn,
     * the last patient winning. The map is replaced only once the whole list
     * has been read; a null entry throws on `.name` and leaves it as it was.
     */
    method UpdatePatientIdentifierArray(list: seq<Json>) returns (r: Result<()>)
      modifies this
      ensures JNull in list ==> r == Err(NullRead("name")) && Snapshot() == old(Snapshot())
      ensures JNull !in list ==> r == Ok(()) && Snapshot() == old(Snapshot()).(identifiers := IdentifierMap(list))
    {
      var newMap: map<string, Json> := map[];
      for i := 0 to |list|
        invariant JNull !in list[..i]
        invariant newMap == IdentifierMap(list[..i])
      {
        assert list[..i + 1][..i] == list[..i];
        var p := list[i];
        if p == JNull {
          return Err(NullRead("name"));
        }
        if Truthy(Get(p, "name")) && Truthy(Get(p, "umrn")) {
          newMap := newMap[JsString(Get(p, "name").value) := Get(p, "umrn").value];
        }
      }
      assert list[..|list|] == list;
      identifiers := newMap;
      return Ok(());
    }

    /**
     * listAvailablePatientListDates: the dates of the data directory's
     * snapshot files, most recent first. A failed listing gives none.
     */
    method ListAvailablePatientListDates(dataDirectory: string) returns (dates: seq<string>)
      modifies this
      ensures dataDirectory == "" ==> dates == [] && Snapshot() == old(Snapshot())
      ensures dataDirectory != "" ==> Snapshot() == old(Snapshot()).(availableDates := dates)
      ensures forall i, j | 0 <= i < j < |dates| :: Sorting.Less(dates[j], dates[i])
      ensures dataDirectory != "" && FS.ListFiles(disk, dataDirectory).Ok? && FS.ListFiles(disk, dataDirectory).value.Some? ==>
        forall x :: x in dates <==> IsDateText(x) && ListFileName(x) in FS.ListFiles(disk, dataDirectory).value.value
      ensures FS.ListFiles(disk, dataDirectory).Err? || FS.ListFiles(disk, dataDirectory) == Ok(None) ==> dates == []
    {
      if dataDirectory == "" {
        return [];
      }
      var listed := FS.ListFiles(disk, dataDirectory);
      if listed.Err? {
        availableDates := [];
        return [];
      }
      var files: seq<string> := [];
      if listed.value.Some? {
        files := Enumerate(listed.value.value);
      }
      dates := SnapshotDates(files);
      SnapshotDatesDescending(files);
      forall x ensures x in dates <==> IsDateText(x) && ListFileName(x) in files {
        SnapshotDatesMembers(files, x);
        if IsDateText(x) && ListFileName(x) in files {
          MatchListFileName(x);
          var i :| 0 <= i < |files| && files[i] == ListFileName(x);
          assert MatchListName(files[i]) == Some(x);
        }
      }
      availableDates := dates;
    }

    /**
     * moveFiles: create the target, copy in every entry of the source whose
     * read is not null, then remove the source. Entries that read as null are
     * skipped, and the source is removed all the same.
     */
    method MoveFiles(src: string, tgt: string) returns (r: Result<()>)
      requires Valid()
      modifies this
      ensures Valid()
      ensures Snapshot() == old(Snapshot()).(disk := disk)
      ensures disk.faulty == old(disk).faulty
      ensures FS.MkdirAbsolute(old(disk), tgt).Err? ==> r == Err(FS.MkdirAbsolute(old(disk), tgt).error) && disk == old(disk)
      ensures Apart(Segments(src), Segments(tgt)) ==> Framed(old(disk), disk, Segments(src), Segments(tgt))
      ensures Apart(Segments(src), Segments(tgt)) && r.Ok? ==> !Storage.Accessible(disk, Segments(src))
      ensures Apart(Segments(src), Segments(tgt)) && r.Ok? ==> Copied(old(disk), disk, Segments(src), Segments(tgt))
    {
      var S, T := Segments(src), Segments(tgt);
      ghost var d0 := disk;
      var made := FS.MkdirAbsolute(disk, tgt);
      if made.Err? {
        return Err(made.error);
      }
      if Apart(S, T) {
        MkdirStep(d0, S, T, []);
      }
      disk := made.value;
      var listed := FS.ListFiles(disk, src);
      if listed.Err? {
        return Err(listed.error);
      }
      var names: seq<string> := [];
      if listed.value.Some? {
        names := Enumerate(listed.value.value);
        Storage.ChildrenSegments(disk, S);
      } else {
        Storage.NoChildren(disk, S);
      }
      assert forall f :: f in names <==> f in Storage.Children(disk, S);
      if Apart(S, T) {
        MkdirStep(d0, S, T, names);
      }
      r := CopyEach(src, tgt, names, d0);
      if r.Err? {
        return r;
      }
      var removed := FS.RmdirAbsolute(disk, src);
      if removed.Err? {
        return Err(removed.error);
      }
      if Apart(S, T) {
        RemoveStep(d0, disk, S, T, names);
        MovedAll(d0, removed.value, S, T, names);
      }
      disk := removed.value;
      return Ok(());
    }

    /** The `for (const file of files)` loop of moveFiles. */
    method CopyEach(src: string, tgt: string, names: seq<string>, ghost d0: Storage.Disk) returns (r: Result<()>)
      requires Valid() && Sorting.Distinct(names) && forall f | f in names :: IsSegment(f)
      requires Apart(Segments(src), Segments(tgt)) ==> MoveInv(d0, disk, Segments(src), Segments(tgt), names, 0)
      modifies this
      ensures Valid()
      ensures Snapshot() == old(Snapshot()).(disk := disk)
      ensures disk.faulty == old(disk).faulty
      ensures Apart(Segments(src), Segments(tgt)) ==> Framed(d0, disk, Segments(src), Segments(tgt))
      ensures Apart(Segments(src), Segments(tgt)) && r.Ok? ==> MoveInv(d0, disk, Segments(src), Segments(tgt), names, |names|)
    {
      var S, T := Segments(src), Segments(tgt);
      var i := 0;
      while i < |names|
        invariant i <= |names|
        invariant Valid()
        invariant Snapshot() == old(Snapshot()).(disk := disk)
        invariant disk.faulty == old(disk).faulty
        invariant Apart(S, T) ==> MoveInv(d0, disk, S, T, names, i)
      {
        var f := names[i];
        assert f in names;
        var sourcePath := Inside(src, f);
        var targetPath := Inside(tgt, f);
        var content := FS.ReadFileAbsolute(disk, sourcePath);
        if content.Err? {
          return Err(content.error);
        }
        if content.value.Some? {
          var written := FS.WriteFileAbsolute(disk, targetPath, content.value.value);
          if written.Err? {
            return Err(written.error);
          }
          if Apart(S, T) {
            CopyStep(d0, disk, S, T, names, i, content.value.value);
          }
          disk := written.value;
        } else if Apart(S, T) {
          SkipStep(d0, disk, S, T, names, i);
        }
        i := i + 1;
      }
      return Ok(());
    }

    /**
     * addPatient: refuse without a data directory; without a umrn, offer
     * the patient of the same name first; then create the notes directory
     * (unless the umrn's is already there), append the patient and save,
     * removing the directory again when anything fails.
     */
    method AddPatient(dataDirectory: string, data: Fields, response: int, freshId: string) returns (r: Option<Json>)
      requires Valid()
      modifies this
      ensures Valid()
      ensures (Snapshot(), r) == AddState(old(Snapshot()), dataDirectory, data, response, freshId)
    {
      if dataDirectory == "" {
        error := Some(AddUnset);
        isLoading := false;
        return None;
      }
      isLoading := true;
      error := None;
      r := CheckDuplicate(dataDirectory, data, response, freshId);
    }

    /** For a patient without a umrn, look for one of the same name first. */
    method CheckDuplicate(dataDirectory: string, data: Fields, response: int, freshId: string) returns (r: Option<Json>)
      requires Valid() && dataDirectory != ""
      modifies this
      ensures Valid()
      ensures (Snapshot(), r) == DuplicateState(old(Snapshot()), dataDirectory, data, response, freshId)
    {
      ghost var s0 := Snapshot();
      if !Truthy(Lookup(data, "umrn")) {
        var dup := FindIndex(patients, "name", NameIs(Lookup(data, "name")));
        if dup.Err? {
          error := Some(AddFailed + dup.error);
          isLoading := false;
          assert DuplicateState(s0, dataDirectory, data, response, freshId) == (Snapshot(), None);
          return None;
        }
        if dup.value.Some? && Truthy(Some(patients[dup.value.value])) {
          if response == 1 {
            isLoading := false;
            r := Some(patients[dup.value.value]);
            assert DuplicateState(s0, dataDirectory, data, response, freshId) == (Snapshot(), r);
            return;
          } else if response != 2 {
            isLoading := false;
            assert DuplicateState(s0, dataDirectory, data, response, freshId) == (Snapshot(), None);
            return None;
          }
        }
      }
      assert DuplicateState(s0, dataDirectory, data, response, freshId) == CreateState(s0, dataDirectory, data, freshId);
      r := CreatePatient(dataDirectory, data, freshId);
    }

    /** The creating half of addPatient. */
    method CreatePatient(dataDirectory: string, data: Fields, freshId: string) returns (r: Option<Json>)
      requires Valid() && dataDirectory != ""
      modifies this
      ensures Valid()
      ensures (Snapshot(), r) == CreateState(old(Snapshot()), dataDirectory, data, freshId)
    {
      var p := NewPatient(data, freshId);
      var dir := NewPatientDir(dataDirectory, data, freshId);
      if Truthy(Lookup(data, "umrn")) {
        r := ProbeNotesDir(dataDirectory, p, dir);
      } else {
        r := MakeNotesDir(dataDirectory, p, dir, false);
      }
    }

    /** A umrn patient: see whether the umrn's notes directory is already there. */
    method ProbeNotesDir(dataDirectory: string, p: Json, dir: string) returns (r: Option<Json>)
      requires Valid()
      modifies this
      ensures Valid()
      ensures (Snapshot(), r) == ProbeDirState(old(Snapshot()), dataDirectory, p, dir)
    {
      var probe := FS.ExistsAbsolute(disk, dir);
      if probe.Err? {
        error := Some(AddFailed + probe.error);
        isLoading := false;
        return None;
      }
      r := MakeNotesDir(dataDirectory, p, dir, probe.value);
    }

    /** Create the notes directory unless it `existed`, then store the patient. */
    method MakeNotesDir(dataDirectory: string, p: Json, dir: string, existed: bool) returns (r: Option<Json>)
      requires Valid()
      modifies this
      ensures Valid()
      ensures (Snapshot(), r) == MakeDirState(old(Snapshot()), dataDirectory, p, dir, existed)
    {
      if !existed {
        var made := FS.MkdirAbsolute(disk, dir);
        if made.Err? {
          error := Some(AddFailed + made.error);
          CleanUpNotesDir(dir);
          isLoading := false;
          return None;
        }
        disk := made.value;
      }
      r := StoreNewPatient(dataDirectory, p, dir, existed);
    }

    /** Append the new patient and save, cleaning up when that fails. */
    method StoreNewPatient(dataDirectory: string, p: Json, dir: string, existed: bool) returns (r: Option<Json>)
      requires Valid()
      modifies this
      ensures Valid()
      ensures (Snapshot(), r) == StoreNewState(old(Snapshot()), dataDirectory, p, dir, existed)
    {
      var ok := SavePatients(dataDirectory, JArr(patients + [p]));
      if ok {
        isLoading := false;
        r := Some(p);
      } else {
        AbandonNewPatient(dir, existed);
        r := None;
      }
    }

    /** A failed save: report it, remove the notes directory and stop loading. */
    method AbandonNewPatient(dir: string, existed: bool)
      requires Valid()
      modifies this
      ensures Valid()
      ensures Snapshot() == old(Snapshot()).(disk := FailedAddDisk(old(disk), dir, existed),
        error := Some(AddSaveFailed), isLoading := false)
    {
      error := Some(AddSaveFailed);
      RemoveNotesDir(dir, existed);
      isLoading := false;
    }

    method CleanUpNotesDir(dir: string)
      requires Valid()
      modifies this
      ensures Valid()
      ensures Snapshot() == old(Snapshot()).(disk := CleanUp(old(disk), dir))
    {
      disk := CleanUp(disk, dir);
    }

    /**
     * The cleanup after a failed save: remove the directory addPatient made
     * (not one that was already there), then, in the outer catch, remove
     * whatever directory is there; every failure is ignored.
     */
    method RemoveNotesDir(dir: string, existed: bool)
      requires Valid()
      modifies this
      ensures Valid()
      ensures Snapshot() == old(Snapshot()).(disk := FailedAddDisk(old(disk), dir, existed))
    {
      if !existed {
        disk := RemoveQuietly(disk, dir);
      }
      disk := CleanUp(disk, dir);
    }

    /** setActivePatientListDate: make `date` the active date and load its list. */
    method SetActivePatientListDate(configLoaded: bool, dataDirectory: string, date: string)
      requires Valid()
      modifies this
      ensures Valid()
      ensures Snapshot() == LoadState(old(Snapshot()).(activeDate := date), configLoaded, dataDirectory)
    {
      activeDate := date;
      LoadPatients(configLoaded, dataDirectory);
    }

    /**
     * loadPatients: the list file of the active date replaces the patient
     * list and the custom order; a missing or empty file empties both; a
     * failure empties both and records the message.
     */
    method LoadPatients(configLoaded: bool, dataDirectory: string)
      requires Valid()
      modifies this
      ensures Valid()
      ensures Snapshot() == LoadState(old(Snapshot()), configLoaded, dataDirectory)
    {
      if !configLoaded || dataDirectory == "" {
        patients := [];
        customOrder := [];
        return;
      }
      isLoading := true;
      error := None;
      var path := ListPath(dataDirectory, activeDate).value;
      var found := ReadList(disk, path);
      match found {
        case Err(e) =>
          error := Some(LoadFailed + e);
          patients := [];
          customOrder := [];
          var _ := UpdatePatientIdentifierArray([]);
        case Ok(None) =>
          patients := [];
          customOrder := [];
          var _ := UpdatePatientIdentifierArray([]);
        case Ok(Some(list)) =>
          patients := list;
          customOrder := list;
          var _ := UpdatePatientIdentifierArray(list);
      }
      isLoading := false;
    }

    /**
     * savePatients: write the sanitized list to the active date's file and
     * make it the patient list. On failure the message is recorded and
     * nothing else changes.
     */
    method SavePatients(dataDirectory: string, input: Json) returns (ok: bool)
      requires Valid()
      modifies this
      ensures Valid()
      ensures (ok, Snapshot()) == SaveState(old(Snapshot()), dataDirectory, input)
    {
      var path := ListPath(dataDirectory, activeDate);
      if path.None? {
        error := Some(SaveNoPath);
        return false;
      }
      var saved := Saved(disk, path.value, input);
      if saved.Err? {
        error := Some(saved.error);
        return false;
      }
      var sanitized := saved.value.1;
      SavedObjects(disk, path.value, input);
      disk := saved.value.0;
      patients := sanitized;
      var _ := UpdatePatientIdentifierArray(sanitized);
      return true;
    }

    /**
     * mergePatientData: move the notes of the uuid directory into the umrn
     * directory, then rewrite the patient's list entry to the umrn. Without a
     * data directory neither directory can be named and it stops. The
     * source's branch that creates a missing umrn directory cannot run: both
     * directories are named exactly when the data directory is set. The
     * returned ghost values are the disk and the outcome after the move.
     */
    method MergePatientData(dataDirectory: string, uuid: string, umrn: string)
      returns (ok: bool, ghost moved: Storage.Disk, ghost moveResult: Result<()>)
      requires Valid()
      modifies this
      ensures Valid() && !isLoading
      ensures dataDirectory == "" ==> !ok && Snapshot() == old(Snapshot()).(error := Some(MergeNoDir), isLoading := false)
      ensures dataDirectory != "" ==> MovedNotes(old(disk), moved,
        Segments(NotesDir(dataDirectory, FS.ByUuid, Str(uuid)).value),
        Segments(NotesDir(dataDirectory, FS.ByUmrn, Str(umrn)).value), moveResult)
      ensures dataDirectory != "" && moveResult.Err? ==>
        !ok && Snapshot() == old(Snapshot()).(disk := moved, error := Some(MergeFailed + moveResult.error), isLoading := false)
      ensures dataDirectory != "" && moveResult.Ok? ==>
        (Snapshot(), ok) == MergeListState(old(Snapshot()).(disk := moved, error := None, isLoading := true),
          ListPath(dataDirectory, old(activeDate)).value, uuid, umrn, NotesDir(dataDirectory, FS.ByUuid, Str(uuid)).value)
    {
      isLoading := true;
      error := None;
      if dataDirectory == "" {
        error := Some(MergeNoDir);
        isLoading := false;
        return false, disk, Err(MergeNoDir);
      }
      var uuidDir := NotesDir(dataDirectory, FS.ByUuid, Str(uuid)).value;
      var umrnDir := NotesDir(dataDirectory, FS.ByUmrn, Str(umrn)).value;
      NotesDirsApart(dataDirectory, Str(uuid), Str(umrn));
      var m := MoveFiles(uuidDir, umrnDir);
      moved, moveResult := disk, m;
      if m.Err? {
        error := Some(MergeFailed + m.error);
        isLoading := false;
        return false, moved, moveResult;
      }
      ok := RewriteMergedEntry(ListPath(dataDirectory, activeDate).value, uuid, umrn, uuidDir);
    }

    /** Read the list file back and rewrite the entry with the uuid as its id. */
    method RewriteMergedEntry(path: string, uuid: string, umrn: string, uuidDir: string) returns (ok: bool)
      requires Valid()
      modifies this
      ensures Valid()
      ensures (Snapshot(), ok) == MergeListState(old(Snapshot()), path, uuid, umrn, uuidDir)
    {
      var input := ParsedFile(disk, path);
      if input.Err? {
        error := Some(MergeFailed + input.error);
        isLoading := false;
        return false;
      }
      if input.value.None? {
        error := Some(MergeNoFile);
        isLoading := false;
        return false;
      }
      ok := RewriteEntry(path, input.value.value, uuid, umrn, uuidDir);
    }

    /** Find the entry with the uuid as its id and rewrite it to the umrn. */
    method RewriteEntry(path: string, parsed: Json, uuid: string, umrn: string, uuidDir: string) returns (ok: bool)
      requires Valid()
      modifies this
      ensures Valid()
      ensures (Snapshot(), ok) == MergeEntryState(old(Snapshot()), path, parsed, uuid, umrn, uuidDir)
    {
      var found := FindInParsed(parsed, Some(JStr(uuid)));
      if found.Err? {
        error := Some(MergeFailed + found.error);
        isLoading := false;
        return false;
      }
      if found.value.None? {
        error := Some(UuidMissing(uuid));
        isLoading := false;
        return false;
      }
      var i := found.value.value;
      var list := parsed.items[i := MergedEntry(parsed.items[i], umrn)];
      ok := StoreMergedList(path, list, uuidDir);
    }

    /** Write the rewritten list, make it the patient list and remove the uuid directory, ignoring failure. */
    method StoreMergedList(path: string, list: seq<Json>, uuidDir: string) returns (ok: bool)
      requires Valid()
      modifies this
      ensures Valid()
      ensures (Snapshot(), ok) == RewriteState(old(Snapshot()), path, list, uuidDir)
    {
      var written := FS.WriteFileAbsolute(disk, path, JsonText(JArr(list)));
      if written.Err? {
        error := Some(MergeFailed + written.error);
        isLoading := false;
        return false;
      }
      disk := written.value;
      patients := list;
      disk := RemoveQuietly(disk, uuidDir);
      isLoading := false;
      return true;
    }

    /** updatePatient: replace the first entry with the updated patient's id and save. */
    method UpdatePatient(dataDirectory: string, updated: Fields) returns (ok: bool)
      requires Valid()
      modifies this
      ensures Valid()
      ensures (Snapshot(), ok) == UpdateState(old(Snapshot()), dataDirectory, updated)
    {
      if dataDirectory == "" {
        error := Some(UpdateUnset);
        return false;
      }
      isLoading := true;
      error := None;
      ok := ReplacePatient(dataDirectory, updated);
    }

    method ReplacePatient(dataDirectory: string, updated: Fields) returns (ok: bool)
      requires Valid() && dataDirectory != ""
      modifies this
      ensures Valid()
      ensures (Snapshot(), ok) == ReplaceState(old(Snapshot()), dataDirectory, updated)
    {
      var found := FindIndex(patients, "id", IdIs(Lookup(updated, "id")));
      if found.Err? {
        error := Some(UpdateFailed + found.error);
        isLoading := false;
        return false;
      }
      if found.value.None? {
        error := Some(IdMissing(Lookup(updated, "id")));
        isLoading := false;
        return false;
      }
      var current := patients[found.value.value := JObj(Spread([], updated))];
      ok := SavePatients(dataDirectory, JArr(current));
      if !ok {
        error := Some(UpdateSaveFailed);
      }
      isLoading := false;
    }

    /**
     * removePatient: find the patient, make sure the notes directory can be
     * named, ask for confirmation (`response`), then filter the patient out
     * and save. No notes directory is removed. Err means the call throws.
     */
    method RemovePatient(dataDirectory: string, id: string, response: int) returns (r: Result<bool>)
      requires Valid()
      modifies this
      ensures Valid()
      ensures (Snapshot(), r) == RemoveState(old(Snapshot()), dataDirectory, id, response)
    {
      var found := FindIndex(patients, "id", IdIs(Some(JStr(id))));
      if found.Err? {
        return Err(found.error);
      }
      if found.value.None? {
        error := Some(RemoveUnknown);
        return Ok(false);
      }
      if dataDirectory == "" {
        error := Some(RemoveUnset);
        return Ok(false);
      }
      if response != 1 {
        return Ok(false);
      }
      isLoading := true;
      error := None;
      r := RemoveConfirmed(dataDirectory, id);
    }

    method RemoveConfirmed(dataDirectory: string, id: string) returns (r: Result<bool>)
      requires Valid() && dataDirectory != ""
      modifies this
      ensures Valid()
      ensures (Snapshot(), r) == ConfirmedRemoveState(old(Snapshot()), dataDirectory, id)
    {
      var kept := FilterOrThrow(patients, "id", IdIsNot(Some(JStr(id))));
      if kept.Err? {
        error := Some(RemoveFailed + kept.error);
        isLoading := false;
        return Ok(false);
      }
      var saved := SavePatients(dataDirectory, JArr(kept.value));
      if !saved {
        error := Some(RemoveSaveFailed);
      }
      isLoading := false;
      return Ok(saved);
    }

    /** getPatientById: the first listed patient with that id; Err means a null entry came first and the call throws. */
    function GetPatientById(id: string): (r: Result<Option<Json>>)
      reads this
      ensures r.Ok? && r.value.Some? ==> exists i | 0 <= i < |patients| ::
        patients[i] == r.value.value && HasId(patients[i], Some(JStr(id))) &&
        forall j | 0 <= j < i :: patients[j] != JNull && !HasId(patients[j], Some(JStr(id)))
      ensures r.Ok? && r.value.None? ==> forall i | 0 <= i < |patients| :: patients[i] != JNull && !HasId(patients[i], Some(JStr(id)))
      ensures r.Err? ==> r.error == NullRead("id")
    {
      Find(patients, "id", IdIs(Some(JStr(id))))
    }

    /** getPatientByUmrn: the first listed patient of type umrn with that id; a null entry throws on `.type`. */
    function GetPatientByUmrn(umrn: string): (r: Result<Option<Json>>)
      reads this
      ensures r.Ok? && r.value.Some? ==> exists i | 0 <= i < |patients| ::
        patients[i] == r.value.value && UmrnIs(umrn)(patients[i]) &&
        forall j | 0 <= j < i :: patients[j] != JNull && !UmrnIs(umrn)(patients[j])
      ensures r.Ok? && r.value.None? ==> forall i | 0 <= i < |patients| :: patients[i] != JNull && !UmrnIs(umrn)(patients[i])
      ensures r.Err? ==> r.error == NullRead("type")
    {
      Find(patients, "type", UmrnIs(umrn))
    }

    /**
     * addPatientsToDate: add the patients new to the list file of `date`;
     * `today` is the date todayString gives.
     */
    method AddPatientsToDate(dataDirectory: string, toAdd: seq<Json>, date: string, today: string) returns (ok: bool)
      requires Valid()
      modifies this
      ensures Valid()
      ensures (Snapshot(), ok) == ToDateState(old(Snapshot()), dataDirectory, toAdd, date, today)
    {
      if dataDirectory == "" {
        return false;
      }
      var path := ListPath(dataDirectory, date).value;
      var existing := ExistingPatients(disk, path);
      if existing.Err? {
        error := Some(ToDateFailed + existing.error);
        return false;
      }
      var added := FilterOrThrow(toAdd, "id", p => IsNew(existing.value, p));
      if added.Err? {
        error := Some(ToDateFailed + added.error);
        return false;
      }
      if added.value == [] {
        return true;
      }
      ok := AppendToDate(path, existing.value + added.value, date, today);
    }

    method AppendToDate(path: string, updated: seq<Json>, date: string, today: string) returns (ok: bool)
      requires Valid()
      modifies this
      ensures Valid()
      ensures (Snapshot(), ok) == AppendToDateState(old(Snapshot()), path, updated, date, today)
    {
      var written := FS.WriteFileAbsolute(disk, path, JsonText(JArr(updated)));
      if written.Err? {
        error := Some(ToDateFailed + written.error);
        return false;
      }
      disk := written.value;
      if date == today {
        patients := updated;
        var mapped := UpdatePatientIdentifierArray(updated);
        if mapped.Err? {
          error := Some(ToDateFailed + mapped.error);
          return false;
        }
      }
      return true;
    }

    /** sortPatients: Err means the call throws, leaving the list as it was. */
    method SortPatients(mode: SortMode) returns (r: Result<()>)
      modifies this
      ensures (Snapshot(), r) == SortState(old(Snapshot()), mode)
    {
      var sorted := if mode == Custom then CustomOrder(patients, customOrder) else SortByField(patients, SortField(mode));
      if sorted.Err? {
        return Err(sorted.error);
      }
      patients := sorted.value;
      return Ok(());
    }
  }

  // ---------------------------------------------------------------------------
  // moveFiles

  /**
   * What moving the entries `names` of `src` into `tgt` has achieved after
   * the first `i` of them, on disk `cur`, starting from `d0`.
   */
  ghost predicate MoveInv(d0: Storage.Disk, cur: Storage.Disk, src: Path, tgt: Path, names: seq<string>, i: nat) {
    i <= |names| && Framed(d0, cur, src, tgt) &&
    (forall j | 0 <= j < i && Storage.Read(d0, src + [names[j]]).Ok? && Storage.Read(d0, src + [names[j]]).value.Some? ::
       Storage.Read(cur, tgt + [names[j]]) == Storage.Read(d0, src + [names[j]])) &&
    (forall j | 0 <= j < i && Storage.Read(d0, src + [names[j]]) == Ok(None) ::
       Storage.Kind(cur, tgt + [names[j]]) == Storage.Kind(d0, tgt + [names[j]])) &&
    (forall j | i <= j < |names| ::
       Storage.Read(cur, src + [names[j]]) == Storage.Read(d0, src + [names[j]]) &&
       Storage.Kind(cur, tgt + [names[j]]) == Storage.Kind(d0, tgt + [names[j]])) &&
    (forall f | f !in names :: Storage.Read(cur, tgt + [f]) == Storage.Read(d0, tgt + [f]))
  }

  /** A valid disk that reads as `d0` did everywhere apart from both directories. */
  ghost predicate Framed(d0: Storage.Disk, cur: Storage.Disk, src: Path, tgt: Path) {
    Storage.Valid(cur) && cur.faulty == d0.faulty &&
    forall q | Apart(q, src) && Apart(q, tgt) :: Storage.Read(cur, q) == Storage.Read(d0, q)
  }

  /**
   * Every entry of `src` on `d0` that reads as content reads the same at the
   * same name in `tgt`; one that reads as null left that name in `tgt` alone,
   * and so did every name `src` did not list.
   */
  ghost predicate Copied(d0: Storage.Disk, d1: Storage.Disk, src: Path, tgt: Path) {
    (forall f | f in Storage.Children(d0, src) ::
      (Storage.Read(d0, src + [f]).Ok? && Storage.Read(d0, src + [f]).value.Some? ==>
         Storage.Read(d1, tgt + [f]) == Storage.Read(d0, src + [f])) &&
      (Storage.Read(d0, src + [f]) == Ok(None) ==> Storage.Kind(d1, tgt + [f]) == Storage.Kind(d0, tgt + [f]))) &&
    (forall f | f !in Storage.Children(d0, src) :: Storage.Read(d1, tgt + [f]) == Storage.Read(d0, tgt + [f]))
  }

  /** Once every listed entry is handled, the listing has been copied. */
  lemma MovedAll(d0: Storage.Disk, d1: Storage.Disk, src: Path, tgt: Path, names: seq<string>)
    requires MoveInv(d0, d1, src, tgt, names, |names|)
    requires forall f :: f in names <==> f in Storage.Children(d0, src)
    ensures Copied(d0, d1, src, tgt)
  {
    forall f | f in Storage.Children(d0, src)
      ensures Storage.Read(d0, src + [f]).Ok? && Storage.Read(d0, src + [f]).value.Some? ==>
         Storage.Read(d1, tgt + [f]) == Storage.Read(d0, src + [f])
      ensures Storage.Read(d0, src + [f]) == Ok(None) ==> Storage.Kind(d1, tgt + [f]) == Storage.Kind(d0, tgt + [f])
    {
      var j :| 0 <= j < |names| && names[j] == f;
    }
    assert forall f | f !in Storage.Children(d0, src) :: f !in names;
  }

  /** Skipping an entry that reads as null keeps the invariant. */
  lemma SkipStep(d0: Storage.Disk, cur: Storage.Disk, src: Path, tgt: Path, names: seq<string>, i: nat)
    requires MoveInv(d0, cur, src, tgt, names, i) && i < |names|
    requires Storage.Read(cur, src + [names[i]]) == Ok(None)
    ensures MoveInv(d0, cur, src, tgt, names, i + 1)
  {
  }

  /** Writing an entry's content into the target keeps the invariant. */
  lemma CopyStep(d0: Storage.Disk, cur: Storage.Disk, src: Path, tgt: Path, names: seq<string>, i: nat, c: Content)
    requires MoveInv(d0, cur, src, tgt, names, i) && i < |names| && Sorting.Distinct(names)
    requires Apart(src, tgt) && IsSegment(names[i]) && WellFormed(tgt)
    requires Storage.Read(cur, src + [names[i]]) == Ok(Some(c))
    requires Storage.Write(cur, tgt + [names[i]], c).Ok?
    ensures MoveInv(d0, Storage.Write(cur, tgt + [names[i]], c).value, src, tgt, names, i + 1)
  {
    var p := tgt + [names[i]];
    var next := Storage.Write(cur, p, c).value;
    assert WellFormed(p) by {
      assert forall k | 0 <= k < |tgt| :: p[k] == tgt[k];
    }
    Storage.WriteThenRead(cur, p, c);
    Storage.WriteValid(cur, p, c);
    forall q | Apart(q, src) && Apart(q, tgt) ensures Storage.Read(next, q) == Storage.Read(d0, q) {
      ApartChildren(q, tgt, "", names[i]);
      Storage.ReadAfterWrite(cur, p, c, q);
    }
    forall j | 0 <= j < |names| && j != i
      ensures Storage.Read(next, tgt + [names[j]]) == Storage.Read(cur, tgt + [names[j]])
      ensures Storage.Kind(next, tgt + [names[j]]) == Storage.Kind(cur, tgt + [names[j]])
      ensures Storage.Read(next, src + [names[j]]) == Storage.Read(cur, src + [names[j]])
    {
      ApartAt(p, tgt + [names[j]], |tgt|);
      Storage.ReadAfterWrite(cur, p, c, tgt + [names[j]]);
      Storage.WriteFrame(cur, p, c, tgt + [names[j]]);
      ApartChildren(tgt, src, names[i], names[j]);
      Storage.ReadAfterWrite(cur, p, c, src + [names[j]]);
    }
    forall f | f !in names ensures Storage.Read(next, tgt + [f]) == Storage.Read(cur, tgt + [f]) {
      assert f != names[i];
      ApartAt(p, tgt + [f], |tgt|);
      Storage.ReadAfterWrite(cur, p, c, tgt + [f]);
    }
  }

  /** Removing the source at the end keeps every read outside it. */
  lemma RemoveStep(d0: Storage.Disk, cur: Storage.Disk, src: Path, tgt: Path, names: seq<string>)
    requires MoveInv(d0, cur, src, tgt, names, |names|) && Apart(src, tgt)
    requires Storage.Rmdir(cur, src).Ok?
    ensures MoveInv(d0, Storage.Rmdir(cur, src).value, src, tgt, names, |names|)
  {
    var next := Storage.Rmdir(cur, src).value;
    Storage.RmdirValid(cur, src);
    forall q | Apart(q, src) && Apart(q, tgt) ensures Storage.Read(next, q) == Storage.Read(d0, q) {
      Storage.ReadAfterRmdir(cur, src, q);
    }
    forall j | 0 <= j < |names|
      ensures Storage.Read(next, tgt + [names[j]]) == Storage.Read(cur, tgt + [names[j]])
      ensures Storage.Kind(next, tgt + [names[j]]) == Storage.Kind(cur, tgt + [names[j]])
    {
      ApartChildren(tgt, src, names[j], "");
      Storage.ReadAfterRmdir(cur, src, tgt + [names[j]]);
    }
    forall f | f !in names ensures Storage.Read(next, tgt + [f]) == Storage.Read(cur, tgt + [f]) {
      ApartChildren(tgt, src, f, "");
      Storage.ReadAfterRmdir(cur, src, tgt + [f]);
    }
  }

  /** Creating the target first keeps every read the invariant speaks of. */
  lemma MkdirStep(d0: Storage.Disk, src: Path, tgt: Path, names: seq<string>)
    requires Storage.Valid(d0) && WellFormed(tgt) && Apart(src, tgt)
    requires Storage.Mkdir(d0, tgt).Ok?
    ensures MoveInv(d0, Storage.Mkdir(d0, tgt).value, src, tgt, names, 0)
    ensures Storage.Children(Storage.Mkdir(d0, tgt).value, src) == Storage.Children(d0, src)
  {
    var d1 := Storage.Mkdir(d0, tgt).value;
    Storage.MkdirValid(d0, tgt);
    Storage.ReadAfterMkdir(d0, tgt, src);
    forall q | Apart(q, src) && Apart(q, tgt) ensures Storage.Read(d1, q) == Storage.Read(d0, q) {
      Storage.ReadAfterMkdir(d0, tgt, q);
    }
    forall j | 0 <= j < |names|
      ensures Storage.Read(d1, src + [names[j]]) == Storage.Read(d0, src + [names[j]])
      ensures Storage.Kind(d1, tgt + [names[j]]) == Storage.Kind(d0, tgt + [names[j]])
    {
      ApartChildren(src, tgt, names[j], "");
      Storage.ReadAfterMkdir(d0, tgt, src + [names[j]]);
      assert !Within(tgt, tgt + [names[j]]);
      Storage.ReadAfterMkdir(d0, tgt, tgt + [names[j]]);
    }
    forall f | f !in names ensures Storage.Read(d1, tgt + [f]) == Storage.Read(d0, tgt + [f]) {
      assert !Within(tgt, tgt + [f]);
      Storage.ReadAfterMkdir(d0, tgt, tgt + [f]);
    }
  }

  /** The path of `name` inside `dir`, as joinPaths builds it. */
  function Inside(dir: string, name: string): (r: string)
    requires IsSegment(name)
    ensures Segments(r) == Segments(dir) + [name]
    ensures r != ""
  {
    FS.StrSegments(dir);
    FS.PieceSegments(name);
    var r := FS.Join2(Str(dir), Str(name)).value;
    assert Segments("") == [];
    r
  }

  /** What savePatients stores holds no null, as every entry is an object. */
  lemma SavedObjects(d: Storage.Disk, path: string, input: Json)
    requires Saved(d, path, input).Ok?
    ensures JNull !in Saved(d, path, input).value.1
  {
    var sanitized := Saved(d, path, input).value.1;
    forall i | 0 <= i < |sanitized| ensures sanitized[i] != JNull {
      assert sanitized[i] == Sanitize(input.items[i]);
    }
  }

  /**
   * The state loadPatients leaves behind: loading never writes, the custom
   * order is the loaded list, and every loaded entry is an object tagged
   * with its kind.
   */
  function LoadState(s: State, configLoaded: bool, dataDirectory: string): (t: State)
    ensures t.disk == s.disk && t.activeDate == s.activeDate && t.availableDates == s.availableDates
    ensures t.customOrder == t.patients
    ensures forall i | 0 <= i < |t.patients| ::
      t.patients[i].JObj? && Get(t.patients[i], "type") in {Some(JStr("umrn")), Some(JStr("uuid"))}
    ensures !configLoaded || dataDirectory == "" ==> t == s.(patients := [], customOrder := [])
    ensures configLoaded && dataDirectory != "" ==> !t.isLoading
  {
    if !configLoaded || dataDirectory == "" then
      s.(patients := [], customOrder := [])
    else match ReadList(s.disk, ListPath(dataDirectory, s.activeDate).value)
      case Err(e) =>
        s.(patients := [], customOrder := [], identifiers := map[], error := Some(LoadFailed + e), isLoading := false)
      case Ok(None) =>
        s.(patients := [], customOrder := [], identifiers := map[], error := None, isLoading := false)
      case Ok(Some(list)) =>
        s.(patients := list, customOrder := list, identifiers := IdentifierMap(list), error := None, isLoading := false)
  }

  /**
   * The result of savePatients and the state it leaves behind: on failure
   * only the message changes; on success the sanitized list is on disk and
   * is the patient list.
   */
  function SaveState(s: State, dataDirectory: string, input: Json): (res: (bool, State))
    ensures Storage.Valid(s.disk) ==> Storage.Valid(res.1.disk)
  {
    if dataDirectory == "" then (false, s.(error := Some(SaveNoPath)))
    else
      var saved := Saved(s.disk, ListPath(dataDirectory, s.activeDate).value, input);
      if saved.Err? then (false, s.(error := Some(saved.error)))
      else (true, s.(disk := saved.value.0, patients := saved.value.1, identifiers := IdentifierMap(saved.value.1)))
  }

  /**
   * savePatients on failure changes only the message; on success the
   * sanitized list is on disk and is the patient list, with the identifier
   * map rebuilt from it.
   */
  lemma SaveOutcome(s: State, dataDirectory: string, input: Json)
    ensures var res := SaveState(s, dataDirectory, input);
      && (!res.0 ==> res.1 == s.(error := res.1.error) && res.1.error.Some?)
      && (dataDirectory == "" ==> res == (false, s.(error := Some(SaveNoPath))))
      && (!input.JArr? ==> !res.0)
      && (res.0 ==> res.1 == s.(disk := res.1.disk, patients := res.1.patients, identifiers := IdentifierMap(res.1.patients)))
      && (res.0 ==> Saved(s.disk, ListPath(dataDirectory, s.activeDate).value, input) == Ok((res.1.disk, res.1.patients)))
  {
  }

  // ---------------------------------------------------------------------------
  // addPatient

  /** `p => p.name === name`. */
  function NameIs(name: Option<Json>): Json -> bool {
    p => StrictEq(Get(p, "name"), name)
  }

  /** `{ ...patientData, id, type }`: the umrn is the id when it is truthy, a freshly drawn id otherwise. */
  function NewPatient(data: Fields, freshId: string): (r: Json)
    ensures r.JObj?
    ensures Get(r, "id") == (if Truthy(Lookup(data, "umrn")) then Lookup(data, "umrn") else Some(JStr(freshId)))
    ensures Get(r, "type") == Some(JStr(if Truthy(Lookup(data, "umrn")) then "umrn" else "uuid"))
    ensures forall k | k != "id" && k != "type" :: Get(r, k) == Lookup(data, k)
  {
    var umrn := Lookup(data, "umrn");
    var base := Spread([], data);
    assert forall k :: Lookup(base, k) == Lookup(data, k) by {
      forall k ensures Lookup(base, k) == Lookup(data, k) {
        SpreadLookup([], data, k);
      }
    }
    var withId := Put(base, "id", if Truthy(umrn) then umrn.value else JStr(freshId));
    JObj(Put(withId, "type", JStr(if Truthy(umrn) then "umrn" else "uuid")))
  }

  /** The notes directory addPatient creates: by-umrn/<umrn> or by-uuid/<fresh id>. */
  function NewPatientDir(dataDirectory: string, data: Fields, freshId: string): string
    requires dataDirectory != ""
  {
    var umrn := Lookup(data, "umrn");
    NotesDir(dataDirectory, if Truthy(umrn) then FS.ByUmrn else FS.ByUuid, if Truthy(umrn) then FS.AsArg(umrn) else Str(freshId)).value
  }

  /** `try { await rmdirAbsolute(dir) } catch {}`. */
  function RemoveQuietly(d: Storage.Disk, dir: string): (r: Storage.Disk)
    ensures Storage.Valid(d) ==> Storage.Valid(r)
    ensures FS.RmdirAbsolute(d, dir).Ok? ==> r == FS.RmdirAbsolute(d, dir).value
    ensures FS.RmdirAbsolute(d, dir).Err? ==> r == d
  {
    match FS.RmdirAbsolute(d, dir)
    case Ok(d') => d'
    case Err(_) => d
  }

  /** The outer catch's cleanup: remove the directory when it exists, ignoring every failure. */
  function CleanUp(d: Storage.Disk, dir: string): (r: Storage.Disk)
    ensures Storage.Valid(d) ==> Storage.Valid(r)
    ensures FS.ExistsAbsolute(d, dir) == Ok(true) ==> r == RemoveQuietly(d, dir)
    ensures FS.ExistsAbsolute(d, dir) != Ok(true) ==> r == d
  {
    if FS.ExistsAbsolute(d, dir) == Ok(true) then RemoveQuietly(d, dir) else d
  }

  /** The disk after addPatient's cleanup of `dir` following a failed save. */
  function FailedAddDisk(d: Storage.Disk, dir: string, existed: bool): (r: Storage.Disk)
    ensures Storage.Valid(d) ==> Storage.Valid(r)
  {
    CleanUp(if existed then d else RemoveQuietly(d, dir), dir)
  }

  /**
   * The cleanup addPatient evidently intends: the outer catch spares a
   * directory that was already there, as the inner cleanup does, so only a
   * directory made for the new patient is removed.
   */
  function IntendedFailedAddDisk(d: Storage.Disk, dir: string, existed: bool): (r: Storage.Disk)
    ensures Storage.Valid(d) ==> Storage.Valid(r)
    ensures existed ==> r == d
  {
    if existed then d else FailedAddDisk(d, dir, false)
  }

  /**
   * addPatient from the state it starts in: the patient it returns (or
   * null) and the state it leaves behind. `response` is the button the
   * duplicate-name dialog returns; `freshId` is the uuid drawn for a patient
   * without a umrn.
   */
  function AddState(s: State, dataDirectory: string, data: Fields, response: int, freshId: string): (res: (State, Option<Json>))
    ensures !res.0.isLoading && res.0.customOrder == s.customOrder && res.0.activeDate == s.activeDate
    ensures Storage.Valid(s.disk) ==> Storage.Valid(res.0.disk)
  {
    if dataDirectory == "" then (s.(error := Some(AddUnset), isLoading := false), None)
    else DuplicateState(s.(error := None, isLoading := true), dataDirectory, data, response, freshId)
  }

  /**
   * For a patient without a umrn, when one of the same name is listed, the
   * dialog decides: return it (button 1), create anyway (button 2), or
   * give up (any other answer).
   */
  function DuplicateState(s: State, dataDirectory: string, data: Fields, response: int, freshId: string): (res: (State, Option<Json>))
    requires dataDirectory != ""
    ensures !res.0.isLoading && res.0.customOrder == s.customOrder && res.0.activeDate == s.activeDate
    ensures Storage.Valid(s.disk) ==> Storage.Valid(res.0.disk)
  {
    var dup := if Truthy(Lookup(data, "umrn")) then Ok(None) else FindIndex(s.patients, "name", NameIs(Lookup(data, "name")));
    if dup.Err? then (s.(error := Some(AddFailed + dup.error), isLoading := false), None)
    else if dup.value.Some? && Truthy(Some(s.patients[dup.value.value])) && response != 2 then
      (s.(isLoading := false), if response == 1 then Some(s.patients[dup.value.value]) else None)
    else CreateState(s, dataDirectory, data, freshId)
  }

  /** The creating half of addPatient, once no duplicate stopped it. */
  function CreateState(s: State, dataDirectory: string, data: Fields, freshId: string): (res: (State, Option<Json>))
    requires dataDirectory != ""
    ensures !res.0.isLoading && res.0.customOrder == s.customOrder && res.0.activeDate == s.activeDate
    ensures Storage.Valid(s.disk) ==> Storage.Valid(res.0.disk)
    ensures res.1.Some? ==> res.1 == Some(NewPatient(data, freshId))
  {
    var p := NewPatient(data, freshId);
    var dir := NewPatientDir(dataDirectory, data, freshId);
    if Truthy(Lookup(data, "umrn")) then ProbeDirState(s, dataDirectory, p, dir)
    else MakeDirState(s, dataDirectory, p, dir, false)
  }

  /** A umrn patient: see whether the umrn's notes directory is already there. */
  function ProbeDirState(s: State, dataDirectory: string, p: Json, dir: string): (res: (State, Option<Json>))
    ensures !res.0.isLoading && res.0.customOrder == s.customOrder && res.0.activeDate == s.activeDate
    ensures Storage.Valid(s.disk) ==> Storage.Valid(res.0.disk)
    ensures res.1.Some? ==> res.1 == Some(p)
  {
    var probe := FS.ExistsAbsolute(s.disk, dir);
    if probe.Err? then (s.(error := Some(AddFailed + probe.error), isLoading := false), None)
    else MakeDirState(s, dataDirectory, p, dir, probe.value)
  }

  /** Create the notes directory unless it `existed`, then store the patient. */
  function MakeDirState(s: State, dataDirectory: string, p: Json, dir: string, existed: bool): (res: (State, Option<Json>))
    ensures !res.0.isLoading && res.0.customOrder == s.customOrder && res.0.activeDate == s.activeDate
    ensures Storage.Valid(s.disk) ==> Storage.Valid(res.0.disk)
    ensures res.1.Some? ==> res.1 == Some(p)
  {
    var made := if existed then Ok(s.disk) else FS.MkdirAbsolute(s.disk, dir);
    if made.Err? then
      (s.(disk := CleanUp(s.disk, dir), error := Some(AddFailed + made.error), isLoading := false), None)
    else StoreNewState(s.(disk := made.value), dataDirectory, p, dir, existed)
  }

  /**
   * The last step of addPatient: append the patient and save; when that
   * fails, remove the directory made for it and then, in the outer catch,
   * whatever directory is there.
   */
  function StoreNewState(s: State, dataDirectory: string, p: Json, dir: string, existed: bool): (res: (State, Option<Json>))
    ensures !res.0.isLoading && res.0.customOrder == s.customOrder && res.0.activeDate == s.activeDate
    ensures Storage.Valid(s.disk) ==> Storage.Valid(res.0.disk)
    ensures res.1.Some? ==> res.1 == Some(p)
  {
    var saved := SaveState(s, dataDirectory, JArr(s.patients + [p]));
    if saved.0 then (saved.1.(isLoading := false), Some(p))
    else
      (s.(disk := FailedAddDisk(s.disk, dir, existed),
          error := Some(AddSaveFailed),
          isLoading := false), None)
  }

  /**
   * `t` is `s` with the sanitized patient `p` appended to the sanitized
   * list, and the directory `dir` is there in `t`.
   */
  ghost predicate Appended(s: State, t: State, p: Json, dir: string) {
    && |t.patients| == |s.patients| + 1
    && t.patients[|s.patients|] == Sanitize(p)
    && (forall i | 0 <= i < |s.patients| :: t.patients[i] == Sanitize(s.patients[i]))
    && Storage.Accessible(t.disk, Segments(dir))
  }

  /** Saving the list with `p` appended stores the sanitized list with the sanitized `p` last. */
  lemma SaveAppends(s: State, dataDirectory: string, p: Json)
    requires SaveState(s, dataDirectory, JArr(s.patients + [p])).0
    ensures var t := SaveState(s, dataDirectory, JArr(s.patients + [p])).1;
      && |t.patients| == |s.patients| + 1
      && t.patients[|s.patients|] == Sanitize(p)
      && (forall i | 0 <= i < |s.patients| :: t.patients[i] == Sanitize(s.patients[i]))
  {
    var input := s.patients + [p];
    assert input[|s.patients|] == p;
    assert forall i | 0 <= i < |s.patients| :: input[i] == s.patients[i];
  }

  /**
   * A successful store appends the patient, and a directory apart from the
   * list file that was there stays there.
   */
  lemma StoreAppends(s: State, dataDirectory: string, p: Json, dir: string, existed: bool)
    requires StoreNewState(s, dataDirectory, p, dir, existed).1.Some?
    requires Apart(Segments(ListPath(dataDirectory, s.activeDate).value), Segments(dir))
    requires Storage.Accessible(s.disk, Segments(dir))
    ensures Appended(s, StoreNewState(s, dataDirectory, p, dir, existed).0, p, dir)
  {
    SaveAppends(s, dataDirectory, p);
    var path := ListPath(dataDirectory, s.activeDate).value;
    var saved := Saved(s.disk, path, JArr(s.patients + [p])).value;
    Storage.ReadAfterWrite(s.disk, Segments(path), JsonText(JArr(saved.1)), Segments(dir));
  }

  /** After the directory step, the directory is there whenever the patient is stored. */
  lemma MakeDirAppends(s: State, dataDirectory: string, p: Json, dir: string, existed: bool)
    requires MakeDirState(s, dataDirectory, p, dir, existed).1.Some?
    requires existed ==> Storage.Accessible(s.disk, Segments(dir))
    requires Apart(Segments(ListPath(dataDirectory, s.activeDate).value), Segments(dir))
    ensures Appended(s, MakeDirState(s, dataDirectory, p, dir, existed).0, p, dir)
  {
    var made := if existed then Ok(s.disk) else FS.MkdirAbsolute(s.disk, dir);
    StoreAppends(s.(disk := made.value), dataDirectory, p, dir, existed);
  }

  /** A directory found by the probe is there; one not found is made. */
  lemma ProbeAppends(s: State, dataDirectory: string, p: Json, dir: string)
    requires ProbeDirState(s, dataDirectory, p, dir).1.Some?
    requires Apart(Segments(ListPath(dataDirectory, s.activeDate).value), Segments(dir))
    ensures Appended(s, ProbeDirState(s, dataDirectory, p, dir).0, p, dir)
  {
    var probe := FS.ExistsAbsolute(s.disk, dir);
    assert probe.value ==> Storage.Exists(s.disk, Segments(dir)) == Ok(true);
    MakeDirAppends(s, dataDirectory, p, dir, probe.value);
  }

  /** A umrn patient is stored under the umrn's notes directory. */
  lemma UmrnAppends(s: State, dataDirectory: string, data: Fields, freshId: string)
    requires dataDirectory != "" && Truthy(Lookup(data, "umrn"))
    requires CreateState(s, dataDirectory, data, freshId).1.Some?
    ensures Appended(s, CreateState(s, dataDirectory, data, freshId).0, NewPatient(data, freshId), NewPatientDir(dataDirectory, data, freshId))
  {
    ListApartFromNotes(dataDirectory, s.activeDate, FS.ByUmrn, FS.AsArg(Lookup(data, "umrn")));
    ProbeAppends(s, dataDirectory, NewPatient(data, freshId), NewPatientDir(dataDirectory, data, freshId));
  }

  /** A patient without a umrn is stored under a freshly drawn uuid's notes directory. */
  lemma UuidAppends(s: State, dataDirectory: string, data: Fields, freshId: string)
    requires dataDirectory != "" && !Truthy(Lookup(data, "umrn"))
    requires CreateState(s, dataDirectory, data, freshId).1.Some?
    ensures Appended(s, CreateState(s, dataDirectory, data, freshId).0, NewPatient(data, freshId), NewPatientDir(dataDirectory, data, freshId))
  {
    ListApartFromNotes(dataDirectory, s.activeDate, FS.ByUuid, Str(freshId));
    MakeDirAppends(s, dataDirectory, NewPatient(data, freshId), NewPatientDir(dataDirectory, data, freshId), false);
  }

  /**
   * A created patient is appended at the end of the list and its notes
   * directory is there afterwards; the patient returned is the one built
   * from the form data (so its id is the umrn, with type "umrn", when it
   * has one, and the freshly drawn id, with type "uuid", otherwise).
   */
  lemma AddAppends(s: State, dataDirectory: string, data: Fields, freshId: string)
    requires dataDirectory != ""
    requires CreateState(s, dataDirectory, data, freshId).1.Some?
    ensures CreateState(s, dataDirectory, data, freshId).1 == Some(NewPatient(data, freshId))
    ensures Appended(s, CreateState(s, dataDirectory, data, freshId).0, NewPatient(data, freshId), NewPatientDir(dataDirectory, data, freshId))
  {
    if Truthy(Lookup(data, "umrn")) {
      UmrnAppends(s, dataDirectory, data, freshId);
    } else {
      UuidAppends(s, dataDirectory, data, freshId);
    }
  }

  /**
   * The outer catch removes the patient's notes directory whenever it
   * exists: when a umrn patient's directory was already there and the list
   * cannot be saved, that directory, with the notes in it, is removed.
   */
  lemma AddRemovesExistingUmrnDir(s: State, dataDirectory: string, data: Fields, freshId: string)
    requires dataDirectory != "" && Truthy(Lookup(data, "umrn"))
    requires FS.ExistsAbsolute(s.disk, NewPatientDir(dataDirectory, data, freshId)) == Ok(true)
    requires !SaveState(s, dataDirectory, JArr(s.patients + [NewPatient(data, freshId)])).0
    requires FS.RmdirAbsolute(s.disk, NewPatientDir(dataDirectory, data, freshId)).Ok?
    ensures CreateState(s, dataDirectory, data, freshId).1.None?
    ensures !Storage.Accessible(CreateState(s, dataDirectory, data, freshId).0.disk, Segments(NewPatientDir(dataDirectory, data, freshId)))
  {
    var dir := NewPatientDir(dataDirectory, data, freshId);
    assert |Segments(dir)| >= 2;
  }

  /**
   * With the intended cleanup, a umrn patient whose notes directory was
   * already there keeps it, notes and all, when the list cannot be saved,
   * where the cleanup as written removes it.
   */
  lemma IntendedKeepsExistingUmrnDir(s: State, dataDirectory: string, data: Fields, freshId: string)
    requires dataDirectory != "" && Truthy(Lookup(data, "umrn"))
    requires FS.ExistsAbsolute(s.disk, NewPatientDir(dataDirectory, data, freshId)) == Ok(true)
    requires !SaveState(s, dataDirectory, JArr(s.patients + [NewPatient(data, freshId)])).0
    ensures var dir := NewPatientDir(dataDirectory, data, freshId);
      && CreateState(s, dataDirectory, data, freshId).1.None?
      && CreateState(s, dataDirectory, data, freshId).0.disk == FailedAddDisk(s.disk, dir, true)
      && IntendedFailedAddDisk(s.disk, dir, true) == s.disk
      && FS.ExistsAbsolute(IntendedFailedAddDisk(s.disk, dir, true), dir) == Ok(true)
  {
  }

  /** Among objects, the name search finds the first patient of that name. */
  lemma FindsFirstNamed(items: seq<Json>, name: Option<Json>)
    requires forall i | 0 <= i < |items| :: items[i].JObj?
    requires exists i | 0 <= i < |items| :: StrictEq(Get(items[i], "name"), name)
    ensures var dup := FindIndex(items, "name", NameIs(name));
      dup.Ok? && dup.value.Some? && StrictEq(Get(items[dup.value.value], "name"), name) &&
      forall j | 0 <= j < dup.value.value :: !StrictEq(Get(items[j], "name"), name)
  {
    var dup := FindIndex(items, "name", NameIs(name));
    FindIndexMeaning(items, "name", NameIs(name));
    var k :| 0 <= k < |items| && StrictEq(Get(items[k], "name"), name);
    assert NameIs(name)(items[k]);
    assert JNull !in items by {
      forall i | 0 <= i < |items| ensures items[i] != JNull {
        assert items[i].JObj?;
      }
    }
    var i := dup.value.value;
    assert NameIs(name)(items[i]);
    forall j | 0 <= j < i ensures !StrictEq(Get(items[j], "name"), name) {
      assert !NameIs(name)(items[j]);
    }
  }

  /** Among objects, the name search finds nothing when no patient has that name. */
  lemma FindsNoneNamed(items: seq<Json>, name: Option<Json>)
    requires forall i | 0 <= i < |items| :: items[i].JObj?
    requires forall i | 0 <= i < |items| :: !StrictEq(Get(items[i], "name"), name)
    ensures FindIndex(items, "name", NameIs(name)) == Ok(None)
  {
    FindIndexMeaning(items, "name", NameIs(name));
    forall i | 0 <= i < |items| ensures items[i] != JNull && !NameIs(name)(items[i]) {
      assert items[i].JObj?;
    }
  }

  /**
   * For a patient without a umrn whose name is already listed, the dialog's
   * answer is final unless it is "Create New": "Merge Patients" returns the
   * first listed patient of that name, any other answer returns null, and
   * neither touches the list or the disk.
   */
  lemma AddOffersDuplicate(s: State, dataDirectory: string, data: Fields, response: int, freshId: string)
    requires dataDirectory != "" && !Truthy(Lookup(data, "umrn")) && response != 2
    requires forall i | 0 <= i < |s.patients| :: s.patients[i].JObj?
    requires exists i | 0 <= i < |s.patients| :: StrictEq(Get(s.patients[i], "name"), Lookup(data, "name"))
    ensures var (t, r) := AddState(s, dataDirectory, data, response, freshId);
      t == s.(error := None, isLoading := false) &&
      (response == 1 ==> exists i | 0 <= i < |s.patients| ::
         r == Some(s.patients[i]) && StrictEq(Get(s.patients[i], "name"), Lookup(data, "name")) &&
         forall j | 0 <= j < i :: !StrictEq(Get(s.patients[j], "name"), Lookup(data, "name"))) &&
      (response != 1 ==> r.None?)
  {
    FindsFirstNamed(s.patients, Lookup(data, "name"));
    var i := FindIndex(s.patients, "name", NameIs(Lookup(data, "name"))).value.value;
    assert Truthy(Some(s.patients[i]));
    assert AddState(s, dataDirectory, data, response, freshId) ==
      (s.(error := None, isLoading := false), if response == 1 then Some(s.patients[i]) else None);
  }

  /**
   * Otherwise addPatient goes on to create the patient: when it has a umrn,
   * when no listed patient has its name, or when the answer is "Create New".
   */
  lemma AddCreatesOtherwise(s: State, dataDirectory: string, data: Fields, response: int, freshId: string)
    requires dataDirectory != ""
    requires forall i | 0 <= i < |s.patients| :: s.patients[i].JObj?
    requires Truthy(Lookup(data, "umrn")) || response == 2 ||
      forall i | 0 <= i < |s.patients| :: !StrictEq(Get(s.patients[i], "name"), Lookup(data, "name"))
    ensures AddState(s, dataDirectory, data, response, freshId) ==
      CreateState(s.(error := None, isLoading := true), dataDirectory, data, freshId)
  {
    if !Truthy(Lookup(data, "umrn")) {
      if response == 2 {
        if exists i | 0 <= i < |s.patients| :: StrictEq(Get(s.patients[i], "name"), Lookup(data, "name")) {
          FindsFirstNamed(s.patients, Lookup(data, "name"));
        } else {
          FindsNoneNamed(s.patients, Lookup(data, "name"));
        }
      } else {
        FindsNoneNamed(s.patients, Lookup(data, "name"));
      }
    }
  }

  // ---------------------------------------------------------------------------
  // Searches by id, and what reading a list file back gives.

  /** `p => p.id === id`. */
  function IdIs(id: Option<Json>): Json -> bool {
    p => HasId(p, id)
  }

  /** `p => p.id !== id`. */
  function IdIsNot(id: Option<Json>): Json -> bool {
    p => !HasId(p, id)
  }

  /** `p => p.type === "umrn" && p.id === umrn`. */
  function UmrnIs(umrn: string): Json -> bool {
    p => StrictEq(Get(p, "type"), Some(JStr("umrn"))) && HasId(p, Some(JStr(umrn)))
  }

  /**
   * `items.find(matches)` where `matches` reads `prop` first: the first
   * matching entry, undefined when none matches, and a TypeError when a null
   * entry comes before any match.
   */
  function Find(items: seq<Json>, prop: string, matches: Json -> bool): (r: Result<Option<Json>>)
    ensures r.Ok? && r.value.Some? ==> exists i | 0 <= i < |items| ::
      items[i] == r.value.value && matches(items[i]) && forall j | 0 <= j < i :: items[j] != JNull && !matches(items[j])
    ensures r.Ok? && r.value.None? ==> forall i | 0 <= i < |items| :: items[i] != JNull && !matches(items[i])
    ensures r.Err? ==> r.error == NullRead(prop) && JNull in items
  {
    FindIndexMeaning(items, prop, matches);
    match FindIndex(items, prop, matches)
    case Err(e) => Err(e)
    case Ok(None) => Ok(None)
    case Ok(Some(i)) => Ok(Some(items[i]))
  }

  /**
   * A list file read and parsed: the message of a failed read or parse,
   * nothing for a missing or empty file, or the parsed value.
   */
  function ParsedFile(d: Storage.Disk, path: string): (r: Result<Option<Json>>)
    ensures FS.ReadFileAbsolute(d, path).Err? ==> r == Err(FS.ReadFileAbsolute(d, path).error)
    ensures FS.ReadFileAbsolute(d, path) == Ok(None) ==> r == Ok(None)
    ensures forall j :: FS.ReadFileAbsolute(d, path) == Ok(Some(JsonText(j))) ==> r == Ok(Some(j))
  {
    match FS.ReadFileAbsolute(d, path)
    case Err(e) => Err(e)
    case Ok(None) => Ok(None)
    case Ok(Some(c)) =>
      if Text(c) == "" then Ok(None)
      else match Parse(c)
        case Err(e) => Err(e)
        case Ok(j) => Ok(Some(j))
  }

  /** A list written as JSON at a path reads back as that list. */
  lemma WrittenParses(d: Storage.Disk, path: string, list: seq<Json>)
    requires FS.WriteFileAbsolute(d, path, JsonText(JArr(list))).Ok?
    ensures ParsedFile(FS.WriteFileAbsolute(d, path, JsonText(JArr(list))).value, path) == Ok(Some(JArr(list)))
  {
    var d1 := FS.WriteFileAbsolute(d, path, JsonText(JArr(list))).value;
    assert path != "";
    assert FS.ReadFileAbsolute(d1, path) == Ok(Some(JsonText(JArr(list))));
  }

  // ---------------------------------------------------------------------------
  // mergePatientData

  /** `{ ...p, id: umrn, type: "umrn", umrn }`. */
  function MergedEntry(p: Json, umrn: string): (r: Json)
    ensures r.JObj?
    ensures Get(r, "id") == Some(JStr(umrn)) && Get(r, "umrn") == Some(JStr(umrn))
    ensures Get(r, "type") == Some(JStr("umrn"))
    ensures forall k | k != "id" && k != "type" && k != "umrn" :: Get(r, k) == Get(p, k)
  {
    MergedLookup(p, umrn);
    JObj(MergedFields(p, umrn))
  }

  function MergedFields(p: Json, umrn: string): Fields {
    Put(Put(Put(Spread([], Entries(p)), "id", JStr(umrn)), "type", JStr("umrn")), "umrn", JStr(umrn))
  }

  lemma MergedLookup(p: Json, umrn: string)
    ensures Lookup(MergedFields(p, umrn), "id") == Some(JStr(umrn))
    ensures Lookup(MergedFields(p, umrn), "umrn") == Some(JStr(umrn))
    ensures Lookup(MergedFields(p, umrn), "type") == Some(JStr("umrn"))
    ensures forall k | k != "id" && k != "type" && k != "umrn" :: Lookup(MergedFields(p, umrn), k) == Get(p, k)
  {
    var r1 := Put(Spread([], Entries(p)), "id", JStr(umrn));
    var r2 := Put(r1, "type", JStr("umrn"));
    PutKeeps(r2, "umrn", JStr(umrn), "type");
    PutKeeps(r2, "umrn", JStr(umrn), "id");
    PutKeeps(r1, "type", JStr("umrn"), "id");
    forall k | k != "id" && k != "type" && k != "umrn" ensures Lookup(MergedFields(p, umrn), k) == Get(p, k) {
      MergedOther(p, umrn, k);
    }
  }

  /** A property other than the three merged ones reads as in the original entry. */
  lemma MergedOther(p: Json, umrn: string, k: string)
    requires k != "id" && k != "type" && k != "umrn"
    ensures Lookup(MergedFields(p, umrn), k) == Get(p, k)
  {
    var base := Spread([], Entries(p));
    var r1 := Put(base, "id", JStr(umrn));
    var r2 := Put(r1, "type", JStr("umrn"));
    SpreadLookup([], Entries(p), k);
    PutKeeps(r2, "umrn", JStr(umrn), k);
    PutKeeps(r1, "type", JStr("umrn"), k);
    PutKeeps(base, "id", JStr(umrn), k);
  }

  /** `parsedPatients.findIndex(p => p.id === uuid)`: only an array has findIndex. */
  function FindInParsed(j: Json, id: Option<Json>): (r: Result<Option<nat>>)
    ensures r.Ok? && r.value.Some? ==> j.JArr? && r.value.value < |j.items|
    ensures j.JNull? ==> r == Err(NullRead("findIndex"))
    ensures !j.JNull? && !j.JArr? ==> r == Err(FindNotList)
  {
    match j
    case JArr(items) => FindIndex(items, "id", IdIs(id))
    case JNull => Err(NullRead("findIndex"))
    case _ => Err(FindNotList)
  }

  function UuidMissing(uuid: string): string {
    UuidPrefix + uuid + NotFoundSuffix
  }

  /**
   * The rest of mergePatientData once the notes have been moved: read the
   * list file, rewrite the entry with the uuid as its id, write the list
   * back and make it the patient list, then remove the uuid directory,
   * ignoring any failure. The identifier map is not rebuilt.
   */
  function MergeListState(s: State, path: string, uuid: string, umrn: string, uuidDir: string): (res: (State, bool))
    ensures !res.0.isLoading && res.0.customOrder == s.customOrder && res.0.identifiers == s.identifiers
    ensures res.0.activeDate == s.activeDate && res.0.availableDates == s.availableDates
    ensures Storage.Valid(s.disk) ==> Storage.Valid(res.0.disk)
    ensures !res.1 ==> res.0 == s.(error := res.0.error, isLoading := false) && res.0.error.Some?
  {
    match ParsedFile(s.disk, path)
    case Err(e) => (s.(error := Some(MergeFailed + e), isLoading := false), false)
    case Ok(None) => (s.(error := Some(MergeNoFile), isLoading := false), false)
    case Ok(Some(j)) => MergeEntryState(s, path, j, uuid, umrn, uuidDir)
  }

  /** Find the entry with the uuid as its id in the parsed list and rewrite it. */
  function MergeEntryState(s: State, path: string, parsed: Json, uuid: string, umrn: string, uuidDir: string): (res: (State, bool))
    ensures !res.0.isLoading && res.0.customOrder == s.customOrder && res.0.identifiers == s.identifiers
    ensures res.0.activeDate == s.activeDate && res.0.availableDates == s.availableDates
    ensures Storage.Valid(s.disk) ==> Storage.Valid(res.0.disk)
    ensures !res.1 ==> res.0 == s.(error := res.0.error, isLoading := false) && res.0.error.Some?
  {
    match FindInParsed(parsed, Some(JStr(uuid)))
    case Err(e) => (s.(error := Some(MergeFailed + e), isLoading := false), false)
    case Ok(None) => (s.(error := Some(UuidMissing(uuid)), isLoading := false), false)
    case Ok(Some(i)) => RewriteState(s, path, parsed.items[i := MergedEntry(parsed.items[i], umrn)], uuidDir)
  }

  /** Write the rewritten list, make it the patient list and remove the uuid directory quietly. */
  function RewriteState(s: State, path: string, list: seq<Json>, uuidDir: string): (res: (State, bool))
    ensures !res.0.isLoading && res.0.customOrder == s.customOrder && res.0.identifiers == s.identifiers
    ensures res.0.activeDate == s.activeDate && res.0.availableDates == s.availableDates
    ensures Storage.Valid(s.disk) ==> Storage.Valid(res.0.disk)
    ensures !res.1 ==> res.0 == s.(error := res.0.error, isLoading := false) && res.0.error.Some?
    ensures res.1 ==> res.0 == s.(disk := res.0.disk, patients := list, isLoading := false)
  {
    match FS.WriteFileAbsolute(s.disk, path, JsonText(JArr(list)))
    case Err(e) => (s.(error := Some(MergeFailed + e), isLoading := false), false)
    case Ok(d) => (s.(disk := RemoveQuietly(d, uuidDir), patients := list, isLoading := false), true)
  }

  /**
   * The entry a successful merge rewrote: the parsed list is an array and
   * `i` is the first entry with the uuid as its id, no entry before it
   * being null.
   */
  lemma MergeFoundAt(s: State, path: string, parsed: Json, uuid: string, umrn: string, uuidDir: string) returns (i: nat)
    requires MergeEntryState(s, path, parsed, uuid, umrn, uuidDir).1
    ensures parsed.JArr? && i < |parsed.items| && HasId(parsed.items[i], Some(JStr(uuid)))
    ensures forall j | 0 <= j < i :: parsed.items[j] != JNull && !HasId(parsed.items[j], Some(JStr(uuid)))
    ensures MergeEntryState(s, path, parsed, uuid, umrn, uuidDir) ==
      RewriteState(s, path, parsed.items[i := MergedEntry(parsed.items[i], umrn)], uuidDir)
  {
    i := FoundById(parsed.items, Some(JStr(uuid)));
  }

  /** The index findIndex gives for an id: the first entry with it, after no null entry. */
  lemma FoundById(items: seq<Json>, id: Option<Json>) returns (i: nat)
    requires FindIndex(items, "id", IdIs(id)).Ok? && FindIndex(items, "id", IdIs(id)).value.Some?
    ensures FindIndex(items, "id", IdIs(id)) == Ok(Some(i))
    ensures i < |items| && HasId(items[i], id)
    ensures forall j | 0 <= j < i :: items[j] != JNull && !HasId(items[j], id)
  {
    FindIndexMeaning(items, "id", IdIs(id));
    i := FindIndex(items, "id", IdIs(id)).value.value;
    assert IdIs(id)(items[i]);
    forall j | 0 <= j < i ensures items[j] != JNull && !HasId(items[j], id) {
      assert !IdIs(id)(items[j]);
    }
  }

  /** Once the list is written, removing the uuid directory leaves the list file alone. */
  lemma RewriteStored(s: State, path: string, list: seq<Json>, uuidDir: string)
    requires RewriteState(s, path, list, uuidDir).1
    requires Apart(Segments(path), Segments(uuidDir))
    ensures Storage.Read(RewriteState(s, path, list, uuidDir).0.disk, Segments(path)) == Ok(Some(JsonText(JArr(list))))
  {
    var written := FS.WriteFileAbsolute(s.disk, path, JsonText(JArr(list))).value;
    RemovedElsewhere(written, uuidDir, Segments(path));
  }

  /**
   * A merge that succeeds found the list file holding an array, rewrote the
   * first entry with the uuid as its id (no entry before it is null or has
   * that id) and left every other entry where it was; the list file then
   * holds the new list, which is the patient list.
   */
  lemma MergeRewritesFirst(s: State, path: string, uuid: string, umrn: string, uuidDir: string) returns (items: seq<Json>, i: nat)
    requires Apart(Segments(path), Segments(uuidDir))
    requires MergeListState(s, path, uuid, umrn, uuidDir).1
    ensures ParsedFile(s.disk, path) == Ok(Some(JArr(items)))
    ensures i < |items| && HasId(items[i], Some(JStr(uuid)))
    ensures forall j | 0 <= j < i :: items[j] != JNull && !HasId(items[j], Some(JStr(uuid)))
    ensures MergeListState(s, path, uuid, umrn, uuidDir).0.patients == items[i := MergedEntry(items[i], umrn)]
    ensures MergeListState(s, path, uuid, umrn, uuidDir).0.error == s.error
    ensures Storage.Read(MergeListState(s, path, uuid, umrn, uuidDir).0.disk, Segments(path)) ==
      Ok(Some(JsonText(JArr(items[i := MergedEntry(items[i], umrn)]))))
  {
    var parsed := ParsedFile(s.disk, path).value.value;
    assert MergeListState(s, path, uuid, umrn, uuidDir) == MergeEntryState(s, path, parsed, uuid, umrn, uuidDir);
    i := MergeFoundAt(s, path, parsed, uuid, umrn, uuidDir);
    items := parsed.items;
    RewriteStored(s, path, items[i := MergedEntry(items[i], umrn)], uuidDir);
  }

  /** Removing a directory quietly leaves the read of every path apart from it as it was. */
  lemma RemovedElsewhere(d: Storage.Disk, dir: string, q: Path)
    requires Apart(q, Segments(dir))
    ensures Storage.Read(RemoveQuietly(d, dir), q) == Storage.Read(d, q)
  {
    if FS.RmdirAbsolute(d, dir).Ok? {
      Storage.ReadAfterRmdir(d, Segments(dir), q);
    }
  }

  /**
   * When the list holds an entry with the uuid as its id, after no null
   * entry, and the new list can be written, the merge succeeds with that
   * entry rewritten.
   */
  lemma MergeFindsEntry(s: State, path: string, uuid: string, umrn: string, uuidDir: string, items: seq<Json>, i: nat)
    requires ParsedFile(s.disk, path) == Ok(Some(JArr(items)))
    requires i < |items| && HasId(items[i], Some(JStr(uuid)))
    requires forall j | 0 <= j < i :: items[j] != JNull && !HasId(items[j], Some(JStr(uuid)))
    requires FS.WriteFileAbsolute(s.disk, path, JsonText(JArr(items[i := MergedEntry(items[i], umrn)]))).Ok?
    ensures MergeListState(s, path, uuid, umrn, uuidDir).1
    ensures MergeListState(s, path, uuid, umrn, uuidDir).0.patients == items[i := MergedEntry(items[i], umrn)]
  {
    assert MergeListState(s, path, uuid, umrn, uuidDir) == MergeEntryState(s, path, JArr(items), uuid, umrn, uuidDir);
    EntryFound(s, path, items, uuid, umrn, uuidDir, i);
  }

  /** The entry step of MergeFindsEntry: the entry found is the one at `i`. */
  lemma EntryFound(s: State, path: string, items: seq<Json>, uuid: string, umrn: string, uuidDir: string, i: nat)
    requires i < |items| && HasId(items[i], Some(JStr(uuid)))
    requires forall j | 0 <= j < i :: items[j] != JNull && !HasId(items[j], Some(JStr(uuid)))
    ensures MergeEntryState(s, path, JArr(items), uuid, umrn, uuidDir) ==
      RewriteState(s, path, items[i := MergedEntry(items[i], umrn)], uuidDir)
  {
    var id := Some(JStr(uuid));
    assert IdIs(id)(items[i]);
    assert forall j | 0 <= j < i :: !IdIs(id)(items[j]);
    FindIndexAt(items, "id", IdIs(id), i);
    assert FindInParsed(JArr(items), id) == Ok(Some(i));
  }

  /**
   * When no entry of the list has the uuid as its id, the merge fails with
   * the list and the disk as they were, which is after the notes were moved.
   */
  lemma MergeMissingEntry(s: State, path: string, uuid: string, umrn: string, uuidDir: string, items: seq<Json>)
    requires ParsedFile(s.disk, path) == Ok(Some(JArr(items)))
    requires forall i | 0 <= i < |items| :: items[i] != JNull && !HasId(items[i], Some(JStr(uuid)))
    ensures MergeListState(s, path, uuid, umrn, uuidDir) == (s.(error := Some(UuidMissing(uuid)), isLoading := false), false)
  {
    var id := Some(JStr(uuid));
    assert forall i | 0 <= i < |items| :: !IdIs(id)(items[i]);
    FindIndexNone(items, "id", IdIs(id));
  }

  /**
   * After a merge that succeeded, the umrn directory still holds every note
   * the move copied into it and keeps its entries of other names as they were
   * before the move, and the uuid directory is gone: neither writing the list
   * file nor removing the uuid directory again reaches the umrn directory.
   */
  lemma MergeKeepsNotes(d0: Storage.Disk, s: State, dataDirectory: string, uuid: string, umrn: string)
    requires dataDirectory != ""
    requires MovedNotes(d0, s.disk, Segments(NotesDir(dataDirectory, FS.ByUuid, Str(uuid)).value),
                        Segments(NotesDir(dataDirectory, FS.ByUmrn, Str(umrn)).value), Ok(()))
    requires MergeListState(s, ListPath(dataDirectory, s.activeDate).value, uuid, umrn,
                            NotesDir(dataDirectory, FS.ByUuid, Str(uuid)).value).1
    ensures var after := MergeListState(s, ListPath(dataDirectory, s.activeDate).value, uuid, umrn,
                                        NotesDir(dataDirectory, FS.ByUuid, Str(uuid)).value).0.disk;
      Copied(d0, after, Segments(NotesDir(dataDirectory, FS.ByUuid, Str(uuid)).value),
             Segments(NotesDir(dataDirectory, FS.ByUmrn, Str(umrn)).value)) &&
      !Storage.Accessible(after, Segments(NotesDir(dataDirectory, FS.ByUuid, Str(uuid)).value))
  {
    var path := ListPath(dataDirectory, s.activeDate).value;
    var uuidDir := NotesDir(dataDirectory, FS.ByUuid, Str(uuid)).value;
    var P, U, M := Segments(path), Segments(uuidDir), Segments(NotesDir(dataDirectory, FS.ByUmrn, Str(umrn)).value);
    ListApartFromNotes(dataDirectory, s.activeDate, FS.ByUuid, Str(uuid));
    ListApartFromNotes(dataDirectory, s.activeDate, FS.ByUmrn, Str(umrn));
    NotesDirsApart(dataDirectory, Str(uuid), Str(umrn));
    var items, i := MergeRewritesFirst(s, path, uuid, umrn, uuidDir);
    var list := items[i := MergedEntry(items[i], umrn)];
    assert MergeListState(s, path, uuid, umrn, uuidDir) == MergeEntryState(s, path, JArr(items), uuid, umrn, uuidDir);
    EntryFound(s, path, items, uuid, umrn, uuidDir, i);
    var c := JsonText(JArr(list));
    var written := FS.WriteFileAbsolute(s.disk, path, c).value;
    var after := RemoveQuietly(written, uuidDir);
    assert MergeListState(s, path, uuid, umrn, uuidDir).0.disk == after;
    forall f
      ensures Storage.Read(after, M + [f]) == Storage.Read(s.disk, M + [f])
      ensures Storage.Kind(after, M + [f]) == Storage.Kind(s.disk, M + [f])
    {
      ApartChildren(M, P, f, "");
      ApartChildren(M, U, f, "");
      Storage.ReadAfterWrite(s.disk, P, c, M + [f]);
      Storage.WriteFrame(s.disk, P, c, M + [f]);
      if FS.RmdirAbsolute(written, uuidDir).Ok? {
        Storage.ReadAfterRmdir(written, U, M + [f]);
      }
    }
    Storage.ReadAfterWrite(s.disk, P, c, U);
    NotesDirSegments(dataDirectory, FS.ByUuid, Str(uuid));
  }

  /**
   * What moving the notes from `src` to `tgt` did to the disk: nothing apart
   * from both directories changed, and a move that finished copied every
   * readable entry and removed the source.
   */
  ghost predicate MovedNotes(d0: Storage.Disk, d1: Storage.Disk, src: Path, tgt: Path, r: Result<()>) {
    Framed(d0, d1, src, tgt) && (r.Ok? ==> !Storage.Accessible(d1, src) && Copied(d0, d1, src, tgt))
  }

  // ---------------------------------------------------------------------------
  // updatePatient

  function IdMissing(id: Option<Json>): string {
    IdPrefix + Template(id) + NotListedSuffix
  }

  /**
   * updatePatient: refuse without a data directory (before loading starts),
   * then replace the first entry with the same id by a copy of the updated
   * patient and save.
   */
  function UpdateState(s: State, dataDirectory: string, updated: Fields): (res: (State, bool))
    ensures res.0.customOrder == s.customOrder && res.0.activeDate == s.activeDate
    ensures Storage.Valid(s.disk) ==> Storage.Valid(res.0.disk)
    ensures dataDirectory == "" ==> res == (s.(error := Some(UpdateUnset)), false)
    ensures dataDirectory != "" ==> !res.0.isLoading
  {
    if dataDirectory == "" then (s.(error := Some(UpdateUnset)), false)
    else ReplaceState(s.(isLoading := true, error := None), dataDirectory, updated)
  }

  function ReplaceState(s: State, dataDirectory: string, updated: Fields): (res: (State, bool))
    requires dataDirectory != ""
    ensures res.0.customOrder == s.customOrder && res.0.activeDate == s.activeDate && !res.0.isLoading
    ensures Storage.Valid(s.disk) ==> Storage.Valid(res.0.disk)
  {
    match FindIndex(s.patients, "id", IdIs(Lookup(updated, "id")))
    case Err(e) => (s.(error := Some(UpdateFailed + e), isLoading := false), false)
    case Ok(None) => (s.(error := Some(IdMissing(Lookup(updated, "id"))), isLoading := false), false)
    case Ok(Some(i)) =>
      var saved := SaveState(s, dataDirectory, JArr(s.patients[i := JObj(Spread([], updated))]));
      if saved.0 then (saved.1.(isLoading := false), true)
      else (s.(error := Some(UpdateSaveFailed), isLoading := false), false)
  }

  /** A successful save of `input` stores it sanitized, entry by entry, and changes nothing else. */
  lemma SaveSanitizes(s: State, dataDirectory: string, input: seq<Json>)
    requires SaveState(s, dataDirectory, JArr(input)).0
    ensures var t := SaveState(s, dataDirectory, JArr(input)).1;
      && t == s.(disk := t.disk, patients := t.patients, identifiers := t.identifiers)
      && |t.patients| == |input| && forall j | 0 <= j < |input| :: t.patients[j] == Sanitize(input[j])
  {
    SaveOutcome(s, dataDirectory, JArr(input));
  }

  /**
   * An update that succeeds replaced the first entry with the updated
   * patient's id by the updated patient and kept the length and the order
   * of the list; the list saved is the sanitized one.
   */
  lemma UpdateReplacesInPlace(s: State, dataDirectory: string, updated: Fields) returns (i: nat)
    requires UpdateState(s, dataDirectory, updated).1
    ensures dataDirectory != ""
    ensures i < |s.patients| && HasId(s.patients[i], Lookup(updated, "id"))
    ensures forall j | 0 <= j < i :: s.patients[j] != JNull && !HasId(s.patients[j], Lookup(updated, "id"))
    ensures var t := UpdateState(s, dataDirectory, updated).0;
      && t.error == None && |t.patients| == |s.patients|
      && t.patients[i] == Sanitize(JObj(Spread([], updated)))
      && forall j | 0 <= j < |s.patients| && j != i :: t.patients[j] == Sanitize(s.patients[j])
  {
    var s1 := s.(isLoading := true, error := None);
    assert UpdateState(s, dataDirectory, updated) == ReplaceState(s1, dataDirectory, updated);
    assert s1.patients == s.patients;
    i := ReplaceInPlace(s1, dataDirectory, updated);
  }

  /** UpdateReplacesInPlace for the replacement step, with loading started. */
  lemma ReplaceInPlace(s: State, dataDirectory: string, updated: Fields) returns (i: nat)
    requires dataDirectory != "" && ReplaceState(s, dataDirectory, updated).1
    ensures i < |s.patients| && HasId(s.patients[i], Lookup(updated, "id"))
    ensures forall j | 0 <= j < i :: s.patients[j] != JNull && !HasId(s.patients[j], Lookup(updated, "id"))
    ensures var t := ReplaceState(s, dataDirectory, updated).0;
      && t.error == s.error && |t.patients| == |s.patients|
      && t.patients[i] == Sanitize(JObj(Spread([], updated)))
      && forall j | 0 <= j < |s.patients| && j != i :: t.patients[j] == Sanitize(s.patients[j])
  {
    i := ReplacedAt(s, dataDirectory, updated);
    var input := s.patients[i := JObj(Spread([], updated))];
    SaveSanitizes(s, dataDirectory, input);
    var t := SaveState(s, dataDirectory, JArr(input)).1;
    assert t.patients[i] == Sanitize(JObj(Spread([], updated))) by {
      assert input[i] == JObj(Spread([], updated));
    }
    assert forall j | 0 <= j < |s.patients| && j != i :: t.patients[j] == Sanitize(s.patients[j]) by {
      assert forall j | 0 <= j < |s.patients| && j != i :: input[j] == s.patients[j];
    }
  }

  /** The entry a successful replacement found: the first with the updated patient's id. */
  lemma ReplacedAt(s: State, dataDirectory: string, updated: Fields) returns (i: nat)
    requires dataDirectory != "" && ReplaceState(s, dataDirectory, updated).1
    ensures i < |s.patients| && HasId(s.patients[i], Lookup(updated, "id"))
    ensures forall j | 0 <= j < i :: s.patients[j] != JNull && !HasId(s.patients[j], Lookup(updated, "id"))
    ensures SaveState(s, dataDirectory, JArr(s.patients[i := JObj(Spread([], updated))])).0
    ensures ReplaceState(s, dataDirectory, updated) ==
      (SaveState(s, dataDirectory, JArr(s.patients[i := JObj(Spread([], updated))])).1.(isLoading := false), true)
  {
    var id := Lookup(updated, "id");
    FindIndexMeaning(s.patients, "id", IdIs(id));
    i := FindIndex(s.patients, "id", IdIs(id)).value.value;
    assert IdIs(id)(s.patients[i]);
    forall j | 0 <= j < i ensures s.patients[j] != JNull && !HasId(s.patients[j], id) {
      assert !IdIs(id)(s.patients[j]);
    }
  }

  /** An update of a patient whose id is not listed fails and changes only the message. */
  lemma UpdateRefusesUnlisted(s: State, dataDirectory: string, updated: Fields)
    requires dataDirectory != ""
    requires forall i | 0 <= i < |s.patients| :: s.patients[i] != JNull && !HasId(s.patients[i], Lookup(updated, "id"))
    ensures UpdateState(s, dataDirectory, updated) ==
      (s.(error := Some(IdMissing(Lookup(updated, "id"))), isLoading := false), false)
  {
    var id := Lookup(updated, "id");
    assert forall i | 0 <= i < |s.patients| :: !IdIs(id)(s.patients[i]);
    FindIndexNone(s.patients, "id", IdIs(id));
  }

  // ---------------------------------------------------------------------------
  // removePatient

  /**
   * removePatient: `response` is the button of the confirmation dialog, and
   * Err means the call throws (a null entry reached by the first search).
   * The search is made twice in the source with nothing in between, so the
   * second one finds the same patient and is not repeated here.
   */
  function RemoveState(s: State, dataDirectory: string, id: string, response: int): (res: (State, Result<bool>))
    ensures res.0.customOrder == s.customOrder && res.0.activeDate == s.activeDate
    ensures Storage.Valid(s.disk) ==> Storage.Valid(res.0.disk)
  {
    match FindIndex(s.patients, "id", IdIs(Some(JStr(id))))
    case Err(e) => (s, Err(e))
    case Ok(None) => (s.(error := Some(RemoveUnknown)), Ok(false))
    case Ok(Some(_)) =>
      if dataDirectory == "" then (s.(error := Some(RemoveUnset)), Ok(false))
      else if response != 1 then (s, Ok(false))
      else ConfirmedRemoveState(s.(isLoading := true, error := None), dataDirectory, id)
  }

  /** The confirmed removal: filter the id out of the list and save. */
  function ConfirmedRemoveState(s: State, dataDirectory: string, id: string): (res: (State, Result<bool>))
    requires dataDirectory != ""
    ensures res.0.customOrder == s.customOrder && res.0.activeDate == s.activeDate && !res.0.isLoading
    ensures Storage.Valid(s.disk) ==> Storage.Valid(res.0.disk)
    ensures res.1.Ok?
  {
    match FilterOrThrow(s.patients, "id", IdIsNot(Some(JStr(id))))
    case Err(e) => (s.(error := Some(RemoveFailed + e), isLoading := false), Ok(false))
    case Ok(kept) =>
      var saved := SaveState(s, dataDirectory, JArr(kept));
      if saved.0 then (saved.1.(isLoading := false), Ok(true))
      else (s.(error := Some(RemoveSaveFailed), isLoading := false), Ok(false))
  }

  /**
   * A removal that succeeds was confirmed, for a listed patient; the list
   * saved is the old one without every entry of that id, in order and
   * sanitized, and no path apart from the list file, so no notes directory,
   * reads differently.
   */
  lemma RemoveOnlyFilters(s: State, dataDirectory: string, id: string, response: int)
    requires RemoveState(s, dataDirectory, id, response).1 == Ok(true)
    ensures var t := RemoveState(s, dataDirectory, id, response).0;
      var kept := Filter(s.patients, IdIsNot(Some(JStr(id))));
      && response == 1 && dataDirectory != "" && t.error == None
      && (exists i | 0 <= i < |s.patients| :: HasId(s.patients[i], Some(JStr(id))))
      && |t.patients| == |kept| && (forall i | 0 <= i < |kept| :: t.patients[i] == Sanitize(kept[i]))
      && (forall i | 0 <= i < |t.patients| :: !HasId(t.patients[i], Some(JStr(id))))
      && forall q | Apart(q, Segments(ListPath(dataDirectory, s.activeDate).value)) :: Storage.Read(t.disk, q) == Storage.Read(s.disk, q)
  {
    var key := Some(JStr(id));
    var kept := Filter(s.patients, IdIsNot(key));
    var s1 := s.(isLoading := true, error := None);
    RemoveSucceeded(s, dataDirectory, id, response);
    SaveKeepsOthers(s1, dataDirectory, kept);
    var t := SaveState(s1, dataDirectory, JArr(kept)).1;
    forall j | 0 <= j < |t.patients| ensures !HasId(t.patients[j], key) {
      assert IdIsNot(key)(kept[j]);
      assert Get(t.patients[j], "id") == Get(kept[j], "id");
    }
  }

  /** A removal that succeeds was confirmed for a listed id, and saved the filtered list. */
  lemma RemoveSucceeded(s: State, dataDirectory: string, id: string, response: int)
    requires RemoveState(s, dataDirectory, id, response).1 == Ok(true)
    ensures response == 1 && dataDirectory != ""
    ensures exists i | 0 <= i < |s.patients| :: HasId(s.patients[i], Some(JStr(id)))
    ensures var s1 := s.(isLoading := true, error := None);
      var saved := SaveState(s1, dataDirectory, JArr(Filter(s.patients, IdIsNot(Some(JStr(id))))));
      saved.0 && RemoveState(s, dataDirectory, id, response).0 == saved.1.(isLoading := false)
  {
    var key := Some(JStr(id));
    FindIndexMeaning(s.patients, "id", IdIs(key));
    var i := FindIndex(s.patients, "id", IdIs(key)).value.value;
    assert IdIs(key)(s.patients[i]);
  }

  /** A save that succeeds stores the sanitized list and leaves every path apart from the list file alone. */
  lemma SaveKeepsOthers(s: State, dataDirectory: string, items: seq<Json>)
    requires SaveState(s, dataDirectory, JArr(items)).0
    ensures var t := SaveState(s, dataDirectory, JArr(items)).1;
      && dataDirectory != "" && t.error == s.error && t.activeDate == s.activeDate
      && |t.patients| == |items| && (forall i | 0 <= i < |items| :: t.patients[i] == Sanitize(items[i]))
      && forall q | Apart(q, Segments(ListPath(dataDirectory, s.activeDate).value)) :: Storage.Read(t.disk, q) == Storage.Read(s.disk, q)
  {
    SaveOutcome(s, dataDirectory, JArr(items));
    var t := SaveState(s, dataDirectory, JArr(items)).1;
    var path := Segments(ListPath(dataDirectory, s.activeDate).value);
    forall q | Apart(q, path) ensures Storage.Read(t.disk, q) == Storage.Read(s.disk, q) {
      Storage.ReadAfterWrite(s.disk, path, JsonText(JArr(t.patients)), q);
    }
  }

  /**
   * Any answer but "Remove from List" leaves the list and the disk alone, and
   * so does an id no entry has; neither reports success.
   */
  lemma RemoveRefused(s: State, dataDirectory: string, id: string, response: int)
    ensures response != 1 ==> var (t, r) := RemoveState(s, dataDirectory, id, response);
      r != Ok(true) && t.patients == s.patients && t.disk == s.disk
    ensures (forall i | 0 <= i < |s.patients| :: s.patients[i] != JNull && !HasId(s.patients[i], Some(JStr(id)))) ==>
      RemoveState(s, dataDirectory, id, response) == (s.(error := Some(RemoveUnknown)), Ok(false))
  {
    var key := Some(JStr(id));
    if forall i | 0 <= i < |s.patients| :: s.patients[i] != JNull && !HasId(s.patients[i], key) {
      assert forall i | 0 <= i < |s.patients| :: !IdIs(key)(s.patients[i]);
      FindIndexNone(s.patients, "id", IdIs(key));
    }
  }

  // ---------------------------------------------------------------------------
  // addPatientsToDate

  /**
   * The list addPatientsToDate adds to: the parsed target file, or [] when
   * the file is missing, empty, unreadable or not JSON. Reading ids off it
   * throws for a null, for anything but an array, and for a null entry.
   */
  function ExistingPatients(d: Storage.Disk, path: string): (r: Result<seq<Json>>)
    ensures r.Ok? ==> JNull !in r.value
    ensures forall items :: ParsedFile(d, path) == Ok(Some(JArr(items))) && JNull !in items ==> r == Ok(items)
  {
    var parsed := ParsedFile(d, path);
    var j := if parsed.Ok? && parsed.value.Some? then parsed.value.value else JArr([]);
    match j
    case JNull => Err(NullRead("map"))
    case JArr(items) => if JNull in items then Err(NullRead("id")) else Ok(items)
    case _ => Err(ExistingNotList)
  }

  /**
   * addPatientsToDate: append to the list file of `date` the patients whose
   * id, and whose truthy umrn, the file does not hold yet. When the date is
   * `today` the new list also becomes the patient list. Loading is not
   * flagged and the previous message is not cleared.
   */
  function ToDateState(s: State, dataDirectory: string, toAdd: seq<Json>, date: string, today: string): (res: (State, bool))
    ensures res.0 == s.(disk := res.0.disk, patients := res.0.patients, identifiers := res.0.identifiers, error := res.0.error)
    ensures date != today ==> res.0.patients == s.patients && res.0.identifiers == s.identifiers
    ensures Storage.Valid(s.disk) ==> Storage.Valid(res.0.disk)
    ensures dataDirectory == "" ==> res == (s, false)
  {
    if dataDirectory == "" then (s, false)
    else
      var path := ListPath(dataDirectory, date).value;
      match ExistingPatients(s.disk, path)
      case Err(e) => (s.(error := Some(ToDateFailed + e)), false)
      case Ok(existing) =>
        match FilterOrThrow(toAdd, "id", p => IsNew(existing, p))
        case Err(e) => (s.(error := Some(ToDateFailed + e)), false)
        case Ok(added) => if added == [] then (s, true) else AppendToDateState(s, path, existing + added, date, today)
  }

  /** Write the extended list, and make it the patient list when the date is today. */
  function AppendToDateState(s: State, path: string, updated: seq<Json>, date: string, today: string): (res: (State, bool))
    ensures res.0 == s.(disk := res.0.disk, patients := res.0.patients, identifiers := res.0.identifiers, error := res.0.error)
    ensures date != today ==> res.0.patients == s.patients && res.0.identifiers == s.identifiers
    ensures Storage.Valid(s.disk) ==> Storage.Valid(res.0.disk)
  {
    match FS.WriteFileAbsolute(s.disk, path, JsonText(JArr(updated)))
    case Err(e) => (s.(error := Some(ToDateFailed + e)), false)
    case Ok(d) =>
      if date != today then (s.(disk := d), true)
      else if JNull in updated then (s.(disk := d, patients := updated, error := Some(ToDateFailed + NullRead("name"))), false)
      else (s.(disk := d, patients := updated, identifiers := IdentifierMap(updated)), true)
  }

  /**
   * A successful addition keeps the existing entries first and in order and
   * appends exactly the incoming patients that are new to the file, each as
   * often as it comes; when none is new nothing is written or changed.
   */
  lemma ToDateAppendsNew(s: State, dataDirectory: string, toAdd: seq<Json>, date: string, today: string)
    requires ToDateState(s, dataDirectory, toAdd, date, today).1
    ensures dataDirectory != "" && ExistingPatients(s.disk, ListPath(dataDirectory, date).value).Ok? && JNull !in toAdd
    ensures var path := ListPath(dataDirectory, date).value;
      var existing := ExistingPatients(s.disk, path).value;
      var added := NewPatients(existing, toAdd);
      var t := ToDateState(s, dataDirectory, toAdd, date, today).0;
      && (forall p :: multiset(added)[p] == if IsNew(existing, p) then multiset(toAdd)[p] else 0)
      && (added == [] ==> t == s)
      && (added != [] ==> Storage.Read(t.disk, Segments(path)) == Ok(Some(JsonText(JArr(existing + added)))))
      && (added != [] && date == today ==> t.patients == existing + added && t.identifiers == IdentifierMap(existing + added))
  {
    var path := ListPath(dataDirectory, date).value;
    var existing := ExistingPatients(s.disk, path).value;
    assert FilterOrThrow(toAdd, "id", p => IsNew(existing, p)) == Ok(NewPatients(existing, toAdd));
    FilterCounts(toAdd, p => IsNew(existing, p));
    AddedHasNoNull(existing, toAdd);
  }

  /** The patients taken from a list without null entries are not null. */
  lemma AddedHasNoNull(existing: seq<Json>, toAdd: seq<Json>)
    requires JNull !in existing && JNull !in toAdd
    ensures JNull !in existing + NewPatients(existing, toAdd)
  {
    FilterFrom(toAdd, p => IsNew(existing, p));
  }

  /**
   * Running the same addition again adds nothing and changes nothing, as
   * long as the incoming ids compare by value.
   */
  lemma ToDateTwice(s: State, dataDirectory: string, toAdd: seq<Json>, date: string, today: string)
    requires ToDateState(s, dataDirectory, toAdd, date, today).1
    requires forall i | 0 <= i < |toAdd| :: Primitive(Get(toAdd[i], "id"))
    ensures var t := ToDateState(s, dataDirectory, toAdd, date, today).0;
      ToDateState(t, dataDirectory, toAdd, date, today) == (t, true)
  {
    var path := ListPath(dataDirectory, date).value;
    var existing := ExistingPatients(s.disk, path).value;
    var added := NewPatients(existing, toAdd);
    var t := ToDateState(s, dataDirectory, toAdd, date, today).0;
    if added != [] {
      var updated := existing + added;
      WrittenParses(s.disk, path, updated);
      AddedHasNoNull(existing, toAdd);
      assert ExistingPatients(t.disk, path) == Ok(updated);
      NewPatientsIdempotent(existing, toAdd);
    }
  }

  // ---------------------------------------------------------------------------
  // sortPatients

  /** The property a sort mode orders by. */
  function SortField(mode: SortMode): string
    requires mode != Custom
  {
    if mode == ByLocation then "location" else "name"
  }

  /**
   * sortPatients: location and name sort a copy of the list; custom takes
   * the custom order and keeps, by id, the patients of the current list.
   * Err means the call throws and nothing changes.
   */
  function SortState(s: State, mode: SortMode): (res: (State, Result<()>))
    ensures res.1.Err? ==> res.0 == s
    ensures res.0 == s.(patients := res.0.patients)
  {
    var sorted := if mode == Custom then CustomOrder(s.patients, s.customOrder) else SortByField(s.patients, SortField(mode));
    match sorted
    case Err(e) => (s, Err(e))
    case Ok(list) => (s.(patients := list), Ok(()))
  }

  /**
   * Sorting by location or name keeps the same patients ordered by that
   * property (ties in their previous order), and custom order gives the
   * custom order restricted to listed ids.
   */
  lemma SortOutcome(s: State, mode: SortMode)
    ensures mode != Custom && SortState(s, mode).1.Ok? ==> var t := SortState(s, mode).0;
      && multiset(t.patients) == multiset(s.patients)
      && Sorting.SortedBy(t.patients, KeyOf(SortField(mode)))
      && forall k :: Sorting.WithKey(t.patients, KeyOf(SortField(mode)), k) == Sorting.WithKey(s.patients, KeyOf(SortField(mode)), k)
    ensures mode == Custom ==> SortState(s, mode).1.Ok? == (JNull !in s.patients && JNull !in s.customOrder)
    ensures mode == Custom && SortState(s, mode).1.Ok? ==> SortState(s, mode).0.patients == Restore(s.patients, s.customOrder)
  {
    if mode != Custom {
      SortByFieldSorted(s.patients, SortField(mode));
    }
  }

  /**
   * When the list holds the custom order's patients, objects with distinct
   * ids, choosing custom after any sort gives back the order as loaded.
   */
  lemma SortThenCustom(s: State, mode: SortMode)
    requires multiset(s.patients) == multiset(s.customOrder)
    requires forall i | 0 <= i < |s.customOrder| :: s.customOrder[i].JObj?
    requires DistinctIds(s.customOrder)
    requires SortState(s, mode).1.Ok?
    ensures SortState(SortState(s, mode).0, Custom) == (s.(patients := s.customOrder), Ok(()))
  {
    var t := SortState(s, mode).0;
    if mode != Custom {
      SortByFieldSorted(s.patients, SortField(mode));
    } else {
      CustomRestores(s.patients, s.customOrder);
    }
    CustomRestores(t.patients, s.customOrder);
  }

  /**
   * The names of a directory listing, in some order: readdir's order is not
   * specified, so any enumeration of the set will do.
   */
  method Enumerate(names: set<string>) returns (r: seq<string>)
    ensures Sorting.Distinct(r)
    ensures forall x :: x in r <==> x in names
  {
    r := [];
    var rest := names;
    while rest != {}
      invariant rest <= names
      invariant Sorting.Distinct(r)
      invariant forall x :: x in r <==> x in names && x !in rest
      decreases |rest|
    {
      var x :| x in rest;
      r := r + [x];
      rest := rest - {x};
    }
  }
}
