/**
 * Note retrieval for display (src/composables/useNoteRetrieval.ts): the text
 * shown for a patient and a date, or a fixed message when there is nothing
 * to show. Every failure is caught, except that the catch block itself reads
 * `patient.id`, which throws for a null patient.
 */
module NoteRetrieval {
  import opened Base
  import opened JsonModel
  import opened Paths
  import Storage
  import FS = FileSystemAccess
  import Calendar
  import NoteEditor

  const NoNote: string := "No note found for this date."

  /**
   * The text a note file yields before the blank check: the `content` string
   * of the object it parses to, and the file's own text otherwise (it does not
   * parse, or it parses to something without a string `content`).
   */
  function Extracted(c: Content): (s: string)
    ensures c.RawText? ==> s == c.text
    ensures Parse(c).Ok? && Parse(c).value.JObj? && StrOf(Get(Parse(c).value, "content")).Some? ==>
      s == StrOf(Get(Parse(c).value, "content")).value
  {
    match Parse(c)
    case Ok(parsed) =>
      if (parsed.JObj? || parsed.JArr?) && StrOf(Get(parsed, "content")).Some? then StrOf(Get(parsed, "content")).value
      else Text(c)
    case Err(_) => Text(c)
  }

  /**
   * What is shown for the outcome of readFileForDate: the default message for
   * a failed read (the error is caught), a missing file, an empty file or a
   * blank extracted text, and the extracted text otherwise.
   */
  function Shown(read: Result<Option<Content>>): (r: string)
    ensures r == NoNote || Trim(r) != ""
    ensures read.Err? || read == Ok(None) ==> r == NoNote
    ensures read.Ok? && read.value.Some? && Text(read.value.value) == "" ==> r == NoNote
    ensures read.Ok? && read.value.Some? && Text(read.value.value) != "" && Trim(Extracted(read.value.value)) != "" ==>
      r == Extracted(read.value.value)
    ensures r != NoNote ==> read.Ok? && read.value.Some? && r == Extracted(read.value.value)
  {
    match read
    case Err(_) => NoNote
    case Ok(None) => NoNote
    case Ok(Some(c)) =>
      if Text(c) == "" then NoNote
      else
        var noteContent := Extracted(c);
        TrimEmptyIffBlank(noteContent);
        if noteContent == "" || Trim(noteContent) == "" then NoNote else noteContent
  }

  /**
   * getNoteContent. `new Date(dateISO)` is Calendar.ParseIso (None: an
   * invalid Date, which gives the default message before any read); the file
   * is read by readFileForDate with `configured` the data directory the main
   * process reports. A failed read is caught, and the catch block's log line
   * reads `patient.id`; Err is the rejection that read causes.
   */
  function GetNoteContent(d: Storage.Disk, configured: Option<Json>, patient: Json, dateISO: string): (r: Result<string>)
    ensures Calendar.ParseIso(dateISO).None? ==> r == Ok(NoNote)
    ensures r.Err? <==> Calendar.ParseIso(dateISO).Some? && patient.JNull?
    ensures r.Err? ==> r.error == NullRead("id")
    ensures Calendar.ParseIso(dateISO).Some? && !patient.JNull? ==>
      r == Ok(Shown(FS.ReadFileForDate(d, configured, patient, Calendar.ParseIso(dateISO))))
  {
    var date := Calendar.ParseIso(dateISO);
    if date.None? then Ok(NoNote)
    else
      var read := FS.ReadFileForDate(d, configured, patient, date);
      if read.Err? && patient.JNull? then Err(NullRead("id")) else Ok(Shown(read))
  }

  /**
   * A note the editor saved is what getNoteContent shows for that day: with
   * the base directory resolving to "notes" and a umrn that is falsy or not
   * blank, both resolvers reach the same file, and its content is returned
   * when it is not blank.
   */
  lemma EditorNoteRetrieved(d: Storage.Disk, configured: Option<Json>, notesBaseDir: Option<Json>, patient: Json,
                            note: Fields, savedDate: string, dateISO: string, day: Calendar.Date, content: string)
    requires patient.JObj?
    requires FS.ArgSegments([FS.AsArg(notesBaseDir)]) == [FS.Notes]
    requires !Truthy(Get(patient, "umrn")) ||
             (Get(patient, "umrn").value.JStr? && Trim(Get(patient, "umrn").value.s) != "")
    requires Lookup(note, "date") == Some(JStr(savedDate))
    requires Lookup(note, "content") == Some(JStr(content)) && Trim(content) != ""
    requires Calendar.ParseIso(dateISO) == Some(day) && Calendar.DatePart(savedDate) == Calendar.FormatIso(day)
    requires NoteEditor.Saved(d, configured, notesBaseDir, patient, note).0
    ensures GetNoteContent(NoteEditor.Saved(d, configured, notesBaseDir, patient, note).1, configured, patient, dateISO) == Ok(content)
  {
    var written := NoteEditor.Saved(d, configured, notesBaseDir, patient, note).1;
    var saved := NoteEditor.NoteToSave(note, savedDate);
    var path := NoteEditor.SavedAt(d, configured, notesBaseDir, patient, note, savedDate);
    NoteEditor.ResolversAgree(configured, notesBaseDir, patient, day, savedDate);
    var filePath := FS.GetNoteFilePath(configured, patient, Some(day)).value;
    ReadForDateAt(written, configured, patient, day, path, JsonText(JObj(saved)));
    NoteEditor.SavedFields(note, savedDate);
    ShownContent(saved, content);
  }

  /** A note file holding an object with a non-blank string `content` shows that content. */
  lemma ShownContent(fields: Fields, content: string)
    requires Lookup(fields, "content") == Some(JStr(content)) && Trim(content) != ""
    ensures Shown(Ok(Some(JsonText(JObj(fields))))) == content
  {
    var c := JsonText(JObj(fields));
    WrittenTextIsTruthy(JObj(fields));
    assert Get(JObj(fields), "content") == Some(JStr(content));
    assert Extracted(c) == content;
    ShownText(c, content);
  }

  /** A file with text whose extracted text is not blank shows that text. */
  lemma ShownText(c: Content, s: string)
    requires Text(c) != "" && Extracted(c) == s && Trim(s) != ""
    ensures Shown(Ok(Some(c))) == s
  {
  }

  /** A file readable at a path with the note file's segments is what readFileForDate returns. */
  lemma ReadForDateAt(d: Storage.Disk, configured: Option<Json>, patient: Json, day: Calendar.Date, path: string, c: Content)
    requires Calendar.Valid(day)
    requires FS.GetNoteFilePath(configured, patient, Some(day)).Ok?
    requires Segments(path) == Segments(FS.GetNoteFilePath(configured, patient, Some(day)).value)
    requires FS.ReadFileAbsolute(d, path) == Ok(Some(c))
    ensures FS.ReadFileForDate(d, configured, patient, Some(day)) == Ok(Some(c))
  {
    var filePath := FS.GetNoteFilePath(configured, patient, Some(day)).value;
    FS.SegmentsEmpty();
    assert Storage.Read(d, Segments(filePath)) == Ok(Some(c));
    FS.WrittenIsThere(d, filePath, c);
  }
}
