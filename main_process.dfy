/**
 * The pure parts of the main process's IPC handlers (electron/main.ts): the
 * error mapping shared by the filesystem handlers, exists-absolute,
 * get-config-value, and the previous/next-day date helpers.
 */
module MainProcess {
  import opened Base
  import opened JsonModel
  import opened Paths
  import Calendar

  /** What an `fs.promises` call did: resolved with a value, or rejected with a code and message. */
  datatype Outcome<T> = Done(value: T) | Failed(code: string, message: string)

  /** What a filesystem handler resolves with. */
  datatype Reply<T> = Value(value: T) | Null | EmptyList

  /** The name used in messages: the basename of a string first argument, else the operation's first word. */
  function TargetDesc(operation: string, firstArg: Option<string>): string {
    if firstArg.Some? then Basename(firstArg.value) else Split(operation, ' ')[0]
  }

  /** ENOENT is forgiven for operations whose name mentions reading, deleting or listing. */
  predicate ForgivesMissing(operation: string) {
    Contains(operation, "read") || Contains(operation, "delete") || Contains(operation, "list")
  }

  /** handleFsOperation. */
  function HandleFsOperation<T>(operation: string, firstArg: Option<string>, outcome: Outcome<T>): (r: Result<Reply<T>>)
    ensures outcome.Done? ==> r == Ok(Value(outcome.value))
    ensures outcome.Failed? && outcome.code == "ENOENT" && ForgivesMissing(operation) ==>
      r == Ok(if Contains(operation, "list") then EmptyList else Null)
    ensures outcome.Failed? && !(outcome.code == "ENOENT" && ForgivesMissing(operation)) ==>
      r == Err("[IPC] Failed to " + operation + " '" + TargetDesc(operation, firstArg) + "': " + outcome.message)
  {
    match outcome
    case Done(v) => Ok(Value(v))
    case Failed(code, message) =>
      if code == "ENOENT" && ForgivesMissing(operation) then
        Ok(if Contains(operation, "list") then EmptyList else Null)
      else
        Err("[IPC] Failed to " + operation + " '" + TargetDesc(operation, firstArg) + "': " + message)
  }

  lemma ContainsPrefix(s: string, sub: string, rest: string)
    requires s == sub + rest
    ensures Contains(s, sub)
  {
    assert s[..|sub|] == sub;
  }

  /** A pattern with a character the text lacks does not occur in it. */
  lemma CharAbsent(s: string, sub: string, c: char)
    requires c in sub && c !in s
    ensures !Contains(s, sub)
  {
    ContainsChars(s, sub);
  }

  lemma ContainsChars(s: string, sub: string)
    ensures Contains(s, sub) ==> forall x | x in sub :: x in s
  {
    if Contains(s, sub) {
      var i := ContainsWitness(s, sub);
      forall x | x in sub ensures x in s {
        var k :| 0 <= k < |sub| && sub[k] == x;
        assert s[i + k] == s[i..i + |sub|][k];
      }
    }
  }

  /** Which of the handlers' operation names forgive a missing target. */
  lemma ReadName()
    ensures ForgivesMissing("read file") && !Contains("read file", "list")
  {
    ContainsPrefix("read file", "read", " file");
    CharAbsent("read file", "list", 't');
  }

  lemma DeleteName()
    ensures ForgivesMissing("delete file") && !Contains("delete file", "list")
  {
    ContainsPrefix("delete file", "delete", " file");
    CharAbsent("delete file", "list", 's');
  }

  lemma ListName()
    ensures ForgivesMissing("list files") && Contains("list files", "list")
  {
    ContainsPrefix("list files", "list", " files");
  }

  lemma WriteName(op: string)
    requires op == "write file"
    ensures !ForgivesMissing(op)
  {
    CharAbsent(op, "read", 'a');
    CharAbsent(op, "delete", 'd');
    CharAbsent(op, "list", 's');
  }

  lemma RemoveName(op: string)
    requires op == "remove directory"
    ensures !ForgivesMissing(op)
  {
    CharAbsent(op, "read", 'a');
    CharAbsent(op, "delete", 'l');
    CharAbsent(op, "list", 'l');
  }

  /**
   * The handlers built on handleFsOperation: a missing target reads as null
   * and lists as [], while the write and remove handlers throw.
   */
  lemma MissingTargets(path: string, message: string)
    ensures HandleFsOperation<string>("read file", Some(path), Failed("ENOENT", message)) == Ok(Null)
    ensures HandleFsOperation<()>("delete file", Some(path), Failed("ENOENT", message)) == Ok(Null)
    ensures HandleFsOperation<seq<string>>("list files", Some(path), Failed("ENOENT", message)) == Ok(EmptyList)
    ensures HandleFsOperation<()>("write file", Some(path), Failed("ENOENT", message)).Err?
    ensures HandleFsOperation<()>("remove directory", Some(path), Failed("ENOENT", message)).Err?
  {
    ReadName();
    DeleteName();
    ListName();
    WriteName("write file");
    RemoveName("remove directory");
  }

  /** handleSyncIpcOperation and handleAsyncIpcOperation: failures are re-thrown with the operation's name. */
  function HandleIpcOperation<T>(operation: string, outcome: Result<T>): (r: Result<T>)
    ensures outcome.Ok? ==> r == outcome
    ensures outcome.Err? ==> r.Err? && r.error == "[IPC] Failed to " + operation + ": " + outcome.error
  {
    match outcome
    case Ok(v) => Ok(v)
    case Err(m) => Err("[IPC] Failed to " + operation + ": " + m)
  }

  /** exists-absolute over the outcome of fs.access. */
  function ExistsAbsolute(path: string, access: Outcome<()>): (r: Result<bool>)
    ensures access.Done? <==> r == Ok(true)
    ensures (access.Failed? && access.code == "ENOENT") <==> r == Ok(false)
    ensures r.Err? ==> r.error == "[IPC] Failed to check existence for " + Basename(path) + ": " + access.message
  {
    match access
    case Done(_) => Ok(true)
    case Failed(code, message) =>
      if code == "ENOENT" then Ok(false)
      else Err("[IPC] Failed to check existence for " + Basename(path) + ": " + message)
  }

  // ---------------------------------------------------------------------------
  // get-config-value

  /** DEFAULT_CONFIG's value for a key; None is undefined. */
  function DefaultConfig(key: string): Option<Json> {
    if key == "dataDirectory" then Some(JStr("./data"))
    else if key == "patientsFilename" then Some(JStr("patients.json"))
    else if key == "notesBaseDir" then Some(JStr("notes"))
    else if key == "theme" then Some(JStr("light"))
    else None
  }

  /**
   * get-config-value over the result of reading the config file: the stored
   * value of a present key; otherwise, and whenever reading, parsing or the
   * `in` test throws, DEFAULT_CONFIG's value. Keys inherited from
   * Object.prototype are not modelled.
   */
  function GetConfigValue(file: Result<Content>, key: string): (r: Option<Json>)
    ensures file.Err? ==> r == DefaultConfig(key)
    ensures file.Ok? && Parse(file.value).Err? ==> r == DefaultConfig(key)
    ensures file.Ok? && Parse(file.value).Ok? && Parse(file.value).value.JObj? ==>
      var fields := Parse(file.value).value.fields;
      r == if Lookup(fields, key).Some? then Lookup(fields, key) else DefaultConfig(key)
  {
    if file.Err? then DefaultConfig(key)
    else match Parse(file.value)
      case Err(_) => DefaultConfig(key)
      case Ok(config) =>
        if config.JObj? || config.JArr? then
          var v := Get(config, key);
          if v.Some? then v else DefaultConfig(key)
        else DefaultConfig(key)
  }

  /** A value stored under a known key always wins over its default, and defaults cover only the four known keys. */
  lemma ConfigValueDefaults(fields: Fields, key: string)
    ensures GetConfigValue(Ok(JsonText(JObj(fields))), key).None? <==>
      (Lookup(fields, key).None? && key !in {"dataDirectory", "patientsFilename", "notesBaseDir", "theme"})
  {
  }

  // ---------------------------------------------------------------------------
  // get-previous-day-note and get-next-day-note

  /** getPreviousDayNote wrapped by its handler: an unparseable date is a RangeError. */
  function PreviousDayNote(currentDate: string): (r: Result<string>)
    ensures Calendar.ParseIso(currentDate).None? ==>
      r == HandleIpcOperation("get previous day note", Err("Invalid time value"))
    ensures Calendar.ParseIso(currentDate).Some? ==>
      r == Ok(Calendar.FormatIso(Calendar.Prev(Calendar.ParseIso(currentDate).value)))
  {
    var parsed := Calendar.ParseIso(currentDate);
    if parsed.None? then HandleIpcOperation("get previous day note", Err("Invalid time value"))
    else Ok(Calendar.FormatIso(Calendar.Prev(parsed.value)))
  }

  /** getNextDayNote wrapped by its handler. */
  function NextDayNote(currentDate: string): (r: Result<string>)
    ensures Calendar.ParseIso(currentDate).None? ==>
      r == HandleIpcOperation("get next day note", Err("Invalid time value"))
    ensures Calendar.ParseIso(currentDate).Some? ==>
      r == Ok(Calendar.FormatIso(Calendar.Next(Calendar.ParseIso(currentDate).value)))
  {
    var parsed := Calendar.ParseIso(currentDate);
    if parsed.None? then HandleIpcOperation("get next day note", Err("Invalid time value"))
    else Ok(Calendar.FormatIso(Calendar.Next(parsed.value)))
  }

  /**
   * Stepping back and then forward returns the normalised date that was read,
   * and the other way round, for years that stay within four digits.
   */
  lemma {:induction false} DayStepsRoundTrip(currentDate: string)
    requires Calendar.ParseIso(currentDate).Some?
    requires 0 < Calendar.ParseIso(currentDate).value.year < 9999
    ensures PreviousDayNote(currentDate).Ok? && NextDayNote(currentDate).Ok?
    ensures NextDayNote(PreviousDayNote(currentDate).value) ==
      Ok(Calendar.FormatIso(Calendar.ParseIso(currentDate).value))
    ensures PreviousDayNote(NextDayNote(currentDate).value) ==
      Ok(Calendar.FormatIso(Calendar.ParseIso(currentDate).value))
  {
    var d := Calendar.ParseIso(currentDate).value;
    Calendar.NextPrev(d);
    Calendar.ParseFormat(Calendar.Prev(d));
    Calendar.ParseFormat(Calendar.Next(d));
  }
}
