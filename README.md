# Clinical notes: patient lists, note paths and editor helpers, in Dafny

This project models the bookkeeping core of an Electron and Vue desktop app for
clinical notes. It also proves properties of that model.

The app keeps one patient list per calendar day. Each list is a JSON file
`patients_<YYYY-MM-DD>.json` in the data directory. Each patient's notes live in
`notes/by-umrn/<umrn>` when the patient has a medical record number (umrn). A
patient without one uses `notes/by-uuid/<id>`, where the id is generated. Each
note is one JSON file per day.

## Modules

| module | file | models |
|---|---|---|
| `Base` | base.dfy | string helpers standing for JavaScript built-ins: ASCII case mapping, `trim`, `includes`, `split`/`join` |
| `Calendar` | dates.dfy | calendar dates and the `YYYY-MM-DD` date part of `toISOString` |
| `JsonModel` | json.dfy | JSON values, with objects as association lists in insertion order |
| `Sorting` | sorting.dfy | string order and a stable sort, which stands in for `Array.prototype.sort` |
| `Paths` | paths.dfy | path segments and the join-paths handler of the main process |
| `Storage` | disk.dfy | the filesystem behind the IPC bridge, as a value |
| `MainProcess` | main_process.dfy | the pure parts of electron/main.ts |
| `FileSystemAccess` | fs_access.dfy | src/composables/useFileSystemAccess.ts |
| `AppConfig` | config.dfy | src/composables/useConfig.ts |
| `NameParser` | name_parser.dfy | src/utils/nameParser.ts |
| `Patients` | patients.dfy | the list operations of usePatientData: sanitising, id search, deduplication, the ICM import mapping, sorting |
| `PatientData` | patient_store.dfy | usePatientData itself, as the class `PatientStore` |
| `NoteEditor` | note_editor.dfy | src/composables/useNoteEditor.ts |
| `NoteRetrieval` | note_retrieval.dfy | src/composables/useNoteRetrieval.ts |
| `PatientList` | patient_list.dfy | src/composables/usePatientList.ts, as the class `PatientListView` |
| `MedicalLanguage` | medical_language.dfy | the folding, substitution and completion logic of src/monacoLanguage.ts |

## How the model is built

- **Patients are JSON values.** The code throws on null entries and odd values, so these must be representable. Each such throw is an `Err` carrying the TypeError's message.
- **The filesystem is a value.** `Storage.Disk` maps paths to files, directories and dangling entries. It also holds a set of faulty paths.
  - A dangling entry, such as a broken link, is listed but reads as missing.
  - Every system call on a faulty path, or on a path under one, fails with an error other than ENOENT. The handlers that probe with `access` first treat such a path as missing.
  - A read of a missing file gives null. mkdir is idempotent. rmdir of a missing path does nothing. Listing a missing directory gives null.
- **Classes hold state that the source updates in place.** Their fields are the module-level refs. The disk is a field that the methods reassign.
  - Each state-changing method is specified by a function of the old state: `AddState`, `LoadState`, `MergeListState` and so on. The properties the source promises are proved as lemmas about those functions.
- **Dialogs, randomness and the clock are inputs.**
  - The confirmation dialog's answer is the button index.
  - `uuidv4` is a fresh-id parameter. The ICM import uses a k-th-draw function.
  - "Today" is a date parameter.
  - `humanparser`'s outcome and the rows `Papa.parse` produced are inputs.
- **Reactivity is explicit.** Vue watchers become methods the caller invokes. One example is `PatientListView.Refresh` for the filteredPatients watcher.

## Quirks of the code the model reproduces

- The patient list file sits directly in the data directory (src/composables/usePatientData.ts:84).
- Loading a day that has no list file empties the list and creates no file (src/composables/usePatientData.ts:113-146).
- Names are not re-parsed on load. Entries are only tagged with `type`.
- The record number is called `umrn` throughout.
- `moveFiles` removes the source directory even after entries that read as null were skipped (src/composables/usePatientData.ts:357-364).
- The outer catch of `addPatient` removes the patient's notes directory whenever it exists (src/composables/usePatientData.ts:306-329). That includes a umrn directory that was there before the add. `PatientData.AddRemovesExistingUmrnDir` states this, and "## Findings" lists it with the corrected cleanup.
- The branch of `mergePatientData` that creates a missing umrn directory (src/composables/usePatientData.ts:384-401) can never run. Both directories can be named exactly when the data directory is set.
- `mergePatientData` moves the notes before it looks for the list entry. A missing entry therefore fails after the move (`PatientData.MergeMissingEntry`).
- `new Date` accepts any day from 01 to 31 in a `YYYY-MM-DD` string and carries the excess into the next month, and it reads `T24:00` as the start of the next day. The date helpers of the main process (electron/main.ts:603, 612) and the note retrieval (src/composables/useNoteRetrieval.ts:24) therefore read `2024-02-30` as 1 March 2024 (`Calendar.LeapFebruaryOverflow`).

## Model

| member | source | states |
|---|---|---|
| Base.TrimEmptyIffBlank | src/composables/useNoteRetrieval.ts:52 | a trimmed text is empty exactly when the text is blank |
| Base.LowerIdempotent | src/composables/usePatientList.ts:39 | lower-casing twice is lower-casing once |
| Base.Split | src/utils/nameParser.ts:14 | a split gives at least one piece and no piece holds the separator |
| Base.SplitJoin | src/utils/nameParser.ts:14-21 | splitting the join of separator-free pieces gives the pieces back |
| Calendar.DaysIn | electron/main.ts:604 | every month has between 28 and 31 days |
| Calendar.Next | electron/main.ts:613 | the day after a valid date is a valid date |
| Calendar.Prev | electron/main.ts:604 | the day before a valid date is a valid date |
| Calendar.NextPrev | electron/main.ts:600-616 | stepping a day back and a day forward are inverse, across month and year ends, and move the date back and forward in time |
| Calendar.FormatIso | src/composables/useFileSystemAccess.ts:57 | the date part of an ISO timestamp has no 'T' and no '/' and is a usable file name |
| Calendar.ParseIso | src/composables/useNoteRetrieval.ts:24 | a date read from text is a valid calendar date with a year from 0 to 10000; a ten-character text is read as YYYY-MM-DD; a longer one is a date only when a 'T' and a time of day follow a valid YYYY-MM-DD, and then it is that day, or the next day when the hour is 24 |
| Calendar.ParseYmd | src/composables/useNoteRetrieval.ts:24 | a YYYY-MM-DD text is a date exactly when it has that shape, a month from 01 to 12 and a day from 01 to 31; the date is that many days counted from the first of the month, with a four-digit year |
| Calendar.After | src/composables/useNoteRetrieval.ts:24 | counting days forward from a valid date gives a valid date |
| Calendar.NextMonth | src/composables/useNoteRetrieval.ts:24 | the first of the following month is a valid date whose day is 1 |
| Calendar.AfterInMonth | src/composables/useNoteRetrieval.ts:24 | counting forward within a month changes only the day of the month |
| Calendar.AfterIntoNextMonth | src/composables/useNoteRetrieval.ts:24 | counting past the end of a month lands in the next month, with the excess days as the day |
| Calendar.MakeDay | src/composables/useNoteRetrieval.ts:24 | a year, a month and a day from 1 to 31 make a valid date of that year; an existing day of the month is itself, and a day past the end carries into the next month |
| Calendar.LeapFebruaryOverflow | electron/main.ts:603 | the text 2024-02-30 is read as 1 March 2024 |
| Calendar.EndOfDayIsNextDay | src/composables/useNoteRetrieval.ts:24 | a valid day followed by T24:00 is the next day, and followed by T00:00 it is that day |
| Calendar.ParseFormat | src/composables/useNoteRetrieval.ts:24 | reading back a formatted date gives the date |
| Calendar.ReadBack | src/composables/useNoteRetrieval.ts:24 | the pieces of a valid date written as YYYY-MM-DD are read back as that date |
| Calendar.DigitsRoundTrip | src/composables/useFileSystemAccess.ts:57 | a number written with enough digits reads back as itself |
| Calendar.DatePart | src/composables/useNoteEditor.ts:17 | the date part is the text before the first 'T', or the whole text when there is none |
| Calendar.DatePartIdempotent | src/composables/useNoteEditor.ts:94 | cutting the date to its day twice is cutting it once |
| Calendar.DatePartFree | src/composables/useNoteEditor.ts:17 | a text without 'T' is its own date part |
| Calendar.DatePartOfTimestamp | src/composables/usePatientData.ts:11 | the date part of an ISO timestamp is the formatted date |
| NameParser.Capitalized | src/utils/nameParser.ts:15-20 | a word keeps its length; a non-empty word has its first character upper-cased and the rest kept |
| NameParser.CapitalizeAll | src/utils/nameParser.ts:15-20 | the map over the words: one result per word, each the capitalised word |
| NameParser.TitleScan | src/utils/nameParser.ts:13-21 | the reference for title-casing: same length, and a character is upper-cased exactly when it begins a space-separated word |
| NameParser.ToTitleCase | src/utils/nameParser.ts:9-22 | undefined exactly for undefined and ''; otherwise the lower-cased text with each word's first character upper-cased, as long as the input and never '' |
| NameParser.SplitMapJoin | src/utils/nameParser.ts:14-21 | split on ' ', capitalise every piece but possibly the first, join on ' ': the same as the scan |
| NameParser.TitleJoin | src/utils/nameParser.ts:14-21 | the split/map/join pipeline of toTitleCase equals the scan from a word start |
| NameParser.SpaceStep | src/utils/nameParser.ts:14-21 | induction step of the pipeline/scan agreement for a leading space |
| NameParser.LetterStep | src/utils/nameParser.ts:14-21 | induction step of the pipeline/scan agreement for a leading non-space |
| NameParser.TitleKeepsSpaces | src/utils/nameParser.ts:13-21 | title-casing keeps every position and puts spaces exactly where the input had them |
| NameParser.SplitCount | src/utils/nameParser.ts:14 | texts with spaces at the same positions split into the same number of pieces |
| NameParser.TitleKeepsPieces | src/utils/nameParser.ts:14-21 | toTitleCase keeps the number of ' '-separated pieces, empty pieces from runs of spaces included |
| NameParser.TitleIdempotent | src/utils/nameParser.ts:9-22 | title-casing a title-cased name changes nothing |
| NameParser.ParsePatientName | src/utils/nameParser.ts:24-55 | a falsy name gives {}; otherwise rawName is the input, a parser failure leaves every part undefined, and each part is otherwise the title-cased parser output (fullName '' becomes undefined) |
| JsonModel.LookupFound | src/composables/usePatientData.ts:29 | a key is bound exactly when some property carries it, and the value read is one that property's entries hold |
| JsonModel.Put | src/composables/usePatientData.ts:29 | after `o[key] = v` the key reads as v and every other key reads as before; an existing key keeps its place, a new key goes last |
| JsonModel.PutKeeps | src/composables/usePatientData.ts:29 | an assignment to one key leaves every other key as it was |
| JsonModel.SpreadLookup | src/composables/usePatientData.ts:430-435 | in `{...base, ...over}` a key of `over` reads as `over` has it and every other key reads as in `base` |
| JsonModel.LookupAppendMissing | src/composables/usePatientData.ts:133-136 | a key that later properties lack is read from the earlier ones |
| JsonModel.StrictEqProperties | src/composables/usePatientData.ts:422 | the model's `===` is symmetric, and reflexive on undefined and on primitive values; objects and arrays are never equal, because references are not modelled |
| JsonModel.Stringify | src/composables/usePatientData.ts:190 | JSON.stringify never produces empty text |
| JsonModel.WrittenTextIsTruthy | src/composables/usePatientData.ts:415-421 | text written by JSON.stringify passes the `if (!fileContent)` test and parses back to the value written |
| Sorting.LessIrreflexive | src/composables/usePatientData.ts:922 | no string sorts before itself under `<` |
| Sorting.LessTransitive | src/composables/usePatientData.ts:922-923 | string `<` is transitive |
| Sorting.LessTotal | src/composables/usePatientData.ts:922-924 | of two different strings one sorts before the other |
| Sorting.LessAsymmetric | src/composables/usePatientData.ts:922-923 | two strings never sort before each other |
| Sorting.Compare | src/composables/usePatientData.ts:919-925 | the comparator is 0 exactly for equal keys, negative exactly when the first key sorts first, positive exactly when the second does |
| Sorting.Pos | src/composables/usePatientData.ts:919 | an element is placed after every element it does not sort before, and before the first it does |
| Sorting.SortShort | src/composables/usePatientList.ts:82 | a list of at most one patient is left as it is |
| Sorting.InsertPermutes | src/composables/usePatientData.ts:919 | placing one element adds exactly that element |
| Sorting.SortPermutes | src/composables/usePatientData.ts:919 | `Sorting.Sort`: sorting keeps every element with its multiplicity |
| Sorting.SortAllEqual | src/composables/usePatientList.ts:77-79 | `Sorting.Sort`: a comparator that returns 0 for every pair keeps the order |
| Sorting.SortByKey | src/composables/usePatientData.ts:917-933 | `Sorting.Sort`: sorting with a key comparator orders by the key, and keeps each group of equal keys in its original order (a stable sort) |
| Sorting.Reverse | src/composables/usePatientData.ts:69 | `reverse()` puts the i-th element from the end at position i |
| Sorting.ReverseDescending | src/composables/usePatientData.ts:68-69 | reversing a strictly ascending list gives a strictly descending one |
| Sorting.SortStringsAscending | src/composables/usePatientData.ts:68 | `sort()` of distinct strings keeps every one and puts them in strictly ascending order |
| NoteRetrieval.Extracted | src/composables/useNoteRetrieval.ts:37-49 | text that does not parse is kept as it is; an object with a string `content` gives that string |
| NoteRetrieval.Shown | src/composables/useNoteRetrieval.ts:31-61 | a failed read, a missing or empty file and a blank extracted text give the default message; otherwise the extracted text; whatever is shown is the message or non-blank |
| NoteRetrieval.GetNoteContent | src/composables/useNoteRetrieval.ts:16-62 | an unparseable date gives the default message before any read; for a parseable date it rejects exactly when the patient is null, with the TypeError of reading `patient.id` in the catch block; otherwise it gives what Shown makes of readFileForDate for that day |
| NoteRetrieval.ShownContent | src/composables/useNoteRetrieval.ts:38-56 | a file holding an object with a non-blank string content shows exactly that content |
| NoteRetrieval.ShownText | src/composables/useNoteRetrieval.ts:38-56 | a file whose extracted text is not blank shows exactly that text |
| NoteRetrieval.ReadForDateAt | src/composables/useFileSystemAccess.ts:170-181 | a file readable where getNoteFilePath points is what readFileForDate returns |
| NoteRetrieval.EditorNoteRetrieved | src/composables/useNoteRetrieval.ts:16-62 | a non-blank note saved by the editor is what getNoteContent resolves to for that day, when the base directory is "notes" and the umrn is falsy or not blank |
| AppConfig.ConfigPath | src/composables/useConfig.ts:31-34 | the config file's path exists exactly when the user-data directory is available, and is that directory's segments followed by config.json |
| AppConfig.ConfigNameIsSegment | src/composables/useConfig.ts:6 | config.json is a single path segment |
| AppConfig.ReadConfigFile | src/composables/useConfig.ts:29-40 | the file's contents when it is there, null when it is missing or anything on the way throws |
| AppConfig.WriteConfigFile | src/composables/useConfig.ts:42-57 | false without a user-data directory or when the write fails, with the disk unchanged; true means the file now reads back as the config written |
| AppConfig.Merged | src/composables/useConfig.ts:66-68 | `{...defaultConfig, ...loaded}`: every key the file has, valued as in the file; every other key valued as in the defaults |
| AppConfig.Save | src/composables/useConfig.ts:87-100 | refused before the first load with nothing changed; afterwards the write's outcome, with only the disk and isLoading touched, and a true result means the config is on disk |
| AppConfig.Load | src/composables/useConfig.ts:58-85 | a no-op once loaded; a file with text gives the merge (or the defaults and a message when it does not parse); a missing or empty file gives the defaults; always loaded and not loading afterwards, and the disk never changes |
| AppConfig.LoadIntended | src/composables/useConfig.ts:70-76 | the load as its comment intends: with no file, the defaults are saved for the first time |
| AppConfig.FirstStartLosesDefaults | src/composables/useConfig.ts:70-75 | on a first start with an empty disk the source's load writes nothing, while the intended load leaves the defaults in config.json |
| AppConfig.EmptyDisk | src/composables/useConfig.ts:29-57 | on an empty disk there is no config file, and writing one succeeds |
| AppConfig.SaveThenLoad | src/composables/useConfig.ts:58-100 | loading the file a successful save wrote gives back every key as saved, when the saved config has all default keys |
| AppConfig.SetDataDirectoryState | src/composables/useConfig.ts:102-110 | the current value gives true with nothing changed; another value is set and the result is saveConfig's; before the load the disk is never touched |
| AppConfig.IsDataDirectorySet | src/composables/useConfig.ts:118 | for the values the app stores (a string or null), true exactly for a non-empty string |
| AppConfig.ConfigStore.constructor | src/composables/useConfig.ts:7-21 | the fresh refs: the defaults, not loaded, no error, not loading |
| AppConfig.ConfigStore.SaveConfig | src/composables/useConfig.ts:87-100 | updates the refs and the disk as Save says |
| AppConfig.ConfigStore.LoadConfig | src/composables/useConfig.ts:58-85 | updates the refs as Load says |
| AppConfig.ConfigStore.SetDataDirectory | src/composables/useConfig.ts:102-110 | updates the refs and the disk as SetDataDirectoryState says |
| Paths.Segments | electron/main.ts:312 | a path string resolves to well-formed segments (no empty and no "." pieces) |
| Paths.Render | electron/main.ts:312 | the string path.join prints for a list of segments is never empty |
| Paths.SegmentsRender | electron/main.ts:312 | a rendered path resolves back to the segments it was rendered from |
| Paths.ValidSegments | electron/main.ts:308 | the kept arguments are non-empty strings, no more of them than were given |
| Paths.Flatten | electron/main.ts:312 | joining kept arguments gives well-formed segments |
| Paths.JoinPathsHandler | electron/main.ts:305-314 | join-paths fails, with "No valid path segments provided.", exactly when no non-empty string argument is left; otherwise its result resolves to the kept arguments' segments in order |
| Paths.JoinNests | electron/main.ts:305-314 | joining a rendered directory and a name gives that directory's segments followed by the name |
| MainProcess.HandleFsOperation | electron/main.ts:226-256 | a resolved call passes its value through; ENOENT for an operation named with read, delete or list gives [] when the name has list and null otherwise; every other failure is re-thrown as `[IPC] Failed to <op> '<target>': <message>` |
| MainProcess.ContainsPrefix | electron/main.ts:240 | a text contains every prefix of itself |
| MainProcess.CharAbsent | electron/main.ts:240 | a name lacking a character of the pattern does not contain the pattern |
| MainProcess.MissingTargets | electron/main.ts:239-246 | a missing target reads and deletes as null and lists as [], while writing and removing throw |
| MainProcess.HandleIpcOperation | electron/main.ts:266-296 | success passes through; a failure is re-thrown as `[IPC] Failed to <op>: <message>` |
| MainProcess.ExistsAbsolute | electron/main.ts:477-495 | true exactly when fs.access succeeds, false exactly on ENOENT, otherwise an error naming the basename and the message |
| MainProcess.GetConfigValue | electron/main.ts:580-598 | a failed read or parse gives DEFAULT_CONFIG's value; a parsed object gives its value for a present key and DEFAULT_CONFIG's value otherwise |
| MainProcess.ConfigValueDefaults | electron/main.ts:528-533 | the value is undefined exactly when the file lacks the key and the key is not one of the four defaults |
| MainProcess.PreviousDayNote | electron/main.ts:600-607 | an unparseable date is an error; otherwise the calendar day before the date `new Date` reads, as YYYY-MM-DD, where a day past the month's end has carried into the next month |
| MainProcess.NextDayNote | electron/main.ts:609-616 | an unparseable date is an error; otherwise the calendar day after the date `new Date` reads, as YYYY-MM-DD, where a day past the month's end has carried into the next month |
| MainProcess.DayStepsRoundTrip | electron/main.ts:600-616 | the day after the day before, and the day before the day after, are the date that was read |
| Storage.MakeDirs | electron/main/index.ts:169 | mkdir with recursive creates the path and every enclosing directory that is missing, keeps every existing entry, and adds nothing outside that chain |
| Storage.RemoveTree | electron/main/index.ts:284 | rm with recursive and force removes the path and exactly the entries inside it, keeping everything else |
| Storage.ReadMissing | electron/main/index.ts:134-157 | `Storage.Read`: reading a path that is not there returns null |
| Storage.ListMissing | electron/main/index.ts:321-339 | `Storage.List`: listing a directory that is not there (ENOENT) returns null |
| Storage.RmdirMissing | electron/main/index.ts:271-305 | `Storage.Rmdir`: removing a directory that is not there changes nothing and succeeds |
| Storage.MkdirIdempotent | electron/main/index.ts:238-269 | `Storage.Mkdir`: after mkdir the directory is accessible, and a second mkdir on it changes nothing |
| Storage.WriteThenRead | electron/main/index.ts:159-183 | `Storage.Write`: a successful write is read back as the content written |
| Storage.MakeDirsRoute | electron/main/index.ts:168-169 | after creating the parent of a written path, every enclosing directory is a directory |
| Storage.WriteFrame | electron/main/index.ts:159-183 | a write changes no path other than the target and its enclosing directories |
| Storage.MakeDirsValid | electron/main/index.ts:169 | creating directories keeps every entry inside directories |
| Storage.WriteValid | electron/main/index.ts:159-183 | a write keeps every entry inside directories |
| Storage.MkdirValid | electron/main/index.ts:238-269 | mkdir keeps every entry inside directories |
| Storage.RmdirValid | electron/main/index.ts:271-305 | removing a tree keeps every remaining entry inside directories |
| Storage.ReadAfterWrite | electron/main/index.ts:159-183 | a write leaves the read and the accessibility of every path apart from the target as they were |
| Storage.ReadAfterRmdir | electron/main/index.ts:271-305 | a removal leaves the read, the entry and the accessibility of every path outside the removed tree as they were |
| Storage.ReadAfterMkdir | electron/main/index.ts:238-269 | mkdir leaves the read, the entry and the listing of every path that does not enclose the new directory as they were |
| Storage.NoChildren | electron/main/index.ts:321-339 | on a well-formed disk a missing path or a broken link has nothing inside it |
| Storage.ChildrenSegments | electron/main/index.ts:326 | every name a listing returns is a single path segment |
| FileSystemAccess.CallElectronApi | src/composables/useFileSystemAccess.ts:5-15 | a successful bridge call passes its value through; a failure is re-thrown as `<prefix>: ` followed by Electron's `Error invoking remote method '<channel>': Error: ` and the handler's message, so it starts with the prefix and ends with that message |
| FileSystemAccess.RemoteError | electron/preload/index.ts:17-28 | the message a rejected `ipcRenderer.invoke` carries names the channel and ends with the handler's own message |
| FileSystemAccess.ValidateAbsolutePath | src/composables/useFileSystemAccess.ts:18-22 | refuses exactly the empty path, with `<function> requires a valid absolute path.` |
| FileSystemAccess.ArgSegments | src/composables/useFileSystemAccess.ts:29-40 | the segments the string arguments of a join resolve to are well-formed |
| FileSystemAccess.SegmentsEmpty | src/composables/useFileSystemAccess.ts:29-40 | an empty string argument contributes no segment |
| FileSystemAccess.SegmentOf | src/composables/useFileSystemAccess.ts:73-76 | a single path segment resolves to itself |
| FileSystemAccess.FlattenValid | src/composables/useFileSystemAccess.ts:35-38 | dropping the empty arguments before joining does not change the segments the arguments resolve to |
| FileSystemAccess.JoinPaths | src/composables/useFileSystemAccess.ts:29-40 | no arguments is refused with "joinPaths requires at least one path argument."; otherwise it fails exactly when no non-empty string is left, and a result resolves to the arguments' segments in order |
| FileSystemAccess.Join2 | src/composables/useFileSystemAccess.ts:73-76 | a two-piece join appends the second piece's segments to the first's, and succeeds whenever the second is a non-empty string |
| FileSystemAccess.PieceSegments | src/composables/useFileSystemAccess.ts:73-76 | a one-segment piece of a join contributes exactly that segment |
| FileSystemAccess.StrSegments | src/composables/useFileSystemAccess.ts:73-76 | a joined path passed back into a join contributes its own segments |
| FileSystemAccess.ReadFileAbsolute | src/composables/useFileSystemAccess.ts:80-86 | the empty path is refused; a missing file reads as null; content read is the file's content; a failed main-process read is an error |
| FileSystemAccess.WriteFileAbsolute | src/composables/useFileSystemAccess.ts:88-95 | the empty path is refused; after a successful write the file reads back as the content, the write is the main process's write, and a well-formed disk stays well-formed |
| FileSystemAccess.WriteAbsoluteFrame | src/composables/useFileSystemAccess.ts:88-95 | a successful write changes the read of no path that neither encloses nor lies inside the written file |
| FileSystemAccess.ExistsAbsolute | src/composables/useFileSystemAccess.ts:106-112 | the empty path is refused; a result is true exactly when the entry is present and resolves; it succeeds whenever nothing on the way is faulty or a file |
| FileSystemAccess.MkdirAbsolute | src/composables/useFileSystemAccess.ts:114-121 | the empty path is refused; afterwards the directory is accessible, the change is the main process's mkdir, and a well-formed disk stays well-formed |
| FileSystemAccess.RmdirAbsolute | src/composables/useFileSystemAccess.ts:123-130 | the empty path is refused; afterwards the path is gone; an inaccessible path is left alone; a well-formed disk stays well-formed |
| FileSystemAccess.ListFiles | src/composables/useFileSystemAccess.ts:142-148 | the empty path is refused; a listing is the entries of a directory; null means nothing resolvable is there |
| FileSystemAccess.KindDir | src/composables/useFileSystemAccess.ts:74 | `by-umrn` and `by-uuid` are single path segments |
| FileSystemAccess.KindDirsDiffer | src/composables/useFileSystemAccess.ts:74 | the two kinds file notes in different directories |
| FileSystemAccess.NoteOwner | src/composables/useFileSystemAccess.ts:63-72 | a null patient throws the TypeError of reading `umrn`; otherwise notes are filed by umrn exactly when the umrn is a string that is not blank after trimming (the untrimmed umrn names the directory), by id otherwise; a truthy umrn that is not a string throws |
| FileSystemAccess.Under | src/composables/useFileSystemAccess.ts:73-76 | joining a base, a segment and a last piece one at a time resolves to their segments in order |
| FileSystemAccess.Regroup | src/composables/useFileSystemAccess.ts:73-75 | the notes and kind segments regroup as one pair |
| FileSystemAccess.UnderTwo | src/composables/useFileSystemAccess.ts:73-75 | joining base, two segments and a last piece one at a time resolves to their segments in order |
| FileSystemAccess.NotesIsSegment | src/composables/useFileSystemAccess.ts:73 | "notes" is a single path segment |
| FileSystemAccess.OwnerDir | src/composables/useFileSystemAccess.ts:73-75 | the patient directory is the data directory followed by notes, by-<kind> and the owner's name |
| FileSystemAccess.NoteFileName | src/composables/useFileSystemAccess.ts:57-58 | the note file's name is the date as YYYY-MM-DD followed by .json, a single path segment |
| FileSystemAccess.GetNoteFilePath | src/composables/useFileSystemAccess.ts:51-77 | an invalid Date throws; a falsy data directory gives "Data directory is not configured."; a null patient or a truthy non-string umrn throws; otherwise the path is the patient directory followed by the note file's name |
| FileSystemAccess.ReadFileForDate | src/composables/useFileSystemAccess.ts:170-181 | a path error, including the one a null patient causes, is passed on; content returned is the note file's content; a note file that is not there reads as null |
| FileSystemAccess.WriteFileForDate | src/composables/useFileSystemAccess.ts:187-217 | a path error, including the one a null patient causes, is passed on; after a successful write the note file getNoteFilePath names reads back as the content, and readFileForDate returns it; every path that neither encloses nor lies inside that file reads as before, the patient directory's mkdir included |
| FileSystemAccess.WrittenIsThere | src/composables/useFileSystemAccess.ts:176-180 | a file that reads as some content exists and is read back by readFileAbsolute |
| Patients.ProjectSound | src/composables/usePatientData.ts:176-189 | every property the saved object holds is one of the kept names, with the value the patient has |
| Patients.ProjectComplete | src/composables/usePatientData.ts:176-189 | every kept name the patient defines is in the saved object |
| Patients.ProjectStep | src/composables/usePatientData.ts:176-189 | a kept property of the later keys keeps its value and stays in the saved object when the earlier key is added |
| Patients.ProjectLookup | src/composables/usePatientData.ts:176-189 | the saved object reads each kept name as the patient does, and everything else as undefined |
| Patients.ProjectAgrees | src/composables/usePatientData.ts:176-189 | two patients that agree on the kept names are saved identically |
| Patients.Sanitize | src/composables/usePatientData.ts:176-189 | the saved object is an object holding exactly the patient's twelve listed properties |
| Patients.SanitizeIdempotent | src/composables/usePatientData.ts:176-189 | sanitising a sanitised patient changes nothing |
| Patients.SanitizeAll | src/composables/usePatientData.ts:176-189 | the map throws on `p.id` exactly when the list holds null; otherwise each entry is sanitised in place |
| Patients.FindIndex | src/composables/usePatientData.ts:422 | an index found is in range, and an error is the TypeError of reading the property on null |
| Patients.FindIndexMeaning | src/composables/usePatientData.ts:422 | findIndex returns the first match after entries that are neither null nor matching; -1 means no entry is null or matches; it throws when a null entry comes before any match |
| Patients.FindIndexNone | src/composables/usePatientData.ts:469-472 | with no null entry and no match the search gives -1 |
| Patients.FindIndexAt | src/composables/usePatientData.ts:469-471 | a match preceded only by entries that are neither null nor matching is the index found |
| Patients.FilterFrom | src/composables/usePatientData.ts:549 | a filter keeps only entries of the list |
| Patients.Filter | src/composables/usePatientData.ts:549 | a filter is no longer than the list and keeps only accepted entries |
| Patients.FilterCounts | src/composables/usePatientData.ts:549 | a filter keeps every accepted entry as often as it occurs, and no other |
| Patients.FilterAppend | src/composables/usePatientData.ts:889-891 | filtering a concatenation filters each part |
| Patients.FilterNone | src/composables/usePatientData.ts:889-892 | a filter that accepts nothing gives the empty list |
| Patients.FilterOrThrow | src/composables/usePatientData.ts:549 | `filter(p => p.id !== id)` throws exactly when the list holds null, and otherwise keeps the accepted entries in order |
| Patients.Ids | src/composables/usePatientData.ts:886 | the id set holds each existing patient's id, position by position |
| Patients.TruthyUmrns | src/composables/usePatientData.ts:887 | the umrn set holds exactly the truthy umrns of the existing patients |
| Patients.HasPrefix | src/composables/usePatientData.ts:886-887 | a value in a set stays in it when more values are added |
| Patients.TruthyUmrnsAppend | src/composables/usePatientData.ts:887 | the truthy umrns of a concatenation are those of each part |
| Patients.IdsAppend | src/composables/usePatientData.ts:886 | the ids of a concatenation are those of each part |
| Patients.StaysDuplicate | src/composables/usePatientData.ts:889-891 | a patient rejected as a duplicate stays rejected when more patients are added |
| Patients.AppendedIsDuplicate | src/composables/usePatientData.ts:889-896 | a patient that was added is rejected the next time, when its id compares by value |
| Patients.NewPatientsIdempotent | src/composables/usePatientData.ts:886-896 | running addPatientsToDate's filter again after the addition adds nothing, when the ids compare by value |
| Patients.IdentifierMapKeys | src/composables/usePatientData.ts:24-33 | `Patients.IdentifierMap`: a name is in the identifier map exactly when some patient has that name and a truthy umrn |
| Patients.IdentifierMapLastWins | src/composables/usePatientData.ts:26-30 | `Patients.IdentifierMap`: a name maps to the umrn of the last patient with that name and a truthy umrn |
| Patients.MatchListName | src/composables/usePatientData.ts:61-65 | a matched file name is `patients_<date>.json` for a YYYY-MM-DD shaped date |
| Patients.MatchListFileName | src/composables/usePatientData.ts:61-65 | every snapshot file name the app writes matches, giving back its own date |
| Patients.MatchedDates | src/composables/usePatientData.ts:62-67 | the matched dates are exactly the dates of the matching file names |
| Patients.MatchedDatesDistinct | src/composables/usePatientData.ts:62-67 | distinct file names give distinct dates |
| Patients.SnapshotDatesDescending | src/composables/usePatientData.ts:62-69 | the listed snapshot dates are strictly descending, most recent first |
| Patients.SnapshotDatesMembers | src/composables/usePatientData.ts:62-69 | the listed snapshot dates are exactly the dates of the matching file names |
| Patients.SortKey | src/composables/usePatientData.ts:920-921 | a key can be computed exactly when the entry is not null and its field is falsy or a string; a null entry throws on the read, any other value raises the TypeError that names the comparator parameter; a key is lower case already |
| Patients.KeyError | src/composables/usePatientData.ts:919-933 | no error exactly when every entry's key can be computed; otherwise the error of the first entry, in list order, whose key throws |
| Patients.FirstErrorShifts | src/composables/usePatientData.ts:919-933 | the first throwing key of the tail is the first of the whole list when the head's key does not throw |
| Patients.SortByFieldSorted | src/composables/usePatientData.ts:917-933 | `SortByField`, sortPatients by location or name fails exactly when there are two entries or more and some key throws; a result holds the same entries, ordered by the lower-cased field, equal keys in their original order |
| Patients.SortError | src/composables/usePatientData.ts:917-933 | the sort throws exactly when some key throws; the first comparison takes items[1] as `a` and items[0] as `b`, so their errors come first and name those parameters; after them the first later entry whose key throws |
| Patients.FirstEntryReportedAsB | src/composables/usePatientData.ts:919-922 | sorting `[{location: 5}, {location: "x"}]` by location reports the first entry under the parameter name `b` |
| Patients.LastById | src/composables/usePatientData.ts:937-939 | the id map gives a listed patient with that id, and nothing exactly when no patient has it |
| Patients.CustomOrder | src/composables/usePatientData.ts:934-941 | restoring the custom order throws exactly when either list holds null |
| Patients.CustomRestores | src/composables/usePatientData.ts:934-941 | choosing the custom order after sorting gives back the order as loaded, when the ids tell the patients apart |
| Patients.RestoreFrom | src/composables/usePatientData.ts:938-940 | each prefix of the loaded order is restored as it was |
| Patients.FoundById | src/composables/usePatientData.ts:937-939 | with distinct ids, looking up an entry's id in the map built from a rearranged list finds that entry |
| Patients.Literal | src/composables/usePatientData.ts:640-655 | a key the object literal does not name reads as undefined |
| Patients.Decide | src/composables/usePatientData.ts:622-638 | a row is kept with its umrn as id exactly when its trimmed umrn is present and not skipped as existing; it draws a uuid exactly when it has no umrn but a name; otherwise it is skipped |
| Patients.Imported | src/composables/usePatientData.ts:637-655 | an imported patient is an object with the chosen id, and type "umrn" exactly when the row has a umrn |
| Patients.ParseAndMapICMPatients | src/composables/usePatientData.ts:589-660 | the first parser error is thrown with its message and row; no rows give no patients; a null patient in the list throws on `.type`; otherwise the rows are mapped in order against the umrns already listed |
| Patients.MapEachRow | src/composables/usePatientData.ts:620-657 | the loop pushes exactly the patients the rows map to, in row order, drawing uuids in turn |
| Patients.Push | src/composables/usePatientData.ts:656 | pushing onto the patients so far regroups the concatenation |
| Patients.MapRowsStep | src/composables/usePatientData.ts:620-657 | `Patients.MapRows`, the import loop: one loop step skips the row, or pushes its patient with its umrn or the next uuid |
| Patients.MapRowsShape | src/composables/usePatientData.ts:620-657 | `Patients.MapRows`: the import gives at most one patient per row, each an object whose id is a umrn not already listed (when existing umrns are skipped) or one of the uuids drawn |
| Patients.SkipRowShape | src/composables/usePatientData.ts:626-635 | a skipped row contributes no patient |
| Patients.UmrnRowShape | src/composables/usePatientData.ts:632-656 | a row with a umrn contributes a patient of umrn type |
| Patients.DrawRowShape | src/composables/usePatientData.ts:637-656 | a row without a umrn contributes a patient whose id is the next uuid |
| Patients.UmrnShape | src/composables/usePatientData.ts:637-643 | a patient made from a kept umrn has umrn type and an id not already listed when existing umrns are skipped |
| Patients.DrawShape | src/composables/usePatientData.ts:637-643 | a patient made with a drawn uuid has uuid type and that uuid as id |
| Patients.ShapeWidens | src/composables/usePatientData.ts:656 | the patients pushed so far followed by the later ones all have the imported shape |
| PatientData.ListPath | src/composables/usePatientData.ts:80-89 | the list file is named only when a data directory is set, as patients_<date>.json inside it |
| PatientData.ListPathSegments | src/composables/usePatientData.ts:84 | the list file resolves to the data directory's segments followed by the file name |
| PatientData.NotesDir | src/composables/usePatientData.ts:91-105 | a notes directory is named only when a data directory is set, as notes/by-<kind>/<id> inside it |
| PatientData.NotesDirSegments | src/composables/usePatientData.ts:97-99 | a notes directory resolves to the data directory's segments followed by notes, by-<kind> and the id |
| PatientData.NotesDirsApart | src/composables/usePatientData.ts:376-377 | the uuid and the umrn notes directories of one data directory never contain one another |
| PatientData.SplitHead | src/composables/usePatientData.ts:84 | the first segment of a joined text is the text before its first separator |
| PatientData.ListFileHead | src/composables/usePatientData.ts:84 | the list file name's first segment starts with 'p', so it is not the notes directory |
| PatientData.ListApartFromNotes | src/composables/usePatientData.ts:80-105 | the list file lies outside every notes directory of the same data directory |
| PatientData.LoadedPatient | src/composables/usePatientData.ts:133-136 | a loaded patient keeps every property and gets type "umrn" exactly when its umrn is truthy, "uuid" otherwise |
| PatientData.Loaded | src/composables/usePatientData.ts:132-137 | only an array loads; a null entry makes the load fail; otherwise every entry is tagged in place and in order |
| PatientData.ReadList | src/composables/usePatientData.ts:113-146 | a failed read gives its message, a missing or empty file gives nothing, and every loaded entry is an object tagged "umrn" or "uuid" |
| PatientData.Saved | src/composables/usePatientData.ts:166-192 | a save refuses a non-array, fails on a null entry and reports a failed write; a success stores each entry sanitized, in order, as the file's JSON text |
| PatientData.SaveThenLoad | src/composables/usePatientData.ts:108-199 | a list that was saved loads back as the saved objects, each tagged by whether it has a umrn |
| PatientData.PatientStore.constructor | src/composables/usePatientData.ts:10-21 | the store starts with empty lists, no message, not loading, and today's date active |
| PatientData.PatientStore.UpdatePatientIdentifierArray | src/composables/usePatientData.ts:24-33 | the identifier map is rebuilt from truthy names and umrns with the last patient winning, and a null entry leaves it unchanged |
| PatientData.PatientStore.ListAvailablePatientListDates | src/composables/usePatientData.ts:56-77 | the dates are exactly those of the snapshot files in the listing, strictly newest first; a failed listing gives none |
| PatientData.PatientStore.MoveFiles | src/composables/usePatientData.ts:336-369 | after the move every readable source entry reads the same in the target, target entries of names the source did not list keep their contents, the source is gone, and nothing outside both directories changed |
| PatientData.PatientStore.CopyEach | src/composables/usePatientData.ts:343-361 | the loop keeps the move invariant over every listed entry and changes nothing outside both directories |
| PatientData.PatientStore.AddPatient | src/composables/usePatientData.ts:203-334 | the new state and the returned patient are AddState of the old state, the form data, the dialog's answer and the drawn id |
| PatientData.PatientStore.CheckDuplicate | src/composables/usePatientData.ts:216-250 | the new state and the result are DuplicateState of the old state |
| PatientData.PatientStore.CreatePatient | src/composables/usePatientData.ts:252-334 | the new state and the result are CreateState of the old state |
| PatientData.PatientStore.ProbeNotesDir | src/composables/usePatientData.ts:256-264 | the new state is ProbeDirState of the old one |
| PatientData.PatientStore.MakeNotesDir | src/composables/usePatientData.ts:271-283 | the new state is MakeDirState of the old one |
| PatientData.PatientStore.StoreNewPatient | src/composables/usePatientData.ts:285-305 | the new state is StoreNewState of the old one |
| PatientData.PatientStore.AbandonNewPatient | src/composables/usePatientData.ts:294-330 | a failed save records its message, removes the notes directory through the cleanup and ends loading, nothing else changing |
| PatientData.PatientStore.CleanUpNotesDir | src/composables/usePatientData.ts:310-329 | only the disk changes, to the cleanup of the notes directory |
| PatientData.PatientStore.RemoveNotesDir | src/composables/usePatientData.ts:294-329 | only the disk changes, to the cleanup after a failed save |
| PatientData.PatientStore.SetActivePatientListDate | src/composables/usePatientData.ts:50-53 | the new state is the load of the old state with the date made active |
| PatientData.PatientStore.LoadPatients | src/composables/usePatientData.ts:108-156 | the new state is LoadState of the old one: the tagged content of the active date's file, or empty lists |
| PatientData.PatientStore.SavePatients | src/composables/usePatientData.ts:159-199 | a successful save stores the sanitized list in the active date's file and makes it the patient list; a failure changes only the message |
| PatientData.PatientStore.MergePatientData | src/composables/usePatientData.ts:371-457 | without a data directory it stops; otherwise the notes are moved from the uuid directory to the umrn one, and the list entry is rewritten when the move succeeds |
| PatientData.PatientStore.RewriteMergedEntry | src/composables/usePatientData.ts:409-427 | the new state and the result are MergeListState of the old state |
| PatientData.PatientStore.RewriteEntry | src/composables/usePatientData.ts:421-440 | the new state and the result are MergeEntryState of the old state |
| PatientData.PatientStore.StoreMergedList | src/composables/usePatientData.ts:438-449 | the new state and the result are RewriteState of the old state |
| PatientData.PatientStore.UpdatePatient | src/composables/usePatientData.ts:458-493 | the new state and the result are UpdateState of the old state |
| PatientData.PatientStore.ReplacePatient | src/composables/usePatientData.ts:464-492 | the new state and the result are ReplaceState of the old state |
| PatientData.PatientStore.RemovePatient | src/composables/usePatientData.ts:495-577 | the new state and the result are RemoveState of the old state and the dialog's answer |
| PatientData.PatientStore.RemoveConfirmed | src/composables/usePatientData.ts:545-577 | the new state and the result are ConfirmedRemoveState of the old state |
| PatientData.PatientStore.GetPatientById | src/composables/usePatientData.ts:579-581 | the result is the first listed patient with that id, undefined when none matches, and an error when a null entry is reached first |
| PatientData.PatientStore.GetPatientByUmrn | src/composables/usePatientData.ts:583-586 | the result is the first listed umrn-type patient with that id, with the same error for a null entry |
| PatientData.PatientStore.AddPatientsToDate | src/composables/usePatientData.ts:869-910 | the new state and the result are ToDateState of the old state |
| PatientData.PatientStore.AppendToDate | src/composables/usePatientData.ts:896-904 | the new state and the result are AppendToDateState of the old state |
| PatientData.PatientStore.SortPatients | src/composables/usePatientData.ts:917-942 | the new state and the result are SortState of the old state |
| PatientData.MovedAll | src/composables/usePatientData.ts:343-361 | once every listed entry is handled, every readable entry of the source reads the same in the target, and the target's entries of other names are as before |
| PatientData.SkipStep | src/composables/usePatientData.ts:350-359 | skipping an entry that reads as null keeps the move invariant |
| PatientData.CopyStep | src/composables/usePatientData.ts:350-356 | writing an entry's content into the target keeps the move invariant |
| PatientData.RemoveStep | src/composables/usePatientData.ts:364 | removing the source keeps every read outside it |
| PatientData.MkdirStep | src/composables/usePatientData.ts:339-341 | creating the target keeps every read the move invariant speaks of |
| PatientData.Inside | src/composables/usePatientData.ts:348-349 | an entry path inside a directory resolves to the directory's segments followed by the entry name |
| PatientData.SavedObjects | src/composables/usePatientData.ts:176-189 | every entry of a saved list is an object, never null |
| PatientData.LoadState | src/composables/usePatientData.ts:108-156 | loading never writes, the custom order is the loaded list and every entry is a tagged object; without a loaded configuration or a data directory both lists are emptied |
| PatientData.SaveState | src/composables/usePatientData.ts:159-199 | a failed save changes only the message; a successful one puts the sanitized list on disk and makes it the patient list |
| PatientData.SaveOutcome | src/composables/usePatientData.ts:159-199 | a successful save also rebuilds the identifier map from the saved list, and a failed one keeps the map |
| PatientData.NewPatient | src/composables/usePatientData.ts:265-270 | the id is the umrn with type "umrn" when the umrn is truthy, and the drawn id with type "uuid" otherwise; the form data is kept otherwise |
| PatientData.RemoveQuietly | src/composables/usePatientData.ts:297-302 | a successful removal gives its disk, and a failed one leaves the disk as it was |
| PatientData.CleanUp | src/composables/usePatientData.ts:310-329 | the outer catch's cleanup removes the directory only when it exists and never fails |
| PatientData.FailedAddDisk | src/composables/usePatientData.ts:294-329 | the disk left after the cleanup of a failed add stays a valid filesystem |
| PatientData.AddState | src/composables/usePatientData.ts:203-334 | addPatient always ends loading, keeps the custom order and the active date, and leaves a valid filesystem |
| PatientData.DuplicateState | src/composables/usePatientData.ts:216-250 | the duplicate check ends loading, keeps the custom order and the active date, and leaves a valid filesystem |
| PatientData.CreateState | src/composables/usePatientData.ts:252-334 | creation ends loading and keeps the custom order and active date; a patient it returns is the one built from the form data |
| PatientData.ProbeDirState | src/composables/usePatientData.ts:256-264 | the probe step ends loading and returns, if anything, the patient being added |
| PatientData.MakeDirState | src/composables/usePatientData.ts:271-283 | the mkdir step ends loading and returns, if anything, the patient being added |
| PatientData.StoreNewState | src/composables/usePatientData.ts:285-330 | the save step ends loading and returns, if anything, the patient being added |
| PatientData.SaveAppends | src/composables/usePatientData.ts:285-289 | saving the list with the patient appended stores the sanitized old list with the sanitized patient last |
| PatientData.StoreAppends | src/composables/usePatientData.ts:285-293 | a successful store appends the patient and keeps a directory apart from the list file |
| PatientData.MakeDirAppends | src/composables/usePatientData.ts:271-293 | whenever the patient is stored, its notes directory is there |
| PatientData.ProbeAppends | src/composables/usePatientData.ts:256-293 | a directory the probe found is kept, one it did not find is made, and the patient is stored under it |
| PatientData.UmrnAppends | src/composables/usePatientData.ts:256-293 | a umrn patient that is created is stored with the umrn's notes directory present |
| PatientData.UuidAppends | src/composables/usePatientData.ts:265-293 | a patient without a umrn that is created is stored with the fresh uuid's notes directory present |
| PatientData.AddAppends | src/composables/usePatientData.ts:252-305 | a created patient is appended at the end and returned, its id and type following its umrn, and its notes directory exists |
| PatientData.AddRemovesExistingUmrnDir | src/composables/usePatientData.ts:306-329 | when a umrn patient's directory already existed and the save fails, the outer catch removes that directory with its notes |
| PatientData.IntendedFailedAddDisk | src/composables/usePatientData.ts:294-329 | the corrected cleanup: a directory that was already there is left untouched, as the inner cleanup's `!umrnExists` guard intends |
| PatientData.IntendedKeepsExistingUmrnDir | src/composables/usePatientData.ts:259-329 | for a umrn patient whose directory exists and whose save fails, the as-written flow ends in `FailedAddDisk` with the directory present before, while the corrected cleanup leaves the disk unchanged and the directory still there |
| PatientData.FindsFirstNamed | src/composables/usePatientData.ts:221-223 | among objects the name search finds the first patient of that name |
| PatientData.FindsNoneNamed | src/composables/usePatientData.ts:221-224 | among objects the name search finds nothing exactly when no patient has that name |
| PatientData.AddOffersDuplicate | src/composables/usePatientData.ts:224-248 | "Merge Patients" returns the first listed patient of that name, any other answer but "Create New" returns null, and neither touches the list or disk |
| PatientData.AddCreatesOtherwise | src/composables/usePatientData.ts:217-252 | with a umrn, with no listed name, or on "Create New", addPatient goes on to create |
| PatientData.Find | src/composables/usePatientData.ts:496 | the result is the first matching entry, none when nothing matches, and an error when a null entry comes before any match |
| PatientData.ParsedFile | src/composables/usePatientData.ts:415-420 | a failed read or parse gives its message, a missing or empty file nothing, otherwise the parsed value |
| PatientData.WrittenParses | src/composables/usePatientData.ts:415-440 | a list written as JSON reads back and parses to that list |
| PatientData.MergedEntry | src/composables/usePatientData.ts:430-435 | the rewritten entry is an object whose id and umrn are the umrn and whose type is "umrn", every other property as before |
| PatientData.MergedLookup | src/composables/usePatientData.ts:430-435 | the rewritten entry reads id and umrn as the umrn and type as "umrn" |
| PatientData.MergedOther | src/composables/usePatientData.ts:430-435 | every other property of the rewritten entry reads as in the original |
| PatientData.FindInParsed | src/composables/usePatientData.ts:421-422 | a found index lies inside an array; null and any other non-array fail with their own messages |
| PatientData.MergeListState | src/composables/usePatientData.ts:409-449 | a failed merge step changes only the message; the custom order, the identifier map and the dates are never touched |
| PatientData.MergeEntryState | src/composables/usePatientData.ts:421-449 | a failed rewrite changes only the message; the custom order, the identifier map and the dates are never touched |
| PatientData.RewriteState | src/composables/usePatientData.ts:438-449 | a failed write changes only the message; a successful one changes only the disk and makes the new list the patient list |
| PatientData.MergeFoundAt | src/composables/usePatientData.ts:422-435 | a successful merge found an array and rewrote its first entry whose id is the uuid |
| PatientData.FoundById | src/composables/usePatientData.ts:422 | the index found is the first entry with that id, after no null entry |
| PatientData.RewriteStored | src/composables/usePatientData.ts:438-447 | removing the uuid directory leaves the written list file alone |
| PatientData.MergeRewritesFirst | src/composables/usePatientData.ts:409-449 | a successful merge rewrote only the first entry with the uuid as its id, kept every other entry in place, and the file holds the new list, which is the patient list |
| PatientData.RemovedElsewhere | src/composables/usePatientData.ts:442-447 | a quiet removal of a directory leaves the read of every path apart from it unchanged |
| PatientData.MergeFindsEntry | src/composables/usePatientData.ts:415-449 | when the list holds the uuid's entry after no null entry and can be written, the merge succeeds with that entry rewritten |
| PatientData.EntryFound | src/composables/usePatientData.ts:422-435 | the entry rewritten is the one the search found |
| PatientData.MergeMissingEntry | src/composables/usePatientData.ts:422-427 | when no entry has the uuid as its id, the merge fails and the list and the disk are as the move left them |
| PatientData.MergeKeepsNotes | src/composables/usePatientData.ts:371-449 | after a successful merge the umrn directory still holds every note copied from the uuid directory and its other entries as before the move, and the uuid directory is gone |
| PatientData.UpdateState | src/composables/usePatientData.ts:458-463 | without a data directory the update fails and only the message changes; the custom order and active date are always kept |
| PatientData.ReplaceState | src/composables/usePatientData.ts:464-492 | the replacement ends loading, keeps the custom order and active date, and leaves a valid filesystem |
| PatientData.SaveSanitizes | src/composables/usePatientData.ts:176-192 | a successful save stores the input sanitized entry by entry and changes nothing else |
| PatientData.UpdateReplacesInPlace | src/composables/usePatientData.ts:467-485 | a successful update replaced the first entry with the patient's id, kept length and order, and saved the sanitized list |
| PatientData.ReplaceInPlace | src/composables/usePatientData.ts:467-485 | the same in-place replacement for the step after loading starts |
| PatientData.ReplacedAt | src/composables/usePatientData.ts:469-479 | the entry replaced is the first with the updated patient's id |
| PatientData.UpdateRefusesUnlisted | src/composables/usePatientData.ts:469-475 | updating a patient whose id is not listed fails and changes only the message |
| PatientData.RemoveState | src/composables/usePatientData.ts:495-577 | removal keeps the custom order and the active date and leaves a valid filesystem |
| PatientData.ConfirmedRemoveState | src/composables/usePatientData.ts:545-577 | a confirmed removal never throws, ends loading and keeps the custom order and active date |
| PatientData.RemoveOnlyFilters | src/composables/usePatientData.ts:522-558 | a successful removal was confirmed for a listed patient, saved the old list without every entry of that id in order, and changed no path but the list file |
| PatientData.RemoveSucceeded | src/composables/usePatientData.ts:538-558 | a successful removal was confirmed for a listed id and saved the filtered list |
| PatientData.SaveKeepsOthers | src/composables/usePatientData.ts:190-192 | a successful save leaves every path apart from the list file alone |
| PatientData.RemoveRefused | src/composables/usePatientData.ts:495-542 | any answer but "Remove from List", or an unlisted id, leaves list and disk alone and reports no success |
| PatientData.ExistingPatients | src/composables/usePatientData.ts:875-887 | what is read holds no null, and a parsed array without null entries is taken as it is |
| PatientData.ToDateState | src/composables/usePatientData.ts:869-910 | only the disk, the patient list, the identifier map and the message change, the list only when the date is today, and nothing without a data directory |
| PatientData.AppendToDateState | src/composables/usePatientData.ts:896-904 | only the disk, the patient list, the identifier map and the message change, the list only when the date is today |
| PatientData.ToDateAppendsNew | src/composables/usePatientData.ts:885-898 | the existing entries stay first and in order, exactly the incoming patients new to the file follow, and nothing changes when none is new |
| PatientData.AddedHasNoNull | src/composables/usePatientData.ts:896 | the patients taken from a list without null entries are not null |
| PatientData.ToDateTwice | src/composables/usePatientData.ts:869-910 | running the same addition again adds nothing and changes nothing, when the incoming ids are primitive values |
| PatientData.SortState | src/composables/usePatientData.ts:917-942 | sorting changes only the patient list, and an error changes nothing |
| PatientData.SortOutcome | src/composables/usePatientData.ts:917-942 | location and name sorts keep the same patients, ordered by that property with ties kept, and custom gives the custom order restricted to listed ids |
| PatientData.SortThenCustom | src/composables/usePatientData.ts:934-941 | choosing custom after any sort gives back the order as loaded, when the list holds the custom order's distinct patients |
| PatientData.Enumerate | electron/main/index.ts:326 | the listing is enumerated without repeats and holds exactly the directory's entries |
| PatientList.IndexOf | src/composables/usePatientList.ts:93 | the position is -1 exactly when the id is not selected, and otherwise the id's first position |
| PatientList.ToggleFlips | src/composables/usePatientList.ts:92-99 | `PatientList.Toggled`, the checkboxSelect update: on a selection without repeats a toggle flips the membership of that id alone and adds no repeat |
| PatientList.ToggleTwiceAbsent | src/composables/usePatientList.ts:92-99 | `PatientList.Toggled`: toggling an unselected id twice gives the selection back exactly |
| PatientList.ToggleTwicePresent | src/composables/usePatientList.ts:92-99 | toggling a selected id twice keeps the same ids, the id itself moving to the end |
| PatientList.FieldHit | src/composables/usePatientList.ts:43-45 | a field hits exactly when it is a non-empty string whose lower-cased text contains the term, and throws exactly when it is truthy but not a string |
| PatientList.Screen | src/composables/usePatientList.ts:41-46 | a filter succeeds exactly when its test throws on no entry, and then keeps the accepted entries |
| PatientList.SearchAll | src/composables/usePatientList.ts:41-46 | the search succeeds exactly when no entry throws, and then keeps the entries it hits |
| PatientList.FilteredPatients | src/composables/usePatientList.ts:29-47 | an empty search gives the whole list; otherwise the entries the lower-cased term hits, unless an entry throws |
| PatientList.FilterPicks | src/composables/usePatientList.ts:41-46 | a filter's entries come from increasing positions of the list, and every accepted position is among them |
| PatientList.FilteredInOrder | src/composables/usePatientList.ts:29-47 | with a search term the view is exactly the hit entries, in list order |
| PatientList.LocationCompare | src/composables/usePatientList.ts:66-76 | two missing locations tie, a missing one goes after a present one, and two present ones tie exactly when their lower-cased texts are equal |
| PatientList.PrefixedLess | src/composables/usePatientList.ts:66-76 | a common first character does not change the order of two texts |
| PatientList.LocationOrders | src/composables/usePatientList.ts:66-76 | the location comparator is consistent: it compares location keys, missing ones last |
| PatientList.NameCompareNamed | src/composables/usePatientList.ts:64-65 | between entries with a string name the comparator never throws and compares the lower-cased names |
| PatientList.NameCompareInconsistent | src/composables/usePatientList.ts:64-65 | a nameless entry ties with a named one, yet the named one puts the nameless one first: the comparator is not consistent |
| PatientList.NameCompareUnnamed | src/composables/usePatientList.ts:64-65 | an entry whose rawName is missing or null, on the left, compares equal to anything, a null right side included, because the optional chain stops before `b` is read |
| PatientList.NameOrders | src/composables/usePatientList.ts:64-65 | between named entries the name comparator is consistent with the lower-cased names |
| PatientList.SortViewCustom | src/composables/usePatientList.ts:77-79 | `PatientList.SortView`: the custom mode keeps the order of the view |
| PatientList.SortViewSingle | src/composables/usePatientList.ts:82 | `PatientList.SortView`: a view of at most one entry is left as it is in every mode |
| PatientList.SortViewLocation | src/composables/usePatientList.ts:61-83 | `PatientList.SortView`: a location sort throws exactly on a null entry among two or more; otherwise it is a stable permutation ordered by location, missing locations last |
| PatientList.SortViewName | src/composables/usePatientList.ts:61-83 | `PatientList.SortView`: a name sort over named entries succeeds with a stable permutation ordered by the lower-cased names |
| PatientList.NamedSortView | src/composables/usePatientList.ts:61-83 | `PatientList.SortView`: over entries that all have a string name, the name sort is the stable sort by the lower-cased names |
| PatientList.SortViewUnnamed | src/composables/usePatientList.ts:61-83 | `PatientList.SortView`: when no entry has a rawName, the comparator gives 0 for every pair and the name sort keeps the order |
| PatientList.SavedListSortsByNameUnchanged | src/composables/usePatientData.ts:176-192 | every list savePatients stores has no rawName on any entry, so its name sort keeps the order |
| PatientList.MovedPermutes | src/composables/usePatientList.ts:209-214 | `PatientList.Moved`, the onEnd splice pair: a drag keeps the length and the entries and puts the dragged entry at its new index |
| PatientList.MovedBack | src/composables/usePatientList.ts:209-214 | `PatientList.Moved`: dragging the entry back to where it came from undoes the drag |
| PatientList.Picked | src/composables/usePatientList.ts:135-137 | the patients picked are at most one per selected id and all listed |
| PatientList.PickedListed | src/composables/usePatientList.ts:135-137 | on a list without null entries, each selected listed id contributes its first listed patient |
| PatientList.PickedAtLast | src/composables/usePatientList.ts:135-137 | the last selected id contributes its first listed patient |
| PatientList.PickedGrows | src/composables/usePatientList.ts:135-137 | a patient picked for the earlier ids stays picked when one more id is selected |
| PatientList.PickedStep | src/composables/usePatientList.ts:135-137 | one more selected id adds its first listed truthy patient, or nothing, at the end |
| PatientList.PickedTotal | src/composables/usePatientList.ts:135-137 | on a list without null entries the lookup never throws |
| PatientList.PatientListView.constructor | src/composables/usePatientList.ts:20-26 | the view starts in custom mode with nothing shown, nothing selected and no search |
| PatientList.PatientListView.CheckboxSelect | src/composables/usePatientList.ts:92-99 | the selection becomes the toggled one, and nothing else changes |
| PatientList.PatientListView.SortDraggable | src/composables/usePatientList.ts:61-83 | the outcome is the view sort of the shown list in the current mode; a settled sort becomes the shown list, a throw leaves it as it was, and an unsettled name sort leaves a permutation of it; a name sort of a list without rawName keeps it exactly |
| PatientList.PatientListView.SetSortMode | src/composables/usePatientList.ts:54-58 | the mode is taken, then the shown list is sorted by it: the settled result, the old list after a throw, or a permutation of it when the name sort is unsettled; in name mode a list without rawName keeps its order |
| PatientList.PatientListView.Refresh | src/composables/usePatientList.ts:86-89 | a throwing filter leaves the shown list as it was; otherwise the shown list becomes the filtered list sorted in the current mode, the filtered list itself when the sort throws, or a permutation of it when the name sort is unsettled; in name mode a filtered list without rawName is shown in its filtered order |
| PatientList.PatientListView.OnSortEnd | src/composables/usePatientList.ts:161-182 | a non-array is refused without saving; otherwise the save's outcome, with the given list as the store's list after a successful save |
| PatientList.PatientListView.OnDragEnd | src/composables/usePatientList.ts:207-220 | the shown list becomes the drag's permutation, which is then saved as the new order |
| PatientList.PatientListView.AddSelectedToToday | src/composables/usePatientList.ts:123-158 | nothing happens without a selection, from today's own list, when the lookup throws, or when no selected patient is listed; otherwise the picked patients are added to today's file |
| NoteEditor.Join3 | src/composables/useNoteEditor.ts:23-32 | joining three parts succeeds once the second or third is a non-empty string, and gives the segments of the three parts in order |
| NoteEditor.NoteDir | src/composables/useNoteEditor.ts:21-26 | the note directory is the base directory's segments, then by-<kind>, then the owner's id |
| NoteEditor.NoteFile | src/composables/useNoteEditor.ts:28-32 | the note file is the data directory's segments, then the note directory, then the file name |
| NoteEditor.Owner | src/composables/useNoteEditor.ts:22-26 | a note is filed by umrn exactly when the umrn is truthy, under the umrn as it is, and by id otherwise |
| NoteEditor.FileName | src/composables/useNoteEditor.ts:17 | the file name is the date before any 'T' followed by .json |
| NoteEditor.GetNotePath | src/composables/useNoteEditor.ts:14-37 | a path is named exactly when the data directory is set, the date is a string and the patient is not null, and it is data directory, base directory, by-<kind>, owner, day file |
| NoteEditor.ResolversAgree | src/composables/useNoteEditor.ts:14-37 | with the default base directory, a matching day and a umrn that is falsy or not blank, the editor and the note retrieval name the same file |
| NoteEditor.EditorSegments | src/composables/useNoteEditor.ts:14-37 | with the default base directory the editor's path is data directory, notes, by-<kind>, owner, day file |
| NoteEditor.AccessSegments | src/composables/useFileSystemAccess.ts:51-77 | the retrieval's path is data directory, notes, by-<kind>, owner, day file |
| NoteEditor.SameOwner | src/composables/useNoteEditor.ts:22-26 | a patient object whose umrn is falsy or a non-blank string is filed under the same owner by both resolvers |
| NoteEditor.BlankUmrnDiverges | src/composables/useNoteEditor.ts:22-26 | a umrn of spaces only is filed by umrn in the editor and by uuid in the retrieval, so the two name files in different places |
| NoteEditor.KindsApart | src/composables/useNoteEditor.ts:23-25 | paths with by-umrn and by-uuid at the same position never contain one another |
| NoteEditor.EditorByUmrn | src/composables/useNoteEditor.ts:22-23 | a patient filed by umrn gets by-umrn right after the data directory and base directory |
| NoteEditor.AccessByUuid | src/composables/useFileSystemAccess.ts:51-77 | a patient filed by id gets by-uuid right after the data directory and notes |
| NoteEditor.BlankOwners | src/composables/useNoteEditor.ts:22 | a blank umrn is truthy for the editor and trimmed away by the retrieval |
| NoteEditor.EditorKindAt | src/composables/useNoteEditor.ts:21-32 | the editor's by-<kind> segment comes after the data directory and base directory segments |
| NoteEditor.AccessKindAt | src/composables/useFileSystemAccess.ts:51-77 | the retrieval's by-<kind> segment comes after the data directory and notes |
| NoteEditor.EmptyNote | src/composables/useNoteEditor.ts:65 | the made-up note has the day of the date and empty content |
| NoteEditor.Loaded | src/composables/useNoteEditor.ts:40-74 | without a data directory, or with a null patient, the load fails with its message; a note is returned exactly when no error is left, and a read failure is reported as a load failure |
| NoteEditor.ReadNote | src/composables/useNoteEditor.ts:58-73 | the read gives a note exactly when it leaves no error, and every error it leaves is a load failure |
| NoteEditor.LoadMissing | src/composables/useNoteEditor.ts:63-65 | a configured load of a file that is not there gives the empty note for the date |
| NoteEditor.NoteToSave | src/composables/useNoteEditor.ts:94 | the note to save has its date cut to the day and every other field kept |
| NoteEditor.Saved | src/composables/useNoteEditor.ts:76-104 | without a data directory the save fails; it succeeds exactly when it leaves no error, a failure leaves the disk alone, and a success stores the note with its date cut to the day at its path |
| NoteEditor.SavedFrame | src/composables/useNoteEditor.ts:84-96 | a successful save changes the read of no path that neither encloses nor lies inside the note's file |
| NoteEditor.SaveThenLoad | src/composables/useNoteEditor.ts:40-104 | a saved note loads back for any time of the same day, with its content as it was and its date cut to the day |
| NoteEditor.SavedFields | src/composables/useNoteEditor.ts:94 | the saved note keeps the content and carries the day of its date |
| NoteEditor.SameDaySamePath | src/composables/useNoteEditor.ts:17 | the note path depends only on the part of the date before 'T' |
| NoteEditor.SavedAt | src/composables/useNoteEditor.ts:84-96 | a successful save leaves the note readable at the path for its date |
| NoteEditor.LoadWritten | src/composables/useNoteEditor.ts:58-62 | a load whose path holds an object written as JSON gives that object back |
| NoteEditor.Editor.constructor | src/composables/useNoteEditor.ts:10-11 | the editor starts not loading and with no error |
| NoteEditor.Editor.LoadNote | src/composables/useNoteEditor.ts:40-74 | the note and the error are what Loaded gives, the disk is unchanged, and loading ends whenever a data directory is set |
| NoteEditor.Editor.SaveNote | src/composables/useNoteEditor.ts:76-104 | the result, the new disk and the error are what Saved gives, and loading ends whenever a data directory is set |
| MedicalLanguage.KindsBy | src/monacoLanguage.ts:71-72 | each line is classed by the marker test and the comment test, one class per line |
| MedicalLanguage.Utf16Length | src/monacoLanguage.ts:69 | a text is between one and two UTF-16 code units per character long, the count `.{0,3}` applies |
| MedicalLanguage.SupplementaryBrackets | src/monacoLanguage.ts:69 | `[😀]` is a marker line (two code units between the brackets) and `[😀😀]` is not (four) |
| MedicalLanguage.Next | src/monacoLanguage.ts:75-85 | the search for a range's end stops at or after where it starts, and only at a line that stops it |
| MedicalLanguage.NextIsFirst | src/monacoLanguage.ts:75-85 | no line before the one the search finds stops it |
| MedicalLanguage.RangeAt | src/monacoLanguage.ts:72-109 | a range opened at a line starts at its 1-based number and ends no earlier, within the model |
| MedicalLanguage.LastLineRange | src/monacoLanguage.ts:73-74 | a fold start on the last line gives a range that starts and ends there |
| MedicalLanguage.MarkerRangeEnd | src/monacoLanguage.ts:72-90 | a marker's range ends at the 0-based index of the next marker line, or of the last line when no marker follows, with no marker in between |
| MedicalLanguage.CommentRangeEnd | src/monacoLanguage.ts:91-109 | a comment's range ends at the 0-based index of the next comment line, or at its own start when none follows |
| MedicalLanguage.Starts | src/monacoLanguage.ts:70-72 | every listed start is a fold-start line of the model |
| MedicalLanguage.StartsIncreasing | src/monacoLanguage.ts:70 | the fold starts are listed in strictly increasing order |
| MedicalLanguage.StartsComplete | src/monacoLanguage.ts:70-72 | every fold-start line is listed |
| MedicalLanguage.FoldsStep | src/monacoLanguage.ts:70-111 | one more iteration adds the range of that line exactly when it is a fold start |
| MedicalLanguage.FoldsWithin | src/monacoLanguage.ts:66-113 | every folding range lies within the model and is the range its start line opens |
| MedicalLanguage.FoldsOrdered | src/monacoLanguage.ts:66-113 | the folding ranges come in strictly increasing start order |
| MedicalLanguage.FoldsOnePerStart | src/monacoLanguage.ts:66-113 | a line starts a folding range exactly when it is a marker line or a comment line |
| MedicalLanguage.CalculateFoldingRanges | src/monacoLanguage.ts:66-113 | the ranges computed are the folding ranges of the model's lines, with the bracket test `/\[.{0,3}\]/` counting UTF-16 code units as the engine does |
| MedicalLanguage.ScanFolds | src/monacoLanguage.ts:67-112 | the nested loops collect, for the given line tests, one range per fold-start line in line order |
| MedicalLanguage.NextAt | src/monacoLanguage.ts:75-85 | the search finds the first line after the start that stops it |
| MedicalLanguage.NextNone | src/monacoLanguage.ts:94-104 | with no stop after the start, the search runs to the end |
| MedicalLanguage.MarkerStop | src/monacoLanguage.ts:75-85 | the marker loop stopping at a later marker line or at the last line gives the range ending there |
| MedicalLanguage.MarkerOnLastLine | src/monacoLanguage.ts:73-75 | a marker on the last line folds nothing |
| MedicalLanguage.CommentStop | src/monacoLanguage.ts:94-104 | the comment loop stopping at a later comment line gives the range ending there |
| MedicalLanguage.CommentUnclosed | src/monacoLanguage.ts:92-93 | a comment with no later comment line folds nothing |
| MedicalLanguage.Close | src/monacoLanguage.ts:123 | a closing position found is a `}}` inside the text |
| MedicalLanguage.CloseIsFirst | src/monacoLanguage.ts:123 | the lazy match closes at the first `}}` with no line break before it, and finds none exactly when every `}}` follows a line break |
| MedicalLanguage.Placeholder | src/monacoLanguage.ts:123 | a placeholder found at the start is `{{`, a key and `}}` within the text |
| MedicalLanguage.PlaceholderSplit | src/monacoLanguage.ts:123 | a text with a placeholder at its start is `{{`, the key, `}}` and the rest |
| MedicalLanguage.FormatPlainChar | src/monacoLanguage.ts:122-127 | text that does not start with `{` is copied up to its first character |
| MedicalLanguage.FormatPlain | src/monacoLanguage.ts:122-127 | text without `{` in front of the rest is copied |
| MedicalLanguage.FormatPrefix | src/monacoLanguage.ts:122-127 | leading characters that are not `{` are copied |
| MedicalLanguage.FormatNoPlaceholder | src/monacoLanguage.ts:122-127 | `MedicalLanguage.Format`: text with no `{{` comes out unchanged |
| MedicalLanguage.CloseAfterKey | src/monacoLanguage.ts:123 | the match closes right after a key with no `}` and no line break |
| MedicalLanguage.FormatOnePlaceholder | src/monacoLanguage.ts:122-127 | `MedicalLanguage.Format` with `MedicalLanguage.Substitute`: a placeholder after plain text is replaced by the data's value when defined and kept otherwise |
| MedicalLanguage.FormatAtKey | src/monacoLanguage.ts:122-127 | a text starting with a placeholder is its replacement followed by the rest formatted |
| MedicalLanguage.FormatAtPlaceholder | src/monacoLanguage.ts:122-127 | at a placeholder the result is its replacement, then the rest formatted |
| MedicalLanguage.FormatNoData | src/monacoLanguage.ts:122-127 | without data every placeholder is kept, so nothing changes |
| MedicalLanguage.CloseKeepsPrefix | src/monacoLanguage.ts:123 | the lazy match looks only as far as its closing `}}` |
| MedicalLanguage.PlaceholderKept | src/monacoLanguage.ts:123 | a placeholder at the start stays one whatever follows it |
| MedicalLanguage.FormatKeptPlaceholder | src/monacoLanguage.ts:124-125 | a placeholder without data is copied as it is, whatever follows |
| MedicalLanguage.OpenStaysOpen | src/monacoLanguage.ts:123 | with no closing `}}` before a line break there is no placeholder |
| MedicalLanguage.FormatKeepsOpen | src/monacoLanguage.ts:122-127 | substitution never creates a closing `}}` ahead of the first line break |
| MedicalLanguage.NoPlaceholderStays | src/monacoLanguage.ts:122-127 | a `{` that starts no placeholder still starts none once the rest is substituted |
| MedicalLanguage.FormatIdempotent | src/monacoLanguage.ts:122-127 | `MedicalLanguage.Format`: formatting twice is formatting once when no data value contains `{` |
| MedicalLanguage.IdempotentAtPlaceholder | src/monacoLanguage.ts:122-127 | the idempotence step holds at a placeholder |
| MedicalLanguage.IdempotentAtChar | src/monacoLanguage.ts:122-127 | the idempotence step holds at a character that starts no placeholder |
| MedicalLanguage.CurrentPatientHasNoBrace | src/monacoLanguage.ts:116-119 | no value of the current patient's data contains `{` |
| MedicalLanguage.FormatTemplates | src/monacoLanguage.ts:167-169 | formatting the templates keeps their number |
| MedicalLanguage.FormatTemplatesIdempotent | src/monacoLanguage.ts:167-169 | formatting the templates again changes nothing when no data value contains `{` |
| MedicalLanguage.CompletionProvider.constructor | src/monacoLanguage.ts:148-150 | the provider keeps the template list it is registered with |
| MedicalLanguage.CompletionProvider.ProvideCompletionItems | src/monacoLanguage.ts:160-186 | the templates are rewritten with the patient's data in place, and one suggestion per template is offered over the word range |
| MedicalLanguage.RepeatedRequestsStable | src/monacoLanguage.ts:166-169 | after the first completion request the templates no longer change |
| MedicalLanguage.InlinePrefix | src/monacoLanguage.ts:193-201 | the prefix is the lower-cased text before the cursor with its leading spaces dropped |
| MedicalLanguage.InlineTemplates | src/monacoLanguage.ts:208 | exactly the inline templates are kept |
| MedicalLanguage.KeptTemplates | src/monacoLanguage.ts:215-230 | exactly the templates passing the trigger-word or prefix test are kept |
| MedicalLanguage.InlineKeptMembers | src/monacoLanguage.ts:207-230 | a template is offered exactly when it is an inline template, formatted with the patient's data, that passes the filter |
| MedicalLanguage.InlineCompletions | src/monacoLanguage.ts:188-265 | there are no items exactly when the prefix is shorter than two characters, and otherwise one per kept template |
| MedicalLanguage.AcceptItem | src/monacoLanguage.ts:231-261 | accepting an item gives, up to case, the text before the prefix followed by the template's whole text |
| MedicalLanguage.AcceptReplacing | src/monacoLanguage.ts:246-258 | an item with the delete edit replaces the typed prefix with the whole text |
| MedicalLanguage.AcceptAppending | src/monacoLanguage.ts:232-234 | an item without it adds the rest of the text after the prefix |
| MedicalLanguage.LowerRejoin | src/monacoLanguage.ts:226-234 | typing the rest of a text after a typed prefix of it gives the whole text, up to case |
| MedicalLanguage.AcceptCompletes | src/monacoLanguage.ts:188-265 | accepting any item leaves the line as the text before the prefix followed by that template's formatted text, up to case |

## Left out

- Vue reactivity is not modelled: `watch`, `computed`, `onMounted` and their scheduling. The watcher of usePatientData on the config flags (src/composables/usePatientData.ts:839-861) is not modelled; `LoadPatients` is what it calls.
- Async interleaving is not modelled. Every operation runs to completion before the next one starts.
- The concurrent `Promise.all` removals of removeSelectedPatients (src/composables/usePatientList.ts:102-119) are not modelled, because their outcome depends on how the dialogs interleave. The single-patient handler removePatient (src/composables/usePatientList.ts:186-198) only forwards to `PatientData.PatientStore.RemovePatient` and shows a snackbar.
- Snackbars, console logging and dialog chrome are left out; they have no effect on state.
- The user-data directory, today's date and the clock are parameters.
- `toLowerCase` and `toUpperCase` map ASCII letters only. `trim` removes the full ECMAScript whitespace and line terminator set (`Base.IsJsWhite`).
- Sorting.Less: `localeCompare` and `<` on strings are modelled as the order of Unicode scalar values, which is neither the engine's collation nor UTF-16 code-unit order; the stable sort stands in for the engine's sort.
- MedicalLanguage.InlineCompletions: lengths, slices and columns count Unicode scalar values, where JavaScript counts UTF-16 code units (src/monacoLanguage.ts:203, 234, 253). A line with a character outside the Basic Multilingual Plane, such as an emoji, gets other columns and slices in the app than in `MedicalLanguage.InlinePrefix`, `MedicalLanguage.InlineCompletions` and `MedicalLanguage.AcceptItem`.
- `JSON.stringify` formatting and escaping are not modelled. A file's content is the JSON value it holds, or raw text that does not parse. Prototype keys such as `__proto__`, NaN and -0 are not modelled.
- MedicalLanguage.Substitute: a `{{key}}` placeholder is looked up among the own keys of the data only. The source's `data[key]` on an object literal (src/monacoLanguage.ts:116-125) also finds inherited Object.prototype members: `{{constructor}}`, `{{toString}}`, `{{hasOwnProperty}}`, `{{valueOf}}` and the like insert the member's function text, and `{{__proto__}}` inserts `[object Object]`, where the model keeps the placeholder. The same holds for `MedicalLanguage.Format`, `MedicalLanguage.CompletionProvider.ProvideCompletionItems` and `MedicalLanguage.InlineCompletions`. `MedicalLanguage.CurrentPatientHasNoBrace` is true of the model's map and not of the source's object, whose inherited function texts contain `{`; none of them contains `{{`, so formatting stays idempotent in the source too.
- Patients.SortByField: which entry and which parameter name the TypeError of a non-string key reports is modelled for V8's sort of fewer than 64 entries, where the list is one run (`Patients.SortError`). For 64 entries or more the sort starts later runs with `comparator(items[k + 1], items[k])`, so another entry, named `b`, can be reported; `Patients.KeyError` and `Patients.SortError` do not model that.
- JsonModel.StrictEq: reference identity is not modelled. Two reads of an object or array are never the same object, so `===` never holds between objects or arrays, not even a value and itself, where JavaScript compares references. The source does share references: `customOrder.value = [...loadedPatients]` (src/composables/usePatientData.ts:139) shares the patient objects, and a spread copy keeps an object-valued id. So `Patients.LastById` and `Patients.CustomOrder` drop a patient whose id is an object or array, and `PatientData.ReplaceState` and `PatientData.UpdateRefusesUnlisted` report such an id as not found, where the source finds it. For string and number ids, the ones the app creates, the model and the source agree.
- JsonModel.JNum: only integers are numbers. Papa.parse runs with `dynamicTyping: true` (src/composables/usePatientData.ts:598), so a CSV field can become a fractional number. `String(v)` prints such numbers, and from 1e21 up it prints integers in exponent form, where `JsonModel.JsString` prints every digit.
- JsonModel.Parse: text that does not parse fails with the fixed message "Unexpected token in JSON". V8's SyntaxError text depends on the input, so the load-failure messages built from `err.message` in `PatientData.ReadList`, `AppConfig.Load` and `NoteEditor.Loaded` stand in for the engine's text.
- Timezones are not modelled. `new Date(s)`, `setDate` and `toISOString` work on UTC calendar dates.
- Calendar.ParseIso: reads the forms YYYY, YYYY-MM, YYYY-MM-DD and YYYY-MM-DDTHH:mm[:ss[.sss]][Z], with V8's carry of days 29 to 31 into the next month and hour 24 as the next day. UTC offsets such as `+02:00`, a time after a bare year or year-month, six-digit signed years and the texts only V8's fallback parser accepts (such as `Feb 30 2024`) read as the invalid Date.
- humanparser, Papa.parse and uuidv4 are foreign libraries. Their outcomes are inputs.
- The importICMPatientListFrom* functions (src/composables/usePatientData.ts:663-834) are not modelled: they are file and folder selection, CSV reading and dialogs around `_parseAndMapICMPatients`, which is modelled (`Patients.ParseAndMapICMPatients`).
- initializeMedicalTemplates (src/monacoLanguage.ts:129-158) is not modelled. It is a fetch of templates.json plus kind normalisation; the templates are an input.
- The Monaco language configuration, tokenizer and theme are not modelled, and neither are the folding range kind and the completion item ranges beyond their numbers.
- getCurrentPatient is the fixed object the source returns. A template's label is carried as text and not interpreted.
- `path.join` normalisation of `.` and `..` is not modelled. A path is its list of non-empty segments. The join-paths messages are those of electron/main.ts (electron/main.ts:306-313, `Paths.JoinPathsHandler`). The duplicate join-paths handler in electron/main/index.ts:88-99 throws other texts ("No paths provided to join.", "No valid path segments provided to join.") and is not modelled.
- Window geometry, menus, app lifecycle, the dialogs, get-path, get-app-path, is-packaged, export and open-directory handlers of electron/main.ts are not modelled.
- The move-files and delete-file handlers are not modelled, and neither are deleteFileAbsolute, moveFiles and the getPreviousDayNote/getNextDayNote wrappers of useFileSystemAccess (src/composables/useFileSystemAccess.ts:97-104, 132-140, 219-237). Nothing in the modelled core calls these wrappers. The main-process date helpers themselves are modelled (`MainProcess.PreviousDayNote`, `MainProcess.NextDayNote`).
- ensureConfigExists in electron/main.ts is not modelled. The renderer's own config handling is modelled in `AppConfig`.
- Storage models the filesystem handlers of electron/main/index.ts as the reference behaviour of the bridge. Of electron/preload/index.ts only the text a rejected `ipcRenderer.invoke` adds to an error is modelled (`FileSystemAccess.RemoteError`); the structured-clone copy of arguments and results is not. electron/preload.ts and src/services/monacoService.ts are not part of this model.
- PatientList.PatientListView.SortDraggable: the comparator of the name sort of the list view is consistent when every entry has a string name (`PatientList.SortViewName`) and when no entry has one (`PatientList.SortViewUnnamed`). The second case covers every list savePatients stores (`PatientList.SavedListSortsByNameUnchanged`). A list that mixes named and unnamed entries, or holds a null entry or a non-string rawName, meets an inconsistent or throwing comparator (`PatientList.NameCompareInconsistent`). The engine's result then depends on which pairs it compares; a null entry throws only when it is read. The model gives that outcome as `Unsettled`, and `SortDraggable`, `PatientList.PatientListView.SetSortMode` and `PatientList.PatientListView.Refresh` then promise only that the shown list is a permutation of what it was, which covers both a throw and any order the engine produces. Which order, and whether it throws, is not modelled.
- PatientList.PatientListView.OnDragEnd: requires both indices to lie inside the shown list, which Sortable guarantees for a drag it reports.
- PatientData.FailedAddDisk: states only that the filesystem stays valid. What the cleanup removes is stated by `PatientData.CleanUp`, `PatientData.RemoveQuietly` and `PatientData.AddRemovesExistingUmrnDir`.

## Findings

| source | as written | input that shows it | evidently intended | confidence | as-written member | corrected member |
|---|---|---|---|---|---|---|
| src/composables/usePatientData.ts:306-329 | the outer catch removes the notes directory whenever it exists, though the inner cleanup at :296 spares one that was already there (`!umrnExists`) | a umrn patient whose by-umrn directory holds notes, added while savePatients fails | the catch spares an existing directory too, so a failed add never deletes earlier notes | not executed | PatientData.AddRemovesExistingUmrnDir | PatientData.IntendedFailedAddDisk |
| src/composables/useConfig.ts:70-75 | when config.json is missing, loadConfig calls saveConfig before it sets isConfigLoaded. saveConfig then refuses (src/composables/useConfig.ts:88-91), so the defaults are never written | a first start with an empty disk | the defaults are saved to config.json on the first start, as the comment at :72 says | not executed | AppConfig.FirstStartLosesDefaults | AppConfig.LoadIntended |
