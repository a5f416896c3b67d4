/**
 * Patient records as the patient-list engine (src/composables/usePatientData.ts)
 * handles them: plain JSON values whose properties are read by name. This
 * module holds the pure parts of that engine: the projection savePatients
 * writes, the searches and filters over a list (a property read on a null
 * entry throws), the duplicate test of addPatientsToDate, the name-to-umrn
 * map, the snapshot file names, the sort keys and the custom order.
 */
module Patients {
  import opened Base
  import opened JsonModel
  import Calendar
  import Sorting

  // ---------------------------------------------------------------------------
  // savePatients' projection.

  /** The properties savePatients keeps, in the order it writes them. */
  const PatientFields: seq<string> :=
    ["id", "type", "umrn", "name", "location", "age", "los",
     "admission_date", "cons_name", "dsc_date", "diagnosis", "ward"]

  /**
   * The properties of `p` named in `keys`, in that order. A property `p` lacks
   * is undefined, which JSON.stringify leaves out.
   */
  function Project(p: Json, keys: seq<string>): Fields {
    if keys == [] then []
    else
      var v := Get(p, keys[0]);
      (if v.Some? then [(keys[0], v.value)] else []) + Project(p, keys[1..])
  }

  /** Every kept binding is a named, defined property of `p`. */
  lemma {:induction false} ProjectSound(p: Json, keys: seq<string>, i: nat)
    requires i < |Project(p, keys)|
    ensures Project(p, keys)[i].0 in keys && Get(p, Project(p, keys)[i].0) == Some(Project(p, keys)[i].1)
  {
    var v := Get(p, keys[0]);
    var head: Fields := if v.Some? then [(keys[0], v.value)] else [];
    var rest := Project(p, keys[1..]);
    assert Project(p, keys) == head + rest;
    if i >= |head| {
      var j := i - |head|;
      ProjectSound(p, keys[1..], j);
      assert (head + rest)[i] == rest[j];
      assert rest[j].0 in keys by {
        var n :| 0 <= n < |keys[1..]| && keys[1..][n] == rest[j].0;
        assert keys[n + 1] == rest[j].0;
      }
    }
  }

  /** Every named, defined property of `p` is kept. */
  lemma {:induction false} ProjectComplete(p: Json, keys: seq<string>, k: string) returns (i: nat)
    requires k in keys && Get(p, k).Some?
    ensures i < |Project(p, keys)| && Project(p, keys)[i].0 == k
  {
    if k == keys[0] {
      i := 0;
    } else {
      InTail(keys, k);
      var j := ProjectComplete(p, keys[1..], k);
      i := ProjectStep(p, keys, j);
    }
  }

  /** Position `j` after the first key is position `i` of the whole projection. */
  lemma ProjectStep(p: Json, keys: seq<string>, j: nat) returns (i: nat)
    requires keys != [] && j < |Project(p, keys[1..])|
    ensures i < |Project(p, keys)| && Project(p, keys)[i] == Project(p, keys[1..])[j]
  {
    var rest := Project(p, keys[1..]);
    if Get(p, keys[0]).Some? {
      var head: Fields := [(keys[0], Get(p, keys[0]).value)];
      assert Project(p, keys) == head + rest;
      i := 1 + j;
      IndexAfter(head, rest, j);
    } else {
      assert Project(p, keys) == rest;
      i := j;
    }
  }

  /** A projected object reads each named property as `p` does, and nothing else. */
  lemma ProjectLookup(p: Json, keys: seq<string>, k: string)
    ensures Lookup(Project(p, keys), k) == if k in keys then Get(p, k) else None
  {
    var r := Project(p, keys);
    LookupFound(r, k);
    forall i | 0 <= i < |r| ensures r[i].0 in keys && Get(p, r[i].0) == Some(r[i].1) {
      ProjectSound(p, keys, i);
    }
    if k in keys && Get(p, k).Some? {
      var i := ProjectComplete(p, keys, k);
    }
  }

  /** Two values that agree on `keys` project to the same fields. */
  lemma {:induction false} ProjectAgrees(p: Json, q: Json, keys: seq<string>)
    requires forall k | k in keys :: Get(p, k) == Get(q, k)
    ensures Project(p, keys) == Project(q, keys)
  {
    if keys != [] {
      assert forall k | k in keys[1..] :: k in keys;
      ProjectAgrees(p, q, keys[1..]);
    }
  }

  /** The object savePatients stores for `p`: its twelve patient properties and nothing else. */
  function Sanitize(p: Json): (r: Json)
    ensures r.JObj?
    ensures forall k :: Get(r, k) == if k in PatientFields then Get(p, k) else None
  {
    var fields := Project(p, PatientFields);
    assert forall k :: Lookup(fields, k) == if k in PatientFields then Get(p, k) else None by {
      forall k ensures Lookup(fields, k) == if k in PatientFields then Get(p, k) else None {
        ProjectLookup(p, PatientFields, k);
      }
    }
    JObj(fields)
  }

  /** Saving what was saved stores the same objects again. */
  lemma SanitizeIdempotent(p: Json)
    ensures Sanitize(Sanitize(p)) == Sanitize(p)
  {
    ProjectAgrees(Sanitize(p), p, PatientFields);
  }

  /** `updatedPatients.map(p => ({ id: p.id, ... }))`: a null entry throws on `p.id`. */
  function SanitizeAll(items: seq<Json>): (r: Result<seq<Json>>)
    ensures r.Err? <==> JNull in items
    ensures r.Err? ==> r.error == NullRead("id")
    ensures r.Ok? ==> |r.value| == |items| && forall i | 0 <= i < |items| :: r.value[i] == Sanitize(items[i])
  {
    if JNull in items then Err(NullRead("id"))
    else Ok(seq(|items|, i requires 0 <= i < |items| => Sanitize(items[i])))
  }

  // ---------------------------------------------------------------------------
  // Searches and filters over a list.

  /** `p.id === id`. */
  predicate HasId(p: Json, id: Option<Json>) {
    StrictEq(Get(p, "id"), id)
  }

  /**
   * `items.findIndex(matches)` where `matches` reads `prop` first: the first
   * matching index, None for -1, and a TypeError when a null entry is reached
   * (FindIndexMeaning).
   */
  function FindIndex(items: seq<Json>, prop: string, matches: Json -> bool): (r: Result<Option<nat>>)
    ensures r.Ok? && r.value.Some? ==> r.value.value < |items|
    ensures r.Err? ==> r.error == NullRead(prop)
  {
    if items == [] then Ok(None)
    else if items[0] == JNull then Err(NullRead(prop))
    else if matches(items[0]) then Ok(Some(0))
    else
      match FindIndex(items[1..], prop, matches)
      case Err(e) => Err(e)
      case Ok(None) => Ok(None)
      case Ok(Some(i)) => Ok(Some(i + 1))
  }

  /**
   * The index found matches and no entry before it is null or matches; None
   * means no entry is null or matches; the error means a null entry comes
   * before any match.
   */
  lemma {:induction false} FindIndexMeaning(items: seq<Json>, prop: string, matches: Json -> bool)
    ensures var r := FindIndex(items, prop, matches);
      && (r.Ok? && r.value.Some? ==>
            matches(items[r.value.value]) && forall i | 0 <= i < r.value.value :: items[i] != JNull && !matches(items[i]))
      && (r.Ok? && r.value.None? ==> forall i | 0 <= i < |items| :: items[i] != JNull && !matches(items[i]))
      && (r.Err? ==>
            exists n | 0 <= n < |items| :: items[n] == JNull && forall i | 0 <= i < n :: items[i] != JNull && !matches(items[i]))
  {
    if items != [] && items[0] != JNull && !matches(items[0]) {
      var tail := items[1..];
      FindIndexMeaning(tail, prop, matches);
      assert forall i | 0 <= i < |tail| :: tail[i] == items[i + 1];
      var rest := FindIndex(tail, prop, matches);
      if rest.Err? {
        var m :| 0 <= m < |tail| && tail[m] == JNull && forall i | 0 <= i < m :: tail[i] != JNull && !matches(tail[i]);
        assert items[m + 1] == JNull;
        forall i | 0 <= i < m + 1 ensures items[i] != JNull && !matches(items[i]) {
          if i > 0 {
            assert items[i] == tail[i - 1];
          }
        }
      } else if rest.value.Some? {
        forall i | 0 <= i < rest.value.value + 1 ensures items[i] != JNull && !matches(items[i]) {
          if i > 0 {
            assert items[i] == tail[i - 1];
          }
        }
      } else {
        forall i | 0 <= i < |items| ensures items[i] != JNull && !matches(items[i]) {
          if i > 0 {
            assert items[i] == tail[i - 1];
          }
        }
      }
    }
  }

  /** With no null entry and no match, the search finds nothing. */
  lemma {:induction false} FindIndexNone(items: seq<Json>, prop: string, matches: Json -> bool)
    requires forall i | 0 <= i < |items| :: items[i] != JNull && !matches(items[i])
    ensures FindIndex(items, prop, matches) == Ok(None)
  {
    if items != [] {
      assert forall i | 0 <= i < |items| - 1 :: items[1..][i] == items[i + 1];
      FindIndexNone(items[1..], prop, matches);
    }
  }

  /** A match after entries that are neither null nor matching is the one found. */
  lemma {:induction false} FindIndexAt(items: seq<Json>, prop: string, matches: Json -> bool, i: nat)
    requires i < |items| && items[i] != JNull && matches(items[i])
    requires forall j | 0 <= j < i :: items[j] != JNull && !matches(items[j])
    ensures FindIndex(items, prop, matches) == Ok(Some(i))
  {
    if i > 0 {
      assert forall j | 0 <= j < i - 1 :: items[1..][j] == items[j + 1];
      assert items[1..][i - 1] == items[i];
      FindIndexAt(items[1..], prop, matches, i - 1);
    }
  }

  /** Filtering keeps only entries of the list. */
  lemma FilterFrom(items: seq<Json>, keep: Json -> bool)
    ensures forall x | x in Filter(items, keep) :: x in items
  {
    FilterCounts(items, keep);
    forall x | x in Filter(items, keep) ensures x in items {
      assert multiset(Filter(items, keep))[x] > 0;
    }
  }

  /** The entries `keep` accepts, in order. */
  function Filter(items: seq<Json>, keep: Json -> bool): (r: seq<Json>)
    ensures |r| <= |items|
    ensures forall i | 0 <= i < |r| :: keep(r[i])
  {
    if items == [] then []
    else Filter(items[..|items| - 1], keep) + (if keep(items[|items| - 1]) then [items[|items| - 1]] else [])
  }

  /** Filtering keeps exactly the accepted entries, each as often as it occurs. */
  lemma {:induction false} FilterCounts(items: seq<Json>, keep: Json -> bool)
    ensures forall x :: multiset(Filter(items, keep))[x] == if keep(x) then multiset(items)[x] else 0
  {
    if items != [] {
      var init := items[..|items| - 1];
      FilterCounts(init, keep);
      assert items == init + [items[|items| - 1]];
    }
  }

  lemma {:induction false} FilterAppend(a: seq<Json>, b: seq<Json>, keep: Json -> bool)
    ensures Filter(a + b, keep) == Filter(a, keep) + Filter(b, keep)
    decreases |b|
  {
    if b == [] {
      assert a + b == a;
    } else {
      var b0 := b[..|b| - 1];
      assert (a + b)[..|a + b| - 1] == a + b0;
      assert (a + b)[|a + b| - 1] == b[|b| - 1];
      FilterAppend(a, b0, keep);
    }
  }

  /** A filter that accepts nothing gives the empty list. */
  lemma {:induction false} FilterNone(items: seq<Json>, keep: Json -> bool)
    requires forall i | 0 <= i < |items| :: !keep(items[i])
    ensures Filter(items, keep) == []
  {
    if items != [] {
      var init := items[..|items| - 1];
      assert forall i | 0 <= i < |init| :: init[i] == items[i];
      FilterNone(init, keep);
    }
  }

  /** `items.filter(keep)` where `keep` reads `prop`: a null entry throws. */
  function FilterOrThrow(items: seq<Json>, prop: string, keep: Json -> bool): (r: Result<seq<Json>>)
    ensures r.Err? <==> JNull in items
    ensures r.Err? ==> r.error == NullRead(prop)
    ensures r.Ok? ==> r.value == Filter(items, keep)
  {
    if JNull in items then Err(NullRead(prop)) else Ok(Filter(items, keep))
  }

  // ---------------------------------------------------------------------------
  // addPatientsToDate's duplicate test.

  /** `set.has(v)` for a Set built from property values. */
  predicate Has(vals: seq<Option<Json>>, v: Option<Json>) {
    exists i | 0 <= i < |vals| :: StrictEq(vals[i], v)
  }

  /** `existingPatients.map(p => p.id)`. */
  function Ids(items: seq<Json>): (r: seq<Option<Json>>)
    ensures |r| == |items| && forall i | 0 <= i < |items| :: r[i] == Get(items[i], "id")
  {
    seq(|items|, i requires 0 <= i < |items| => Get(items[i], "id"))
  }

  /** `existingPatients.map(p => p.umrn).filter(Boolean)`. */
  function TruthyUmrns(items: seq<Json>): (r: seq<Option<Json>>)
    ensures forall v :: v in r <==> Truthy(v) && exists i | 0 <= i < |items| :: Get(items[i], "umrn") == v
    decreases |items|
  {
    if items == [] then []
    else
      var init := items[..|items| - 1];
      var u := Get(items[|items| - 1], "umrn");
      var r := TruthyUmrns(init) + (if Truthy(u) then [u] else []);
      assert forall i | 0 <= i < |init| :: init[i] == items[i];
      r
  }

  /** Whether addPatientsToDate takes `p`: its id and its truthy umrn are both absent from `existing`. */
  predicate IsNew(existing: seq<Json>, p: Json) {
    !Has(Ids(existing), Get(p, "id")) && (!Truthy(Get(p, "umrn")) || !Has(TruthyUmrns(existing), Get(p, "umrn")))
  }

  function NewPatients(existing: seq<Json>, toAdd: seq<Json>): seq<Json> {
    Filter(toAdd, p => IsNew(existing, p))
  }

  /** A value that `===` finds equal to itself: anything but an object or an array. */
  predicate Primitive(v: Option<Json>) {
    v.None? || !(v.value.JArr? || v.value.JObj?)
  }

  lemma HasPrefix(a: seq<Option<Json>>, b: seq<Option<Json>>, v: Option<Json>)
    requires Has(a, v)
    ensures Has(a + b, v)
  {
    var i :| 0 <= i < |a| && StrictEq(a[i], v);
    assert (a + b)[i] == a[i];
  }

  lemma {:induction false} TruthyUmrnsAppend(a: seq<Json>, b: seq<Json>)
    ensures TruthyUmrns(a + b) == TruthyUmrns(a) + TruthyUmrns(b)
    decreases |b|
  {
    if b == [] {
      assert a + b == a;
    } else {
      var b0 := b[..|b| - 1];
      LastOfAppend(a, b);
      TruthyUmrnsAppend(a, b0);
    }
  }

  /** A patient that is a duplicate stays one when more patients are appended. */
  lemma StaysDuplicate(existing: seq<Json>, added: seq<Json>, p: Json)
    requires !IsNew(existing, p)
    ensures !IsNew(existing + added, p)
  {
    var id := Get(p, "id");
    IdsAppend(existing, added);
    if Has(Ids(existing), id) {
      HasPrefix(Ids(existing), Ids(added), id);
    } else {
      TruthyUmrnsAppend(existing, added);
      HasPrefix(TruthyUmrns(existing), TruthyUmrns(added), Get(p, "umrn"));
    }
  }

  lemma IdsAppend(a: seq<Json>, b: seq<Json>)
    ensures Ids(a + b) == Ids(a) + Ids(b)
  {
    assert |Ids(a + b)| == |Ids(a) + Ids(b)|;
    forall i | 0 <= i < |a + b| ensures Ids(a + b)[i] == (Ids(a) + Ids(b))[i] {
      if i < |a| {
        assert (a + b)[i] == a[i];
      } else {
        assert (a + b)[i] == b[i - |a|];
      }
    }
  }

  /** A patient that was appended is a duplicate of itself. */
  lemma AppendedIsDuplicate(existing: seq<Json>, added: seq<Json>, j: nat)
    requires j < |added| && Primitive(Get(added[j], "id"))
    ensures !IsNew(existing + added, added[j])
  {
    var updated := existing + added;
    var id := Get(added[j], "id");
    assert Ids(updated)[|existing| + j] == id;
    assert StrictEq(id, id);
  }

  /**
   * Adding the new patients and running the same addition again adds nothing,
   * provided the ids compare by value.
   */
  lemma NewPatientsIdempotent(existing: seq<Json>, toAdd: seq<Json>)
    requires forall i | 0 <= i < |toAdd| :: Primitive(Get(toAdd[i], "id"))
    ensures NewPatients(existing + NewPatients(existing, toAdd), toAdd) == []
  {
    var added := NewPatients(existing, toAdd);
    var updated := existing + added;
    FilterCounts(toAdd, q => IsNew(existing, q));
    forall i | 0 <= i < |toAdd| ensures !IsNew(updated, toAdd[i]) {
      var p := toAdd[i];
      if IsNew(existing, p) {
        assert p in multiset(toAdd);
        assert multiset(added)[p] > 0;
        var j :| 0 <= j < |added| && added[j] == p;
        AppendedIsDuplicate(existing, added, j);
      } else {
        StaysDuplicate(existing, added, p);
      }
    }
    FilterNone(toAdd, q => IsNew(updated, q));
  }

  // ---------------------------------------------------------------------------
  // patient_identifierArray: each truthy name maps to its patient's truthy umrn.

  /** The key `p` contributes, when its name and umrn are both truthy. */
  function NameKey(p: Json): Option<string> {
    var name := Get(p, "name");
    if Truthy(name) && Truthy(Get(p, "umrn")) then Some(JsString(name.value)) else None
  }

  /** What updatePatientIdentifierArray builds; a later patient with the same name wins. */
  function IdentifierMap(list: seq<Json>): map<string, Json> {
    if list == [] then map[]
    else
      var m := IdentifierMap(list[..|list| - 1]);
      var p := list[|list| - 1];
      match NameKey(p)
      case Some(key) => m[key := Get(p, "umrn").value]
      case None => m
  }

  /** A key is present exactly when some patient contributes it. */
  lemma {:induction false} IdentifierMapKeys(list: seq<Json>, key: string)
    ensures key in IdentifierMap(list) <==> exists i | 0 <= i < |list| :: NameKey(list[i]) == Some(key)
  {
    if list != [] {
      var init := list[..|list| - 1];
      IdentifierMapKeys(init, key);
      InitAgrees(list);
      if NameKey(list[|list| - 1]) != Some(key) && key !in IdentifierMap(init) {
        assert forall i | 0 <= i < |list| :: NameKey(list[i]) != Some(key) by {
          assert forall i | 0 <= i < |init| :: NameKey(init[i]) != Some(key);
        }
      }
    }
  }

  /** The umrn a key maps to is the one of the last patient that contributes the key. */
  lemma {:induction false} IdentifierMapLastWins(list: seq<Json>, i: nat, key: string)
    requires i < |list| && NameKey(list[i]) == Some(key)
    requires forall j | i < j < |list| :: NameKey(list[j]) != Some(key)
    ensures key in IdentifierMap(list) && IdentifierMap(list)[key] == Get(list[i], "umrn").value
  {
    var n := |list| - 1;
    var init := list[..n];
    if i < n {
      assert forall j | i < j < n :: init[j] == list[j];
      IdentifierMapLastWins(init, i, key);
      assert init[i] == list[i];
      assert NameKey(list[n]) != Some(key);
      var m := IdentifierMap(init);
      match NameKey(list[n])
      case None =>
        assert IdentifierMap(list) == m;
      case Some(k2) =>
        assert IdentifierMap(list) == m[k2 := Get(list[n], "umrn").value];
        assert k2 != key;
    }
  }

  // ---------------------------------------------------------------------------
  // Snapshot files: patients_YYYY-MM-DD.json in the data directory.

  /** What `\d{4}-\d{2}-\d{2}` matches. */
  predicate IsDateText(d: string) {
    |d| == 10 && Calendar.AllDigits(d[..4]) && d[4] == '-' && Calendar.AllDigits(d[5..7]) && d[7] == '-' &&
    Calendar.AllDigits(d[8..])
  }

  /** `patients_${date}.json`. */
  function ListFileName(date: string): string {
    "patients_" + date + ".json"
  }

  /** The date `^patients_(\d{4}-\d{2}-\d{2})\.json$` captures, if the name matches. */
  function MatchListName(f: string): (r: Option<string>)
    ensures r.Some? ==> IsDateText(r.value) && f == ListFileName(r.value)
  {
    if |f| == 24 && f[..9] == "patients_" && f[19..] == ".json" && IsDateText(f[9..19]) then
      assert f == f[..9] + f[9..19] + f[19..];
      Some(f[9..19])
    else None
  }

  /** Every snapshot file name matches, with its own date. */
  lemma MatchListFileName(d: string)
    requires IsDateText(d)
    ensures MatchListName(ListFileName(d)) == Some(d)
  {
    var f := ListFileName(d);
    assert f[..9] == "patients_" && f[9..19] == d && f[19..] == ".json";
  }

  /** `files.map(match).filter(date => !!date)`. */
  function MatchedDates(files: seq<string>): (r: seq<string>)
    ensures forall d :: d in r <==> exists i | 0 <= i < |files| :: MatchListName(files[i]) == Some(d)
  {
    if files == [] then []
    else
      var init := files[..|files| - 1];
      var m := MatchListName(files[|files| - 1]);
      assert forall i | 0 <= i < |init| :: init[i] == files[i];
      MatchedDates(init) + (if m.Some? then [m.value] else [])
  }

  lemma {:induction false} MatchedDatesDistinct(files: seq<string>)
    requires Sorting.Distinct(files)
    ensures Sorting.Distinct(MatchedDates(files))
  {
    if files != [] {
      var init := files[..|files| - 1];
      var last := files[|files| - 1];
      assert Sorting.Distinct(init);
      MatchedDatesDistinct(init);
      var m := MatchListName(last);
      if m.Some? {
        assert m.value !in MatchedDates(init) by {
          forall i | 0 <= i < |init| ensures MatchListName(init[i]) != Some(m.value) {
            assert files[i] != files[|files| - 1];
          }
        }
      }
    }
  }

  /** `.sort().reverse()` on the matched dates. */
  function SnapshotDates(files: seq<string>): seq<string> {
    Sorting.Reverse(Sorting.SortStrings(MatchedDates(files)))
  }

  /** The listed snapshot dates are the most recent first, each once. */
  lemma SnapshotDatesDescending(files: seq<string>)
    requires Sorting.Distinct(files)
    ensures var r := SnapshotDates(files);
      forall i, j | 0 <= i < j < |r| :: Sorting.Less(r[j], r[i])
  {
    var dates := MatchedDates(files);
    MatchedDatesDistinct(files);
    Sorting.SortStringsAscending(dates);
    Sorting.ReverseDescending(Sorting.SortStrings(dates));
  }

  /** The listed snapshot dates are exactly the dates of the matching file names. */
  lemma SnapshotDatesMembers(files: seq<string>, d: string)
    ensures d in SnapshotDates(files) <==> exists i | 0 <= i < |files| :: MatchListName(files[i]) == Some(d)
  {
    var dates := MatchedDates(files);
    var s := Sorting.SortStrings(dates);
    Sorting.SortPermutes(dates, (a: string, b: string) => Sorting.Compare(a, b));
    var r := Sorting.Reverse(s);
    assert d in s <==> d in multiset(s);
    assert d in dates <==> d in multiset(dates);
    if d in s {
      var k :| 0 <= k < |s| && s[k] == d;
      assert r[|s| - 1 - k] == d;
    }
  }

  // ---------------------------------------------------------------------------
  // sortPatients.

  datatype SortMode = ByLocation | ByName | Custom

  /**
   * `(p[field] || "").toLowerCase()` in the comparator, for the parameter
   * named `param`: a null entry throws on the read, a truthy value that is not
   * a string has no toLowerCase, and the engine names the parameter in that
   * message.
   */
  function SortKey(p: Json, field: string, param: string): (r: Result<string>)
    ensures r.Ok? <==> p != JNull && (!Truthy(Get(p, field)) || Get(p, field).value.JStr?)
    ensures r.Ok? ==> Lower(r.value) == r.value
    ensures r.Err? ==> r.error == if p.JNull? then NullRead(field) else NotLowerable(param, field)
  {
    if p.JNull? then Err(NullRead(field))
    else
      var v := Get(p, field);
      if !Truthy(v) then Ok("")
      else if v.value.JStr? then
        LowerIdempotent(v.value.s);
        Ok(Lower(v.value.s))
      else Err(NotLowerable(param, field))
  }

  /** The TypeError of calling toLowerCase on a key that is not a string. */
  function NotLowerable(param: string, field: string): string {
    "(" + param + "." + field + " || \"\").toLowerCase is not a function"
  }

  /** The key the comparator sees for an entry whose key is defined. */
  function KeyOf(field: string): Json -> string {
    p => if SortKey(p, field, "a").Ok? then SortKey(p, field, "a").value else ""
  }

  /** The first entry, in list order, whose key throws when it is the comparator's `a`. */
  function KeyError(items: seq<Json>, field: string): (r: Option<string>)
    ensures r.None? <==> forall i | 0 <= i < |items| :: SortKey(items[i], field, "a").Ok?
    ensures r.Some? ==> exists i | 0 <= i < |items| ::
      SortKey(items[i], field, "a") == Err(r.value) && forall j | 0 <= j < i :: SortKey(items[j], field, "a").Ok?
  {
    if items == [] then None
    else if SortKey(items[0], field, "a").Err? then Some(SortKey(items[0], field, "a").error)
    else
      var r := KeyError(items[1..], field);
      assert forall i | 1 <= i < |items| :: items[i] == items[1..][i - 1];
      if r.Some? then
        FirstErrorShifts(items, field, r.value);
        r
      else r
  }

  /** The first throwing key of the tail is the first of the list when the head's key does not throw. */
  lemma FirstErrorShifts(items: seq<Json>, field: string, e: string)
    requires items != [] && SortKey(items[0], field, "a").Ok?
    requires exists i | 0 <= i < |items[1..]| ::
      SortKey(items[1..][i], field, "a") == Err(e) && forall j | 0 <= j < i :: SortKey(items[1..][j], field, "a").Ok?
    ensures exists i | 0 <= i < |items| ::
      SortKey(items[i], field, "a") == Err(e) && forall j | 0 <= j < i :: SortKey(items[j], field, "a").Ok?
  {
    var i :| 0 <= i < |items[1..]| &&
      SortKey(items[1..][i], field, "a") == Err(e) && forall j | 0 <= j < i :: SortKey(items[1..][j], field, "a").Ok?;
    assert items[i + 1] == items[1..][i];
    forall j | 0 <= j < i + 1 ensures SortKey(items[j], field, "a").Ok? {
      if j > 0 {
        assert items[j] == items[1..][j - 1];
      }
    }
  }

  /**
   * The TypeError the engine's sort of two entries or more reports. Its first
   * comparison is `comparator(items[1], items[0])`, which computes the key of
   * `a` = items[1] before that of `b` = items[0]. Below 64 entries the whole
   * list is one run: each later entry first reaches the comparator as `a`,
   * in list order, and every entry it is compared with has a key already.
   */
  function SortError(items: seq<Json>, field: string): (r: Option<string>)
    requires |items| >= 2
    ensures r.None? <==> forall i | 0 <= i < |items| :: SortKey(items[i], field, "a").Ok?
    ensures SortKey(items[1], field, "a").Err? ==> r == Some(SortKey(items[1], field, "a").error)
    ensures SortKey(items[1], field, "a").Ok? && SortKey(items[0], field, "b").Err? ==>
      r == Some(SortKey(items[0], field, "b").error)
    ensures SortKey(items[0], field, "a").Ok? && SortKey(items[1], field, "a").Ok? ==> r == KeyError(items[2..], field)
  {
    if SortKey(items[1], field, "a").Err? then Some(SortKey(items[1], field, "a").error)
    else if SortKey(items[0], field, "b").Err? then Some(SortKey(items[0], field, "b").error)
    else
      var r := KeyError(items[2..], field);
      assert forall i | 2 <= i < |items| :: items[i] == items[2..][i - 2];
      r
  }

  /**
   * `[...items].sort(comparator)` on the lower-cased `field`. The comparator is
   * consistent, so any stable sort gives this result. With fewer than two
   * entries the comparator never runs; otherwise every entry reaches it, and
   * one whose key throws makes the sort throw with the error `SortError` gives.
   */
  function SortByField(items: seq<Json>, field: string): Result<seq<Json>> {
    if |items| < 2 then Ok(items)
    else match SortError(items, field)
      case Some(e) => Err(e)
      case None => Ok(Sorting.Sort(items, (a, b) => Sorting.Compare(KeyOf(field)(a), KeyOf(field)(b))))
  }

  /**
   * A location that is a number on the first entry of two is reported under
   * the comparator's second parameter, `b`.
   */
  lemma FirstEntryReportedAsB()
    ensures SortByField([JObj([("location", JNum(5))]), JObj([("location", JStr("x"))])], "location")
      == Err(NotLowerable("b", "location"))
  {
    var items := [JObj([("location", JNum(5))]), JObj([("location", JStr("x"))])];
    assert Get(items[1], "location") == Some(JStr("x"));
    assert Get(items[0], "location") == Some(JNum(5));
  }

  /**
   * A sort that succeeds gives the same entries ordered by the lower-cased
   * field, entries with equal keys in their original order; it fails only when
   * there are two entries or more and some entry's key throws.
   */
  lemma SortByFieldSorted(items: seq<Json>, field: string)
    ensures SortByField(items, field).Err? <==>
      |items| >= 2 && exists i | 0 <= i < |items| :: SortKey(items[i], field, "a").Err?
    ensures SortByField(items, field).Ok? ==>
      var r := SortByField(items, field).value;
      multiset(r) == multiset(items) &&
      Sorting.SortedBy(r, KeyOf(field)) &&
      forall k :: Sorting.WithKey(r, KeyOf(field), k) == Sorting.WithKey(items, KeyOf(field), k)
  {
    var key := KeyOf(field);
    var cmp := (a, b) => Sorting.Compare(key(a), key(b));
    if |items| >= 2 && SortError(items, field).None? {
      assert Sorting.Orders(cmp, key);
      Sorting.SortByKey(items, cmp, key);
      Sorting.SortPermutes(items, cmp);
      assert SortByField(items, field).value == Sorting.Sort(items, cmp);
    }
  }

  /** `idToPatient.get(id)`: the Map built from `[p.id, p]` pairs keeps the last entry for a repeated id. */
  function LastById(patients: seq<Json>, id: Option<Json>): (r: Option<Json>)
    ensures r.Some? ==> r.value in patients && HasId(r.value, id)
    ensures r.None? ==> forall i | 0 <= i < |patients| :: !HasId(patients[i], id)
  {
    if patients == [] then None
    else if HasId(patients[|patients| - 1], id) then Some(patients[|patients| - 1])
    else
      var init := patients[..|patients| - 1];
      var r := LastById(init, id);
      InitAgrees(patients);
      r
  }

  /** `customOrder.map(orig => idToPatient.get(orig.id)).filter(p => !!p)` when no entry is null. */
  function Restore(patients: seq<Json>, order: seq<Json>): seq<Json> {
    if order == [] then []
    else
      var p := LastById(patients, Get(order[|order| - 1], "id"));
      Restore(patients, order[..|order| - 1]) + (if Truthy(p) then [p.value] else [])
  }

  /** The custom order; a null entry in either list throws on `.id`. */
  function CustomOrder(patients: seq<Json>, order: seq<Json>): (r: Result<seq<Json>>)
    ensures r.Err? <==> JNull in patients || JNull in order
  {
    if JNull in patients || JNull in order then Err(NullRead("id")) else Ok(Restore(patients, order))
  }

  /** Ids that tell the entries of a list apart. */
  predicate DistinctIds(items: seq<Json>) {
    (forall i | 0 <= i < |items| :: Primitive(Get(items[i], "id"))) &&
    forall i, j | 0 <= i < j < |items| :: !HasId(items[j], Get(items[i], "id"))
  }

  /**
   * Sorting by location or name and then choosing the custom order gives back
   * the order as loaded, as long as the ids tell the patients apart.
   */
  lemma CustomRestores(patients: seq<Json>, order: seq<Json>)
    requires multiset(patients) == multiset(order)
    requires forall i | 0 <= i < |order| :: order[i].JObj?
    requires DistinctIds(order)
    ensures CustomOrder(patients, order) == Ok(order)
  {
    assert JNull !in order;
    assert JNull !in patients by {
      assert JNull !in multiset(order);
    }
    RestoreFrom(patients, order, |order|);
    assert order[..|order|] == order;
  }

  lemma {:induction false} RestoreFrom(patients: seq<Json>, order: seq<Json>, n: nat)
    requires n <= |order|
    requires multiset(patients) == multiset(order)
    requires forall i | 0 <= i < |order| :: order[i].JObj?
    requires DistinctIds(order)
    ensures Restore(patients, order[..n]) == order[..n]
  {
    if n > 0 {
      var prefix := order[..n];
      assert prefix[..n - 1] == order[..n - 1];
      assert prefix[n - 1] == order[n - 1];
      RestoreFrom(patients, order, n - 1);
      FoundById(patients, order, n - 1);
      assert prefix == order[..n - 1] + [order[n - 1]];
    }
  }

  /** With distinct ids, looking up an entry's id finds that entry. */
  lemma FoundById(patients: seq<Json>, order: seq<Json>, n: nat)
    requires n < |order|
    requires multiset(patients) == multiset(order)
    requires DistinctIds(order)
    ensures LastById(patients, Get(order[n], "id")) == Some(order[n])
  {
    var o := order[n];
    var id := Get(o, "id");
    assert o in multiset(order);
    StrictEqProperties(id, id);
    assert HasId(o, id);
    var p := LastById(patients, id);
    assert p.Some?;
    assert p.value in multiset(order);
    var j :| 0 <= j < |order| && order[j] == p.value;
    assert HasId(order[j], id);
    if j < n {
      StrictEqProperties(Get(order[j], "id"), id);
      assert false;
    } else if j > n {
      assert false;
    }
  }

  // ---------------------------------------------------------------------------
  // _parseAndMapICMPatients over rows the CSV parser already produced.

  /** `row[f] ? String(row[f]).trim() : undefined`. */
  function TrimmedField(row: Fields, f: string): Option<string> {
    var v := Lookup(row, f);
    if Truthy(v) then Some(Trim(JsString(v.value))) else None
  }

  /** `row[f] !== null && row[f] !== undefined ? row[f] : undefined`. */
  function DefinedField(row: Fields, f: string): Option<Json> {
    var v := Lookup(row, f);
    if v.Some? && !v.value.JNull? then v else None
  }

  /** A string variable's truthiness: defined and not empty. */
  predicate Present(s: Option<string>) {
    s.Some? && s.value != ""
  }

  function AsJson(s: Option<string>): Option<Json> {
    if s.Some? then Some(JStr(s.value)) else None
  }

  /** An object literal; keys whose value is undefined are left out. */
  function Literal(pairs: seq<(string, Option<Json>)>): (r: Fields)
    ensures forall k | forall i | 0 <= i < |pairs| :: pairs[i].0 != k :: Lookup(r, k).None?
  {
    if pairs == [] then []
    else
      var init := pairs[..|pairs| - 1];
      var (k, v) := pairs[|pairs| - 1];
      var r := Literal(init) + (if v.Some? then [(k, v.value)] else []);
      assert forall key | forall i | 0 <= i < |pairs| :: pairs[i].0 != key :: Lookup(r, key).None? by {
        forall key | forall i | 0 <= i < |pairs| :: pairs[i].0 != key ensures Lookup(r, key).None? {
          assert forall i | 0 <= i < |init| :: init[i].0 != key by {
            forall i | 0 <= i < |init| ensures init[i].0 != key {
              assert init[i] == pairs[i];
            }
          }
          assert pairs[|pairs| - 1].0 != key;
          if v.Some? {
            assert r[..|r| - 1] == Literal(init);
          } else {
            assert r == Literal(init);
          }
        }
      }
      r
  }

  /** The set of ids of the patients whose type is "umrn"; a null entry throws on `.type`. */
  function UmrnIds(current: seq<Json>): Result<seq<Option<Json>>> {
    if JNull in current then Err(NullRead("type"))
    else Ok(Ids(Filter(current, p => Get(p, "type") == Some(JStr("umrn")))))
  }

  /** What the loop does with a row. */
  datatype Decision = Skip | UseUmrn(umrn: string) | Draw

  /**
   * A row with neither a umrn nor a name is skipped, and so is one whose umrn
   * is already in the list when `skipExisting` holds; a kept row takes its
   * umrn as id, or a fresh uuid when it has none.
   */
  function Decide(row: Fields, existing: seq<Option<Json>>, skipExisting: bool): (d: Decision)
    ensures d.UseUmrn? <==> Present(TrimmedField(row, "umrn")) && !(skipExisting && Has(existing, AsJson(TrimmedField(row, "umrn"))))
    ensures d.UseUmrn? ==> Some(d.umrn) == TrimmedField(row, "umrn")
    ensures d.Draw? <==> !Present(TrimmedField(row, "umrn")) && Present(TrimmedField(row, "name"))
  {
    var umrn := TrimmedField(row, "umrn");
    var name := TrimmedField(row, "name");
    if !Present(umrn) && !Present(name) then Skip
    else if skipExisting && Present(umrn) && Has(existing, AsJson(umrn)) then Skip
    else if Present(umrn) then UseUmrn(umrn.value)
    else Draw
  }

  /** The patient a row becomes, with the given id. */
  function Imported(row: Fields, id: string): (r: Json)
    ensures r.JObj?
    ensures Get(r, "id") == Some(JStr(id))
    ensures Get(r, "type") == Some(JStr(if Present(TrimmedField(row, "umrn")) then "umrn" else "uuid"))
  {
    var umrn := TrimmedField(row, "umrn");
    var pairs := [
      ("umrn", AsJson(umrn)),
      ("name", AsJson(TrimmedField(row, "name"))),
      ("location", AsJson(TrimmedField(row, "location"))),
      ("age", DefinedField(row, "age")),
      ("los", DefinedField(row, "los")),
      ("admission_date", AsJson(TrimmedField(row, "admission_date"))),
      ("cons_name", AsJson(TrimmedField(row, "cons_name"))),
      ("dsc_date", AsJson(TrimmedField(row, "dsc_date"))),
      ("diagnosis", AsJson(TrimmedField(row, "diagnosis")))];
    var rest := Literal(pairs);
    var head: Fields := [("id", JStr(id)), ("type", JStr(if Present(umrn) then "umrn" else "uuid"))];
    assert forall i | 0 <= i < |pairs| :: pairs[i].0 != "id" && pairs[i].0 != "type";
    LookupAppendMissing(head, rest, "id");
    LookupAppendMissing(head, rest, "type");
    JObj(head + rest)
  }

  /**
   * The patients the rows become, in row order, when `draws` uuids have been
   * taken before the first row.
   */
  function MapRows(rows: seq<Fields>, existing: seq<Option<Json>>, skipExisting: bool, uuid: nat -> string, draws: nat): (r: seq<Json>)
    decreases |rows|
  {
    if rows == [] then []
    else
      var row := rows[0];
      match Decide(row, existing, skipExisting)
      case Skip => MapRows(rows[1..], existing, skipExisting, uuid, draws)
      case UseUmrn(u) => [Imported(row, u)] + MapRows(rows[1..], existing, skipExisting, uuid, draws)
      case Draw => [Imported(row, uuid(draws))] + MapRows(rows[1..], existing, skipExisting, uuid, draws + 1)
  }

  /**
   * `_parseAndMapICMPatients`: the first parser error is thrown, no rows give
   * no patients, and otherwise each row is mapped in order against the umrns
   * already in the list.
   */
  method ParseAndMapICMPatients(errors: seq<(string, int)>, rows: seq<Fields>, current: seq<Json>, skipExisting: bool, uuid: nat -> string)
    returns (r: Result<seq<Json>>)
    ensures errors != [] ==>
      r == Err("Error parsing CSV file: " + errors[0].0 + " (Row: " + IntToString(errors[0].1) + ")")
    ensures errors == [] && rows == [] ==> r == Ok([])
    ensures errors == [] && rows != [] && JNull in current ==> r == Err(NullRead("type"))
    ensures errors == [] && rows != [] && JNull !in current ==>
      r == Ok(MapRows(rows, UmrnIds(current).value, skipExisting, uuid, 0))
  {
    if errors != [] {
      return Err("Error parsing CSV file: " + errors[0].0 + " (Row: " + IntToString(errors[0].1) + ")");
    }
    if rows == [] {
      return Ok([]);
    }
    var ids := UmrnIds(current);
    if ids.Err? {
      return Err(ids.error);
    }
    var imported := MapEachRow(rows, ids.value, skipExisting, uuid);
    return Ok(imported);
  }

  /** The loop over the rows, pushing each kept row's patient. */
  method MapEachRow(rows: seq<Fields>, existing: seq<Option<Json>>, skipExisting: bool, uuid: nat -> string)
    returns (imported: seq<Json>)
    ensures imported == MapRows(rows, existing, skipExisting, uuid, 0)
  {
    imported := [];
    var draws: nat := 0;
    var i := 0;
    assert rows[i..] == rows;
    while i < |rows|
      invariant 0 <= i <= |rows|
      invariant imported + MapRows(rows[i..], existing, skipExisting, uuid, draws) ==
        MapRows(rows, existing, skipExisting, uuid, 0)
    {
      var row := rows[i];
      MapRowsStep(rows, i, existing, skipExisting, uuid, draws);
      var rest := rows[i + 1..];
      match Decide(row, existing, skipExisting) {
        case Skip =>
        case UseUmrn(u) =>
          var p := Imported(row, u);
          Push(imported, p, MapRows(rest, existing, skipExisting, uuid, draws));
          imported := imported + [p];
        case Draw =>
          var p := Imported(row, uuid(draws));
          Push(imported, p, MapRows(rest, existing, skipExisting, uuid, draws + 1));
          imported := imported + [p];
          draws := draws + 1;
      }
      i := i + 1;
    }
    assert rows[i..] == [];
    assert MapRows(rows[i..], existing, skipExisting, uuid, draws) == [];
  }

  lemma Push(front: seq<Json>, p: Json, back: seq<Json>)
    ensures front + ([p] + back) == (front + [p]) + back
  {
  }

  /** One step of the mapping, from row `i`. */
  lemma MapRowsStep(rows: seq<Fields>, i: nat, existing: seq<Option<Json>>, skipExisting: bool, uuid: nat -> string, draws: nat)
    requires i < |rows|
    ensures MapRows(rows[i..], existing, skipExisting, uuid, draws) ==
      match Decide(rows[i], existing, skipExisting)
      case Skip => MapRows(rows[i + 1..], existing, skipExisting, uuid, draws)
      case UseUmrn(u) => [Imported(rows[i], u)] + MapRows(rows[i + 1..], existing, skipExisting, uuid, draws)
      case Draw => [Imported(rows[i], uuid(draws))] + MapRows(rows[i + 1..], existing, skipExisting, uuid, draws + 1)
  {
    assert rows[i..][0] == rows[i] && rows[i..][1..] == rows[i + 1..];
  }

  /**
   * What every imported patient looks like: an object whose id is a umrn not
   * already in the list (when existing umrns are skipped), or one of the uuids
   * drawn while mapping.
   */
  ghost predicate ImportedShape(p: Json, existing: seq<Option<Json>>, skipExisting: bool, uuid: nat -> string, lo: nat, hi: nat) {
    p.JObj? &&
    ((Get(p, "type") == Some(JStr("umrn")) && !(skipExisting && Has(existing, Get(p, "id")))) ||
     (Get(p, "type") == Some(JStr("uuid")) && exists k | lo <= k < hi :: Get(p, "id") == Some(JStr(uuid(k)))))
  }

  /** At most one patient per row, each of the imported shape. */
  lemma {:induction false} MapRowsShape(rows: seq<Fields>, existing: seq<Option<Json>>, skipExisting: bool, uuid: nat -> string, draws: nat)
    ensures var r := MapRows(rows, existing, skipExisting, uuid, draws);
      |r| <= |rows| &&
      forall j | 0 <= j < |r| :: ImportedShape(r[j], existing, skipExisting, uuid, draws, draws + |rows|)
    decreases |rows|, 1
  {
    if rows != [] {
      match Decide(rows[0], existing, skipExisting)
      case Skip => SkipRowShape(rows, existing, skipExisting, uuid, draws);
      case UseUmrn(u) => UmrnRowShape(rows, u, existing, skipExisting, uuid, draws);
      case Draw => DrawRowShape(rows, existing, skipExisting, uuid, draws);
    }
  }

  lemma {:induction false} SkipRowShape(rows: seq<Fields>, existing: seq<Option<Json>>, skipExisting: bool, uuid: nat -> string, draws: nat)
    requires rows != [] && Decide(rows[0], existing, skipExisting) == Skip
    ensures var r := MapRows(rows, existing, skipExisting, uuid, draws);
      |r| <= |rows| &&
      forall j | 0 <= j < |r| :: ImportedShape(r[j], existing, skipExisting, uuid, draws, draws + |rows|)
    decreases |rows|, 0
  {
    var tail := rows[1..];
    MapRowsShape(tail, existing, skipExisting, uuid, draws);
    ShapeWidens([], MapRows(tail, existing, skipExisting, uuid, draws), existing, skipExisting, uuid,
      draws, draws + |tail|, draws, draws + |rows|);
    assert [] + MapRows(tail, existing, skipExisting, uuid, draws) == MapRows(rows, existing, skipExisting, uuid, draws);
  }

  lemma {:induction false} UmrnRowShape(rows: seq<Fields>, u: string, existing: seq<Option<Json>>, skipExisting: bool, uuid: nat -> string, draws: nat)
    requires rows != [] && Decide(rows[0], existing, skipExisting) == UseUmrn(u)
    ensures var r := MapRows(rows, existing, skipExisting, uuid, draws);
      |r| <= |rows| &&
      forall j | 0 <= j < |r| :: ImportedShape(r[j], existing, skipExisting, uuid, draws, draws + |rows|)
    decreases |rows|, 0
  {
    var tail := rows[1..];
    MapRowsShape(tail, existing, skipExisting, uuid, draws);
    UmrnShape(rows[0], u, existing, skipExisting, uuid, draws, draws + |rows|);
    ShapeWidens([Imported(rows[0], u)], MapRows(tail, existing, skipExisting, uuid, draws), existing, skipExisting, uuid,
      draws, draws + |tail|, draws, draws + |rows|);
  }

  lemma {:induction false} DrawRowShape(rows: seq<Fields>, existing: seq<Option<Json>>, skipExisting: bool, uuid: nat -> string, draws: nat)
    requires rows != [] && Decide(rows[0], existing, skipExisting) == Draw
    ensures var r := MapRows(rows, existing, skipExisting, uuid, draws);
      |r| <= |rows| &&
      forall j | 0 <= j < |r| :: ImportedShape(r[j], existing, skipExisting, uuid, draws, draws + |rows|)
    decreases |rows|, 0
  {
    var tail := rows[1..];
    MapRowsShape(tail, existing, skipExisting, uuid, draws + 1);
    DrawShape(rows[0], draws, existing, skipExisting, uuid, draws, draws + |rows|);
    ShapeWidens([Imported(rows[0], uuid(draws))], MapRows(tail, existing, skipExisting, uuid, draws + 1), existing, skipExisting, uuid,
      draws + 1, draws + 1 + |tail|, draws, draws + |rows|);
  }

  lemma UmrnShape(row: Fields, u: string, existing: seq<Option<Json>>, skipExisting: bool, uuid: nat -> string, lo: nat, hi: nat)
    requires Decide(row, existing, skipExisting) == UseUmrn(u)
    ensures ImportedShape(Imported(row, u), existing, skipExisting, uuid, lo, hi)
  {
  }

  lemma DrawShape(row: Fields, k: nat, existing: seq<Option<Json>>, skipExisting: bool, uuid: nat -> string, lo: nat, hi: nat)
    requires Decide(row, existing, skipExisting) == Draw && lo <= k < hi
    ensures ImportedShape(Imported(row, uuid(k)), existing, skipExisting, uuid, lo, hi)
  {
    assert Get(Imported(row, uuid(k)), "id") == Some(JStr(uuid(k)));
  }

  /** The head's patients followed by the tail's, whose uuid window lies inside the wider one. */
  lemma ShapeWidens(head: seq<Json>, r: seq<Json>, existing: seq<Option<Json>>, skipExisting: bool, uuid: nat -> string, lo: nat, hi: nat, lo': nat, hi': nat)
    requires lo' <= lo && hi <= hi'
    requires forall j | 0 <= j < |head| :: ImportedShape(head[j], existing, skipExisting, uuid, lo', hi')
    requires forall j | 0 <= j < |r| :: ImportedShape(r[j], existing, skipExisting, uuid, lo, hi)
    ensures forall j | 0 <= j < |head + r| :: ImportedShape((head + r)[j], existing, skipExisting, uuid, lo', hi')
  {
    forall j | 0 <= j < |head + r| ensures ImportedShape((head + r)[j], existing, skipExisting, uuid, lo', hi') {
      if j >= |head| {
        assert (head + r)[j] == r[j - |head|];
        assert ImportedShape(r[j - |head|], existing, skipExisting, uuid, lo, hi);
      }
    }
  }
}
