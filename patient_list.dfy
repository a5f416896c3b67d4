/**
 * The patient-list view (src/composables/usePatientList.ts): the search
 * filter over the store's patients, the comparators of the three sort modes,
 * the checkbox selection, the drag reorder, and the handlers that hand a new
 * order or a selection back to the store.
 *
 * `toLowerCase` is ASCII lower-casing and `localeCompare` is the order of
 * Unicode scalar values (not UTF-16 code-unit order), as everywhere in this model.
 */
module PatientList {
  import opened Base
  import opened JsonModel
  import opened Patients
  import Sorting
  import PatientData

  // ---------------------------------------------------------------------------
  // checkboxSelect

  /** `ids.indexOf(id)`: the first position of `id`, or -1. */
  function IndexOf(ids: seq<string>, id: string): (r: int)
    ensures -1 <= r < |ids|
    ensures r == -1 <==> id !in ids
    ensures r >= 0 ==> ids[r] == id && id !in ids[..r]
  {
    if ids == [] then -1
    else if ids[0] == id then 0
    else
      var r := IndexOf(ids[1..], id);
      assert ids == [ids[0]] + ids[1..];
      if r == -1 then -1
      else
        assert ids[..r + 1] == [ids[0]] + ids[1..][..r];
        r + 1
  }

  /** checkboxSelect: an absent id is pushed, the first occurrence of a present one is spliced out. */
  function Toggled(ids: seq<string>, id: string): seq<string> {
    var i := IndexOf(ids, id);
    if i == -1 then ids + [id] else ids[..i] + ids[i + 1..]
  }

  /**
   * On a selection without repeats, a toggle flips the membership of `id`
   * alone and keeps the selection free of repeats.
   */
  lemma ToggleFlips(ids: seq<string>, id: string)
    requires Sorting.Distinct(ids)
    ensures Sorting.Distinct(Toggled(ids, id))
    ensures forall x :: x in Toggled(ids, id) <==> if x == id then id !in ids else x in ids
  {
    var i := IndexOf(ids, id);
    var t := Toggled(ids, id);
    if i == -1 {
      forall a, b | 0 <= a < b < |t| ensures t[a] != t[b] {
        if b == |ids| {
          assert t[a] == ids[a];
        }
      }
    } else {
      assert ids == ids[..i] + [id] + ids[i + 1..];
      forall a, b | 0 <= a < b < |t| ensures t[a] != t[b] {
        var a' := if a < i then a else a + 1;
        var b' := if b < i then b else b + 1;
        assert t[a] == ids[a'] && t[b] == ids[b'];
      }
    }
  }

  /** Toggling an absent id twice gives the selection back exactly. */
  lemma ToggleTwiceAbsent(ids: seq<string>, id: string)
    requires id !in ids
    ensures Toggled(Toggled(ids, id), id) == ids
  {
    var t := ids + [id];
    assert IndexOf(t, id) == |ids| by {
      assert t[..|ids|] == ids;
    }
    assert t[..|ids|] == ids;
  }

  /**
   * Toggling a present id twice, on a selection without repeats, gives back
   * the same ids; the id itself moves to the end.
   */
  lemma ToggleTwicePresent(ids: seq<string>, id: string)
    requires Sorting.Distinct(ids) && id in ids
    ensures forall x :: x in Toggled(Toggled(ids, id), id) <==> x in ids
    ensures Toggled(Toggled(ids, id), id) == Toggled(ids, id) + [id]
  {
    ToggleFlips(ids, id);
    ToggleFlips(Toggled(ids, id), id);
  }

  // ---------------------------------------------------------------------------
  // filteredPatients

  /** The TypeError of calling `toLowerCase` on a value that is not a string. */
  function NotAFunction(field: string): string {
    "p." + field + ".toLowerCase is not a function"
  }

  /** `(p.f && p.f.toLowerCase().includes(term))` for one field. */
  function FieldHit(p: Json, field: string, term: string): (r: Result<bool>)
    ensures r == Ok(true) <==>
      (StrOf(Get(p, field)).Some? && StrOf(Get(p, field)).value != "" && Contains(Lower(StrOf(Get(p, field)).value), term))
    ensures r.Err? <==> Truthy(Get(p, field)) && StrOf(Get(p, field)).None?
  {
    var v := Get(p, field);
    if !Truthy(v) then Ok(false)
    else if v.value.JStr? then Ok(Contains(Lower(v.value.s), term))
    else Err(NotAFunction(field))
  }

  /** The search predicate: rawName, then umrn, then location, stopping at the first hit or throw. */
  function SearchHit(p: Json, term: string): Result<bool> {
    if p == JNull then Err(NullRead("rawName"))
    else
      var a := FieldHit(p, "rawName", term);
      if a != Ok(false) then a
      else
        var b := FieldHit(p, "umrn", term);
        if b != Ok(false) then b else FieldHit(p, "location", term)
  }

  function SearchTest(term: string): Json -> Result<bool> {
    p => SearchHit(p, term)
  }

  /** The entries a test accepts. */
  function Accepts(test: Json -> Result<bool>): Json -> bool {
    p => test(p) == Ok(true)
  }

  function IsHit(term: string): Json -> bool {
    Accepts(SearchTest(term))
  }

  /** `items.filter(test)`: the first entry the test throws on makes the whole filter throw. */
  function Screen(items: seq<Json>, test: Json -> Result<bool>): (r: Result<seq<Json>>)
    ensures r.Ok? <==> forall i | 0 <= i < |items| :: test(items[i]).Ok?
    ensures r.Ok? ==> r.value == Filter(items, Accepts(test))
  {
    if items == [] then Ok([])
    else
      var init := items[..|items| - 1];
      var last := items[|items| - 1];
      InitAgrees(items);
      match Screen(init, test)
      case Err(e) => Err(e)
      case Ok(front) =>
        match test(last)
        case Err(e) => Err(e)
        case Ok(h) => Ok(front + if h then [last] else [])
  }

  /** `patients.filter(...)` with the search predicate. */
  function SearchAll(items: seq<Json>, term: string): (r: Result<seq<Json>>)
    ensures r.Ok? <==> forall i | 0 <= i < |items| :: SearchHit(items[i], term).Ok?
    ensures r.Ok? ==> r.value == Filter(items, IsHit(term))
  {
    Screen(items, SearchTest(term))
  }

  /** filteredPatients: the whole list for an empty search, otherwise the entries the lower-cased term hits. */
  function FilteredPatients(patients: seq<Json>, search: string): (r: Result<seq<Json>>)
    ensures search == "" ==> r == Ok(patients)
    ensures search != "" ==> (r.Ok? <==> forall i | 0 <= i < |patients| :: SearchHit(patients[i], Lower(search)).Ok?)
    ensures search != "" && r.Ok? ==> r.value == Filter(patients, IsHit(Lower(search)))
  {
    if search == "" then Ok(patients) else SearchAll(patients, Lower(search))
  }

  /**
   * A filter keeps the accepted entries in their order: the positions it
   * took them from increase, and every accepted position is among them.
   */
  lemma {:induction false} FilterPicks(items: seq<Json>, keep: Json -> bool) returns (idx: seq<nat>)
    ensures |idx| == |Filter(items, keep)|
    ensures forall k | 0 <= k < |idx| :: idx[k] < |items| && Filter(items, keep)[k] == items[idx[k]]
    ensures forall k, l | 0 <= k < l < |idx| :: idx[k] < idx[l]
    ensures forall i | 0 <= i < |items| && keep(items[i]) :: i in idx
  {
    if items == [] {
      idx := [];
    } else {
      var n := |items| - 1;
      var init := items[..n];
      var front := FilterPicks(init, keep);
      var tail := if keep(items[n]) then [n] else [];
      assert Filter(items, keep) == Filter(init, keep) + (if keep(items[n]) then [items[n]] else []);
      idx := front + tail;
      forall k | 0 <= k < |idx| ensures idx[k] < |items| && Filter(items, keep)[k] == items[idx[k]] {
        if k < |front| {
          assert idx[k] == front[k] && init[front[k]] == items[front[k]];
        }
      }
      forall i | 0 <= i < |items| && keep(items[i]) ensures i in idx {
        if i < n {
          assert init[i] == items[i];
          assert i in front;
        } else {
          assert idx[|front|] == n;
        }
      }
    }
  }

  /** With a search term, the view shows the hit entries, in list order, and no others. */
  lemma FilteredInOrder(patients: seq<Json>, search: string) returns (idx: seq<nat>)
    requires search != "" && FilteredPatients(patients, search).Ok?
    ensures var shown := FilteredPatients(patients, search).value;
      && |idx| == |shown|
      && (forall k | 0 <= k < |idx| :: idx[k] < |patients| && shown[k] == patients[idx[k]] && SearchHit(shown[k], Lower(search)) == Ok(true))
      && (forall k, l | 0 <= k < l < |idx| :: idx[k] < idx[l])
      && (forall i | 0 <= i < |patients| && SearchHit(patients[i], Lower(search)) == Ok(true) :: i in idx)
  {
    idx := FilterPicks(patients, IsHit(Lower(search)));
  }

  // ---------------------------------------------------------------------------
  // The comparators of sortPatients.

  /** `typeof a.location === 'string' ? a.location : a.location != null ? String(a.location) : ''`. */
  function LocationText(p: Json): string {
    match Get(p, "location")
    case None => ""
    case Some(JNull) => ""
    case Some(v) => JsString(v)
  }

  /** The 'location' comparator: entries without a location go last and tie with each other. */
  function LocationCompare(a: Json, b: Json): (r: int)
    ensures LocationText(a) == "" && LocationText(b) == "" ==> r == 0
    ensures LocationText(a) == "" && LocationText(b) != "" ==> r > 0
    ensures LocationText(a) != "" && LocationText(b) == "" ==> r < 0
    ensures LocationText(a) != "" && LocationText(b) != "" ==> (r == 0 <==> Lower(LocationText(a)) == Lower(LocationText(b)))
  {
    var x, y := LocationText(a), LocationText(b);
    if x == "" && y == "" then 0
    else if x == "" then 1
    else if y == "" then -1
    else Sorting.Compare(Lower(x), Lower(y))
  }

  /** The key the location comparator orders by: every location before the missing ones. */
  function LocationKey(p: Json): string {
    if LocationText(p) == "" then "b" else "a" + Lower(LocationText(p))
  }

  lemma PrefixedLess(c: char, x: string, y: string)
    ensures Sorting.Less([c] + x, [c] + y) == Sorting.Less(x, y)
  {
    assert ([c] + x)[1..] == x && ([c] + y)[1..] == y;
  }

  /** The location comparator is consistent: it compares the location keys. */
  lemma LocationOrders()
    ensures Sorting.Orders(LocationCompare, LocationKey)
  {
    forall a, b ensures LocationCompare(a, b) == Sorting.Compare(LocationKey(a), LocationKey(b)) {
      var x, y := LocationText(a), LocationText(b);
      if x != "" && y != "" {
        PrefixedLess('a', Lower(x), Lower(y));
        PrefixedLess('a', Lower(y), Lower(x));
        assert "a" + Lower(x) == ['a'] + Lower(x) && "a" + Lower(y) == ['a'] + Lower(y);
      } else if x != "" {
        assert Sorting.Less(LocationKey(a), LocationKey(b));
      } else if y != "" {
        assert Sorting.Less(LocationKey(b), LocationKey(a));
      }
    }
  }

  const NameNotAFunction: string := "a.rawName?.toLowerCase is not a function"
  const OtherNameNotAFunction: string := "b.rawName?.toLowerCase is not a function"

  /**
   * The 'name' comparator
   * `a.rawName?.toLowerCase().localeCompare(b.rawName?.toLowerCase() || '') || 0`:
   * a missing name on the left makes the whole expression undefined, so 0.
   */
  function NameCompare(a: Json, b: Json): Result<int> {
    if a == JNull then Err(NullRead("rawName"))
    else
      var x := Get(a, "rawName");
      if x.None? || x == Some(JNull) then Ok(0)
      else if !x.value.JStr? then Err(NameNotAFunction)
      else if b == JNull then Err(NullRead("rawName"))
      else
        var y := Get(b, "rawName");
        if y.None? || y == Some(JNull) then Ok(Sorting.Compare(Lower(x.value.s), ""))
        else if !y.value.JStr? then Err(OtherNameNotAFunction)
        else Ok(Sorting.Compare(Lower(x.value.s), Lower(y.value.s)))
  }

  /** An entry the name comparator treats consistently: an object-like value with a string rawName. */
  predicate NamedEntry(p: Json) {
    p != JNull && StrOf(Get(p, "rawName")).Some?
  }

  /**
   * An entry whose rawName is missing or null: with it on the left the
   * optional chain stops, so the comparator gives 0 without reading the
   * right side. Entries saved by savePatients have no rawName at all.
   */
  predicate UnnamedEntry(p: Json) {
    p != JNull && (Get(p, "rawName").None? || Get(p, "rawName") == Some(JNull))
  }

  predicate AllUnnamed(list: seq<Json>) {
    forall i | 0 <= i < |list| :: UnnamedEntry(list[i])
  }

  /** An unnamed entry on the left compares equal to anything, null included. */
  lemma NameCompareUnnamed(a: Json, b: Json)
    requires UnnamedEntry(a)
    ensures NameCompare(a, b) == Ok(0)
  {
  }

  function RawNameKey(p: Json): string {
    if NamedEntry(p) then Lower(StrOf(Get(p, "rawName")).value) else ""
  }

  function NameOrder(a: Json, b: Json): int {
    Sorting.Compare(RawNameKey(a), RawNameKey(b))
  }

  /** Between named entries the name comparator never throws and compares the lower-cased names. */
  lemma NameCompareNamed(a: Json, b: Json)
    requires NamedEntry(a) && NamedEntry(b)
    ensures NameCompare(a, b) == Ok(NameOrder(a, b))
  {
  }

  /**
   * Without a name on the left the comparator says "equal", with one it puts
   * a nameless right side first: it is not consistent once a name is missing.
   */
  lemma NameCompareInconsistent(a: Json, b: Json)
    requires a != JNull && Get(a, "rawName").None?
    requires b != JNull && Get(b, "rawName") == Some(JStr("x"))
    ensures NameCompare(a, b) == Ok(0) && NameCompare(b, a) == Ok(1)
  {
    assert Sorting.Less([], Lower("x"));
  }

  // ---------------------------------------------------------------------------
  // sortPatients: `[...list].sort(sortFunc)`.

  /**
   * What the sort gives: the sorted list, the exception it throws, or, for a
   * name sort over entries the comparator throws on or orders inconsistently,
   * an outcome that depends on which pairs the engine's sort compares.
   */
  datatype SortOutcome = Sorted(list: seq<Json>) | Threw(error: string) | Unsettled

  function Unordered(a: Json, b: Json): int {
    0
  }

  /**
   * A sort of two or more entries compares every entry at least once, so a
   * null entry always reaches the location comparator, which reads a
   * property of it.
   */
  function SortView(list: seq<Json>, mode: SortMode): SortOutcome {
    match mode
    case Custom => Sorted(Sorting.Sort(list, Unordered))
    case ByLocation =>
      if |list| >= 2 && JNull in list then Threw(NullRead("location"))
      else Sorted(Sorting.Sort(list, LocationCompare))
    case ByName =>
      if AllUnnamed(list) then Sorted(Sorting.Sort(list, Unordered))
      else if |list| >= 2 && exists i | 0 <= i < |list| :: !NamedEntry(list[i]) then Unsettled
      else Sorted(Sorting.Sort(list, NameOrder))
  }

  /** The custom mode's comparator finds every pair equal, so the view keeps its order. */
  lemma SortViewCustom(list: seq<Json>)
    ensures SortView(list, Custom) == Sorted(list)
  {
    Sorting.SortAllEqual(list, Unordered);
  }

  /** A one-entry list is never compared. */
  lemma SortViewSingle(list: seq<Json>, mode: SortMode)
    requires |list| <= 1
    ensures SortView(list, mode) == Sorted(list)
  {
    Sorting.SortShort(list, LocationCompare);
    Sorting.SortShort(list, NameOrder);
    SortViewCustom(list);
  }

  /**
   * A location sort that finishes is a permutation, ordered by the location
   * key, stable among equal keys, and puts every entry without a location
   * after all entries that have one; it throws exactly when a null entry
   * is among two or more.
   */
  lemma SortViewLocation(list: seq<Json>)
    ensures SortView(list, ByLocation).Threw? <==> |list| >= 2 && JNull in list
    ensures SortView(list, ByLocation).Sorted? ==>
      var r := SortView(list, ByLocation).list;
      && multiset(r) == multiset(list)
      && Sorting.SortedBy(r, LocationKey)
      && (forall k :: Sorting.WithKey(r, LocationKey, k) == Sorting.WithKey(list, LocationKey, k))
      && (forall i, j | 0 <= i < j < |r| && LocationText(r[i]) == "" :: LocationText(r[j]) == "")
  {
    var r := Sorting.Sort(list, LocationCompare);
    Sorting.SortPermutes(list, LocationCompare);
    LocationOrders();
    Sorting.SortByKey(list, LocationCompare, LocationKey);
  }

  /**
   * A name sort over named entries is a permutation, ordered by the
   * lower-cased name and stable among equal names.
   */
  lemma SortViewName(list: seq<Json>)
    requires forall i | 0 <= i < |list| :: NamedEntry(list[i])
    ensures SortView(list, ByName).Sorted?
    ensures var r := SortView(list, ByName).list;
      && multiset(r) == multiset(list)
      && Sorting.SortedBy(r, RawNameKey)
      && forall k :: Sorting.WithKey(r, RawNameKey, k) == Sorting.WithKey(list, RawNameKey, k)
  {
    NamedSortView(list);
    Sorting.SortPermutes(list, NameOrder);
    NameOrders();
    Sorting.SortByKey(list, NameOrder, RawNameKey);
  }

  /** Over named entries the name sort is the sort by NameOrder. */
  lemma NamedSortView(list: seq<Json>)
    requires forall i | 0 <= i < |list| :: NamedEntry(list[i])
    ensures SortView(list, ByName) == Sorted(Sorting.Sort(list, NameOrder))
  {
    if list == [] {
      Sorting.SortShort(list, Unordered);
      Sorting.SortShort(list, NameOrder);
    } else {
      assert !UnnamedEntry(list[0]);
    }
  }

  /**
   * A name sort over entries that all lack a name compares every pair as
   * equal, so the stable sort keeps the order.
   */
  lemma SortViewUnnamed(list: seq<Json>)
    requires AllUnnamed(list)
    ensures forall a, b | a in list :: NameCompare(a, b) == Ok(Unordered(a, b))
    ensures SortView(list, ByName) == Sorted(list)
  {
    forall a, b | a in list ensures NameCompare(a, b) == Ok(Unordered(a, b)) {
      NameCompareUnnamed(a, b);
    }
    Sorting.SortAllEqual(list, Unordered);
  }

  /**
   * savePatients keeps only the twelve patient properties, and rawName is
   * not one of them: a name sort of a saved list keeps its order.
   */
  lemma SavedListSortsByNameUnchanged(items: seq<Json>)
    requires SanitizeAll(items).Ok?
    ensures AllUnnamed(SanitizeAll(items).value)
    ensures SortView(SanitizeAll(items).value, ByName) == Sorted(SanitizeAll(items).value)
  {
    var saved := SanitizeAll(items).value;
    assert "rawName" !in PatientFields;
    forall i | 0 <= i < |saved| ensures UnnamedEntry(saved[i]) {
      assert saved[i] == Sanitize(items[i]);
    }
    SortViewUnnamed(saved);
  }

  lemma NameOrders()
    ensures Sorting.Orders(NameOrder, RawNameKey)
  {
    forall a, b ensures NameOrder(a, b) == Sorting.Compare(RawNameKey(a), RawNameKey(b)) {
    }
  }

  // ---------------------------------------------------------------------------
  // The drag handler of initSortable.

  /** `list.splice(from, 1)` then `list.splice(to, 0, moved)`. */
  function Moved<T>(s: seq<T>, from: nat, to: nat): seq<T>
    requires from < |s| && to < |s|
  {
    var rest := s[..from] + s[from + 1..];
    rest[..to] + [s[from]] + rest[to..]
  }

  /** A drag is a permutation that puts the dragged entry at its new index. */
  lemma MovedPermutes<T>(s: seq<T>, from: nat, to: nat)
    requires from < |s| && to < |s|
    ensures |Moved(s, from, to)| == |s|
    ensures multiset(Moved(s, from, to)) == multiset(s)
    ensures Moved(s, from, to)[to] == s[from]
  {
    var rest := s[..from] + s[from + 1..];
    assert s == s[..from] + [s[from]] + s[from + 1..];
    assert multiset(s) == multiset(s[..from]) + multiset{s[from]} + multiset(s[from + 1..]);
    assert multiset(rest) == multiset(s[..from]) + multiset(s[from + 1..]);
    assert rest == rest[..to] + rest[to..];
    assert multiset(rest) == multiset(rest[..to]) + multiset(rest[to..]);
    var m := Moved(s, from, to);
    assert m == rest[..to] + [s[from]] + rest[to..];
    assert multiset(m) == multiset(rest[..to]) + multiset{s[from]} + multiset(rest[to..]);
    assert multiset(m) == multiset(rest) + multiset{s[from]};
  }

  /** Dragging the entry back to where it came from undoes the drag. */
  lemma MovedBack<T>(s: seq<T>, from: nat, to: nat)
    requires from < |s| && to < |s|
    ensures Moved(Moved(s, from, to), to, from) == s
  {
    var rest := s[..from] + s[from + 1..];
    var t := Moved(s, from, to);
    MovedPermutes(s, from, to);
    assert t[..to] + t[to + 1..] == rest;
    assert rest[..from] == s[..from] && rest[from..] == s[from + 1..];
    assert s == s[..from] + [s[from]] + s[from + 1..];
  }

  // ---------------------------------------------------------------------------
  // addSelectedToToday: `ids.map(getPatientById).filter(p => !!p)`.

  /** The listed patient of each selected id, in selection order; a null entry before it throws. */
  function Picked(patients: seq<Json>, ids: seq<string>): (r: Result<seq<Json>>)
    ensures r.Ok? ==> |r.value| <= |ids|
    ensures r.Ok? ==> forall x | x in r.value :: x in patients
  {
    if ids == [] then Ok([])
    else
      match Picked(patients, ids[..|ids| - 1])
      case Err(e) => Err(e)
      case Ok(front) =>
        match PatientData.Find(patients, "id", PatientData.IdIs(Some(JStr(ids[|ids| - 1]))))
        case Err(e) => Err(e)
        case Ok(found) => Ok(front + if found.Some? && Truthy(found) then [found.value] else [])
  }

  /** On a list without null entries, every selected id that is listed contributes its first patient. */
  lemma {:induction false} PickedListed(patients: seq<Json>, ids: seq<string>, id: string, i: nat)
    requires JNull !in patients
    requires id in ids && i < |patients| && HasId(patients[i], Some(JStr(id)))
    requires forall j | 0 <= j < i :: !HasId(patients[j], Some(JStr(id)))
    ensures Picked(patients, ids).Ok? && patients[i] in Picked(patients, ids).value
    decreases |ids|
  {
    if ids[|ids| - 1] == id {
      PickedAtLast(patients, ids, i);
    } else {
      InInit(ids, id);
      PickedListed(patients, ids[..|ids| - 1], id, i);
      PickedGrows(patients, ids, patients[i]);
    }
  }

  /** The last selected id contributes its first listed patient. */
  lemma PickedAtLast(patients: seq<Json>, ids: seq<string>, i: nat)
    requires JNull !in patients && ids != []
    requires i < |patients| && HasId(patients[i], Some(JStr(ids[|ids| - 1])))
    requires forall j | 0 <= j < i :: !HasId(patients[j], Some(JStr(ids[|ids| - 1])))
    ensures Picked(patients, ids).Ok? && patients[i] in Picked(patients, ids).value
  {
    var found := PickedStep(patients, ids);
    var id := Some(JStr(ids[|ids| - 1]));
    assert PatientData.IdIs(id)(patients[i]);
    assert forall j | 0 <= j < i :: patients[j] != JNull && !PatientData.IdIs(id)(patients[j]);
    FindIndexAt(patients, "id", PatientData.IdIs(id), i);
    assert found == [patients[i]];
  }

  /** A patient picked for the first ids stays picked when more are selected. */
  lemma PickedGrows(patients: seq<Json>, ids: seq<string>, x: Json)
    requires JNull !in patients && ids != []
    requires Picked(patients, ids[..|ids| - 1]).Ok? && x in Picked(patients, ids[..|ids| - 1]).value
    ensures Picked(patients, ids).Ok? && x in Picked(patients, ids).value
  {
    var found := PickedStep(patients, ids);
  }

  /** The last id's contribution, when nothing throws. */
  lemma PickedStep(patients: seq<Json>, ids: seq<string>) returns (found: seq<Json>)
    requires JNull !in patients && ids != []
    ensures Picked(patients, ids[..|ids| - 1]).Ok? && Picked(patients, ids).Ok?
    ensures Picked(patients, ids).value == Picked(patients, ids[..|ids| - 1]).value + found
    ensures var f := PatientData.Find(patients, "id", PatientData.IdIs(Some(JStr(ids[|ids| - 1]))));
      f.Ok? && found == if f.value.Some? && Truthy(f.value) then [f.value.value] else []
  {
    PickedTotal(patients, ids[..|ids| - 1]);
    var f := PatientData.Find(patients, "id", PatientData.IdIs(Some(JStr(ids[|ids| - 1]))));
    found := if f.value.Some? && Truthy(f.value) then [f.value.value] else [];
  }

  lemma {:induction false} PickedTotal(patients: seq<Json>, ids: seq<string>)
    requires JNull !in patients
    ensures Picked(patients, ids).Ok?
  {
    if ids != [] {
      PickedTotal(patients, ids[..|ids| - 1]);
    }
  }

  // ---------------------------------------------------------------------------
  // The view's refs.

  /** What onSortEnd did with the order it was given. */
  datatype OrderOutcome = NotAList | OrderSaved | OrderNotSaved

  /** What addSelectedToToday did; the first three are its guards. */
  datatype AddOutcome = NothingSelected | AlreadyToday | NoneFound | Added(ok: bool) | Failed(error: string)

  class PatientListView {
    const store: PatientData.PatientStore
    var sortMode: SortMode
    var draggable: seq<Json>
    var selected: seq<string>
    var search: string

    ghost predicate Valid()
      reads this, store
    {
      store.Valid() && Sorting.Distinct(selected)
    }

    /** The initial refs: custom order, nothing shown, nothing selected, no search. */
    constructor (s: PatientData.PatientStore)
      requires s.Valid()
      ensures Valid() && store == s
      ensures sortMode == Custom && draggable == [] && selected == [] && search == ""
    {
      store := s;
      sortMode := Custom;
      draggable := [];
      selected := [];
      search := "";
    }

    /** checkboxSelect: toggle one id in the selection. */
    method CheckboxSelect(id: string)
      requires Valid()
      modifies this
      ensures Valid()
      ensures selected == Toggled(old(selected), id)
      ensures sortMode == old(sortMode) && draggable == old(draggable) && search == old(search)
    {
      ToggleFlips(selected, id);
      var i := IndexOf(selected, id);
      if i == -1 {
        selected := selected + [id];
      } else {
        selected := selected[..i] + selected[i + 1..];
      }
    }

    /**
     * sortPatients: sort the shown list by the current mode; a throw leaves it
     * as it was. An unsettled name sort either throws or assigns whatever
     * permutation the engine's comparisons produce, so all that is promised
     * is a permutation; this body keeps the order it had.
     */
    method SortDraggable() returns (r: SortOutcome)
      modifies this
      ensures r == SortView(old(draggable), sortMode)
      ensures r.Sorted? ==> draggable == r.list
      ensures r.Threw? ==> draggable == old(draggable)
      ensures r.Unsettled? ==> multiset(draggable) == multiset(old(draggable))
      ensures sortMode == ByName && AllUnnamed(old(draggable)) ==> r.Sorted? && draggable == old(draggable)
      ensures sortMode == old(sortMode) && selected == old(selected) && search == old(search)
    {
      if sortMode == ByName && AllUnnamed(draggable) {
        SortViewUnnamed(draggable);
      }
      r := SortView(draggable, sortMode);
      if r.Sorted? {
        draggable := r.list;
      }
    }

    /** setSortMode: take the mode, then sort. */
    method SetSortMode(mode: SortMode) returns (r: SortOutcome)
      modifies this
      ensures sortMode == mode
      ensures r == SortView(old(draggable), mode)
      ensures r.Sorted? ==> draggable == r.list
      ensures r.Threw? ==> draggable == old(draggable)
      ensures r.Unsettled? ==> multiset(draggable) == multiset(old(draggable))
      ensures mode == ByName && AllUnnamed(old(draggable)) ==> r.Sorted? && draggable == old(draggable)
      ensures selected == old(selected) && search == old(search)
    {
      sortMode := mode;
      r := SortDraggable();
    }

    /**
     * The watcher on filteredPatients: show a copy of the filtered list and
     * sort it. A filter that throws stops before anything changes.
     */
    method Refresh() returns (r: Result<SortOutcome>)
      modifies this
      ensures var shown := FilteredPatients(store.patients, search);
        && (shown.Err? ==> r == Err(shown.error) && draggable == old(draggable))
        && (shown.Ok? ==> r == Ok(SortView(shown.value, sortMode)))
        && (shown.Ok? && r.value.Sorted? ==> draggable == r.value.list)
        && (shown.Ok? && r.value.Threw? ==> draggable == shown.value)
        && (shown.Ok? && r.value.Unsettled? ==> multiset(draggable) == multiset(shown.value))
        && (shown.Ok? && sortMode == ByName && AllUnnamed(shown.value) ==> r.value.Sorted? && draggable == shown.value)
      ensures sortMode == old(sortMode) && selected == old(selected) && search == old(search)
    {
      var shown := FilteredPatients(store.patients, search);
      if shown.Err? {
        return Err(shown.error);
      }
      draggable := shown.value;
      var sorted := SortDraggable();
      r := Ok(sorted);
    }

    /**
     * onSortEnd: refuse anything but an array before calling savePatients;
     * after a save the store's list becomes the given list as it is, not
     * the sanitized copy savePatients stored.
     */
    method OnSortEnd(dataDirectory: string, order: Json) returns (r: OrderOutcome)
      requires Valid()
      modifies store
      ensures Valid()
      ensures !order.JArr? ==> r == NotAList && store.Snapshot() == old(store.Snapshot())
      ensures order.JArr? ==>
        var saved := PatientData.SaveState(old(store.Snapshot()), dataDirectory, order);
        && r == (if saved.0 then OrderSaved else OrderNotSaved)
        && store.Snapshot() == if saved.0 then saved.1.(patients := order.items) else saved.1
    {
      if !order.JArr? {
        return NotAList;
      }
      var ok := store.SavePatients(dataDirectory, order);
      if ok {
        store.patients := order.items;
        r := OrderSaved;
      } else {
        r := OrderNotSaved;
      }
    }

    /** The drag handler: move one entry of the shown list, then save the new order. */
    method OnDragEnd(dataDirectory: string, oldIndex: nat, newIndex: nat) returns (r: OrderOutcome)
      requires Valid() && oldIndex < |draggable| && newIndex < |draggable|
      modifies this, store
      ensures Valid()
      ensures draggable == Moved(old(draggable), oldIndex, newIndex)
      ensures multiset(draggable) == multiset(old(draggable))
      ensures var saved := PatientData.SaveState(old(store.Snapshot()), dataDirectory, JArr(draggable));
        && r == (if saved.0 then OrderSaved else OrderNotSaved)
        && store.Snapshot() == if saved.0 then saved.1.(patients := draggable) else saved.1
      ensures sortMode == old(sortMode) && selected == old(selected) && search == old(search)
    {
      MovedPermutes(draggable, oldIndex, newIndex);
      draggable := Moved(draggable, oldIndex, newIndex);
      r := OnSortEnd(dataDirectory, JArr(draggable));
    }

    /**
     * addSelectedToToday: nothing without a selection or from today's own
     * list, nothing when no selected patient is listed, and otherwise the
     * selected patients handed to addPatientsToDate for today. A throw of
     * the lookup rejects the call.
     */
    method AddSelectedToToday(dataDirectory: string, today: string, clockToday: string) returns (r: AddOutcome)
      requires Valid()
      modifies store
      ensures Valid()
      ensures old(selected) == [] ==> r == NothingSelected && store.Snapshot() == old(store.Snapshot())
      ensures old(selected) != [] && old(store.activeDate) == today ==>
        r == AlreadyToday && store.Snapshot() == old(store.Snapshot())
      ensures old(selected) != [] && old(store.activeDate) != today ==>
        var picked := Picked(old(store.patients), selected);
        && (picked.Err? ==> r == Failed(picked.error) && store.Snapshot() == old(store.Snapshot()))
        && (picked.Ok? && picked.value == [] ==> r == NoneFound && store.Snapshot() == old(store.Snapshot()))
        && (picked.Ok? && picked.value != [] ==>
             r.Added? && (store.Snapshot(), r.ok) == PatientData.ToDateState(old(store.Snapshot()), dataDirectory, picked.value, today, clockToday))
    {
      if selected == [] {
        return NothingSelected;
      }
      if store.activeDate == today {
        return AlreadyToday;
      }
      var picked := Picked(store.patients, selected);
      if picked.Err? {
        return Failed(picked.error);
      }
      if picked.value == [] {
        return NoneFound;
      }
      var ok := store.AddPatientsToDate(dataDirectory, picked.value, today, clockToday);
      r := Added(ok);
    }
  }
}
