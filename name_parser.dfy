/**
 * Patient name helpers (src/utils/nameParser.ts): title-casing, and the
 * structured name built from what the name parser returns. The parser itself
 * (humanparser) is not modelled: its outcome is an input.
 *
 * Case mapping is Base.LowerChar/UpperChar, which map the ASCII letters only.
 */
module NameParser {
  import opened Base

  // ---------------------------------------------------------------------------
  // toTitleCase

  /** `word.charAt(0).toUpperCase() + word.slice(1)`, and '' for ''. */
  function Capitalized(word: string): (r: string)
    ensures |r| == |word|
    ensures word != "" ==> r == [UpperChar(word[0])] + word[1..]
  {
    if word == "" then "" else [UpperChar(word[0])] + word[1..]
  }

  /** `words.map(...)` with Capitalized. */
  function CapitalizeAll(words: seq<string>): (r: seq<string>)
    ensures |r| == |words|
    ensures forall k | 0 <= k < |words| :: r[k] == Capitalized(words[k])
  {
    seq(|words|, k requires 0 <= k < |words| => Capitalized(words[k]))
  }

  /** Whether position `i` of `t` begins a space-separated word (after a space, or first when `atStart`). */
  predicate WordStart(t: string, i: nat, atStart: bool)
    requires i < |t|
  {
    if i == 0 then atStart else t[i - 1] == ' '
  }

  /**
   * A left-to-right scan that upper-cases each character beginning a word:
   * the reference the split/map/join of toTitleCase is proved against.
   */
  function TitleScan(t: string, atStart: bool): (r: string)
    ensures |r| == |t|
    ensures forall i | 0 <= i < |t| :: r[i] == if WordStart(t, i, atStart) then UpperChar(t[i]) else t[i]
    decreases |t|
  {
    if t == [] then []
    else
      var rest := TitleScan(t[1..], t[0] == ' ');
      var r := [if atStart then UpperChar(t[0]) else t[0]] + rest;
      assert forall i | 1 <= i < |t| :: r[i] == rest[i - 1] && WordStart(t, i, atStart) == WordStart(t[1..], i - 1, t[0] == ' ');
      r
  }

  /**
   * toTitleCase: undefined for undefined and ''; otherwise the lower-cased
   * text with the first character of every space-separated word upper-cased.
   * The result is never '' (so `toTitleCase(x) || undefined` is toTitleCase(x)).
   */
  function ToTitleCase(str: Option<string>): (r: Option<string>)
    ensures r.None? <==> str.None? || str.value == ""
    ensures r.Some? ==> r.value == TitleScan(Lower(str.value), true)
    ensures r.Some? ==> |r.value| == |str.value| && r.value != ""
  {
    if str.None? || str.value == "" then None
    else
      var lower := Lower(str.value);
      TitleJoin(lower);
      Some(Join(CapitalizeAll(Split(lower, ' ')), ' '))
  }

  /** The pieces joined back together, capitalising the first one only when `capFirst`. */
  function Rejoined(parts: seq<string>, capFirst: bool): string
    requires |parts| >= 1
  {
    Join([if capFirst then Capitalized(parts[0]) else parts[0]] + CapitalizeAll(parts[1..]), ' ')
  }

  /** split, map, join is the scan. */
  lemma {:induction false} SplitMapJoin(t: string, capFirst: bool)
    ensures Rejoined(Split(t, ' '), capFirst) == TitleScan(t, capFirst)
    decreases |t|
  {
    if t != [] {
      if t[0] == ' ' {
        SplitMapJoin(t[1..], true);
        SpaceStep(t, capFirst);
      } else {
        SplitMapJoin(t[1..], false);
        LetterStep(t, capFirst);
      }
    }
  }

  /** toTitleCase's split, map, join is the scan from a word start. */
  lemma TitleJoin(t: string)
    ensures Join(CapitalizeAll(Split(t, ' ')), ' ') == TitleScan(t, true)
  {
    var parts := Split(t, ' ');
    SplitMapJoin(t, true);
    assert [Capitalized(parts[0])] + CapitalizeAll(parts[1..]) == CapitalizeAll(parts);
  }

  /** The induction step of SplitMapJoin for a leading space. */
  lemma SpaceStep(t: string, capFirst: bool)
    requires t != [] && t[0] == ' '
    requires Rejoined(Split(t[1..], ' '), true) == TitleScan(t[1..], true)
    ensures Rejoined(Split(t, ' '), capFirst) == TitleScan(t, capFirst)
  {
    var rest := Split(t[1..], ' ');
    var tail := CapitalizeAll(rest);
    assert Split(t, ' ') == [[]] + rest;
    assert CapitalizeAll(([[]] + rest)[1..]) == tail;
    assert Join([""] + tail, ' ') == "" + [' '] + Join(tail, ' ') by {
      assert ([""] + tail)[1..] == tail;
    }
    assert [Capitalized(rest[0])] + CapitalizeAll(rest[1..]) == tail;
    CaseKeepsSpaces(' ');
    assert TitleScan(t, capFirst) == [' '] + TitleScan(t[1..], true);
  }

  /** The induction step of SplitMapJoin for a leading non-space. */
  lemma LetterStep(t: string, capFirst: bool)
    requires t != [] && t[0] != ' '
    requires Rejoined(Split(t[1..], ' '), false) == TitleScan(t[1..], false)
    ensures Rejoined(Split(t, ' '), capFirst) == TitleScan(t, capFirst)
  {
    var parts := Split(t, ' ');
    var rest := Split(t[1..], ' ');
    var c := if capFirst then UpperChar(t[0]) else t[0];
    var first := if capFirst then Capitalized(parts[0]) else parts[0];
    assert parts[0] == [t[0]] + rest[0] && parts[1..] == rest[1..];
    assert first == [c] + rest[0];
    JoinFirstChar(c, rest[0], CapitalizeAll(rest[1..]));
    assert TitleScan(t, capFirst) == [c] + TitleScan(t[1..], false);
  }

  /** A character in front of the first piece stays in front of the join. */
  lemma JoinFirstChar(c: char, w: string, tail: seq<string>)
    ensures Join([[c] + w] + tail, ' ') == [c] + Join([w] + tail, ' ')
  {
    if |tail| > 0 {
      assert ([[c] + w] + tail)[1..] == tail && ([w] + tail)[1..] == tail;
    }
  }

  /** Case mapping neither makes nor removes spaces. */
  lemma CaseKeepsSpaces(c: char)
    ensures (LowerChar(c) == ' ') == (c == ' ')
    ensures (UpperChar(c) == ' ') == (c == ' ')
  {
  }

  /** toTitleCase keeps every character's position and every space. */
  lemma TitleKeepsSpaces(s: string)
    requires s != ""
    ensures forall i | 0 <= i < |s| :: (ToTitleCase(Some(s)).value[i] == ' ') == (s[i] == ' ')
  {
    var r := ToTitleCase(Some(s)).value;
    forall i | 0 <= i < |s| ensures (r[i] == ' ') == (s[i] == ' ') {
      CaseKeepsSpaces(s[i]);
      CaseKeepsSpaces(LowerChar(s[i]));
    }
  }

  /** Strings with their spaces at the same positions split into the same number of pieces. */
  lemma {:induction false} SplitCount(a: string, b: string)
    requires |a| == |b|
    requires forall i | 0 <= i < |a| :: (a[i] == ' ') == (b[i] == ' ')
    ensures |Split(a, ' ')| == |Split(b, ' ')|
    decreases |a|
  {
    if a != [] {
      assert forall i | 0 <= i < |a| - 1 :: a[1..][i] == a[i + 1] && b[1..][i] == b[i + 1];
      SplitCount(a[1..], b[1..]);
    }
  }

  /** toTitleCase keeps the number of space-separated pieces, empty ones from runs of spaces included. */
  lemma TitleKeepsPieces(s: string)
    requires s != ""
    ensures |Split(ToTitleCase(Some(s)).value, ' ')| == |Split(s, ' ')|
  {
    TitleKeepsSpaces(s);
    SplitCount(ToTitleCase(Some(s)).value, s);
  }

  /** Title-casing a title-cased name changes nothing. */
  lemma TitleIdempotent(s: string)
    requires s != ""
    ensures ToTitleCase(ToTitleCase(Some(s))) == ToTitleCase(Some(s))
  {
    var t := Lower(s);
    var r := ToTitleCase(Some(s)).value;
    assert Lower(r) == t by {
      forall i | 0 <= i < |s| ensures Lower(r)[i] == t[i] {
        LowerCharIdempotent(s[i]);
        LowerCharIdempotent(LowerChar(s[i]));
      }
    }
    assert forall i | 0 <= i < |s| :: WordStart(Lower(r), i, true) == WordStart(t, i, true);
  }

  // ---------------------------------------------------------------------------
  // parsePatientName

  /** What the name parser returns; any part may be missing. */
  datatype HumanName = HumanName(salutation: Option<string>, firstName: Option<string>, middleName: Option<string>,
                                 lastName: Option<string>, suffix: Option<string>, fullName: Option<string>)

  /** The name fields parsePatientName produces; None is undefined (or an absent key). */
  datatype NameParts = NameParts(rawName: Option<string>, salutation: Option<string>, firstName: Option<string>,
                                 middleName: Option<string>, lastName: Option<string>, suffix: Option<string>,
                                 fullName: Option<string>)

  const NoParts: NameParts := NameParts(None, None, None, None, None, None, None)

  /**
   * parsePatientName, with `parsed` the parser's outcome for `rawName` (Err:
   * it threw). A falsy name gives `{}`; otherwise rawName is kept and each
   * part is the title-cased parser output, or undefined when the parser threw.
   */
  function ParsePatientName(rawName: Option<string>, parsed: Result<HumanName>): (r: NameParts)
    ensures rawName.None? || rawName.value == "" ==> r == NoParts
    ensures rawName.Some? && rawName.value != "" ==> r.rawName == rawName
    ensures rawName.Some? && rawName.value != "" && parsed.Err? ==> r == NoParts.(rawName := rawName)
    ensures rawName.Some? && rawName.value != "" && parsed.Ok? ==>
      r.firstName == ToTitleCase(parsed.value.firstName) && r.lastName == ToTitleCase(parsed.value.lastName) &&
      r.middleName == ToTitleCase(parsed.value.middleName) && r.salutation == ToTitleCase(parsed.value.salutation) &&
      r.suffix == ToTitleCase(parsed.value.suffix) && r.fullName == ToTitleCase(parsed.value.fullName)
    ensures r.firstName.Some? ==> r.firstName.value != "" && r.rawName.Some?
  {
    if rawName.None? || rawName.value == "" then NoParts
    else match parsed
      case Err(_) => NoParts.(rawName := rawName)
      case Ok(p) =>
        var full := ToTitleCase(p.fullName);
        NameParts(rawName, ToTitleCase(p.salutation), ToTitleCase(p.firstName), ToTitleCase(p.middleName),
                  ToTitleCase(p.lastName), ToTitleCase(p.suffix), if full.Some? && full.value != "" then full else None)
  }
}
