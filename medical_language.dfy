/**
 * The editor language support of src/monacoLanguage.ts: the folding-range
 * scan, the `{{key}}` placeholder substitution, the completion provider that
 * rewrites its templates in place, and the inline-completion filter.
 *
 * An editor model is its lines (line n of Monaco is `lines[n - 1]`); the two
 * regular expressions of the folding scan are written out as predicates.
 */
module MedicalLanguage {
  import opened Base

  // ---------------------------------------------------------------------------
  // Folding ranges

  /** `/-{5,}/.test(line)`: five dashes in a row somewhere. */
  predicate HasDashRun(line: string) {
    Contains(line, "-----")
  }

  /** The length of `s` in UTF-16 code units: a character outside the Basic Multilingual Plane takes two. */
  function Utf16Length(s: string): (n: nat)
    ensures |s| <= n <= 2 * |s|
  {
    if s == [] then 0 else (if s[0] as int >= 0x1_0000 then 2 else 1) + Utf16Length(s[1..])
  }

  /**
   * `]` at `k + w + 1`, with the `w` characters after the `[` at `k` none a
   * line terminator and at most three UTF-16 code units long together, as
   * `.{0,3}` counts without the `u` flag.
   */
  predicate ClosesAfter(line: string, k: nat, w: nat) {
    k + w + 1 < |line| && line[k + w + 1] == ']' && (forall c | k < c <= k + w :: !IsLineTerminator(line[c])) &&
    Utf16Length(line[k + 1..k + w + 1]) <= 3
  }

  /** `/\[.{0,3}\]/` matches at `k`. */
  predicate BracketAt(line: string, k: nat)
    requires k < |line|
  {
    line[k] == '[' && (ClosesAfter(line, k, 0) || ClosesAfter(line, k, 1) || ClosesAfter(line, k, 2) || ClosesAfter(line, k, 3))
  }

  /** `/\[.{0,3}\]/.test(line)`. */
  predicate HasShortBracket(line: string) {
    exists k | 0 <= k < |line| :: BracketAt(line, k)
  }

  /** One supplementary character between brackets is two code units and matches; two are four and do not. */
  lemma SupplementaryBrackets()
    ensures HasShortBracket("[\U{1F600}]")
    ensures !HasShortBracket("[\U{1F600}\U{1F600}]")
  {
    var one := "[\U{1F600}]";
    assert Utf16Length(one[1..2]) == 2;
    assert BracketAt(one, 0);
    var two := "[\U{1F600}\U{1F600}]";
    forall k | 0 <= k < |two| ensures !BracketAt(two, k) {
      if k == 0 {
        assert Utf16Length(two[1..3]) == 4;
      }
    }
  }

  /** A head-marker line: it opens a region that runs to the next marker. */
  predicate Marker(line: string) {
    HasDashRun(line) || HasShortBracket(line)
  }

  /** A comment line: its trimmed text starts with `//`. */
  predicate Comment(line: string) {
    StartsWith(Trim(line), "//")
  }

  datatype FoldingRange = FoldingRange(start: int, end: int)

  /** What the scan asks of one line: the marker test and the comment test. */
  datatype LineKind = LineKind(marker: bool, comment: bool)

  /** The kinds of `lines` under the tests `marker` and `comment`. */
  function KindsBy(lines: seq<string>, marker: string -> bool, comment: string -> bool): (r: seq<LineKind>)
    ensures |r| == |lines|
    ensures forall i | 0 <= i < |lines| :: r[i] == LineKind(marker(lines[i]), comment(lines[i]))
  {
    seq(|lines|, i requires 0 <= i < |lines| => LineKind(marker(lines[i]), comment(lines[i])))
  }

  /** The kinds of the lines of a model, under the two regular expressions and the comment test. */
  function Kinds(lines: seq<string>): seq<LineKind> {
    KindsBy(lines, Marker, Comment)
  }

  /** Whether a search for the end of a marker (`byMarker`) or of a comment range stops at a line. */
  predicate Stops(k: LineKind, byMarker: bool) {
    if byMarker then k.marker else k.comment
  }

  /** The index of the first line at or after `from` where the search stops, or `|kinds|` when there is none. */
  function Next(kinds: seq<LineKind>, from: nat, byMarker: bool): (j: nat)
    requires from <= |kinds|
    ensures from <= j <= |kinds|
    ensures j < |kinds| ==> Stops(kinds[j], byMarker)
    decreases |kinds| - from
  {
    if from == |kinds| || Stops(kinds[from], byMarker) then from else Next(kinds, from + 1, byMarker)
  }

  /** No line before the one Next finds stops the search. */
  lemma {:induction false} NextIsFirst(kinds: seq<LineKind>, from: nat, byMarker: bool)
    requires from <= |kinds|
    ensures forall k | from <= k < Next(kinds, from, byMarker) :: !Stops(kinds[k], byMarker)
    decreases |kinds| - from
  {
    if from < |kinds| && !Stops(kinds[from], byMarker) {
      NextIsFirst(kinds, from + 1, byMarker);
    }
  }

  /**
   * The range a fold-start line at index `i` opens: from the line's 1-based
   * number to where the search for its end stops.
   */
  function RangeAt(kinds: seq<LineKind>, i: nat): (r: FoldingRange)
    requires i < |kinds|
    ensures r.start == i + 1 && 1 <= r.start <= r.end <= |kinds|
  {
    if kinds[i].marker then
      var j := Next(kinds, i + 1, true);
      FoldingRange(i + 1, if i + 1 == |kinds| then i + 1 else if j < |kinds| - 1 then j else |kinds| - 1)
    else
      var j := Next(kinds, i + 1, false);
      FoldingRange(i + 1, if j < |kinds| then j else i + 1)
  }

  /** A fold start on the last line gives start = end = |kinds|. */
  lemma LastLineRange(kinds: seq<LineKind>)
    requires |kinds| > 0
    ensures RangeAt(kinds, |kinds| - 1) == FoldingRange(|kinds|, |kinds|)
  {
  }

  /**
   * A marker's range ends at the 0-based index of the next marker line, or at
   * the last line's index when no marker follows.
   */
  lemma MarkerRangeEnd(kinds: seq<LineKind>, i: nat)
    requires i + 1 < |kinds| && kinds[i].marker
    ensures var e := RangeAt(kinds, i).end;
      i < e < |kinds| && (e == |kinds| - 1 || kinds[e].marker) && forall k | i < k < e :: !kinds[k].marker
    ensures (exists k | i < k < |kinds| - 1 :: kinds[k].marker) ==> kinds[RangeAt(kinds, i).end].marker
  {
    NextIsFirst(kinds, i + 1, true);
  }

  /**
   * A comment's range ends at the 0-based index of the next comment line (a
   * marker line is not a stop), or at its own start when none follows.
   */
  lemma CommentRangeEnd(kinds: seq<LineKind>, i: nat)
    requires i < |kinds| && !kinds[i].marker
    ensures var e := RangeAt(kinds, i).end;
      (e == i + 1 && forall k | i < k < |kinds| :: !kinds[k].comment) ||
      (i < e < |kinds| && kinds[e].comment && forall k | i < k < e :: !kinds[k].comment)
  {
    NextIsFirst(kinds, i + 1, false);
  }

  /** A line that opens a folding range (the marker test is tried first). */
  predicate FoldStart(k: LineKind) {
    k.marker || k.comment
  }

  /** The indices of the fold-start lines below `k`, in line order. */
  function Starts(kinds: seq<LineKind>, k: nat): (s: seq<nat>)
    requires k <= |kinds|
    ensures forall m | 0 <= m < |s| :: s[m] < k && FoldStart(kinds[s[m]])
  {
    if k == 0 then []
    else Starts(kinds, k - 1) + if FoldStart(kinds[k - 1]) then [k - 1] else []
  }

  predicate Increasing(s: seq<nat>) {
    forall m, n | 0 <= m < n < |s| :: s[m] < s[n]
  }

  /** The fold starts are listed in strictly increasing order. */
  lemma {:induction false} StartsIncreasing(kinds: seq<LineKind>, k: nat)
    requires k <= |kinds|
    ensures Increasing(Starts(kinds, k))
  {
    if k > 0 {
      StartsIncreasing(kinds, k - 1);
      var before := Starts(kinds, k - 1);
      if FoldStart(kinds[k - 1]) {
        var s := before + [k - 1];
        forall m, n | 0 <= m < n < |s| ensures s[m] < s[n] {
          assert s[m] == before[m];
          if n < |before| {
            assert s[n] == before[n];
          }
        }
      }
    }
  }

  /** Every fold-start line below `k` is listed. */
  lemma {:induction false} StartsComplete(kinds: seq<LineKind>, k: nat)
    requires k <= |kinds|
    ensures forall i | 0 <= i < k && FoldStart(kinds[i]) :: i in Starts(kinds, k)
  {
    if k > 0 {
      StartsComplete(kinds, k - 1);
    }
  }

  /**
   * The ranges of the fold-start lines below `k`, one per line and in line
   * order: what the scan has collected after its first `k` iterations.
   */
  function FoldsBelow(kinds: seq<LineKind>, k: nat): (r: seq<FoldingRange>)
    requires k <= |kinds|
  {
    var s := Starts(kinds, k);
    seq(|s|, m requires 0 <= m < |s| => RangeAt(kinds, s[m]))
  }

  /** One more iteration of the scan adds the range of line `k` when it is a fold start. */
  lemma FoldsStep(kinds: seq<LineKind>, k: nat)
    requires k < |kinds|
    ensures FoldsBelow(kinds, k + 1) == FoldsBelow(kinds, k) + if FoldStart(kinds[k]) then [RangeAt(kinds, k)] else []
  {
    assert Starts(kinds, k + 1) == Starts(kinds, k) + if FoldStart(kinds[k]) then [k] else [];
  }

  /** All folding ranges of a model. */
  function Folds(lines: seq<string>): seq<FoldingRange> {
    FoldsBelow(Kinds(lines), |lines|)
  }

  /** Every folding range lies within the model and is the range its start line opens. */
  lemma FoldsWithin(kinds: seq<LineKind>)
    ensures forall m | 0 <= m < |FoldsBelow(kinds, |kinds|)| ::
      var r := FoldsBelow(kinds, |kinds|)[m]; 1 <= r.start <= r.end <= |kinds| && r == RangeAt(kinds, r.start - 1)
  {
  }

  /** The folding ranges come in strictly increasing start order. */
  lemma FoldsOrdered(kinds: seq<LineKind>)
    ensures IncreasingStarts(FoldsBelow(kinds, |kinds|))
  {
    var s := Starts(kinds, |kinds|);
    var r := FoldsBelow(kinds, |kinds|);
    StartsIncreasing(kinds, |kinds|);
    forall m, n | 0 <= m < n < |r| ensures r[m].start < r[n].start {
      assert r[m].start == s[m] + 1 && r[n].start == s[n] + 1;
    }
  }

  predicate IncreasingStarts(r: seq<FoldingRange>) {
    forall m, n | 0 <= m < n < |r| :: r[m].start < r[n].start
  }

  /** A line starts a folding range exactly when it is a fold start. */
  lemma FoldsOnePerStart(kinds: seq<LineKind>, i: nat)
    requires i < |kinds|
    ensures FoldStart(kinds[i]) <==> exists m | 0 <= m < |FoldsBelow(kinds, |kinds|)| :: FoldsBelow(kinds, |kinds|)[m].start == i + 1
  {
    var s := Starts(kinds, |kinds|);
    var r := FoldsBelow(kinds, |kinds|);
    if FoldStart(kinds[i]) {
      StartsComplete(kinds, |kinds|);
      var m :| 0 <= m < |s| && s[m] == i;
      assert r[m].start == i + 1;
    } else {
      forall m | 0 <= m < |r| ensures r[m].start != i + 1 {
        assert r[m].start == s[m] + 1;
      }
    }
  }

  /** calculateMedicalFoldingRanges. */
  method CalculateFoldingRanges(lines: seq<string>) returns (ranges: seq<FoldingRange>)
    ensures ranges == Folds(lines)
  {
    ranges := ScanFolds(lines, Marker, Comment);
  }

  /**
   * The nested loops of calculateMedicalFoldingRanges, with the marker and
   * comment tests taken as parameters (CalculateFoldingRanges passes the real
   * ones).
   */
  method ScanFolds(lines: seq<string>, marker: string -> bool, comment: string -> bool) returns (ranges: seq<FoldingRange>)
    ensures ranges == FoldsBelow(KindsBy(lines, marker, comment), |lines|)
  {
    ghost var kinds := KindsBy(lines, marker, comment);
    ranges := [];
    var i := 0;
    while i < |lines|
      invariant 0 <= i <= |lines|
      invariant ranges == FoldsBelow(kinds, i)
    {
      var lineContent := lines[i];
      if marker(lineContent) {
        var start := i + 1;
        var end := start;
        var j := i + 1;
        while j < |lines|
          invariant i + 1 <= j <= |lines|
          invariant end == start
          invariant j < |lines| || i + 1 == |lines|
          invariant forall k | i + 1 <= k < j :: !kinds[k].marker
        {
          if marker(lines[j]) || j == |lines| - 1 {
            end := j;
            MarkerStop(kinds, i, j);
            break;
          }
          j := j + 1;
        }
        MarkerOnLastLine(kinds, i);
        FoldsStep(kinds, i);
        ranges := ranges + [FoldingRange(start, end)];
      } else if comment(lineContent) {
        var start := i + 1;
        var end := start;
        var j := i + 1;
        while j < |lines|
          invariant i + 1 <= j <= |lines|
          invariant end == start
          invariant forall k | i + 1 <= k < j :: !kinds[k].comment
        {
          if comment(lines[j]) {
            end := j;
            CommentStop(kinds, i, j);
            break;
          }
          j := j + 1;
        }
        CommentUnclosed(kinds, i);
        FoldsStep(kinds, i);
        ranges := ranges + [FoldingRange(start, end)];
      } else {
        FoldsStep(kinds, i);
      }
      i := i + 1;
    }
  }

  /** The search finds the first stop after `from`. */
  lemma {:induction false} NextAt(kinds: seq<LineKind>, from: nat, byMarker: bool, j: nat)
    requires from <= j < |kinds| && Stops(kinds[j], byMarker)
    requires forall k | from <= k < j :: !Stops(kinds[k], byMarker)
    ensures Next(kinds, from, byMarker) == j
    decreases j - from
  {
    if from < j {
      NextAt(kinds, from + 1, byMarker, j);
    }
  }

  /** With no stop after `from`, the search runs to the end. */
  lemma {:induction false} NextNone(kinds: seq<LineKind>, from: nat, byMarker: bool)
    requires from <= |kinds|
    requires forall k | from <= k < |kinds| :: !Stops(kinds[k], byMarker)
    ensures Next(kinds, from, byMarker) == |kinds|
    decreases |kinds| - from
  {
    if from < |kinds| {
      NextNone(kinds, from + 1, byMarker);
    }
  }

  /** The marker loop stopping at `j` (a marker line, or the last line) gives RangeAt. */
  lemma MarkerStop(kinds: seq<LineKind>, i: nat, j: nat)
    requires i + 1 <= j < |kinds| && kinds[i].marker
    requires kinds[j].marker || j == |kinds| - 1
    requires forall k | i + 1 <= k < j :: !kinds[k].marker
    ensures RangeAt(kinds, i) == FoldingRange(i + 1, j)
  {
    if kinds[j].marker {
      NextAt(kinds, i + 1, true, j);
    } else {
      NextNone(kinds, i + 1, true);
    }
  }

  /** A marker on the last line folds nothing. */
  lemma MarkerOnLastLine(kinds: seq<LineKind>, i: nat)
    requires i < |kinds| && kinds[i].marker
    ensures i + 1 == |kinds| ==> RangeAt(kinds, i) == FoldingRange(i + 1, i + 1)
  {
  }

  /** The comment loop stopping at the comment line `j` gives RangeAt. */
  lemma CommentStop(kinds: seq<LineKind>, i: nat, j: nat)
    requires i + 1 <= j < |kinds| && !kinds[i].marker && kinds[j].comment
    requires forall k | i + 1 <= k < j :: !kinds[k].comment
    ensures RangeAt(kinds, i) == FoldingRange(i + 1, j)
  {
    NextAt(kinds, i + 1, false, j);
  }

  /** A comment with no later comment line folds nothing. */
  lemma CommentUnclosed(kinds: seq<LineKind>, i: nat)
    requires i < |kinds| && !kinds[i].marker
    ensures (forall k | i + 1 <= k < |kinds| :: !kinds[k].comment) ==> RangeAt(kinds, i) == FoldingRange(i + 1, i + 1)
  {
    if forall k | i + 1 <= k < |kinds| :: !kinds[k].comment {
      NextNone(kinds, i + 1, false);
    }
  }

  // ---------------------------------------------------------------------------
  // Placeholder substitution: text.replace(/\{\{(.*?)\}\}/g, ...)

  /** A line terminator comes before position `q`. */
  predicate BrokenBefore(s: string, q: nat)
    requires q <= |s|
  {
    exists i | 0 <= i < q :: IsLineTerminator(s[i])
  }

  /** A `}}` starts at position `i`. */
  predicate ClosesAt(s: string, i: nat) {
    i + 1 < |s| && s[i] == '}' && s[i + 1] == '}'
  }

  /**
   * Where the first `}}` of `s` starts, provided no line terminator comes
   * before it: the lazy `(.*?)\}\}` tail of the pattern matched against `s`.
   */
  function Close(s: string): (r: Option<nat>)
    ensures r.Some? ==> r.value + 2 <= |s| && ClosesAt(s, r.value)
  {
    if |s| >= 2 && s[0] == '}' && s[1] == '}' then Some(0)
    else if s != [] && !IsLineTerminator(s[0]) then
      var rest := Close(s[1..]);
      if rest.Some? then Some(rest.value + 1) else None
    else None
  }

  /**
   * Close finds the first `}}` with no line terminator before it, and finds
   * none exactly when every `}}` has a line terminator before it.
   */
  lemma {:induction false} CloseIsFirst(s: string)
    ensures Close(s).Some? ==> forall i | 0 <= i < Close(s).value :: !IsLineTerminator(s[i]) && !ClosesAt(s, i)
    ensures Close(s).None? ==> forall q | 0 <= q && q + 1 < |s| && ClosesAt(s, q) :: BrokenBefore(s, q)
    decreases |s|
  {
    if !ClosesAt(s, 0) && s != [] && !IsLineTerminator(s[0]) {
      var t := s[1..];
      CloseIsFirst(t);
      forall i | 1 <= i < |s| ensures s[i] == t[i - 1] && (ClosesAt(s, i) == ClosesAt(t, i - 1)) {
      }
      if Close(s).None? {
        forall q | 0 <= q && q + 1 < |s| && ClosesAt(s, q) ensures BrokenBefore(s, q) {
          assert BrokenBefore(t, q - 1);
          var i :| 0 <= i < q - 1 && IsLineTerminator(t[i]);
          assert IsLineTerminator(s[i + 1]);
        }
      }
    } else if s != [] && IsLineTerminator(s[0]) {
      forall q | 0 <= q && q + 1 < |s| && ClosesAt(s, q) ensures BrokenBefore(s, q) {
        assert IsLineTerminator(s[0]) && q > 0;
      }
    }
  }

  /** The length of the key of a placeholder at the start of `t`, if the pattern matches there. */
  function Placeholder(t: string): (r: Option<nat>)
    ensures r.Some? ==> r.value + 4 <= |t| && t[0] == '{' && t[1] == '{' && ClosesAt(t, r.value + 2)
  {
    if |t| >= 2 && t[0] == '{' && t[1] == '{' then
      var c := Close(t[2..]);
      if c.Some? then
        assert t[2..][c.value] == t[c.value + 2] && t[2..][c.value + 1] == t[c.value + 3];
        Some(c.value)
      else None
    else None
  }

  /** A text with a placeholder at its start is `{{`, the key, `}}` and the rest. */
  lemma PlaceholderSplit(t: string, k: nat)
    requires Placeholder(t) == Some(k)
    ensures t == "{{" + t[2..k + 2] + "}}" + t[k + 4..]
  {
    var u := "{{" + t[2..k + 2] + "}}" + t[k + 4..];
    assert |u| == |t|;
    forall i | 0 <= i < |t| ensures u[i] == t[i] {
      if i < 2 {
        assert t[..2][i] == t[i];
      } else if i < k + 2 {
        assert u[i] == t[2..k + 2][i - 2];
      } else if i < k + 4 {
        assert t[k + 2..k + 4][i - k - 2] == t[i];
      } else {
        assert u[i] == t[k + 4..][i - k - 4];
      }
    }
  }

  /** The replacement of `{{key}}`: `data[key]` when defined, the placeholder itself otherwise. */
  function Substitute(key: string, data: map<string, string>): string {
    if key in data then data[key] else "{{" + key + "}}"
  }

  /** formatInsertText: every placeholder, left to right, replaced by Substitute. */
  function Format(t: string, data: map<string, string>): string
    decreases |t|
  {
    if t == [] then []
    else if t[0] != '{' then [t[0]] + Format(t[1..], data)
    else
      var k := Placeholder(t);
      if k.Some? then Substitute(t[2..k.value + 2], data) + Format(t[k.value + 4..], data)
      else [t[0]] + Format(t[1..], data)
  }

  /** Text that does not start with `{` is copied up to its first character. */
  lemma FormatPlainChar(s: string, data: map<string, string>)
    requires s != [] && s[0] != '{'
    ensures Format(s, data) == [s[0]] + Format(s[1..], data)
  {
  }

  /** Text without `{` in front of the rest is copied. */
  lemma FormatPlain(v: string, x: string, data: map<string, string>)
    requires '{' !in v
    ensures Format(v + x, data) == v + Format(x, data)
  {
    var s := v + x;
    assert s[..|v|] == v && s[|v|..] == x;
    assert forall i | 0 <= i < |v| :: s[i] == v[i];
    FormatPrefix(s, |v|, data);
  }

  lemma SliceCons(s: string, n: nat)
    requires 0 < n <= |s|
    ensures [s[0]] + s[1..][..n - 1] == s[..n] && s[1..][n - 1..] == s[n..]
    ensures forall i | 0 <= i < n - 1 :: s[1..][i] == s[i + 1]
  {
  }

  lemma ConsAppend(c: char, p: string, r: string)
    ensures [c] + (p + r) == [c] + p + r
  {
  }

  /** The first `n` characters, none of them `{`, are copied. */
  lemma {:induction false} FormatPrefix(s: string, n: nat, data: map<string, string>)
    requires n <= |s| && forall i | 0 <= i < n :: s[i] != '{'
    ensures Format(s, data) == s[..n] + Format(s[n..], data)
    decreases n
  {
    if n > 0 {
      FormatPlainChar(s, data);
      var t := s[1..];
      SliceCons(s, n);
      FormatPrefix(t, n - 1, data);
      ConsAppend(s[0], t[..n - 1], Format(s[n..], data));
    } else {
      assert s[..0] == [] && s[0..] == s;
    }
  }

  /** Text with no `{{` comes out unchanged. */
  lemma {:induction false} FormatNoPlaceholder(t: string, data: map<string, string>)
    requires !Contains(t, "{{")
    ensures Format(t, data) == t
    decreases |t|
  {
    if t != [] {
      assert !StartsWith(t, "{{");
      assert Placeholder(t).None?;
      FormatNoPlaceholder(t[1..], data);
    }
  }

  /** The closing `}}` right after a key with no `}` and no line terminator. */
  lemma {:induction false} CloseAfterKey(key: string, post: string)
    requires '}' !in key && forall i | 0 <= i < |key| :: !IsLineTerminator(key[i])
    ensures Close(key + "}}" + post) == Some(|key|)
    decreases |key|
  {
    if key != [] {
      CloseAfterKey(key[1..], post);
      assert (key + "}}" + post)[1..] == key[1..] + "}}" + post;
    }
  }

  /**
   * A placeholder whose key has no `}` and no line terminator, after text with
   * no `{`, is replaced by data[key] when defined and kept otherwise.
   */
  lemma FormatOnePlaceholder(pre: string, key: string, post: string, data: map<string, string>)
    requires '{' !in pre
    requires '}' !in key && forall i | 0 <= i < |key| :: !IsLineTerminator(key[i])
    ensures Format(pre + "{{" + key + "}}" + post, data) == pre + Substitute(key, data) + Format(post, data)
  {
    PlaceholderRegroup(pre, key, post);
    FormatPlain(pre, "{{" + key + "}}" + post, data);
    FormatAtKey(key, post, data);
  }

  lemma PlaceholderRegroup(pre: string, key: string, post: string)
    ensures pre + "{{" + key + "}}" + post == pre + ("{{" + key + "}}" + post)
  {
  }

  /** `{{key}}post`, for a key with no `}` and no line terminator, is Substitute(key) and post formatted. */
  lemma FormatAtKey(key: string, post: string, data: map<string, string>)
    requires '}' !in key && forall i | 0 <= i < |key| :: !IsLineTerminator(key[i])
    ensures Format("{{" + key + "}}" + post, data) == Substitute(key, data) + Format(post, data)
  {
    var t := "{{" + key + "}}" + post;
    PlaceholderPieces(key, post);
    CloseAfterKey(key, post);
    FormatAtPlaceholder(t, |key|, data);
  }

  /** The pieces of `{{key}}post`. */
  lemma PlaceholderPieces(key: string, post: string)
    ensures var t := "{{" + key + "}}" + post;
      t[0] == '{' && t[1] == '{' && t[2..] == key + "}}" + post && t[2..|key| + 2] == key && t[|key| + 4..] == post
  {
  }

  /** Format at a placeholder: its replacement, then the rest formatted. */
  lemma FormatAtPlaceholder(t: string, k: nat, data: map<string, string>)
    requires |t| >= 2 && t[0] == '{' && t[1] == '{' && Close(t[2..]) == Some(k)
    ensures Format(t, data) == Substitute(t[2..k + 2], data) + Format(t[k + 4..], data)
  {
  }

  /** Without data every placeholder is kept, so nothing changes. */
  lemma {:induction false} FormatNoData(t: string)
    ensures Format(t, map[]) == t
    decreases |t|
  {
    if t != [] {
      var k := Placeholder(t);
      if k.Some? {
        FormatNoData(t[k.value + 4..]);
        PlaceholderSplit(t, k.value);
      } else {
        FormatNoData(t[1..]);
      }
    }
  }

  /** The lazy match only looks as far as its closing `}}`. */
  lemma {:induction false} CloseKeepsPrefix(s: string, q: nat, u: string)
    requires Close(s) == Some(q)
    ensures Close(s[..q + 2] + u) == Some(q)
    decreases |s|
  {
    if q > 0 {
      CloseKeepsPrefix(s[1..], q - 1, u);
      assert s[..q + 2] + u == [s[0]] + (s[1..][..q + 1] + u);
    }
  }

  /** A placeholder at the start stays one whatever follows it. */
  lemma PlaceholderKept(t: string, k: nat, u: string)
    requires Placeholder(t) == Some(k)
    ensures Placeholder(t[..k + 4] + u) == Some(k)
  {
    CloseKeepsPrefix(t[2..], k, u);
    assert (t[..k + 4] + u)[2..] == t[2..][..k + 2] + u;
  }

  /** A placeholder without data, followed by anything, is copied as it is. */
  lemma FormatKeptPlaceholder(t: string, k: nat, y: string, data: map<string, string>)
    requires Placeholder(t) == Some(k) && t[2..k + 2] !in data
    ensures Substitute(t[2..k + 2], data) == t[..k + 4]
    ensures Format(t[..k + 4] + y, data) == t[..k + 4] + Format(y, data)
  {
    PlaceholderSplit(t, k);
    PlaceholderKept(t, k, y);
    KeptPieces(t[..k + 4], t[2..k + 2], t[k + 4..], y);
    FormatAtPlaceholder(t[..k + 4] + y, k, data);
  }

  /** The pieces of a placeholder `ph` cut from the front of `{{key}}rest`, with `y` after it. */
  lemma KeptPieces(ph: string, key: string, rest: string, y: string)
    requires ph == ("{{" + key + "}}" + rest)[..|key| + 4]
    ensures ph == "{{" + key + "}}"
    ensures (ph + y)[0] == '{' && (ph + y)[1] == '{'
    ensures (ph + y)[2..|key| + 2] == key && (ph + y)[|key| + 4..] == y
  {
    assert ("{{" + key + "}}" + rest)[..|key| + 4] == "{{" + key + "}}";
  }

  /** A placeholder needs a closing `}}` with no line break in between. */
  lemma OpenStaysOpen(s: string)
    requires Close(s).None?
    ensures Placeholder(s).None?
  {
    if |s| >= 2 && s[0] == '{' && s[1] == '{' {
      assert s[1..][1..] == s[2..];
    }
  }

  /** Substitution never creates a closing `}}` ahead of the first line break. */
  lemma {:induction false} FormatKeepsOpen(s: string, data: map<string, string>)
    requires Close(s).None?
    ensures Close(Format(s, data)).None?
    decreases |s|
  {
    if s != [] {
      OpenStaysOpen(s);
      var y := Format(s[1..], data);
      assert Format(s, data) == [s[0]] + y;
      if !IsLineTerminator(s[0]) {
        FormatKeepsOpen(s[1..], data);
        if |s| >= 2 {
          OpenStaysOpen(s[1..]);
          assert y[0] == s[1];
        }
        assert ([s[0]] + y)[1..] == y;
      }
    }
  }

  /** A `{` that starts no placeholder still starts none once the rest is substituted. */
  lemma NoPlaceholderStays(t: string, data: map<string, string>)
    requires t != [] && t[0] == '{' && Placeholder(t).None?
    ensures Placeholder([t[0]] + Format(t[1..], data)).None?
  {
    var u := [t[0]] + Format(t[1..], data);
    if |t| >= 2 {
      if t[1] != '{' {
        assert t[1..][1..] == t[2..];
        FormatPlainChar(t[1..], data);
      } else {
        assert Close(t[2..]).None?;
        if |t| >= 3 && t[2] == '{' {
          assert t[2..][1..] == t[1..][2..];
        }
        assert Placeholder(t[1..]).None?;
        assert Format(t[1..], data) == [t[1]] + Format(t[2..], data) by {
          assert t[1..][1..] == t[2..];
        }
        FormatKeepsOpen(t[2..], data);
        assert u[2..] == Format(t[2..], data);
      }
    }
  }

  /**
   * Substituting twice is substituting once, provided no value of `data`
   * contains `{`: so the completion provider's in-place rewrite of its
   * templates changes nothing after the first request.
   */
  lemma {:induction false} FormatIdempotent(t: string, data: map<string, string>)
    requires forall key | key in data :: '{' !in data[key]
    ensures Format(Format(t, data), data) == Format(t, data)
    decreases |t|
  {
    if t != [] {
      var k := Placeholder(t);
      if k.Some? {
        FormatIdempotent(t[k.value + 4..], data);
        IdempotentAtPlaceholder(t, k.value, data);
      } else {
        FormatIdempotent(t[1..], data);
        IdempotentAtChar(t, data);
      }
    }
  }

  /** The induction step of FormatIdempotent at a placeholder. */
  lemma IdempotentAtPlaceholder(t: string, k: nat, data: map<string, string>)
    requires forall key | key in data :: '{' !in data[key]
    requires Placeholder(t) == Some(k)
    requires Format(Format(t[k + 4..], data), data) == Format(t[k + 4..], data)
    ensures Format(Format(t, data), data) == Format(t, data)
  {
    var key := t[2..k + 2];
    var y := Format(t[k + 4..], data);
    FormatAtPlaceholder(t, k, data);
    if key in data {
      FormatPlain(data[key], y, data);
    } else {
      FormatKeptPlaceholder(t, k, y, data);
    }
  }

  /** The induction step of FormatIdempotent at a character that starts no placeholder. */
  lemma IdempotentAtChar(t: string, data: map<string, string>)
    requires forall key | key in data :: '{' !in data[key]
    requires t != [] && Placeholder(t).None?
    requires Format(Format(t[1..], data), data) == Format(t[1..], data)
    ensures Format(Format(t, data), data) == Format(t, data)
  {
    var y := Format(t[1..], data);
    assert Format(t, data) == [t[0]] + y;
    assert ([t[0]] + y)[1..] == y;
    if t[0] != '{' {
      FormatPlainChar([t[0]] + y, data);
    } else {
      NoPlaceholderStays(t, data);
    }
  }

  // ---------------------------------------------------------------------------
  // Completion templates

  datatype Kind = TextKind | SnippetKind

  /**
   * A completion template as the template loader leaves it: its kind is Text
   * or Snippet, and an absent triggerWords is the empty list. `asSnippet`
   * is insertTextRules = InsertAsSnippet.
   */
  datatype Template = Template(labelText: string, insertText: string, kind: Kind, inline: bool,
                               triggerWords: seq<string>, asSnippet: bool)

  /** getCurrentPatient's fixed result, the data every template is formatted with. */
  const CurrentPatient: map<string, string> := map["name" := "John Doe"]

  lemma CurrentPatientHasNoBrace()
    ensures forall key | key in CurrentPatient :: '{' !in CurrentPatient[key]
  {
    assert CurrentPatient.Keys == {"name"};
    assert "John Doe"[0] != '{' && "John Doe"[1] != '{' && "John Doe"[2] != '{' && "John Doe"[3] != '{';
    assert "John Doe"[4] != '{' && "John Doe"[5] != '{' && "John Doe"[6] != '{' && "John Doe"[7] != '{';
  }

  /** Each template with its insertText formatted. */
  function FormatTemplates(ts: seq<Template>, data: map<string, string>): (r: seq<Template>)
    ensures |r| == |ts|
  {
    seq(|ts|, i requires 0 <= i < |ts| => ts[i].(insertText := Format(ts[i].insertText, data)))
  }

  /**
   * Formatting the templates a second time changes nothing when no value of
   * `data` contains `{`.
   */
  lemma FormatTemplatesIdempotent(ts: seq<Template>, data: map<string, string>)
    requires forall key | key in data :: '{' !in data[key]
    ensures FormatTemplates(FormatTemplates(ts, data), data) == FormatTemplates(ts, data)
  {
    forall i | 0 <= i < |ts| ensures FormatTemplates(FormatTemplates(ts, data), data)[i] == FormatTemplates(ts, data)[i] {
      FormatIdempotent(ts[i].insertText, data);
    }
  }

  /** A completion-list entry: a template over the word range at the cursor. */
  datatype Suggestion = Suggestion(labelText: string, insertText: string, kind: Kind, asSnippet: bool,
                                   lineNumber: int, startColumn: int, endColumn: int)

  function SuggestionOf(t: Template, lineNumber: int, startColumn: int, endColumn: int): Suggestion {
    Suggestion(t.labelText, t.insertText, t.kind, t.asSnippet, lineNumber, startColumn, endColumn)
  }

  /** The completion provider, which keeps the template list it was registered with. */
  class CompletionProvider {
    var templates: seq<Template>

    constructor(templates: seq<Template>)
      ensures this.templates == templates
    {
      this.templates := templates;
    }

    /**
     * provideCompletionItems: rewrites every template's insertText in place
     * with the current patient's data, then offers every template over the
     * word range [startColumn, endColumn) of line lineNumber.
     */
    method ProvideCompletionItems(lineNumber: int, startColumn: int, endColumn: int) returns (suggestions: seq<Suggestion>)
      modifies this
      ensures templates == FormatTemplates(old(templates), CurrentPatient)
      ensures |suggestions| == |templates|
      ensures forall i | 0 <= i < |templates| :: suggestions[i] == SuggestionOf(templates[i], lineNumber, startColumn, endColumn)
    {
      var i := 0;
      while i < |templates|
        invariant 0 <= i <= |templates| == |old(templates)|
        invariant templates[..i] == FormatTemplates(old(templates), CurrentPatient)[..i]
        invariant templates[i..] == old(templates)[i..]
      {
        templates := templates[i := templates[i].(insertText := Format(templates[i].insertText, CurrentPatient))];
        i := i + 1;
      }
      assert templates == templates[..i];
      suggestions := seq(|templates|, k requires 0 <= k < |templates| reads this => SuggestionOf(templates[k], lineNumber, startColumn, endColumn));
    }
  }

  /** After the first completion request the templates no longer change. */
  lemma RepeatedRequestsStable(ts: seq<Template>)
    ensures FormatTemplates(FormatTemplates(ts, CurrentPatient), CurrentPatient) == FormatTemplates(ts, CurrentPatient)
  {
    CurrentPatientHasNoBrace();
    FormatTemplatesIdempotent(ts, CurrentPatient);
  }

  // ---------------------------------------------------------------------------
  // Inline completions

  /** The text before the cursor, lower-cased and then left-trimmed. */
  function InlinePrefix(lineUpTo: string): (p: string)
    ensures |p| <= |lineUpTo| && p == Lower(lineUpTo)[|lineUpTo| - |p|..]
  {
    TrimStart(Lower(lineUpTo))
  }

  /** Some trigger word of `t`, lower-cased, contains the prefix. */
  predicate TriggerHit(t: Template, prefix: string) {
    exists w | w in t.triggerWords :: Contains(Lower(w), prefix)
  }

  /** The inline filter: by trigger words when there are any, otherwise by the insertText's start. */
  predicate Keeps(t: Template, prefix: string) {
    if |t.triggerWords| > 0 then TriggerHit(t, prefix) else StartsWith(Lower(t.insertText), prefix)
  }

  /** `templates.filter((tpl) => tpl.inline)`. */
  function InlineTemplates(ts: seq<Template>): (r: seq<Template>)
    ensures |r| <= |ts|
    ensures forall t :: t in r <==> t in ts && t.inline
  {
    if ts == [] then []
    else (if ts[0].inline then [ts[0]] else []) + InlineTemplates(ts[1..])
  }

  /** The trigger-word / prefix filter. */
  function KeptTemplates(ts: seq<Template>, prefix: string): (r: seq<Template>)
    ensures |r| <= |ts|
    ensures forall t :: t in r <==> t in ts && Keeps(t, prefix)
  {
    if ts == [] then []
    else (if Keeps(ts[0], prefix) then [ts[0]] else []) + KeptTemplates(ts[1..], prefix)
  }

  /** The templates offered inline for `prefix`, formatted, in template order. */
  function InlineKept(templates: seq<Template>, prefix: string): seq<Template> {
    KeptTemplates(FormatTemplates(InlineTemplates(templates), CurrentPatient), prefix)
  }

  /**
   * A template is offered inline exactly when it is an inline template,
   * formatted with the current patient, that passes the filter.
   */
  lemma InlineKeptMembers(templates: seq<Template>, p: string, t: Template)
    ensures t in InlineKept(templates, p) <==>
      Keeps(t, p) && exists u | u in templates && u.inline :: t == u.(insertText := Format(u.insertText, CurrentPatient))
  {
    var inl := InlineTemplates(templates);
    var fs := FormatTemplates(inl, CurrentPatient);
    if t in fs {
      var k :| 0 <= k < |fs| && fs[k] == t;
      assert inl[k] in inl;
    }
    if exists u | u in templates && u.inline :: t == u.(insertText := Format(u.insertText, CurrentPatient)) {
      var u :| u in templates && u.inline && t == u.(insertText := Format(u.insertText, CurrentPatient));
      assert u in inl;
      var k :| 0 <= k < |inl| && inl[k] == u;
      assert fs[k] == t;
    }
  }

  /** The shared hasTriggerWord flag: some kept template was kept for a trigger word. */
  predicate AnyTriggerHit(kept: seq<Template>, prefix: string) {
    exists t | t in kept :: |t.triggerWords| > 0 && TriggerHit(t, prefix)
  }

  datatype InsertText = PlainText(text: string) | SnippetText(snippet: string)

  function TextOf(x: InsertText): string {
    match x
    case PlainText(text) => text
    case SnippetText(snippet) => snippet
  }

  /**
   * An inline item: text inserted at `column`, and, when `deleteFrom` is
   * present, the additional edit that deletes from that column to the cursor.
   */
  datatype InlineItem = InlineItem(insertText: InsertText, column: int, deleteFrom: Option<int>)

  /** `s.slice(n)` for n >= 0. */
  function Slice(s: string, n: nat): string {
    if n <= |s| then s[n..] else ""
  }

  function ItemFor(t: Template, prefix: string, hasTrigger: bool, column: int): InlineItem {
    var text := if hasTrigger then t.insertText else Slice(t.insertText, |prefix|);
    InlineItem(if t.kind == SnippetKind then SnippetText(text) else PlainText(text), column,
               if hasTrigger then Some(column - |prefix|) else None)
  }

  /**
   * provideInlineCompletions for the text `lineUpTo` before the cursor (the
   * cursor's column is |lineUpTo| + 1): null for a prefix shorter than two
   * characters, otherwise one item per kept template.
   */
  function InlineCompletions(templates: seq<Template>, lineUpTo: string): (r: Option<seq<InlineItem>>)
    ensures r.None? <==> |InlinePrefix(lineUpTo)| < 2
    ensures r.Some? ==> |r.value| == |InlineKept(templates, InlinePrefix(lineUpTo))|
  {
    var prefix := InlinePrefix(lineUpTo);
    if |prefix| < 2 then None
    else
      var kept := InlineKept(templates, prefix);
      var hasTrigger := AnyTriggerHit(kept, prefix);
      Some(seq(|kept|, i requires 0 <= i < |kept| => ItemFor(kept[i], prefix, hasTrigger, |lineUpTo| + 1)))
  }

  /** The line after the editor accepts `item` with the cursor at the end of `lineUpTo`. */
  function Accept(lineUpTo: string, item: InlineItem): string {
    var before := if item.deleteFrom.Some? && 1 <= item.deleteFrom.value <= |lineUpTo| + 1
      then lineUpTo[..item.deleteFrom.value - 1] else lineUpTo;
    before + TextOf(item.insertText)
  }

  /**
   * Accepting the item made for one template: the text before the typed
   * prefix followed by the template's whole insertText, up to case. Without
   * the delete edit the insertText has to begin with the prefix.
   */
  lemma AcceptItem(lineUpTo: string, p: string, t: Template, hasTrigger: bool)
    requires p == InlinePrefix(lineUpTo)
    requires !hasTrigger ==> StartsWith(Lower(t.insertText), p)
    ensures Lower(Accept(lineUpTo, ItemFor(t, p, hasTrigger, |lineUpTo| + 1))) ==
            Lower(lineUpTo[..|lineUpTo| - |p|] + t.insertText)
  {
    if hasTrigger {
      AcceptReplacing(lineUpTo, p, t);
    } else {
      AcceptAppending(lineUpTo, p, t);
      LowerRejoin(lineUpTo, p, t.insertText);
    }
  }

  /** An item with the delete edit replaces the typed prefix with the whole text. */
  lemma AcceptReplacing(lineUpTo: string, p: string, t: Template)
    requires |p| <= |lineUpTo|
    ensures Accept(lineUpTo, ItemFor(t, p, true, |lineUpTo| + 1)) == lineUpTo[..|lineUpTo| - |p|] + t.insertText
  {
  }

  /** An item without it adds the rest of the text after the prefix. */
  lemma AcceptAppending(lineUpTo: string, p: string, t: Template)
    requires |p| <= |t.insertText|
    ensures Accept(lineUpTo, ItemFor(t, p, false, |lineUpTo| + 1)) == lineUpTo + t.insertText[|p|..]
  {
  }

  /** Typing the rest of `text` after a typed prefix of it gives, up to case, the whole text. */
  lemma LowerRejoin(line: string, p: string, text: string)
    requires |p| <= |line| && p == Lower(line)[|line| - |p|..]
    requires StartsWith(Lower(text), p)
    ensures Lower(line + text[|p|..]) == Lower(line[..|line| - |p|] + text)
  {
    var n := |line|;
    var pre := line[..n - |p|];
    var typed := line[n - |p|..];
    var lowText := Lower(text);
    assert line == pre + typed;
    LowerAppend(line, text[|p|..]);
    LowerAppend(pre, typed);
    LowerAppend(pre, text);
    LowerDrop(line, n - |p|);
    LowerDrop(text, |p|);
    assert Lower(typed) == lowText[..|p|];
    assert lowText == lowText[..|p|] + lowText[|p|..];
  }

  lemma LowerDrop(s: string, k: nat)
    requires k <= |s|
    ensures Lower(s[k..]) == Lower(s)[k..]
  {
  }

  /**
   * Whichever way an item is inserted (whole text replacing the typed prefix,
   * or the rest of the text after it), accepting item i leaves the line as
   * the text before the prefix followed by the i-th kept template's
   * formatted insertText, up to case.
   */
  lemma AcceptCompletes(templates: seq<Template>, lineUpTo: string, i: nat)
    requires InlineCompletions(templates, lineUpTo).Some?
    requires i < |InlineCompletions(templates, lineUpTo).value|
    ensures var p := InlinePrefix(lineUpTo);
      Lower(Accept(lineUpTo, InlineCompletions(templates, lineUpTo).value[i])) ==
      Lower(lineUpTo[..|lineUpTo| - |p|] + InlineKept(templates, p)[i].insertText)
  {
    var p := InlinePrefix(lineUpTo);
    var kept := InlineKept(templates, p);
    var t := kept[i];
    var hasTrigger := AnyTriggerHit(kept, p);
    assert InlineCompletions(templates, lineUpTo).value[i] == ItemFor(t, p, hasTrigger, |lineUpTo| + 1);
    if !hasTrigger {
      assert t in kept;
      assert Keeps(t, p);
    }
    AcceptItem(lineUpTo, p, t, hasTrigger);
  }
}
