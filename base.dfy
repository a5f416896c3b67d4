/**
 * Value types and the JavaScript string primitives shared by the whole model:
 * Option/Result, whitespace trimming, ASCII case mapping, split/join on one
 * character, substring tests and decimal rendering of integers.
 */
module Base {

  datatype Option<+T> = None | Some(value: T)

  /** A computation that either returns a value or throws an Error with a message. */
  datatype Result<+T> = Ok(value: T) | Err(error: string)

  // ---------------------------------------------------------------------------
  // Whitespace, as String.prototype.trim understands it (WhiteSpace and
  // LineTerminator code points of ECMAScript).

  predicate IsJsWhite(c: char) {
    c == '\t' || c == '\n' || c == '\U{B}' || c == '\U{C}' || c == '\r' || c == ' ' ||
    c == '\U{A0}' || c == '\U{1680}' || ('\U{2000}' <= c <= '\U{200A}') ||
    c == '\U{2028}' || c == '\U{2029}' || c == '\U{202F}' || c == '\U{205F}' ||
    c == '\U{3000}' || c == '\U{FEFF}'
  }

  /** The characters a regular-expression `.` does not match. */
  predicate IsLineTerminator(c: char) {
    c == '\n' || c == '\r' || c == '\U{2028}' || c == '\U{2029}'
  }

  predicate IsBlank(s: string) {
    forall i | 0 <= i < |s| :: IsJsWhite(s[i])
  }

  function TrimStart(s: string): (r: string)
    ensures |r| <= |s| && r == s[|s| - |r|..]
    ensures r == [] || !IsJsWhite(r[0])
    ensures IsBlank(s[..|s| - |r|])
  {
    if s == [] || !IsJsWhite(s[0]) then s
    else
      var r := TrimStart(s[1..]);
      assert s[1..][..|s| - 1 - |r|] == s[1..|s| - |r|];
      r
  }

  function TrimEnd(s: string): (r: string)
    ensures |r| <= |s| && r == s[..|r|]
    ensures r == [] || !IsJsWhite(r[|r| - 1])
    ensures IsBlank(s[|r|..])
  {
    if s == [] || !IsJsWhite(s[|s| - 1]) then s
    else
      var r := TrimEnd(s[..|s| - 1]);
      assert s[..|s| - 1][|r|..] == s[|r|..|s| - 1];
      r
  }

  function Trim(s: string): string {
    TrimEnd(TrimStart(s))
  }

  /** `s.trim() === ""` holds exactly for the blank strings. */
  lemma TrimEmptyIffBlank(s: string)
    ensures Trim(s) == "" <==> IsBlank(s)
  {
    var t := TrimStart(s);
    if Trim(s) == "" {
      assert t[0..] == t;
      assert IsBlank(t);
      assert t == [];
      assert s[..|s|] == s;
    } else {
      var r := Trim(s);
      assert r[0] in s;
      assert !IsJsWhite(r[0]) by {
        if t != [] {
          assert r[0] == t[0];
        }
      }
    }
  }

  // ---------------------------------------------------------------------------
  // Case mapping. Only the ASCII letters are mapped; every other character is
  // its own lower and upper case in this model.

  function LowerChar(c: char): (r: char)
    ensures ('A' <= c <= 'Z') ==> 'a' <= r <= 'z'
  {
    if 'A' <= c <= 'Z' then (c as int + 32) as char else c
  }

  function UpperChar(c: char): (r: char)
    ensures ('a' <= c <= 'z') ==> 'A' <= r <= 'Z'
  {
    if 'a' <= c <= 'z' then (c as int - 32) as char else c
  }

  function Lower(s: string): (r: string)
    ensures |r| == |s|
    ensures forall i | 0 <= i < |s| :: r[i] == LowerChar(s[i])
  {
    seq(|s|, i requires 0 <= i < |s| => LowerChar(s[i]))
  }

  lemma LowerCharIdempotent(c: char)
    ensures LowerChar(LowerChar(c)) == LowerChar(c)
    ensures LowerChar(UpperChar(c)) == LowerChar(c)
  {
  }

  /** Lower-casing twice is lower-casing once. */
  lemma LowerIdempotent(s: string)
    ensures Lower(Lower(s)) == Lower(s)
  {
    forall i | 0 <= i < |s| ensures LowerChar(LowerChar(s[i])) == LowerChar(s[i]) {
      LowerCharIdempotent(s[i]);
    }
  }

  lemma LowerAppend(a: string, b: string)
    ensures Lower(a + b) == Lower(a) + Lower(b)
  {
  }

  // ---------------------------------------------------------------------------
  // Prefixes and substrings.

  predicate StartsWith(s: string, prefix: string) {
    |prefix| <= |s| && s[..|prefix|] == prefix
  }

  predicate EndsWith(s: string, suffix: string) {
    |suffix| <= |s| && s[|s| - |suffix|..] == suffix
  }

  /** `s.includes(sub)`. */
  predicate Contains(s: string, sub: string)
    decreases |s|
  {
    StartsWith(s, sub) || (s != [] && Contains(s[1..], sub))
  }

  lemma ContainsEmpty(s: string)
    ensures Contains(s, "")
  {
  }

  lemma {:induction false} ContainsAt(s: string, sub: string, i: nat)
    requires i + |sub| <= |s| && s[i..i + |sub|] == sub
    ensures Contains(s, sub)
    decreases i
  {
    if i > 0 {
      assert s[1..][i - 1..i - 1 + |sub|] == s[i..i + |sub|];
      ContainsAt(s[1..], sub, i - 1);
    }
  }

  lemma {:induction false} ContainsWitness(s: string, sub: string) returns (i: nat)
    requires Contains(s, sub)
    ensures i + |sub| <= |s| && s[i..i + |sub|] == sub
    decreases |s|
  {
    if StartsWith(s, sub) {
      i := 0;
    } else {
      var j := ContainsWitness(s[1..], sub);
      assert s[1..][j..j + |sub|] == s[j + 1..j + 1 + |sub|];
      i := j + 1;
    }
  }

  // ---------------------------------------------------------------------------
  // `s.split(c)` and `parts.join(c)` for a one-character separator.

  function Split(s: string, c: char): (parts: seq<string>)
    ensures |parts| >= 1
    ensures forall k | 0 <= k < |parts| :: c !in parts[k]
  {
    if s == [] then [[]]
    else
      var rest := Split(s[1..], c);
      if s[0] == c then [[]] + rest
      else [[s[0]] + rest[0]] + rest[1..]
  }

  function Join(parts: seq<string>, c: char): string {
    if |parts| == 0 then ""
    else if |parts| == 1 then parts[0]
    else parts[0] + [c] + Join(parts[1..], c)
  }

  /** Splitting the join of separator-free pieces gives the pieces back. */
  lemma {:induction false} SplitJoin(parts: seq<string>, c: char)
    requires |parts| >= 1
    requires forall k | 0 <= k < |parts| :: c !in parts[k]
    ensures Split(Join(parts, c), c) == parts
    decreases |parts|, |parts[0]|
  {
    if |parts| == 1 {
      SplitFree(parts[0], c);
    } else if parts[0] == [] {
      var tail := parts[1..];
      assert Join(parts, c) == [c] + Join(tail, c);
      assert ([c] + Join(tail, c))[1..] == Join(tail, c);
      SplitJoin(tail, c);
      assert [[]] + tail == parts;
    } else {
      var p0 := parts[0];
      var shorter := [p0[1..]] + parts[1..];
      assert Join(shorter, c) == p0[1..] + [c] + Join(parts[1..], c);
      assert Join(parts, c) == [p0[0]] + Join(shorter, c);
      assert c !in p0[1..] by {
        assert forall x | x in p0[1..] :: x in p0;
      }
      assert forall k | 0 <= k < |shorter| :: c !in shorter[k] by {
        forall k | 0 <= k < |shorter| ensures c !in shorter[k] {
          if k > 0 {
            assert shorter[k] == parts[k];
          }
        }
      }
      SplitJoin(shorter, c);
      assert ([p0[0]] + Join(shorter, c))[1..] == Join(shorter, c);
      assert p0[0] != c by {
        assert p0[0] in p0;
      }
      assert [p0[0]] + p0[1..] == p0;
      assert shorter[1..] == parts[1..];
      assert [[p0[0]] + shorter[0]] + shorter[1..] == [p0] + parts[1..];
      assert [p0] + parts[1..] == parts;
    }
  }

  lemma {:induction false} SplitFree(s: string, c: char)
    requires c !in s
    ensures Split(s, c) == [s]
  {
    if s != [] {
      assert c !in s[1..] by {
        assert forall x | x in s[1..] :: x in s;
      }
      SplitFree(s[1..], c);
      assert s[0] != c by {
        assert s[0] in s;
      }
      assert [s[0]] + s[1..] == s;
    }
  }

  // ---------------------------------------------------------------------------
  // Decimal rendering, as String(n) does for integers.

  function DigitChar(d: nat): char
    requires d < 10
  {
    "0123456789"[d]
  }

  function NatToString(n: nat): (r: string)
    ensures |r| >= 1
    ensures forall i | 0 <= i < |r| :: '0' <= r[i] <= '9'
  {
    if n < 10 then [DigitChar(n)] else NatToString(n / 10) + [DigitChar(n % 10)]
  }

  function IntToString(n: int): string {
    if n < 0 then "-" + NatToString(-n) else NatToString(n)
  }

  // ---------------------------------------------------------------------------
  // Slices of concatenations, kept apart from the functions they are used with.

  lemma InTail<T>(s: seq<T>, x: T)
    requires x in s && x != s[0]
    ensures x in s[1..]
  {
    var n :| 0 <= n < |s| && s[n] == x;
    assert s[1..][n - 1] == x;
  }

  lemma IndexAfter<T>(head: seq<T>, rest: seq<T>, j: nat)
    requires j < |rest|
    ensures (head + rest)[|head| + j] == rest[j]
  {
  }

  lemma LastOfAppend<T>(a: seq<T>, b: seq<T>)
    requires b != []
    ensures (a + b)[..|a + b| - 1] == a + b[..|b| - 1] && (a + b)[|a + b| - 1] == b[|b| - 1]
  {
  }

  lemma InitAgrees<T>(s: seq<T>)
    requires s != []
    ensures forall i | 0 <= i < |s| - 1 :: s[..|s| - 1][i] == s[i]
  {
  }

  lemma FirstOfAppend<T>(a: seq<T>, b: seq<T>, x: T)
    requires a != [] && x !in a
    ensures x !in a[1..] && a[0] != x && (a + b)[0] == a[0] && (a + b)[1..] == a[1..] + b
  {
    assert forall y | y in a[1..] :: y in a;
  }

  lemma InInit<T>(s: seq<T>, x: T)
    requires x in s && x != s[|s| - 1]
    ensures x in s[..|s| - 1]
  {
    var n :| 0 <= n < |s| && s[n] == x;
    assert s[..|s| - 1][n] == x;
  }
}
