/**
 * Path strings and the segment lists the filesystem resolves them to.
 * A path string is split on '/', and empty and "." pieces are dropped, which
 * is the part of Node's path normalisation the program relies on.
 */
module Paths {
  import opened Base

  /** What the join-paths handler throws when no segment is left. */
  const NoValidSegments: string := "[IPC] Failed to join paths: No valid path segments provided."

  type Path = seq<string>

  /** A piece that names a directory entry. */
  predicate IsSegment(s: string) {
    s != "" && s != "." && '/' !in s
  }

  predicate WellFormed(p: Path) {
    forall i | 0 <= i < |p| :: IsSegment(p[i])
  }

  function KeepSegments(pieces: seq<string>): (p: Path)
    ensures WellFormed(p)
    ensures |p| <= |pieces|
  {
    if |pieces| == 0 then []
    else if IsSegment(pieces[0]) then [pieces[0]] + KeepSegments(pieces[1..])
    else KeepSegments(pieces[1..])
  }

  /** The segments a path string resolves to. */
  function Segments(s: string): (p: Path)
    ensures WellFormed(p)
  {
    KeepSegments(Split(s, '/'))
  }

  /** The string path.join prints for a list of segments. */
  function Render(p: Path, absolute: bool): (s: string)
    requires WellFormed(p)
    ensures s != ""
  {
    if absolute then "/" + Join(p, '/')
    else if p == [] then "."
    else Join(p, '/')
  }

  lemma {:induction false} KeepWellFormed(p: Path)
    requires WellFormed(p)
    ensures KeepSegments(p) == p
  {
    if |p| > 0 {
      assert WellFormed(p[1..]) by {
        forall i | 0 <= i < |p| - 1 ensures IsSegment(p[1..][i]) {
          assert p[1..][i] == p[i + 1];
        }
      }
      KeepWellFormed(p[1..]);
      assert IsSegment(p[0]);
    }
  }

  /** A rendered path resolves back to the segments it was rendered from. */
  lemma SegmentsRender(p: Path, absolute: bool)
    requires WellFormed(p)
    ensures Segments(Render(p, absolute)) == p
  {
    if p == [] {
      if absolute {
        assert Render(p, absolute) == "/";
        assert Split("/", '/') == [[], []] by {
          assert "/"[1..] == [];
        }
      } else {
        SplitFree(".", '/');
      }
    } else {
      forall k | 0 <= k < |p| ensures '/' !in p[k] {
        assert IsSegment(p[k]);
      }
      SplitJoin(p, '/');
      KeepWellFormed(p);
      if absolute {
        var s := "/" + Join(p, '/');
        assert s[1..] == Join(p, '/');
        assert Split(s, '/') == [[]] + p;
        assert KeepSegments([[]] + p) == KeepSegments(p) by {
          assert ([[]] + p)[1..] == p;
        }
      }
    }
  }

  /** The last segment, as path.basename gives it; "" for the root. */
  function Basename(s: string): string {
    var p := Segments(s);
    if p == [] then "" else p[|p| - 1]
  }

  /** `p` is `q` or lies inside it. */
  predicate Within(p: Path, q: Path) {
    |q| <= |p| && p[..|q|] == q
  }

  /** Neither path lies inside the other. */
  predicate Apart(p: Path, q: Path) {
    !Within(p, q) && !Within(q, p)
  }

  /** Paths that differ at some common position are apart. */
  lemma ApartAt(p: Path, q: Path, i: nat)
    requires i < |p| && i < |q| && p[i] != q[i]
    ensures Apart(p, q)
  {
  }

  /** Paths that branch off a common prefix into different entries are apart. */
  lemma ApartBranch(pre: Path, x: string, y: string, ra: Path, rb: Path)
    requires x != y
    ensures Apart(pre + [x] + ra, pre + [y] + rb)
  {
    assert (pre + [x] + ra)[|pre|] == x;
    assert (pre + [y] + rb)[|pre|] == y;
    ApartAt(pre + [x] + ra, pre + [y] + rb, |pre|);
  }

  /** Entries of paths that are apart are apart from each other and from the other path. */
  lemma ApartChildren(p: Path, q: Path, x: string, y: string)
    requires Apart(p, q)
    ensures Apart(p + [x], q + [y]) && Apart(p + [x], q) && Apart(p, q + [y])
  {
    assert (p + [x])[..|p|] == p && (q + [y])[..|q|] == q;
    if |q| <= |p| {
      assert (p + [x])[..|q|] == p[..|q|];
    }
    if |p| <= |q| {
      assert (q + [y])[..|p|] == q[..|p|];
    }
  }

  // ---------------------------------------------------------------------------
  // The main process's join-paths handler (electron/main.ts).

  /** An argument as it arrives over IPC: a string, or any other value. */
  datatype Arg = Str(s: string) | NotString

  function ValidSegments(args: seq<Arg>): (r: seq<string>)
    ensures forall i | 0 <= i < |r| :: r[i] != ""
    ensures |r| <= |args|
  {
    if |args| == 0 then []
    else if args[0].Str? && args[0].s != "" then [args[0].s] + ValidSegments(args[1..])
    else ValidSegments(args[1..])
  }

  function Flatten(parts: seq<string>): (p: Path)
    ensures WellFormed(p)
  {
    if |parts| == 0 then [] else Segments(parts[0]) + Flatten(parts[1..])
  }

  /**
   * join-paths: keep the non-empty string arguments, fail when none is left,
   * and otherwise join them (absolute when the first kept one is).
   */
  function JoinPathsHandler(args: seq<Arg>): (r: Result<string>)
    ensures r.Err? <==> ValidSegments(args) == []
    ensures r.Err? ==> r.error == NoValidSegments
    ensures r.Ok? ==> Segments(r.value) == Flatten(ValidSegments(args))
  {
    var valid := ValidSegments(args);
    if |valid| == 0 then Err(NoValidSegments)
    else
      var p := Flatten(valid);
      SegmentsRender(p, StartsWith(valid[0], "/"));
      Ok(Render(p, StartsWith(valid[0], "/")))
  }

  /** Joining paths that are already rendered nests the later ones inside the first. */
  lemma JoinNests(base: Path, absolute: bool, name: string)
    requires WellFormed(base) && IsSegment(name)
    ensures JoinPathsHandler([Str(Render(base, absolute)), Str(name)]).Ok?
    ensures Segments(JoinPathsHandler([Str(Render(base, absolute)), Str(name)]).value) == base + [name]
  {
    SegmentsRender(base, absolute);
    SegmentsRender([name], false);
    assert Render([name], false) == name;
    var args := [Str(Render(base, absolute)), Str(name)];
    assert ValidSegments(args) == [Render(base, absolute), name] by {
      assert args[1..][1..] == [];
    }
    var valid := [Render(base, absolute), name];
    assert valid[1..][1..] == [];
    assert Flatten(valid[1..]) == Segments(name) + Flatten([]);
    assert Flatten(valid) == base + [name];
  }
}
