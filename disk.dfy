/**
 * The filesystem as the main process's handlers present it to the renderer
 * (read, write, exists, mkdir, rmdir and list over absolute paths).
 *
 * A disk maps resolved paths to nodes. The root is always a directory.
 * `Dangling` is a directory entry that does not resolve (a broken link): it
 * is listed but reads as missing. A path in `faulty`, or under one, fails
 * every system call on it with an error other than ENOENT (a permission error,
 * say); the handlers that probe with `access` first treat that as "missing".
 */
module Storage {
  import opened Base
  import opened Paths
  import opened JsonModel

  // The handlers' messages, each followed by the base name of the path.
  const ReadFailed: string := "Failed to read file: "
  const WriteFailed: string := "Failed to write file: "
  const ExistsFailed: string := "Failed to check existence for file: "
  const MkdirFailed: string := "Failed to create directory: "
  const RmdirFailed: string := "Failed to remove directory: "
  const ListFailed: string := "Failed to list files in directory: "

  datatype Node = File(content: Content) | Dir | Dangling

  datatype Disk = Disk(entries: map<Path, Node>, faulty: set<Path>)

  /** Every entry is named by segments, and its enclosing directories are present as directories. */
  predicate Valid(d: Disk) {
    (forall p | p in d.entries :: WellFormed(p)) &&
    (forall p, k | p in d.entries && 0 < k < |p| :: p[..k] in d.entries && d.entries[p[..k]] == Dir)
  }

  function Kind(d: Disk, p: Path): Option<Node> {
    if p == [] then Some(Dir)
    else if p in d.entries then Some(d.entries[p])
    else None
  }

  /** Some enclosing path, or the path itself, is faulty. */
  predicate Blocked(d: Disk, p: Path) {
    exists k | 0 < k <= |p| :: p[..k] in d.faulty
  }

  /** Some enclosing path is a file or a broken link. */
  predicate UnderNonDir(d: Disk, p: Path) {
    exists k | 0 < k < |p| :: p[..k] in d.entries && d.entries[p[..k]] != Dir
  }

  /** fs.access succeeds: the entry is there and resolves. */
  predicate Accessible(d: Disk, p: Path) {
    !Blocked(d, p) && !UnderNonDir(d, p) && Kind(d, p).Some? && !Kind(d, p).value.Dangling?
  }

  /** The names a directory listing returns. */
  function Children(d: Disk, p: Path): set<string> {
    set q | q in d.entries.Keys && |q| == |p| + 1 && q[..|p|] == p :: q[|p|]
  }

  /** Adds `p` and all its enclosing paths as directories, keeping what is already there. */
  function MakeDirs(entries: map<Path, Node>, p: Path): (r: map<Path, Node>)
    ensures entries.Keys <= r.Keys
    ensures forall q | q in entries :: r[q] == entries[q]
    ensures forall k | 0 < k <= |p| :: p[..k] in r
    ensures forall k | 0 < k <= |p| && p[..k] !in entries :: r[p[..k]] == Dir
    ensures forall q | q in r && q !in entries :: r[q] == Dir && q != [] && Within(p, q)
    decreases |p|
  {
    if p == [] then entries
    else
      var r := MakeDirs(entries, p[..|p| - 1]);
      assert forall k | 0 < k < |p| :: p[..|p| - 1][..k] == p[..k];
      assert p[..|p|] == p;
      if p in r then r else r[p := Dir]
  }

  /** Removes `p` and everything inside it. */
  function RemoveTree(entries: map<Path, Node>, p: Path): (r: map<Path, Node>)
    ensures forall q :: q in r <==> q in entries && !Within(q, p)
    ensures forall q | q in r :: r[q] == entries[q]
  {
    map q | q in entries && !Within(q, p) :: entries[q]
  }

  // ---------------------------------------------------------------------------
  // The handlers. Their messages are the ones electron/main/index.ts throws.

  /** read-file-absolute: a missing or inaccessible file reads as null. */
  function Read(d: Disk, p: Path): Result<Option<Content>> {
    if !Accessible(d, p) then Ok(None)
    else match Kind(d, p).value
      case File(c) => Ok(Some(c))
      case _ => Err(ReadFailed + BaseName(p))
  }

  /** write-file-absolute: create the enclosing directories, then write. */
  function Write(d: Disk, p: Path, c: Content): Result<Disk> {
    if p == [] || Blocked(d, p) || UnderNonDir(d, p) || Kind(d, p) == Some(Dir) then
      Err(WriteFailed + BaseName(p))
    else
      Ok(d.(entries := MakeDirs(d.entries, p[..|p| - 1])[p := File(c)]))
  }

  /** exists-absolute: false on ENOENT, an error on any other failure. */
  function Exists(d: Disk, p: Path): Result<bool> {
    if Blocked(d, p) || UnderNonDir(d, p) then
      Err(ExistsFailed + BaseName(p))
    else Ok(Kind(d, p).Some? && !Kind(d, p).value.Dangling?)
  }

  /** mkdir-absolute: nothing to do when the path is accessible, else mkdir -p. */
  function Mkdir(d: Disk, p: Path): Result<Disk> {
    if Accessible(d, p) then Ok(d)
    else if Blocked(d, p) || UnderNonDir(d, p) || Kind(d, p).Some? then
      Err(MkdirFailed + BaseName(p))
    else Ok(d.(entries := MakeDirs(d.entries, p)))
  }

  /** rmdir-absolute: nothing to do when the path is not accessible, else rm -rf. */
  function Rmdir(d: Disk, p: Path): Result<Disk> {
    if !Accessible(d, p) then Ok(d)
    else if exists q | q in d.faulty :: Within(q, p) then
      Err(RmdirFailed + BaseName(p))
    else Ok(d.(entries := RemoveTree(d.entries, p)))
  }

  /** list-files: null on ENOENT, the entry names of a directory otherwise. */
  function List(d: Disk, p: Path): Result<Option<set<string>>> {
    if Blocked(d, p) || UnderNonDir(d, p) || (Kind(d, p).Some? && Kind(d, p).value.File?) then
      Err(ListFailed + BaseName(p))
    else if Kind(d, p) == Some(Dir) then Ok(Some(Children(d, p)))
    else Ok(None)
  }

  function BaseName(p: Path): string {
    if p == [] then "" else p[|p| - 1]
  }

  // ---------------------------------------------------------------------------
  // The properties the renderer relies on.

  /** A read of a missing file returns null. */
  lemma ReadMissing(d: Disk, p: Path)
    requires Kind(d, p).None?
    ensures Read(d, p) == Ok(None)
  {
  }

  /** A listing of a missing directory returns null. */
  lemma ListMissing(d: Disk, p: Path)
    requires !Blocked(d, p) && !UnderNonDir(d, p) && Kind(d, p).None?
    ensures List(d, p) == Ok(None)
  {
  }

  /** Removing a directory that is not there changes nothing. */
  lemma RmdirMissing(d: Disk, p: Path)
    requires Kind(d, p).None?
    ensures Rmdir(d, p) == Ok(d)
  {
  }

  /** mkdir leaves the directory accessible, and a second mkdir changes nothing. */
  lemma {:induction false} MkdirIdempotent(d: Disk, p: Path)
    requires Mkdir(d, p).Ok?
    ensures Accessible(Mkdir(d, p).value, p)
    ensures Mkdir(Mkdir(d, p).value, p) == Mkdir(d, p)
  {
    var d1 := Mkdir(d, p).value;
    if !Accessible(d, p) {
      if p != [] {
        assert p[..|p|] == p;
        assert p in d1.entries && d1.entries[p] == Dir;
      }
      assert !Blocked(d1, p);
      assert !UnderNonDir(d1, p) by {
        forall k | 0 < k < |p| && p[..k] in d1.entries ensures d1.entries[p[..k]] == Dir {
          assert !(p[..k] in d.entries && d.entries[p[..k]] != Dir);
        }
      }
    }
  }

  /** What was written is read back. */
  lemma WriteThenRead(d: Disk, p: Path, c: Content)
    requires Write(d, p, c).Ok?
    ensures Read(Write(d, p, c).value, p) == Ok(Some(c))
  {
    var d1 := Write(d, p, c).value;
    MakeDirsRoute(d, p);
    assert !UnderNonDir(d1, p);
  }

  /** The enclosing directories of a written path are directories afterwards. */
  lemma MakeDirsRoute(d: Disk, p: Path)
    requires p != [] && !UnderNonDir(d, p)
    ensures forall k | 0 < k < |p| ::
      p[..k] in MakeDirs(d.entries, p[..|p| - 1]) && MakeDirs(d.entries, p[..|p| - 1])[p[..k]] == Dir
  {
    var m := MakeDirs(d.entries, p[..|p| - 1]);
    forall k | 0 < k < |p| ensures p[..k] in m && m[p[..k]] == Dir {
      assert p[..|p| - 1][..k] == p[..k];
      if p[..k] in d.entries {
        assert d.entries[p[..k]] == Dir;
      }
    }
  }

  /** A write leaves every path that does not enclose it as it was. */
  lemma WriteFrame(d: Disk, p: Path, c: Content, q: Path)
    requires Write(d, p, c).Ok?
    requires q != p && !Within(p, q)
    ensures Kind(Write(d, p, c).value, q) == Kind(d, q)
  {
  }

  lemma {:induction false} MakeDirsValid(entries: map<Path, Node>, p: Path)
    requires Valid(Disk(entries, {})) && WellFormed(p)
    requires forall k | 0 < k < |p| && p[..k] in entries :: entries[p[..k]] == Dir
    ensures Valid(Disk(MakeDirs(entries, p), {}))
  {
    var r := MakeDirs(entries, p);
    forall q | q in r ensures WellFormed(q) {
      if q !in entries {
        assert q == p[..|q|];
        assert forall i | 0 <= i < |q| :: q[i] == p[i];
      }
    }
    forall q, k | q in r && 0 < k < |q| ensures q[..k] in r && r[q[..k]] == Dir {
      if q in entries {
      } else {
        assert q == p[..|q|];
        assert q[..k] == p[..k];
      }
    }
  }

  /** Writes, mkdir and rmdir keep every entry inside directories. */
  lemma WriteValid(d: Disk, p: Path, c: Content)
    requires Valid(d) && WellFormed(p) && Write(d, p, c).Ok?
    ensures Valid(Write(d, p, c).value)
  {
    var dirs := p[..|p| - 1];
    assert forall k | 0 < k < |dirs| :: dirs[..k] == p[..k];
    assert WellFormed(dirs) by {
      assert forall i | 0 <= i < |dirs| :: dirs[i] == p[i];
    }
    MakeDirsValid(d.entries, dirs);
    var m := MakeDirs(d.entries, dirs);
    assert Valid(Disk(m, {}));
    var r := m[p := File(c)];
    assert p in m ==> m[p] != Dir;
    forall q, k | q in r && 0 < k < |q| ensures q[..k] in r && r[q[..k]] == Dir {
      if q == p {
        MakeDirsRoute(d, p);
        assert q[..k] != p;
      } else {
        assert q in m;
        assert q[..k] in m && m[q[..k]] == Dir;
      }
    }
  }

  lemma MkdirValid(d: Disk, p: Path)
    requires Valid(d) && WellFormed(p) && Mkdir(d, p).Ok?
    ensures Valid(Mkdir(d, p).value)
  {
    if !Accessible(d, p) {
      MakeDirsValid(d.entries, p);
    }
  }

  lemma RmdirValid(d: Disk, p: Path)
    requires Valid(d) && Rmdir(d, p).Ok?
    ensures Valid(Rmdir(d, p).value)
  {
    var r := Rmdir(d, p).value;
    forall q, k | q in r.entries && 0 < k < |q| ensures q[..k] in r.entries && r.entries[q[..k]] == Dir {
      if Within(q[..k], p) {
        assert q[..|p|] == q[..k][..|p|];
      }
    }
  }

  // ---------------------------------------------------------------------------
  // Frames: what a write or a removal leaves alone.

  /** A write leaves the read of every path apart from it as it was. */
  lemma ReadAfterWrite(d: Disk, p: Path, c: Content, q: Path)
    requires Write(d, p, c).Ok? && Apart(p, q)
    ensures Read(Write(d, p, c).value, q) == Read(d, q)
    ensures Accessible(Write(d, p, c).value, q) == Accessible(d, q)
  {
    var d1 := Write(d, p, c).value;
    WriteFrame(d, p, c, q);
    MakeDirsRoute(d, p);
    assert UnderNonDir(d1, q) == UnderNonDir(d, q) by {
      forall k | 0 < k < |q| && q[..k] in d.entries ensures q[..k] in d1.entries && d1.entries[q[..k]] == d.entries[q[..k]] {
        assert q[..k] != p;
      }
      forall k | 0 < k < |q| && q[..k] in d1.entries && q[..k] !in d.entries ensures d1.entries[q[..k]] == Dir {
        assert q[..k] != p;
      }
    }
  }

  /** A removal leaves the read of every path outside it as it was. */
  lemma ReadAfterRmdir(d: Disk, p: Path, q: Path)
    requires Rmdir(d, p).Ok? && !Within(q, p)
    ensures Read(Rmdir(d, p).value, q) == Read(d, q)
    ensures Kind(Rmdir(d, p).value, q) == Kind(d, q)
    ensures Accessible(Rmdir(d, p).value, q) == Accessible(d, q)
  {
    var d1 := Rmdir(d, p).value;
    forall k | 0 < k < |q| ensures !Within(q[..k], p) {
      assert |p| <= k ==> q[..k][..|p|] == q[..|p|];
    }
    assert UnderNonDir(d1, q) == UnderNonDir(d, q);
  }

  /** mkdir leaves every path that does not enclose the new directory as it was, and its listing too. */
  lemma ReadAfterMkdir(d: Disk, p: Path, q: Path)
    requires Mkdir(d, p).Ok? && !Within(p, q)
    ensures Read(Mkdir(d, p).value, q) == Read(d, q)
    ensures Kind(Mkdir(d, p).value, q) == Kind(d, q)
    ensures Children(Mkdir(d, p).value, q) == Children(d, q)
  {
    var d1 := Mkdir(d, p).value;
    assert UnderNonDir(d1, q) == UnderNonDir(d, q);
    forall e | e in d1.entries && |e| == |q| + 1 && e[..|q|] == q ensures e in d.entries {
    }
  }

  /** A path with nothing at it, under a valid disk, has no entries inside it. */
  lemma NoChildren(d: Disk, p: Path)
    requires Valid(d) && (Kind(d, p).None? || Kind(d, p) == Some(Dangling))
    ensures Children(d, p) == {}
  {
    forall e | e in d.entries && |e| == |p| + 1 ensures e[..|p|] != p {
      assert 0 < |p| ==> e[..|p|] in d.entries && d.entries[e[..|p|]] == Dir;
    }
  }

  /** The names a listing returns are entry names. */
  lemma ChildrenSegments(d: Disk, p: Path)
    requires Valid(d)
    ensures forall f | f in Children(d, p) :: IsSegment(f)
  {
    forall f | f in Children(d, p) ensures IsSegment(f) {
      var q :| q in d.entries.Keys && |q| == |p| + 1 && q[..|p|] == p && q[|p|] == f;
      assert WellFormed(q);
    }
  }
}
