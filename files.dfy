/**
 * The file system as the program sees it through `fs.existsSync`,
 * `fs.promises.readFile`, `fs.promises.mkdir(dir, {recursive: true})` and
 * `fs.promises.writeFile`: a map from absolute paths, given as their
 * segments, to directories and text files. The root (the empty path) always
 * exists. Errors carry the POSIX error code node reports.
 */
module Files {
  import opened Common

  type Path = seq<string>

  datatype Entry = Directory | File(content: string)

  type FileSystem = map<Path, Entry>

  /** `path.dirname` on a path with at least one segment. */
  function Dirname(p: Path): (d: Path)
    requires |p| >= 1
    ensures |d| == |p| - 1 && d <= p
  {
    p[..|p| - 1]
  }

  /** `fs.existsSync`. */
  predicate Exists(fs: FileSystem, p: Path)
  {
    p == [] || p in fs
  }

  predicate IsDirectory(fs: FileSystem, p: Path)
  {
    p == [] || (p in fs && fs[p].Directory?)
  }

  predicate IsFile(fs: FileSystem, p: Path)
  {
    p != [] && p in fs && fs[p].File?
  }

  /** Every entry sits in a chain of directories that reaches the root. */
  predicate WellFormed(fs: FileSystem)
  {
    forall p | p in fs :: forall k | 0 <= k < |p| :: IsDirectory(fs, p[..k])
  }

  /** `fs.promises.readFile(p, "utf8")`. */
  function ReadFile(fs: FileSystem, p: Path): (r: Result<string>)
    ensures r.Ok? <==> IsFile(fs, p)
    ensures r.Ok? ==> fs[p] == File(r.value)
  {
    if !Exists(fs, p) then Err("ENOENT")
    else if IsDirectory(fs, p) then Err("EISDIR")
    else Ok(fs[p].content)
  }

  /** The non-empty prefixes of `p`, `p` included: the directories `mkdir -p p` needs. */
  function Prefixes(p: Path): set<Path>
  {
    set k | 1 <= k <= |p| :: p[..k]
  }

  /** Some prefix of `dir` (itself included) is a file. */
  predicate BlockedByFile(fs: FileSystem, dir: Path)
  {
    exists k | 1 <= k <= |dir| :: IsFile(fs, dir[..k])
  }

  /**
   * `fs.promises.mkdir(dir, {recursive: true})`: creates every missing
   * directory on the way to `dir`; fails with EEXIST when `dir` is a file and
   * with ENOTDIR when one of its ancestors is.
   */
  function MkdirAll(fs: FileSystem, dir: Path): (r: Result<FileSystem>)
    ensures r.Ok? <==> !BlockedByFile(fs, dir)
    ensures r.Err? && IsFile(fs, dir) ==> r.error == "EEXIST"
    ensures r.Ok? ==> forall k | 0 <= k <= |dir| :: IsDirectory(r.value, dir[..k])
    ensures r.Ok? ==> forall p | p in fs :: p in r.value && r.value[p] == fs[p]
    ensures r.Ok? ==> forall p | p in r.value && p !in fs :: p in Prefixes(dir)
  {
    if IsFile(fs, dir) then
      assert dir[..|dir|] == dir;
      Err("EEXIST")
    else if BlockedByFile(fs, dir) then Err("ENOTDIR")
    else
      var fs' := fs + map p | p in Prefixes(dir) :: Directory;
      assert forall k | 1 <= k <= |dir| :: dir[..k] in Prefixes(dir);
      Ok(fs')
  }

  /** `fs.promises.writeFile(p, content)`: the parent must be a directory and `p` must not be one. */
  function WriteFile(fs: FileSystem, p: Path, content: string): (r: Result<FileSystem>)
    ensures r.Ok? <==> |p| >= 1 && IsDirectory(fs, Dirname(p)) && !(p in fs && fs[p].Directory?)
    ensures r.Ok? ==> r.value == fs[p := File(content)]
  {
    if |p| == 0 then Err("EISDIR")
    else if !Exists(fs, Dirname(p)) then Err("ENOENT")
    else if !IsDirectory(fs, Dirname(p)) then Err("ENOTDIR")
    else if p in fs && fs[p].Directory? then Err("EISDIR")
    else Ok(fs[p := File(content)])
  }

  /** Creating directories keeps every entry inside a chain of directories. */
  lemma MkdirAllWellFormed(fs: FileSystem, dir: Path)
    requires WellFormed(fs)
    requires MkdirAll(fs, dir).Ok?
    ensures WellFormed(MkdirAll(fs, dir).value)
  {
    var fs' := MkdirAll(fs, dir).value;
    forall p | p in fs'
      ensures forall k | 0 <= k < |p| :: IsDirectory(fs', p[..k])
    {
      if p !in fs {
        var j :| 1 <= j <= |dir| && p == dir[..j];
        forall k | 0 <= k < |p|
          ensures IsDirectory(fs', p[..k])
        {
          assert p[..k] == dir[..k];
        }
      }
    }
  }

  /** Writing into an existing directory keeps every entry inside a chain of directories. */
  lemma WriteFileWellFormed(fs: FileSystem, p: Path, content: string)
    requires WellFormed(fs)
    requires WriteFile(fs, p, content).Ok?
    ensures WellFormed(WriteFile(fs, p, content).value)
  {
    var fs' := WriteFile(fs, p, content).value;
    forall q | q in fs'
      ensures forall k | 0 <= k < |q| :: IsDirectory(fs', q[..k])
    {
      forall k | 0 <= k < |q|
        ensures IsDirectory(fs', q[..k])
      {
        if q == p {
          if k < |p| - 1 {
            assert p[..k] == Dirname(p)[..k];
            assert IsDirectory(fs, Dirname(p)[..k]);
          } else {
            assert q[..k] == Dirname(p);
          }
        }
        assert q[..k] != p;
      }
    }
  }

  /** Once `mkdir -p` on the parent succeeds, writing the file succeeds unless a directory stands at its path. */
  lemma MkdirThenWrite(fs: FileSystem, p: Path, content: string)
    requires |p| >= 1
    requires MkdirAll(fs, Dirname(p)).Ok?
    requires !(p in fs && fs[p].Directory?)
    ensures WriteFile(MkdirAll(fs, Dirname(p)).value, p, content).Ok?
  {
    var fs' := MkdirAll(fs, Dirname(p)).value;
    assert Dirname(p)[..|Dirname(p)|] == Dirname(p);
    assert IsDirectory(fs', Dirname(p));
  }
}
