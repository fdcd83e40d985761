/**
 * The server's view of the file system: a map from clean absolute paths to
 * files and directories, with the three operations the sessions use —
 * os.MkdirAll for the parent directory of a received file, os.OpenFile
 * with O_WRONLY|O_CREATE|O_TRUNC, and os.Open plus Stat for a file to send.
 */
module FileSystem {
  import opened Wrappers
  import opened Bytes
  import opened Paths

  /** 0755, the permission MkdirAll is asked for. */
  const DIR_PERM: nat := 493
  /** What Stat reports as the size of a fresh directory (one ext4 block). */
  const NEW_DIR_SIZE: nat := 4096

  /**
   * A node's mode bits: the nine permission bits plus set-user-ID (04000),
   * set-group-ID (02000) and sticky (01000).
   */
  datatype Node = File(perm: nat, data: seq<byte>) | Directory(perm: nat, size: nat)

  type FileTree = map<Path, Node>

  datatype FsError = NotADirectory | IsADirectory | NotFound | AlreadyExists

  /** Storing twice under the same path keeps only the second node. */
  lemma UpdateTwice(fs: FileTree, p: Path, a: Node, b: Node)
    ensures fs[p := a][p := b] == fs[p := b]
  {
  }

  predicate IsDir(fs: FileTree, p: Path)
  {
    p in fs && fs[p].Directory?
  }

  /** What Stat reports as the size of a node. */
  function Size(node: Node): nat
  {
    match node
    case File(_, data) => |data|
    case Directory(_, size) => size
  }

  /** os.FileMode(mode): the int64 truncated to an unsigned 32-bit value (two's complement). */
  function FileModeOf(mode: int): (m: nat)
    ensures m < 0x1_0000_0000
    ensures 0 <= mode < 0x1_0000_0000 ==> m == mode
    ensures mode < 0 && -0x1_0000_0000 <= mode ==> m == mode + 0x1_0000_0000
  {
    mode % 0x1_0000_0000
  }

  /** Whether the bit of weight `w` (a power of two) is set in `m`. */
  predicate HasBit(m: nat, w: nat)
    requires w > 0
  {
    (m / w) % 2 == 1
  }

  /**
   * The mode os.OpenFile hands to the system for os.FileMode(mode): the nine
   * permission bits, and set-user-ID, set-group-ID and sticky taken from
   * FileMode's ModeSetuid (bit 23), ModeSetgid (bit 22) and ModeSticky
   * (bit 20). FileMode's other bits do not reach the system.
   */
  function OpenMode(mode: int): (p: nat)
    ensures p < 4096
    ensures p % 512 == FileModeOf(mode) % 512
    ensures HasBit(p, 2048) <==> HasBit(FileModeOf(mode), 0x80_0000)
    ensures HasBit(p, 1024) <==> HasBit(FileModeOf(mode), 0x40_0000)
    ensures HasBit(p, 512) <==> HasBit(FileModeOf(mode), 0x10_0000)
    ensures 0 <= mode < 512 ==> p == mode
  {
    var m := FileModeOf(mode);
    var setuid := if HasBit(m, 0x80_0000) then 2048 else 0;
    var setgid := if HasBit(m, 0x40_0000) then 1024 else 0;
    var sticky := if HasBit(m, 0x10_0000) then 512 else 0;
    setuid + setgid + sticky + m % 512
  }

  /** A negative mode wraps modulo 2^32, so "-1" asks for 07777: every permission and all three special bits. */
  lemma NegativeModeAll()
    ensures OpenMode(-1) == 4095
  {
  }

  /** The octal mode 040000755 carries ModeSetuid: the file is created 04755. */
  lemma SetuidMode()
    ensures OpenMode(0x80_01ED) == 0x9ED
  {
  }

  /**
   * os.Mkdir of the directory whose elements are `st`: it must not exist
   * yet and its parent must be a directory (the parent of "/a" is "/").
   */
  function Mkdir(fs: FileTree, st: seq<Path>): (r: Result<FileTree, FsError>)
    ensures r.Ok? <==> AbsPath(st) !in fs && (st != [] ==> IsDir(fs, AbsPath(st[..|st| - 1])))
    ensures r.Ok? ==> r.value == fs[AbsPath(st) := Directory(DIR_PERM, NEW_DIR_SIZE)]
  {
    var p := AbsPath(st);
    if p in fs then Err(AlreadyExists)
    else if st != [] && AbsPath(st[..|st| - 1]) !in fs then Err(NotFound)
    else if st != [] && !fs[AbsPath(st[..|st| - 1])].Directory? then Err(NotADirectory)
    else Ok(fs[p := Directory(DIR_PERM, NEW_DIR_SIZE)])
  }

  /** The directories MkdirAll may create for `st`: the path and its ancestors. */
  predicate IsAncestorOrSelf(q: Path, st: seq<Path>)
  {
    exists i :: 0 <= i <= |st| && q == AbsPath(st[..i])
  }

  /**
   * os.MkdirAll on a clean absolute path: success if it is already a
   * directory, failure if it is something else, otherwise create the parent
   * first (there is no parent step for a single element) and then the path.
   */
  function MkdirAll(fs: FileTree, st: seq<Path>): (r: Result<FileTree, FsError>)
    ensures r.Ok? ==> IsDir(r.value, AbsPath(st))
    ensures r.Ok? ==> forall q :: q in fs ==> q in r.value && r.value[q] == fs[q]
    ensures r.Ok? ==> forall q :: q in r.value && q !in fs ==>
              r.value[q] == Directory(DIR_PERM, NEW_DIR_SIZE) && IsAncestorOrSelf(q, st)
    ensures IsDir(fs, AbsPath(st)) ==> r == Ok(fs)
    decreases |st|
  {
    var p := AbsPath(st);
    if p in fs then
      (if fs[p].Directory? then Ok(fs) else Err(NotADirectory))
    else if |st| <= 1 then
      assert st[..|st|] == st;
      Mkdir(fs, st)
    else
      var parent := st[..|st| - 1];
      match MkdirAll(fs, parent)
      case Err(e) => Err(e)
      case Ok(fs1) =>
        var r := Mkdir(fs1, st);
        if r.Ok? then
          assert st[..|st|] == st;
          assert forall q :: IsAncestorOrSelf(q, parent) ==> IsAncestorOrSelf(q, st) by {
            forall q, i | 0 <= i <= |parent| && q == AbsPath(parent[..i])
              ensures IsAncestorOrSelf(q, st)
            {
              assert parent[..i] == st[..i];
            }
          }
          r
        else r
  }

  /**
   * MkdirAll fails only when the path or one of its ancestors is a file
   * (given that "/" is a directory); it creates nothing in that case.
   */
  lemma {:induction false} MkdirAllFailure(fs: FileTree, st: seq<Path>)
    requires IsDir(fs, ROOT) && AllNames(st) && MkdirAll(fs, st).Err?
    ensures exists i :: 0 < i <= |st| && AbsPath(st[..i]) in fs && fs[AbsPath(st[..i])].File?
    decreases |st|
  {
    var p := AbsPath(st);
    assert st[..|st|] == st;
    assert AbsPath([]) == ROOT;
    if p in fs {
      assert st != [];
    } else if |st| <= 1 {
      assert false;
    } else {
      var parent := st[..|st| - 1];
      if MkdirAll(fs, parent).Err? {
        MkdirAllFailure(fs, parent);
        var i :| 0 < i <= |parent| && AbsPath(parent[..i]) in fs && fs[AbsPath(parent[..i])].File?;
        assert parent[..i] == st[..i];
      } else {
        forall i | 0 <= i <= |parent| ensures AbsPath(parent[..i]) != p {
          assert parent[..i] == st[..i];
          AbsPathLonger(st, i);
        }
        assert false;
      }
    }
  }

  /** The permissions of a file opened for writing: an existing file keeps its own, a new one gets `perm`. */
  function Keep(fs: FileTree, p: Path, perm: nat): nat
  {
    if p in fs then fs[p].perm else perm
  }

  /**
   * os.OpenFile(p, O_WRONLY|O_CREATE|O_TRUNC, perm): a directory cannot be
   * opened for writing; an existing file is emptied and keeps its
   * permissions; a new file needs an existing parent directory and gets
   * `perm`.
   */
  function CreateTrunc(fs: FileTree, p: Path, perm: nat): (r: Result<FileTree, FsError>)
    ensures r.Ok? <==> (p in fs ==> fs[p].File?) && (p !in fs ==> IsDir(fs, Dir(p)))
    ensures r.Ok? ==> r.value == fs[p := File(Keep(fs, p, perm), [])]
  {
    if p in fs then
      (if fs[p].Directory? then Err(IsADirectory) else Ok(fs[p := File(fs[p].perm, [])]))
    else if IsDir(fs, Dir(p)) then Ok(fs[p := File(perm, [])])
    else Err(NotFound)
  }
}
