/**
 * Lexical path handling of Go's path/filepath on a '/'-separated system
 * (Clean, Join, Base, Dir) and the server's containment check, which is a
 * plain byte-prefix test of the cleaned path against the root directory.
 */
module Paths {
  import opened Wrappers
  import opened Bytes

  type Path = seq<byte>

  const ROOT: Path := [SLASH]
  const CUR: Path := [DOT]
  const PARENT: Path := [DOT, DOT]

  predicate IsRooted(p: Path)
  {
    |p| > 0 && p[0] == SLASH
  }

  /** A path element that survives Clean in a rooted path. */
  predicate IsName(seg: Path)
  {
    seg != [] && seg != CUR && seg != PARENT && SLASH !in seg
  }

  predicate AllNames(st: seq<Path>)
  {
    forall i :: 0 <= i < |st| ==> IsName(st[i])
  }

  /** A non-empty element without separators (a name or ".."). */
  predicate AllElements(st: seq<Path>)
  {
    forall i :: 0 <= i < |st| ==> st[i] != [] && SLASH !in st[i]
  }

  predicate NoSlashes(segs: seq<Path>)
  {
    forall i :: 0 <= i < |segs| ==> SLASH !in segs[i]
  }

  function Segments(p: Path): (segs: seq<Path>)
    ensures |segs| >= 1 && NoSlashes(segs)
  {
    Split(p, SLASH)
  }

  /**
   * One element of filepath.Clean's rewriting: empty and "." elements
   * vanish, ".." removes the element before it unless that is itself "..",
   * and a ".." with nothing before it is dropped in a rooted path and kept
   * in a relative one; any other element is appended.
   */
  function Push(stack: seq<Path>, s: Path, rooted: bool): (r: seq<Path>)
    ensures AllElements(stack) && SLASH !in s ==> AllElements(r)
    ensures rooted && AllNames(stack) && SLASH !in s ==> AllNames(r)
  {
    if s == [] || s == CUR then stack
    else if s == PARENT then
      (if |stack| > 0 && stack[|stack| - 1] != PARENT then stack[..|stack| - 1]
       else if rooted then stack
       else stack + [s])
    else stack + [s]
  }

  /** filepath.Clean's rewriting of a whole element list, left to right. */
  function Normalize(stack: seq<Path>, segs: seq<Path>, rooted: bool): (r: seq<Path>)
    ensures AllElements(stack) && NoSlashes(segs) ==> AllElements(r)
    ensures rooted && AllNames(stack) && NoSlashes(segs) ==> AllNames(r)
    decreases |segs|
  {
    if segs == [] then stack
    else Normalize(Push(stack, segs[0], rooted), segs[1..], rooted)
  }

  /** The rooted path whose elements are `st`. */
  function AbsPath(st: seq<Path>): (p: Path)
    ensures IsRooted(p)
  {
    [SLASH] + Join(st, SLASH)
  }

  /** filepath.Clean */
  function Clean(p: Path): (r: Path)
    ensures r != []
    ensures IsRooted(p) ==> IsRooted(r)
  {
    var rooted := IsRooted(p);
    var st := Normalize([], Segments(p), rooted);
    if rooted then AbsPath(st)
    else if st == [] then CUR
    else Join(st, SLASH)
  }

  /** The element list of a rooted path after cleaning. */
  function Stack(p: Path): (st: seq<Path>)
    ensures AllNames(st)
  {
    Normalize([], Segments(p), true)
  }

  /** A rooted path that Clean leaves unchanged, such as the server's root. */
  predicate IsCleanAbs(p: Path)
  {
    IsRooted(p) && Clean(p) == p
  }

  /** filepath.Join of two elements: empty elements are skipped, the result cleaned. */
  function JoinPath(base: Path, elem: Path): (r: Path)
    ensures IsRooted(base) ==> IsRooted(r)
  {
    if base != [] then Clean(base + [SLASH] + elem)
    else if elem != [] then Clean(elem)
    else []
  }

  lemma {:induction false} NormalizeAppend(stack: seq<Path>, a: seq<Path>, b: seq<Path>, rooted: bool)
    ensures Normalize(stack, a + b, rooted) == Normalize(Normalize(stack, a, rooted), b, rooted)
    decreases |a|
  {
    if a == [] {
      assert a + b == b;
    } else {
      assert (a + b)[0] == a[0] && (a + b)[1..] == a[1..] + b;
      NormalizeAppend(Push(stack, a[0], rooted), a[1..], b, rooted);
    }
  }

  /** Names are pushed onto the stack as they are. */
  lemma {:induction false} NormalizeNames(stack: seq<Path>, names: seq<Path>, rooted: bool)
    requires AllNames(names)
    ensures Normalize(stack, names, rooted) == stack + names
    decreases |names|
  {
    if names != [] {
      NormalizeNames(stack + [names[0]], names[1..], rooted);
      assert stack + [names[0]] + names[1..] == stack + names;
    }
  }

  /** The element list of a rooted path, as Split sees it. */
  lemma SegmentsAbs(st: seq<Path>)
    requires AllNames(st)
    ensures Segments(AbsPath(st)) == if st == [] then [[], []] else [[]] + st
  {
    var p := AbsPath(st);
    assert p[0] == SLASH && p[1..] == Join(st, SLASH);
    assert Split(p, SLASH) == [[]] + Split(Join(st, SLASH), SLASH);
    if st != [] {
      SplitJoin(st, SLASH);
    }
  }

  lemma NormalizeAbs(st: seq<Path>, stack: seq<Path>)
    requires AllNames(st)
    ensures Normalize(stack, Segments(AbsPath(st)), true) == stack + st
  {
    SegmentsAbs(st);
    var segs := Segments(AbsPath(st));
    assert segs[0] == [] && Push(stack, [], true) == stack;
    if st == [] {
      var one: seq<Path> := [[]];
      assert segs[1..] == one && one[1..] == [];
      assert Normalize(stack, segs, true) == Normalize(stack, [[]], true);
      assert Normalize(stack, [[]], true) == Normalize(stack, [], true);
      assert stack + st == stack;
    } else {
      assert segs[1..] == st;
      NormalizeNames(stack, st, true);
    }
  }

  /** A rooted path built from names is clean, and those names are its elements. */
  lemma AbsPathIsClean(st: seq<Path>)
    requires AllNames(st)
    ensures Stack(AbsPath(st)) == st
    ensures IsCleanAbs(AbsPath(st))
  {
    NormalizeAbs(st, []);
  }

  /** filepath.Clean is idempotent on rooted paths. */
  lemma CleanIdempotent(p: Path)
    requires IsRooted(p)
    ensures Clean(Clean(p)) == Clean(p)
    ensures IsCleanAbs(Clean(p))
  {
    AbsPathIsClean(Stack(p));
  }

  /** A clean rooted path is "/" or has only names as elements: no empty, "." or ".." element. */
  lemma CleanHasOnlyNames(p: Path)
    requires IsRooted(p)
    ensures Clean(p) == ROOT || forall i :: 1 <= i < |Segments(Clean(p))| ==> IsName(Segments(Clean(p))[i])
  {
    SegmentsAbs(Stack(p));
  }

  /** A clean rooted path is the rooted path of its own elements. */
  lemma CleanAbsShape(p: Path)
    requires IsCleanAbs(p)
    ensures p == AbsPath(Stack(p))
  {
  }

  /** Cleaning "base/q" for a clean rooted base continues from base's elements. */
  lemma CleanUnder(st: seq<Path>, q: Path)
    requires AllNames(st)
    ensures Clean(AbsPath(st) + [SLASH] + q) == AbsPath(Normalize(st, Segments(q), true))
  {
    var a := AbsPath(st);
    var full := a + [SLASH] + q;
    assert IsRooted(full);
    SplitAppend(a, q, SLASH);
    var sa, sq := Segments(a), Segments(q);
    assert Segments(full) == sa + sq;
    NormalizeAppend([], sa, sq, true);
    NormalizeAbs(st, []);
    assert [] + st == st;
    assert Normalize([], Segments(full), true) == Normalize(st, sq, true);
  }

  datatype PathError = Escape

  /**
   * The resolution done at every path-producing step: Join onto `base`,
   * Clean, and accept only if the root directory is a byte prefix of the
   * result.
   */
  function Resolve(root: Path, base: Path, p: Path): (r: Result<Path, PathError>)
    requires IsRooted(base)
    ensures r.Ok? ==> IsCleanAbs(r.value) && HasPrefix(r.value, root)
    ensures r.Ok? ==> r.value == Clean(base + [SLASH] + p)
    ensures r.Ok? <==> HasPrefix(Clean(base + [SLASH] + p), root)
  {
    var full := Clean(JoinPath(base, p));
    CleanIdempotent(base + [SLASH] + p);
    if HasPrefix(full, root) then Ok(full) else Err(Escape)
  }

  /** The target of "rcp -t": an empty or "." target means "/" before resolution. */
  function ResolveTarget(root: Path, target: Path): (r: Result<Path, PathError>)
    requires IsRooted(root)
  {
    Resolve(root, root, if target == [] || target == CUR then ROOT else target)
  }

  /** "", "." and "/" all name the root directory itself, with or without the substitution. */
  lemma TargetAliases(root: Path)
    requires IsCleanAbs(root)
    ensures ResolveTarget(root, []) == Ok(root)
    ensures ResolveTarget(root, CUR) == Ok(root)
    ensures ResolveTarget(root, ROOT) == Ok(root)
    ensures Resolve(root, root, []) == Ok(root) && Resolve(root, root, CUR) == Ok(root)
  {
    var st := Stack(root);
    CleanAbsShape(root);
    assert Split(ROOT, SLASH) == [[], []] by {
      assert ROOT == [] + [SLASH] + [];
      SplitAppend([], [], SLASH);
    }
    CleanUnder(st, ROOT);
    SplitNoSep(CUR, SLASH);
    CleanUnder(st, CUR);
    CleanUnder(st, []);
    assert root + [SLASH] + [] == root + [SLASH];
  }

  /** The names of a segment list, dropping empty and "." elements. */
  function Names(segs: seq<Path>): (r: seq<Path>)
    requires NoSlashes(segs)
    requires forall i :: 0 <= i < |segs| ==> segs[i] != PARENT
    ensures AllNames(r)
    decreases |segs|
  {
    if segs == [] then []
    else if segs[0] == [] || segs[0] == CUR then Names(segs[1..])
    else [segs[0]] + Names(segs[1..])
  }

  predicate NoParent(p: Path)
  {
    forall i :: 0 <= i < |Segments(p)| ==> Segments(p)[i] != PARENT
  }

  lemma {:induction false} NormalizeWithoutParent(stack: seq<Path>, segs: seq<Path>)
    requires NoSlashes(segs)
    requires forall i :: 0 <= i < |segs| ==> segs[i] != PARENT
    ensures Normalize(stack, segs, true) == stack + Names(segs)
    decreases |segs|
  {
    if segs == [] {
      assert stack + [] == stack;
    } else {
      var s0, rest := segs[0], segs[1..];
      assert NoSlashes(rest) && forall i :: 0 <= i < |rest| ==> rest[i] != PARENT by {
        forall i | 0 <= i < |rest| ensures SLASH !in rest[i] && rest[i] != PARENT {
          assert rest[i] == segs[i + 1];
        }
      }
      assert s0 != PARENT;
      if s0 == [] || s0 == CUR {
        assert Push(stack, s0, true) == stack;
        assert Names(segs) == Names(rest);
        NormalizeWithoutParent(stack, rest);
      } else {
        assert Push(stack, s0, true) == stack + [s0];
        assert Names(segs) == [s0] + Names(rest);
        NormalizeWithoutParent(stack + [s0], rest);
        assert stack + [s0] + Names(rest) == stack + Names(segs);
      }
    }
  }

  lemma AbsPathAppend(a: seq<Path>, b: seq<Path>)
    ensures AbsPath(a + b) == if a == [] then AbsPath(b) else if b == [] then AbsPath(a) else AbsPath(a) + AbsPath(b)
  {
    if a == [] {
      assert a + b == b;
    } else if b == [] {
      assert a + b == a;
    } else {
      JoinAppend(a, b, SLASH);
    }
  }

  /**
   * A client path with no ".." element resolves under the root: an
   * absolute client path such as "/etc/x" is re-rooted at the root
   * directory instead of being taken literally.
   */
  lemma ClientPathRerooted(root: Path, p: Path)
    requires IsCleanAbs(root) && IsRooted(p) && NoParent(p)
    ensures Resolve(root, root, p) == Ok(if Clean(p) == ROOT then root
                                         else if root == ROOT then Clean(p)
                                         else root + Clean(p))
  {
    var st := Stack(root);
    CleanAbsShape(root);
    var segs := Segments(p);
    NormalizeWithoutParent(st, segs);
    NormalizeWithoutParent([], segs);
    CleanUnder(st, p);
    CleanIdempotent(root + [SLASH] + p);
    var names := Names(segs);
    assert Clean(p) == AbsPath(Normalize([], segs, true));
    assert [] + names == names;
    assert Clean(p) == AbsPath(names);
    AbsPathAppend(st, names);
    if names == [] {
      assert st + names == st;
    } else {
      assert AbsPath(names) != ROOT by {
        assert |Join(names, SLASH)| >= |names[0]| by { JoinFirst(names); }
      }
    }
    if st == [] {
      assert root == ROOT;
    } else {
      assert root != ROOT by { JoinFirst(st); }
    }
    assert Clean(root + [SLASH] + p) == AbsPath(st + names);
    var r := if Clean(p) == ROOT then root else if root == ROOT then Clean(p) else root + Clean(p);
    assert HasPrefix(r, root) by {
      if Clean(p) != ROOT && root != ROOT {
        assert r[..|root|] == root;
      }
    }
    ResolveAccepts(root, root, p, r);
  }

  lemma JoinFirst(st: seq<Path>)
    requires |st| >= 1
    ensures HasPrefix(Join(st, SLASH), st[0])
  {
  }

  /**
   * The containment check accepts siblings of the root: "../<last><x>"
   * resolves to root + x, which has root as a byte prefix and is accepted,
   * although it is neither the root nor inside it.
   */
  lemma SiblingAccepted(root: Path, x: Path)
    requires IsCleanAbs(root) && root != ROOT
    requires x != [] && SLASH !in x
    ensures var st := Stack(root);
            Resolve(root, root, PARENT + [SLASH] + st[|st| - 1] + x) == Ok(root + x)
    ensures root + x != root && !HasPrefix(root + x, root + [SLASH])
  {
    var st := Stack(root);
    SiblingClean(root, x);
    var p := PARENT + [SLASH] + st[|st| - 1] + x;
    assert HasPrefix(root + x, root) by {
      assert (root + x)[..|root|] == root;
    }
    ResolveAccepts(root, root, p, root + x);
    BesideRoot(root, x);
    assert Resolve(root, root, p) == Ok(root + x);
  }

  /** Resolve accepts a cleaned path that has the root as a byte prefix. */
  lemma ResolveAccepts(root: Path, base: Path, p: Path, r: Path)
    requires IsRooted(base) && Clean(base + [SLASH] + p) == r && HasPrefix(r, root)
    ensures Resolve(root, base, p) == Ok(r)
  {
    CleanIdempotent(base + [SLASH] + p);
  }

  /** root + x, for a non-empty x that does not start with '/', is neither root nor under it. */
  lemma BesideRoot(root: Path, x: Path)
    requires x != [] && x[0] != SLASH
    ensures root + x != root && !HasPrefix(root + x, root + [SLASH])
  {
    assert (root + x)[|root|] == x[0];
  }

  /** The cleaning step of SiblingAccepted. */
  lemma SiblingClean(root: Path, x: Path)
    requires IsCleanAbs(root) && root != ROOT
    requires x != [] && SLASH !in x
    ensures var st := Stack(root);
            st != [] && Clean(root + [SLASH] + (PARENT + [SLASH] + st[|st| - 1] + x)) == root + x
  {
    var st := Stack(root);
    CleanAbsShape(root);
    assert st != [];
    var last := st[|st| - 1];
    var p := PARENT + [SLASH] + last + x;
    SiblingSegments(last, x);
    SiblingNormalize(st, last + x);
    CleanUnder(st, p);
    CleanIdempotent(root + [SLASH] + p);
    SiblingPath(st, x);
  }

  lemma SiblingSegments(last: Path, x: Path)
    requires IsName(last) && x != [] && SLASH !in x
    ensures Segments(PARENT + [SLASH] + last + x) == [PARENT, last + x]
    ensures IsName(last + x)
  {
    var p := PARENT + [SLASH] + last + x;
    assert p == PARENT + [SLASH] + (last + x);
    SplitAppend(PARENT, last + x, SLASH);
    SplitNoSep(PARENT, SLASH);
    assert SLASH !in last + x;
    SplitNoSep(last + x, SLASH);
  }

  lemma {:induction false} SiblingNormalize(st: seq<Path>, y: Path)
    requires AllNames(st) && st != [] && IsName(y)
    ensures Normalize(st, [PARENT, y], true) == st[..|st| - 1] + [y]
  {
    var n := |st|;
    var tail: seq<Path> := [y];
    assert [PARENT, y][1..] == tail && tail[1..] == [];
    assert Push(st, PARENT, true) == st[..n - 1];
    assert Normalize(st, [PARENT, y], true) == Normalize(st[..n - 1], tail, true);
    assert Push(st[..n - 1], y, true) == st[..n - 1] + tail;
    assert Normalize(st[..n - 1], tail, true) == Normalize(st[..n - 1] + tail, [], true);
  }

  lemma SiblingPath(st: seq<Path>, x: Path)
    requires st != []
    ensures AbsPath(st[..|st| - 1] + [st[|st| - 1] + x]) == AbsPath(st) + x
  {
    var n := |st|;
    var a := st[..n - 1];
    var last := st[n - 1];
    assert st == a + [last];
    AbsPathAppend(a, [last]);
    AbsPathAppend(a, [last + x]);
  }

  /** ".." from the root's own directory is refused (the parent is shorter than the root). */
  lemma ParentRejected(root: Path)
    requires IsCleanAbs(root) && root != ROOT
    ensures Resolve(root, root, PARENT).Err?
  {
    var st := Stack(root);
    CleanAbsShape(root);
    ParentClean(st);
    AbsPathLonger(st, |st| - 1);
    assert !HasPrefix(Clean(root + [SLASH] + PARENT), root);
  }

  /** Cleaning "<dir>/.." drops the last element. */
  lemma ParentClean(st: seq<Path>)
    requires AllNames(st) && st != []
    ensures Clean(AbsPath(st) + [SLASH] + PARENT) == AbsPath(st[..|st| - 1])
  {
    SplitNoSep(PARENT, SLASH);
    assert [PARENT][1..] == [];
    assert Normalize(st, [PARENT], true) == st[..|st| - 1];
    CleanUnder(st, PARENT);
  }

  /** A proper prefix of an element list names a shorter path. */
  lemma AbsPathLonger(st: seq<Path>, i: nat)
    requires AllNames(st) && i < |st|
    ensures |AbsPath(st[..i])| < |AbsPath(st)|
  {
    JoinFirst(st);
    assert IsName(st[0]);
    if i > 0 {
      assert st == st[..i] + st[i..];
      AbsPathAppend(st[..i], st[i..]);
    }
  }

  /** filepath.Base's trailing-separator removal. */
  function TrimTrailingSlashes(p: Path): (r: Path)
    ensures |r| <= |p| && r == p[..|r|]
    ensures r == [] || r[|r| - 1] != SLASH
    decreases |p|
  {
    if p != [] && p[|p| - 1] == SLASH then TrimTrailingSlashes(p[..|p| - 1]) else p
  }

  /** Index of the last separator of `p`, or -1 when it has none. */
  function LastSlash(p: Path): (i: int)
    ensures -1 <= i < |p|
    ensures i >= 0 ==> p[i] == SLASH
    ensures forall j :: i < j < |p| ==> p[j] != SLASH
    decreases |p|
  {
    if p == [] then -1
    else if p[|p| - 1] == SLASH then |p| - 1
    else LastSlash(p[..|p| - 1])
  }

  /** filepath.Base */
  function Base(p: Path): (r: Path)
    ensures r != []
  {
    if p == [] then CUR
    else
      var q := TrimTrailingSlashes(p);
      if q == [] then ROOT else q[LastSlash(q) + 1..]
  }

  /** filepath.Dir: Clean of everything up to and including the last separator. */
  function Dir(p: Path): (r: Path)
    ensures IsRooted(p) ==> IsRooted(r)
  {
    Clean(p[..LastSlash(p) + 1])
  }

  /** The prefix that Dir keeps: everything before the last element, or "" for a single element. */
  function Front(st: seq<Path>): Path
    requires st != []
  {
    if |st| == 1 then [] else AbsPath(st[..|st| - 1])
  }

  /** The last separator of a clean rooted path sits just before its last element. */
  lemma LastSlashAbs(st: seq<Path>)
    requires AllNames(st) && st != []
    ensures AbsPath(st) == Front(st) + [SLASH] + st[|st| - 1]
    ensures LastSlash(AbsPath(st)) == |Front(st)|
  {
    var n := |st|;
    var a := st[..n - 1];
    var last := st[n - 1];
    assert st == a + [last];
    AbsPathAppend(a, [last]);
    var front := Front(st);
    var p := AbsPath(st);
    assert p == front + [SLASH] + last;
    var i := LastSlash(p);
    assert p[|front|] == SLASH;
    assert forall j :: |front| < j < |p| ==> p[j] == last[j - |front| - 1];
  }

  /** Base of a clean rooted path other than "/" is its last element. */
  lemma {:induction false} BaseAbs(st: seq<Path>)
    requires AllNames(st) && st != []
    ensures Base(AbsPath(st)) == st[|st| - 1]
  {
    LastSlashAbs(st);
    var p := AbsPath(st);
    var last := st[|st| - 1];
    var front := Front(st);
    assert IsName(last);
    assert p[|p| - 1] == last[|last| - 1];
    assert p[|p| - 1] != SLASH;
    assert TrimTrailingSlashes(p) == p;
    assert Base(p) == p[|front| + 1..];
  }

  /** Dir of a clean rooted path other than "/" is the path without its last element. */
  lemma DirAbs(st: seq<Path>)
    requires AllNames(st) && st != []
    ensures Dir(AbsPath(st)) == AbsPath(st[..|st| - 1])
  {
    LastSlashAbs(st);
    var p := AbsPath(st);
    var front := Front(st);
    assert p[..|front| + 1] == front + [SLASH];
    var a := st[..|st| - 1];
    if a == [] {
      NormalizeAbs([], []);
      assert AbsPath([]) == ROOT;
      assert Clean(ROOT) == AbsPath([]);
    } else {
      CleanUnder(a, []);
      assert front + [SLASH] == AbsPath(a) + [SLASH] + [];
      assert Segments([]) == [[]];
      var one: seq<Path> := [[]];
      assert Normalize(a, one, true) == Normalize(a, [], true);
    }
  }
}
