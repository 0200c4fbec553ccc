/**
 * The file system the recovery code works on: a map from absolute paths
 * (sequences of names) to entries, and a FileSystem object whose methods are
 * the library calls the code makes on it (pathlib, shutil, os).
 */
module Files {

  type Name = string
  type Path = seq<Name>

  /** A directory, or a regular file with its bytes, whether opening and
      reading it succeeds, and its modification time. */
  datatype Entry =
    | Dir(mtime: int)
    | File(data: seq<bv8>, readable: bool, mtime: int)

  type Fs = map<Path, Entry>

  function Parent(p: Path): Path
    requires p != []
  {
    p[..|p| - 1]
  }

  function Last(p: Path): Name
    requires p != []
  {
    p[|p| - 1]
  }

  predicate EndsWith(s: string, suffix: string) {
    |suffix| <= |s| && s[|s| - |suffix|..] == suffix
  }

  /** Every entry other than the root sits in a directory that exists. */
  ghost predicate WellFormed(m: Fs) {
    forall p | p in m && p != [] :: Parent(p) in m && m[Parent(p)].Dir?
  }

  /** No prefix of p, p included, is a regular file. */
  predicate NoFileOnPath(m: Fs, p: Path) {
    forall i | 0 <= i <= |p| && p[..i] in m :: m[p[..i]].Dir?
  }

  /** Nothing exists at or below p. */
  predicate Vacant(m: Fs, p: Path) {
    forall q | q in m :: !(p <= q)
  }

  /** m1 and m2 agree on root and on everything below it. */
  ghost predicate SameFrom(m1: Fs, m2: Fs, root: Path) {
    forall p | root <= p :: (p in m1 <==> p in m2) && (p in m1 ==> m1[p] == m2[p])
  }

  /** m1 and m2 agree everywhere except at and below root. */
  ghost predicate SameOutside(m1: Fs, m2: Fs, root: Path) {
    forall p | !(root <= p) :: (p in m1 <==> p in m2) && (p in m1 ==> m1[p] == m2[p])
  }

  /** The entries left once root and everything below it are deleted. */
  function Without(m: Fs, root: Path): (r: Fs)
    ensures forall p :: p in r <==> p in m && !(root <= p)
    ensures forall p | p in r :: r[p] == m[p]
  {
    map p | p in m && !(root <= p) :: m[p]
  }

  /** The entries left once everything strictly below root is deleted. */
  function WithoutBelow(m: Fs, root: Path): (r: Fs)
    ensures forall p :: p in r <==> p in m && !(root < p)
    ensures forall p | p in r :: r[p] == m[p]
  {
    map p | p in m && !(root < p) :: m[p]
  }

  /** A tree t of relative paths placed below dir. */
  function Graft(dir: Path, t: Fs): (g: Fs)
    ensures forall p :: p in g <==> dir <= p && p[|dir|..] in t
    ensures forall p | p in g :: g[p] == t[p[|dir|..]]
  {
    var keys := set rel | rel in t :: dir + rel;
    assert forall p :: p in keys <==> dir <= p && p[|dir|..] in t by {
      forall p ensures p in keys <==> dir <= p && p[|dir|..] in t {
        if dir <= p && p[|dir|..] in t {
          assert p == dir + p[|dir|..];
        }
      }
    }
    map p | p in keys :: t[p[|dir|..]]
  }

  /** The entries at and below root, addressed relative to root. */
  function Subtree(m: Fs, root: Path): (r: Fs)
    ensures forall rel :: rel in r <==> root + rel in m
    ensures forall rel | rel in r :: r[rel] == m[root + rel]
  {
    var keys := set p | p in m && root <= p :: p[|root|..];
    assert forall rel :: rel in keys <==> root + rel in m by {
      forall rel ensures rel in keys <==> root + rel in m {
        if root + rel in m {
          assert (root + rel)[|root|..] == rel;
        }
        if rel in keys {
          var p :| p in m && root <= p && p[|root|..] == rel;
          assert p == root + rel;
        }
      }
    }
    map rel | rel in keys :: m[root + rel]
  }

  /** Path.mkdir(parents=True) on a path that does not exist: p and its
      missing ancestors become directories stamped with the clock. */
  function MakeDirs(m: Fs, p: Path, now: int): (r: Fs)
    ensures forall q | q in m :: q in r && r[q] == m[q]
    ensures forall q | q in r && q !in m :: q <= p && q != [] && r[q] == Dir(now)
    ensures p != [] ==> p in r
    ensures p != [] && p !in m && Parent(p) in m ==> r == m[p := Dir(now)]
    decreases |p|
  {
    if p == [] || p in m then m else MakeDirs(m, Parent(p), now)[p := Dir(now)]
  }

  /** In a well-formed tree with no regular file on the way to p,
      mkdir(parents=True) leaves p and every ancestor of p a directory, and
      the tree stays well-formed: every new directory sits in a directory. */
  lemma {:induction false} MakeDirsCreatesPath(m: Fs, p: Path, now: int)
    requires WellFormed(m) && NoFileOnPath(m, p) && [] in m
    ensures var r := MakeDirs(m, p, now);
            && WellFormed(r)
            && forall i | 0 <= i <= |p| :: p[..i] in r && r[p[..i]].Dir?
    decreases |p|
  {
    var r := MakeDirs(m, p, now);
    if p == [] {
      assert p[..0] == [];
    } else if p in m {
      forall i | 0 <= i <= |p| ensures p[..i] in r && r[p[..i]].Dir? {
        if i < |p| {
          AncestorDir(m, p[..i], p);
        } else {
          assert p[..i] == p;
        }
      }
    } else {
      assert forall i | 0 <= i <= |Parent(p)| :: Parent(p)[..i] == p[..i];
      MakeDirsCreatesPath(m, Parent(p), now);
      var r0 := MakeDirs(m, Parent(p), now);
      assert Parent(p) == Parent(p)[..|Parent(p)|];
      assert p !in r0;
      forall i | 0 <= i <= |p| ensures p[..i] in r && r[p[..i]].Dir? {
        if i < |p| {
          assert p[..i] == Parent(p)[..i];
        } else {
          assert p[..i] == p;
        }
      }
    }
  }

  /** A scan that starts at root sees p: every path from root down to p's
      parent is a directory. */
  predicate Reachable(m: Fs, root: Path, p: Path) {
    root <= p && p in m && forall i | |root| <= i < |p| :: p[..i] in m && m[p[..i]].Dir?
  }

  /** Glob patterns the code uses: an exact name, or `*` followed by a suffix. */
  datatype Pattern = Named(name: Name) | Suffix(suffix: string)

  predicate Fits(pat: Pattern, n: Name) {
    match pat
    case Named(x) => n == x
    case Suffix(s) => EndsWith(n, s)
  }

  /** p is reported by root.rglob(pat) (recursive) or root.glob(pat). */
  predicate Hit(m: Fs, root: Path, pat: Pattern, recursive: bool, p: Path) {
    root < p && (recursive || |p| == |root| + 1) && Reachable(m, root, p) && Fits(pat, Last(p))
  }

  /** Path.glob / Path.rglob: the hits, in the order the scan reports them. */
  function Glob(m: Fs, root: Path, pat: Pattern, recursive: bool, walk: seq<Path>): (r: seq<Path>)
    ensures forall p :: p in r <==> p in walk && Hit(m, root, pat, recursive, p)
    ensures |r| <= |walk|
  {
    if walk == [] then []
    else (if Hit(m, root, pat, recursive, walk[0]) then [walk[0]] else [])
         + Glob(m, root, pat, recursive, walk[1..])
  }

  /** A scan of a and then b reports the matches in a first, in the order a
      lists them, then those in b: the glob keeps the scan's order. */
  lemma {:induction false} GlobAppend(m: Fs, root: Path, pat: Pattern, recursive: bool, a: seq<Path>, b: seq<Path>)
    ensures Glob(m, root, pat, recursive, a + b) ==
              Glob(m, root, pat, recursive, a) + Glob(m, root, pat, recursive, b)
    decreases |a|
  {
    if a == [] {
      assert a + b == b;
    } else {
      var h := if Hit(m, root, pat, recursive, a[0]) then [a[0]] else [];
      ConsAppend(a, b);
      GlobAppend(m, root, pat, recursive, a[1..], b);
      ConcatAssoc(h, Glob(m, root, pat, recursive, a[1..]), Glob(m, root, pat, recursive, b));
    }
  }

  lemma ConsAppend(a: seq<Path>, b: seq<Path>)
    requires a != []
    ensures (a + b)[0] == a[0] && (a + b)[1..] == a[1..] + b
  {
  }

  lemma SplitAt(s: seq<Path>, k: nat)
    requires k <= |s|
    ensures s == s[..k] + s[k..]
  {
  }

  lemma ConcatAssoc(x: seq<Path>, y: seq<Path>, z: seq<Path>)
    ensures x + (y + z) == (x + y) + z
  {
  }

  /** A scan that meets no hit gives an empty glob. */
  lemma {:induction false} GlobNone(m: Fs, root: Path, pat: Pattern, recursive: bool, walk: seq<Path>)
    requires forall p | p in walk :: !Hit(m, root, pat, recursive, p)
    ensures Glob(m, root, pat, recursive, walk) == []
  {
    if walk != [] {
      assert walk[0] in walk;
      GlobNone(m, root, pat, recursive, walk[1..]);
    }
  }

  /** The first match the glob reports is the first hit of the scan. */
  lemma GlobFirst(m: Fs, root: Path, pat: Pattern, recursive: bool, walk: seq<Path>, k: nat)
    requires k < |walk| && Hit(m, root, pat, recursive, walk[k])
    requires forall j | 0 <= j < k :: !Hit(m, root, pat, recursive, walk[j])
    ensures var r := Glob(m, root, pat, recursive, walk);
            r != [] && r[0] == walk[k]
  {
    SplitAt(walk, k);
    GlobAppend(m, root, pat, recursive, walk[..k], walk[k..]);
    forall p | p in walk[..k] ensures !Hit(m, root, pat, recursive, p) {
      var j :| 0 <= j < k && walk[..k][j] == p;
    }
    GlobNone(m, root, pat, recursive, walk[..k]);
  }

  /** The scan lists every entry strictly below root, as a directory walk
      that can list every directory does. */
  ghost predicate ScanCovers(walk: seq<Path>, m: Fs, root: Path) {
    forall p | p in m && root < p :: p in walk
  }

  /** Over a scan that lists every entry below root, the glob reports every
      hit, wherever it lies. */
  lemma GlobComplete(m: Fs, root: Path, pat: Pattern, recursive: bool, walk: seq<Path>)
    ensures ScanCovers(walk, m, root) ==>
              forall p :: p in Glob(m, root, pat, recursive, walk) <==> Hit(m, root, pat, recursive, p)
  {
  }

  /** A scan order that reports no path twice. */
  predicate Distinct(s: seq<Path>) {
    forall i, j | 0 <= i < j < |s| :: s[i] != s[j]
  }

  /** A glob over a scan that reports each path once reports each hit once. */
  lemma {:induction false} GlobDistinct(m: Fs, root: Path, pat: Pattern, recursive: bool, walk: seq<Path>)
    requires Distinct(walk)
    ensures Distinct(Glob(m, root, pat, recursive, walk))
  {
    if walk != [] {
      var rest := Glob(m, root, pat, recursive, walk[1..]);
      GlobDistinct(m, root, pat, recursive, walk[1..]);
      assert walk[0] !in walk[1..];
      assert walk[0] !in rest;
    }
  }

  /** The names Path.iterdir lists for dir. */
  function ChildNames(m: Fs, dir: Path): (r: set<Name>)
    ensures forall n :: n in r <==> dir + [n] in m
  {
    var names := set p | p in m && dir < p && |p| == |dir| + 1 :: p[|dir|];
    assert forall n :: n in names <==> dir + [n] in m by {
      forall n ensures n in names <==> dir + [n] in m {
        if n in names {
          var p :| p in m && dir < p && |p| == |dir| + 1 && p[|dir|] == n;
          assert p == dir + [n];
        }
      }
    }
    names
  }

  /** The entry directly below root on the way to p. */
  function Top(root: Path, p: Path): Path
    requires root < p
  {
    p[..|root| + 1]
  }

  /** Being at or below src + [n] is being below src with n first. */
  lemma ChildPrefix(src: Path, n: Name, p: Path)
    ensures src + [n] <= p <==> src < p && p[|src|] == n
    ensures src + [n] <= p ==> p[..|src| + 1] == src + [n]
  {
    if src < p && p[|src|] == n {
      assert p[..|src| + 1] == src + [n];
    }
  }

  /** Taking one element from names over to moved keeps their union and
      their disjointness. */
  lemma ShiftOne<T>(names: set<T>, moved: set<T>, n: T)
    requires n in names && names !! moved
    ensures (names - {n}) + (moved + {n}) == names + moved
    ensures (names - {n}) !! (moved + {n})
  {
  }

  /** Two states with the same subtree below root agree at every path at or
      below root. */
  lemma SameSubtreeAt(a: Fs, b: Fs, root: Path, p: Path)
    requires Subtree(a, root) == Subtree(b, root) && root <= p
    ensures (p in a <==> p in b) && (p in a ==> a[p] == b[p])
  {
    var rel := p[|root|..];
    assert root + rel == p;
    assert rel in Subtree(a, root) <==> rel in Subtree(b, root);
  }

  /** Maps with the same keys and the same values are equal. */
  lemma MapsEqual(l: Fs, r: Fs)
    requires forall p :: (p in l <==> p in r) && (p in l ==> l[p] == r[p])
    ensures l == r
  {
  }

  /** Two prefixes of one path are prefixes of each other. */
  lemma PrefixesComparable(a: Path, b: Path, p: Path)
    requires a <= p && b <= p
    ensures a <= b || b <= a
  {
    if |a| <= |b| {
      assert b[..|a|] == p[..|a|];
    } else {
      assert a[..|b|] == p[..|b|];
    }
  }

  lemma PrefixTrans(a: Path, b: Path, c: Path)
    requires a <= b && b <= c
    ensures a <= c
  {
    assert c[..|a|] == c[..|b|][..|a|];
  }

  /** Deleting what is already absent changes nothing. */
  lemma WithoutVacant(m: Fs, root: Path)
    requires Vacant(m, root)
    ensures Without(m, root) == m
  {
    MapsEqual(Without(m, root), m);
  }

  /** Deleting root from a map that differs from m only at and below root,
      where m has nothing, gives back m. */
  lemma WithoutOutside(m1: Fs, m: Fs, root: Path)
    requires SameOutside(m1, m, root) && Vacant(m, root)
    ensures Without(m1, root) == m
  {
    MapsEqual(Without(m1, root), m);
  }

  /** In a well-formed file system every ancestor of an entry exists. */
  lemma {:induction false} AncestorPresent(m: Fs, p: Path, q: Path)
    requires WellFormed(m) && q in m && p <= q
    ensures p in m
    decreases |q|
  {
    if p != q {
      assert p <= Parent(q);
      AncestorPresent(m, p, Parent(q));
    }
  }

  /** So a path that does not exist has nothing below it. */
  lemma AbsentIsVacant(m: Fs, p: Path)
    requires WellFormed(m) && p !in m
    ensures Vacant(m, p)
  {
    forall q | q in m && p <= q ensures false {
      AncestorPresent(m, p, q);
    }
  }

  /** Every strict ancestor of an entry is a directory. */
  lemma AncestorDir(m: Fs, a: Path, q: Path)
    requires WellFormed(m) && q in m && a < q
    ensures a in m && m[a].Dir?
  {
    var c := q[..|a| + 1];
    AncestorPresent(m, c, q);
    assert Parent(c) == a;
  }

  /** In a well-formed state every entry is reachable from each of its
      ancestors. */
  lemma WellFormedReachable(m: Fs, root: Path, p: Path)
    requires WellFormed(m) && p in m && root <= p
    ensures Reachable(m, root, p)
  {
    forall i | |root| <= i < |p| ensures p[..i] in m && m[p[..i]].Dir? {
      AncestorDir(m, p[..i], p);
    }
  }

  /** Deleting a subtree that does not meet p's ancestors commutes with mkdir -p. */
  lemma {:induction false} MakeDirsWithout(m: Fs, p: Path, root: Path, now: int)
    requires !(root <= p)
    ensures Without(MakeDirs(m, p, now), root) == MakeDirs(Without(m, root), p, now)
    decreases |p|
  {
    if p != [] && p !in m {
      assert !(root <= Parent(p));
      MakeDirsWithout(m, Parent(p), root, now);
    }
  }

  /** Reachability from root depends only on the entries at and below root. */
  lemma ReachableLocal(m1: Fs, m2: Fs, root: Path, p: Path)
    requires SameFrom(m1, m2, root)
    ensures Reachable(m1, root, p) <==> Reachable(m2, root, p)
  {
    if root <= p {
      forall i | |root| <= i <= |p| ensures root <= p[..i] {
        assert p[..i][..|root|] == root;
      }
    }
  }

  /** So do glob results. */
  lemma {:induction false} GlobLocal(m1: Fs, m2: Fs, root: Path, pat: Pattern, recursive: bool, walk: seq<Path>)
    requires SameFrom(m1, m2, root)
    ensures Glob(m1, root, pat, recursive, walk) == Glob(m2, root, pat, recursive, walk)
  {
    if walk != [] {
      ReachableLocal(m1, m2, root, walk[0]);
      GlobLocal(m1, m2, root, pat, recursive, walk[1..]);
    }
  }

  /** No regular file at or below src is unreadable. */
  predicate AllReadable(m: Fs, src: Path) {
    forall p | p in m && src <= p && m[p].File? :: m[p].readable
  }

  /** The relative entries shutil.copytree writes below its target: the
      directories and the readable files below src (copy2 keeps data, mode
      and mtime; copystat gives every copied directory its source's mtime). */
  function CopiedTree(m: Fs, src: Path): Fs {
    var t := Subtree(m, src);
    map rel | rel in t && rel != [] && (t[rel].Dir? || t[rel].readable) :: t[rel]
  }

  /** The entries after shutil.copytree(src, dst): dst and its missing
      ancestors are created (os.makedirs), dst takes src's mtime, and the
      copied tree hangs below it. */
  function Copied(m: Fs, src: Path, dst: Path, now: int): Fs
    requires src in m
  {
    MakeDirs(m, dst, now)[dst := Dir(m[src].mtime)] + Graft(dst, CopiedTree(m, src))
  }

  /** One path of the copy: dst + rel exists exactly when src + rel does and
      is a directory or a readable file, and then holds the same entry. */
  lemma CopiedAt(m: Fs, src: Path, dst: Path, now: int, rel: Path)
    requires src in m && m[src].Dir? && Vacant(m, dst)
    ensures dst + rel in Copied(m, src, dst, now) <==>
              src + rel in m && (rel == [] || m[src + rel].Dir? || m[src + rel].readable)
    ensures dst + rel in Copied(m, src, dst, now) ==>
              Copied(m, src, dst, now)[dst + rel] == m[src + rel]
  {
    assert (dst + rel)[|dst|..] == rel;
    if rel == [] {
      assert dst + rel == dst && src + rel == src;
    }
  }

  /** The copy below dst mirrors src, missing exactly the unreadable files;
      nothing that existed changes, and the only other new entries are
      dst's missing ancestors. When every file is readable the copy is exact. */
  lemma CopyLayout(m: Fs, src: Path, dst: Path, now: int)
    requires src in m && m[src].Dir? && Vacant(m, dst)
    ensures var r := Copied(m, src, dst, now);
            && (forall rel :: dst + rel in r <==>
                  src + rel in m && (rel == [] || m[src + rel].Dir? || m[src + rel].readable))
            && (forall rel | dst + rel in r :: r[dst + rel] == m[src + rel])
            && (forall p | p in m :: p in r && r[p] == m[p])
            && (forall p | p in r && p !in m :: dst <= p || (p < dst && r[p] == Dir(now)))
            && (AllReadable(m, src) ==> Subtree(r, dst) == Subtree(m, src))
  {
    var r := Copied(m, src, dst, now);
    forall rel
      ensures dst + rel in r <==>
                src + rel in m && (rel == [] || m[src + rel].Dir? || m[src + rel].readable)
      ensures dst + rel in r ==> r[dst + rel] == m[src + rel]
    {
      CopiedAt(m, src, dst, now, rel);
    }
    if AllReadable(m, src) {
      ExactCopy(m, src, dst, now);
    }
  }

  /** With every file readable, the tree below dst is the tree below src. */
  lemma ExactCopy(m: Fs, src: Path, dst: Path, now: int)
    requires src in m && m[src].Dir? && Vacant(m, dst) && AllReadable(m, src)
    ensures Subtree(Copied(m, src, dst, now), dst) == Subtree(m, src)
  {
    var r := Copied(m, src, dst, now);
    forall rel
      ensures rel in Subtree(r, dst) <==> rel in Subtree(m, src)
      ensures rel in Subtree(r, dst) ==> Subtree(r, dst)[rel] == Subtree(m, src)[rel]
    {
      CopiedAt(m, src, dst, now, rel);
      if src + rel in m && rel != [] && m[src + rel].File? {
        assert src <= src + rel;
      }
    }
    MapsEqual(Subtree(r, dst), Subtree(m, src));
  }

  /** The file system the code acts on. `walk` is the order in which the
      operating system's directory scans report paths, `undeletable` the
      files it refuses to unlink, and `now` the clock reading that every
      directory created during the run carries. */
  class FileSystem {
    var entries: Fs
    const walk: seq<Path>
    const undeletable: set<Path>
    const now: int

    constructor (entries: Fs, walk: seq<Path>, undeletable: set<Path>, now: int)
      ensures this.entries == entries && this.walk == walk
      ensures this.undeletable == undeletable && this.now == now
    {
      this.entries := entries;
      this.walk := walk;
      this.undeletable := undeletable;
      this.now := now;
    }

    /** Path.exists */
    function Exists(p: Path): bool
      reads this
    {
      p in entries
    }

    /** Path.is_dir */
    function IsDir(p: Path): bool
      reads this
    {
      p in entries && entries[p].Dir?
    }

    /** open(p).read(1) returns without raising. */
    method ReadFirst(p: Path) returns (ok: bool)
      ensures ok <==> p in entries && entries[p].File? && entries[p].readable
    {
      ok := p in entries && entries[p].File? && entries[p].readable;
    }

    /** shutil.rmtree on a directory. */
    method RemoveTree(root: Path)
      requires root in entries && entries[root].Dir?
      modifies this
      ensures entries == Without(old(entries), root)
    {
      entries := Without(entries, root);
    }

    /** Path.mkdir(parents=True) on a path that does not exist yet. */
    method Mkdir(p: Path)
      requires p !in entries && NoFileOnPath(entries, p)
      modifies this
      ensures entries == MakeDirs(old(entries), p, now)
      ensures WellFormed(old(entries)) && [] in old(entries) ==>
                && WellFormed(entries)
                && forall i | 0 <= i <= |p| :: p[..i] in entries && entries[p[..i]].Dir?
    {
      if WellFormed(entries) && [] in entries {
        MakeDirsCreatesPath(entries, p, now);
      }
      entries := MakeDirs(entries, p, now);
    }

    /** Path.unlink inside a try block: it succeeds on a regular file the
        operating system lets go of, and raises otherwise. */
    method Unlink(p: Path) returns (ok: bool)
      modifies this
      ensures ok <==> p in old(entries) && old(entries)[p].File? && p !in undeletable
      ensures entries == if ok then old(entries) - {p} else old(entries)
    {
      ok := p in entries && entries[p].File? && p !in undeletable;
      if ok {
        entries := entries - {p};
      }
    }

    /** shutil.move onto a path that does not exist: a rename of the subtree. */
    method Rename(src: Path, dst: Path)
      requires src in entries && Vacant(entries, dst) && !(src <= dst)
      modifies this
      ensures entries == Without(old(entries), src) + Graft(dst, Subtree(old(entries), src))
    {
      entries := Without(entries, src) + Graft(dst, Subtree(entries, src));
    }

    /** shutil.copytree(src, dst) on a directory src and a dst that does not
        exist: complete is false when some file could not be read, which
        copytree reports by raising shutil.Error after copying the rest. */
    method CopyTree(src: Path, dst: Path) returns (complete: bool)
      requires src in entries && entries[src].Dir?
      requires NoFileOnPath(entries, dst) && Vacant(entries, dst)
      requires !(src <= dst) && !(dst <= src)
      modifies this
      ensures complete <==> AllReadable(old(entries), src)
      ensures entries == Copied(old(entries), src, dst, now)
    {
      complete := AllReadable(entries, src);
      entries := Copied(entries, src, dst, now);
    }

    /** A tree of relative paths written below dir (what `restic restore`
        materialises in its target). */
    method WriteTree(dir: Path, t: Fs)
      modifies this
      ensures entries == old(entries) + Graft(dir, t)
    {
      entries := entries + Graft(dir, t);
    }
  }
}
