/**
 * The recovery orchestrator, restore_latest_clean_baseline: list the
 * baseline snapshots, try them newest first, restore each into its own
 * staging directory, trust the first one whose data root holds a readable
 * critical file, and promote that one into the restore directory.
 */
module Recovery {
  import opened Wrappers
  import opened Files
  import opened Restic

  /** The folder name searched for in a staged restore. */
  const DataRootName: Name := "victim_data"

  /** The critical file, relative to the data root. */
  const CriticalFile: Path := ["docs", "report_Q1.txt"]

  /** What trying one candidate comes to: the reason it is skipped, or the
      data root that passed the trust gate. */
  datatype Verdict =
    | RestoreFailed
    | NoDataRoot
    | CriticalMissing
    | CriticalUnreadable
    | Trusted(dataRoot: Path)

  /** The checks on a restore staged below dir: the FIRST data root the scan
      reports (not the deepest) must hold the critical file, and opening it
      and reading one character must succeed (an empty file passes). */
  function Inspect(m: Fs, dir: Path, walk: seq<Path>): Verdict {
    var roots := Glob(m, dir, Named(DataRootName), true, walk);
    if roots == [] then NoDataRoot
    else
      var critical := roots[0] + CriticalFile;
      if critical !in m then CriticalMissing
      else if !(m[critical].File? && m[critical].readable) then CriticalUnreadable
      else Trusted(roots[0])
  }

  /** A restore is trusted only through a data root found below dir that
      holds a readable critical file; no data root is reported exactly when
      the scan meets none, and, over a scan that lists everything below dir,
      exactly when there is none at all. */
  lemma InspectVerdict(m: Fs, dir: Path, walk: seq<Path>)
    ensures Inspect(m, dir, walk) == NoDataRoot <==>
              forall p | p in walk :: !Hit(m, dir, Named(DataRootName), true, p)
    ensures ScanCovers(walk, m, dir) ==>
              (Inspect(m, dir, walk) == NoDataRoot <==> forall p :: !Hit(m, dir, Named(DataRootName), true, p))
    ensures Inspect(m, dir, walk).Trusted? ==>
              var d := Inspect(m, dir, walk).dataRoot;
              && Hit(m, dir, Named(DataRootName), true, d)
              && d + CriticalFile in m && m[d + CriticalFile].File? && m[d + CriticalFile].readable
    ensures Inspect(m, dir, walk) != RestoreFailed
    ensures forall k | 0 <= k < |walk| && FirstDataRootAt(m, dir, walk, k) ::
              var critical := walk[k] + CriticalFile;
              && (Inspect(m, dir, walk) == Trusted(walk[k]) <==>
                    critical in m && m[critical].File? && m[critical].readable)
              && (Inspect(m, dir, walk) == CriticalMissing <==> critical !in m)
              && (Inspect(m, dir, walk) == CriticalUnreadable <==>
                    critical in m && !(m[critical].File? && m[critical].readable))
  {
    var roots := Glob(m, dir, Named(DataRootName), true, walk);
    GlobComplete(m, dir, Named(DataRootName), true, walk);
    if roots != [] {
      assert roots[0] in roots;
    }
    forall k | 0 <= k < |walk| && FirstDataRootAt(m, dir, walk, k)
      ensures roots != [] && roots[0] == walk[k]
    {
      GlobFirst(m, dir, Named(DataRootName), true, walk, k);
    }
  }

  /** walk[k] is the first data root the scan of dir reports. */
  predicate FirstDataRootAt(m: Fs, dir: Path, walk: seq<Path>, k: nat)
    requires k < |walk|
  {
    && Hit(m, dir, Named(DataRootName), true, walk[k])
    && forall j | 0 <= j < k :: !Hit(m, dir, Named(DataRootName), true, walk[j])
  }

  /** The staging directory's subtree once the tree t is restored into it. */
  function Staged(dir: Path, t: Fs, now: int): Fs {
    Graft(dir, t)[dir := Dir(now)]
  }

  /** The verdict on snapshot sid, staged in its own directory below tmpRoot. */
  function Attempt(repo: Repository, tmpRoot: Path, sid: SnapshotId, walk: seq<Path>, now: int): Verdict {
    if sid !in repo.restorable then RestoreFailed
    else
      var dir := tmpRoot + [sid];
      Inspect(Staged(dir, repo.restorable[sid], now), dir, walk)
  }

  /** The candidates, in the order they are tried. */
  function Candidates(repo: Repository): seq<Snapshot> {
    NewestFirst(Baselines(repo.snapshots))
  }

  /** The index of the first candidate at or after from that is trusted, or
      |cands| when there is none. */
  function FirstTrusted(cands: seq<Snapshot>, from: nat, repo: Repository, tmpRoot: Path,
                        walk: seq<Path>, now: int): (k: nat)
    requires from <= |cands|
    ensures from <= k <= |cands|
    ensures k < |cands| ==> Attempt(repo, tmpRoot, cands[k].id, walk, now).Trusted?
    ensures forall j | from <= j < k :: !Attempt(repo, tmpRoot, cands[j].id, walk, now).Trusted?
    decreases |cands| - from
  {
    if from == |cands| || Attempt(repo, tmpRoot, cands[from].id, walk, now).Trusted? then from
    else FirstTrusted(cands, from + 1, repo, tmpRoot, walk, now)
  }

  /** The snapshot id restore_latest_clean_baseline promotes, if any. */
  function Recover(repo: Repository, tmpRoot: Path, walk: seq<Path>, now: int): Option<SnapshotId> {
    if !repo.listable then None
    else
      var cands := Candidates(repo);
      var k := FirstTrusted(cands, 0, repo, tmpRoot, walk, now);
      if k < |cands| then Some(cands[k].id) else None
  }

  /** The file system after the staged tree t is promoted: the old restore
      directory is gone, a fresh one (with any missing ancestors) is made,
      and it holds exactly t. */
  function Promoted(m: Fs, restoreDir: Path, t: Fs, now: int): Fs {
    MakeDirs(Without(m, restoreDir), restoreDir, now) + Graft(restoreDir, t)
  }

  /** Recovery picks a trusted baseline exactly when there is one: the
      listing succeeded and some baseline's staged restore passes the trust
      gate. */
  lemma {:induction false} RecoverSucceedsIffSomeTrusted(repo: Repository, tmpRoot: Path, walk: seq<Path>, now: int)
    ensures Recover(repo, tmpRoot, walk, now).Some? <==>
            repo.listable &&
            exists x | x in Baselines(repo.snapshots) :: Attempt(repo, tmpRoot, x.id, walk, now).Trusted?
  {
    if repo.listable {
      var cands := Candidates(repo);
      var k := FirstTrusted(cands, 0, repo, tmpRoot, walk, now);
      NewestFirstIsPermutation(Baselines(repo.snapshots));
      if k < |cands| {
        assert cands[k] in multiset(cands);
      } else {
        forall x | x in Baselines(repo.snapshots)
          ensures !Attempt(repo, tmpRoot, x.id, walk, now).Trusted?
        {
          assert x in multiset(cands);
          var j :| 0 <= j < |cands| && cands[j] == x;
        }
      }
    }
  }

  /** The promoted snapshot is a trusted baseline, and every baseline
      created strictly later failed the trust gate: the newest trusted
      baseline wins. */
  lemma {:induction false} RecoverPrefersNewest(repo: Repository, tmpRoot: Path, walk: seq<Path>, now: int)
    requires Recover(repo, tmpRoot, walk, now).Some?
    ensures exists x | x in Baselines(repo.snapshots) ::
              && x.id == Recover(repo, tmpRoot, walk, now).value
              && Attempt(repo, tmpRoot, x.id, walk, now).Trusted?
              && forall y | y in Baselines(repo.snapshots) && y.time > x.time ::
                   !Attempt(repo, tmpRoot, y.id, walk, now).Trusted?
  {
    var cands := Candidates(repo);
    var k := FirstTrusted(cands, 0, repo, tmpRoot, walk, now);
    NewestFirstIsPermutation(Baselines(repo.snapshots));
    NewestFirstIsOrdered(Baselines(repo.snapshots));
    var x := cands[k];
    assert x in multiset(cands);
    forall y | y in Baselines(repo.snapshots) && y.time > x.time
      ensures !Attempt(repo, tmpRoot, y.id, walk, now).Trusted?
    {
      assert y in multiset(cands);
      var j := NewerListedEarlier(cands, k, y);
    }
  }

  /** In a newest-first list, a snapshot strictly newer than the one at
      position k sits at some position before k. */
  lemma NewerListedEarlier(cands: seq<Snapshot>, k: nat, y: Snapshot) returns (j: nat)
    requires NewestFirstOrder(cands) && k < |cands|
    requires y in cands && y.time > cands[k].time
    ensures j < k && cands[j] == y
  {
    j :| 0 <= j < |cands| && cands[j] == y;
  }

  /** Line 251 has no tiebreak: among baselines created at the same time the
      one listed first is tried first. */
  lemma {:induction false} CandidatesKeepListingOrderOnTies(repo: Repository, t: int)
    ensures WithTime(Candidates(repo), t) == WithTime(Baselines(repo.snapshots), t)
  {
    NewestFirstIsStable(Baselines(repo.snapshots), t);
  }

  /** The promoted state: the restore directory holds exactly the staged
      tree, its ancestors are kept, and every path outside it is as before. */
  lemma PromotedLayout(m: Fs, restoreDir: Path, t: Fs, now: int)
    requires IsTree(t) && restoreDir != []
    ensures var r := Promoted(m, restoreDir, t, now);
            && restoreDir in r && r[restoreDir].Dir?
            && (forall rel | rel != [] :: restoreDir + rel in r <==> rel in t)
            && (forall rel | rel in t :: r[restoreDir + rel] == t[rel])
            && (forall p | p in m && !(restoreDir <= p) :: p in r && r[p] == m[p])
            && (forall p | p in r && !(p <= restoreDir) && !(restoreDir <= p) :: p in m)
  {
    var w := Without(m, restoreDir);
    var g := Graft(restoreDir, t);
    var r := Promoted(m, restoreDir, t, now);
    assert restoreDir !in g && restoreDir !in w;
    forall rel | rel != [] ensures restoreDir + rel in r <==> rel in t {
      assert (restoreDir + rel)[|restoreDir|..] == rel;
    }
    forall rel | rel in t ensures r[restoreDir + rel] == t[rel] {
      assert (restoreDir + rel)[|restoreDir|..] == rel;
    }
  }

  // ---------------------------------------------------------------------
  // Moving the staged entries into the restore directory (lines 302-303)

  /** m without the subtrees src + [n], n in moved. */
  function MovedOut(m: Fs, src: Path, moved: set<Name>): (r: Fs)
    ensures forall p :: p in r <==> p in m && !(src < p && p[|src|] in moved)
    ensures forall p | p in r :: r[p] == m[p]
  {
    map p | p in m && !(src < p && p[|src|] in moved) :: m[p]
  }

  /** The entries of tree t whose top-level name is in names. */
  function WithTop(t: Fs, names: set<Name>): (r: Fs)
    ensures forall rel :: rel in r <==> rel in t && rel != [] && rel[0] in names
    ensures forall rel | rel in r :: r[rel] == t[rel]
  {
    map rel | rel in t && rel != [] && rel[0] in names :: t[rel]
  }

  /** Below src, m holds exactly the tree t. */
  ghost predicate HoldsBelow(m: Fs, src: Path, t: Fs) {
    forall p | src < p :: (p in m <==> p[|src|..] in t) && (p in m ==> m[p] == t[p[|src|..]])
  }

  /** The state while the entries named in moved have been moved already. */
  function Moving(m: Fs, src: Path, dst: Path, t: Fs, moved: set<Name>): Fs {
    MovedOut(m, src, moved) + Graft(dst, WithTop(t, moved))
  }

  /** What sits below src + [n] mid-move, at one relative path rel. */
  lemma MovingSubtreeAt(m: Fs, src: Path, dst: Path, t: Fs, moved: set<Name>, n: Name, rel: Path)
    requires HoldsBelow(m, src, t)
    requires !(src <= dst) && !(dst <= src)
    requires n !in moved
    ensures var s := Moving(m, src, dst, t, moved);
            && (src + [n] + rel in s <==> [n] + rel in t)
            && (src + [n] + rel in s ==> s[src + [n] + rel] == t[[n] + rel])
  {
    var p := src + [n] + rel;
    assert src < p && p[|src|] == n && p[|src|..] == [n] + rel;
    if dst <= p {
      PrefixesComparable(src, dst, p);
    }
    assert p !in Graft(dst, WithTop(t, moved));
  }

  /** What sits below src + [n] mid-move, when n has not been moved yet. */
  lemma MovingSubtree(m: Fs, src: Path, dst: Path, t: Fs, moved: set<Name>, n: Name)
    requires HoldsBelow(m, src, t)
    requires !(src <= dst) && !(dst <= src)
    requires n !in moved
    ensures Subtree(Moving(m, src, dst, t, moved), src + [n]) == Subtree(t, [n])
  {
    var s := Moving(m, src, dst, t, moved);
    var sub := Subtree(s, src + [n]);
    var want := Subtree(t, [n]);
    forall rel ensures (rel in sub <==> rel in want) && (rel in sub ==> sub[rel] == want[rel]) {
      MovingSubtreeAt(m, src, dst, t, moved, n, rel);
    }
    MapsEqual(sub, want);
  }

  /** The top-level entry n of t, placed below dst + [n], at one path p. */
  lemma GraftTopAt(dst: Path, t: Fs, n: Name, p: Path)
    ensures p in Graft(dst + [n], Subtree(t, [n])) <==> p in Graft(dst, WithTop(t, {n}))
    ensures p in Graft(dst, WithTop(t, {n})) ==>
            Graft(dst + [n], Subtree(t, [n]))[p] == Graft(dst, WithTop(t, {n}))[p]
  {
    ChildPrefix(dst, n, p);
    if dst + [n] <= p {
      assert p[|dst|..] == [n] + p[|dst| + 1..];
    }
  }

  /** The top-level entry n of t, placed below dst + [n]. */
  lemma GraftTop(dst: Path, t: Fs, n: Name)
    ensures Graft(dst + [n], Subtree(t, [n])) == Graft(dst, WithTop(t, {n}))
  {
    var l := Graft(dst + [n], Subtree(t, [n]));
    var r := Graft(dst, WithTop(t, {n}));
    forall p ensures (p in l <==> p in r) && (p in l ==> l[p] == r[p]) {
      GraftTopAt(dst, t, n, p);
    }
    MapsEqual(l, r);
  }

  /** Removing src + [n] mid-move, at one path p. */
  lemma MovingRemoveAt(m: Fs, src: Path, dst: Path, t: Fs, moved: set<Name>, n: Name, p: Path)
    requires forall q | q in m :: !(dst < q)
    requires !(src <= dst) && !(dst <= src)
    ensures p in Without(Moving(m, src, dst, t, moved), src + [n]) + Graft(dst, WithTop(t, {n}))
            <==> p in Moving(m, src, dst, t, moved + {n})
    ensures p in Moving(m, src, dst, t, moved + {n}) ==>
            (Without(Moving(m, src, dst, t, moved), src + [n]) + Graft(dst, WithTop(t, {n})))[p]
            == Moving(m, src, dst, t, moved + {n})[p]
  {
    if dst <= p {
      MovingRemoveInside(m, src, dst, t, moved, n, p);
    } else {
      MovingRemoveOutside(m, src, dst, t, moved, n, p);
    }
  }

  /** MovingRemoveAt at a path p at or below dst, which src + [n] cannot be
      a prefix of. */
  lemma MovingRemoveInside(m: Fs, src: Path, dst: Path, t: Fs, moved: set<Name>, n: Name, p: Path)
    requires forall q | q in m :: !(dst < q)
    requires !(src <= dst) && !(dst <= src)
    requires dst <= p
    ensures p in Without(Moving(m, src, dst, t, moved), src + [n]) + Graft(dst, WithTop(t, {n}))
            <==> p in Moving(m, src, dst, t, moved + {n})
    ensures p in Moving(m, src, dst, t, moved + {n}) ==>
            (Without(Moving(m, src, dst, t, moved), src + [n]) + Graft(dst, WithTop(t, {n})))[p]
            == Moving(m, src, dst, t, moved + {n})[p]
  {
    assert !(src < p) by {
      if src < p {
        PrefixesComparable(src, dst, p);
      }
    }
    assert !(src + [n] <= p);
    assert p in m ==> p == dst;
  }

  /** MovingRemoveAt at a path p not at or below dst, where no graft reaches. */
  lemma MovingRemoveOutside(m: Fs, src: Path, dst: Path, t: Fs, moved: set<Name>, n: Name, p: Path)
    requires !(dst <= p)
    ensures p in Without(Moving(m, src, dst, t, moved), src + [n]) + Graft(dst, WithTop(t, {n}))
            <==> p in Moving(m, src, dst, t, moved + {n})
    ensures p in Moving(m, src, dst, t, moved + {n}) ==>
            (Without(Moving(m, src, dst, t, moved), src + [n]) + Graft(dst, WithTop(t, {n})))[p]
            == Moving(m, src, dst, t, moved + {n})[p]
  {
    ChildPrefix(src, n, p);
    var a := MovedOut(m, src, moved);
    var g1 := Graft(dst, WithTop(t, moved));
    var g2 := Graft(dst, WithTop(t, moved + {n}));
    var g3 := Graft(dst, WithTop(t, {n}));
    assert p !in g1 && p !in g2 && p !in g3;
    MergeMiss(a, g1, p);
    MergeMiss(MovedOut(m, src, moved + {n}), g2, p);
    MergeMiss(Without(a + g1, src + [n]), g3, p);
  }

  /** A map merge at a key the right-hand map does not hold. */
  lemma MergeMiss(a: Fs, b: Fs, p: Path)
    requires p !in b
    ensures p in a + b <==> p in a
    ensures p in a ==> (a + b)[p] == a[p]
  {
  }

  /** Removing src + [n] mid-move. */
  lemma MovingRemove(m: Fs, src: Path, dst: Path, t: Fs, moved: set<Name>, n: Name)
    requires forall p | p in m :: !(dst < p)
    requires !(src <= dst) && !(dst <= src)
    ensures Without(Moving(m, src, dst, t, moved), src + [n]) + Graft(dst, WithTop(t, {n}))
            == Moving(m, src, dst, t, moved + {n})
  {
    var l := Without(Moving(m, src, dst, t, moved), src + [n]) + Graft(dst, WithTop(t, {n}));
    var r := Moving(m, src, dst, t, moved + {n});
    forall p ensures (p in l <==> p in r) && (p in l ==> l[p] == r[p]) {
      MovingRemoveAt(m, src, dst, t, moved, n, p);
    }
    MapsEqual(l, r);
  }

  /** Once every listed name is moved, src is empty and dst holds t. */
  lemma MovedAll(m: Fs, src: Path, dst: Path, t: Fs)
    requires IsTree(t) && HoldsBelow(m, src, t)
    ensures Moving(m, src, dst, t, ChildNames(m, src)) == WithoutBelow(m, src) + Graft(dst, t)
  {
    var names := ChildNames(m, src);
    forall p | p in m && src < p ensures p[|src|] in names {
      assert p[|src|..][..1] in t;
      assert src + p[|src|..][..1] == src + [p[|src|]];
    }
    forall rel | rel in t ensures rel != [] && rel[0] in names {
      assert (src + rel[..1])[|src|..] == rel[..1];
      assert rel[..1] == [rel[0]];
    }
    MapsEqual(MovedOut(m, src, names), WithoutBelow(m, src));
    MapsEqual(WithTop(t, names), t);
  }

  /** One rename of the loop at lines 302-303: moving src + [n] to dst + [n]
      takes the state with moved done to the state with n done as well. */
  lemma MoveStep(m: Fs, src: Path, dst: Path, t: Fs, moved: set<Name>, n: Name)
    requires HoldsBelow(m, src, t)
    requires forall p | p in m :: !(dst < p)
    requires !(src <= dst) && !(dst <= src)
    requires n !in moved
    ensures var s := Moving(m, src, dst, t, moved);
            Without(s, src + [n]) + Graft(dst + [n], Subtree(s, src + [n]))
            == Moving(m, src, dst, t, moved + {n})
  {
    MovingSubtree(m, src, dst, t, moved, n);
    GraftTop(dst, t, n);
    MovingRemove(m, src, dst, t, moved, n);
  }

  /** Before the first move nothing has moved. */
  lemma MovingNone(m: Fs, src: Path, dst: Path, t: Fs)
    requires forall p | p in m :: !(dst < p)
    ensures Moving(m, src, dst, t, {}) == m
  {
    var r := Moving(m, src, dst, t, {});
    forall p ensures (p in r <==> p in m) && (p in r ==> r[p] == m[p]) {
      if dst <= p && p[|dst|..] in WithTop(t, {}) {
        assert false;
      }
    }
    MapsEqual(r, m);
  }

  /** Mid-move, the name n not moved yet is still free below dst. */
  lemma MovingVacant(m: Fs, src: Path, dst: Path, t: Fs, moved: set<Name>, n: Name)
    requires forall p | p in m :: !(dst < p)
    requires !(dst <= src)
    requires n !in moved
    ensures Vacant(Moving(m, src, dst, t, moved), dst + [n])
  {
    var s := Moving(m, src, dst, t, moved);
    forall q | q in s ensures !(dst + [n] <= q) {
      ChildPrefix(dst, n, q);
    }
  }

  /** Mid-move, renaming the listed name n not moved yet is allowed, and it
      takes the state to the one with n moved as well. */
  lemma RenameReady(m: Fs, src: Path, dst: Path, t: Fs, moved: set<Name>, n: Name)
    requires HoldsBelow(m, src, t)
    requires forall p | p in m :: !(dst < p)
    requires !(src <= dst) && !(dst <= src)
    requires n in ChildNames(m, src) && n !in moved
    ensures var s := Moving(m, src, dst, t, moved);
            && src + [n] in s && Vacant(s, dst + [n]) && !(src + [n] <= dst + [n])
            && Without(s, src + [n]) + Graft(dst + [n], Subtree(s, src + [n]))
               == Moving(m, src, dst, t, moved + {n})
  {
    assert src + [n] in MovedOut(m, src, moved) by {
      ChildPrefix(src, n, src + [n]);
    }
    MovingVacant(m, src, dst, t, moved, n);
    MoveStep(m, src, dst, t, moved, n);
    assert (src + [n])[..|src|] == src;
  }

  /** Lines 302-303: every entry iterdir lists in src is moved to the same
      name in dst, so dst ends up holding the staged tree. */
  method MoveContents(fs: FileSystem, src: Path, dst: Path, ghost t: Fs)
    requires IsTree(t)
    requires HoldsBelow(fs.entries, src, t)
    requires forall p | p in fs.entries :: !(dst < p)
    requires !(src <= dst) && !(dst <= src)
    modifies fs
    ensures fs.entries == WithoutBelow(old(fs.entries), src) + Graft(dst, t)
  {
    ghost var m := fs.entries;
    var names := ChildNames(fs.entries, src);
    ghost var listed := names;
    ghost var moved: set<Name> := {};
    MovingNone(m, src, dst, t);
    while names != {}
      invariant names !! moved && names + moved == listed
      invariant fs.entries == Moving(m, src, dst, t, moved)
      decreases names
    {
      var n :| n in names;
      RenameReady(m, src, dst, t, moved, n);
      fs.Rename(src + [n], dst + [n]);
      ShiftOne(names, moved, n);
      names := names - {n};
      moved := moved + {n};
    }
    assert moved == listed;
    MovedAll(m, src, dst, t);
  }

  // ---------------------------------------------------------------------
  // The staging area below tmp_root (lines 255-306)

  /** While candidates are tried, only tmpRoot and what is below it differ
      from the initial state m0, tmpRoot stays a directory, and each entry
      below it sits in a staging directory tmpRoot + [sid]. */
  ghost predicate Staging(m: Fs, m0: Fs, tmpRoot: Path) {
    && SameOutside(m, m0, tmpRoot)
    && tmpRoot in m && m[tmpRoot].Dir?
    && forall p | p in m && tmpRoot < p :: Top(tmpRoot, p) in m && m[Top(tmpRoot, p)].Dir?
  }

  /** tempfile.mkdtemp: a fresh directory where nothing was. */
  lemma StagingStart(m0: Fs, tmpRoot: Path, now: int)
    requires Vacant(m0, tmpRoot)
    ensures Staging(m0[tmpRoot := Dir(now)], m0, tmpRoot)
  {
  }

  /** A staging directory that exists is a directory, and deleting it keeps
      the staging area in shape. */
  lemma StagingClear(m: Fs, m0: Fs, tmpRoot: Path, sid: Name)
    requires Staging(m, m0, tmpRoot) && tmpRoot + [sid] in m
    ensures m[tmpRoot + [sid]].Dir?
    ensures Staging(Without(m, tmpRoot + [sid]), m0, tmpRoot)
  {
    var dir := tmpRoot + [sid];
    ChildPrefix(tmpRoot, sid, dir);
    var w := Without(m, dir);
    forall p | !(tmpRoot <= p) ensures (p in w <==> p in m0) && (p in w ==> w[p] == m0[p]) {
      ChildPrefix(tmpRoot, sid, p);
    }
    forall p | p in w && tmpRoot < p
      ensures Top(tmpRoot, p) in w && w[Top(tmpRoot, p)].Dir?
    {
      ChildPrefix(tmpRoot, sid, p);
      ChildPrefix(tmpRoot, sid, p[..|tmpRoot| + 1]);
    }
    assert !(dir <= tmpRoot);
  }

  /** An absent staging directory has nothing below it and can be made
      with Path.mkdir(parents=True). */
  lemma StagingFresh(m: Fs, m0: Fs, tmpRoot: Path, sid: Name, now: int)
    requires Staging(m, m0, tmpRoot) && NoFileOnPath(m0, tmpRoot)
    requires tmpRoot + [sid] !in m
    ensures Vacant(m, tmpRoot + [sid])
    ensures NoFileOnPath(m, tmpRoot + [sid])
    ensures Staging(m[tmpRoot + [sid] := Dir(now)], m0, tmpRoot)
  {
    var dir := tmpRoot + [sid];
    assert Parent(dir) == tmpRoot;
    forall q | q in m ensures !(dir <= q) {
      ChildPrefix(tmpRoot, sid, q);
    }
    forall i | 0 <= i <= |dir| && dir[..i] in m ensures m[dir[..i]].Dir? {
      if i <= |tmpRoot| {
        assert dir[..i] == tmpRoot[..i];
        assert i < |tmpRoot| ==> !(tmpRoot <= tmpRoot[..i]);
      }
    }
    ChildPrefix(tmpRoot, sid, dir);
  }

  /** An entry of the restored tree, placed below tmpRoot + [sid], is below
      tmpRoot with that staging directory on its way. */
  lemma GraftedBelow(tmpRoot: Path, sid: Name, t: Fs, p: Path)
    requires [] !in t && p in Graft(tmpRoot + [sid], t)
    ensures tmpRoot + [sid] < p && tmpRoot < p && Top(tmpRoot, p) == tmpRoot + [sid]
  {
    ChildPrefix(tmpRoot, sid, p);
  }

  /** `restic restore` into the staging directory keeps the staging area in
      shape. */
  lemma StagingRestore(m: Fs, m0: Fs, tmpRoot: Path, sid: Name, t: Fs)
    requires Staging(m, m0, tmpRoot) && IsTree(t)
    requires tmpRoot + [sid] in m && m[tmpRoot + [sid]].Dir?
    ensures Staging(m + Graft(tmpRoot + [sid], t), m0, tmpRoot)
  {
    var dir := tmpRoot + [sid];
    var g := Graft(dir, t);
    var m1 := m + g;
    forall p | !(tmpRoot <= p) ensures (p in m1 <==> p in m0) && (p in m1 ==> m1[p] == m0[p]) {
      if p in g {
        GraftedBelow(tmpRoot, sid, t, p);
      }
    }
    forall p | p in m1 && tmpRoot < p ensures Top(tmpRoot, p) in m1 && m1[Top(tmpRoot, p)].Dir? {
      var top := Top(tmpRoot, p);
      if top in g {
        GraftedBelow(tmpRoot, sid, t, top);
      }
      if p in g {
        GraftedBelow(tmpRoot, sid, t, p);
      }
    }
  }

  /** After the restore, at and below the staging directory the file system
      looks like the staged tree, and strictly below it holds the tree. */
  lemma StagedView(m: Fs, dir: Path, t: Fs, now: int)
    requires IsTree(t)
    requires dir in m && m[dir] == Dir(now)
    requires forall p | p in m :: !(dir < p)
    ensures HoldsBelow(m + Graft(dir, t), dir, t)
    ensures SameFrom(m + Graft(dir, t), Staged(dir, t, now), dir)
  {
    var g := Graft(dir, t);
    var m1 := m + g;
    var st := Staged(dir, t, now);
    assert dir !in g;
    forall p | dir < p ensures (p in m1 <==> p[|dir|..] in t) && (p in m1 ==> m1[p] == t[p[|dir|..]]) {
      assert p !in m;
    }
    forall p | dir <= p ensures (p in m1 <==> p in st) && (p in m1 ==> m1[p] == st[p]) {
      if p != dir {
        assert p !in m;
      }
    }
  }

  /** The verdict on a staged restore depends only on what is at and below
      the staging directory. */
  lemma InspectLocal(m1: Fs, m2: Fs, dir: Path, walk: seq<Path>)
    requires SameFrom(m1, m2, dir)
    ensures Inspect(m1, dir, walk) == Inspect(m2, dir, walk)
  {
    GlobLocal(m1, m2, dir, Named(DataRootName), true, walk);
    var roots := Glob(m1, dir, Named(DataRootName), true, walk);
    if roots != [] {
      assert roots[0] in roots;
      assert dir <= roots[0] + CriticalFile;
    }
  }

  // ---------------------------------------------------------------------
  // Promotion into the restore directory (lines 296-306)

  /** Every prefix of a path outside root's subtree is outside it too. */
  lemma PrefixOutside(root: Path, p: Path, i: nat)
    requires !(root <= p) && i <= |p|
    ensures !(root <= p[..i])
  {
  }

  /** The restore directory lies outside the staging area, so the code sees
      it as it was before the run. */
  lemma RestoreDirOutside(a: Fs, m0: Fs, tmpRoot: Path, restoreDir: Path)
    requires SameOutside(a, m0, tmpRoot)
    requires !(tmpRoot <= restoreDir) && !(restoreDir <= tmpRoot)
    requires NoFileOnPath(m0, restoreDir) && WellFormed(m0)
    ensures restoreDir in a ==> a[restoreDir].Dir?
    ensures restoreDir !in a ==> Vacant(a, restoreDir)
    ensures NoFileOnPath(Without(a, restoreDir), restoreDir)
  {
    PrefixOutside(tmpRoot, restoreDir, |restoreDir|);
    assert restoreDir[..|restoreDir|] == restoreDir;
    if restoreDir !in m0 {
      AbsentIsVacant(m0, restoreDir);
      forall q | q in a ensures !(restoreDir <= q) {
        if tmpRoot <= q && restoreDir <= q {
          PrefixesComparable(tmpRoot, restoreDir, q);
        }
      }
    }
    var w := Without(a, restoreDir);
    forall i | 0 <= i <= |restoreDir| && restoreDir[..i] in w ensures w[restoreDir[..i]].Dir? {
      PrefixOutside(tmpRoot, restoreDir, i);
    }
  }

  /** The state once the restore directory is emptied and made afresh: the
      staged tree is still below the staging directory, nothing is below
      the restore directory, and tmpRoot is still a directory. */
  lemma Prepared(a: Fs, tmpRoot: Path, dir: Path, restoreDir: Path, t: Fs, now: int)
    requires HoldsBelow(a, dir, t) && tmpRoot <= dir
    requires tmpRoot in a && a[tmpRoot].Dir?
    requires !(tmpRoot <= restoreDir) && !(restoreDir <= tmpRoot)
    ensures var b := MakeDirs(Without(a, restoreDir), restoreDir, now);
            && HoldsBelow(b, dir, t)
            && (forall p | p in b :: !(restoreDir < p))
            && tmpRoot in b && b[tmpRoot] == a[tmpRoot]
  {
    var w := Without(a, restoreDir);
    var b := MakeDirs(w, restoreDir, now);
    assert tmpRoot in w;
    forall p | dir < p ensures (p in b <==> p in a) && (p in b ==> b[p] == a[p]) {
      PrefixTrans(tmpRoot, dir, p);
      if restoreDir <= p {
        PrefixesComparable(tmpRoot, restoreDir, p);
      }
      if p <= restoreDir {
        PrefixTrans(tmpRoot, p, restoreDir);
      }
    }
  }

  /** Deleting tmpRoot at the end leaves the restore directory holding
      exactly the staged tree, and everything else as before the run. */
  lemma FinalState(a: Fs, m0: Fs, tmpRoot: Path, dir: Path, restoreDir: Path, t: Fs, now: int)
    requires SameOutside(a, m0, tmpRoot) && Vacant(m0, tmpRoot) && tmpRoot <= dir
    requires !(tmpRoot <= restoreDir) && !(restoreDir <= tmpRoot)
    ensures var b := MakeDirs(Without(a, restoreDir), restoreDir, now);
            Without(WithoutBelow(b, dir) + Graft(restoreDir, t), tmpRoot) == Promoted(m0, restoreDir, t, now)
  {
    var w := Without(a, restoreDir);
    var b := MakeDirs(w, restoreDir, now);
    var g := Graft(restoreDir, t);
    MakeDirsWithout(w, restoreDir, tmpRoot, now);
    assert Without(w, tmpRoot) == Without(m0, restoreDir) by {
      forall p ensures (p in Without(w, tmpRoot) <==> p in Without(m0, restoreDir))
                       && (p in Without(w, tmpRoot) ==> Without(w, tmpRoot)[p] == Without(m0, restoreDir)[p]) {
      }
      MapsEqual(Without(w, tmpRoot), Without(m0, restoreDir));
    }
    var l := Without(WithoutBelow(b, dir) + g, tmpRoot);
    var r := Without(b, tmpRoot) + g;
    forall p ensures (p in l <==> p in r) && (p in l ==> l[p] == r[p]) {
      if p in g && tmpRoot <= p {
        PrefixesComparable(tmpRoot, restoreDir, p);
      }
      if dir < p {
        PrefixTrans(tmpRoot, dir, p);
      }
    }
    MapsEqual(l, r);
  }

  // ---------------------------------------------------------------------
  // restore_latest_clean_baseline (lines 224-312)

  /** Lines 262-275: a clean staging directory tmpRoot + [sid] and the
      snapshot restored into it. On success the staging directory looks
      exactly like Staged; on failure it is left empty. */
  method StageSnapshot(fs: FileSystem, repo: Repository, tmpRoot: Path, sid: SnapshotId, ghost m0: Fs)
    returns (restored: bool)
    requires Staging(fs.entries, m0, tmpRoot) && NoFileOnPath(m0, tmpRoot) && Valid(repo)
    modifies fs
    ensures Staging(fs.entries, m0, tmpRoot)
    ensures restored <==> sid in repo.restorable
    ensures restored ==>
              && HoldsBelow(fs.entries, tmpRoot + [sid], repo.restorable[sid])
              && SameFrom(fs.entries, Staged(tmpRoot + [sid], repo.restorable[sid], fs.now), tmpRoot + [sid])
    ensures !restored ==>
              && tmpRoot + [sid] in fs.entries && fs.entries[tmpRoot + [sid]] == Dir(fs.now)
              && forall p | tmpRoot + [sid] < p :: p !in fs.entries
  {
    var tmpDir := tmpRoot + [sid];
    if fs.Exists(tmpDir) {
      StagingClear(fs.entries, m0, tmpRoot, sid);
      fs.RemoveTree(tmpDir);
    }
    StagingFresh(fs.entries, m0, tmpRoot, sid, fs.now);
    assert Parent(tmpDir) == tmpRoot;
    fs.Mkdir(tmpDir);
    ghost var made := fs.entries;
    restored := Restore(fs, repo, sid, tmpDir);
    if restored {
      ghost var t := repo.restorable[sid];
      StagingRestore(made, m0, tmpRoot, sid, t);
      StagedView(made, tmpDir, t, fs.now);
    }
  }

  /** Lines 296-306 and the finally clause at 311-312: the restore directory
      is emptied and made afresh, the staged entries are moved into it, and
      the staging area is deleted. */
  method Promote(fs: FileSystem, tmpRoot: Path, sid: SnapshotId, restoreDir: Path, ghost t: Fs, ghost m0: Fs)
    requires Staging(fs.entries, m0, tmpRoot) && Vacant(m0, tmpRoot) && IsTree(t)
    requires HoldsBelow(fs.entries, tmpRoot + [sid], t)
    requires !(tmpRoot <= restoreDir) && !(restoreDir <= tmpRoot)
    requires NoFileOnPath(m0, restoreDir) && WellFormed(m0)
    modifies fs
    ensures fs.entries == Promoted(m0, restoreDir, t, fs.now)
    ensures Vacant(fs.entries, tmpRoot)
  {
    var tmpDir := tmpRoot + [sid];
    ghost var a := fs.entries;
    RestoreDirOutside(a, m0, tmpRoot, restoreDir);
    if fs.Exists(restoreDir) {
      fs.RemoveTree(restoreDir);
    } else {
      WithoutVacant(a, restoreDir);
    }
    fs.Mkdir(restoreDir);
    Prepared(a, tmpRoot, tmpDir, restoreDir, t, fs.now);
    assert !(tmpDir <= restoreDir) && !(restoreDir <= tmpDir) by {
      if tmpDir <= restoreDir {
        PrefixTrans(tmpRoot, tmpDir, restoreDir);
      }
      if restoreDir <= tmpDir {
        PrefixesComparable(restoreDir, tmpRoot, tmpDir);
      }
    }
    MoveContents(fs, tmpDir, restoreDir, t);
    FinalState(a, m0, tmpRoot, tmpDir, restoreDir, t, fs.now);
    fs.RemoveTree(tmpRoot);
    PromotedLayout(m0, restoreDir, t, fs.now);
    forall q | q in fs.entries ensures !(tmpRoot <= q) {
      if tmpRoot <= q && q <= restoreDir {
        PrefixTrans(tmpRoot, q, restoreDir);
      }
      if tmpRoot <= q && restoreDir <= q {
        PrefixesComparable(tmpRoot, restoreDir, q);
      }
    }
  }

  /** Lines 224-312. The file system is a tree (WellFormed); tmpRoot is the
      fresh directory tempfile.mkdtemp will create, inside an existing
      directory; the restore directory is outside it, and no regular file
      sits on the way to it (the code does not handle that case). The
      result is the snapshot the specification function Recover picks; when
      none is picked the file system is as it was, and otherwise the
      restore directory holds exactly that snapshot's tree. */
  method RestoreLatestCleanBaseline(fs: FileSystem, repo: Repository, restoreDir: Path, tmpRoot: Path)
    returns (ok: bool, promoted: Option<SnapshotId>)
    requires Valid(repo) && WellFormed(fs.entries)
    requires tmpRoot != [] && Parent(tmpRoot) in fs.entries
    requires NoFileOnPath(fs.entries, tmpRoot) && Vacant(fs.entries, tmpRoot)
    requires !(tmpRoot <= restoreDir) && !(restoreDir <= tmpRoot)
    requires NoFileOnPath(fs.entries, restoreDir)
    modifies fs
    ensures promoted == Recover(repo, tmpRoot, fs.walk, fs.now)
    ensures ok <==> promoted.Some?
    ensures promoted.None? ==> fs.entries == old(fs.entries)
    ensures Vacant(fs.entries, tmpRoot)
    ensures promoted.Some? ==> promoted.value in repo.restorable
    ensures promoted.Some? ==>
              fs.entries == Promoted(old(fs.entries), restoreDir, repo.restorable[promoted.value], fs.now)
  {
    ghost var m0 := fs.entries;
    if !repo.listable {
      return false, None;
    }
    var snapshots := Baselines(repo.snapshots);
    if snapshots == [] {
      return false, None;
    }
    snapshots := NewestFirst(snapshots);
    fs.Mkdir(tmpRoot);
    StagingStart(m0, tmpRoot, fs.now);
    for i := 0 to |snapshots|
      invariant Staging(fs.entries, m0, tmpRoot)
      invariant FirstTrusted(snapshots, i, repo, tmpRoot, fs.walk, fs.now)
                == FirstTrusted(snapshots, 0, repo, tmpRoot, fs.walk, fs.now)
    {
      var sid := snapshots[i].id;
      var tmpDir := tmpRoot + [sid];
      var restored := StageSnapshot(fs, repo, tmpRoot, sid, m0);
      if !restored {
        continue;
      }
      ghost var t := repo.restorable[sid];
      InspectLocal(fs.entries, Staged(tmpDir, t, fs.now), tmpDir, fs.walk);
      var victims := Glob(fs.entries, tmpDir, Named(DataRootName), true, fs.walk);
      if victims == [] {
        continue;
      }
      var critical := victims[0] + CriticalFile;
      if !fs.Exists(critical) {
        continue;
      }
      var readable := fs.ReadFirst(critical);
      if !readable {
        continue;
      }
      Promote(fs, tmpRoot, sid, restoreDir, t, m0);
      return true, Some(sid);
    }
    WithoutOutside(fs.entries, m0, tmpRoot);
    fs.RemoveTree(tmpRoot);
    return false, None;
  }
}
