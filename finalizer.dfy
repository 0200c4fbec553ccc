/**
 * finalize_restoration: once a clean baseline has been restored, the
 * restored victim_data tree is cleaned of encrypted files and copied over
 * the live data path, the copy's logs are pruned to the newest one, and the
 * restore root is emptied.
 */
module Finalizer {
  import opened Wrappers
  import opened Files

  const VictimDirName: Name := "victim_data"
  const EncryptedSuffix: string := ".enc"
  const LogsDirName: Name := "logs"
  const LogSuffix: string := ".txt"

  /** How a call ends: it returns False (no match), copytree raises
      NotADirectoryError (the selected match is not a directory), copytree
      raises shutil.Error after copying what it could read, or it returns True. */
  datatype Outcome = NoVictimData | SourceNotADirectory | CopyIncomplete | Finalized

  // ---------------------------------------------------------------------
  // The two selections (lines 482 and 507)

  /** The index of the first greatest key, which is the head of a stable
      sort of the keys in descending order (sorted(..., reverse=True)[0]). */
  function FirstMax(keys: seq<int>): (i: nat)
    requires keys != []
    ensures i < |keys|
    ensures forall j | 0 <= j < |keys| :: keys[j] <= keys[i]
    ensures forall j | 0 <= j < i :: keys[j] < keys[i]
  {
    if |keys| == 1 then 0
    else
      var k := 1 + FirstMax(keys[1..]);
      if keys[0] >= keys[k] then 0 else k
  }

  /** len(str(p)) for an absolute path below the file system root: a slash
      before each name. */
  function PathLength(p: Path): nat
    decreases |p|
  {
    if p == [] then 0 else PathLength(Parent(p)) + 1 + |Last(p)|
  }

  /** A path strictly below another has the longer string, so a longest
      match has no match below it. */
  lemma {:induction false} LongerBelow(a: Path, b: Path)
    requires a < b
    ensures PathLength(a) < PathLength(b)
    decreases |b|
  {
    if a != Parent(b) {
      assert a < Parent(b);
      LongerBelow(a, Parent(b));
    }
  }

  function Lengths(ps: seq<Path>): seq<int> {
    seq(|ps|, i requires 0 <= i < |ps| => PathLength(ps[i]))
  }

  /** st_mtime of each path. */
  function Mtimes(m: Fs, ps: seq<Path>): seq<int> {
    seq(|ps|, i requires 0 <= i < |ps| => if ps[i] in m then m[ps[i]].mtime else 0)
  }

  /** The match of restore_root.rglob("victim_data") with the longest path
      string; among equally long ones, the first the scan reports. */
  function Selected(m: Fs, root: Path, walk: seq<Path>): Option<Path> {
    var hits := Glob(m, root, Named(VictimDirName), true, walk);
    if hits == [] then None else Some(hits[FirstMax(Lengths(hits))])
  }

  /** There is no selection exactly when the scan reports no victim_data
      below the root; otherwise the selection is a reported match, no match is
      longer, and no match lies below it. */
  lemma SelectedIsLongest(m: Fs, root: Path, walk: seq<Path>)
    ensures Selected(m, root, walk).None? <==>
              forall p | p in walk :: !Hit(m, root, Named(VictimDirName), true, p)
    ensures Selected(m, root, walk).Some? ==>
              var s := Selected(m, root, walk).value;
              && s in walk && Hit(m, root, Named(VictimDirName), true, s)
              && forall p | p in walk && Hit(m, root, Named(VictimDirName), true, p) ::
                   PathLength(p) <= PathLength(s) && !(s < p)
    ensures ScanCovers(walk, m, root) ==>
              && (Selected(m, root, walk).None? <==>
                    forall p :: !Hit(m, root, Named(VictimDirName), true, p))
              && (Selected(m, root, walk).Some? ==>
                    var s := Selected(m, root, walk).value;
                    forall p | Hit(m, root, Named(VictimDirName), true, p) ::
                      PathLength(p) <= PathLength(s) && !(s < p))
    ensures Selected(m, root, walk).Some? ==>
              var s := Selected(m, root, walk).value;
              forall k | 0 <= k < |walk| && walk[k] == s && s !in walk[..k] ::
                forall j | 0 <= j < k && Hit(m, root, Named(VictimDirName), true, walk[j]) ::
                  PathLength(walk[j]) < PathLength(s)
  {
    var hits := Glob(m, root, Named(VictimDirName), true, walk);
    GlobComplete(m, root, Named(VictimDirName), true, walk);
    if hits != [] {
      var i := FirstMax(Lengths(hits));
      assert hits[i] in hits;
      forall p | p in walk && Hit(m, root, Named(VictimDirName), true, p)
        ensures PathLength(p) <= PathLength(hits[i]) && !(hits[i] < p)
      {
        var j :| 0 <= j < |hits| && hits[j] == p;
        assert Lengths(hits)[j] == PathLength(p);
        if hits[i] < p {
          LongerBelow(hits[i], p);
        }
      }
      forall k | 0 <= k < |walk| && walk[k] == hits[i] && hits[i] !in walk[..k]
        ensures forall j | 0 <= j < k && Hit(m, root, Named(VictimDirName), true, walk[j]) ::
                  PathLength(walk[j]) < PathLength(hits[i])
      {
        ReportedFirstIsShorter(m, root, walk, k);
      }
    }
  }

  /** Of the matches the scan reports before the selection's first
      appearance, each is strictly shorter than the selection: a stable sort
      keeps the first-reported of equally long matches in front. */
  lemma ReportedFirstIsShorter(m: Fs, root: Path, walk: seq<Path>, k: nat)
    requires Selected(m, root, walk).Some?
    requires k < |walk| && walk[k] == Selected(m, root, walk).value
    requires Selected(m, root, walk).value !in walk[..k]
    ensures forall j | 0 <= j < k && Hit(m, root, Named(VictimDirName), true, walk[j]) ::
              PathLength(walk[j]) < PathLength(walk[k])
  {
    var pat := Named(VictimDirName);
    var hits := Glob(m, root, pat, true, walk);
    var i := FirstMax(Lengths(hits));
    var s := hits[i];
    assert s in hits;
    var before := Glob(m, root, pat, true, walk[..k]);
    var after := Glob(m, root, pat, true, walk[k..]);
    SplitAt(walk, k);
    GlobAppend(m, root, pat, true, walk[..k], walk[k..]);
    assert walk[k..][0] == s;
    assert after == [s] + Glob(m, root, pat, true, walk[k..][1..]);
    assert hits[|before|] == s;
    assert s !in before;
    assert i == |before| by {
      assert Lengths(hits)[|before|] == Lengths(hits)[i];
    }
    forall j | 0 <= j < k && Hit(m, root, pat, true, walk[j])
      ensures PathLength(walk[j]) < PathLength(s)
    {
      assert walk[j] == walk[..k][j];
      assert walk[j] in before;
      var t :| 0 <= t < |before| && before[t] == walk[j];
      assert hits[t] == walk[j];
      assert Lengths(hits)[t] < Lengths(hits)[i];
    }
  }

  // ---------------------------------------------------------------------
  // Unlink loops (lines 491-497 and 509-514)

  /** The entries left by unlinking each target inside try/except: a target
      that is a regular file the system lets go of is gone; every other entry
      stays as it was. */
  function Swept(m: Fs, targets: seq<Path>, locked: set<Path>): Fs {
    map p | p in m && !(p in targets && m[p].File? && p !in locked) :: m[p]
  }

  lemma SweptNone(m: Fs, locked: set<Path>)
    ensures Swept(m, [], locked) == m
  {
    MapsEqual(Swept(m, [], locked), m);
  }

  /** One more unlink: the next target goes if it is still there as a file
      the system lets go of. */
  lemma SweptSnoc(m: Fs, done: seq<Path>, x: Path, locked: set<Path>)
    ensures var e := Swept(m, done, locked);
            Swept(m, done + [x], locked) ==
              if x in e && e[x].File? && x !in locked then e - {x} else e
  {
    var e := Swept(m, done, locked);
    var after := if x in e && e[x].File? && x !in locked then e - {x} else e;
    forall p ensures p in done + [x] <==> p in done || p == x {
    }
    MapsEqual(Swept(m, done + [x], locked), after);
  }

  /** for p in targets: try: p.unlink() except Exception: report */
  method UnlinkEach(fs: FileSystem, targets: seq<Path>)
    modifies fs
    ensures fs.entries == Swept(old(fs.entries), targets, fs.undeletable)
  {
    ghost var m := fs.entries;
    SweptNone(m, fs.undeletable);
    for i := 0 to |targets|
      invariant fs.entries == Swept(m, targets[..i], fs.undeletable)
    {
      SweptSnoc(m, targets[..i], targets[i], fs.undeletable);
      assert targets[..i + 1] == targets[..i] + [targets[i]];
      var unlinked := fs.Unlink(targets[i]);
    }
    assert targets[..|targets|] == targets;
  }

  /** After unlinking what a scan reported, the regular files the same scan
      still reports are those the system refused to delete, and every entry
      the scan did not report, and every directory, is untouched. */
  lemma SweepLeavesLocked(m: Fs, root: Path, pat: Pattern, recursive: bool, walk: seq<Path>, locked: set<Path>)
    ensures var r := Swept(m, Glob(m, root, pat, recursive, walk), locked);
            && (forall p | p in r && p in walk && Hit(r, root, pat, recursive, p) && r[p].File? :: p in locked)
            && (forall p | p in r :: p in m && r[p] == m[p])
            && (forall p | p in m && !(p in walk && Hit(m, root, pat, recursive, p)) :: p in r)
            && (forall p | p in m && m[p].Dir? :: p in r)
            && (ScanCovers(walk, m, root) ==>
                  forall p | p in r && Hit(r, root, pat, recursive, p) && r[p].File? :: p in locked)
  {
    var r := Swept(m, Glob(m, root, pat, recursive, walk), locked);
    forall p | p in r && (p in walk || ScanCovers(walk, m, root)) && Hit(r, root, pat, recursive, p) && r[p].File?
      ensures p in locked
    {
      assert p in m && p in walk;
      assert Reachable(m, root, p);
    }
  }

  /** Lines 504-516: when the logs directory exists, every `*.txt` entry it
      lists, except the first with the greatest mtime, is unlinked. */
  function Pruned(m: Fs, logs: Path, walk: seq<Path>, locked: set<Path>): Fs {
    if logs !in m then m
    else
      var txt := Glob(m, logs, Suffix(LogSuffix), false, walk);
      if txt == [] then m
      else
        var k := FirstMax(Mtimes(m, txt));
        Swept(m, txt[..k] + txt[k + 1..], locked)
  }

  /** p is a `*.txt` entry that logs.glob lists. */
  predicate LogEntry(m: Fs, logs: Path, walk: seq<Path>, p: Path) {
    p in walk && Hit(m, logs, Suffix(LogSuffix), false, p)
  }

  /** Leaving out position k of a sequence without repeats leaves out
      exactly the element at k. */
  lemma DropOne(s: seq<Path>, k: nat)
    requires Distinct(s) && k < |s|
    ensures forall p :: p in s[..k] + s[k + 1..] <==> p in s && p != s[k]
  {
    var others := s[..k] + s[k + 1..];
    forall p ensures p in others <==> p in s && p != s[k] {
      if p in others {
        var j :| 0 <= j < |others| && others[j] == p;
        if j < k {
          assert p == s[j];
        } else {
          assert p == s[j + 1];
        }
      }
      if p in s && p != s[k] {
        var j :| 0 <= j < |s| && s[j] == p;
        if j < k {
          assert others[j] == p;
        } else {
          assert others[j - 1] == p;
        }
      }
    }
  }

  /** The `*.txt` entry pruning keeps: the first listed one with the
      greatest mtime. */
  lemma NewestLog(m: Fs, logs: Path, walk: seq<Path>)
    requires Glob(m, logs, Suffix(LogSuffix), false, walk) != []
    ensures var txt := Glob(m, logs, Suffix(LogSuffix), false, walk);
            var newest := txt[FirstMax(Mtimes(m, txt))];
            && LogEntry(m, logs, walk, newest)
            && forall q | LogEntry(m, logs, walk, q) :: m[q].mtime <= m[newest].mtime
  {
    var txt := Glob(m, logs, Suffix(LogSuffix), false, walk);
    var k := FirstMax(Mtimes(m, txt));
    assert txt[k] in txt;
    forall q | LogEntry(m, logs, walk, q) ensures m[q].mtime <= m[txt[k]].mtime {
      var j :| 0 <= j < |txt| && txt[j] == q;
      assert Mtimes(m, txt)[j] == m[q].mtime;
    }
  }

  /** Without a logs directory the glob lists nothing. */
  lemma NoLogsNoEntry(m: Fs, logs: Path, walk: seq<Path>, p: Path)
    requires logs !in m
    ensures !LogEntry(m, logs, walk, p)
  {
    if logs < p {
      assert p[..|logs|] == logs;
    }
  }

  /** Pruning drops only listed `*.txt` entries, keeps one with the greatest
      mtime, and leaves no other regular file among them that the system
      would have let go of. */
  lemma PrunedKeepsNewest(m: Fs, logs: Path, walk: seq<Path>, locked: set<Path>)
    requires Distinct(walk)
    ensures ScanCovers(walk, m, logs) ==>
              forall p :: LogEntry(m, logs, walk, p) <==> Hit(m, logs, Suffix(LogSuffix), false, p)
    ensures var r := Pruned(m, logs, walk, locked);
            && (forall p | p in r :: p in m && r[p] == m[p])
            && (forall p | p in m && !LogEntry(m, logs, walk, p) :: p in r)
            && (forall p | p in r && LogEntry(m, logs, walk, p) && m[p].File? && p !in locked ::
                  forall q | LogEntry(m, logs, walk, q) :: m[q].mtime <= m[p].mtime)
            && (forall p, q | p in r && q in r && LogEntry(m, logs, walk, p) && LogEntry(m, logs, walk, q)
                  && m[p].File? && p !in locked && m[q].File? && q !in locked :: p == q)
            && (forall q | LogEntry(m, logs, walk, q) ::
                  exists p | p in r && LogEntry(m, logs, walk, p) :: m[q].mtime <= m[p].mtime)
  {
    var txt := Glob(m, logs, Suffix(LogSuffix), false, walk);
    if logs !in m {
      forall p ensures !LogEntry(m, logs, walk, p) {
        NoLogsNoEntry(m, logs, walk, p);
      }
    } else if txt != [] {
      var r := Pruned(m, logs, walk, locked);
      GlobDistinct(m, logs, Suffix(LogSuffix), false, walk);
      var k := FirstMax(Mtimes(m, txt));
      DropOne(txt, k);
      NewestLog(m, logs, walk);
      assert r == Swept(m, txt[..k] + txt[k + 1..], locked);
      forall p | p in r && LogEntry(m, logs, walk, p) && m[p].File? && p !in locked
        ensures p == txt[k]
      {
        assert p in txt;
      }
      assert txt[k] in r;
    }
  }

  // ---------------------------------------------------------------------
  // Emptying the restore root (lines 521-531)

  /** p goes once the loop has handled the entry directly below root on its
      way (its name is among names): a directory goes with everything in it
      (shutil.rmtree), any other entry is unlinked unless the system refuses. */
  predicate Doomed(m: Fs, root: Path, names: set<Name>, locked: set<Path>, p: Path) {
    && root < p && Top(root, p) in m && Last(Top(root, p)) in names
    && (m[Top(root, p)].Dir? || (p == Top(root, p) && p !in locked))
  }

  function ClearedOf(m: Fs, root: Path, names: set<Name>, locked: set<Path>): Fs {
    map p | p in m && !Doomed(m, root, names, locked, p) :: m[p]
  }

  /** The entries left once every entry iterdir lists in root is handled. */
  function Cleared(m: Fs, root: Path, locked: set<Path>): Fs {
    ClearedOf(m, root, ChildNames(m, root), locked)
  }

  lemma ClearedNone(m: Fs, root: Path, locked: set<Path>)
    ensures ClearedOf(m, root, {}, locked) == m
  {
    MapsEqual(ClearedOf(m, root, {}, locked), m);
  }

  /** Handling one more listed name n removes exactly what the loop body does
      to root + [n]. */
  lemma ClearStep(m: Fs, root: Path, done: set<Name>, n: Name, locked: set<Path>)
    requires root + [n] in m && n !in done
    ensures var e := ClearedOf(m, root, done, locked);
            var item := root + [n];
            && item in e && e[item] == m[item]
            && ClearedOf(m, root, done + {n}, locked) ==
                 if m[item].Dir? then Without(e, item)
                 else if item !in locked then e - {item}
                 else e
  {
    var e := ClearedOf(m, root, done, locked);
    var item := root + [n];
    assert root < item && Top(root, item) == item;
    var after := if m[item].Dir? then Without(e, item)
                 else if item !in locked then e - {item}
                 else e;
    forall p
      ensures p in ClearedOf(m, root, done + {n}, locked) <==> p in after
    {
      ChildPrefix(root, n, p);
      if root < p {
        assert Last(Top(root, p)) == p[|root|];
      }
    }
    MapsEqual(ClearedOf(m, root, done + {n}, locked), after);
  }

  /** for item in restore_root.iterdir(): rmtree a directory, unlink anything
      else, and report a failure instead of raising. */
  method ClearContents(fs: FileSystem, root: Path)
    modifies fs
    ensures fs.entries == Cleared(old(fs.entries), root, fs.undeletable)
  {
    ghost var m := fs.entries;
    var names := ChildNames(fs.entries, root);
    ghost var listed := names;
    ghost var done: set<Name> := {};
    ClearedNone(m, root, fs.undeletable);
    while names != {}
      invariant names !! done && names + done == listed
      invariant fs.entries == ClearedOf(m, root, done, fs.undeletable)
      decreases names
    {
      var n :| n in names;
      var item := root + [n];
      ClearStep(m, root, done, n, fs.undeletable);
      if fs.IsDir(item) {
        fs.RemoveTree(item);
      } else {
        var unlinked := fs.Unlink(item);
      }
      ShiftOne(names, done, n);
      names := names - {n};
      done := done + {n};
    }
  }

  // ---------------------------------------------------------------------
  // The whole call (lines 477-533)

  /** The selection once its `*.enc` files are unlinked (lines 491-497). */
  function Cleaned(m: Fs, sel: Path, walk: seq<Path>, locked: set<Path>): Fs {
    Swept(m, Glob(m, sel, Suffix(EncryptedSuffix), true, walk), locked)
  }

  /** The live data path removed if it exists (lines 500-501). */
  function Vacated(m: Fs, live: Path): Fs {
    if live in m then Without(m, live) else m
  }

  /** The outcome and the entries finalize_restoration(root, live) leaves. */
  function FinalizeSpec(m: Fs, root: Path, live: Path, walk: seq<Path>, locked: set<Path>, now: int)
    : (Outcome, Fs)
  {
    match Selected(m, root, walk)
    case None => (NoVictimData, m)
    case Some(sel) =>
      var m2 := Vacated(Cleaned(m, sel, walk, locked), live);
      if !(sel in m2 && m2[sel].Dir?) then (SourceNotADirectory, m2)
      else
        var m3 := Copied(m2, sel, live, now);
        if !AllReadable(m2, sel) then (CopyIncomplete, m3)
        else (Finalized, Cleared(Pruned(m3, live + [LogsDirName], walk, locked), root, locked))
  }

  /** Lines 504-516 as a loop over the listed entries. */
  method PruneLogs(fs: FileSystem, logs: Path)
    modifies fs
    ensures fs.entries == Pruned(old(fs.entries), logs, fs.walk, fs.undeletable)
  {
    if fs.Exists(logs) {
      var txt := Glob(fs.entries, logs, Suffix(LogSuffix), false, fs.walk);
      if txt != [] {
        var k := FirstMax(Mtimes(fs.entries, txt));
        UnlinkEach(fs, txt[..k] + txt[k + 1..]);
      }
    }
  }

  /** Lines 500-502: rmtree the live path if it exists, then copytree the
      selection onto it. The outcome says whether copytree raised. */
  method ReplaceLive(fs: FileSystem, sel: Path, live: Path) returns (outcome: Outcome)
    requires NoFileOnPath(fs.entries, live) && (live in fs.entries || Vacant(fs.entries, live))
    requires !(sel <= live) && !(live <= sel)
    modifies fs
    ensures var m2 := Vacated(old(fs.entries), live);
            && outcome == (if !(sel in m2 && m2[sel].Dir?) then SourceNotADirectory
                           else if !AllReadable(m2, sel) then CopyIncomplete
                           else Finalized)
            && fs.entries == (if outcome == SourceNotADirectory then m2 else Copied(m2, sel, live, fs.now))
  {
    assert live[..|live|] == live;
    if fs.Exists(live) {
      fs.RemoveTree(live);
    }
    if !fs.IsDir(sel) {
      return SourceNotADirectory;
    }
    var complete := fs.CopyTree(sel, live);
    outcome := if complete then Finalized else CopyIncomplete;
  }

  /** Lines 477-533. The caller keeps the live path and the restore root
      apart, and no regular file sits on the live path (rmtree and makedirs
      would raise). */
  method Finalize(fs: FileSystem, root: Path, live: Path) returns (outcome: Outcome)
    requires WellFormed(fs.entries) && NoFileOnPath(fs.entries, live)
    requires !(root <= live) && !(live <= root)
    modifies fs
    ensures (outcome, fs.entries) == FinalizeSpec(old(fs.entries), root, live, fs.walk, fs.undeletable, fs.now)
  {
    ghost var m := fs.entries;
    var hits := Glob(fs.entries, root, Named(VictimDirName), true, fs.walk);
    if hits == [] {
      return NoVictimData;
    }
    var sel := hits[FirstMax(Lengths(hits))];
    assert sel in hits;

    var encrypted := Glob(fs.entries, sel, Suffix(EncryptedSuffix), true, fs.walk);
    UnlinkEach(fs, encrypted);
    assert live !in encrypted by {
      if live in encrypted {
        PrefixTrans(root, sel, live);
      }
    }
    if live !in m {
      AbsentIsVacant(m, live);
    }
    assert !(sel <= live) by {
      if sel <= live {
        PrefixTrans(root, sel, live);
      }
    }
    assert !(live <= sel) by {
      if live <= sel {
        PrefixesComparable(root, live, sel);
      }
    }
    outcome := ReplaceLive(fs, sel, live);
    if outcome != Finalized {
      return;
    }
    PruneLogs(fs, live + [LogsDirName]);
    ClearContents(fs, root);
  }

  // ---------------------------------------------------------------------
  // What each step leaves alone

  /** Unlinking the selection's `*.enc` files and removing the live path
      change nothing that is neither below the selection nor at or below the
      live path, and add nothing. */
  lemma VacatedAt(m: Fs, sel: Path, live: Path, walk: seq<Path>, locked: set<Path>, p: Path)
    ensures var m2 := Vacated(Cleaned(m, sel, walk, locked), live);
            && (p in m2 ==> p in m && m2[p] == m[p])
            && (p in m && !(sel < p) && !(live <= p) ==> p in m2 && m2[p] == m[p])
  {
  }

  /** copytree adds only the live path's missing ancestors and what is at or
      below the live path. */
  lemma CopiedOutside(m2: Fs, sel: Path, live: Path, now: int, p: Path)
    requires sel in m2 && !(live <= p)
    ensures var m3 := Copied(m2, sel, live, now);
            && (p in m2 ==> p in m3 && m3[p] == m2[p])
            && (p in m3 && p !in m2 ==> p < live && m3[p] == Dir(now))
            && (p in m3 && p in m2 ==> m3[p] == m2[p])
  {
  }

  /** Pruning touches nothing outside the logs directory and adds nothing. */
  lemma PrunedAt(m3: Fs, logs: Path, walk: seq<Path>, locked: set<Path>, p: Path)
    ensures var m4 := Pruned(m3, logs, walk, locked);
            && (p in m4 ==> p in m3 && m4[p] == m3[p])
            && (p in m3 && !(logs < p) ==> p in m4)
  {
    if logs in m3 && p in m3 && !(logs < p) {
      var txt := Glob(m3, logs, Suffix(LogSuffix), false, walk);
      if txt != [] {
        var k := FirstMax(Mtimes(m3, txt));
        assert p !in txt;
        assert p !in txt[..k] + txt[k + 1..];
      }
    }
  }

  /** Emptying the restore root touches nothing outside it and adds nothing. */
  lemma ClearedAt(m4: Fs, root: Path, locked: set<Path>, p: Path)
    ensures var r := Cleared(m4, root, locked);
            && (p in r ==> p in m4 && r[p] == m4[p])
            && (p in m4 && !(root < p) ==> p in r)
  {
  }

  // ---------------------------------------------------------------------
  // Properties of a call

  /** The call returns False exactly when the scan reports no victim_data
      below the restore root, and then changes nothing. */
  lemma FinalizeWithoutVictimData(m: Fs, root: Path, live: Path, walk: seq<Path>, locked: set<Path>, now: int)
    ensures var (outcome, r) := FinalizeSpec(m, root, live, walk, locked, now);
            && (outcome == NoVictimData <==>
                  forall p | p in walk :: !Hit(m, root, Named(VictimDirName), true, p))
            && (outcome == NoVictimData ==> r == m)
            && (ScanCovers(walk, m, root) ==>
                  (outcome == NoVictimData <==> forall p :: !Hit(m, root, Named(VictimDirName), true, p)))
  {
    SelectedIsLongest(m, root, walk);
  }

  /** Whatever the outcome, every entry outside the restore root and the live
      path keeps its place and contents, and the only entries that appear
      outside the live path are its missing ancestors, created as directories. */
  lemma FinalizeLeavesOthers(m: Fs, root: Path, live: Path, walk: seq<Path>, locked: set<Path>, now: int)
    requires !(root <= live) && !(live <= root)
    ensures var r := FinalizeSpec(m, root, live, walk, locked, now).1;
            && (forall p | p in m && !(root <= p) && !(live <= p) :: p in r && r[p] == m[p])
            && (forall p | p in r && p !in m :: live <= p || (p < live && r[p] == Dir(now)))
  {
    var r := FinalizeSpec(m, root, live, walk, locked, now).1;
    SelectedIsLongest(m, root, walk);
    match Selected(m, root, walk)
    case None =>
    case Some(sel) =>
      var m2 := Vacated(Cleaned(m, sel, walk, locked), live);
      forall p | !(live <= p)
        ensures p in m && !(root <= p) ==> p in r && r[p] == m[p]
        ensures p in r && p !in m ==> p < live && r[p] == Dir(now)
      {
        assert !(root <= p) ==> !(sel < p) by {
          if sel < p {
            PrefixTrans(root, sel, p);
          }
        }
        VacatedAt(m, sel, live, walk, locked, p);
        if sel in m2 && m2[sel].Dir? {
          var m3 := Copied(m2, sel, live, now);
          CopiedOutside(m2, sel, live, now, p);
          if AllReadable(m2, sel) {
            var m4 := Pruned(m3, live + [LogsDirName], walk, locked);
            assert !(live + [LogsDirName] < p);
            PrunedAt(m3, live + [LogsDirName], walk, locked, p);
            ClearedAt(m4, root, locked, p);
          }
        }
      }
  }

  /** A path at or below the restore root is neither at or below the live
      path nor one of its ancestors. */
  lemma OffLive(root: Path, live: Path, q: Path)
    requires !(root <= live) && !(live <= root) && root <= q
    ensures !(live <= q) && !(q < live)
  {
    if live <= q {
      PrefixesComparable(root, live, q);
    }
    if q < live {
      PrefixTrans(root, q, live);
    }
  }

  /** Below the restore root, the entries before log pruning's result is
      cleared are those of the initial state, less the selection's unlinked
      `*.enc` files. */
  lemma KeptBelowRoot(m: Fs, root: Path, live: Path, sel: Path, walk: seq<Path>, locked: set<Path>, now: int, q: Path)
    requires !(root <= live) && !(live <= root) && root < sel && root <= q
    requires sel in Vacated(Cleaned(m, sel, walk, locked), live)
    ensures var m3 := Copied(Vacated(Cleaned(m, sel, walk, locked), live), sel, live, now);
            var m4 := Pruned(m3, live + [LogsDirName], walk, locked);
            && (q in m4 ==> q in m && m4[q] == m[q])
            && (q in m && !(sel < q) ==> q in m4 && m4[q] == m[q])
  {
    var m2 := Vacated(Cleaned(m, sel, walk, locked), live);
    var m3 := Copied(m2, sel, live, now);
    OffLive(root, live, q);
    assert !(live + [LogsDirName] < q);
    VacatedAt(m, sel, live, walk, locked, q);
    CopiedOutside(m2, sel, live, now, q);
    PrunedAt(m3, live + [LogsDirName], walk, locked, q);
  }

  /** What survives the clearing loop below root, in a state where every
      entry's ancestors below root are directories. */
  lemma ClearedSurvivor(m4: Fs, root: Path, locked: set<Path>, p: Path)
    requires p in Cleared(m4, root, locked) && root < p
    requires Top(root, p) in m4 && (Top(root, p) != p ==> m4[Top(root, p)].Dir?)
    ensures p == Top(root, p) && m4[p].File? && p in locked
  {
    assert root + [Last(Top(root, p))] == Top(root, p);
  }

  /** After a successful call the restore root holds no directory and no
      file other than those directly in it that the system refused to delete. */
  lemma FinalizedEmptiesRestoreRoot(m: Fs, root: Path, live: Path, walk: seq<Path>, locked: set<Path>, now: int)
    requires WellFormed(m) && !(root <= live) && !(live <= root)
    requires FinalizeSpec(m, root, live, walk, locked, now).0 == Finalized
    ensures var r := FinalizeSpec(m, root, live, walk, locked, now).1;
            forall p | p in r && root < p :: |p| == |root| + 1 && r[p].File? && p in locked
  {
    SelectedIsLongest(m, root, walk);
    var sel := Selected(m, root, walk).value;
    var m3 := Copied(Vacated(Cleaned(m, sel, walk, locked), live), sel, live, now);
    var m4 := Pruned(m3, live + [LogsDirName], walk, locked);
    var r := Cleared(m4, root, locked);
    assert r == FinalizeSpec(m, root, live, walk, locked, now).1;
    forall p | p in r && root < p
      ensures |p| == |root| + 1 && r[p].File? && p in locked
    {
      EmptiedAt(m, root, live, sel, walk, locked, now, p);
    }
  }

  /** FinalizedEmptiesRestoreRoot at one path p below root. */
  lemma EmptiedAt(m: Fs, root: Path, live: Path, sel: Path, walk: seq<Path>, locked: set<Path>, now: int, p: Path)
    requires WellFormed(m) && !(root <= live) && !(live <= root) && root < sel
    requires sel in Vacated(Cleaned(m, sel, walk, locked), live)
    requires var m3 := Copied(Vacated(Cleaned(m, sel, walk, locked), live), sel, live, now);
             p in Cleared(Pruned(m3, live + [LogsDirName], walk, locked), root, locked) && root < p
    ensures |p| == |root| + 1 && p in locked
    ensures var m3 := Copied(Vacated(Cleaned(m, sel, walk, locked), live), sel, live, now);
            Cleared(Pruned(m3, live + [LogsDirName], walk, locked), root, locked)[p].File?
  {
    var m3 := Copied(Vacated(Cleaned(m, sel, walk, locked), live), sel, live, now);
    var m4 := Pruned(m3, live + [LogsDirName], walk, locked);
    var t := Top(root, p);
    assert root < t && t <= p && !(sel < t);
    ClearedAt(m4, root, locked, p);
    KeptBelowRoot(m, root, live, sel, walk, locked, now, p);
    AncestorPresent(m, t, p);
    KeptBelowRoot(m, root, live, sel, walk, locked, now, t);
    if t != p {
      AncestorDir(m, t, p);
    }
    ClearedSurvivor(m4, root, locked, p);
  }

  /** After a successful call the live path holds an exact copy of the
      selection as it was once its `*.enc` files were unlinked, except for
      what log pruning removed below it. */
  lemma FinalizedLiveCopy(m: Fs, root: Path, live: Path, walk: seq<Path>, locked: set<Path>, now: int)
    requires WellFormed(m) && !(root <= live) && !(live <= root)
    requires FinalizeSpec(m, root, live, walk, locked, now).0 == Finalized
    ensures var sel := Selected(m, root, walk).value;
            var m1 := Cleaned(m, sel, walk, locked);
            var m3 := Copied(Vacated(m1, live), sel, live, now);
            && Subtree(m3, live) == Subtree(m1, sel)
            && Subtree(FinalizeSpec(m, root, live, walk, locked, now).1, live) ==
                 Subtree(Pruned(m3, live + [LogsDirName], walk, locked), live)
  {
    SelectedIsLongest(m, root, walk);
    var sel := Selected(m, root, walk).value;
    var m1 := Cleaned(m, sel, walk, locked);
    var m2 := Vacated(m1, live);
    var m3 := Copied(m2, sel, live, now);
    var m4 := Pruned(m3, live + [LogsDirName], walk, locked);
    var r := Cleared(m4, root, locked);
    assert r == FinalizeSpec(m, root, live, walk, locked, now).1;
    if live !in m1 {
      VacatedAt(m, sel, live, walk, locked, live);
      assert !(sel < live) by {
        if sel < live {
          PrefixTrans(root, sel, live);
        }
      }
      AbsentIsVacant(m, live);
    }
    ExactCopy(m2, sel, live, now);
    forall rel
      ensures sel + rel in m2 <==> sel + rel in m1
      ensures sel + rel in m2 ==> m2[sel + rel] == m1[sel + rel]
    {
      PrefixTrans(root, sel, sel + rel);
      OffLive(root, live, sel + rel);
    }
    MapsEqual(Subtree(m2, sel), Subtree(m1, sel));
    forall rel
      ensures live + rel in r <==> live + rel in m4
      ensures live + rel in r ==> r[live + rel] == m4[live + rel]
    {
      ClearedAt(m4, root, locked, live + rel);
      if root < live + rel {
        PrefixesComparable(root, live, live + rel);
      }
    }
    MapsEqual(Subtree(r, live), Subtree(m4, live));
  }

  /** The scans list every entry they can reach: the scan of the restore
      root lists every entry below it, and the scan of a directory of the live
      copy lists the copy of every entry below the root. */
  ghost predicate ScansComplete(m: Fs, root: Path, live: Path, walk: seq<Path>) {
    && ScanCovers(walk, m, root)
    && forall q, i | q in m && root < q && |root| < i <= |q| :: live + q[i..] in walk
  }

  /** After a successful call no `*.enc` regular file that the scan of the
      selection reports survives in the live copy, except those the system
      refused to delete. */
  lemma FinalizedDropsEncrypted(m: Fs, root: Path, live: Path, walk: seq<Path>, locked: set<Path>, now: int)
    requires WellFormed(m) && !(root <= live) && !(live <= root)
    requires FinalizeSpec(m, root, live, walk, locked, now).0 == Finalized
    ensures var sel := Selected(m, root, walk).value;
            var r := FinalizeSpec(m, root, live, walk, locked, now).1;
            forall rel | rel != [] && live + rel in r && r[live + rel].File?
                         && EndsWith(Last(rel), EncryptedSuffix) && sel + rel in walk :: sel + rel in locked
    ensures ScanCovers(walk, m, root) ==>
              var sel := Selected(m, root, walk).value;
              var r := FinalizeSpec(m, root, live, walk, locked, now).1;
              forall rel | rel != [] && live + rel in r && r[live + rel].File?
                           && EndsWith(Last(rel), EncryptedSuffix) :: sel + rel in locked
  {
    var sel := Selected(m, root, walk).value;
    var m1 := Cleaned(m, sel, walk, locked);
    var m3 := Copied(Vacated(m1, live), sel, live, now);
    var logs := live + [LogsDirName];
    var m4 := Pruned(m3, logs, walk, locked);
    var r := FinalizeSpec(m, root, live, walk, locked, now).1;
    FinalizedLiveCopy(m, root, live, walk, locked, now);
    SelectedIsLongest(m, root, walk);
    forall rel | rel != [] && live + rel in r && r[live + rel].File?
                 && EndsWith(Last(rel), EncryptedSuffix) && (sel + rel in walk || ScanCovers(walk, m, root))
      ensures sel + rel in locked
    {
      assert rel in Subtree(r, live);
      assert live + rel in m4 && m4[live + rel] == r[live + rel];
      PrunedAt(m3, logs, walk, locked, live + rel);
      assert rel in Subtree(m3, live);
      assert sel + rel in m1 && m1[sel + rel] == r[live + rel];
      PrefixTrans(root, sel, sel + rel);
      assert sel + rel in walk;
      WellFormedReachable(m, sel, sel + rel);
      assert Last(sel + rel) == Last(rel);
      assert sel + rel in Glob(m, sel, Suffix(EncryptedSuffix), true, walk);
    }
  }

  /** The conclusions of PrunedKeepsNewest carry over to any state that
      agrees with the pruned one on the listed `*.txt` entries. */
  lemma NewestLogCarries(m3: Fs, logs: Path, walk: seq<Path>, locked: set<Path>, r: Fs)
    requires Distinct(walk)
    requires forall p | LogEntry(m3, logs, walk, p) ::
               var m4 := Pruned(m3, logs, walk, locked);
               (p in r <==> p in m4) && (p in r ==> r[p] == m4[p])
    ensures && (forall p | p in r && LogEntry(m3, logs, walk, p) && r[p].File? && p !in locked ::
                  forall q | LogEntry(m3, logs, walk, q) :: m3[q].mtime <= r[p].mtime)
            && (forall p, q | p in r && q in r && LogEntry(m3, logs, walk, p) && LogEntry(m3, logs, walk, q)
                  && r[p].File? && p !in locked && r[q].File? && q !in locked :: p == q)
            && (forall q | LogEntry(m3, logs, walk, q) ::
                  exists p | p in r && LogEntry(m3, logs, walk, p) :: m3[q].mtime <= r[p].mtime)
  {
    PrunedKeepsNewest(m3, logs, walk, locked);
  }

  /** After a successful call, of the `*.txt` entries the copied logs
      directory listed, the regular files that survive and that the system
      would have let go of come down to one, with the greatest mtime, and
      one entry with the greatest mtime always survives. */
  lemma FinalizedKeepsNewestLog(m: Fs, root: Path, live: Path, walk: seq<Path>, locked: set<Path>, now: int)
    requires WellFormed(m) && !(root <= live) && !(live <= root) && Distinct(walk)
    requires FinalizeSpec(m, root, live, walk, locked, now).0 == Finalized
    ensures var sel := Selected(m, root, walk).value;
            var m3 := Copied(Vacated(Cleaned(m, sel, walk, locked), live), sel, live, now);
            var logs := live + [LogsDirName];
            var r := FinalizeSpec(m, root, live, walk, locked, now).1;
            && (forall p | p in r && LogEntry(m3, logs, walk, p) && r[p].File? && p !in locked ::
                  forall q | LogEntry(m3, logs, walk, q) :: m3[q].mtime <= r[p].mtime)
            && (forall p, q | p in r && q in r && LogEntry(m3, logs, walk, p) && LogEntry(m3, logs, walk, q)
                  && r[p].File? && p !in locked && r[q].File? && q !in locked :: p == q)
            && (forall q | LogEntry(m3, logs, walk, q) ::
                  exists p | p in r && LogEntry(m3, logs, walk, p) :: m3[q].mtime <= r[p].mtime)
    ensures ScansComplete(m, root, live, walk) ==>
              var sel := Selected(m, root, walk).value;
              var m3 := Copied(Vacated(Cleaned(m, sel, walk, locked), live), sel, live, now);
              forall p :: LogEntry(m3, live + [LogsDirName], walk, p) <==>
                            Hit(m3, live + [LogsDirName], Suffix(LogSuffix), false, p)
  {
    var sel := Selected(m, root, walk).value;
    var m3 := Copied(Vacated(Cleaned(m, sel, walk, locked), live), sel, live, now);
    var logs := live + [LogsDirName];
    var m4 := Pruned(m3, logs, walk, locked);
    var r := FinalizeSpec(m, root, live, walk, locked, now).1;
    FinalizedLiveCopy(m, root, live, walk, locked, now);
    forall p | LogEntry(m3, logs, walk, p)
      ensures (p in r <==> p in m4) && (p in r ==> r[p] == m4[p])
    {
      assert live <= logs;
      PrefixTrans(live, logs, p);
      SameSubtreeAt(r, m4, live, p);
    }
    NewestLogCarries(m3, logs, walk, locked, r);
    LogsListed(m, root, live, walk, locked, now);
  }

  /** A listing of the live copy's logs directory, over scans that list
      everything they can reach, reports every `*.txt` entry there. */
  lemma LogsListed(m: Fs, root: Path, live: Path, walk: seq<Path>, locked: set<Path>, now: int)
    requires WellFormed(m) && !(root <= live) && !(live <= root)
    requires FinalizeSpec(m, root, live, walk, locked, now).0 == Finalized
    ensures ScansComplete(m, root, live, walk) ==>
              var sel := Selected(m, root, walk).value;
              var m3 := Copied(Vacated(Cleaned(m, sel, walk, locked), live), sel, live, now);
              forall p :: LogEntry(m3, live + [LogsDirName], walk, p) <==>
                            Hit(m3, live + [LogsDirName], Suffix(LogSuffix), false, p)
  {
    if ScansComplete(m, root, live, walk) {
      SelectedIsLongest(m, root, walk);
      FinalizedLiveCopy(m, root, live, walk, locked, now);
      var sel := Selected(m, root, walk).value;
      var m1 := Cleaned(m, sel, walk, locked);
      var m3 := Copied(Vacated(m1, live), sel, live, now);
      var logs := live + [LogsDirName];
      forall p | Hit(m3, logs, Suffix(LogSuffix), false, p)
        ensures p in walk
      {
        PrefixTrans(live, logs, p);
        CopyScanned(m, root, sel, live, m1, m3, walk, p);
      }
    }
  }

  /** An entry below a copy of a selection below root, taken from a part of
      m, is listed by scans that list everything they can reach. */
  lemma CopyScanned(m: Fs, root: Path, sel: Path, live: Path, m1: Fs, m3: Fs, walk: seq<Path>, p: Path)
    requires ScansComplete(m, root, live, walk) && root < sel
    requires forall q | q in m1 :: q in m
    requires Subtree(m3, live) == Subtree(m1, sel)
    requires p in m3 && live <= p
    ensures p in walk
  {
    var rel := p[|live|..];
    assert live + rel == p;
    assert rel in Subtree(m3, live);
    assert sel + rel in m1;
    PrefixTrans(root, sel, sel + rel);
    assert (sel + rel)[|sel|..] == rel;
    assert live + (sel + rel)[|sel|..] in walk;
  }
}
