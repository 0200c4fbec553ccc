/**
 * The periodic baseline tick, ensure_baseline_snapshot: list the
 * repository's snapshots and take a backup tagged "baseline" only when no
 * line of the listing starts with "snapshot ".
 */
module Scheduler {
  import opened Wrappers
  import opened Files
  import opened Restic

  /** The prefix a listing line must start with to count as a snapshot. */
  const SnapshotLinePrefix: string := "snapshot "

  /** The characters str.splitlines treats as line boundaries. */
  predicate IsLineBreak(c: char) {
    c == '\n' || c == '\r' || c == '\U{B}' || c == '\U{C}' || c == '\U{1C}' || c == '\U{1D}'
    || c == '\U{1E}' || c == '\U{85}' || c == '\U{2028}' || c == '\U{2029}'
  }

  predicate StartsWith(s: string, prefix: string) {
    |prefix| <= |s| && s[..|prefix|] == prefix
  }

  /** The end of the line that starts at i: the first line boundary at or
      after i, or the end of s. */
  function LineEnd(s: string, i: nat): (k: nat)
    requires i <= |s|
    ensures i <= k <= |s|
    ensures forall j | i <= j < k :: !IsLineBreak(s[j])
    ensures k < |s| ==> IsLineBreak(s[k])
    decreases |s| - i
  {
    if i == |s| || IsLineBreak(s[i]) then i else LineEnd(s, i + 1)
  }

  /** str.splitlines(): the lines of s without their terminators; "\r\n"
      ends a single line, and a final terminator does not start a new one. */
  function SplitLines(s: string): seq<string>
    decreases |s|
  {
    if s == [] then []
    else
      var k := LineEnd(s, 0);
      if k == |s| then [s]
      else
        [s[..k]] + SplitLines(s[NextLine(s, k)..])
  }

  /** Some line of lines starts with p. */
  predicate SomeLineStartsWith(lines: seq<string>, p: string) {
    exists line | line in lines :: StartsWith(line, p)
  }

  /** Line 134: some line of the listing starts with "snapshot ". */
  predicate HasSnapshotLine(stdout: string) {
    SomeLineStartsWith(SplitLines(stdout), SnapshotLinePrefix)
  }

  /** Position i of s is where a line starts. */
  predicate LineStartAt(s: string, i: nat)
    requires i <= |s|
  {
    i == 0 || IsLineBreak(s[i - 1])
  }

  /** Some line start of s is followed by p. */
  predicate LineStartsWith(s: string, p: string) {
    exists i | 0 <= i <= |s| :: LineStartAt(s, i) && StartsWith(s[i..], p)
  }

  /** A prefix without line boundaries starts the first line exactly when it
      starts the whole text. */
  lemma FirstLinePrefix(s: string, k: nat, p: string)
    requires k <= |s| && (k < |s| ==> IsLineBreak(s[k]))
    requires forall j | 0 <= j < |p| :: !IsLineBreak(p[j])
    ensures StartsWith(s[..k], p) <==> StartsWith(s, p)
  {
    if StartsWith(s, p) && |p| <= k {
      assert s[..k][..|p|] == s[..|p|];
    }
    if StartsWith(s[..k], p) {
      assert s[..k][..|p|] == s[..|p|];
    }
  }

  /** Dropping a prefix that ends in a line boundary keeps the line starts
      after it. */
  lemma LineStartShift(s: string, next: nat, i: nat)
    requires 0 < next <= |s| && IsLineBreak(s[next - 1]) && i <= |s| - next
    ensures LineStartAt(s[next..], i) <==> LineStartAt(s, i + next)
    ensures s[next..][i..] == s[i + next..]
  {
  }

  /** A line start after the first line of s lies in what follows the first
      line's terminator. */
  lemma LaterLineStart(s: string, p: string, k: nat, next: nat, i: nat)
    requires p != [] && !IsLineBreak(p[0])
    requires k < |s| && IsLineBreak(s[k]) && forall j | 0 <= j < k :: !IsLineBreak(s[j])
    requires next == NextLine(s, k)
    requires 0 < i <= |s| && LineStartAt(s, i) && StartsWith(s[i..], p)
    ensures next <= i
  {
    assert s[i] == p[0];
  }

  /** The boundary after the first line of s, and where the next line
      starts: "\r\n" is one boundary. */
  function NextLine(s: string, k: nat): nat
    requires k < |s|
  {
    if s[k] == '\r' && k + 1 < |s| && s[k + 1] == '\n' then k + 2 else k + 1
  }

  /** A text without line boundaries is a single line. */
  lemma SingleLine(s: string, p: string)
    requires s != [] && LineEnd(s, 0) == |s|
    requires p != [] && forall j | 0 <= j < |p| :: !IsLineBreak(p[j])
    ensures SomeLineStartsWith(SplitLines(s), p) <==> LineStartsWith(s, p)
  {
    assert SplitLines(s) == [s];
    assert s[0..] == s;
    assert SomeLineStartsWith([s], p) <==> StartsWith(s, p) by {
      assert forall line :: line in [s] <==> line == s;
    }
    if LineStartsWith(s, p) {
      var i :| 0 <= i <= |s| && LineStartAt(s, i) && StartsWith(s[i..], p);
      assert i == 0;
    }
  }

  /** The lines of s are its first line followed by the lines of the rest. */
  lemma FirstLineSplit(s: string, p: string)
    requires s != [] && LineEnd(s, 0) < |s|
    requires p != [] && forall j | 0 <= j < |p| :: !IsLineBreak(p[j])
    ensures var k := LineEnd(s, 0);
            SomeLineStartsWith(SplitLines(s), p) <==>
            StartsWith(s, p) || SomeLineStartsWith(SplitLines(s[NextLine(s, k)..]), p)
  {
    var k := LineEnd(s, 0);
    var lines := SplitLines(s[NextLine(s, k)..]);
    assert SplitLines(s) == [s[..k]] + lines;
    FirstLinePrefix(s, k, p);
    assert forall line :: line in [s[..k]] + lines <==> line == s[..k] || line in lines;
  }

  /** A line start of what follows a line boundary is a line start of s. */
  lemma RestLineStart(s: string, p: string, next: nat)
    requires 0 < next <= |s| && IsLineBreak(s[next - 1])
    requires LineStartsWith(s[next..], p)
    ensures LineStartsWith(s, p)
  {
    var i :| 0 <= i <= |s[next..]| && LineStartAt(s[next..], i) && StartsWith(s[next..][i..], p);
    LineStartShift(s, next, i);
    assert LineStartAt(s, i + next) && StartsWith(s[i + next..], p);
  }

  /** A line start of s other than its start lies after the first line. */
  lemma LaterLineStartsWith(s: string, p: string)
    requires s != [] && LineEnd(s, 0) < |s|
    requires p != [] && forall j | 0 <= j < |p| :: !IsLineBreak(p[j])
    requires LineStartsWith(s, p) && !StartsWith(s, p)
    ensures LineStartsWith(s[NextLine(s, LineEnd(s, 0))..], p)
  {
    var k := LineEnd(s, 0);
    var next := NextLine(s, k);
    assert s[0..] == s;
    var i :| 0 <= i <= |s| && LineStartAt(s, i) && StartsWith(s[i..], p);
    assert !IsLineBreak(p[0]);
    LaterLineStart(s, p, k, next, i);
    BreakBeforeNextLine(s, k);
    ShiftWitness(s, p, next, i);
  }

  /** A line start at or after a line boundary is one of the rest. */
  lemma ShiftWitness(s: string, p: string, next: nat, i: nat)
    requires 0 < next <= i <= |s| && IsLineBreak(s[next - 1])
    requires LineStartAt(s, i) && StartsWith(s[i..], p)
    ensures LineStartsWith(s[next..], p)
  {
    var rest := s[next..];
    var j := i - next;
    LineStartShift(s, next, j);
    assert LineStartAt(rest, j) && StartsWith(rest[j..], p);
  }

  /** The character before the next line's start is a line boundary. */
  lemma BreakBeforeNextLine(s: string, k: nat)
    requires k < |s| && IsLineBreak(s[k])
    ensures 0 < NextLine(s, k) <= |s| && IsLineBreak(s[NextLine(s, k) - 1])
  {
  }

  /** The line starts of s are its start and the line starts of the rest. */
  lemma FirstLineStarts(s: string, p: string)
    requires s != [] && LineEnd(s, 0) < |s|
    requires p != [] && forall j | 0 <= j < |p| :: !IsLineBreak(p[j])
    ensures var k := LineEnd(s, 0);
            LineStartsWith(s, p) <==> StartsWith(s, p) || LineStartsWith(s[NextLine(s, k)..], p)
  {
    var next := NextLine(s, LineEnd(s, 0));
    if StartsWith(s, p) {
      assert s[0..] == s && LineStartAt(s, 0);
    }
    if LineStartsWith(s[next..], p) {
      RestLineStart(s, p, next);
    }
    if LineStartsWith(s, p) && !StartsWith(s, p) {
      LaterLineStartsWith(s, p);
    }
  }

  /** Splitting into lines and asking whether one starts with p is the same
      as asking whether p follows the start of the text or a line boundary,
      for any non-empty p free of line boundaries (such as "snapshot "). */
  lemma {:induction false} LinesStartingWith(s: string, p: string)
    requires p != [] && forall j | 0 <= j < |p| :: !IsLineBreak(p[j])
    ensures SomeLineStartsWith(SplitLines(s), p) <==> LineStartsWith(s, p)
    decreases |s|
  {
    if s == [] {
      assert !StartsWith(s[0..], p);
    } else if LineEnd(s, 0) == |s| {
      SingleLine(s, p);
    } else {
      var next := NextLine(s, LineEnd(s, 0));
      LinesStartingWith(s[next..], p);
      FirstLineSplit(s, p);
      FirstLineStarts(s, p);
    }
  }

  /** Line 134 in one sentence: the listing shows a snapshot exactly when
      "snapshot " follows its start or one of its line boundaries. */
  lemma SnapshotLineAnywhere(stdout: string)
    ensures HasSnapshotLine(stdout) <==> LineStartsWith(stdout, SnapshotLinePrefix)
  {
    LinesStartingWith(stdout, SnapshotLinePrefix);
  }

  /** What `restic backup DATA_DIR --tag baseline` would record when it
      succeeds: the new snapshot's id and time, and the tree a later restore
      of it writes. */
  datatype BackupRun = BackupRun(id: SnapshotId, time: int, tree: Fs)

  /** How one tick ends. ListingFailed and BackupFailed are the two
      sys.exit(1) paths. */
  datatype Tick =
    | ListingFailed
    | BaselinePresent
    | BaselineTaken(snap: Snapshot)
    | BackupFailed

  /** Lines 114-146: one tick on repository repo. listing is the standard
      output of `restic snapshots --no-lock` (None when it exits non-zero);
      backup is the backup the tick would run (None when it fails). */
  function EnsureBaselineSnapshot(repo: Repository, listing: Option<string>, backup: Option<BackupRun>)
    : (Tick, Repository)
  {
    if listing.None? then (ListingFailed, repo)
    else if HasSnapshotLine(listing.value) then (BaselinePresent, repo)
    else if backup.None? then (BackupFailed, repo)
    else
      var b := backup.value;
      var snap := Snapshot(b.id, b.time, {BaselineTag});
      (BaselineTaken(snap),
       repo.(snapshots := repo.snapshots + [snap], restorable := repo.restorable[b.id := b.tree]))
  }

  /** A tick takes a baseline exactly when the listing succeeded, no line of
      it starts with "snapshot ", and the backup succeeded; every other tick
      leaves the repository as it was. */
  lemma TickCreatesIffNoSnapshotLine(repo: Repository, listing: Option<string>, backup: Option<BackupRun>)
    ensures var (tick, repo') := EnsureBaselineSnapshot(repo, listing, backup);
            && (tick.BaselineTaken? <==>
                  listing.Some? && !LineStartsWith(listing.value, SnapshotLinePrefix) && backup.Some?)
            && (!tick.BaselineTaken? ==> repo' == repo)
            && (tick.ListingFailed? <==> listing.None?)
  {
    if listing.Some? {
      SnapshotLineAnywhere(listing.value);
    }
  }

  /** The snapshot a tick takes, tagged baseline, is appended as the last
      entry of both listings and can be restored to the backed-up tree;
      nothing already listed is lost. */
  lemma TickAppendsBaseline(repo: Repository, listing: Option<string>, backup: Option<BackupRun>)
    requires EnsureBaselineSnapshot(repo, listing, backup).0.BaselineTaken?
    ensures var (tick, repo') := EnsureBaselineSnapshot(repo, listing, backup);
            && repo'.snapshots == repo.snapshots + [tick.snap]
            && tick.snap.tags == {BaselineTag}
            && Baselines(repo'.snapshots) == Baselines(repo.snapshots) + [tick.snap]
            && tick.snap.id == backup.value.id
            && repo'.restorable[tick.snap.id] == backup.value.tree
            && repo'.listable == repo.listable
  {
    var snap := EnsureBaselineSnapshot(repo, listing, backup).0.snap;
    BaselinesAppend(repo.snapshots, snap);
  }
}
