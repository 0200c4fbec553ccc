# Verified model of a restic ransomware-recovery lab

The lab notebook `Updated_Automated/simulateransom+restore_periodic.py` sets up a
data directory and a restic repository. It takes `baseline` snapshots on a
schedule, simulates a ransomware attack, and then recovers. This project
models the three functions that make decisions, and proves what they
guarantee:

- `ensure_baseline_snapshot`: one tick of the baseline scheduler. It runs a
  `restic backup --tag baseline` only when no line of the
  `restic snapshots` listing starts with `"snapshot "`.
- `restore_latest_clean_baseline`: the recovery orchestrator. It lists the
  `baseline` snapshots and sorts them newest first with a stable sort. It
  restores each one into its own staging directory `tmp_root/<id>`. A
  snapshot passes the trust gate when the first `victim_data` folder the
  scan reports holds a readable `docs/report_Q1.txt`. The first snapshot that
  passes is promoted: the restore directory is wiped and everything staged
  is moved into it. `tmp_root` is removed on every path.
- `finalize_restoration`: the finalizer. It picks the `victim_data` match
  with the longest path string and unlinks every `*.enc` file below it. It
  replaces the live data path with a copy of the match. It then keeps only
  the newest `*.txt` file in the copy's `logs` folder and empties the
  restore root.

The modules:

- `Files` (`files.dfy`) models the file system. It is a map from absolute
  paths (sequences of names) to directories and regular files. A regular
  file has its bytes, a flag saying whether it can be read, and its mtime.
  The `FileSystem` class holds the entries and changes them in place. Its
  methods are the library calls the code makes: `open(...).read(1)`,
  `shutil.rmtree`, `Path.mkdir(parents=True)`, `Path.unlink`, `shutil.move`
  and `shutil.copytree`. The class also has three constants:
  - the order in which the operating system's scan reports paths (`walk`);
  - the paths whose unlink the operating system refuses (`undeletable`);
  - the clock that stamps new directories (`now`).

  `rglob`, `glob` and `iterdir` are functions over these. `rglob` promises
  every match below its root, so `ScanCovers` states that the scan lists
  every entry there. Each lemma about the scans states its conclusion for
  the paths the scan reports, and also, under `ScanCovers`, for every match
  in the file system. In `Finalizer`, `ScansComplete` states the same for
  the two scans of one call: the scan of the restore root, and the listing
  of the live copy's `logs` folder.
- `Restic` (`restic.dfy`) models the repository. It holds:
  - the snapshot records in listing order, each with an id, an integer time
    and tags;
  - whether listing succeeds;
  - for each id whose restore succeeds, the tree the restore writes.

  It also has the stable newest-first sort and `restic restore`.
- `Scheduler` (`scheduler.dfy`) has `str.splitlines` and the `"snapshot "`
  test. It models one scheduler tick as a function that returns the tick's
  outcome and the new repository.
- `Recovery` (`recovery.dfy`) has two parts:
  - a specification of which snapshot is promoted (`Recover`) and what the
    file system looks like afterwards (`Promoted`);
  - the orchestrator as a method on `FileSystem`, proved against that
    specification.
- `Finalizer` (`finalizer.dfy`) has two parts:
  - `FinalizeSpec`, which gives the outcome and the resulting file system;
  - the finalizer as a method with its three loops, proved equal to
    `FinalizeSpec`. The lemmas about `FinalizeSpec` prove what a call
    guarantees.

The model follows the code at these points, even where the docstrings or the
lab's stated design suggest otherwise:

- The scheduler's listing has no tag filter. A baseline is taken exactly
  when no line of the listing text starts with `"snapshot "`, whatever tags
  the listed snapshots carry. Whether such a line appears depends on how
  restic renders the listing, and the model takes the text as an input.
- The finalizer chooses the match with the longest path string. This is
  not always the deepest match. When two matches are equally long, it picks
  the one the scan reports first.
- The orchestrator checks the first `victim_data` match the scan reports,
  not the deepest one. It moves the whole staging directory, not only
  `victim_data`.
- The trust gate reads one character. An empty critical file passes, so a
  baseline whose `report_Q1.txt` was truncated to zero bytes is promoted.
- The sort has no tiebreak on the id. Baselines created at the same time
  keep their listing order.
- Besides returning `False`, the finalizer can end in two more ways:
  - `shutil.copytree` raises `NotADirectoryError` when the selected match is
    a file;
  - it raises `shutil.Error` after copying what it could read.

  The model reports each of these as its own outcome.

## Model

All source paths are `Updated_Automated/simulateransom+restore_periodic.py`.

| member | source | states |
|---|---|---|
| Files.Glob | Updated_Automated/simulateransom+restore_periodic.py:278 | `rglob`/`glob` report a path exactly when the scan lists it and it lies below the root, reached through directories, and matches the pattern. |
| Files.GlobAppend | Updated_Automated/simulateransom+restore_periodic.py:278 | The glob keeps the scan's order: over a scan of `a` then `b` it reports the matches in `a`, in `a`'s order, then those in `b`. |
| Files.GlobFirst | Updated_Automated/simulateransom+restore_periodic.py:277-281 | The first match the glob reports is the first hit of the scan. |
| Files.GlobComplete | Updated_Automated/simulateransom+restore_periodic.py:278 | When the scan lists every entry below the root, the glob reports exactly the matches: the entries below the root, reached through directories, whose name fits the pattern. |
| Files.GlobDistinct | Updated_Automated/simulateransom+restore_periodic.py:507 | A scan that reports each path once gives a glob that reports each match once. |
| Files.ChildNames | Updated_Automated/simulateransom+restore_periodic.py:302 | `iterdir` lists a name exactly when that name is a direct child of the directory. |
| Files.MakeDirs | Updated_Automated/simulateransom+restore_periodic.py:299 | `mkdir(parents=True)` keeps every entry, creates the path, and adds only missing ancestors of the path, as new directories. |
| Files.MakeDirsCreatesPath | Updated_Automated/simulateransom+restore_periodic.py:299 | In a well-formed tree with no regular file on the way, `mkdir(parents=True)` leaves the path and every ancestor a directory, and the tree stays well-formed. |
| Files.CopyLayout | Updated_Automated/simulateransom+restore_periodic.py:501 | `copytree` puts at `dst + rel` exactly the directories and readable files at `src + rel`, with the same contents and mtimes. It keeps every existing entry. Apart from the copy it adds only missing ancestors of `dst`. With every file readable, the copy equals the source subtree. |
| Files.ExactCopy | Updated_Automated/simulateransom+restore_periodic.py:501 | When every file below the source is readable, the tree below the destination equals the tree below the source. |
| Files.FileSystem.ReadFirst | Updated_Automated/simulateransom+restore_periodic.py:289-294 | Opening and reading one character succeeds exactly when the path is a regular file whose `readable` flag is set. Its length does not matter. |
| Files.FileSystem.RemoveTree | Updated_Automated/simulateransom+restore_periodic.py:297-298 | `rmtree` on a directory removes it and everything below it, and nothing else. |
| Files.FileSystem.Mkdir | Updated_Automated/simulateransom+restore_periodic.py:299 | `mkdir(parents=True)` on a missing path leaves the state described by `MakeDirs`. In a well-formed tree that has its root, the path and all its ancestors are then directories and the tree stays well-formed. |
| Files.FileSystem.Unlink | Updated_Automated/simulateransom+restore_periodic.py:492-496 | `unlink` succeeds exactly on a regular file the operating system lets go of. It then removes only that entry; when it fails, nothing changes. |
| Files.FileSystem.Rename | Updated_Automated/simulateransom+restore_periodic.py:303 | `shutil.move` onto a free name moves the whole subtree there and removes it from its old place. |
| Files.FileSystem.CopyTree | Updated_Automated/simulateransom+restore_periodic.py:501 | `copytree` reports completion exactly when every file below the source is readable. The new state is the copy described by `CopyLayout`. |
| Files.FileSystem.WriteTree | Updated_Automated/simulateransom+restore_periodic.py:269-272 | Writing a restored tree below a directory adds the tree's entries there, and an entry it writes replaces the one at the same path. |
| Restic.Baselines | Updated_Automated/simulateransom+restore_periodic.py:235-239 | The `--tag baseline` listing holds exactly the snapshots that carry the tag. |
| Restic.BaselinesAppend | Updated_Automated/simulateransom+restore_periodic.py:139-141 | A snapshot added at the end of the listing appears at the end of the baseline listing exactly when it carries the tag. |
| Restic.NewestFirstIsOrdered | Updated_Automated/simulateransom+restore_periodic.py:251 | The sorted candidates have non-increasing creation times. |
| Restic.NewestFirstIsPermutation | Updated_Automated/simulateransom+restore_periodic.py:251 | The sorted candidates are the listed baselines, each as often as it is listed. |
| Restic.NewestFirstIsStable | Updated_Automated/simulateransom+restore_periodic.py:251 | Baselines created at the same time keep their listing order. |
| Restic.Restore | Updated_Automated/simulateransom+restore_periodic.py:267-275 | `restic restore` succeeds exactly for a restorable id and then writes that snapshot's tree below the target. A failed restore writes nothing. |
| Scheduler.LineEnd | Updated_Automated/simulateransom+restore_periodic.py:134 | The end of a line is the first line boundary `str.splitlines` recognises, or the end of the text. |
| Scheduler.LinesStartingWith | Updated_Automated/simulateransom+restore_periodic.py:134 | Take a non-empty prefix without line boundaries. Some line from `splitlines` starts with it exactly when it follows the start of the text or a line boundary. |
| Scheduler.SnapshotLineAnywhere | Updated_Automated/simulateransom+restore_periodic.py:134 | The listing shows a snapshot exactly when `"snapshot "` follows its start or a line boundary. |
| Scheduler.TickCreatesIffNoSnapshotLine | Updated_Automated/simulateransom+restore_periodic.py:114-146 | A tick takes a baseline exactly when the listing succeeded, no line starts with `"snapshot "`, and the backup succeeded. Every other tick leaves the repository unchanged. The listing fails exactly on the first `sys.exit` path. |
| Scheduler.TickAppendsBaseline | Updated_Automated/simulateransom+restore_periodic.py:138-142 | A baseline that is taken is tagged `baseline` and is appended as the last entry of the snapshot listing and of the baseline listing, so no listed snapshot is lost. It restores to the backed-up tree. |
| Recovery.InspectVerdict | Updated_Automated/simulateransom+restore_periodic.py:277-293 | The gate checks the first `victim_data` the scan reports. "No data root" comes exactly when the scan reports none, and under `ScanCovers` exactly when there is none below the staging directory. With `walk[k]` the first reported one: the verdict is Trusted at `walk[k]` exactly when `walk[k]/docs/report_Q1.txt` is a readable regular file, CriticalMissing exactly when it is absent, and CriticalUnreadable exactly when it exists but cannot be read. |
| Recovery.FirstTrusted | Updated_Automated/simulateransom+restore_periodic.py:258-306 | The loop stops at the first candidate that passes the trust gate. Every candidate before it fails the gate. |
| Recovery.RecoverSucceedsIffSomeTrusted | Updated_Automated/simulateransom+restore_periodic.py:234-309 | Recovery promotes a snapshot exactly when the listing succeeds and some baseline's staged restore passes the trust gate. |
| Recovery.RecoverPrefersNewest | Updated_Automated/simulateransom+restore_periodic.py:249-306 | The promoted snapshot is a baseline that passes the trust gate. Every baseline created strictly later fails it. |
| Recovery.NewerListedEarlier | Updated_Automated/simulateransom+restore_periodic.py:251 | In the newest-first list, a snapshot newer than the one at position k is tried before k. |
| Recovery.CandidatesKeepListingOrderOnTies | Updated_Automated/simulateransom+restore_periodic.py:251 | Candidates with equal times are tried in listing order. |
| Recovery.PromotedLayout | Updated_Automated/simulateransom+restore_periodic.py:296-303 | After promotion the restore directory is a directory that holds exactly the staged tree. Everything outside it is as before, and only its ancestors are added. |
| Recovery.MoveContents | Updated_Automated/simulateransom+restore_periodic.py:302-303 | Moving every entry `iterdir` lists leaves the staging directory empty. The target then holds exactly the staged tree. |
| Recovery.StageSnapshot | Updated_Automated/simulateransom+restore_periodic.py:262-275 | The staging directory is recreated empty and the restore runs. The result says whether the restore succeeded. On success the directory holds exactly the snapshot's tree. Only entries below `tmp_root` change. When the restore fails, the staging directory is an empty directory. |
| Recovery.Promote | Updated_Automated/simulateransom+restore_periodic.py:296-312 | Promotion followed by the `finally` cleanup leaves the state described by `Promoted`, with `tmp_root` gone. |
| Recovery.RestoreLatestCleanBaseline | Updated_Automated/simulateransom+restore_periodic.py:224-312 | The promoted id is the one `Recover` picks, and `ok` holds exactly when one is promoted. With no promotion the file system is unchanged. On success it is `Promoted` with that snapshot's tree. `tmp_root` is gone on every path. |
| Finalizer.FirstMax | Updated_Automated/simulateransom+restore_periodic.py:507-509 | The head of a stable descending sort is the first index whose key is the maximum. Every earlier key is strictly smaller. |
| Finalizer.LongerBelow | Updated_Automated/simulateransom+restore_periodic.py:482 | A path strictly below another has a longer path string. |
| Finalizer.SelectedIsLongest | Updated_Automated/simulateransom+restore_periodic.py:482-487 | Nothing is selected exactly when the scan reports no `victim_data` below the root. Otherwise the selection is a reported match, no reported match is longer, and none lies below it. Under `ScanCovers` this holds for every `victim_data` below the root: nothing is selected exactly when there is none, and no match at all is longer or below the selection. Ties go to the first-reported match: every match the scan reports before the selection's first appearance is strictly shorter. |
| Finalizer.ReportedFirstIsShorter | Updated_Automated/simulateransom+restore_periodic.py:482-487 | Every match the scan reports before the selection's first appearance is strictly shorter than the selection, which is the stable sort's tie-break. |
| Finalizer.UnlinkEach | Updated_Automated/simulateransom+restore_periodic.py:491-497 | The unlink loop leaves the state described by `Swept`. |
| Finalizer.SweepLeavesLocked | Updated_Automated/simulateransom+restore_periodic.py:491-497 | After unlinking a scan's matches, every reported matching regular file that is left is one the operating system refused to delete. Under `ScanCovers` this holds for every matching regular file below the root. Only matches are removed, and directories stay. |
| Finalizer.PrunedKeepsNewest | Updated_Automated/simulateransom+restore_periodic.py:504-516 | Pruning drops only listed `*.txt` entries. An entry with the greatest mtime always survives. Every surviving deletable regular file among them has the greatest mtime, and there is at most one. Under `ScanCovers` the listed entries are every `*.txt` entry directly in the logs folder. |
| Finalizer.PruneLogs | Updated_Automated/simulateransom+restore_periodic.py:504-516 | The pruning step leaves the state described by `Pruned`. |
| Finalizer.ClearStep | Updated_Automated/simulateransom+restore_periodic.py:523-531 | One pass of the clearing loop removes a directory with everything in it, or unlinks anything else unless the operating system refuses. |
| Finalizer.ClearContents | Updated_Automated/simulateransom+restore_periodic.py:523-531 | The clearing loop leaves the state described by `Cleared`. |
| Finalizer.ReplaceLive | Updated_Automated/simulateransom+restore_periodic.py:499-501 | The old live path is removed, then the selection is copied. `copytree` either raises on a selection that is not a directory, copies what it can read and raises, or completes. |
| Finalizer.Finalize | Updated_Automated/simulateransom+restore_periodic.py:477-533 | The outcome and the new state are those of `FinalizeSpec`. |
| Finalizer.FinalizeWithoutVictimData | Updated_Automated/simulateransom+restore_periodic.py:482-485 | The call returns False exactly when the scan reports no `victim_data` below the restore root, and then nothing changes. Under `ScanCovers` it returns False exactly when there is no `victim_data` below the restore root. |
| Finalizer.FinalizeLeavesOthers | Updated_Automated/simulateransom+restore_periodic.py:477-533 | For every outcome: entries outside the restore root and the live path stay as they were, and nothing new appears except at or below the live path and its missing ancestors. |
| Finalizer.FinalizedEmptiesRestoreRoot | Updated_Automated/simulateransom+restore_periodic.py:523-531 | After a successful call, the only things left below the restore root are regular files directly inside it that the operating system refused to delete. |
| Finalizer.LogsListed | Updated_Automated/simulateransom+restore_periodic.py:505-507 | When the scans list everything they can reach, the listing of the copied logs folder reports every `*.txt` entry directly in it. |
| Finalizer.FinalizedLiveCopy | Updated_Automated/simulateransom+restore_periodic.py:491-502 | After a successful call, the live path is an exact copy of the selection once its `*.enc` files were unlinked. The only later change is log pruning. |
| Finalizer.FinalizedDropsEncrypted | Updated_Automated/simulateransom+restore_periodic.py:491-497 | After a successful call, every `*.enc` regular file left in the live copy whose original the scan reported was refused deletion by the operating system. Under `ScanCovers` this holds for every `*.enc` regular file in the live copy. |
| Finalizer.FinalizedKeepsNewestLog | Updated_Automated/simulateransom+restore_periodic.py:504-516 | After a successful call, a `*.txt` entry of the copied logs folder with the greatest mtime survives. The deletable regular files left among them come down to at most one, and it has the greatest mtime. Under `ScansComplete` the listed entries are every `*.txt` entry directly in the copied logs folder. |

## Left out

- The notebook's setup cells, shell cells and the attack simulation. This
  covers mounting the drive, `restic init`, `openssl` encryption and
  `diff`/`tree` reports. All of it is environment set-up and I/O.
- The watchdog observer that backs up on every file close, the producer
  thread, and the `start_periodic_baseline` loop with its `sleep`. These are
  threads and timing, so only one scheduler tick is modelled.
- `print_current_snapshots` and `mark_attack_snapshot`: a subprocess call and
  printing, with no decisions.
- restic's internals. The repository is an oracle: its listing, whether
  listing succeeds, and which ids restore to which tree. The scheduler's
  listing output and the success of its backup are inputs to the tick.
- ISO-8601 parsing: snapshot times are integers with the same order.
- Messages printed to standard output and standard error.
- The `sys.exit(1)` paths of the scheduler tick: they are outcomes of the
  tick (`ListingFailed`, `BackupFailed`).
- A JSON listing that does not parse, and a staging id that is not a valid
  file name.
- Recovery.RestoreLatestCleanBaseline: requires that no regular file sits on
  the paths of `tmp_root` or the restore directory, and that neither path is
  inside the other. With a file there, `rmtree` or `mkdir` would raise.
- Finalizer.Finalize: requires that no regular file sits on the live path's
  ancestors and that the restore root and the live path are not inside each
  other. With a file there, `rmtree` or `copytree` would raise.
- Files.FileSystem.RemoveTree: `rmtree` is modelled as never failing partway
  through. It removes everything below a directory, even files whose unlink
  the operating system refuses. In the orchestrator, the real `rmtree` of
  the restore directory (lines 297-298) or of `tmp_root` (line 312) would
  raise on such a file and leave part of the tree behind.
- Finalizer.FinalizedEmptiesRestoreRoot: it relies on `rmtree` removing
  whole sub-directories. A refused file deep inside one would make the real
  `rmtree` raise partway through. The loop at lines 523-531 catches that,
  and the sub-directory survives with the refused file in it. The model
  promises that only refused files directly inside the restore root
  survive, and does not capture such partial removals.
- Files.FileSystem.ReadFirst: text-mode decoding of the first character in
  the locale's encoding is not modelled. A readable file whose first bytes
  do not decode raises `UnicodeDecodeError`, which line 292 catches as a
  failed check. In the model such a file passes the gate.
- Files.FileSystem.Unlink, Mkdir, Rename, WriteTree, RemoveTree and
  CopyTree: no operation updates the mtime of the parent directory it
  changes. `st_mtime` is a float in Python and an integer here.
- Restic.Restore: a failed `restic restore` is modelled as writing nothing.
  Real restic can fail partway and leave some files behind. The staging
  directory is then skipped and removed with `tmp_root`, so the outcome of
  the recovery does not change.
- Recovery.RestoreLatestCleanBaseline: a snapshot's tree is not required
  to hold the directories above each of its entries, so the model does not
  show that the state after recovery is well-formed, which
  `Finalizer.Finalize` requires of its input.
- Files.MakeDirs: like `Path.mkdir(parents=True)`, it stops climbing at the
  first ancestor that exists. That every ancestor then exists is promised
  only for a well-formed tree (`MakeDirsCreatesPath`).
- Files.FileSystem.Rename: `shutil.move` is modelled as a rename; it never
  copies across devices.
- Finalizer.PruneLogs: old logs are unlinked in scan order rather than
  sorted order. The resulting state is the same, because each unlink touches
  only its own file.
- Finalizer.PathLength: it measures a path by its names plus one separator
  each. Only paths below the restore root are compared, so this has the
  same order as `len(str(p))`.
- Finalizer.PrunedKeepsNewest and Finalizer.FinalizedKeepsNewestLog assume a
  scan that reports each path once.
- Scheduler.TickCreatesIffNoSnapshotLine: the listing text is an input. How
  restic renders its table, and so whether any line of it starts with
  `"snapshot "`, is not modelled.
- Symbolic links, permissions other than readability, and file contents
  beyond equality.
