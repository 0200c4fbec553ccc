/**
 * The backup repository as the recovery code sees it through `restic`:
 * snapshot records, the `--tag baseline` listing, the newest-first order the
 * code sorts that listing into, and the outcome of `restic restore`.
 */
module Restic {
  import opened Files

  type SnapshotId = string

  /** A snapshot record of `restic snapshots --json`; the ISO-8601 time is
      represented by an integer with the same order. */
  datatype Snapshot = Snapshot(id: SnapshotId, time: int, tags: set<string>)

  /** The repository: its snapshots in the order `restic snapshots` reports
      them, whether the listing command succeeds, and, for each snapshot id
      whose restore succeeds, the tree of relative paths it writes below the
      restore target. An id missing from `restorable` is a restore that fails. */
  datatype Repository = Repository(
    snapshots: seq<Snapshot>,
    listable: bool,
    restorable: map<SnapshotId, Fs>)

  const BaselineTag: string := "baseline"

  /** A restored tree: it has no entry for the target directory itself, and
      every entry hangs below a top-level entry (the one iterdir lists). */
  ghost predicate IsTree(t: Fs) {
    [] !in t && forall rel | rel in t :: rel[..1] in t
  }

  ghost predicate Valid(repo: Repository) {
    forall sid | sid in repo.restorable :: IsTree(repo.restorable[sid])
  }

  /** `restic snapshots --tag baseline`: the baseline snapshots, in listing order. */
  function Baselines(s: seq<Snapshot>): (r: seq<Snapshot>)
    ensures forall x :: x in r <==> x in s && BaselineTag in x.tags
  {
    if s == [] then []
    else (if BaselineTag in s[0].tags then [s[0]] else []) + Baselines(s[1..])
  }

  /** Filtering a concatenation filters each part. */
  lemma {:induction false} BaselinesConcat(a: seq<Snapshot>, b: seq<Snapshot>)
    ensures Baselines(a + b) == Baselines(a) + Baselines(b)
  {
    if a == [] {
      assert a + b == b;
    } else {
      assert (a + b)[0] == a[0] && (a + b)[1..] == a[1..] + b;
      BaselinesConcat(a[1..], b);
    }
  }

  /** A snapshot added at the end of the listing appears at the end of the
      baseline listing exactly when it carries the tag. */
  lemma BaselinesAppend(s: seq<Snapshot>, x: Snapshot)
    ensures Baselines(s + [x]) == Baselines(s) + (if BaselineTag in x.tags then [x] else [])
  {
    BaselinesConcat(s, [x]);
    assert [x][1..] == [];
  }

  /** Non-increasing creation time: the order the candidates are tried in. */
  predicate NewestFirstOrder(r: seq<Snapshot>) {
    forall i, j | 0 <= i < j < |r| :: r[i].time >= r[j].time
  }

  /** The snapshots of s created at time t, in the order s has them. */
  function WithTime(s: seq<Snapshot>, t: int): seq<Snapshot> {
    if s == [] then []
    else (if s[0].time == t then [s[0]] else []) + WithTime(s[1..], t)
  }

  /** Places x before the first element of r that is not newer than x. */
  function Insert(x: Snapshot, r: seq<Snapshot>): seq<Snapshot> {
    if r == [] || x.time >= r[0].time then [x] + r
    else [r[0]] + Insert(x, r[1..])
  }

  /** list.sort(key=time, reverse=True): a stable sort, newest first. */
  function NewestFirst(s: seq<Snapshot>): seq<Snapshot> {
    if s == [] then [] else Insert(s[0], NewestFirst(s[1..]))
  }

  lemma {:induction false} InsertOrdered(x: Snapshot, r: seq<Snapshot>)
    requires NewestFirstOrder(r)
    ensures NewestFirstOrder(Insert(x, r))
    ensures r != [] ==> Insert(x, r)[0] == (if x.time >= r[0].time then x else r[0])
  {
    if r != [] && x.time < r[0].time {
      InsertOrdered(x, r[1..]);
    }
  }

  lemma {:induction false} InsertMultiset(x: Snapshot, r: seq<Snapshot>)
    ensures multiset(Insert(x, r)) == multiset(r) + multiset{x}
  {
    if r != [] && x.time < r[0].time {
      InsertMultiset(x, r[1..]);
      assert r == [r[0]] + r[1..];
    }
  }

  lemma {:induction false} InsertWithTime(x: Snapshot, r: seq<Snapshot>, t: int)
    ensures WithTime(Insert(x, r), t) == (if x.time == t then [x] else []) + WithTime(r, t)
  {
    var ins := Insert(x, r);
    if r == [] || x.time >= r[0].time {
      assert ins[0] == x && ins[1..] == r;
    } else {
      InsertWithTime(x, r[1..], t);
      assert ins[0] == r[0] && ins[1..] == Insert(x, r[1..]);
      if x.time == t {
        assert r[0].time != t;
        assert WithTime(r, t) == WithTime(r[1..], t);
      } else {
        assert WithTime(ins, t) == (if r[0].time == t then [r[0]] else []) + WithTime(r[1..], t);
      }
    }
  }

  /** The sorted listing is newest first. */
  lemma {:induction false} NewestFirstIsOrdered(s: seq<Snapshot>)
    ensures NewestFirstOrder(NewestFirst(s))
  {
    if s != [] {
      NewestFirstIsOrdered(s[1..]);
      InsertOrdered(s[0], NewestFirst(s[1..]));
    }
  }

  /** The sorted listing holds the same snapshots, as often as the input does. */
  lemma {:induction false} NewestFirstIsPermutation(s: seq<Snapshot>)
    ensures multiset(NewestFirst(s)) == multiset(s)
  {
    if s != [] {
      NewestFirstIsPermutation(s[1..]);
      InsertMultiset(s[0], NewestFirst(s[1..]));
      assert s == [s[0]] + s[1..];
    }
  }

  /** The sort is stable: snapshots with equal times keep their listing order
      (there is no tiebreak on the id). */
  lemma {:induction false} NewestFirstIsStable(s: seq<Snapshot>, t: int)
    ensures WithTime(NewestFirst(s), t) == WithTime(s, t)
  {
    if s != [] {
      NewestFirstIsStable(s[1..], t);
      InsertWithTime(s[0], NewestFirst(s[1..]), t);
    }
  }

  /** `restic restore sid --target target`: on success the snapshot's tree
      appears below target; a failed restore (CalledProcessError) writes nothing. */
  method Restore(fs: FileSystem, repo: Repository, sid: SnapshotId, target: Path) returns (ok: bool)
    modifies fs
    ensures ok <==> sid in repo.restorable
    ensures fs.entries == if ok then old(fs.entries) + Graft(target, repo.restorable[sid])
                          else old(fs.entries)
  {
    ok := sid in repo.restorable;
    if ok {
      fs.WriteTree(target, repo.restorable[sid]);
    }
  }
}
