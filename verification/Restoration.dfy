/** `restore` of scripts/dev/archive_completed.py: bringing a file back from what a crash left, and what a crash in
    the middle of that leaves. */
module Restoration {
  import opened Wrappers
  import opened Bytes
  import opened Disks
  import opened Archiver
  import opened ArchiverRecovery

  const CHUNK := 4_194_304

  /** The disk a machine finds after a crash: all that survived is certain. */
  function Rebooted(after: Survivor): Disk {
    Disk(after.names, after.data, after.names, {}, after.data.Keys)
  }

  function View(d: Disk): Survivor {
    Survivor(d.names, d.data)
  }

  /** Only the name `p` and the content of the new inode `i` have changed, and the name may be lost in a crash. */
  ghost predicate Restoring(d: Disk, before: Disk, p: Path, i: Inode) {
    && d.names == before.names[p := i]
    && d.durable == before.durable && d.dirty == before.dirty + {(p, Some(i))}
    && i in d.data && d.data - {i} == before.data - {i} && d.settled - {i} == before.settled - {i}
  }

  class Files {
    var disk: Disk
    /** The disk after each call. */
    ghost var history: seq<Disk>

    constructor (disk: Disk)
      ensures this.disk == disk && history == []
    {
      this.disk, history := disk, [];
    }

    method Become(d: Disk)
      modifies this
      ensures disk == d && history == old(history) + [d]
    {
      disk, history := d, history + [d];
    }
  }

  /** The search for the recovery line. */
  method FindVerified(journal: seq<Line>, p: Path) returns (entry: Option<Detail>)
    ensures entry == FirstVerified(journal, p)
  {
    var n := 0;
    while n < |journal|
      invariant n <= |journal| && FirstVerified(journal, p) == FirstVerified(journal[n..], p)
    {
      if journal[n].Verified? && journal[n].detail.path == p {
        return Some(journal[n].detail);
      }
      n := n + 1;
    }
    entry := None;
  }

  /** The checks before anything is written: the content to restore, when all of them pass. */
  method CheckArchive(sha: bytes -> bytes, gunzip: bytes -> Option<bytes>, after: Survivor, journal: seq<Line>, p: Path)
    returns (content: Option<bytes>)
    ensures content == Restored(sha, gunzip, after, journal, p)
  {
    hide Artifact, FirstVerified;
    var found := FindVerified(journal, p);
    if found.None? || !Artifact(p) || found.value.archive != Archive(p) {
      return None;
    }
    var entry := found.value;
    if entry.archive !in after.names || after.names[entry.archive] !in after.data {
      return None;
    }
    var archive := after.data[after.names[entry.archive]];
    if sha(archive) != entry.archiveSha || |archive| != entry.archiveBytes {
      return None;
    }
    var restored := gunzip(archive);
    if restored.None? || sha(restored.value) != entry.originalSha || |restored.value| != entry.originalBytes {
      return None;
    }
    return restored;
  }

  /** The copy loop and the flush; the content is durable at the end. */
  method CopyOut(files: Files, content: bytes, ghost before: Disk, p: Path, i: Inode)
    requires Restoring(files.disk, before, p, i) && files.disk.data[i] == []
    modifies files
    ensures Restoring(files.disk, before, p, i)
    ensures files.disk.data[i] == content && i in files.disk.settled
    ensures old(files.history) <= files.history
    ensures forall k :: |old(files.history)| <= k < |files.history| ==> Restoring(files.history[k], before, p, i)
  {
    var written := 0;
    while written < |content|
      invariant written <= |content| && Restoring(files.disk, before, p, i) && files.disk.data[i] == content[..written]
      invariant old(files.history) <= files.history
      invariant forall k :: |old(files.history)| <= k < |files.history| ==> Restoring(files.history[k], before, p, i)
    {
      var next := if written + CHUNK < |content| then written + CHUNK else |content|;
      assert content[..written] + content[written..next] == content[..next];
      files.Become(SetData(files.disk, i, files.disk.data[i] + content[written..next]));
      written := next;
    }
    assert content[..written] == content;
    files.Become(SyncFile(files.disk, i));
  }

  /** `restore`: writes the file only when every check passes and the name is free; `i` is the inode the
      exclusive creation gets. The last check, on the file read back, always passes. */
  method Restore(sha: bytes -> bytes, gunzip: bytes -> Option<bytes>, files: Files, journal: seq<Line>, p: Path, i: Inode)
    returns (ok: bool)
    requires i !in files.disk.data && i !in files.disk.settled
    modifies files
    ensures ok <==> p !in old(files.disk.names) && Restored(sha, gunzip, View(old(files.disk)), journal, p).Some?
    ensures ok ==>
              && Restoring(files.disk, old(files.disk), p, i) && i in files.disk.settled
              && files.disk.data[i] == Restored(sha, gunzip, View(old(files.disk)), journal, p).value
    ensures !ok ==> files.disk == old(files.disk) && files.history == old(files.history)
    ensures old(files.history) <= files.history
    ensures forall k :: |old(files.history)| <= k < |files.history| ==> Restoring(files.history[k], old(files.disk), p, i)
  {
    ghost var before := files.disk;
    var content := CheckArchive(sha, gunzip, View(files.disk), journal, p);
    if content.None? || p in files.disk.names {
      return false;
    }
    files.Become(SetName(SetData(files.disk, i, []), p, Some(i)));
    CopyOut(files, content.value, before, p, i);
    var found := FindVerified(journal, p);
    var (again, expected) := (files.disk.data[i], found.value);
    ok := sha(again) == expected.originalSha && |again| == expected.originalBytes;
  }

  // ---- When a file is restored, and to what ----

  /** The file names that may be archived. */
  predicate MayBeArchived(name: string) {
    || name == "requests.jsonl"
    || ("tensors-" <= name && |name| >= 4 && name[|name| - 4..] == ".bin")
    || ("tensors-" <= name && |name| >= 5 && name[|name| - 5..] == ".json")
  }

  /** Line `k` is the first verified one for `p`. */
  predicate FirstFor(journal: seq<Line>, p: Path, k: int) {
    && 0 <= k < |journal| && journal[k].Verified? && journal[k].detail.path == p
    && forall j :: 0 <= j < k ==> !(journal[j].Verified? && journal[j].detail.path == p)
  }

  lemma {:induction false} FirstLine(journal: seq<Line>, p: Path)
    ensures FirstVerified(journal, p).None? <==> forall k :: 0 <= k < |journal| ==> !FirstFor(journal, p, k)
    ensures forall k :: FirstFor(journal, p, k) ==> FirstVerified(journal, p) == Some(journal[k].detail)
  {
    if journal != [] {
      var rest := journal[1..];
      FirstLine(rest, p);
      if !(journal[0].Verified? && journal[0].detail.path == p) {
        forall k | 0 <= k < |rest| ensures FirstFor(journal, p, k + 1) <==> FirstFor(rest, p, k) {
          assert rest[k] == journal[k + 1] && forall j :: 0 < j <= k ==> journal[j] == rest[j - 1];
          assert forall j :: 0 <= j < k ==> rest[j] == journal[j + 1];
        }
        assert forall k :: 0 < k < |journal| ==> (FirstFor(journal, p, k) <==> FirstFor(rest, p, k - 1));
      } else {
        assert FirstFor(journal, p, 0);
      }
    }
  }

  /** The file is restored to some content exactly when its first verified line names its archive, that archive is
      there with the recorded hash and size, and it decompresses to that content with the recorded hash and size. */
  lemma RestoredExactly(sha: bytes -> bytes, gunzip: bytes -> Option<bytes>, after: Survivor, journal: seq<Line>, p: Path,
                        content: bytes)
    ensures Restored(sha, gunzip, after, journal, p) == Some(content) <==>
      && MayBeArchived(Name(p))
      && exists k, archive ::
           && FirstFor(journal, p, k) && journal[k].detail.archive == p + ".gz"
           && Content(after, p + ".gz") == Some(archive)
           && sha(archive) == journal[k].detail.archiveSha && |archive| == journal[k].detail.archiveBytes
           && gunzip(archive) == Some(content)
           && sha(content) == journal[k].detail.originalSha && |content| == journal[k].detail.originalBytes
  {
    FirstLine(journal, p);
    hide FirstVerified, FirstFor, Content, Name;
  }

  // ---- Crashes during and after a restoration ----

  /** Wherever a restoration is stopped, the archive and the checks are as they were: nothing can be in the way of
      another attempt but the file this one made. */
  lemma InterruptedRestore(sha: bytes -> bytes, gunzip: bytes -> Option<bytes>, found: Survivor, journal: seq<Line>,
                           p: Path, i: Inode, d: Disk, after: Survivor)
    requires Restored(sha, gunzip, found, journal, p).Some? && p !in found.names && i !in found.data
    requires Restoring(d, Rebooted(found), p, i) && Survives(d, after)
    ensures Restored(sha, gunzip, after, journal, p) == Restored(sha, gunzip, found, journal, p)
    ensures p !in after.names || after.names[p] == i
  {
    hide Artifact, FirstVerified;
    var archive := FirstVerified(journal, p).value.archive;
    var t := found.names[archive];
    assert archive != p;
    assert MaySurvive(d, archive, Lookup(after.names, archive));
    assert MaySurvive(d, p, Lookup(after.names, p));
    assert t in Rebooted(found).settled - {i};
    assert t in Rebooted(found).data - {i} && (d.data - {i})[t] == found.data[t];
  }

  /** After a finished restoration a crash leaves the whole file, or the name free and the file restorable again: the
      directory is never flushed. */
  lemma FinishedRestore(sha: bytes -> bytes, gunzip: bytes -> Option<bytes>, found: Survivor, journal: seq<Line>,
                        p: Path, i: Inode, d: Disk, after: Survivor)
    requires Restored(sha, gunzip, found, journal, p).Some? && p !in found.names && i !in found.data
    requires Restoring(d, Rebooted(found), p, i) && Survives(d, after)
    requires i in d.settled && Some(d.data[i]) == Restored(sha, gunzip, found, journal, p)
    ensures Restored(sha, gunzip, after, journal, p) == Restored(sha, gunzip, found, journal, p)
    ensures p !in after.names || Content(after, p) == Restored(sha, gunzip, found, journal, p)
  {
    InterruptedRestore(sha, gunzip, found, journal, p, i, d, after);
  }

  /** Both ends of that choice are real: a crash right after success may leave the name free. */
  lemma SuccessMayBeLost(found: Survivor, p: Path, i: Inode, d: Disk)
    requires p !in found.names && i !in found.data && Restoring(d, Rebooted(found), p, i)
    ensures Survives(d, Survivor(found.names, d.data))
  {
  }

  /** And an interrupted restoration may leave the name on a file with any content at all, which the next attempt
      refuses to touch. */
  lemma TornRestore(found: Survivor, p: Path, i: Inode, d: Disk, junk: bytes)
    requires p !in found.names && i !in found.data && Restoring(d, Rebooted(found), p, i) && i !in d.settled
    ensures var after := Survivor(found.names[p := i], d.data[i := junk]);
            Survives(d, after) && p in after.names && Content(after, p) == Some(junk)
  {
  }
}
