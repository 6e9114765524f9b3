/** What every reachable state of the archiver keeps, and what a crash in it leaves. */
module ArchiverSafety {
  import opened Wrappers
  import opened Bytes
  import opened Disks
  import opened Archiver

  // ---- Names never meet ----

  lemma NamesApart(p: Path, q: Path)
    requires Artifact(p) && Artifact(q)
    ensures Archive(p) != q && Partial(p) != q && Archive(p) != Partial(q)
    ensures p != q ==> Archive(p) != Archive(q) && Partial(p) != Partial(q)
  {
    NameEnd(q);
    var (a, b) := (Archive(p), Partial(p));
    assert a[|a| - 1] == 'z' && b[|b| - 1] == 'l' && b[|b| - 2] == 'a';
    assert Partial(q)[|Partial(q)| - 1] == 'l';
    if Archive(p) == Archive(q) {
      assert p == Archive(p)[..|Archive(p)| - 3] == Archive(q)[..|Archive(q)| - 3] == q;
    }
    if Partial(p) == Partial(q) {
      assert p == Partial(p)[..|Partial(p)| - 11] == Partial(q)[..|Partial(q)| - 11] == q;
    }
  }

  lemma NameEnd(q: Path)
    requires Artifact(q)
    ensures |q| >= 2
    ensures q[|q| - 1] == 'n' || (q[|q| - 1] == 'l' && q[|q| - 2] == 'n')
  {
    hide EndsWith, LastSlash;
    var name := Name(q);
    NameIsSuffix(q);
    var suffix := if name == "requests.jsonl" then "nl" else if EndsWith(name, ".bin") then ".bin" else ".json";
    if name == "requests.jsonl" {
      assert name == "requests.jso" + "nl";
      ExtendedEndsWith("requests.jso", "nl");
    }
    SuffixAt(name, suffix, 1);
    SuffixAt(name, suffix, 2);
    SuffixAt(q, name, 1);
    SuffixAt(q, name, 2);
  }

  lemma NameIsSuffix(q: Path)
    ensures EndsWith(q, Name(q))
  {
    assert |q| - |Name(q)| == LastSlash(q) + 1;
  }

  lemma ExtendedEndsWith(s: string, suffix: string)
    ensures EndsWith(s + suffix, suffix)
  {
  }

  lemma SuffixAt(s: string, suffix: string, k: nat)
    requires EndsWith(s, suffix) && 1 <= k <= |suffix|
    ensures |s| >= |suffix| && s[|s| - k] == suffix[|suffix| - k]
  {
    assert s[|s| - |suffix|..][|suffix| - k] == s[|s| - k];
  }

  // ---- Phases ----

  predicate HasOriginal(f: Phase) {
    f !in {Removed, RemovalSynced, Done}
  }

  predicate HasPartial(f: Phase) {
    f in {Created, Written, Flushed, Checked, Linked, Rejecting, Rejected}
  }

  predicate RecordedUp(f: Phase) {
    f in {Recorded, Removed, RemovalSynced, Done}
  }

  predicate JournaledUp(f: Phase) {
    f == Journaled || RecordedUp(f)
  }

  predicate PublishedUp(f: Phase) {
    f == Published || JournaledUp(f)
  }

  predicate LinkedUp(f: Phase) {
    f == Linked || f == Cleared || PublishedUp(f)
  }

  predicate CheckedUp(f: Phase) {
    f == Checked || LinkedUp(f)
  }

  // ---- The invariant ----

  /** The original's content is on disk, and so is its name until it is removed. */
  ghost predicate SourceInv(c: Plan, s: State, p: Path)
    requires p in s.phase && p in c.inodes && p in c.contents
  {
    var i := c.inodes[p];
    && i in s.disk.data && s.disk.data[i] == c.contents[p] && i in s.disk.settled
    && (HasOriginal(s.phase[p]) ==> Lookup(s.disk.names, p) == Some(i) && Fated(s.disk, p, Some(i)))
    && (!HasOriginal(s.phase[p]) ==> Leftover(s.disk, p, i))
  }

  /** How good the archive of `p` is at each phase. */
  ghost predicate ArchiveInv(c: Plan, s: State, p: Path)
    requires p in s.phase && p in c.inodes && p in c.contents
  {
    var f := s.phase[p];
    f != Waiting ==>
      && p in s.temp
      && var t := s.temp[p];
      && t in s.disk.data
      && (HasPartial(f) ==> Lookup(s.disk.names, Partial(p)) == Some(t))
      && (CheckedUp(f) ==> c.gunzip(s.disk.data[t]) == Some(c.contents[p]))
      && (!c.batched && (f == Flushed || CheckedUp(f)) ==> t in s.disk.settled)
      && (LinkedUp(f) ==> Lookup(s.disk.names, Archive(p)) == Some(t))
      && (LinkedUp(f) ==> c.inodes[p] in s.disk.data && p in s.detail && s.detail[p] == DetailOf(c, s.disk, p, t))
      && (PublishedUp(f) ==> t in s.disk.settled && Fated(s.disk, Archive(p), Some(t)))
  }

  /** Which lines the journal has for `p`, and which of them are durable. */
  ghost predicate JournalInv(s: State, p: Path)
    requires p in s.phase
  {
    var f := s.phase[p];
    && s.durableLines <= |s.journal|
    && (!JournaledUp(f) ==> FirstVerified(s.journal, p) == None)
    && (JournaledUp(f) ==> p in s.detail && FirstVerified(s.journal, p) == Some(s.detail[p]))
    && (RecordedUp(f) ==> p in s.detail && FirstVerified(s.journal[..s.durableLines], p) == Some(s.detail[p]))
  }

  /** No two files share an inode for their archives, nor use an original's. */
  ghost predicate Separate(c: Plan, s: State) {
    && (forall p, q :: p in s.temp && q in s.temp && p != q ==> s.temp[p] != s.temp[q])
    && (forall p, q :: p in s.temp && q in c.inodes ==> s.temp[p] != c.inodes[q])
    && (forall p :: p in s.temp ==> p in s.phase && s.phase[p] != Waiting && s.temp[p] in s.disk.data)
  }

  ghost predicate FileInv(c: Plan, s: State, p: Path)
    requires p in s.phase && p in c.inodes && p in c.contents
  {
    SourceInv(c, s, p) && ArchiveInv(c, s, p) && JournalInv(s, p)
  }

  ghost predicate Inv(c: Plan, s: State) {
    && ValidPlan(c) && s.phase.Keys == c.inodes.Keys && Separate(c, s) && s.durableLines <= |s.journal|
    && forall p :: p in s.phase ==> FileInv(c, s, p)
  }

  // ---- Journals ----

  lemma {:induction false} FirstVerifiedAppend(a: seq<Line>, b: seq<Line>, p: Path)
    ensures FirstVerified(a + b, p) == if FirstVerified(a, p).Some? then FirstVerified(a, p) else FirstVerified(b, p)
  {
    if a == [] {
      assert a + b == b;
    } else {
      assert (a + b)[1..] == a[1..] + b;
      FirstVerifiedAppend(a[1..], b, p);
    }
  }

  /** The first verified line of a prefix is the first of any longer one. */
  lemma FirstVerifiedExtends(journal: seq<Line>, n: nat, m: nat, p: Path)
    requires n <= m <= |journal| && FirstVerified(journal[..n], p).Some?
    ensures FirstVerified(journal[..m], p) == FirstVerified(journal[..n], p)
  {
    assert journal[..m] == journal[..n] + journal[n..m];
    FirstVerifiedAppend(journal[..n], journal[n..m], p);
  }

  // ---- Other files ----

  /** Nothing about `q` got worse between two disks. */
  ghost predicate DiskFrame(c: Plan, s: State, d: Disk, q: Path)
    requires q in c.inodes
  {
    && (forall n :: n in {q, Archive(q), Partial(q)} ==> Lookup(d.names, n) == Lookup(s.disk.names, n))
    && (forall n :: n in {q, Archive(q)} && Fated(s.disk, n, Lookup(s.disk.names, n))
                    ==> Fated(d, n, Lookup(s.disk.names, n)))
    && (Leftover(s.disk, q, c.inodes[q]) ==> Leftover(d, q, c.inodes[q]))
    && (forall i :: i == c.inodes[q] || (q in s.temp && i == s.temp[q]) ==>
          && (i in s.disk.data ==> i in d.data && d.data[i] == s.disk.data[i])
          && (i in s.disk.settled ==> i in d.settled))
  }

  lemma FrameKeeps(c: Plan, s: State, t: State, q: Path)
    requires q in s.phase && q in t.phase && q in c.inodes && q in c.contents && FileInv(c, s, q)
    requires t.phase[q] == s.phase[q] && DiskFrame(c, s, t.disk, q)
    requires (q in s.temp ==> q in t.temp && t.temp[q] == s.temp[q])
    requires (q in s.detail ==> q in t.detail && t.detail[q] == s.detail[q])
    ensures SourceInv(c, t, q) && ArchiveInv(c, t, q)
  {
    hide Fated, Leftover;
    assert q in {q, Archive(q), Partial(q)} && Archive(q) in {q, Archive(q), Partial(q)};
    assert Partial(q) in {q, Archive(q), Partial(q)};
    assert q in {q, Archive(q)} && Archive(q) in {q, Archive(q)};
  }

  /** A journal that grows by a line that is not a verified line of `q`, or whose lines become durable. */
  lemma JournalFrame(s: State, t: State, q: Path)
    requires q in s.phase && q in t.phase && t.phase[q] == s.phase[q] && JournalInv(s, q)
    requires s.journal <= t.journal && s.durableLines <= t.durableLines <= |t.journal|
    requires (q in s.detail ==> q in t.detail && t.detail[q] == s.detail[q])
    requires FirstVerified(t.journal[|s.journal|..], q) == None
    ensures JournalInv(t, q)
  {
    var n := |s.journal|;
    assert t.journal == s.journal + t.journal[n..];
    FirstVerifiedAppend(s.journal, t.journal[n..], q);
    if RecordedUp(s.phase[q]) {
      assert t.journal[..s.durableLines] == s.journal[..s.durableLines];
      FirstVerifiedExtends(t.journal, s.durableLines, t.durableLines, q);
    }
  }

  /** A step about `p` that changes one name of `p` leaves every other file as it was. */
  lemma NameFrame(c: Plan, s: State, n: Path, entry: Option<Inode>, p: Path, q: Path)
    requires Inv(c, s) && p in s.phase && q in s.phase && p != q && n in {p, Archive(p), Partial(p)}
    ensures DiskFrame(c, s, SetName(s.disk, n, entry), q)
  {
    hide Fated, Leftover;
    NamesApart(p, q);
    NamesApart(q, p);
    forall m | m in {q, Archive(q), Partial(q)}
      ensures Lookup(SetName(s.disk, n, entry).names, m) == Lookup(s.disk.names, m)
      ensures Fated(s.disk, m, Lookup(s.disk.names, m)) ==> Fated(SetName(s.disk, n, entry), m, Lookup(s.disk.names, m))
    {
      SetNameFated(s.disk, n, entry, m, Lookup(s.disk.names, m));
    }
    SetNameFated(s.disk, n, entry, q, None);
  }
}
