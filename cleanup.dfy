/**
 * `cleanupOldFiles`: one retention sweep over `files.json`. Each record's effective access
 * time is its recorded time, raised to the filesystem access time when `stat` succeeds;
 * records older than the cutoff lose their file, the rest are written back once.
 * The clock and the access times the filesystem reports are parameters.
 */
module Cleanup {
  import opened Wrappers
  import opened Index
  import opened Fs

  /** Milliseconds per day, `24 * 60 * 60 * 1000`. */
  const DayMs: int := 86_400_000

  /** `Date.now() - maxAgeDays * 24 * 60 * 60 * 1000`, in whole milliseconds. */
  function Cutoff(now: int, maxAgeDays: int): (c: int)
    ensures maxAgeDays >= 0 ==> c <= now
  {
    now - maxAgeDays * DayMs
  }

  /** `entry.lastAccess || entry.createdAt || 0`: a zero field counts as missing. */
  function RecordedTime(e: Entry): (t: int)
    ensures e.lastAccess != 0 ==> t == e.lastAccess
    ensures e.lastAccess == 0 ==> t == e.createdAt
  {
    if e.lastAccess != 0 then e.lastAccess else if e.createdAt != 0 then e.createdAt else 0
  }

  /**
   * `fs.statSync(p).atimeMs || 0`: `None` when the stat throws because nothing is at `p`;
   * a path the access-time map does not mention reports 0.
   */
  function StatAtime(files: FileMap, atimes: map<string, int>, p: string): (r: Option<int>)
    ensures r.Some? <==> p in files
    ensures r.Some? && p in atimes ==> r.value == atimes[p]
    ensures r.Some? && p !in atimes ==> r.value == 0
  {
    if p in files then Some(if p in atimes then atimes[p] else 0) else None
  }

  function Max(a: int, b: int): int {
    if a < b then b else a
  }

  /** The time the sweep compares with the cutoff. */
  function EffectiveTime(e: Entry, files: FileMap, atimes: map<string, int>): (t: int)
    ensures t >= RecordedTime(e)
    ensures StatAtime(files, atimes, e.path).Some? ==> t >= StatAtime(files, atimes, e.path).value
    ensures t == RecordedTime(e) || Some(t) == StatAtime(files, atimes, e.path)
  {
    match StatAtime(files, atimes, e.path)
    case None => RecordedTime(e)
    case Some(a) => Max(RecordedTime(e), a)
  }

  predicate Survives(e: Entry, files: FileMap, atimes: map<string, int>, cutoff: int) {
    EffectiveTime(e, files, atimes) >= cutoff
  }

  /**
   * A record whose file is missing is judged on its recorded times alone: a failed stat
   * does not evict it.
   */
  lemma MissingFileJudgedOnRecord(e: Entry, files: FileMap, atimes: map<string, int>, cutoff: int)
    requires e.path !in files
    ensures Survives(e, files, atimes, cutoff) <==> RecordedTime(e) >= cutoff
  {
  }

  /**
   * The cutoff is inclusive: a record survives exactly when its effective access time is at
   * most `maxAgeDays` whole days before `now`.
   */
  lemma SurvivalIsAgeBound(e: Entry, files: FileMap, atimes: map<string, int>, now: int, maxAgeDays: int)
    ensures Survives(e, files, atimes, Cutoff(now, maxAgeDays)) <==>
      now - EffectiveTime(e, files, atimes) <= maxAgeDays * DayMs
  {
  }

  /**
   * `a` is an order-preserving subsequence of `b`, matched greedily from the end.
   */
  predicate IsSubsequence<T(==)>(a: seq<T>, b: seq<T>)
    decreases |b|
  {
    if a == [] then true
    else if b == [] then false
    else if a[|a| - 1] == b[|b| - 1] then IsSubsequence(a[..|a| - 1], b[..|b| - 1])
    else IsSubsequence(a, b[..|b| - 1])
  }

  lemma {:induction false} SubsequenceExtend<T>(a: seq<T>, b: seq<T>, x: T)
    requires IsSubsequence(a, b)
    ensures IsSubsequence(a, b + [x])
    decreases |b|, 1
  {
    var b' := b + [x];
    assert b'[..|b'| - 1] == b;
    if a != [] && a[|a| - 1] == x {
      SubsequenceDropLast(a, b);
    }
  }

  lemma {:induction false} SubsequenceDropLast<T>(a: seq<T>, b: seq<T>)
    requires a != [] && IsSubsequence(a, b)
    ensures IsSubsequence(a[..|a| - 1], b)
    decreases |b|, 0
  {
    var a', b' := a[..|a| - 1], b[..|b| - 1];
    if a[|a| - 1] == b[|b| - 1] {
      SubsequenceExtend(a', b', b[|b| - 1]);
    } else {
      SubsequenceDropLast(a, b');
      SubsequenceExtend(a', b', b[|b| - 1]);
    }
    assert b' + [b[|b| - 1]] == b;
  }

  /** The records that survive, judged against one fixed filesystem state, in their order. */
  function Keep(entries: seq<Entry>, files: FileMap, atimes: map<string, int>, cutoff: int): (r: seq<Entry>)
    ensures forall e :: e in r <==> e in entries && Survives(e, files, atimes, cutoff)
    ensures IsSubsequence(r, entries)
    decreases |entries|
  {
    if entries == [] then []
    else
      var init, last := entries[..|entries| - 1], entries[|entries| - 1];
      assert entries == init + [last];
      var kept := Keep(init, files, atimes, cutoff);
      SubsequenceExtend(kept, init, last);
      if Survives(last, files, atimes, cutoff) then kept + [last] else kept
  }

  /** The records that are evicted, judged against one fixed filesystem state, in their order. */
  function Dropped(entries: seq<Entry>, files: FileMap, atimes: map<string, int>, cutoff: int): (r: seq<Entry>)
    ensures forall e :: e in r <==> e in entries && !Survives(e, files, atimes, cutoff)
    decreases |entries|
  {
    if entries == [] then []
    else
      var init, last := entries[..|entries| - 1], entries[|entries| - 1];
      assert entries == init + [last];
      var dropped := Dropped(init, files, atimes, cutoff);
      if Survives(last, files, atimes, cutoff) then dropped else dropped + [last]
  }

  /** Every record is either kept or evicted, as often as it is listed. */
  lemma {:induction false} KeepDroppedPartition(entries: seq<Entry>, files: FileMap, atimes: map<string, int>, cutoff: int)
    ensures multiset(Keep(entries, files, atimes, cutoff)) + multiset(Dropped(entries, files, atimes, cutoff)) == multiset(entries)
    decreases |entries|
  {
    if entries != [] {
      var init, last := entries[..|entries| - 1], entries[|entries| - 1];
      assert entries == init + [last];
      KeepDroppedPartition(init, files, atimes, cutoff);
    }
  }

  function PathsOf(entries: seq<Entry>): set<string> {
    set e | e in entries :: e.path
  }

  /** What the loop has built so far: the survivors list and the filesystem after its unlinks. */
  datatype SweepState = SweepState(survivors: seq<Entry>, files: FileMap)

  /** One iteration: stat against the current filesystem, then unlink or keep. */
  function SweepStep(st: SweepState, e: Entry, atimes: map<string, int>, cutoff: int): SweepState {
    if EffectiveTime(e, st.files, atimes) < cutoff then SweepState(st.survivors, st.files - {e.path})
    else SweepState(st.survivors + [e], st.files)
  }

  /** The loop of `cleanupOldFiles` over `entries`, each stat seeing the unlinks before it. */
  function Sweep(entries: seq<Entry>, files: FileMap, atimes: map<string, int>, cutoff: int): SweepState
    decreases |entries|
  {
    if entries == [] then SweepState([], files)
    else SweepStep(Sweep(entries[..|entries| - 1], files, atimes, cutoff), entries[|entries| - 1], atimes, cutoff)
  }

  /**
   * The loop keeps at most every record and only ever deletes: every file it leaves has the
   * contents it had before the sweep.
   */
  lemma {:induction false} SweepOnlyDeletes(entries: seq<Entry>, files: FileMap, atimes: map<string, int>, cutoff: int)
    ensures |Sweep(entries, files, atimes, cutoff).survivors| <= |entries|
    ensures Sweep(entries, files, atimes, cutoff).files.Keys <= files.Keys
    ensures forall p :: p in Sweep(entries, files, atimes, cutoff).files ==>
      Sweep(entries, files, atimes, cutoff).files[p] == files[p]
    decreases |entries|
  {
    if entries != [] {
      SweepOnlyDeletes(entries[..|entries| - 1], files, atimes, cutoff);
    }
  }

  /** A path whose file is missing, or whose access time is already before the cutoff. */
  predicate Stale(files: FileMap, atimes: map<string, int>, cutoff: int, p: string) {
    match StatAtime(files, atimes, p)
    case None => true
    case Some(a) => a < cutoff
  }

  /** Deleting stale paths changes no record's verdict. */
  lemma StaleDeletionKeepsVerdict(e: Entry, files: FileMap, gone: set<string>, atimes: map<string, int>, cutoff: int)
    requires forall p :: p in gone ==> Stale(files, atimes, cutoff, p)
    ensures Survives(e, files - gone, atimes, cutoff) <==> Survives(e, files, atimes, cutoff)
  {
    if e.path in gone {
      assert Stale(files, atimes, cutoff, e.path);
    } else {
      assert StatAtime(files - gone, atimes, e.path) == StatAtime(files, atimes, e.path);
    }
  }

  /** An evicted record's path is stale. */
  lemma DroppedPathsStale(entries: seq<Entry>, files: FileMap, atimes: map<string, int>, cutoff: int)
    ensures forall p :: p in PathsOf(Dropped(entries, files, atimes, cutoff)) ==> Stale(files, atimes, cutoff, p)
  {
    forall p | p in PathsOf(Dropped(entries, files, atimes, cutoff))
      ensures Stale(files, atimes, cutoff, p)
    {
      var e :| e in Dropped(entries, files, atimes, cutoff) && e.path == p;
      assert !Survives(e, files, atimes, cutoff);
    }
  }

  /**
   * The loop, whose stats see the unlinks made earlier in the same sweep, keeps exactly the
   * records the pure filter keeps and deletes exactly the evicted records' paths: an unlink
   * only ever removes a stale path, which cannot change a later verdict.
   */
  lemma {:induction false} SweepIsFilter(entries: seq<Entry>, files: FileMap, atimes: map<string, int>, cutoff: int)
    ensures Sweep(entries, files, atimes, cutoff) ==
      SweepState(Keep(entries, files, atimes, cutoff), files - PathsOf(Dropped(entries, files, atimes, cutoff)))
    decreases |entries|
  {
    if entries != [] {
      var init, last := entries[..|entries| - 1], entries[|entries| - 1];
      SweepIsFilter(init, files, atimes, cutoff);
      var gone := PathsOf(Dropped(init, files, atimes, cutoff));
      DroppedPathsStale(init, files, atimes, cutoff);
      StaleDeletionKeepsVerdict(last, files, gone, atimes, cutoff);
      if !Survives(last, files, atimes, cutoff) {
        assert PathsOf(Dropped(init, files, atimes, cutoff) + [last]) == gone + {last.path};
        assert files - gone - {last.path} == files - (gone + {last.path});
      }
    }
  }

  lemma {:induction false} KeepAllSurvive(entries: seq<Entry>, files: FileMap, atimes: map<string, int>, cutoff: int)
    requires forall e :: e in entries ==> Survives(e, files, atimes, cutoff)
    ensures Keep(entries, files, atimes, cutoff) == entries
    ensures Dropped(entries, files, atimes, cutoff) == []
    decreases |entries|
  {
    if entries != [] {
      var init, last := entries[..|entries| - 1], entries[|entries| - 1];
      assert entries == init + [last];
      assert forall e :: e in init ==> e in entries;
      KeepAllSurvive(init, files, atimes, cutoff);
      assert Survives(last, files, atimes, cutoff);
      assert Keep(entries, files, atimes, cutoff) == Keep(init, files, atimes, cutoff) + [last];
      assert Dropped(entries, files, atimes, cutoff) == Dropped(init, files, atimes, cutoff);
    }
  }

  /**
   * A second sweep at the same time, over what the first one wrote and left on disk, keeps
   * every survivor and deletes nothing more.
   */
  lemma SweepIdempotent(entries: seq<Entry>, files: FileMap, atimes: map<string, int>, cutoff: int)
    ensures var first := Sweep(entries, files, atimes, cutoff);
      Sweep(first.survivors, first.files, atimes, cutoff) == first
  {
    var first := Sweep(entries, files, atimes, cutoff);
    SweepIsFilter(entries, files, atimes, cutoff);
    var gone := PathsOf(Dropped(entries, files, atimes, cutoff));
    DroppedPathsStale(entries, files, atimes, cutoff);
    forall e | e in first.survivors
      ensures Survives(e, first.files, atimes, cutoff)
    {
      StaleDeletionKeepsVerdict(e, files, gone, atimes, cutoff);
    }
    KeepAllSurvive(first.survivors, first.files, atimes, cutoff);
    SweepIsFilter(first.survivors, first.files, atimes, cutoff);
    assert PathsOf([]) == {};
  }

  /**
   * Two records last accessed ten days ago, whose files are gone or were last read no later,
   * are both evicted by a seven-day sweep; the index is left with an empty list.
   */
  lemma TenDayOldRecordsEvicted(e1: Entry, e2: Entry, files: FileMap, atimes: map<string, int>, now: int)
    requires e1.lastAccess == now - 10 * DayMs && e2.lastAccess == now - 10 * DayMs
    requires e1.lastAccess != 0 && e2.lastAccess != 0
    requires forall p :: p in atimes ==> atimes[p] <= now - 10 * DayMs
    requires now - 10 * DayMs >= 0
    ensures Keep([e1, e2], files, atimes, Cutoff(now, 7)) == []
    ensures Sweep([e1, e2], files, atimes, Cutoff(now, 7)).survivors == []
  {
    var cutoff := Cutoff(now, 7);
    assert !Survives(e1, files, atimes, cutoff);
    assert !Survives(e2, files, atimes, cutoff);
    assert [e1, e2][..1] == [e1];
    SweepIsFilter([e1, e2], files, atimes, cutoff);
  }

  /**
   * `cleanupOldFiles(folder, maxAgeDays)`: returns untouched when `files.json` is absent;
   * otherwise runs the loop (an unparseable document gives no records) and writes the
   * survivors once.
   */
  method CleanupOldFiles(disk: FileSystem, folder: string, maxAgeDays: int, now: int, atimes: map<string, int>)
    modifies disk
    ensures var metaFile := Join(folder, IndexName);
      metaFile !in old(disk.files) ==> disk.files == old(disk.files)
    ensures var metaFile := Join(folder, IndexName);
      metaFile in old(disk.files) ==>
        var entries := ReadIndex(old(disk.files), metaFile);
        var cutoff := Cutoff(now, maxAgeDays);
        var swept := Sweep(entries, old(disk.files), atimes, cutoff);
        && disk.files == swept.files[metaFile := IndexDoc(swept.survivors)]
        && swept.survivors == Keep(entries, old(disk.files), atimes, cutoff)
    ensures var metaFile := Join(folder, IndexName);
      metaFile in old(disk.files) && old(disk.files)[metaFile].Data? ==>
        disk.files == old(disk.files)[metaFile := IndexDoc([])]
  {
    var metaFile := Join(folder, IndexName);
    if metaFile !in disk.files {
      return;
    }
    var entries := ReadIndex(disk.files, metaFile);
    var cutoff := Cutoff(now, maxAgeDays);
    ghost var files0 := disk.files;
    var survivors: seq<Entry> := [];
    var i := 0;
    while i < |entries|
      invariant 0 <= i <= |entries|
      invariant Sweep(entries[..i], files0, atimes, cutoff) == SweepState(survivors, disk.files)
    {
      ghost var before := SweepState(survivors, disk.files);
      var entry := entries[i];
      var atime := RecordedTime(entry);
      var stat := StatAtime(disk.files, atimes, entry.path);
      if stat.Some? {
        atime := Max(atime, stat.value);
      }
      if atime < cutoff {
        if entry.path in disk.files {
          var _ := disk.Unlink(entry.path);
        }
      } else {
        survivors := survivors + [entry];
      }
      assert SweepState(survivors, disk.files) == SweepStep(before, entry, atimes, cutoff);
      assert entries[..i + 1][..i] == entries[..i];
      i := i + 1;
    }
    assert entries[..i] == entries;
    SweepIsFilter(entries, files0, atimes, cutoff);
    disk.WriteIndex(metaFile, survivors);
  }
}
