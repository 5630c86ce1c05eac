/**
 What the calibration store and its caches guarantee over any interleaving of lookups,
 writes, and changes made to the directory by other processes.
 */
module StoreRuns {
  import opened Wrappers
  import opened CalibrationStore
  import RecordCheck

  datatype Op =
    | DoLookup(key: Key)
    | DoWrite(record: Record, at: Stamp)
    | Foreign(stem: Stem, file: Option<File>)   // another process replaces or deletes a file

  // A directory with the file at one stem replaced, added or deleted.
  function Put(dir: Dir, stem: Stem, file: Option<File>): Dir {
    match file
    case Some(f) => dir[stem := f]
    case None => dir - {stem}
  }

  function Apply(setting: Setting, s: State, op: Op): State {
    match op
    case DoLookup(k) => Lookup(setting, s, k).0
    case DoWrite(r, at) => (match Write(s, r, at) case Ok(t) => t case Err(_) => s)
    case Foreign(stem, file) => s.(dir := Put(s.dir, stem, file))
  }

  function Run(setting: Setting, s: State, ops: seq<Op>): State {
    if ops == [] then s else Apply(setting, Run(setting, s, ops[..|ops| - 1]), ops[|ops| - 1])
  }

  // ---------- the index ----------

  // What a file name, time and size identify: file stamps are not reused for other contents.
  type Oracle = (Stem, nat, nat) -> Contents

  ghost predicate Stamped(oracle: Oracle, stem: Stem, f: File) {
    f.contents == oracle(stem, f.mtime, f.size)
  }

  ghost predicate DirStamped(oracle: Oracle, dir: Dir) {
    forall s :: s in dir ==> Stamped(oracle, s, dir[s])
  }

  ghost predicate OpStamped(oracle: Oracle, op: Op) {
    match op
    case DoLookup(_) => true
    case DoWrite(r, at) => r.stem.Some? ==> Stamped(oracle, r.stem.value, File(at.mtime, at.size, Doc(r)))
    case Foreign(stem, file) => file.Some? ==> Stamped(oracle, stem, file.value)
  }

  function Rebuild(oracle: Oracle, fp: Fingerprint): Dir {
    map s | s in fp :: File(fp[s].0, fp[s].1, oracle(s, fp[s].0, fp[s].1))
  }

  lemma RebuildIsDir(oracle: Oracle, dir: Dir)
    requires DirStamped(oracle, dir)
    ensures Rebuild(oracle, FingerprintOf(dir)) == dir
  {
    var d := Rebuild(oracle, FingerprintOf(dir));
    forall s | s in dir ensures d[s] == dir[s] { assert Stamped(oracle, s, dir[s]); }
  }

  ghost predicate IndexSound(oracle: Oracle, s: State) {
    && DirStamped(oracle, s.dir)
    && (s.indexFingerprint.Some? ==> s.index == Scan(Rebuild(oracle, s.indexFingerprint.value)))
  }

  // A trusted index answers as a fresh scan would.
  lemma IndexIsFreshScan(oracle: Oracle, s: State)
    requires IndexSound(oracle, s)
    ensures Reindex(s).index == Scan(s.dir) && Reindex(s).dir == s.dir
    ensures IndexSound(oracle, Reindex(s))
  {
    hide Scan;
    RebuildIsDir(oracle, s.dir);
  }

  lemma IndexSoundStep(oracle: Oracle, setting: Setting, s: State, op: Op)
    requires IndexSound(oracle, s) && OpStamped(oracle, op)
    ensures IndexSound(oracle, Apply(setting, s, op))
  {
    hide Scan, Answer;
    IndexIsFreshScan(oracle, s);
  }

  /**
   Whatever lookups, writes and foreign changes have happened, as long as file stamps are not
   reused for other contents, the cached index equals a fresh scan of the current directory.
   */
  lemma {:induction false} IndexAlwaysFresh(oracle: Oracle, setting: Setting, dir: Dir, archive: map<ArchiveName, File>, ops: seq<Op>)
    requires DirStamped(oracle, dir)
    requires forall i :: 0 <= i < |ops| ==> OpStamped(oracle, ops[i])
    ensures var s := Run(setting, State(dir, archive, None, [], map[]), ops);
      IndexSound(oracle, s) && Reindex(s).index == Scan(s.dir)
  {
    hide Scan, Apply, IndexSound, Reindex;
    var start := State(dir, archive, None, [], map[]);
    if ops == [] {
      StartIsSound(oracle, dir, archive);
    } else {
      var n := |ops| - 1;
      IndexAlwaysFresh(oracle, setting, dir, archive, ops[..n]);
      IndexSoundStep(oracle, setting, Run(setting, start, ops[..n]), ops[n]);
    }
    IndexIsFreshScan(oracle, Run(setting, start, ops));
  }

  lemma StartIsSound(oracle: Oracle, dir: Dir, archive: map<ArchiveName, File>)
    requires DirStamped(oracle, dir)
    ensures IndexSound(oracle, State(dir, archive, None, [], map[]))
  {
  }

  // ---------- the answer cache ----------

  ghost predicate CacheSound(setting: Setting, s: State) {
    forall k :: k in s.cache ==> s.cache[k] == FreshAnswer(setting, s.dir, k)
  }

  // With only this process at work, a standing fingerprint is that of the directory and its
  // index a scan of it: every write clears both.
  ghost predicate OwnIndex(s: State) {
    s.indexFingerprint.Some? ==> s.indexFingerprint == Some(FingerprintOf(s.dir)) && s.index == Scan(s.dir)
  }

  lemma MissIsFresh(setting: Setting, s: State, k: Key)
    requires OwnIndex(s) && k !in s.cache
    ensures Lookup(setting, s, k).1 == FreshAnswer(setting, s.dir, k)
    ensures k in Lookup(setting, s, k).0.cache && Lookup(setting, s, k).0.cache[k] == FreshAnswer(setting, s.dir, k)
  {
    hide Scan, Answer;
  }

  lemma OwnStepIsSound(setting: Setting, s: State, op: Op)
    requires OwnIndex(s) && CacheSound(setting, s) && !op.Foreign?
    ensures OwnIndex(Apply(setting, s, op)) && CacheSound(setting, Apply(setting, s, op))
  {
    hide FreshAnswer, Answer, Scan;
    if op.DoLookup? {
      LookupKeepsRest(setting, s, op.key);
      if op.key !in s.cache { MissIsFresh(setting, s, op.key); }
    }
  }

  lemma LookupKeepsRest(setting: Setting, s: State, k: Key)
    ensures var t := Lookup(setting, s, k).0;
      && t.dir == s.dir && t.archive == s.archive
      && t.cache.Keys == s.cache.Keys + {k}
      && forall j :: j in s.cache ==> t.cache[j] == s.cache[j]
  {
    hide Answer, Scan;
  }

  /**
   Store and cache coherence: over any interleaving of lookups and writes of this process,
   every lookup, cached or not, answers as a fresh scan and resolve of the directory would.
   */
  lemma {:induction false} LookupsAlwaysFresh(setting: Setting, dir: Dir, archive: map<ArchiveName, File>, ops: seq<Op>,
                                              k: Key)
    requires forall i :: 0 <= i < |ops| ==> !ops[i].Foreign?
    ensures var s := Run(setting, State(dir, archive, None, [], map[]), ops);
      OwnIndex(s) && CacheSound(setting, s) && Lookup(setting, s, k).1 == FreshAnswer(setting, s.dir, k)
  {
    hide Apply, OwnIndex, FreshAnswer, Answer, Scan;
    var start := State(dir, archive, None, [], map[]);
    if ops == [] {
      NothingCached(dir, archive);
    } else {
      var n := |ops| - 1;
      LookupsAlwaysFresh(setting, dir, archive, ops[..n], k);
      OwnStepIsSound(setting, Run(setting, start, ops[..n]), ops[n]);
    }
    var s := Run(setting, start, ops);
    if k !in s.cache { MissIsFresh(setting, s, k); }
  }

  lemma NothingCached(dir: Dir, archive: map<ArchiveName, File>)
    ensures OwnIndex(State(dir, archive, None, [], map[]))
  {
  }

  // Foreign changes break this, and exactly so: an answer once cached stands unchanged until
  // this process writes, whatever happens to the directory.
  lemma {:induction false} CachedAnswerIsFrozen(setting: Setting, s: State, ops: seq<Op>, k: Key)
    requires k in s.cache && forall i :: 0 <= i < |ops| ==> !ops[i].DoWrite?
    ensures k in Run(setting, s, ops).cache && Run(setting, s, ops).cache[k] == s.cache[k]
    ensures Lookup(setting, Run(setting, s, ops), k).1 == s.cache[k]
  {
    hide Lookup;
    if ops != [] {
      var n := |ops| - 1;
      CachedAnswerIsFrozen(setting, s, ops[..n], k);
      if ops[n].DoLookup? { LookupKeepsRest(setting, Run(setting, s, ops[..n]), ops[n].key); }
    }
    HitIsCached(setting, Run(setting, s, ops), k);
  }

  lemma HitIsCached(setting: Setting, s: State, k: Key)
    requires k in s.cache
    ensures Lookup(setting, s, k) == (s, s.cache[k])
  {
  }

  // ---------- nothing written is lost ----------

  // A file is kept when it is still active or archived.
  ghost predicate Kept(s: State, stem: Stem, f: File) {
    (stem in s.dir && s.dir[stem] == f) || exists n :: n in s.archive && n.stem == stem && s.archive[n] == f
  }

  // The name a write would archive under is free.
  predicate FreshArchive(s: State, op: Op) {
    op.DoWrite? && op.record.stem.Some? ==> ArchiveTarget(s, op.record.stem.value, op.at) !in s.archive
  }

  lemma StepKeeps(setting: Setting, s: State, op: Op, stem: Stem, f: File)
    requires !op.Foreign? && FreshArchive(s, op) && Kept(s, stem, f)
    ensures Kept(Apply(setting, s, op), stem, f)
  {
    hide Lookup;
    if op.DoLookup? {
      LookupKeepsRest(setting, s, op.key);
    } else if Write(s, op.record, op.at).Ok? {
      var w, t := op.record.stem.value, Write(s, op.record, op.at).result;
      var name := ArchiveTarget(s, w, op.at);
      if stem in s.dir && s.dir[stem] == f {
        if stem == w { assert name in t.archive && t.archive[name] == f; }
      } else {
        var n :| n in s.archive && n.stem == stem && s.archive[n] == f;
        assert n in t.archive && t.archive[n] == f;
      }
    }
  }

  /**
   Every file that was ever active is still active or in the archive, as long as no archive
   name is reused.
   */
  lemma {:induction false} NothingIsLost(setting: Setting, s: State, ops: seq<Op>, stem: Stem, f: File)
    requires Kept(s, stem, f)
    requires forall i :: 0 <= i < |ops| ==> !ops[i].Foreign? && FreshArchive(Run(setting, s, ops[..i]), ops[i])
    ensures Kept(Run(setting, s, ops), stem, f)
  {
    hide Apply, Kept, FreshArchive;
    if ops != [] {
      var n := |ops| - 1;
      forall i | 0 <= i < n ensures FreshArchive(Run(setting, s, ops[..n][..i]), ops[i]) {
        assert ops[..n][..i] == ops[..i];
      }
      NothingIsLost(setting, s, ops[..n], stem, f);
      StepKeeps(setting, Run(setting, s, ops[..n]), ops[n], stem, f);
    }
  }

  // A write adds exactly one file to the store when its archive name is free, and otherwise
  // overwrites the archived file of that name.
  lemma WriteConservesFiles(s: State, r: Record, at: Stamp)
    requires Write(s, r, at).Ok?
    ensures var t, stem := Write(s, r, at).result, r.stem.value;
      && t.dir == s.dir[stem := File(at.mtime, at.size, Doc(r))]
      && (|t.dir| + |t.archive| == |s.dir| + |s.archive| + 1
          <==> stem !in s.dir || ArchiveTarget(s, stem, at) !in s.archive)
      && (stem in s.dir ==> t.archive == s.archive[ArchiveTarget(s, stem, at) := s.dir[stem]])
  {
    var t, stem := Write(s, r, at).result, r.stem.value;
    InsertedSize(s.dir, stem, File(at.mtime, at.size, Doc(r)));
    if stem in s.dir {
      var archived := ArchiveTarget(s, stem, at);
      InsertedSize(s.archive, archived, s.dir[stem]);
      assert t.archive == s.archive[archived := s.dir[stem]];
      hide ArchiveTarget;
    }
  }

  lemma InsertedSize<K, V>(m: map<K, V>, k: K, v: V)
    ensures |m[k := v]| == if k in m then |m| else |m| + 1
  {
    assert m[k := v].Keys == m.Keys + {k};
    assert |m[k := v]| == |m[k := v].Keys| && |m| == |m.Keys|;
    if k in m { assert m.Keys + {k} == m.Keys; }
  }

  // What a write refuses: a record with an error among its checks, then one whose identity does
  // not parse.
  lemma WriteRefusesIff(s: State, r: Record, at: Stamp)
    ensures
      var erring := r.otherErrors || exists v :: v in RecordCheck.Violations(r.body) && v.isError;
      && (Write(s, r, at) == Err(SelfContradictory) <==> erring)
      && (Write(s, r, at) == Err(NoIdentity) <==> !erring && r.stem.None?)
      && (Write(s, r, at).Ok? <==> !erring && r.stem.Some?)
  {
    hide RecordCheck.Violations;
    var errors := RecordCheck.ErrorsOnly(RecordCheck.Violations(r.body));
    if errors != [] { assert errors[0] in errors; }
  }

  // Where the replaced file goes: under its stem and the second of the write, with the
  // nanoseconds when that name is taken; nothing else in the archive moves, and both caches go.
  lemma WriteArchives(s: State, r: Record, at: Stamp)
    requires Write(s, r, at).Ok?
    ensures
      var t, stem := Write(s, r, at).result, r.stem.value;
      var plain := ArchiveName(stem, at.second, None);
      var name := if plain in s.archive then plain.(nanos := Some(at.nanos)) else plain;
      && (stem in s.dir ==>
            && name in t.archive && t.archive[name] == s.dir[stem]
            && forall n :: n != name ==> (n in t.archive <==> n in s.archive) && (n in s.archive ==> t.archive[n] == s.archive[n]))
      && (stem !in s.dir ==> t.archive == s.archive)
      && t.indexFingerprint.None? && t.cache == map[]
  {
  }

  // The index holds exactly the readable records of either schema that are filed under the stem of
  // their own identity, in the order of their stems.
  lemma IndexedIff(dir: Dir, r: Record)
    ensures
      r in Scan(dir) <==>
        exists stem ::
          stem in dir && dir[stem].contents == Doc(r) && r.schema in {1, 2} && r.stem == Some(stem)
  {
    SortedIsAll(dir.Keys);
    ScanHolds(dir, Sorted(dir.Keys), r);
  }

  lemma {:induction false} ScanHolds(dir: Dir, keys: seq<Stem>, r: Record)
    requires forall k :: k in keys ==> k in dir
    ensures
      r in ScanKeys(dir, keys) <==>
        exists stem :: stem in keys && dir[stem].contents == Doc(r) && r.schema in {1, 2} && r.stem == Some(stem)
  {
    if keys != [] {
      ScanHolds(dir, keys[1..], r);
      assert keys == [keys[0]] + keys[1..];
    }
  }

  lemma {:induction false} SortedAscends(keys: set<Stem>)
    ensures forall i, j :: 0 <= i < j < |Sorted(keys)| ==> Sorted(keys)[i] < Sorted(keys)[j]
  {
    if keys != {} {
      var m := MinOf(keys);
      SortedAscends(keys - {m});
      SortedIsAll(keys - {m});
      var rest := Sorted(keys - {m});
      assert Sorted(keys) == [m] + rest;
      forall i, j | 0 <= i < j < |Sorted(keys)| ensures Sorted(keys)[i] < Sorted(keys)[j] {
        assert Sorted(keys)[j] == rest[j - 1] && rest[j - 1] in keys - {m};
        if i > 0 { assert Sorted(keys)[i] == rest[i - 1]; }
      }
    }
  }

  // The last record written to a stem.
  function LastWritten(ops: seq<Op>, stem: Stem): Option<File> {
    if ops == [] then None
    else
      var n := |ops| - 1;
      if ops[n].DoWrite? && ops[n].record.Coherent() && ops[n].record.stem == Some(stem)
      then Some(File(ops[n].at.mtime, ops[n].at.size, Doc(ops[n].record)))
      else LastWritten(ops[..n], stem)
  }

  /**
   The active file of a key is the last coherent record written to it; a contradictory record
   never reaches the directory.
   */
  lemma {:induction false} ActiveIsLastWritten(setting: Setting, s: State, ops: seq<Op>, stem: Stem)
    requires forall i :: 0 <= i < |ops| ==> !ops[i].Foreign?
    ensures var t := Run(setting, s, ops);
      match LastWritten(ops, stem)
      case Some(f) => stem in t.dir && t.dir[stem] == f
      case None => (stem in t.dir <==> stem in s.dir) && (stem in s.dir ==> t.dir[stem] == s.dir[stem])
  {
    hide Lookup, Record.Coherent, Archived;
    if ops != [] {
      var n := |ops| - 1;
      ActiveIsLastWritten(setting, s, ops[..n], stem);
      if ops[n].DoLookup? { LookupKeepsRest(setting, Run(setting, s, ops[..n]), ops[n].key); }
    }
  }

  // Every record of the directory passes the self-consistency checks.
  ghost predicate DiskCoherent(s: State) {
    forall stem :: stem in s.dir && s.dir[stem].contents.Doc? ==> s.dir[stem].contents.record.Coherent()
  }

  /**
   A record that contradicts itself never reaches disk: writes keep a coherent directory
   coherent, whatever records they are given.
   */
  lemma {:induction false} DiskStaysCoherent(setting: Setting, s: State, ops: seq<Op>)
    requires DiskCoherent(s) && forall i :: 0 <= i < |ops| ==> !ops[i].Foreign?
    ensures DiskCoherent(Run(setting, s, ops))
  {
    hide Lookup, Record.Coherent;
    if ops != [] {
      var n := |ops| - 1;
      DiskStaysCoherent(setting, s, ops[..n]);
      if ops[n].DoLookup? { LookupKeepsRest(setting, Run(setting, s, ops[..n]), ops[n].key); }
    }
  }
}
