/**
 The calibration store: a directory of records, an archive, the in-process index of the
 directory and the cache of resolved answers.
 Follows write_record, _v1_index, _clear_store_index and _gather_candidates in
 src/vetch/calibration_store.py and _get_local_calibration in src/vetch/calculation.py.
 */
module CalibrationStore {
  import opened Wrappers
  import opened Text
  import opened Resolver
  import RecordCheck

  // The measurement slug a record's own fields determine: an abstract, ordered file stem.
  type Stem = nat

  datatype Record = Record(
    schema: int,
    stem: Option<Stem>,             // None when the identity does not parse
    body: RecordCheck.Record,       // what the coefficient and energy-basis checks read
    otherErrors: bool,              // an error of one of the remaining checks
    valid: bool,                    // passes the checks made before exposing coefficients
    candidate: Option<Candidate>)   // None when it cannot be rehydrated
  {
    // errors_only(record_invariants(record)) is empty
    predicate Coherent() {
      RecordCheck.ErrorsOnly(RecordCheck.Violations(body)) == [] && !otherErrors
    }
  }

  datatype Contents = Unreadable | Doc(record: Record) | Flat(candidate: Candidate)

  datatype File = File(mtime: nat, size: nat, contents: Contents)

  type Dir = map<Stem, File>

  // archive/<stem>.<stamp>.<pid>.json, with a nanosecond part after a collision.
  datatype ArchiveName = ArchiveName(stem: Stem, stamp: nat, nanos: Option<nat>)

  // File names, times and sizes of the directory.
  type Fingerprint = map<Stem, (nat, nat)>

  datatype Key = Key(provider: string, model: string, hints: Option<Hints>)

  datatype State = State(
    dir: Dir,
    archive: map<ArchiveName, File>,
    indexFingerprint: Option<Fingerprint>,
    index: seq<Record>,
    cache: map<Key, Option<Calibration>>)

  // What stays fixed while the process runs.
  datatype Setting = Setting(env: Env, community: (string, string) -> Option<Calibration>)

  const SCHEMA := 2
  const SCHEMA_V1 := 1

  function FingerprintOf(dir: Dir): Fingerprint {
    map s | s in dir :: (dir[s].mtime, dir[s].size)
  }

  // ---------- scanning ----------

  function MinOf(keys: set<Stem>): (m: Stem)
    requires keys != {}
    ensures m in keys && forall k :: k in keys ==> m <= k
  {
    MinExists(keys);
    var m :| m in keys && forall k :: k in keys ==> m <= k;
    m
  }

  lemma MinExists(keys: set<Stem>)
    requires keys != {}
    ensures exists m :: m in keys && forall k :: k in keys ==> m <= k
  {
    var m := Minimum(keys);
    assert m in keys && forall k :: k in keys ==> m <= k;
  }

  lemma {:induction false} Minimum(keys: set<Stem>) returns (m: Stem)
    requires keys != {}
    ensures m in keys && forall k :: k in keys ==> m <= k
  {
    var x :| x in keys;
    var rest := keys - {x};
    if rest == {} {
      assert keys == {x};
      m := x;
    } else {
      var least := Minimum(rest);
      m := if x < least then x else least;
      forall k | k in keys ensures m <= k {
        if k != x { assert k in rest; }
      }
    }
  }

  // sorted(glob("*.json"))
  function Sorted(keys: set<Stem>): seq<Stem> {
    if keys == {} then [] else var m := MinOf(keys); [m] + Sorted(keys - {m})
  }

  // A file the index admits: a readable record of a known schema, stored under its own slug.
  predicate Indexed(stem: Stem, f: File) {
    && f.contents.Doc?
    && (f.contents.record.schema == SCHEMA || f.contents.record.schema == SCHEMA_V1)
    && f.contents.record.stem == Some(stem)
  }

  function ScanKeys(dir: Dir, keys: seq<Stem>): seq<Record>
    requires forall k :: k in keys ==> k in dir
  {
    if keys == [] then []
    else (if Indexed(keys[0], dir[keys[0]]) then [dir[keys[0]].contents.record] else []) + ScanKeys(dir, keys[1..])
  }

  lemma {:induction false} SortedIsAll(keys: set<Stem>)
    ensures forall k :: k in Sorted(keys) <==> k in keys
  {
    if keys != {} {
      var m := MinOf(keys);
      SortedIsAll(keys - {m});
      assert Sorted(keys) == [m] + Sorted(keys - {m});
    }
  }

  function Scan(dir: Dir): seq<Record> {
    SortedIsAll(dir.Keys);
    ScanKeys(dir, Sorted(dir.Keys))
  }

  // ---------- gathering and resolving ----------

  function LastColon(s: string): (i: Option<nat>)
    ensures i.Some? ==> i.value < |s| && s[i.value] == ':' && ':' !in s[i.value + 1..]
    ensures i.None? ==> ':' !in s
  {
    if s == "" then None
    else if s[|s| - 1] == ':' then Some(|s| - 1)
    else LastColon(s[..|s| - 1])
  }

  // calibration_model_variants
  function Variants(model: string): seq<string> {
    var other := match LastColon(model)
      case None => model + ":latest"
      case Some(i) =>
        if model[i + 1..] == "latest" then model[..i] else model[..i] + ":latest";
    (if model != "" then [model] else []) + (if other != "" && other != model then [other] else [])
  }

  predicate OneOf(name: string, variants: seq<string>) {
    exists v :: v in variants && Lower(v) == Lower(name)
  }

  function FromIndex(records: seq<Record>, variants: seq<string>): seq<Candidate> {
    if records == [] then []
    else
      var r := records[0];
      (if r.candidate.Some? && OneOf(r.candidate.value.model, variants) && r.valid && r.candidate.value.result.active
       then [r.candidate.value] else [])
      + FromIndex(records[1..], variants)
  }

  function FromFlat(dir: Dir, keys: seq<Stem>, variant: string, covered: set<string>): seq<Candidate>
    requires forall k :: k in keys ==> k in dir
  {
    if keys == [] then []
    else
      var f := dir[keys[0]].contents;
      (if f.Flat? && f.candidate.model == variant && f.candidate.provider != ""
          && Lower(f.candidate.provider) !in covered && f.candidate.result.active
       then [f.candidate] else [])
      + FromFlat(dir, keys[1..], variant, covered)
  }

  function FromFlats(dir: Dir, variants: seq<string>, covered: set<string>): seq<Candidate> {
    SortedIsAll(dir.Keys);
    if variants == [] then []
    else FromFlat(dir, Sorted(dir.Keys), variants[0], covered) + FromFlats(dir, variants[1..], covered)
  }

  // _gather_candidates: indexed records, then legacy flat files of providers they do not cover.
  function Gather(dir: Dir, index: seq<Record>, model: string): seq<Candidate> {
    var variants := Variants(model);
    var found := FromIndex(index, variants);
    found + FromFlats(dir, variants, set c | c in found :: Lower(c.provider))
  }

  function Answer(setting: Setting, dir: Dir, index: seq<Record>, k: Key): Option<Calibration> {
    var local := Resolve(Gather(dir, index, k.model), k.provider, k.hints, setting.env);
    if local.None? && !(k.hints.Some? && k.hints.value.AnySet()) then setting.community(k.provider, k.model) else local
  }

  // What a fresh scan and resolve of the directory gives.
  function FreshAnswer(setting: Setting, dir: Dir, k: Key): Option<Calibration> {
    Answer(setting, dir, Scan(dir), k)
  }

  // ---------- the operations ----------

  // _v1_index: reuse the index while the fingerprint stands.
  function Reindex(s: State): State {
    var fp := FingerprintOf(s.dir);
    if s.indexFingerprint == Some(fp) then s
    else s.(indexFingerprint := Some(fp), index := Scan(s.dir))
  }

  // _get_local_calibration
  function Lookup(setting: Setting, s: State, k: Key): (State, Option<Calibration>) {
    if k in s.cache then (s, s.cache[k])
    else
      var t := Reindex(s);
      var a := Answer(setting, t.dir, t.index, k);
      (t.(cache := t.cache[k := a]), a)
  }

  // The clock readings and file attributes one write sees.
  datatype Stamp = Stamp(second: nat, nanos: nat, mtime: nat, size: nat)

  datatype WriteError = SelfContradictory | NoIdentity

  function ArchiveTarget(s: State, stem: Stem, at: Stamp): ArchiveName {
    var name := ArchiveName(stem, at.second, None);
    if name in s.archive then ArchiveName(stem, at.second, Some(at.nanos)) else name
  }

  function Archived(s: State, stem: Stem, at: Stamp): map<ArchiveName, File> {
    if stem in s.dir then s.archive[ArchiveTarget(s, stem, at) := s.dir[stem]] else s.archive
  }

  // write_record
  function Write(s: State, r: Record, at: Stamp): Result<State, WriteError> {
    if !r.Coherent() then Err(SelfContradictory)
    else if r.stem.None? then Err(NoIdentity)
    else Ok(State(s.dir[r.stem.value := File(at.mtime, at.size, Doc(r))],
                  Archived(s, r.stem.value, at), None, [], map[]))
  }

  lemma ScanStep(dir: Dir, keys: seq<Stem>, i: nat)
    requires i < |keys| && forall k :: k in keys ==> k in dir
    ensures keys[i] in dir
    ensures ScanKeys(dir, keys[i..])
            == (if Indexed(keys[i], dir[keys[i]]) then [dir[keys[i]].contents.record] else []) + ScanKeys(dir, keys[i + 1..])
  {
    assert keys[i..][1..] == keys[i + 1..];
  }

  // The loop of _v1_index over the sorted files.
  method ScanFiles(dir: Dir) returns (records: seq<Record>)
    ensures records == Scan(dir)
  {
    hide Sorted;
    records := [];
    var keys := Sorted(dir.Keys);
    SortedIsAll(dir.Keys);
    for i := 0 to |keys|
      invariant records + ScanKeys(dir, keys[i..]) == Scan(dir)
    {
      var stem := keys[i];
      ScanStep(dir, keys, i);
      hide ScanKeys, Scan;
      if Indexed(stem, dir[stem]) {
        records := records + [dir[stem].contents.record];
      }
    }
  }

  class Store {
    const setting: Setting
    var dir: Dir
    var archive: map<ArchiveName, File>
    var indexFingerprint: Option<Fingerprint>
    var index: seq<Record>
    var cache: map<Key, Option<Calibration>>

    function View(): State
      reads this
    {
      State(dir, archive, indexFingerprint, index, cache)
    }

    constructor (setting: Setting, dir: Dir, archive: map<ArchiveName, File>)
      ensures this.setting == setting
      ensures View() == State(dir, archive, None, [], map[])
    {
      this.setting, this.dir, this.archive := setting, dir, archive;
      indexFingerprint, index, cache := None, [], map[];
    }

    method ClearIndex()
      modifies this
      ensures View() == old(View()).(indexFingerprint := None, index := [])
    {
      indexFingerprint, index := None, [];
    }

    method ReadIndex() returns (records: seq<Record>)
      modifies this
      ensures View() == Reindex(old(View()))
      ensures records == View().index
    {
      var fp := FingerprintOf(dir);
      if indexFingerprint == Some(fp) {
        return index;
      }
      records := ScanFiles(dir);
      indexFingerprint, index := Some(fp), records;
    }

    method GetLocalCalibration(k: Key) returns (answer: Option<Calibration>)
      modifies this
      ensures View() == Lookup(setting, old(View()), k).0
      ensures answer == Lookup(setting, old(View()), k).1
    {
      if k !in cache {
        var records := ReadIndex();
        var local := Resolve(Gather(dir, records, k.model), k.provider, k.hints, setting.env);
        if local.None? && !(k.hints.Some? && k.hints.value.AnySet()) {
          local := setting.community(k.provider, k.model);
        }
        cache := cache[k := local];
      }
      answer := cache[k];
    }

    method WriteRecord(r: Record, at: Stamp) returns (written: Result<Stem, WriteError>)
      modifies this
      ensures Write(old(View()), r, at).Ok? ==> written == Ok(r.stem.value) && View() == Write(old(View()), r, at).result
      ensures Write(old(View()), r, at).Err? ==> written == Err(Write(old(View()), r, at).error) && View() == old(View())
    {
      var found := RecordCheck.RecordInvariants(r.body);
      if RecordCheck.ErrorsOnly(found) != [] || r.otherErrors {
        return Err(SelfContradictory);
      }
      if r.stem.None? {
        return Err(NoIdentity);
      }
      var stem := r.stem.value;
      if stem in dir {
        var archived := ArchiveName(stem, at.second, None);
        if archived in archive {
          archived := ArchiveName(stem, at.second, Some(at.nanos));
        }
        archive := archive[archived := dir[stem]];
        dir := dir - {stem};
      }
      dir := dir[stem := File(at.mtime, at.size, Doc(r))];
      ClearIndex();
      cache := map[];
      assert dir == old(dir)[stem := File(at.mtime, at.size, Doc(r))];
      written := Ok(stem);
    }
  }
}
