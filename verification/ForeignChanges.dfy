/**
 What a change another process makes to the directory does to an answer already cached.
 Follows _gather_candidates in src/vetch/calibration_store.py and _get_local_calibration in
 src/vetch/calculation.py.
 */
module ForeignChanges {
  import opened Wrappers
  import opened Text
  import opened Resolver
  import opened CalibrationStore
  import opened StoreRuns
  import opened Rungs
  import RecordCheck

  // ---------- the gathered candidates around one file ----------

  function FileAt(dir: Dir, stem: Stem): Option<File> {
    if stem in dir then Some(dir[stem]) else None
  }

  function Below(keys: set<Stem>, stem: Stem): set<Stem> { set k | k in keys && k < stem }
  function Above(keys: set<Stem>, stem: Stem): set<Stem> { set k | k in keys && stem < k }

  // The candidates an indexed record of this file offers, and those it offers as a flat file.
  function IndexPart(stem: Stem, file: Option<File>, variants: seq<string>): seq<Candidate> {
    if file.Some? && Indexed(stem, file.value) then FromIndex([file.value.contents.record], variants) else []
  }

  function FlatPart(file: Option<File>, variant: string, covered: set<string>): seq<Candidate> {
    if && file.Some? && file.value.contents.Flat?
       && file.value.contents.candidate.model == variant && file.value.contents.candidate.provider != ""
       && Lower(file.value.contents.candidate.provider) !in covered
       && file.value.contents.candidate.result.active
    then [file.value.contents.candidate] else []
  }

  function FlatsAround(rest: Dir, stem: Stem, file: Option<File>, variants: seq<string>, covered: set<string>): seq<Candidate> {
    SortedIsAll(Below(rest.Keys, stem));
    SortedIsAll(Above(rest.Keys, stem));
    if variants == [] then []
    else
      FromFlat(rest, Sorted(Below(rest.Keys, stem)), variants[0], covered)
      + FlatPart(file, variants[0], covered)
      + FromFlat(rest, Sorted(Above(rest.Keys, stem)), variants[0], covered)
      + FlatsAround(rest, stem, file, variants[1..], covered)
  }

  // The candidates for a model, gathered around one file.
  function GatheredAround(rest: Dir, stem: Stem, file: Option<File>, model: string): seq<Candidate> {
    SortedIsAll(Below(rest.Keys, stem));
    SortedIsAll(Above(rest.Keys, stem));
    var variants := Variants(model);
    var found :=
      FromIndex(ScanKeys(rest, Sorted(Below(rest.Keys, stem))), variants)
      + IndexPart(stem, file, variants)
      + FromIndex(ScanKeys(rest, Sorted(Above(rest.Keys, stem))), variants);
    found + FlatsAround(rest, stem, file, variants, set c | c in found :: Lower(c.provider))
  }

  // The answer the resolver gives to gathered candidates, or the community prior.
  function Settled(setting: Setting, cs: seq<Candidate>, k: Key): Option<Calibration> {
    var local := Resolve(cs, k.provider, k.hints, setting.env);
    if local.None? && !(k.hints.Some? && k.hints.value.AnySet()) then setting.community(k.provider, k.model) else local
  }

  lemma {:induction false} MinOfIs(keys: set<Stem>, m: Stem)
    requires m in keys && forall k :: k in keys ==> m <= k
    ensures MinOf(keys) == m
  {
  }

  lemma {:induction false} SortedSplits(keys: set<Stem>, stem: Stem)
    ensures Sorted(keys) == Sorted(Below(keys, stem)) + (if stem in keys then [stem] else []) + Sorted(Above(keys, stem))
  {
    if keys != {} {
      var m := MinOf(keys);
      var rest := keys - {m};
      SortedSplits(rest, stem);
      assert Sorted(keys) == [m] + Sorted(rest);
      if m < stem {
        MinOfIs(Below(keys, stem), m);
        assert Below(keys, stem) - {m} == Below(rest, stem) && Above(keys, stem) == Above(rest, stem);
        assert Sorted(Below(keys, stem)) == [m] + Sorted(Below(rest, stem));
      } else {
        assert Below(keys, stem) == {} && Below(rest, stem) == {};
        if m == stem {
          assert Above(keys, stem) == rest && Above(rest, stem) == rest;
        } else {
          assert Above(keys, stem) == keys && Above(rest, stem) == rest;
        }
      }
    }
  }

  lemma {:induction false} ScanKeysSplits(dir: Dir, a: seq<Stem>, b: seq<Stem>)
    requires forall k :: k in a + b ==> k in dir
    ensures forall k :: k in a || k in b ==> k in dir
    ensures ScanKeys(dir, a + b) == ScanKeys(dir, a) + ScanKeys(dir, b)
  {
    hide Indexed;
    forall k | k in a || k in b ensures k in dir { assert k in a + b; }
    if a == [] {
      assert a + b == b;
    } else {
      assert (a + b)[1..] == a[1..] + b;
      ScanKeysSplits(dir, a[1..], b);
    }
  }

  lemma {:induction false} FromFlatSplits(dir: Dir, a: seq<Stem>, b: seq<Stem>, variant: string, covered: set<string>)
    requires forall k :: k in a + b ==> k in dir
    ensures forall k :: k in a || k in b ==> k in dir
    ensures FromFlat(dir, a + b, variant, covered) == FromFlat(dir, a, variant, covered) + FromFlat(dir, b, variant, covered)
  {
    forall k | k in a || k in b ensures k in dir { assert k in a + b; }
    if a == [] {
      assert a + b == b;
    } else {
      assert (a + b)[1..] == a[1..] + b;
      FromFlatSplits(dir, a[1..], b, variant, covered);
    }
  }

  lemma {:induction false} FromIndexSplits(a: seq<Record>, b: seq<Record>, variants: seq<string>)
    ensures FromIndex(a + b, variants) == FromIndex(a, variants) + FromIndex(b, variants)
  {
    hide OneOf;
    if a == [] {
      assert a + b == b;
    } else {
      assert (a + b)[1..] == a[1..] + b;
      FromIndexSplits(a[1..], b, variants);
    }
  }

  // Scans read nothing but the files at their keys.
  lemma {:induction false} ScanKeysAgree(d: Dir, e: Dir, keys: seq<Stem>)
    requires forall k :: k in keys ==> k in d && k in e && d[k] == e[k]
    ensures ScanKeys(d, keys) == ScanKeys(e, keys)
  {
    if keys != [] { ScanKeysAgree(d, e, keys[1..]); }
  }

  lemma {:induction false} FromFlatAgree(d: Dir, e: Dir, keys: seq<Stem>, variant: string, covered: set<string>)
    requires forall k :: k in keys ==> k in d && k in e && d[k] == e[k]
    ensures FromFlat(d, keys, variant, covered) == FromFlat(e, keys, variant, covered)
  {
    if keys != [] { FromFlatAgree(d, e, keys[1..], variant, covered); }
  }

  // The directory's keys, below the stem, the stem, and above it.
  lemma AroundKeys(rest: Dir, stem: Stem, file: Option<File>)
    requires stem !in rest
    ensures
      var d := Put(rest, stem, file);
      var below, above := Sorted(Below(rest.Keys, stem)), Sorted(Above(rest.Keys, stem));
      && Sorted(d.Keys) == below + (if file.Some? then [stem] else []) + above
      && FileAt(d, stem) == file
      && (forall k :: k in below || k in above ==> k in rest && k in d && d[k] == rest[k])
  {
    var d := Put(rest, stem, file);
    SortedSplits(d.Keys, stem);
    assert Below(d.Keys, stem) == Below(rest.Keys, stem) && Above(d.Keys, stem) == Above(rest.Keys, stem);
    SortedIsAll(Below(rest.Keys, stem));
    SortedIsAll(Above(rest.Keys, stem));
  }

  lemma ScanAround(rest: Dir, stem: Stem, file: Option<File>, variants: seq<string>)
    requires stem !in rest
    ensures
      var below, above := Sorted(Below(rest.Keys, stem)), Sorted(Above(rest.Keys, stem));
      && (forall k :: k in below || k in above ==> k in rest)
      && FromIndex(Scan(Put(rest, stem, file)), variants)
         == FromIndex(ScanKeys(rest, below), variants) + IndexPart(stem, file, variants)
            + FromIndex(ScanKeys(rest, above), variants)
  {
    hide Indexed;
    AroundKeys(rest, stem, file);
    hide Put, Sorted, FromIndex;
    var d := Put(rest, stem, file);
    var below, above := Sorted(Below(rest.Keys, stem)), Sorted(Above(rest.Keys, stem));
    var middle := if file.Some? then [stem] else [];
    SortedIsAll(d.Keys);
    ScanKeysSplits(d, below + middle, above);
    ScanKeysSplits(d, below, middle);
    ScanKeysAgree(d, rest, below);
    ScanKeysAgree(d, rest, above);
    FromIndexSplits(ScanKeys(d, below) + ScanKeys(d, middle), ScanKeys(d, above), variants);
    FromIndexSplits(ScanKeys(d, below), ScanKeys(d, middle), variants);
    MiddleIndex(d, stem, file, variants);
  }

  lemma MiddleIndex(d: Dir, stem: Stem, file: Option<File>, variants: seq<string>)
    requires FileAt(d, stem) == file
    ensures
      var middle := if file.Some? then [stem] else [];
      && (forall k :: k in middle ==> k in d)
      && FromIndex(ScanKeys(d, middle), variants) == IndexPart(stem, file, variants)
  {
    hide OneOf;
    assert ScanKeys(d, []) == [];
    if file.Some? {
      assert [stem][1..] == [];
      assert ScanKeys(d, [stem]) == if Indexed(stem, file.value) then [file.value.contents.record] else [];
    }
  }

  lemma {:induction false} FlatsAroundIs(rest: Dir, stem: Stem, file: Option<File>, variants: seq<string>, covered: set<string>)
    requires stem !in rest
    ensures FromFlats(Put(rest, stem, file), variants, covered) == FlatsAround(rest, stem, file, variants, covered)
  {
    if variants != [] {
      FlatAround(rest, stem, file, variants[0], covered);
      hide FromFlat, FlatPart, Put, Sorted;
      FlatsAroundIs(rest, stem, file, variants[1..], covered);
      SortedIsAll(Put(rest, stem, file).Keys);
    }
  }

  lemma FlatAround(rest: Dir, stem: Stem, file: Option<File>, variant: string, covered: set<string>)
    requires stem !in rest
    ensures
      var d := Put(rest, stem, file);
      var below, above := Sorted(Below(rest.Keys, stem)), Sorted(Above(rest.Keys, stem));
      && (forall k :: k in Sorted(d.Keys) ==> k in d)
      && (forall k :: k in below || k in above ==> k in rest)
      && FromFlat(d, Sorted(d.Keys), variant, covered)
         == FromFlat(rest, below, variant, covered) + FlatPart(file, variant, covered) + FromFlat(rest, above, variant, covered)
  {
    AroundKeys(rest, stem, file);
    hide Put, Sorted;
    var d := Put(rest, stem, file);
    var below, above := Sorted(Below(rest.Keys, stem)), Sorted(Above(rest.Keys, stem));
    var middle := if file.Some? then [stem] else [];
    SortedIsAll(d.Keys);
    FromFlatSplits(d, below + middle, above, variant, covered);
    FromFlatSplits(d, below, middle, variant, covered);
    FromFlatAgree(d, rest, below, variant, covered);
    FromFlatAgree(d, rest, above, variant, covered);
    MiddleFlat(d, stem, file, variant, covered);
  }

  lemma MiddleFlat(d: Dir, stem: Stem, file: Option<File>, variant: string, covered: set<string>)
    requires FileAt(d, stem) == file
    ensures
      var middle := if file.Some? then [stem] else [];
      && (forall k :: k in middle ==> k in d)
      && FromFlat(d, middle, variant, covered) == FlatPart(file, variant, covered)
  {
    assert FromFlat(d, [], variant, covered) == [];
    if file.Some? { assert [stem][1..] == []; }
  }

  // A fresh answer, told from the rest of the directory and the one file.
  lemma FreshAround(setting: Setting, rest: Dir, stem: Stem, file: Option<File>, k: Key)
    requires stem !in rest
    ensures FreshAnswer(setting, Put(rest, stem, file), k)
            == Settled(setting, GatheredAround(rest, stem, file, k.model), k)
  {
    hide Resolve, FromFlat, FromFlats, FlatsAround, FromIndex, Scan, ScanKeys, Put, Variants, IndexPart, Sorted;
    var d := Put(rest, stem, file);
    var variants := Variants(k.model);
    ScanAround(rest, stem, file, variants);
    var found := FromIndex(Scan(d), variants);
    FlatsAroundIs(rest, stem, file, variants, set c | c in found :: Lower(c.provider));
    assert Gather(d, Scan(d), k.model) == GatheredAround(rest, stem, file, k.model);
  }

  /**
   After a change by another process a cached answer is right if and only if the candidates
   gathered around the new file settle as those around the old one did.
   */
  lemma AfterForeignChangeIff(setting: Setting, s: State, stem: Stem, file: Option<File>, k: Key)
    requires CacheSound(setting, s) && k in s.cache
    ensures
      var t, rest := Apply(setting, s, Foreign(stem, file)), s.dir - {stem};
      Lookup(setting, t, k).1 == FreshAnswer(setting, t.dir, k) <==>
        Settled(setting, GatheredAround(rest, stem, FileAt(s.dir, stem), k.model), k)
        == Settled(setting, GatheredAround(rest, stem, file, k.model), k)
  {
    hide FreshAnswer, Settled, GatheredAround;
    var t, rest := Apply(setting, s, Foreign(stem, file)), s.dir - {stem};
    HitIsCached(setting, t, k);
    assert s.dir == Put(rest, stem, FileAt(s.dir, stem));
    assert t.dir == Put(rest, stem, file);
    FreshAround(setting, rest, stem, FileAt(s.dir, stem), k);
    FreshAround(setting, rest, stem, file, k);
  }

  // The file offers a candidate for the model: a valid active record indexed under a variant
  // of its name, or an active flat file of one.
  predicate Concerns(stem: Stem, file: Option<File>, model: string) {
    file.Some?
    && match file.value.contents
       case Unreadable => false
       case Doc(r) =>
         && Indexed(stem, file.value) && r.candidate.Some? && OneOf(r.candidate.value.model, Variants(model))
         && r.valid && r.candidate.value.result.active
       case Flat(c) => c.model in Variants(model) && c.provider != "" && c.result.active
  }

  // A change between two files that do not concern the model never makes a cached answer wrong.
  lemma UnrelatedChangeIsHarmless(setting: Setting, s: State, stem: Stem, file: Option<File>, k: Key)
    requires CacheSound(setting, s) && k in s.cache
    requires !Concerns(stem, FileAt(s.dir, stem), k.model) && !Concerns(stem, file, k.model)
    ensures
      var t := Apply(setting, s, Foreign(stem, file));
      Lookup(setting, t, k).1 == FreshAnswer(setting, t.dir, k)
  {
    hide Settled, Apply, FreshAnswer, Lookup, Concerns;
    var rest := s.dir - {stem};
    AfterForeignChangeIff(setting, s, stem, file, k);
    UnconcernedGathers(rest, stem, FileAt(s.dir, stem), k.model);
    UnconcernedGathers(rest, stem, file, k.model);
  }

  lemma UnconcernedGathers(rest: Dir, stem: Stem, file: Option<File>, model: string)
    requires !Concerns(stem, file, model)
    ensures GatheredAround(rest, stem, file, model) == GatheredAround(rest, stem, None, model)
  {
    var variants := Variants(model);
    hide Variants, FromFlat, Sorted, ScanKeys, OneOf, Indexed;
    NothingOffered(stem, file, variants, model);
    SortedIsAll(Below(rest.Keys, stem));
    SortedIsAll(Above(rest.Keys, stem));
    hide FromIndex, IndexPart;
    assert IndexPart(stem, None, variants) == [] by { NothingAtAll(stem, variants); }
    var found :=
      FromIndex(ScanKeys(rest, Sorted(Below(rest.Keys, stem))), variants)
      + IndexPart(stem, file, variants)
      + FromIndex(ScanKeys(rest, Sorted(Above(rest.Keys, stem))), variants);
    SameFlats(rest, stem, file, variants, set c | c in found :: Lower(c.provider));
  }

  lemma NothingAtAll(stem: Stem, variants: seq<string>)
    ensures IndexPart(stem, None, variants) == []
  {
  }

  lemma NothingOffered(stem: Stem, file: Option<File>, variants: seq<string>, model: string)
    requires variants == Variants(model) && !Concerns(stem, file, model)
    ensures IndexPart(stem, file, variants) == []
    ensures forall v, covered :: v in variants ==> FlatPart(file, v, covered) == []
  {
    hide OneOf, Variants;
    if file.Some? && Indexed(stem, file.value) {
      var r := file.value.contents.record;
      assert FromIndex([r][1..], variants) == [];
    }
  }

  lemma {:induction false} SameFlats(rest: Dir, stem: Stem, file: Option<File>, variants: seq<string>, covered: set<string>)
    requires forall v :: v in variants ==> FlatPart(file, v, covered) == []
    ensures FlatsAround(rest, stem, file, variants, covered) == FlatsAround(rest, stem, None, variants, covered)
  {
    if variants != [] {
      assert variants[0] in variants && forall v :: v in variants[1..] ==> v in variants;
      assert FlatPart(file, variants[0], covered) == [] == FlatPart(None, variants[0], covered);
      hide FlatPart, FromFlat;
      SameFlats(rest, stem, file, variants[1..], covered);
    }
  }

  // ---------- which candidates are gathered ----------

  // The other name a model goes by: without a tag, the same with ":latest"; with that tag, the
  // same without; with any other, its base with ":latest".
  lemma VariantsOfTag(base: string, tag: string, v: string)
    requires ':' !in tag
    ensures
      v in Variants(base + ":" + tag) <==>
        v == base + ":" + tag || (v != "" && v == if tag == "latest" then base else base + ":latest")
  {
    LastColonAt(base, tag);
    var model := base + ":" + tag;
    assert model[..|base|] == base && model[|base| + 1..] == tag;
  }

  lemma VariantsWithoutTag(model: string, v: string)
    requires ':' !in model
    ensures v in Variants(model) <==> v == model + ":latest" || (v == model && model != "")
  {
    NoColon(model);
    assert |model + ":latest"| > |model|;
  }

  lemma LastColonAt(base: string, tag: string)
    requires ':' !in tag
    ensures LastColon(base + ":" + tag) == Some(|base|)
  {
    var model := base + ":" + tag;
    assert model[|base| + 1..] == tag;
    assert model[|base|] == ':';
    LastColonIs(model, |base|);
  }

  lemma {:induction false} LastColonIs(s: string, k: nat)
    requires k < |s| && s[k] == ':' && ':' !in s[k + 1..]
    ensures LastColon(s) == Some(k)
  {
    if k < |s| - 1 {
      var n := |s| - 1;
      assert s[k + 1..][n - k - 1] == s[n];
      assert s[k + 1..] == s[..n][k + 1..] + [s[n]];
      LastColonIs(s[..n], k);
    }
  }

  lemma NoColon(s: string)
    requires ':' !in s
    ensures LastColon(s) == None
  {
  }

  // From the index: the active candidates of valid records stored under a variant of the name, in
  // any letter case.
  lemma {:induction false} FromIndexIff(records: seq<Record>, variants: seq<string>, c: Candidate)
    ensures
      c in FromIndex(records, variants) <==>
        exists r ::
          && r in records && r.valid && r.candidate == Some(c) && c.result.active
          && exists v :: v in variants && Lower(v) == Lower(c.model)
  {
    if records != [] {
      FromIndexIff(records[1..], variants, c);
      assert records == [records[0]] + records[1..];
    }
  }

  // From a flat file: an active candidate stored under exactly the variant, of a named provider
  // that the index does not cover.
  lemma {:induction false} FromFlatIff(dir: Dir, keys: seq<Stem>, variant: string, covered: set<string>, c: Candidate)
    requires forall k :: k in keys ==> k in dir
    ensures
      c in FromFlat(dir, keys, variant, covered) <==>
        exists k ::
          && k in keys && dir[k].contents == Flat(c)
          && c.model == variant && c.provider != "" && Lower(c.provider) !in covered && c.result.active
  {
    if keys != [] {
      FromFlatIff(dir, keys[1..], variant, covered, c);
      assert keys == [keys[0]] + keys[1..];
    }
  }

  lemma {:induction false} FromFlatsIff(dir: Dir, variants: seq<string>, covered: set<string>, c: Candidate)
    ensures
      c in FromFlats(dir, variants, covered) <==>
        && c.model in variants && c.provider != "" && Lower(c.provider) !in covered && c.result.active
        && exists k :: k in dir && dir[k].contents == Flat(c)
  {
    hide FromFlat;
    SortedIsAll(dir.Keys);
    if variants != [] {
      FromFlatsIff(dir, variants[1..], covered, c);
      FromFlatIff(dir, Sorted(dir.Keys), variants[0], covered, c);
      assert variants == [variants[0]] + variants[1..];
    }
  }

  /**
   A candidate is gathered for a model exactly when a valid, active record of it is indexed under
   a variant of the name, or a flat file of it is active under one and no such record is of its
   provider.
   */
  lemma GatheredIff(dir: Dir, model: string, c: Candidate)
    ensures
      c in Gather(dir, Scan(dir), model) <==>
        || FromRecord(dir, model, c)
        || (&& c.model in Variants(model) && c.provider != "" && c.result.active
            && (exists k :: k in dir && dir[k].contents == Flat(c))
            && forall d :: FromRecord(dir, model, d) ==> Lower(d.provider) != Lower(c.provider))
  {
    hide Variants, Scan, FromFlats, FromIndex, FromRecord;
    var found := FromIndex(Scan(dir), Variants(model));
    forall d ensures d in found <==> FromRecord(dir, model, d) { RecordOffers(dir, model, d); }
    FromFlatsIff(dir, Variants(model), set d | d in found :: Lower(d.provider), c);
  }

  ghost predicate FromRecord(dir: Dir, model: string, c: Candidate) {
    exists stem, r ::
      && stem in dir && dir[stem].contents == Doc(r) && r.schema in {1, 2} && r.stem == Some(stem)
      && r.valid && r.candidate == Some(c) && c.result.active
      && exists v :: v in Variants(model) && Lower(v) == Lower(c.model)
  }

  lemma RecordOffers(dir: Dir, model: string, c: Candidate)
    ensures c in FromIndex(Scan(dir), Variants(model)) <==> FromRecord(dir, model, c)
  {
    hide Variants, Scan, FromIndex;
    FromIndexIff(Scan(dir), Variants(model), c);
    forall r ensures r in Scan(dir) <==>
      exists stem :: stem in dir && dir[stem].contents == Doc(r) && r.schema in {1, 2} && r.stem == Some(stem)
    {
      IndexedIff(dir, r);
    }
  }

  // ---------- how an answer goes stale ----------

  // The first file of a model: one valid active record, and nothing else about the model.
  predicate OnlyRecord(rest: Dir, stem: Stem, file: Option<File>, model: string) {
    && Concerns(stem, file, model) && file.value.contents.Doc?
    && GatheredAround(rest, stem, None, model) == []
  }

  // The candidate it offers.
  function Offered(stem: Stem, file: Option<File>, model: string): Candidate
    requires Concerns(stem, file, model) && file.value.contents.Doc?
  {
    file.value.contents.record.candidate.value
  }

  // When another process stores the first record of a model, a cached answer without hints or
  // a community prior misses it exactly when the record's label serves the event's: the same
  // provider, or both self-hosted.
  lemma FirstRecordIsMissedIff(setting: Setting, s: State, stem: Stem, file: Option<File>, k: Key)
    requires CacheSound(setting, s) && k in s.cache && k.hints.None?
    requires stem !in s.dir && OnlyRecord(s.dir, stem, file, k.model)
    requires setting.community(k.provider, k.model).None?
    ensures
      var t, c := Apply(setting, s, Foreign(stem, file)), Offered(stem, file, k.model);
      Lookup(setting, t, k).1 != FreshAnswer(setting, t.dir, k) <==>
        || Lower(c.provider) == Lower(k.provider)
        || (Lower(c.provider) in setting.env.selfHosted && Lower(k.provider) in setting.env.selfHosted)
  {
    hide Apply, FreshAnswer, Lookup, Settled, GatheredAround, Concerns, Put, CacheSound, Lower;
    AloneGathers(s.dir, stem, file, k.model);
    AfterForeignChangeIff(setting, s, stem, file, k);
    assert s.dir - {stem} == s.dir;
    SettlesDifferentlyIff(setting, Offered(stem, file, k.model), k);
    hide OnlyRecord, Offered;
  }

  lemma SettlesDifferentlyIff(setting: Setting, c: Candidate, k: Key)
    requires k.hints.None? && setting.community(k.provider, k.model).None?
    ensures
      Settled(setting, [], k) != Settled(setting, [c], k) <==>
        || Lower(c.provider) == Lower(k.provider)
        || (Lower(c.provider) in setting.env.selfHosted && Lower(k.provider) in setting.env.selfHosted)
  {
    hide Resolve;
    NoneResolves(k, setting.env);
    OneResolves(c, k, setting.env);
  }

  lemma AloneGathers(rest: Dir, stem: Stem, file: Option<File>, model: string)
    requires OnlyRecord(rest, stem, file, model)
    ensures GatheredAround(rest, stem, file, model) == [Offered(stem, file, model)]
  {
    hide FromFlat, Sorted, ScanKeys, OneOf, Variants;
    var variants := Variants(model);
    var r := file.value.contents.record;
    assert FromIndex([r][1..], variants) == [];
    assert IndexPart(stem, file, variants) == [r.candidate.value];
    SortedIsAll(Below(rest.Keys, stem));
    SortedIsAll(Above(rest.Keys, stem));
    hide FromIndex, IndexPart;
    assert IndexPart(stem, None, variants) == [] by { NothingAtAll(stem, variants); }
    var below := FromIndex(ScanKeys(rest, Sorted(Below(rest.Keys, stem))), variants);
    var above := FromIndex(ScanKeys(rest, Sorted(Above(rest.Keys, stem))), variants);
    assert below == [] && above == [];
    var none: set<string> := {};
    assert FlatsAround(rest, stem, None, variants, none) == [] by {
      assert (set c | c in below + [] + above :: Lower(c.provider)) == none;
    }
    var found := below + [r.candidate.value] + above;
    assert found == [r.candidate.value];
    CoveredFlats(rest, stem, file, variants, none, set c | c in found :: Lower(c.provider));
  }

  // Covering more providers never brings a flat file back.
  lemma {:induction false} CoveredFlats(rest: Dir, stem: Stem, file: Option<File>, variants: seq<string>,
                                        few: set<string>, more: set<string>)
    requires few <= more && FlatsAround(rest, stem, None, variants, few) == []
    requires file.Some? && file.value.contents.Doc?
    ensures FlatsAround(rest, stem, file, variants, more) == []
  {
    SortedIsAll(Below(rest.Keys, stem));
    SortedIsAll(Above(rest.Keys, stem));
    if variants != [] {
      CoveredFlat(rest, Sorted(Below(rest.Keys, stem)), variants[0], few, more);
      CoveredFlat(rest, Sorted(Above(rest.Keys, stem)), variants[0], few, more);
      CoveredFlats(rest, stem, file, variants[1..], few, more);
    }
  }

  lemma {:induction false} CoveredFlat(rest: Dir, keys: seq<Stem>, variant: string, few: set<string>, more: set<string>)
    requires few <= more && forall k :: k in keys ==> k in rest
    requires FromFlat(rest, keys, variant, few) == []
    ensures FromFlat(rest, keys, variant, more) == []
  {
    if keys != [] { CoveredFlat(rest, keys[1..], variant, few, more); }
  }

  lemma NoneResolves(k: Key, env: Env)
    ensures Resolve([], k.provider, k.hints, env).None?
  {
  }

  // One candidate serves its own provider, and self-hosted labels one another.
  lemma OneResolves(c: Candidate, k: Key, env: Env)
    requires k.hints.None?
    ensures
      Resolve([c], k.provider, k.hints, env).Some? <==>
        || Lower(c.provider) == Lower(k.provider)
        || (Lower(c.provider) in env.selfHosted && Lower(k.provider) in env.selfHosted)
  {
    assert Filter([c][1..], OfProvider(k.provider)) == [] && Filter([c][1..], OnSelfHosted(env)) == [];
  }

  // ---------- a stale answer ----------

  const MEASURED := Candidate(
    Calibration(map[Output := Some(0.5)], 0, None, true, None), "ollama", "phi", None, None, None, None, None, None, 0.0,
    true, None, None)

  const WRITTEN_ELSEWHERE := File(1, 1, Doc(Record(
    SCHEMA, Some(7), RecordCheck.Record(map[], map[], {}, None, true, None), false, true, Some(MEASURED))))

  // An empty directory, a lookup that finds nothing, a record another process then stores:
  // the next lookup still finds nothing, while a fresh one finds the record.
  lemma StaleAnswerExample(env: Env)
    ensures
      var setting, k := Setting(env, (_, _) => None), Key("ollama", "phi", None);
      var t := Run(setting, State(map[], map[], None, [], map[]), [DoLookup(k), Foreign(7, Some(WRITTEN_ELSEWHERE))]);
      && Lookup(setting, t, k).1.None?
      && FreshAnswer(setting, t.dir, k).Some?
  {
    var setting, k := Setting(env, (_, _) => None), Key("ollama", "phi", None);
    var start := State(map[], map[], None, [], map[]);
    var s := Lookup(setting, start, k).0;
    EmptyIsFresh(setting, start, k);
    assert OnlyRecord(s.dir, 7, Some(WRITTEN_ELSEWHERE), k.model) by { ExampleConcerns(); }
    FirstRecordIsMissedIff(setting, s, 7, Some(WRITTEN_ELSEWHERE), k);
    RunOfTwo(setting, start, k, Foreign(7, Some(WRITTEN_ELSEWHERE)));
    HitIsCached(setting, Apply(setting, s, Foreign(7, Some(WRITTEN_ELSEWHERE))), k);
  }

  lemma RunOfTwo(setting: Setting, start: State, k: Key, op: Op)
    ensures Run(setting, start, [DoLookup(k), op]) == Apply(setting, Lookup(setting, start, k).0, op)
  {
    hide Lookup;
    var ops := [DoLookup(k), op];
    assert ops[..1] == [DoLookup(k)] && ops[..1][..0] == [];
    assert Run(setting, start, ops[..1]) == Lookup(setting, start, k).0;
  }

  lemma EmptyIsFresh(setting: Setting, start: State, k: Key)
    requires start == State(map[], map[], None, [], map[]) && k.hints.None?
    requires setting.community(k.provider, k.model).None?
    ensures
      var (s, answer) := Lookup(setting, start, k);
      && answer.None? && s.dir == map[] && k in s.cache && CacheSound(setting, s)
  {
    hide Resolve, Variants;
    NoneResolves(k, setting.env);
    NothingGathered(k.model);
    MissIsFresh(setting, start, k);
    LookupKeepsRest(setting, start, k);
  }

  lemma NothingGathered(model: string)
    ensures Gather(map[], Scan(map[]), model) == []
  {
    hide Variants;
    var none: seq<Candidate> := [];
    assert FromIndex([], Variants(model)) == none;
    assert (set c | c in none :: Lower(c.provider)) == {};
    NoFlats(map[], Variants(model), set c | c in none :: Lower(c.provider));
  }

  lemma {:induction false} NoFlats(dir: Dir, variants: seq<string>, covered: set<string>)
    requires dir == map[]
    ensures FromFlats(dir, variants, covered) == []
  {
    if variants != [] { NoFlats(dir, variants[1..], covered); }
  }

  lemma ExampleConcerns()
    ensures OnlyRecord(map[], 7, Some(WRITTEN_ELSEWHERE), "phi")
  {
    assert Variants("phi")[0] == "phi" && Variants("phi")[0] in Variants("phi");
    assert OneOf("phi", Variants("phi"));
    NothingAround(7, "phi");
  }

  lemma NothingAround(stem: Stem, model: string)
    ensures GatheredAround(map[], stem, None, model) == []
  {
    hide Variants;
    var dir: Dir := map[];
    assert Below(dir.Keys, stem) == {} && Above(dir.Keys, stem) == {};
    var none: seq<Candidate> := [];
    assert FromIndex(ScanKeys(dir, []), Variants(model)) == none;
    NoFlatsAround(dir, stem, Variants(model), set c | c in none :: Lower(c.provider));
  }

  lemma {:induction false} NoFlatsAround(dir: Dir, stem: Stem, variants: seq<string>, covered: set<string>)
    requires dir == map[]
    ensures FlatsAround(dir, stem, None, variants, covered) == []
  {
    assert Below(dir.Keys, stem) == {} && Above(dir.Keys, stem) == {};
    if variants != [] { NoFlatsAround(dir, stem, variants[1..], covered); }
  }
}
