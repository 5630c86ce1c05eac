/**
 Resolving a model name: exact key, alias, hyphen prefix with the minor version dropped,
 family representative, and otherwise no match.
 Follows resolve_model_match and _family_fallback in src/vetch/calculation.py.
 */
module ModelLadder {
  import opened Wrappers
  import opened Text

  datatype Precision = Exact | Alias | Prefix | Family | Fallback

  datatype Match = Match(name: string, known: bool, precision: Precision)

  // The energy registry's keys, the curated aliases, and the representative of a name's family.
  datatype Registry = Registry(
    energy: set<string>,
    aliases: map<string, string>,
    family: string -> Option<string>)

  // ---------- the forms of a name ----------

  // s.rsplit("/", 1)[-1]
  function BaseName(s: string): string {
    if '/' !in s then s else BaseName(s[1..])
  }

  // The name itself, and its part after the last slash.
  function Forms(lower: string): (forms: seq<string>)
    ensures forms != [] && forms[0] == lower
  {
    var base := BaseName(lower);
    if '/' in lower && base != "" && base != lower then [lower, base] else [lower]
  }

  lemma {:induction false} BaseNameIs(s: string)
    requires '/' in s
    ensures
      var k := |s| - |BaseName(s)|;
      0 < k && '/' !in BaseName(s) && s[k..] == BaseName(s) && s[k - 1] == '/'
  {
    if '/' in s[1..] {
      BaseNameIs(s[1..]);
    } else {
      assert s[0] == '/';
      assert BaseName(s) == s[1..];
    }
  }

  // ---------- dropping a minor version ----------

  predicate Digit(c: char) { '0' <= c <= '9' }

  function TrailingDigits(s: string): (n: nat)
    ensures n <= |s|
    ensures forall i :: |s| - n <= i < |s| ==> Digit(s[i])
    ensures n < |s| ==> !Digit(s[|s| - n - 1])
  {
    if s == "" || !Digit(s[|s| - 1]) then 0 else 1 + TrailingDigits(s[..|s| - 1])
  }

  // re.sub(r"(\d+)\.\d+$", r"\1", s)
  function Degrade(s: string): string {
    var n := TrailingDigits(s);
    if n > 0 && n + 2 <= |s| && s[|s| - n - 1] == '.' && Digit(s[|s| - n - 2]) then s[..|s| - n - 1] else s
  }

  // A dot between a digit and a run of digits that ends the name.
  predicate MinorVersionAt(s: string, dot: int) {
    0 < dot < |s| - 1 && s[dot] == '.' && Digit(s[dot - 1]) && forall i :: dot < i < |s| ==> Digit(s[i])
  }

  // There is at most one such dot; the name is cut at it, or kept.
  lemma DegradeCutsAt(s: string, dot: int)
    ensures MinorVersionAt(s, dot) ==> Degrade(s) == s[..dot]
    ensures Degrade(s) != s ==> MinorVersionAt(s, |Degrade(s)|)
  {
    var n := TrailingDigits(s);
    if MinorVersionAt(s, dot) {
      assert !Digit(s[dot]);
      assert |s| - n <= dot + 1;
      assert |s| - n - 1 >= dot;
    }
  }

  const DIGITS := "0123456789"

  // A minor version after a digit and a dot is dropped; after anything else the name is kept.
  lemma MinorIsDropped(head: string, minor: string)
    requires head != "" && minor != "" && forall c :: c in minor ==> c in DIGITS
    ensures Degrade(head + "." + minor) == if head[|head| - 1] in DIGITS then head else head + "." + minor
  {
    var s := head + "." + minor;
    DigitIff(head[|head| - 1]);
    assert s[|head|] == '.' && !Digit('.');
    forall i | |head| < i < |s| ensures Digit(s[i]) {
      assert s[i] == minor[i - |head| - 1] && s[i] in minor;
      DigitIff(s[i]);
    }
    assert s[..|head|] == head;
    if Digit(head[|head| - 1]) {
      DegradeCutsAt(s, |head|);
    } else {
      DegradeCutsAt(s, |Degrade(s)|);
      DegradesNowhereElse(s, |head|);
    }
  }

  lemma DegradesNowhereElse(s: string, dot: int)
    requires 0 < dot < |s| - 1 && s[dot] == '.' && !Digit(s[dot - 1]) && forall i :: dot < i < |s| ==> Digit(s[i])
    ensures Degrade(s) == s
  {
    forall d: int ensures !MinorVersionAt(s, d) {
      if dot < d < |s| { assert Digit(s[d]) && !Digit('.'); }
    }
    DegradeCutsAt(s, |Degrade(s)|);
  }

  lemma DigitIff(c: char)
    ensures Digit(c) <==> c in DIGITS
  {
    assert DIGITS[0] == '0' && DIGITS[1] == '1' && DIGITS[2] == '2' && DIGITS[3] == '3' && DIGITS[4] == '4';
    assert DIGITS[5] == '5' && DIGITS[6] == '6' && DIGITS[7] == '7' && DIGITS[8] == '8' && DIGITS[9] == '9';
    if Digit(c) { assert DIGITS[c as int - 48] == c; }
  }

  // ---------- prefixes at hyphens ----------

  function Count(s: string, c: char): nat {
    if s == "" then 0 else (if s[0] == c then 1 else 0) + Count(s[1..], c)
  }

  // The first i hyphen-separated parts.
  function PrefixOf(s: string, i: nat): string
    requires i <= |Split(s, '-')|
  {
    Join(Split(s, '-')[..i], '-')
  }

  // A position a prefix may end at.
  predicate Cut(s: string, c: int) {
    0 <= c <= |s| && (c == |s| || s[c] == '-')
  }

  function CutIndex(s: string, c: int): nat
    requires Cut(s, c)
  {
    1 + Count(s[..c], '-')
  }

  lemma {:induction false} PrefixAtCut(s: string, c: int)
    requires Cut(s, c)
    ensures CutIndex(s, c) <= |Split(s, '-')|
    ensures PrefixOf(s, CutIndex(s, c)) == s[..c]
  {
    hide Split, Join, Count;
    if c == 0 {
      FirstPartAtCut(s);
    } else {
      PrefixAtCut(s[1..], c - 1);
      if s[0] == '-' {
        AfterHyphen(s, c);
      } else {
        AfterPlain(s, c);
      }
    }
  }

  // A hyphen in front opens an empty first part ...
  lemma AfterHyphen(s: string, c: int)
    requires Cut(s, c) && c > 0 && s[0] == '-'
    requires CutIndex(s[1..], c - 1) <= |Split(s[1..], '-')|
    requires PrefixOf(s[1..], CutIndex(s[1..], c - 1)) == s[1..][..c - 1]
    ensures CutIndex(s, c) <= |Split(s, '-')| && PrefixOf(s, CutIndex(s, c)) == s[..c]
  {
    var rest, j := Split(s[1..], '-'), CutIndex(s[1..], c - 1);
    CountStep(s, c);
    assert Split(s, '-') == [""] + rest;
    hide Split, Count;
    assert ([""] + rest)[..j + 1] == [""] + rest[..j];
    assert ([""] + rest[..j])[1..] == rest[..j];
    assert s[..c] == ['-'] + s[1..][..c - 1];
  }

  // ... and any other character joins the first part.
  lemma AfterPlain(s: string, c: int)
    requires Cut(s, c) && c > 0 && s[0] != '-'
    requires CutIndex(s[1..], c - 1) <= |Split(s[1..], '-')|
    requires PrefixOf(s[1..], CutIndex(s[1..], c - 1)) == s[1..][..c - 1]
    ensures CutIndex(s, c) <= |Split(s, '-')| && PrefixOf(s, CutIndex(s, c)) == s[..c]
  {
    var rest, j := Split(s[1..], '-'), CutIndex(s[1..], c - 1);
    CountStep(s, c);
    var head := [s[0]] + rest[0];
    assert Split(s, '-') == [head] + rest[1..];
    hide Split, Count;
    assert ([head] + rest[1..])[..j] == [head] + rest[..j][1..];
    JoinConsChar(s[0], rest[..j]);
    assert s[..c] == [s[0]] + s[1..][..c - 1];
  }

  lemma CountStep(s: string, c: int)
    requires Cut(s, c) && c > 0
    ensures Cut(s[1..], c - 1)
    ensures CutIndex(s, c) == CutIndex(s[1..], c - 1) + if s[0] == '-' then 1 else 0
  {
    assert s[..c][0] == s[0] && s[..c][1..] == s[1..][..c - 1];
  }

  lemma FirstPartAtCut(s: string)
    requires Cut(s, 0)
    ensures CutIndex(s, 0) == 1 && PrefixOf(s, 1) == s[..0]
  {
    assert s[..0] == "";
    assert Split(s, '-')[..1] == [""];
  }

  lemma JoinConsChar(c: char, parts: seq<string>)
    requires parts != []
    ensures Join([[c] + parts[0]] + parts[1..], '-') == [c] + Join(parts, '-')
  {
    if |parts| > 1 {
      assert ([[c] + parts[0]] + parts[1..])[1..] == parts[1..];
    }
  }

  lemma {:induction false} CutFor(s: string, i: nat) returns (c: int)
    requires 1 <= i <= |Split(s, '-')|
    ensures Cut(s, c) && CutIndex(s, c) == i
  {
    if s == "" {
      c := 0;
    } else {
      var rest := Split(s[1..], '-');
      if s[0] == '-' && i == 1 {
        c := 0;
      } else {
        var d := CutFor(s[1..], if s[0] == '-' then i - 1 else i);
        c := d + 1;
        assert s[..c][1..] == s[1..][..d];
      }
    }
  }

  lemma {:induction false} CountGrows(s: string, c: int, d: int)
    requires 0 <= c < d <= |s| && s[c] == '-'
    ensures Count(s[..c], '-') < Count(s[..d], '-')
  {
    assert s[..d][1..] == s[1..][..d - 1];
    if c > 0 {
      assert s[..c][1..] == s[1..][..c - 1];
      CountGrows(s[1..], c - 1, d - 1);
    }
  }

  // A longer cut takes more parts.
  lemma LongerCut(s: string, c: int, d: int)
    requires Cut(s, c) && Cut(s, d)
    ensures c < d <==> CutIndex(s, c) < CutIndex(s, d)
  {
    if c < d { CountGrows(s, c, d); }
    if d < c { CountGrows(s, d, c); }
  }

  // ---------- the ladder ----------

  // A registry key, or an alias of one.
  function Hit(reg: Registry, candidate: string): Option<string> {
    if candidate in reg.energy then Some(candidate)
    else if candidate in reg.aliases && reg.aliases[candidate] in reg.energy then Some(reg.aliases[candidate])
    else None
  }

  function AliasHit(reg: Registry, form: string): Option<string> {
    if form in reg.aliases && reg.aliases[form] in reg.energy then Some(reg.aliases[form]) else None
  }

  function FirstExact(reg: Registry, forms: seq<string>): Option<string> {
    if forms == [] then None else if forms[0] in reg.energy then Some(forms[0]) else FirstExact(reg, forms[1..])
  }

  function FirstAlias(reg: Registry, forms: seq<string>): Option<string> {
    if forms == [] then None
    else if AliasHit(reg, forms[0]).Some? then AliasHit(reg, forms[0])
    else FirstAlias(reg, forms[1..])
  }

  // A prefix as it is, then without its minor version.
  function PrefixHit(reg: Registry, prefix: string): Option<string> {
    if Hit(reg, prefix).Some? then Hit(reg, prefix)
    else if Degrade(prefix) != prefix then Hit(reg, Degrade(prefix))
    else None
  }

  // The longest of the first i prefixes of a form that hits.
  function LongestHit(reg: Registry, form: string, i: nat): Option<string>
    requires i <= |Split(form, '-')|
  {
    if i == 0 then None
    else if PrefixHit(reg, PrefixOf(form, i)).Some? then PrefixHit(reg, PrefixOf(form, i))
    else LongestHit(reg, form, i - 1)
  }

  function FormHit(reg: Registry, form: string): Option<string> {
    LongestHit(reg, form, |Split(form, '-')|)
  }

  function FirstPrefix(reg: Registry, forms: seq<string>): Option<string> {
    if forms == [] then None
    else if FormHit(reg, forms[0]).Some? then FormHit(reg, forms[0])
    else FirstPrefix(reg, forms[1..])
  }

  function FamilyHit(reg: Registry, lower: string): Option<string> {
    var target := reg.family(lower);
    if target.Some? && target.value in reg.energy then target else None
  }

  function Resolve(reg: Registry, model: string): Match {
    var lower := Lower(model);
    var forms := Forms(lower);
    if FirstExact(reg, forms).Some? then Match(FirstExact(reg, forms).value, true, Exact)
    else if FirstAlias(reg, forms).Some? then Match(FirstAlias(reg, forms).value, true, Alias)
    else if FirstPrefix(reg, forms).Some? then Match(FirstPrefix(reg, forms).value, true, Prefix)
    else if FamilyHit(reg, lower).Some? then Match(FamilyHit(reg, lower).value, true, Family)
    else Match(model, false, Fallback)
  }

  method ResolveModelMatch(reg: Registry, model: string) returns (m: Match)
    ensures m == Resolve(reg, model)
  {
    var lower := Lower(model);
    var forms := [lower];
    if '/' in lower {
      var base := BaseName(lower);
      if base != "" && base !in forms {
        forms := forms + [base];
      }
    }
    assert forms == Forms(lower);
    hide Forms, BaseName, Lower, PrefixOf, Degrade;
    for f := 0 to |forms|
      invariant FirstExact(reg, forms) == FirstExact(reg, forms[f..])
    {
      if forms[f] in reg.energy {
        return Match(forms[f], true, Exact);
      }
    }
    for f := 0 to |forms|
      invariant FirstAlias(reg, forms) == FirstAlias(reg, forms[f..])
    {
      if forms[f] in reg.aliases {
        var resolved := reg.aliases[forms[f]];
        if resolved in reg.energy {
          return Match(resolved, true, Alias);
        }
      }
    }
    for f := 0 to |forms|
      invariant FirstPrefix(reg, forms) == FirstPrefix(reg, forms[f..])
    {
      var hit := LongestPrefix(reg, forms[f]);
      if hit.Some? {
        return Match(hit.value, true, Prefix);
      }
    }
    var target := reg.family(lower);
    if target.Some? && target.value in reg.energy {
      return Match(target.value, true, Family);
    }
    return Match(model, false, Fallback);
  }

  // The candidates of one prefix, in order.
  method FirstCandidate(reg: Registry, candidates: seq<string>) returns (hit: Option<string>)
    ensures hit.None? ==> forall c :: c in candidates ==> Hit(reg, c).None?
    ensures
      hit.Some? ==>
        exists k ::
          && 0 <= k < |candidates|
          && Hit(reg, candidates[k]) == hit
          && forall j :: 0 <= j < k ==> Hit(reg, candidates[j]).None?
  {
    for k := 0 to |candidates|
      invariant forall j :: 0 <= j < k ==> Hit(reg, candidates[j]).None?
    {
      if candidates[k] in reg.energy {
        return Some(candidates[k]);
      }
      if candidates[k] in reg.aliases {
        var resolved := reg.aliases[candidates[k]];
        if resolved in reg.energy {
          return Some(resolved);
        }
      }
    }
    return None;
  }

  // The prefixes of one form, from the whole name down.
  method LongestPrefix(reg: Registry, form: string) returns (hit: Option<string>)
    ensures hit == FormHit(reg, form)
  {
    hide Degrade, Split, Hit;
    var parts := Split(form, '-');
    var i := |parts|;
    while i > 0
      invariant 0 <= i <= |parts|
      invariant FormHit(reg, form) == LongestHit(reg, form, i)
    {
      var prefix := Join(parts[..i], '-');
      var candidates := [prefix];
      var degraded := Degrade(prefix);
      if degraded != prefix {
        candidates := candidates + [degraded];
      }
      var found := FirstCandidate(reg, candidates);
      assert candidates[0] == prefix;
      assert found == PrefixHit(reg, PrefixOf(form, i));
      if found.Some? {
        return found;
      }
      i := i - 1;
    }
    return None;
  }

  // ---------- what a candidate stands for ----------

  // Itself, when it is a key; otherwise the key it is an alias of.
  predicate StandsFor(reg: Registry, candidate: string, name: string) {
    && name in reg.energy
    && (name == candidate
        || (candidate !in reg.energy && candidate in reg.aliases && reg.aliases[candidate] == name))
  }

  lemma HitIff(reg: Registry, candidate: string, name: string)
    ensures Hit(reg, candidate) == Some(name) <==> StandsFor(reg, candidate, name)
  {
  }

  ghost predicate StandsForNothing(reg: Registry, candidate: string) {
    forall name :: !StandsFor(reg, candidate, name)
  }

  lemma NoHitIff(reg: Registry, candidate: string)
    ensures Hit(reg, candidate).None? <==> StandsForNothing(reg, candidate)
  {
    if Hit(reg, candidate).Some? { HitIff(reg, candidate, Hit(reg, candidate).value); }
    forall name ensures Hit(reg, candidate) == Some(name) <==> StandsFor(reg, candidate, name) { HitIff(reg, candidate, name); }
    hide StandsFor, Hit;
  }

  // ---------- each rung fires only when those before it fail for every form ----------

  lemma {:induction false} FirstExactIff(reg: Registry, forms: seq<string>)
    ensures FirstExact(reg, forms).Some? <==> exists f :: f in forms && f in reg.energy
    ensures FirstExact(reg, forms).Some? ==>
      FirstExact(reg, forms).value in forms && FirstExact(reg, forms).value in reg.energy
  {
    if forms != [] { FirstExactIff(reg, forms[1..]); }
  }

  lemma {:induction false} FirstAliasIff(reg: Registry, forms: seq<string>)
    ensures FirstAlias(reg, forms).Some? <==> exists f :: f in forms && AliasHit(reg, f).Some?
    ensures FirstAlias(reg, forms).Some? ==> FirstAlias(reg, forms).value in reg.energy
  {
    if forms != [] { FirstAliasIff(reg, forms[1..]); }
  }

  // Some hyphen prefix of the form, or its major version, is a registry key or an alias of one.
  ghost predicate ReachesByPrefix(reg: Registry, form: string) {
    exists c, name :: Cut(form, c) && (StandsFor(reg, form[..c], name) || StandsFor(reg, Degrade(form[..c]), name))
  }

  lemma ReachesIff(reg: Registry, form: string)
    ensures ReachesByPrefix(reg, form) <==> exists c :: Cut(form, c) && PrefixHit(reg, form[..c]).Some?
  {
    forall c | Cut(form, c)
      ensures PrefixHit(reg, form[..c]).Some? <==>
                exists name :: StandsFor(reg, form[..c], name) || StandsFor(reg, Degrade(form[..c]), name)
    {
      NoHitIff(reg, form[..c]);
      NoHitIff(reg, Degrade(form[..c]));
      hide StandsFor, Hit, Degrade;
    }
    hide StandsFor, PrefixHit, Degrade;
  }

  lemma {:induction false} LongestHitIff(reg: Registry, form: string, i: nat)
    requires i <= |Split(form, '-')|
    ensures LongestHit(reg, form, i).Some? <==>
              exists c :: Cut(form, c) && CutIndex(form, c) <= i && PrefixHit(reg, form[..c]).Some?
  {
    hide PrefixHit, PrefixOf;
    if i > 0 {
      LongestHitIff(reg, form, i - 1);
      var c := CutFor(form, i);
      PrefixAtCut(form, c);
      forall d | Cut(form, d) && CutIndex(form, d) == i ensures form[..d] == form[..c] {
        PrefixAtCut(form, d);
      }
    }
  }

  lemma FormHitIff(reg: Registry, form: string)
    ensures FormHit(reg, form).Some? <==> ReachesByPrefix(reg, form)
  {
    hide PrefixHit, LongestHit, StandsFor;
    ReachesIff(reg, form);
    LongestHitIff(reg, form, |Split(form, '-')|);
    forall c | Cut(form, c) ensures CutIndex(form, c) <= |Split(form, '-')| { PrefixAtCut(form, c); }
  }

  lemma {:induction false} FirstPrefixIff(reg: Registry, forms: seq<string>)
    ensures FirstPrefix(reg, forms).Some? <==> exists f :: f in forms && ReachesByPrefix(reg, f)
  {
    hide FormHit, ReachesByPrefix;
    if forms != [] {
      FirstPrefixIff(reg, forms[1..]);
      FormHitIff(reg, forms[0]);
    }
  }

  // The first rung that fires: a form that is a key, a form that is an alias of one, a form some
  // prefix of which reaches one, the representative of the family if it is one, nothing.
  lemma LadderOrder(reg: Registry, model: string)
    ensures
      var lower := Lower(model);
      var forms, p := Forms(lower), Resolve(reg, model).precision;
      var exact := exists f :: f in forms && f in reg.energy;
      var alias := exists f :: f in forms && f in reg.aliases && reg.aliases[f] in reg.energy;
      var prefix := exists f :: f in forms && ReachesByPrefix(reg, f);
      var family := exists name :: reg.family(lower) == Some(name) && name in reg.energy;
      && (p == Exact <==> exact)
      && (p == Alias <==> !exact && alias)
      && (p == Prefix <==> !exact && !alias && prefix)
      && (p == Family <==> !exact && !alias && !prefix && family)
      && (p == Fallback <==> !exact && !alias && !prefix && !family)
  {
    hide Forms, ReachesByPrefix, FirstPrefix, FirstAlias, FirstExact;
    var forms := Forms(Lower(model));
    FirstExactIff(reg, forms);
    FirstAliasIff(reg, forms);
    FirstPrefixIff(reg, forms);
  }

  // ---------- a prefix match is the first in its order ----------

  // Of one form: the cut, and whether the minor version was dropped, that name was found by.
  ghost predicate FoundAt(reg: Registry, form: string, c: int, degraded: bool, name: string) {
    && Cut(form, c)
    && (if degraded then
          Degrade(form[..c]) != form[..c] && StandsFor(reg, Degrade(form[..c]), name) && StandsForNothing(reg, form[..c])
        else StandsFor(reg, form[..c], name))
    && forall d :: c < d && Cut(form, d) ==>
         StandsForNothing(reg, form[..d]) && StandsForNothing(reg, Degrade(form[..d]))
  }

  lemma FoundAtHit(reg: Registry, form: string, c: int, degraded: bool, name: string)
    requires Cut(form, c)
    requires PrefixHit(reg, form[..c]) == Some(name) && degraded == Hit(reg, form[..c]).None?
    requires forall d :: c < d && Cut(form, d) ==> PrefixHit(reg, form[..d]).None?
    ensures FoundAt(reg, form, c, degraded, name)
  {
    forall d | c < d && Cut(form, d)
      ensures StandsForNothing(reg, form[..d]) && StandsForNothing(reg, Degrade(form[..d]))
    {
      NoHitIff(reg, form[..d]);
      NoHitIff(reg, Degrade(form[..d]));
    }
    HitIff(reg, form[..c], name);
    HitIff(reg, Degrade(form[..c]), name);
    NoHitIff(reg, form[..c]);
    hide StandsFor, StandsForNothing, Hit, Degrade;
  }

  lemma {:induction false} LongestHitFound(reg: Registry, form: string, i: nat) returns (c: int, degraded: bool)
    requires i <= |Split(form, '-')| && LongestHit(reg, form, i).Some?
    requires forall d :: Cut(form, d) && CutIndex(form, d) > i ==> PrefixHit(reg, form[..d]).None?
    ensures FoundAt(reg, form, c, degraded, LongestHit(reg, form, i).value)
  {
    hide PrefixOf, Degrade, FoundAt;
    c := CutFor(form, i);
    PrefixAtCut(form, c);
    if PrefixHit(reg, form[..c]).Some? {
      degraded := Hit(reg, form[..c]).None?;
      forall d | c < d && Cut(form, d) ensures PrefixHit(reg, form[..d]).None? { LongerCut(form, c, d); }
      FoundAtHit(reg, form, c, degraded, LongestHit(reg, form, i).value);
    } else {
      forall d | Cut(form, d) && CutIndex(form, d) > i - 1 ensures PrefixHit(reg, form[..d]).None? {
        if CutIndex(form, d) == i { PrefixAtCut(form, d); }
      }
      c, degraded := LongestHitFound(reg, form, i - 1);
    }
  }

  lemma {:induction false} FirstPrefixFound(reg: Registry, forms: seq<string>) returns (f: nat, c: int, degraded: bool)
    requires FirstPrefix(reg, forms).Some?
    ensures f < |forms| && FoundAt(reg, forms[f], c, degraded, FirstPrefix(reg, forms).value)
    ensures forall g :: 0 <= g < f ==> !ReachesByPrefix(reg, forms[g])
  {
    hide FoundAt, ReachesByPrefix;
    FormHitIff(reg, forms[0]);
    if FormHit(reg, forms[0]).Some? {
      f := 0;
      forall d | Cut(forms[0], d) ensures CutIndex(forms[0], d) <= |Split(forms[0], '-')| { PrefixAtCut(forms[0], d); }
      c, degraded := LongestHitFound(reg, forms[0], |Split(forms[0], '-')|);
    } else {
      f, c, degraded := FirstPrefixFound(reg, forms[1..]);
      f := f + 1;
      forall g | 0 <= g < f ensures !ReachesByPrefix(reg, forms[g]) {
        if g > 0 { assert forms[1..][g - 1] == forms[g]; }
      }
    }
  }

  // The name of a prefix match is found in one form at one cut; no earlier form reaches
  // anything, no longer cut of this form does, with or without its minor version, and the
  // undegraded prefix comes before the degraded one.
  lemma PrefixMatchIsFirst(reg: Registry, model: string)
    requires Resolve(reg, model).precision == Prefix
    ensures
      var forms := Forms(Lower(model));
      exists f: nat, c: int, degraded: bool ::
        && f < |forms|
        && FoundAt(reg, forms[f], c, degraded, Resolve(reg, model).name)
        && forall g :: 0 <= g < f ==> !ReachesByPrefix(reg, forms[g])
  {
    hide FoundAt, ReachesByPrefix, Forms;
    var f, c, degraded := FirstPrefixFound(reg, Forms(Lower(model)));
  }

  // ---------- known names ----------

  lemma {:induction false} LongestHitIsKey(reg: Registry, form: string, i: nat)
    requires i <= |Split(form, '-')|
    ensures LongestHit(reg, form, i).Some? ==> LongestHit(reg, form, i).value in reg.energy
  {
    if i > 0 { LongestHitIsKey(reg, form, i - 1); }
  }

  lemma {:induction false} FirstPrefixIsKey(reg: Registry, forms: seq<string>)
    ensures FirstPrefix(reg, forms).Some? ==> FirstPrefix(reg, forms).value in reg.energy
  {
    hide LongestHit;
    if forms != [] {
      LongestHitIsKey(reg, forms[0], |Split(forms[0], '-')|);
      FirstPrefixIsKey(reg, forms[1..]);
    }
  }

  lemma {:induction false} FirstExactFound(reg: Registry, forms: seq<string>) returns (f: nat)
    requires FirstExact(reg, forms).Some?
    ensures f < |forms| && FirstExact(reg, forms) == Some(forms[f])
    ensures forall g :: 0 <= g < f ==> forms[g] !in reg.energy
  {
    if forms[0] in reg.energy {
      f := 0;
    } else {
      f := FirstExactFound(reg, forms[1..]);
      f := f + 1;
      assert forall g :: 0 < g < f ==> forms[g] == forms[1..][g - 1];
    }
  }

  lemma {:induction false} FirstAliasFound(reg: Registry, forms: seq<string>) returns (f: nat)
    requires FirstAlias(reg, forms).Some?
    ensures f < |forms| && FirstAlias(reg, forms) == AliasHit(reg, forms[f])
    ensures forall g :: 0 <= g < f ==> AliasHit(reg, forms[g]).None?
  {
    hide AliasHit;
    if AliasHit(reg, forms[0]).Some? {
      f := 0;
    } else {
      f := FirstAliasFound(reg, forms[1..]);
      f := f + 1;
      assert forall g :: 0 < g < f ==> forms[g] == forms[1..][g - 1];
    }
  }

  // What an exact, alias or family match names: the first form that is a key, what the first
  // aliased form stands for, the representative of the family.
  lemma NameOfMatch(reg: Registry, model: string)
    ensures
      var lower := Lower(model);
      var forms, m := Forms(lower), Resolve(reg, model);
      && (m.precision == Exact ==>
            exists f :: 0 <= f < |forms| && forms[f] == m.name && forall g :: 0 <= g < f ==> forms[g] !in reg.energy)
      && (m.precision == Alias ==>
            exists f ::
              && 0 <= f < |forms|
              && forms[f] in reg.aliases && reg.aliases[forms[f]] == m.name
              && forall g :: 0 <= g < f ==> AliasHit(reg, forms[g]).None?)
      && (m.precision == Family ==> reg.family(lower) == Some(m.name))
  {
    hide Forms, FirstPrefix;
    var forms, m := Forms(Lower(model)), Resolve(reg, model);
    if m.precision == Exact { var f := FirstExactFound(reg, forms); }
    if m.precision == Alias { var f := FirstAliasFound(reg, forms); }
  }

  // A known name is a registry key; an unknown one is given back as it came.
  lemma KnownIsRegistryKey(reg: Registry, model: string)
    ensures
      var m := Resolve(reg, model);
      && (m.known <==> m.precision != Fallback)
      && (m.known ==> m.name in reg.energy)
      && (!m.known ==> m.name == model)
  {
    hide Forms;
    var forms := Forms(Lower(model));
    FirstExactIff(reg, forms);
    FirstAliasIff(reg, forms);
    FirstPrefixIsKey(reg, forms);
  }

  // A name with an organisation in front is found under its base name, exactly, when it is not a
  // key as a whole; behind a trailing slash there is no base name to find.
  lemma BaseNameIsFound(reg: Registry, model: string, org: string, base: string)
    requires Lower(model) == org + "/" + base && '/' !in base && Lower(model) !in reg.energy
    ensures base != "" && base in reg.energy ==> Resolve(reg, model) == Match(base, true, Exact)
    ensures base == "" || base !in reg.energy ==> Resolve(reg, model).precision != Exact
  {
    var lower := Lower(model);
    BaseNameAfter(org, base);
    assert lower[|org|] == '/' && '/' in lower;
    assert base != lower by { assert |base| < |lower|; }
    hide Lower, BaseName, FirstAlias, FirstPrefix;
    if base != "" {
      assert Forms(lower) == [lower, base];
      assert [lower, base][1..] == [base] && [base][1..] == [];
      assert FirstExact(reg, [base]) == if base in reg.energy then Some(base) else None;
    } else {
      assert Forms(lower) == [lower] && [lower][1..] == [];
      assert FirstExact(reg, [lower]) == None;
    }
  }

  lemma {:induction false} BaseNameAfter(org: string, base: string)
    requires '/' !in base
    ensures BaseName(org + "/" + base) == base
  {
    var s := org + "/" + base;
    assert s[|org|] == '/';
    if org == "" {
      assert s[1..] == base;
    } else {
      assert s[1..] == org[1..] + "/" + base;
      BaseNameAfter(org[1..], base);
    }
  }

  // With lower-case keys, resolving a known result again finds the same name, as an exact match.
  lemma ResolveIsIdempotent(reg: Registry, model: string)
    requires forall k :: k in reg.energy ==> Lower(k) == k
    requires Resolve(reg, model).known
    ensures
      var name := Resolve(reg, model).name;
      Resolve(reg, name) == Match(name, true, Exact)
  {
    hide Forms, FirstPrefix, FirstAlias;
    KnownIsRegistryKey(reg, model);
  }

  // Letter case never decides a match.
  lemma CaseIsIgnored(reg: Registry, model: string)
    ensures
      var m, n := Resolve(reg, model), Resolve(reg, Lower(model));
      && n.precision == m.precision
      && n.known == m.known
      && (m.known ==> n.name == m.name)
  {
    hide Forms, FirstPrefix, FirstAlias, FirstExact;
    LowerIdempotent(model);
  }
}
