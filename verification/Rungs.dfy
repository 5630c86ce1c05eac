/**
 Rungs of the model lattice: which coefficient terms a nested model fits, the
 interchange string that names the rung, and the order the fitter prefers rungs in.
 Follows src/vetch/calibrate_v2.py.
 */
module Rungs {
  import opened Wrappers
  import opened Text

  // An axis ("wh_per_1k_output", ...) and its regression label ("output", ...) are in
  // one-to-one correspondence, so one type stands for both.
  datatype Term = Output | Intercept | Input | Image

  // Every model in the lattice fits the output slope.
  type Rung = r: set<Term> | Output in r witness {Output}

  function Label(t: Term): string {
    match t
    case Output => "output"
    case Intercept => "intercept"
    case Input => "input"
    case Image => "image"
  }

  function AxisName(t: Term): string {
    match t
    case Output => "wh_per_1k_output"
    case Intercept => "intercept_wh"
    case Input => "wh_per_1k_input"
    case Image => "wh_per_image"
  }

  // ---------- names ----------

  const OUTPUT_ONLY := "output_only"

  // The terms of r in the order the names spell them.
  function OrderedTerms(r: set<Term>): (ts: seq<Term>)
    ensures forall t :: t in ts <==> t == Output || t in r
    ensures ts != []
  {
    var intercept := if Intercept in r then [Intercept] else [];
    var input := if Input in r then [Input] else [];
    var image := if Image in r then [Image] else [];
    var ts := [Output] + intercept + input + image;
    assert forall t :: t in ts <==> t == Output || t in intercept || t in input || t in image;
    ts
  }

  function Labels(ts: seq<Term>): (ls: seq<string>)
    ensures |ls| == |ts|
    ensures forall i :: 0 <= i < |ts| ==> ls[i] == Label(ts[i])
  {
    seq(|ts|, i requires 0 <= i < |ts| => Label(ts[i]))
  }

  function RungName(r: set<Term>): string {
    if r == {Output} then OUTPUT_ONLY else Join(Labels(OrderedTerms(r)), '_')
  }

  function TermOf(word: string): Option<Term> {
    if word == "output" then Some(Output)
    else if word == "intercept" then Some(Intercept)
    else if word == "input" then Some(Input)
    else if word == "image" then Some(Image)
    else None
  }

  function TermSet(labels: seq<string>): (r: set<Term>)
    ensures forall t :: t in r <==> exists l :: l in labels && TermOf(l) == Some(t)
  {
    if labels == [] then {}
    else
      var rest := TermSet(labels[1..]);
      var r := match TermOf(labels[0]) case Some(t) => {t} + rest case None => rest;
      assert forall l :: l in labels <==> l == labels[0] || l in labels[1..];
      r
  }

  // terms_for_rung: the empty set stands for a name that denotes no rung.
  function TermsForRung(name: Option<string>): set<Term> {
    if name.None? || name.value == "" then {}
    else if name.value == OUTPUT_ONLY then {Output}
    else
      var labels := Split(name.value, '_');
      if "output" !in labels || exists l :: l in labels && TermOf(l).None? then {}
      else TermSet(labels)
  }

  lemma LabelInverse(t: Term)
    ensures TermOf(Label(t)) == Some(t) && '_' !in Label(t) && Label(t) != ""
  {
  }

  // A written rung name always reads back as exactly the terms it was written for.
  lemma RungNameRoundTrip(r: Rung)
    ensures TermsForRung(Some(RungName(r))) == r
  {
    if r != {Output} {
      var ts := OrderedTerms(r);
      var ls := Labels(ts);
      LabelsOfRung(r);
      assert ls[0] == "output";
      SplitJoin(ls, '_');
      JoinTwoParts(ls);
      OutputOnlySplits();
      NotOutputOnly(r);
      hide Split, Join, OrderedTerms, Label;
    }
  }

  // The labels of a rung denote exactly its terms.
  lemma LabelsOfRung(r: Rung)
    ensures
      var ls := Labels(OrderedTerms(r));
      && (forall l :: l in ls ==> '_' !in l && TermOf(l).Some? && TermOf(l).value in r)
      && TermSet(ls) == r
  {
    hide TermOf, Label;
    var ts := OrderedTerms(r);
    var ls := Labels(ts);
    forall l | l in ls ensures '_' !in l && TermOf(l).Some? && TermOf(l).value in r {
      var i :| 0 <= i < |ls| && ls[i] == l;
      LabelInverse(ts[i]);
      assert ts[i] in ts;
    }
    forall t | t in r ensures exists l :: l in ls && TermOf(l) == Some(t) {
      var i :| 0 <= i < |ts| && ts[i] == t;
      LabelInverse(t);
      assert ls[i] in ls;
    }
  }

  // Only the output rung is written as "output_only".
  lemma NotOutputOnly(r: Rung)
    ensures Join(Labels(OrderedTerms(r)), '_') != OUTPUT_ONLY
  {
    LabelsOfRung(r);
    var ls, spelled := Labels(OrderedTerms(r)), ["output", "only"];
    SplitJoin(ls, '_');
    OutputOnlySplits();
    assert spelled[1] in spelled && TermOf(spelled[1]).None?;
    assert ls != spelled;
  }

  lemma OutputOnlySplits()
    ensures Split(OUTPUT_ONLY, '_') == ["output", "only"] && OUTPUT_ONLY != ""
  {
    hide Split;
    assert OUTPUT_ONLY == "output" + ['_'] + "only";
    SplitFirst("output", "only", '_');
    SplitPlain("only", '_');
  }

  lemma JoinTwoParts(ls: seq<string>)
    requires ls != [] && ls[0] == "output"
    ensures Join(ls, '_') != ""
  {
  }

  lemma RungNameInjective(r: Rung, q: Rung)
    requires RungName(r) == RungName(q)
    ensures r == q
  {
    RungNameRoundTrip(r);
    RungNameRoundTrip(q);
  }

  // The names the interchange format spells.
  lemma SpelledNames()
    ensures RungName({Output}) == "output_only"
    ensures RungName({Output, Intercept}) == "output_intercept"
    ensures RungName({Output, Input}) == "output_input"
    ensures RungName({Output, Image}) == "output_image"
    ensures RungName({Output, Intercept, Input, Image}) == "output_intercept_input_image"
  {
    hide Join, Labels, OrderedTerms;
    SpelledPair(Intercept);
    SpelledPair(Input);
    SpelledPair(Image);
    SpelledFull();
    assert Image !in {Output} && Image in {Output, Intercept, Input, Image};
  }

  lemma SpelledPair(t: Term)
    requires t != Output
    ensures RungName({Output, t}) == "output" + "_" + Label(t)
  {
    assert OrderedTerms({Output, t}) == [Output, t];
    assert Labels([Output, t]) == ["output", Label(t)];
    JoinTwo("output", Label(t));
    assert t !in {Output};
    hide Join, Label, OrderedTerms, Labels;
  }

  lemma SpelledFull()
    ensures RungName({Output, Intercept, Input, Image}) == "output_intercept_input_image"
  {
    FullOrder();
    var all: set<Term> := {Output, Intercept, Input, Image};
    assert Image in all && all != {Output};
    hide OrderedTerms, Labels;
    JoinMore("output", ["intercept"] + ["input", "image"]);
    JoinMore("intercept", ["input", "image"]);
    JoinTwo("input", "image");
    hide Join;
  }

  lemma FullOrder()
    ensures
      Labels(OrderedTerms({Output, Intercept, Input, Image})) == ["output"] + (["intercept"] + ["input", "image"])
  {
    var ts := OrderedTerms({Output, Intercept, Input, Image});
    assert ts == [Output, Intercept, Input, Image];
    hide OrderedTerms;
    var ls := Labels(ts);
    assert ls[0] == "output" && ls[1] == "intercept" && ls[2] == "input" && ls[3] == "image";
  }

  lemma JoinMore(a: string, rest: seq<string>)
    requires rest != []
    ensures Join([a] + rest, '_') == a + "_" + Join(rest, '_')
  {
    assert ([a] + rest)[1..] == rest;
  }

  lemma JoinTwo(a: string, b: string)
    ensures Join([a, b], '_') == a + "_" + b
  {
    assert [a, b][1..] == [b];
  }

  // Any list of words spells a rung exactly when it has "output" and only labels, in whatever
  // order and however often; the one exception is the name of the smallest rung.
  lemma NameDenotes(words: seq<string>, t: Term)
    requires words != [] && forall w :: w in words ==> '_' !in w
    requires words != ["output", "only"]
    ensures
      t in TermsForRung(Some(Join(words, '_'))) <==>
        && "output" in words
        && Label(t) in words
        && forall w :: w in words ==> w in ["output", "intercept", "input", "image"]
  {
    SplitJoin(words, '_');
    OutputOnlySplits();
    WordsAreLabels(words, t);
    hide Join, Split, TermOf, Label, OUTPUT_ONLY, TermSet;
  }

  lemma WordsAreLabels(words: seq<string>, t: Term)
    ensures t in TermSet(words) <==> Label(t) in words
    ensures forall w :: TermOf(w).Some? <==> w in ["output", "intercept", "input", "image"]
  {
    LabelInverse(t);
    forall w ensures TermOf(w) == Some(t) <==> w == Label(t) {}
  }

  // A name that denotes anything at all denotes a model containing the output slope.
  lemma TermsForRungIsRung(name: Option<string>)
    ensures TermsForRung(name) == {} || Output in TermsForRung(name)
  {
    assert TermOf("output") == Some(Output);
  }

  // ---------- the preference order ----------

  // Python's < on strings, code point by code point.
  predicate LexLess(a: string, b: string) {
    b != "" && (a == "" || a[0] < b[0] || (a[0] == b[0] && LexLess(a[1..], b[1..])))
  }

  lemma {:induction false} LexIrreflexive(a: string)
    ensures !LexLess(a, a)
  {
    if a != "" { LexIrreflexive(a[1..]); }
  }

  lemma {:induction false} LexTrichotomy(a: string, b: string)
    ensures LexLess(a, b) || LexLess(b, a) || a == b
    ensures !(LexLess(a, b) && LexLess(b, a))
  {
    if a != "" && b != "" {
      LexTrichotomy(a[1..], b[1..]);
      assert a == [a[0]] + a[1..] && b == [b[0]] + b[1..];
    }
  }

  lemma {:induction false} LexTransitive(a: string, b: string, c: string)
    requires LexLess(a, b) && LexLess(b, c)
    ensures LexLess(a, c)
  {
    if a != "" && a[0] == b[0] && b[0] == c[0] {
      LexTransitive(a[1..], b[1..], c[1..]);
    }
  }

  // One string precedes another when it is a proper prefix of it, or has the smaller character
  // where they first differ.
  lemma {:induction false} LexLessIff(a: string, b: string)
    ensures
      LexLess(a, b) <==>
        exists k ::
          && 0 <= k <= |a| && k < |b| && a[..k] == b[..k]
          && (k == |a| || a[k] < b[k])
  {
    if a == "" || b == "" || a[0] != b[0] {
      assert a[..0] == b[..0];
      assert forall k :: 0 < k <= |a| && k <= |b| ==> a[..k][0] == a[0] && b[..k][0] == b[0];
    } else {
      LexLessIff(a[1..], b[1..]);
      if k :| 0 <= k <= |a[1..]| && k < |b[1..]| && a[1..][..k] == b[1..][..k] && (k == |a[1..]| || a[1..][k] < b[1..][k]) {
        assert a[..k + 1] == [a[0]] + a[1..][..k] && b[..k + 1] == [b[0]] + b[1..][..k];
      }
      if k :| 0 <= k <= |a| && k < |b| && a[..k] == b[..k] && (k == |a| || a[k] < b[k]) {
        assert a[1..][..k - 1] == a[..k][1..] && b[1..][..k - 1] == b[..k][1..];
      }
    }
  }

  // key=lambda n: (len(labels), n): q is preferred to r.
  predicate Before(r: Rung, q: Rung) {
    |r| < |q| || (|r| == |q| && LexLess(RungName(r), RungName(q)))
  }

  lemma BeforeTotal(r: Rung, q: Rung)
    ensures Before(r, q) || Before(q, r) || r == q
    ensures !(Before(r, q) && Before(q, r))
    ensures !Before(r, r)
  {
    LexTrichotomy(RungName(r), RungName(q));
    LexIrreflexive(RungName(r));
    if RungName(r) == RungName(q) { RungNameInjective(r, q); }
  }

  lemma BeforeTransitive(r: Rung, q: Rung, s: Rung)
    requires Before(r, q) && Before(q, s)
    ensures Before(r, s)
  {
    if |r| == |q| && |q| == |s| { LexTransitive(RungName(r), RungName(q), RungName(s)); }
  }

  // max(candidates, key=...)
  function MaxRung(c: seq<Rung>): (m: Rung)
    requires c != []
    ensures m in c
    ensures forall r :: r in c ==> r == m || Before(r, m)
  {
    if |c| == 1 then c[0]
    else
      var m := MaxRung(c[1..]);
      var best := if Before(m, c[0]) then c[0] else m;
      assert forall r :: r in c ==> r == best || Before(r, best) by {
        BeforeTotal(m, c[0]);
        forall r | r in c ensures r == best || Before(r, best) {
          if r != c[0] && r != m && best != m {
            assert r in c[1..];
            BeforeTransitive(r, m, c[0]);
          }
        }
      }
      best
  }

  // sorted(rungs, key=..., reverse=True)
  function SortedRungs(c: seq<Rung>): (s: seq<Rung>)
    ensures |s| == |c|
    ensures forall r :: r in s <==> r in c
    ensures forall i, j :: 0 <= i < j < |s| ==> s[i] == s[j] || Before(s[j], s[i])
  {
    if c == [] then []
    else
      var rest := SortedRungs(c[1..]);
      assert forall r :: r in c <==> r == c[0] || r in c[1..];
      InsertRung(c[0], rest)
  }

  function InsertRung(r: Rung, s: seq<Rung>): (t: seq<Rung>)
    requires forall i, j :: 0 <= i < j < |s| ==> s[i] == s[j] || Before(s[j], s[i])
    ensures |t| == |s| + 1
    ensures forall q :: q in t <==> q == r || q in s
    ensures forall i, j :: 0 <= i < j < |t| ==> t[i] == t[j] || Before(t[j], t[i])
  {
    if s == [] then [r]
    else if s[0] == r || Before(s[0], r) then
      assert forall j :: 0 <= j < |s| ==> s[j] == r || Before(s[j], r) by {
        forall j | 0 <= j < |s| ensures s[j] == r || Before(s[j], r) {
          if 0 < j && s[j] != s[0] && s[0] != r { BeforeTransitive(s[j], s[0], r); }
        }
      }
      [r] + s
    else
      BeforeTotal(r, s[0]);
      var rest := InsertRung(r, s[1..]);
      assert forall q :: q in s <==> q == s[0] || q in s[1..];
      assert forall q :: q in rest ==> q == s[0] || Before(q, s[0]) by {
        forall q | q in rest ensures q == s[0] || Before(q, s[0]) {
          if q != r { assert q in s[1..]; }
        }
      }
      [s[0]] + rest
  }

  // ---------- the lattice ----------

  // The optional terms in mask order; the image term exists only when some row has an image.
  function Optional(hasImage: bool): seq<Term> {
    [Intercept, Input] + if hasImage then [Image] else []
  }

  // rungs_spec: bit i of the mask selects optional[i].
  function Lattice(optional: seq<Term>): (rs: seq<Rung>)
    ensures forall r: Rung :: r in rs <==> forall t :: t in r ==> t == Output || t in optional
  {
    if optional == [] then
      var base: Rung := {Output};
      assert forall r: Rung :: r in [base] <==> forall t :: t in r ==> t == Output || t in optional by {
        forall r: Rung ensures r in [base] <==> forall t :: t in r ==> t == Output || t in optional {
          if forall t :: t in r ==> t == Output || t in optional { assert r == base; }
        }
      }
      [base]
    else
      var n := |optional| - 1;
      var lower := Lattice(optional[..n]);
      var upper := WithTerm(lower, optional[n]);
      assert forall r: Rung :: r in lower + upper <==> forall t :: t in r ==> t == Output || t in optional by {
        LatticeStep(lower, upper, optional);
      }
      lower + upper
  }

  function WithTerm(rs: seq<Rung>, t: Term): (out: seq<Rung>)
    ensures |out| == |rs|
    ensures forall i :: 0 <= i < |rs| ==> out[i] == rs[i] + {t}
  {
    seq(|rs|, i requires 0 <= i < |rs| => rs[i] + {t})
  }

  lemma LatticeStep(lower: seq<Rung>, upper: seq<Rung>, optional: seq<Term>)
    requires optional != []
    requires forall r: Rung ::
      r in lower <==> forall t :: t in r ==> t == Output || t in optional[..|optional| - 1]
    requires |upper| == |lower|
    requires forall i :: 0 <= i < |lower| ==> upper[i] == lower[i] + {optional[|optional| - 1]}
    ensures forall r: Rung :: r in lower + upper <==> forall t :: t in r ==> t == Output || t in optional
  {
    var n := |optional| - 1;
    var last := optional[n];
    assert forall t :: t in optional <==> t in optional[..n] || t == last;
    forall r: Rung
      ensures r in lower + upper <==> forall t :: t in r ==> t == Output || t in optional
    {
      if r in upper {
        var i :| 0 <= i < |upper| && upper[i] == r;
        assert lower[i] in lower;
      }
      if (forall t :: t in r ==> t == Output || t in optional) && last in r && last != Output {
        var base: Rung := r - {last};
        assert base in lower;
        var i :| 0 <= i < |lower| && lower[i] == base;
        assert upper[i] == r;
        assert r in upper;
      }
    }
  }
}
