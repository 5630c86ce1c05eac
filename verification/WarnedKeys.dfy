/**
 The bounded set of warning keys, kept in recency order.
 Follows _warned_once and _add_warned_key in src/vetch/budget.py.
 */
module WarnedKeys {

  const MAX_WARNED_KEYS := 1000

  function Without<K(==,!new)>(s: seq<K>, k: K): (r: seq<K>)
    ensures k !in r && |r| <= |s|
    ensures forall x :: x in r <==> x in s && x != k
  {
    if s == [] then []
    else
      assert forall x :: x in s <==> x == s[0] || x in s[1..];
      if s[0] == k then Without(s[1..], k) else [s[0]] + Without(s[1..], k)
  }

  // Popping from the oldest end until the limit holds.
  function Evict<K(!new)>(s: seq<K>, limit: nat): seq<K> {
    if |s| > limit then s[|s| - limit..] else s
  }

  // _add_warned_key: the new set, oldest first.
  function AddWarned<K(==,!new)>(s: seq<K>, k: K, limit: nat): seq<K> {
    if k in s then Without(s, k) + [k] else Evict(s + [k], limit)
  }

  method AddWarnedKey<K(==,!new)>(s: seq<K>, k: K, limit: nat) returns (t: seq<K>, isNew: bool)
    ensures t == AddWarned(s, k, limit)
    ensures isNew <==> k !in s
  {
    if k in s {
      return Without(s, k) + [k], false;
    }
    t := s + [k];
    while |t| > limit
      invariant t == (s + [k])[|s| + 1 - |t|..]
      invariant |t| <= |s| + 1 && (|t| < limit ==> |t| == |s| + 1)
    {
      t := t[1..];
    }
    isNew := true;
  }

  // ---------- the reference ----------

  // Every key ever added, once each, ordered by last use.
  function Recency<K(==,!new)>(history: seq<K>): (r: seq<K>)
    ensures forall x :: x in r <==> x in history
  {
    if history == [] then []
    else
      var n := |history| - 1;
      assert forall x :: x in history <==> x in history[..n] || x == history[n];
      Without(Recency(history[..n]), history[n]) + [history[n]]
  }

  // The set after a run of additions.
  function KeptAfter<K(==,!new)>(history: seq<K>, limit: nat): seq<K> {
    if history == [] then []
    else AddWarned(KeptAfter(history[..|history| - 1], limit), history[|history| - 1], limit)
  }

  ghost predicate Distinct<K(!new)>(s: seq<K>) {
    forall i, j :: 0 <= i < j < |s| ==> s[i] != s[j]
  }

  lemma {:induction false} WithoutDistinct<K(!new)>(s: seq<K>, k: K)
    requires Distinct(s)
    ensures Distinct(Without(s, k))
    ensures |Without(s, k)| == |s| - if k in s then 1 else 0
  {
    if s != [] {
      WithoutDistinct(s[1..], k);
      assert forall x :: x in s <==> x == s[0] || x in s[1..];
      assert s[0] !in s[1..] by { forall j | 0 <= j < |s[1..]| ensures s[1..][j] != s[0] { assert s[1..][j] == s[j + 1]; } }
    }
  }

  lemma {:induction false} RecencyDistinct<K(!new)>(history: seq<K>)
    ensures Distinct(Recency(history))
  {
    if history != [] {
      var n := |history| - 1;
      RecencyDistinct(history[..n]);
      WithoutDistinct(Recency(history[..n]), history[n]);
    }
  }

  // Removing a key leaves the parts around it in place.
  lemma {:induction false} WithoutConcat<K(!new)>(a: seq<K>, b: seq<K>, k: K)
    ensures Without(a + b, k) == Without(a, k) + Without(b, k)
  {
    if a == [] {
      assert a + b == b;
    } else {
      WithoutConcat(a[1..], b, k);
      assert (a + b)[1..] == a[1..] + b && (a + b)[0] == a[0];
      var rest := Without(a[1..], k);
      assert [a[0]] + (rest + Without(b, k)) == ([a[0]] + rest) + Without(b, k);
    }
  }

  lemma {:induction false} WithoutAbsent<K(!new)>(a: seq<K>, k: K)
    requires k !in a
    ensures Without(a, k) == a
  {
    if a != [] {
      assert a[0] in a && forall x :: x in a[1..] ==> x in a;
      WithoutAbsent(a[1..], k);
    }
  }

  lemma KnownKey<K(!new)>(dropped: seq<K>, s: seq<K>, k: K, limit: nat)
    requires Distinct(dropped + s) && k in s && |s| <= limit && (dropped != [] ==> |s| == limit)
    ensures Evict(Without(dropped + s, k) + [k], limit) == Without(s, k) + [k]
  {
    hide Without, Evict;
    WithoutConcat(dropped, s, k);
    KeptOnce(dropped, s, k);
    WithoutAbsent(dropped, k);
    var r := dropped + s;
    assert r[|r| - |s|..] == s;
    WithoutSize(s, k, r);
    var t := Without(s, k) + [k];
    assert Without(r, k) + [k] == dropped + t;
    EvictPrefix(dropped, t, limit);
  }

  lemma EvictPrefix<K(!new)>(dropped: seq<K>, t: seq<K>, limit: nat)
    requires |t| <= limit && (dropped != [] ==> |t| == limit)
    ensures Evict(dropped + t, limit) == t
  {
    if dropped == [] { assert dropped + t == t; }
  }

  lemma UnknownKey<K(!new)>(dropped: seq<K>, s: seq<K>, k: K, limit: nat)
    requires k !in s && |s| <= limit && (dropped != [] ==> |s| == limit)
    ensures Evict(Without(dropped + s, k) + [k], limit) == Evict(s + [k], limit)
  {
    hide Without, Evict;
    WithoutConcat(dropped, s, k);
    WithoutAbsent(s, k);
    assert Without(dropped + s, k) + [k] == Without(dropped, k) + (s + [k]);
    NewKey(dropped, Without(dropped, k), s, k, limit);
  }

  // Adding a key to the kept part of a recency list gives the kept part of the new list.
  lemma AddCommutesWithEvict<K(!new)>(r: seq<K>, k: K, limit: nat)
    requires limit >= 1 && Distinct(r)
    ensures AddWarned(Evict(r, limit), k, limit) == Evict(Without(r, k) + [k], limit)
  {
    hide Without;
    var s := Evict(r, limit);
    var dropped := r[..|r| - |s|];
    assert r == dropped + s;
    if k in s {
      KnownKey(dropped, s, k, limit);
    } else {
      UnknownKey(dropped, s, k, limit);
    }
  }

  lemma NewKey<K(!new)>(dropped: seq<K>, rest: seq<K>, s: seq<K>, k: K, limit: nat)
    requires |s| <= limit && |rest| <= |dropped| && (dropped != [] ==> |s| == limit)
    ensures Evict(s + [k], limit) == Evict(rest + (s + [k]), limit)
  {
    if rest != [] {
      assert (rest + (s + [k]))[|rest| + 1..] == (s + [k])[1..];
    } else {
      assert rest + (s + [k]) == s + [k];
    }
  }

  /**
   Over every run of additions the bounded set is exactly the most recently used keys, in
   order of last use, as many as the limit allows.
   */
  lemma {:induction false} KeptIsMostRecent<K(!new)>(history: seq<K>, limit: nat)
    requires limit >= 1
    ensures KeptAfter(history, limit) == Evict(Recency(history), limit)
  {
    if history != [] {
      hide AddWarned, Evict, Without;
      var n := |history| - 1;
      KeptIsMostRecent(history[..n], limit);
      RecencyDistinct(history[..n]);
      AddCommutesWithEvict(Recency(history[..n]), history[n], limit);
    } else {
      assert Recency(history) == [];
    }
  }

  lemma KeptOnce<K(!new)>(a: seq<K>, b: seq<K>, k: K)
    requires Distinct(a + b) && k in b
    ensures k !in a
  {
    var j :| 0 <= j < |b| && b[j] == k;
    assert (a + b)[|a| + j] == k;
    forall i | 0 <= i < |a| ensures a[i] != k { assert (a + b)[i] == a[i]; }
  }

  lemma WithoutSize<K(!new)>(s: seq<K>, k: K, r: seq<K>)
    requires Distinct(r) && k in s && |s| <= |r| && s == r[|r| - |s|..]
    ensures |Without(s, k) + [k]| == |s|
  {
    forall i, j | 0 <= i < j < |s| ensures s[i] != s[j] { assert s[i] == r[|r| - |s| + i] && s[j] == r[|r| - |s| + j]; }
    WithoutDistinct(s, k);
  }

  // Hence it is duplicate-free, never above its limit, and ends with the last key used.
  lemma KeptInvariant<K(!new)>(history: seq<K>, limit: nat)
    requires limit >= 1
    ensures Distinct(KeptAfter(history, limit)) && |KeptAfter(history, limit)| <= limit
    ensures history != [] ==> KeptAfter(history, limit) != [] && KeptAfter(history, limit)[|KeptAfter(history, limit)| - 1] == history[|history| - 1]
  {
    KeptIsMostRecent(history, limit);
    RecencyDistinct(history);
  }

  // The monitor's set holds every key used, up to a thousand.
  lemma ThousandAreKept<K(!new)>(history: seq<K>)
    ensures
      var used := |Recency(history)|;
      |KeptAfter(history, MAX_WARNED_KEYS)| == if used <= 1000 then used else 1000
  {
    KeptIsMostRecent(history, MAX_WARNED_KEYS);
  }

  // When a key was last used.
  function LastUse<K(==,!new)>(history: seq<K>, k: K): (i: nat)
    requires k in history
    ensures i < |history| && history[i] == k && k !in history[i + 1..]
  {
    var n := |history| - 1;
    if history[n] == k then n
    else
      assert history == history[..n] + [history[n]];
      LastUse(history[..n], k)
  }

  ghost predicate OrderedByUse<K(!new)>(s: seq<K>, history: seq<K>)
    requires forall k :: k in s ==> k in history
  {
    forall i, j :: 0 <= i < j < |s| ==> LastUse(history, s[i]) < LastUse(history, s[j])
  }

  // What is kept are the last keys of the list in order of last use: each kept key was used later
  // than those before it, and than every key that is gone.
  lemma KeptByLastUse<K(!new)>(history: seq<K>, limit: nat)
    requires limit >= 1
    ensures
      var kept := KeptAfter(history, limit);
      && (forall k :: k in kept ==> k in history)
      && OrderedByUse(kept, history)
      && (forall k, i :: k in history && k !in kept && 0 <= i < |kept| ==> LastUse(history, k) < LastUse(history, kept[i]))
      && ((exists k :: k in history && k !in kept) ==> |kept| == limit)
  {
    hide KeptAfter, LastUse, Recency;
    KeptIsMostRecent(history, limit);
    RecencyByLastUse(history);
    var r, kept := Recency(history), KeptAfter(history, limit);
    EvictIsSuffix(r, limit);
    hide Evict;
    var dropped := r[..|r| - |kept|];
    assert r == dropped + kept;
    SuffixByUse(dropped, kept, history);
  }

  lemma SuffixByUse<K(!new)>(dropped: seq<K>, kept: seq<K>, history: seq<K>)
    requires forall k :: k in dropped + kept <==> k in history
    requires OrderedByUse(dropped + kept, history)
    ensures forall k :: k in kept ==> k in history
    ensures OrderedByUse(kept, history)
    ensures forall k, i :: k in history && k !in kept && 0 <= i < |kept| ==> LastUse(history, k) < LastUse(history, kept[i])
    ensures (exists k :: k in history && k !in kept) ==> dropped != []
  {
    hide LastUse;
    var r, n := dropped + kept, |dropped|;
    forall i, j | 0 <= i < j < |kept| ensures LastUse(history, kept[i]) < LastUse(history, kept[j]) {
      assert r[n + i] == kept[i] && r[n + j] == kept[j];
    }
    forall k, i | k in history && k !in kept && 0 <= i < |kept| ensures LastUse(history, k) < LastUse(history, kept[i]) {
      assert k in r;
      var d :| 0 <= d < n && dropped[d] == k;
      assert r[d] == k && r[n + i] == kept[i];
    }
  }

  lemma EvictIsSuffix<K(!new)>(s: seq<K>, limit: nat)
    ensures var t := Evict(s, limit);
      |t| <= |s| && t == s[|s| - |t|..] && (|t| < |s| ==> |t| == limit)
  {
  }

  lemma {:induction false} RecencyByLastUse<K(!new)>(history: seq<K>)
    ensures OrderedByUse(Recency(history), history)
  {
    if history != [] {
      var n := |history| - 1;
      var before, r := Recency(history[..n]), Recency(history);
      RecencyByLastUse(history[..n]);
      assert history == history[..n] + [history[n]];
      forall k | k in history[..n] && k != history[n] ensures LastUse(history, k) == LastUse(history[..n], k) {}
      var rest := Without(before, history[n]);
      forall i, j | 0 <= i < j < |r| ensures LastUse(history, r[i]) < LastUse(history, r[j]) {
        assert r[i] == rest[i] && rest[i] in rest && rest[i] in history[..n];
        if j < |rest| {
          assert r[j] == rest[j] && rest[j] in rest && rest[j] in history[..n];
          var a, b := WithoutKeepsOrder(before, history[n], i, j);
          assert LastUse(history[..n], before[a]) < LastUse(history[..n], before[b]);
        } else {
          assert r[j] == history[n] && LastUse(history, history[n]) == n;
        }
      }
    }
  }

  lemma {:induction false} WithoutKeepsOrder<K(!new)>(s: seq<K>, k: K, i: nat, j: nat) returns (a: nat, b: nat)
    requires i < j < |Without(s, k)|
    ensures a < b < |s| && s[a] == Without(s, k)[i] && s[b] == Without(s, k)[j]
  {
    var rest := Without(s[1..], k);
    if s[0] == k {
      a, b := WithoutKeepsOrder(s[1..], k, i, j);
      a, b := a + 1, b + 1;
    } else if i > 0 {
      a, b := WithoutKeepsOrder(s[1..], k, i - 1, j - 1);
      a, b := a + 1, b + 1;
    } else {
      assert rest[j - 1] in rest && rest[j - 1] in s[1..];
      var at :| 0 <= at < |s[1..]| && s[1..][at] == rest[j - 1];
      a, b := 0, at + 1;
    }
  }
}
