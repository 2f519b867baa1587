/**
  The JavaScript Array primitives the dashboard relies on (`findIndex`, `find`,
  `some`, `filter`), each with the contract the language guarantees, plus a few
  counting facts about sequences, sets and maps used by the selection invariant.
*/
module JsArray {
  import opened Options

  /** `s.findIndex(pred)`: the first index whose element satisfies `pred`, or -1. */
  function FindIndex<T>(s: seq<T>, pred: T -> bool): (k: int)
    ensures -1 <= k < |s|
    ensures k == -1 <==> forall i :: 0 <= i < |s| ==> !pred(s[i])
    ensures k >= 0 ==> pred(s[k]) && forall j :: 0 <= j < k ==> !pred(s[j])
  {
    if s == [] then -1
    else if pred(s[0]) then 0
    else
      var k := FindIndex(s[1..], pred);
      if k == -1 then -1 else k + 1
  }

  /** `s.find(pred)`: the first element satisfying `pred`, or undefined. */
  function Find<T>(s: seq<T>, pred: T -> bool): (r: Option<T>)
    ensures r.None? <==> forall i :: 0 <= i < |s| ==> !pred(s[i])
    ensures r.Some? ==> exists k :: 0 <= k < |s| && s[k] == r.value && pred(s[k]) &&
                                    forall j :: 0 <= j < k ==> !pred(s[j])
  {
    var k := FindIndex(s, pred);
    if k == -1 then None else Some(s[k])
  }

  /** `find` on a sequence with a known head either stops at the head or searches the rest. */
  lemma FindCons<T>(a: T, t: seq<T>, pred: T -> bool)
    ensures Find([a] + t, pred) == if pred(a) then Some(a) else Find(t, pred)
  {
    assert ([a] + t)[0] == a;
    assert ([a] + t)[1..] == t;
  }

  /** `s.some(pred)`. */
  function Any<T>(s: seq<T>, pred: T -> bool): (r: bool)
    ensures r <==> exists i :: 0 <= i < |s| && pred(s[i])
  {
    if s == [] then false
    else pred(s[0]) || Any(s[1..], pred)
  }

  /** `r` is `s` with some entries dropped: the rest keep their order. */
  ghost predicate IsSubsequence<T>(r: seq<T>, s: seq<T>)
    decreases |s|
  {
    if r == [] then true
    else if s == [] then false
    else (r[0] == s[0] && IsSubsequence(r[1..], s[1..])) || IsSubsequence(r, s[1..])
  }

  /** `s.filter(pred)`: the elements satisfying `pred`, in their original order. */
  function Filter<T>(s: seq<T>, pred: T -> bool): (r: seq<T>)
    ensures |r| <= |s|
    ensures IsSubsequence(r, s)
    ensures forall i :: 0 <= i < |r| ==> r[i] in s && pred(r[i])
    ensures forall i :: 0 <= i < |s| && pred(s[i]) ==> s[i] in r
  {
    if s == [] then []
    else
      var rest := Filter(s[1..], pred);
      if pred(s[0]) then
        assert ([s[0]] + rest)[1..] == rest;
        [s[0]] + rest
      else
        rest
  }

  /**
    `filter` keeps every matching element as often as it occurs and drops every
    other one; with `IsSubsequence` this fixes the result entirely.
  */
  lemma {:induction false} FilterMultiplicity<T>(s: seq<T>, pred: T -> bool)
    ensures forall x :: multiset(Filter(s, pred))[x] == if pred(x) then multiset(s)[x] else 0
  {
    if s != [] {
      FilterMultiplicity(s[1..], pred);
      assert s == [s[0]] + s[1..];
      var rest := Filter(s[1..], pred);
      if pred(s[0]) {
        assert Filter(s, pred) == [s[0]] + rest;
      } else {
        assert Filter(s, pred) == rest;
      }
    }
  }

  /** Filtering distributes over concatenation, so `Filter` keeps relative order. */
  lemma {:induction false} FilterAppend<T>(s: seq<T>, t: seq<T>, pred: T -> bool)
    ensures Filter(s + t, pred) == Filter(s, pred) + Filter(t, pred)
  {
    if s == [] {
      assert s + t == t;
    } else {
      assert (s + t)[1..] == s[1..] + t;
      FilterAppend(s[1..], t, pred);
    }
  }

  /** No element occurs twice. */
  predicate NoDuplicates<T(==)>(s: seq<T>) {
    forall i, j :: 0 <= i < j < |s| ==> s[i] != s[j]
  }

  /** A duplicate-free sequence has as many distinct elements as it has entries. */
  lemma {:induction false} DistinctCard<T>(s: seq<T>)
    requires NoDuplicates(s)
    ensures |set x | x in s| == |s|
  {
    if s != [] {
      var init := s[..|s| - 1];
      DistinctCard(init);
      assert (set x | x in s) == (set x | x in init) + {s[|s| - 1]};
      assert s[|s| - 1] !in (set x | x in init);
    }
  }

  /** A subset is no larger than its superset. */
  lemma {:induction false} SubsetCard<T>(a: set<T>, b: set<T>)
    requires a <= b
    ensures |a| <= |b|
    decreases a
  {
    if a != {} {
      var x :| x in a;
      SubsetCard(a - {x}, b - {x});
    }
  }

  /** A map has no more distinct values than keys. */
  lemma {:induction false} ValuesCard<K, V>(m: map<K, V>)
    ensures |m.Values| <= |m.Keys|
    decreases m.Keys
  {
    if m.Keys != {} {
      var k :| k in m.Keys;
      var rest := m - {k};
      ValuesCard(rest);
      forall v | v in m.Values ensures v in rest.Values + {m[k]} {
        var k' :| k' in m && m[k'] == v;
        if k' != k { assert rest[k'] == v; }
      }
      SubsetCard(m.Values, rest.Values + {m[k]});
      assert m.Keys == rest.Keys + {k};
    }
  }
}
