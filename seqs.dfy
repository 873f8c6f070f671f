/** Facts about sequences used by every part of the model: distinctness, the inverse
    index of a sequence, string concatenation and joining, and the running
    "seen a flag" scan. */
module Seqs {

  predicate Distinct<T(==)>(s: seq<T>)
  {
    forall i, j :: 0 <= i < j < |s| ==> s[i] != s[j]
  }

  function Elems<T>(s: seq<T>): set<T>
  {
    set x | x in s
  }

  lemma DistinctCons<T>(x: T, t: seq<T>)
    requires Distinct(t) && x !in t
    ensures Distinct([x] + t)
  {
    forall i, j | 0 <= i < j < |[x] + t| ensures ([x] + t)[i] != ([x] + t)[j] {
      if i > 0 {
        assert ([x] + t)[i] == t[i - 1];
      }
      assert ([x] + t)[j] == t[j - 1];
    }
  }

  lemma DistinctSnoc<T>(s: seq<T>, x: T)
    requires Distinct(s) && x !in s
    ensures Distinct(s + [x])
  {
    forall i, j | 0 <= i < j < |s + [x]| ensures (s + [x])[i] != (s + [x])[j] {
      assert (s + [x])[i] == s[i];
    }
  }

  lemma ElemsCons<T>(x: T, t: seq<T>)
    ensures Elems([x] + t) == {x} + Elems(t)
  {
    assert forall y :: y in [x] + t <==> y == x || y in t;
  }

  /** A sequence without repetitions has as many elements as its set. */
  lemma {:induction false} DistinctCard<T>(s: seq<T>)
    requires Distinct(s)
    ensures |Elems(s)| == |s|
  {
    if s != [] {
      var t := s[..|s| - 1];
      assert Distinct(t);
      DistinctCard(t);
      assert Elems(s) == Elems(t) + {s[|s| - 1]};
      assert s[|s| - 1] !in Elems(t);
    }
  }

  /** A repetition-free sequence drawn from a set is no longer than the set. */
  lemma DistinctWithin<T>(s: seq<T>, bound: set<T>)
    requires Distinct(s) && Elems(s) <= bound
    ensures |s| <= |bound|
  {
    DistinctCard(s);
    SubsetCard(Elems(s), bound);
  }

  lemma {:induction false} SubsetCard<T>(a: set<T>, b: set<T>)
    requires a <= b
    ensures |a| <= |b|
  {
    if a != {} {
      var x :| x in a;
      SubsetCard(a - {x}, b - {x});
    }
  }

  /** `{s: i for i, s in enumerate(seq)}`: the position of each element. On a sequence
      without repetitions it is the exact inverse of indexing. */
  function IndexMap<T(==)>(s: seq<T>): (m: map<T, nat>)
    requires Distinct(s)
    ensures m.Keys == Elems(s)
    ensures forall i :: 0 <= i < |s| ==> m[s[i]] == i
    ensures forall x :: x in m ==> m[x] < |s| && s[m[x]] == x
  {
    if s == [] then map[]
    else
      var init := s[..|s| - 1];
      assert Distinct(init);
      assert Elems(s) == Elems(init) + {s[|s| - 1]};
      IndexMap(init)[s[|s| - 1] := |s| - 1]
  }

  /** The inverse index of a prefix agrees with the inverse index of the whole. */
  lemma IndexMapPrefix<T>(s: seq<T>, k: nat)
    requires Distinct(s) && k <= |s|
    ensures Distinct(s[..k])
    ensures forall x :: x in IndexMap(s[..k]) ==> x in IndexMap(s) && IndexMap(s[..k])[x] == IndexMap(s)[x]
    ensures forall x :: x in IndexMap(s) && IndexMap(s)[x] < k ==> x in IndexMap(s[..k])
  {
    assert Distinct(s[..k]);
    var m, mk := IndexMap(s), IndexMap(s[..k]);
    forall x | x in mk
      ensures x in m && mk[x] == m[x]
    {
      var i := mk[x];
      assert s[..k][i] == x;
    }
    forall x | x in m && m[x] < k
      ensures x in mk
    {
      assert s[..k][m[x]] == x;
    }
  }

  /** `functools.reduce(operator.add, parts)`: left-to-right string concatenation, as
      numpy's `sum` over an object array of strings performs it. */
  function Concat(parts: seq<string>): string
  {
    if parts == [] then "" else Concat(parts[..|parts| - 1]) + parts[|parts| - 1]
  }

  /** `" ".join(words)`. */
  function Join(words: seq<string>): string
  {
    if |words| == 0 then ""
    else if |words| == 1 then words[0]
    else Join(words[..|words| - 1]) + " " + words[|words| - 1]
  }

  /** The position of the first true flag, or the length when there is none. */
  function FirstTrue(flags: seq<bool>): (f: nat)
    ensures f <= |flags|
    ensures forall j :: 0 <= j < f ==> !flags[j]
    ensures f < |flags| ==> flags[f]
  {
    if flags == [] then 0
    else if flags[0] then 0
    else 1 + FirstTrue(flags[1..])
  }

  /** `flags.cumsum() != 0` on a one-dimensional boolean array: the running "some
      flag so far" value at every position. */
  function CumAny(flags: seq<bool>): (r: seq<bool>)
    ensures |r| == |flags|
  {
    if flags == [] then []
    else
      var c := CumAny(flags[..|flags| - 1]);
      c + [flags[|flags| - 1] || (|c| > 0 && c[|c| - 1])]
  }

  /** The running flag is set exactly from the first flagged position onwards. */
  lemma {:induction false} CumAnyFirstTrue(flags: seq<bool>)
    ensures forall i :: 0 <= i < |flags| ==> (CumAny(flags)[i] <==> i >= FirstTrue(flags))
  {
    if flags != [] {
      var n := |flags|;
      var init := flags[..n - 1];
      CumAnyFirstTrue(init);
      FirstTrueSnoc(init, flags[n - 1]);
      assert flags == init + [flags[n - 1]];
    }
  }

  lemma {:induction false} FirstTrueSnoc(init: seq<bool>, b: bool)
    ensures FirstTrue(init + [b]) == if FirstTrue(init) < |init| then FirstTrue(init) else if b then |init| else |init| + 1
  {
    if init != [] {
      assert (init + [b])[1..] == init[1..] + [b];
      FirstTrueSnoc(init[1..], b);
    }
  }

  /** The running flag at position i holds iff some flag at or before i is set. */
  lemma FirstTrueSeen(flags: seq<bool>, i: nat)
    requires i < |flags|
    ensures i >= FirstTrue(flags) <==> exists j :: 0 <= j <= i && flags[j]
  {
    if i >= FirstTrue(flags) {
      assert flags[FirstTrue(flags)];
    }
  }

  /** The running flag at position i holds iff some flag at or before i is set. */
  lemma CumAnySeen(flags: seq<bool>, i: nat)
    requires i < |flags|
    ensures CumAny(flags)[i] <==> exists j :: 0 <= j <= i && flags[j]
  {
    CumAnyFirstTrue(flags);
    FirstTrueSeen(flags, i);
  }

  /** Exchanging two entries of a sequence without repetitions exchanges their
      positions in the inverse index and leaves every other position alone. */
  lemma IndexMapSwap<T>(s: seq<T>, i: nat, j: nat)
    requires Distinct(s) && i < |s| && j < |s|
    ensures Distinct(s[i := s[j]][j := s[i]])
    ensures IndexMap(s[i := s[j]][j := s[i]]) == IndexMap(s)[s[i] := j][s[j] := i]
  {
    var t := s[i := s[j]][j := s[i]];
    SwapFacts(s, i, j);
    var ix := IndexMap(s);
    var m: map<T, int> := ix[s[i] := j][s[j] := i];
    assert m.Keys == Elems(t) by {
      assert s[i] in ix && s[j] in ix;
    }
    forall k | 0 <= k < |t|
      ensures m[t[k]] == k
    {
      if k != i && k != j {
        assert t[k] == s[k] && s[k] != s[i] && s[k] != s[j];
      }
    }
    IndexMapUnique(t, m);
  }

  /** A map that sends each element of a repetition-free sequence to its position,
      and has no other keys, is the sequence's inverse index. */
  lemma IndexMapUnique<T>(t: seq<T>, m: map<T, int>)
    requires Distinct(t) && m.Keys == Elems(t)
    requires forall k :: 0 <= k < |t| ==> m[t[k]] == k
    ensures m == IndexMap(t)
  {
    var n: map<T, int> := IndexMap(t);
    forall x | x in n
      ensures n[x] == m[x]
    {
      assert t[n[x]] == x;
    }
    MapsAgree(m, n);
  }

  lemma MapsAgree<K, V>(m: map<K, V>, n: map<K, V>)
    requires m.Keys == n.Keys
    requires forall x :: x in n ==> n[x] == m[x]
    ensures m == n
  {
  }

  lemma SwapFacts<T>(s: seq<T>, i: nat, j: nat)
    requires Distinct(s) && i < |s| && j < |s|
    ensures Distinct(s[i := s[j]][j := s[i]])
    ensures Elems(s[i := s[j]][j := s[i]]) == Elems(s)
  {
    var t := s[i := s[j]][j := s[i]];
    assert forall k :: 0 <= k < |s| ==> t[k] == if k == j then s[i] else if k == i then s[j] else s[k];
    forall x | x in s
      ensures x in t
    {
      var k :| 0 <= k < |s| && s[k] == x;
      if k == i {
        assert t[j] == x;
      } else if k == j {
        assert t[i] == x;
      } else {
        assert t[k] == x;
      }
    }
    assert forall x :: x in t ==> x in s;
  }

  /** Exchanging two entries inside a prefix keeps the prefix's elements. */
  lemma SwapPrefixElems<T>(s: seq<T>, i: nat, j: nat, k: nat)
    requires Distinct(s) && i < k && j < k && k <= |s|
    ensures Elems(s[i := s[j]][j := s[i]][..k]) == Elems(s[..k])
  {
    assert Distinct(s[..k]);
    assert s[i := s[j]][j := s[i]][..k] == s[..k][i := s[j]][j := s[i]];
    SwapFacts(s[..k], i, j);
  }

  /** `s[::-1]`. */
  function Reversed<T>(s: seq<T>): (r: seq<T>)
    ensures |r| == |s|
  {
    seq(|s|, k requires 0 <= k < |s| => s[|s| - 1 - k])
  }

  /** Reversal is a permutation and keeps a sequence free of repetitions. */
  lemma ReversedPerm<T>(s: seq<T>)
    ensures multiset(Reversed(s)) == multiset(s)
    ensures Elems(Reversed(s)) == Elems(s)
    ensures Distinct(s) ==> Distinct(Reversed(s))
  {
    ReversedMultiset(s);
    MultisetElems(Reversed(s), s);
    if Distinct(s) {
      ReversedDistinct(s);
    }
  }

  lemma {:induction false} ReversedMultiset<T>(s: seq<T>)
    ensures multiset(Reversed(s)) == multiset(s)
  {
    if s != [] {
      var n := |s|;
      var init := s[..n - 1];
      ReversedMultiset(init);
      assert Reversed(s) == [s[n - 1]] + Reversed(init);
      assert s == init + [s[n - 1]];
    }
  }

  lemma MultisetElems<T>(a: seq<T>, b: seq<T>)
    requires multiset(a) == multiset(b)
    ensures Elems(a) == Elems(b)
  {
    assert forall x :: x in a <==> x in multiset(a);
    assert forall x :: x in b <==> x in multiset(b);
  }

  lemma ReversedDistinct<T>(s: seq<T>)
    requires Distinct(s)
    ensures Distinct(Reversed(s))
  {
    var r := Reversed(s);
    forall i, j | 0 <= i < j < |r|
      ensures r[i] != r[j]
    {
      assert r[i] == s[|s| - 1 - i] && r[j] == s[|s| - 1 - j];
    }
  }

  lemma SwapMultiset<T>(s: seq<T>, i: nat, j: nat)
    requires i < |s| && j < |s|
    ensures multiset(s[i := s[j]][j := s[i]]) == multiset(s)
  {
  }
}
