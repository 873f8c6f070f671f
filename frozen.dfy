/** What both Numericalization variants share: the rank index a vocabulary is frozen
    into (`cts`, `i2s`, `s2i`), and the arithmetic `strip` uses to pick how many ranks
    to keep. */
module Frozen {
  import opened Counts
  import opened Seqs
  import opened Ranking

  /** Counts from the highest rank down, as `cts` holds them. */
  predicate NonIncreasing(cts: seq<Count>)
  {
    forall i, j :: 0 <= i < j < |cts| ==> Ge(cts[i], cts[j])
  }

  predicate NonDecreasing(a: seq<Count>)
  {
    forall i, j :: 0 <= i < j < |a| ==> Ge(a[j], a[i])
  }

  /** The count of each listed word: `unordered_cts[idxs_desc]`. */
  function CountsOf(ws: seq<Word>, counts: map<Word, Count>): (r: seq<Count>)
    requires Counted(ws, counts)
    ensures |r| == |ws|
  {
    seq(|ws|, k requires 0 <= k < |ws| => counts[ws[k]])
  }

  /** The frozen index: `cts[k]` is the count of `i2s[k]`, `s2i` inverts `i2s`, the
      counts fall from rank 0 on, and the reserved words (specials and unk, the only
      infinite counts) hold ranks 0 to |reserved| - 1. */
  ghost predicate Indexed(cts: seq<Count>, i2s: seq<Word>, s2i: map<Word, nat>, reserved: set<Word>)
  {
    && |cts| == |i2s|
    && Distinct(i2s)
    && s2i == IndexMap(i2s)
    && NonIncreasing(cts)
    && |reserved| <= |i2s|
    && Elems(i2s[..|reserved|]) == reserved
    && (forall k :: 0 <= k < |cts| ==> (cts[k] == Inf <==> k < |reserved|))
  }

  /** Sorting a vocabulary by count, highest first, puts exactly its infinite-count
      words in front: the ranking `Numericalization.__init__` builds is an index. */
  lemma FreezeRanking(keys: seq<Word>, counts: map<Word, Count>, reserved: set<Word>)
    requires Distinct(keys) && Elems(keys) == counts.Keys
    requires reserved <= counts.Keys
    requires forall w :: w in counts ==> (counts[w] == Inf <==> w in reserved)
    ensures Counted(keys, counts)
    ensures var r := SortDesc(keys, counts);
      && multiset(r) == multiset(keys)
      && Distinct(r)
      && Indexed(CountsOf(r, counts), r, IndexMap(r), reserved)
  {
    assert Counted(keys, counts) by {
      forall i | 0 <= i < |keys| ensures keys[i] in counts {
        assert keys[i] in Elems(keys);
      }
    }
    var r := SortDesc(keys, counts);
    SortDescRanked(keys, counts);
    RankedDistinct(keys, counts, r);
    RankedNonIncreasing(keys, counts, r);
    assert Elems(r) == counts.Keys by {
      forall w ensures w in Elems(r) <==> w in Elems(keys) {
        assert w in r <==> w in multiset(r);
        assert w in keys <==> w in multiset(keys);
      }
    }
    var f := InfBlock(keys, counts, r);
    InfBlockWords(counts, r, reserved, f);
  }

  /** `unordered_strs[np.argsort(unordered_cts)[::-1]]`: counts descending. A stable
      ascending sort followed by the reversal puts, among equal counts, the later
      inserted word first, which is the stable descending sort of the reversed key
      order. */
  function FreezeOrder(keys: seq<Word>, counts: map<Word, Count>): (r: seq<Word>)
    requires Elems(keys) <= counts.Keys
    ensures multiset(r) == multiset(keys) && Elems(r) == Elems(keys)
    ensures Counted(r, counts)
    ensures Distinct(keys) ==> Distinct(r)
  {
    var rev := Reversed(keys);
    ReversedPerm(keys);
    assert Counted(rev, counts) by {
      forall i | 0 <= i < |rev| ensures rev[i] in counts {
        assert rev[i] in Elems(rev);
      }
    }
    var r := SortDesc(rev, counts);
    MultisetElems(r, keys);
    if Distinct(keys) then
      SortDescRanked(rev, counts);
      RankedDistinct(rev, counts, r);
      r
    else r
  }

  /** The freeze order lists words by count descending and, among equal counts, in
      the reverse of their insertion order. */
  lemma FreezeOrderRanked(keys: seq<Word>, counts: map<Word, Count>)
    requires Distinct(keys) && Elems(keys) <= counts.Keys
    ensures Ranked(Reversed(keys), counts, FreezeOrder(keys, counts))
  {
    ReversedPerm(keys);
    assert Counted(Reversed(keys), counts) by {
      forall i | 0 <= i < |keys| ensures Reversed(keys)[i] in counts {
        assert Reversed(keys)[i] in Elems(Reversed(keys));
      }
    }
    SortDescRanked(Reversed(keys), counts);
  }

  /** The first steps of both `__init__`s: the vocabulary's words sorted by count,
      highest first (`i2s`), their counts (`cts`) and the inverse dictionary (`s2i`). */
  method Freeze(keys: seq<Word>, counts: map<Word, Count>, reserved: set<Word>)
    returns (i2s: seq<Word>, cts: seq<Count>, s2i: map<Word, nat>)
    requires Distinct(keys) && Elems(keys) == counts.Keys
    requires forall w :: w in reserved ==> w in counts && counts[w] == Inf
    requires forall w :: w in counts && counts[w] == Inf ==> w in reserved
    ensures i2s == FreezeOrder(keys, counts)
    ensures Indexed(cts, i2s, s2i, reserved)
    ensures multiset(i2s) == multiset(keys)
    ensures forall k :: 0 <= k < |i2s| ==> i2s[k] in counts && cts[k] == counts[i2s[k]]
  {
    ReversedPerm(keys);
    FreezeRanking(Reversed(keys), counts, reserved);
    i2s := FreezeOrder(keys, counts);
    s2i := IndexMap(i2s);
    cts := CountsOf(i2s, counts);
  }

  lemma RankedNonIncreasing(keys: seq<Word>, counts: map<Word, Count>, r: seq<Word>)
    requires Ranked(keys, counts, r) && Counted(r, counts)
    ensures NonIncreasing(CountsOf(r, counts))
  {
    var cts := CountsOf(r, counts);
    forall i, j | 0 <= i < j < |cts|
      ensures Ge(cts[i], cts[j])
    {
      BeforeAsym(keys, counts, r[i], r[j]);
    }
  }

  /** In a ranked list the infinite counts form a prefix. */
  lemma InfBlock(keys: seq<Word>, counts: map<Word, Count>, r: seq<Word>) returns (f: nat)
    requires Ranked(keys, counts, r) && Counted(r, counts)
    ensures f <= |r|
    ensures forall k :: 0 <= k < |r| ==> (counts[r[k]] == Inf <==> k < f)
  {
    var fin := seq(|r|, k requires 0 <= k < |r| => counts[r[k]] != Inf);
    f := FirstTrue(fin);
    forall k | 0 <= k < |r|
      ensures counts[r[k]] == Inf <==> k < f
    {
      if k < f {
        assert !fin[k];
      } else if counts[r[k]] == Inf {
        RankedInfPrefix(keys, counts, r, k);
        assert false;
      }
    }
  }

  /** An infinite-count prefix of a list of distinct words that holds every
      infinite-count word has exactly as many entries as there are such words. */
  lemma InfBlockWords(counts: map<Word, Count>, r: seq<Word>, reserved: set<Word>, f: nat)
    requires Distinct(r) && Elems(r) == counts.Keys && Counted(r, counts)
    requires reserved <= counts.Keys
    requires forall w :: w in counts ==> (counts[w] == Inf <==> w in reserved)
    requires f <= |r| && forall k :: 0 <= k < |r| ==> (counts[r[k]] == Inf <==> k < f)
    requires NonIncreasing(CountsOf(r, counts))
    ensures Indexed(CountsOf(r, counts), r, IndexMap(r), reserved)
  {
    var cts := CountsOf(r, counts);
    InfPrefixReserved(counts, r, reserved, f);
    forall k | 0 <= k < |cts|
      ensures cts[k] == Inf <==> k < |reserved|
    {
      assert cts[k] == counts[r[k]];
    }
  }

  /** The infinite-count prefix holds exactly the reserved words, one each. */
  lemma InfPrefixReserved(counts: map<Word, Count>, r: seq<Word>, reserved: set<Word>, f: nat)
    requires Distinct(r) && Elems(r) == counts.Keys && Counted(r, counts)
    requires reserved <= counts.Keys
    requires forall w :: w in counts ==> (counts[w] == Inf <==> w in reserved)
    requires f <= |r| && forall k :: 0 <= k < |r| ==> (counts[r[k]] == Inf <==> k < f)
    ensures Elems(r[..f]) == reserved && f == |reserved|
  {
    assert Elems(r[..f]) == reserved by {
      forall w | w in reserved
        ensures w in Elems(r[..f])
      {
        assert w in Elems(r);
        var k :| 0 <= k < |r| && r[k] == w;
        assert r[..f][k] == w;
      }
      forall w | w in Elems(r[..f])
        ensures w in reserved
      {
        var k :| 0 <= k < f && r[..f][k] == w;
      }
    }
    assert Distinct(r[..f]);
    DistinctCard(r[..f]);
  }

  /** `c < x` between a count and an integer threshold; inf is never below. */
  predicate Under(c: Count, x: int)
  {
    c.Fin? && c.n < x
  }

  /** `bisect.bisect_left(a, x)` on an ascending sequence: the number of entries
      below x, found by halving the search range. */
  method BisectLeft(a: seq<Count>, x: int) returns (lo: nat)
    requires NonDecreasing(a)
    ensures lo <= |a|
    ensures forall k :: 0 <= k < lo ==> Under(a[k], x)
    ensures forall k :: lo <= k < |a| ==> !Under(a[k], x)
  {
    lo := 0;
    var hi := |a|;
    while lo < hi
      invariant 0 <= lo <= hi <= |a|
      invariant forall k :: 0 <= k < lo ==> Under(a[k], x)
      invariant forall k :: hi <= k < |a| ==> !Under(a[k], x)
      decreases hi - lo
    {
      var mid := (lo + hi) / 2;
      if Under(a[mid], x) {
        lo := mid + 1;
      } else {
        hi := mid;
      }
    }
  }

  /** The number of counts that are at least m. */
  function CountAtLeast(cts: seq<Count>, m: int): (n: nat)
    ensures n <= |cts|
  {
    if cts == [] then 0
    else CountAtLeast(cts[..|cts| - 1], m) + (if AtLeast(cts[|cts| - 1], m) then 1 else 0)
  }

  /** `n_freq_enough`: the counts at least min_freq, or every count when min_freq is
      not positive. */
  function FreqEnough(cts: seq<Count>, minFreq: int): (n: nat)
    ensures n <= |cts|
  {
    if minFreq > 0 then CountAtLeast(cts, minFreq) else |cts|
  }

  /** On falling counts the counts at least m are exactly the first CountAtLeast. */
  lemma {:induction false} AtLeastPrefix(cts: seq<Count>, m: int)
    requires NonIncreasing(cts)
    ensures forall k :: 0 <= k < |cts| ==> (AtLeast(cts[k], m) <==> k < CountAtLeast(cts, m))
  {
    if cts != [] {
      var n := |cts|;
      var init := cts[..n - 1];
      AtLeastPrefix(init, m);
      if AtLeast(cts[n - 1], m) {
        forall k | 0 <= k < n - 1
          ensures AtLeast(init[k], m)
        {
          assert Ge(cts[k], cts[n - 1]);
        }
        assert CountAtLeast(init, m) == n - 1;
      }
    }
  }

  /** A count that holds exactly on the first t entries is t. */
  lemma {:induction false} CountPrefix(cts: seq<Count>, m: int, t: nat)
    requires t <= |cts|
    requires forall k :: 0 <= k < |cts| ==> (AtLeast(cts[k], m) <==> k < t)
    ensures CountAtLeast(cts, m) == t
  {
    if cts != [] {
      var n := |cts|;
      if t == n {
        CountPrefix(cts[..n - 1], m, n - 1);
      } else {
        CountPrefix(cts[..n - 1], m, t);
      }
    }
  }

  /** The number of counts at least min_freq, found by bisecting the reversed counts
      when min_freq > 0; every count otherwise. */
  method CountFreqEnough(cts: seq<Count>, minFreq: int) returns (n: nat)
    requires NonIncreasing(cts)
    ensures n == FreqEnough(cts, minFreq)
  {
    if minFreq > 0 {
      var rev := Reversed(cts);
      assert NonDecreasing(rev) by {
        forall i, j | 0 <= i < j < |rev|
          ensures Ge(rev[j], rev[i])
        {
          assert rev[i] == cts[|cts| - 1 - i] && rev[j] == cts[|cts| - 1 - j];
        }
      }
      var below := BisectLeft(rev, minFreq);
      n := |cts| - below;
      forall k | 0 <= k < |cts|
        ensures AtLeast(cts[k], minFreq) <==> k < n
      {
        assert cts[k] == rev[|cts| - 1 - k];
      }
      CountPrefix(cts, minFreq, n);
    } else {
      n := |cts|;
    }
  }

  /** `n_to_keep + len(specials_w_unk)`, then `min` (minimal) or `max` with
      n_freq_enough; an infinite bound stays infinite under max and yields under min. */
  function Retained(nFreqEnough: nat, limit: Limit, minimal: bool): Limit
  {
    if minimal then
      if limit.Cap? && limit.n < nFreqEnough then limit else Cap(nFreqEnough)
    else
      if limit.Cap? && limit.n <= nFreqEnough then Cap(nFreqEnough) else limit
  }

  /** How many ranks strip keeps: the retained bound when it is below the length,
      otherwise all of them (strip returns early). */
  function KeptLength(cts: seq<Count>, nToKeep: Limit, minFreq: int, minimal: bool, reserved: nat): (k: nat)
    ensures k <= |cts|
  {
    var keep := Retained(FreqEnough(cts, minFreq), Plus(nToKeep, reserved), minimal);
    if Below(keep, |cts|) then keep.n else |cts|
  }

  /** With minimal=True strip keeps the ranks that are both within the bound and
      frequent enough; with minimal=False the ranks within either. */
  lemma KeptLengthMeaning(cts: seq<Count>, nToKeep: Limit, minFreq: int, minimal: bool, reserved: nat)
    requires NonIncreasing(cts)
    ensures var k := KeptLength(cts, nToKeep, minFreq, minimal, reserved);
      forall r :: 0 <= r < |cts| ==>
        var frequent := minFreq <= 0 || AtLeast(cts[r], minFreq);
        var top := nToKeep.NoCap? || r < nToKeep.n + reserved;
        (r < k <==> if minimal then frequent && top else frequent || top)
  {
    AtLeastPrefix(cts, minFreq);
  }

  /** The reserved block, all infinite counts, always survives strip. */
  lemma KeptReserved(cts: seq<Count>, nToKeep: Limit, minFreq: int, minimal: bool, reserved: nat)
    requires reserved <= |cts|
    requires forall k :: 0 <= k < reserved ==> cts[k] == Inf
    requires NonIncreasing(cts)
    ensures KeptLength(cts, nToKeep, minFreq, minimal, reserved) >= reserved
  {
    if minFreq > 0 {
      AtLeastPrefix(cts, minFreq);
      if reserved > 0 {
        assert AtLeast(cts[reserved - 1], minFreq);
      }
    }
  }

  /** Stripping the kept prefix again with the same arguments keeps all of it. */
  lemma KeptIdempotent(cts: seq<Count>, nToKeep: Limit, minFreq: int, minimal: bool, reserved: nat)
    requires NonIncreasing(cts)
    ensures var k := KeptLength(cts, nToKeep, minFreq, minimal, reserved);
      KeptLength(cts[..k], nToKeep, minFreq, minimal, reserved) == k
  {
    var k := KeptLength(cts, nToKeep, minFreq, minimal, reserved);
    var pre := cts[..k];
    if minFreq > 0 {
      AtLeastPrefix(cts, minFreq);
      var c := CountAtLeast(cts, minFreq);
      var t := if c < k then c else k;
      CountPrefix(pre, minFreq, t);
    }
  }

  /** Cutting the index to its first k ranks, k covering the reserved block, leaves
      an index in which every remaining word keeps its rank. */
  lemma IndexedPrefix(cts: seq<Count>, i2s: seq<Word>, s2i: map<Word, nat>, reserved: set<Word>, k: nat)
    requires Indexed(cts, i2s, s2i, reserved) && |reserved| <= k <= |cts|
    ensures Distinct(i2s[..k])
    ensures Indexed(cts[..k], i2s[..k], IndexMap(i2s[..k]), reserved)
    ensures forall w :: w in IndexMap(i2s[..k]) <==> w in s2i && s2i[w] < k
    ensures forall w :: w in IndexMap(i2s[..k]) ==> IndexMap(i2s[..k])[w] == s2i[w]
  {
    IndexMapPrefix(i2s, k);
    NonIncreasingPrefix(cts, k);
    InfBlockPrefix(cts, |reserved|, k);
    PrefixOfPrefix(i2s, |reserved|, k);
  }

  lemma NonIncreasingPrefix(cts: seq<Count>, k: nat)
    requires NonIncreasing(cts) && k <= |cts|
    ensures NonIncreasing(cts[..k])
  {
    var pre := cts[..k];
    forall i, j | 0 <= i < j < k
      ensures Ge(pre[i], pre[j])
    {
      assert pre[i] == cts[i] && pre[j] == cts[j];
    }
  }

  lemma InfBlockPrefix(cts: seq<Count>, n: nat, k: nat)
    requires k <= |cts| && forall r :: 0 <= r < |cts| ==> (cts[r] == Inf <==> r < n)
    ensures forall r :: 0 <= r < k ==> (cts[..k][r] == Inf <==> r < n)
  {
  }

  lemma PrefixOfPrefix<T>(s: seq<T>, n: nat, k: nat)
    requires n <= k <= |s|
    ensures s[..k][..n] == s[..n]
  {
  }

  /** Two indices that give the same ranks to some words give them the same rank set. */
  lemma RanksOfAgree(s: map<Word, nat>, t: map<Word, nat>, ws: set<Word>)
    requires ws <= s.Keys && ws <= t.Keys
    requires forall w :: w in ws ==> s[w] == t[w]
    ensures RanksOf(s, ws) == RanksOf(t, ws)
  {
  }

  /** Strip's arithmetic as the source performs it: the ranks reaching min_freq found
      by bisection, the bound raised by the reserved block, then min or max. */
  method KeepCount(cts: seq<Count>, nToKeep: Limit, minFreq: int, minimal: bool, reserved: nat) returns (k: nat)
    requires NonIncreasing(cts)
    ensures k == KeptLength(cts, nToKeep, minFreq, minimal, reserved)
  {
    var nFreqEnough := CountFreqEnough(cts, minFreq);
    var keep := Retained(nFreqEnough, Plus(nToKeep, reserved), minimal);
    k := if Below(keep, |cts|) then keep.n else |cts|;
  }

  /** `np.asarray(integer[ws])` for words the index holds: their ranks. */
  function RanksOf(s2i: map<Word, nat>, ws: set<Word>): set<int>
    requires ws <= s2i.Keys
  {
    set w | w in ws :: s2i[w] as int
  }

  /** The ranks of reserved words are the positions holding them, and the ranks of
      the whole reserved block are exactly 0 to |reserved| - 1. */
  lemma ReservedRanks(cts: seq<Count>, i2s: seq<Word>, s2i: map<Word, nat>, reserved: set<Word>, ws: set<Word>)
    requires Indexed(cts, i2s, s2i, reserved) && ws <= reserved
    ensures ws <= s2i.Keys
    ensures forall r :: r in RanksOf(s2i, ws) <==> 0 <= r < |i2s| && i2s[r] in ws
    ensures ws == reserved ==> forall r :: r in RanksOf(s2i, ws) <==> 0 <= r < |reserved|
  {
    var n := |reserved|;
    forall w | w in ws
      ensures w in s2i && s2i[w] < n
    {
      var k :| 0 <= k < n && i2s[..n][k] == w;
    }
    forall r | 0 <= r < |i2s| && i2s[r] in ws
      ensures r in RanksOf(s2i, ws)
    {
      assert s2i[i2s[r]] == r;
    }
    if ws == reserved {
      forall r | 0 <= r < n
        ensures i2s[r] in reserved
      {
        assert i2s[..n][r] == i2s[r];
      }
    }
  }
}

