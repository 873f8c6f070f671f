/** The order `Counter.most_common` lists a counter in: counts descending, and since
    the sort behind it is stable, equal counts in the counter's insertion order. */
module Ranking {
  import opened Counts
  import opened Seqs

  /** Every listed word has a count. */
  predicate Counted(ws: seq<Word>, c: map<Word, Count>)
  {
    forall i :: 0 <= i < |ws| ==> ws[i] in c
  }

  /** The first position of a word in a sequence. */
  function IndexOf(ks: seq<Word>, w: Word): (i: nat)
    requires w in ks
    ensures i < |ks| && ks[i] == w && w !in ks[..i]
  {
    if ks[0] == w then 0
    else
      var i := 1 + IndexOf(ks[1..], w);
      assert ks[..i] == [ks[0]] + ks[1..][..i - 1];
      i
  }

  /** `a` is listed before `b` by most_common over the insertion order `ks`: a higher
      count, or the same count and an earlier insertion. */
  predicate Before(ks: seq<Word>, c: map<Word, Count>, a: Word, b: Word)
  {
    && a in ks && b in ks && a in c && b in c
    && (Gt(c[a], c[b]) || (c[a] == c[b] && IndexOf(ks, a) < IndexOf(ks, b)))
  }

  /** `r` lists its words in most_common order. */
  predicate Ranked(ks: seq<Word>, c: map<Word, Count>, r: seq<Word>)
  {
    forall i, j :: 0 <= i < j < |r| ==> Before(ks, c, r[i], r[j])
  }

  lemma BeforeAsym(ks: seq<Word>, c: map<Word, Count>, a: Word, b: Word)
    requires Before(ks, c, a, b)
    ensures !Before(ks, c, b, a) && a != b && Ge(c[a], c[b])
  {
  }

  /** Insert `x` after every word whose count is at least x's, before the first word
      with a smaller count. */
  function Insert(x: Word, s: seq<Word>, c: map<Word, Count>): (r: seq<Word>)
    requires x in c && Counted(s, c)
    ensures multiset(r) == multiset(s) + multiset{x}
    ensures |r| == |s| + 1
    ensures Counted(r, c)
  {
    if s == [] then [x]
    else if Ge(c[s[0]], c[x]) then
      assert s == [s[0]] + s[1..];
      [s[0]] + Insert(x, s[1..], c)
    else [x] + s
  }

  /** Stable descending sort by count: `sorted(ks, key=count, reverse=True)`. */
  function SortDesc(ks: seq<Word>, c: map<Word, Count>): (r: seq<Word>)
    requires Counted(ks, c)
    ensures multiset(r) == multiset(ks)
    ensures |r| == |ks|
    ensures Counted(r, c)
  {
    if ks == [] then []
    else
      var n := |ks|;
      assert ks == ks[..n - 1] + [ks[n - 1]];
      Insert(ks[n - 1], SortDesc(ks[..n - 1], c), c)
  }

  /** `Counter.most_common(n)`: the first n entries of the stable descending sort. */
  function MostCommon(ks: seq<Word>, c: map<Word, Count>, n: nat): seq<Word>
    requires Counted(ks, c)
  {
    var r := SortDesc(ks, c);
    r[..if n < |r| then n else |r|]
  }

  lemma RankedDistinct(ks: seq<Word>, c: map<Word, Count>, r: seq<Word>)
    requires Ranked(ks, c, r)
    ensures Distinct(r)
  {
    forall i, j | 0 <= i < j < |r|
      ensures r[i] != r[j]
    {
      BeforeAsym(ks, c, r[i], r[j]);
    }
  }

  /** Inserting the last-inserted word into a ranked list keeps it ranked. */
  lemma {:induction false} InsertRanked(ks: seq<Word>, c: map<Word, Count>, x: Word, s: seq<Word>)
    requires Counted(ks, c) && x in ks && Counted(s, c) && x in c
    requires Ranked(ks, c, s)
    requires forall i :: 0 <= i < |s| ==> s[i] in ks && IndexOf(ks, s[i]) < IndexOf(ks, x)
    ensures Ranked(ks, c, Insert(x, s, c))
  {
    if s == [] {
    } else if Ge(c[s[0]], c[x]) {
      var t := s[1..];
      assert Ranked(ks, c, t) by {
        forall i, j | 0 <= i < j < |t| ensures Before(ks, c, t[i], t[j]) {
          assert t[i] == s[i + 1] && t[j] == s[j + 1];
        }
      }
      InsertRanked(ks, c, x, t);
      var rt := Insert(x, t, c);
      forall i | 0 <= i < |rt|
        ensures Before(ks, c, s[0], rt[i])
      {
        assert rt[i] in multiset(rt);
        if rt[i] != x {
          assert rt[i] in multiset(t);
          var k :| 0 <= k < |t| && t[k] == rt[i];
          assert Before(ks, c, s[0], s[k + 1]);
        }
      }
      ConsRanked(ks, c, s[0], rt);
    } else {
      forall j | 0 <= j < |s|
        ensures Before(ks, c, x, s[j])
      {
        assert Ge(c[s[0]], c[x]) || Ge(c[x], c[s[0]]);
        if j > 0 {
          BeforeAsym(ks, c, s[0], s[j]);
          assert Ge(c[s[j]], c[x]) || Ge(c[x], c[s[j]]);
        }
      }
      ConsRanked(ks, c, x, s);
    }
  }

  /** A word listed before every word of a ranked list can head it. */
  lemma ConsRanked(ks: seq<Word>, c: map<Word, Count>, a: Word, r: seq<Word>)
    requires Ranked(ks, c, r)
    requires forall i :: 0 <= i < |r| ==> Before(ks, c, a, r[i])
    ensures Ranked(ks, c, [a] + r)
  {
    var ar := [a] + r;
    forall i, j | 0 <= i < j < |ar|
      ensures Before(ks, c, ar[i], ar[j])
    {
      assert ar[j] == r[j - 1];
      if i > 0 {
        assert ar[i] == r[i - 1];
      }
    }
  }

  /** The stable descending sort lists every word in most_common order. */
  lemma {:induction false} SortDescRanked(ks: seq<Word>, c: map<Word, Count>)
    requires Distinct(ks) && Counted(ks, c)
    ensures Ranked(ks, c, SortDesc(ks, c))
  {
    if ks != [] {
      var n := |ks|;
      var init := ks[..n - 1];
      assert Distinct(init);
      SortDescRanked(init, c);
      var s := SortDesc(init, c);
      RankedExtend(ks, c, s);
      InsertedBeforeLast(ks, s);
      InsertRanked(ks, c, ks[n - 1], s);
    }
  }

  /** A ranking of all words but the last stays a ranking when the last word is
      inserted after them. */
  lemma RankedExtend(ks: seq<Word>, c: map<Word, Count>, s: seq<Word>)
    requires ks != [] && Ranked(ks[..|ks| - 1], c, s)
    ensures Ranked(ks, c, s)
  {
    forall i, j | 0 <= i < j < |s|
      ensures Before(ks, c, s[i], s[j])
    {
      BeforePrefix(ks, |ks| - 1, c, s[i], s[j]);
    }
  }

  /** Every word of a ranking of all words but the last was inserted before the last. */
  lemma InsertedBeforeLast(ks: seq<Word>, s: seq<Word>)
    requires Distinct(ks) && ks != [] && multiset(s) == multiset(ks[..|ks| - 1])
    ensures forall i :: 0 <= i < |s| ==> s[i] in ks && IndexOf(ks, s[i]) < IndexOf(ks, ks[|ks| - 1])
  {
    var n := |ks|;
    var init, x := ks[..n - 1], ks[n - 1];
    assert IndexOf(ks, x) == n - 1 by {
      assert x !in init;
      IndexOfLast(ks);
    }
    forall i | 0 <= i < |s|
      ensures s[i] in ks && IndexOf(ks, s[i]) < IndexOf(ks, x)
    {
      assert s[i] in multiset(init);
      IndexOfPrefix(ks, n - 1, s[i]);
    }
  }

  /** The order among words of a prefix of the insertion order is the order among
      them in the whole. */
  lemma BeforePrefix(ks: seq<Word>, k: nat, c: map<Word, Count>, a: Word, b: Word)
    requires k <= |ks| && Before(ks[..k], c, a, b)
    ensures Before(ks, c, a, b)
  {
    IndexOfPrefix(ks, k, a);
    IndexOfPrefix(ks, k, b);
  }

  lemma {:induction false} IndexOfPrefix(ks: seq<Word>, k: nat, w: Word)
    requires k <= |ks| && w in ks[..k]
    ensures w in ks && IndexOf(ks, w) == IndexOf(ks[..k], w) && IndexOf(ks, w) < k
  {
    if ks[0] != w {
      assert ks[..k][1..] == ks[1..][..k - 1];
      IndexOfPrefix(ks[1..], k - 1, w);
    }
  }

  lemma IndexOfLast(ks: seq<Word>)
    requires ks != [] && ks[|ks| - 1] !in ks[..|ks| - 1]
    ensures IndexOf(ks, ks[|ks| - 1]) == |ks| - 1
  {
  }

  /** The words ranked before an infinite-count word all have infinite count. */
  lemma RankedInfPrefix(ks: seq<Word>, c: map<Word, Count>, r: seq<Word>, j: nat)
    requires Ranked(ks, c, r) && j < |r| && r[j] in c && c[r[j]] == Inf
    ensures forall i :: 0 <= i <= j ==> c[r[i]] == Inf
  {
    forall i | 0 <= i < j ensures c[r[i]] == Inf {
      BeforeAsym(ks, c, r[i], r[j]);
    }
  }

  /** A word that most_common orders before a word among the first n is itself among
      the first n. */
  lemma RankedPrefixClosed(ks: seq<Word>, c: map<Word, Count>, r: seq<Word>, n: nat, v: Word, w: Word)
    requires Ranked(ks, c, r) && n <= |r|
    requires w in r[..n] && v in r && Before(ks, c, v, w)
    ensures v in r[..n]
  {
    var p :| 0 <= p < n && r[..n][p] == w;
    var k :| 0 <= k < |r| && r[k] == v;
    if k >= n {
      assert Before(ks, c, r[p], r[k]);
      BeforeAsym(ks, c, v, w);
    } else {
      assert r[..n][k] == v;
    }
  }

  /** When only the reserved words have infinite counts, an infinite-count word
      stands within the first |reserved| places of a ranked list. */
  lemma RankedInfWithin(ks: seq<Word>, c: map<Word, Count>, r: seq<Word>, j: nat, reserved: set<Word>)
    requires Ranked(ks, c, r) && j < |r| && r[j] in c && c[r[j]] == Inf
    requires forall v :: v in c && c[v] == Inf ==> v in reserved
    ensures j < |reserved|
  {
    RankedInfPrefix(ks, c, r, j);
    RankedDistinct(ks, c, r);
    var front := r[..j + 1];
    assert Distinct(front);
    assert Elems(front) <= reserved by {
      forall v | v in front ensures v in reserved {
        var i :| 0 <= i < |front| && front[i] == v;
        assert c[r[i]] == Inf;
      }
    }
    DistinctWithin(front, reserved);
  }
}
