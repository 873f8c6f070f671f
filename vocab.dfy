/** protovoc/vocab/basic.py: the counting vocabulary. `Counter` is the value of the
    `s2c` dictionary (a collections.Counter, whose keys keep insertion order), and
    `Vocab` is the object whose methods replace that value. */
module BasicVocab {
  import opened Wrappers
  import opened Counts
  import opened Seqs
  import opened Ranking

  /** `unk` as a truth value: an absent or empty unk word is falsy. */
  predicate Truthy(unk: Option<Word>)
  {
    unk.Some? && unk.value != ""
  }

  /** The unk word when it is truthy, as a set. */
  function UnkSet(unk: Option<Word>): set<Word>
  {
    if Truthy(unk) then {unk.value} else {}
  }

  /** `s` without `w`, others in their order: what `del d[w]` leaves of the key order. */
  function Without(s: seq<Word>, w: Word): (r: seq<Word>)
    ensures Elems(r) == Elems(s) - {w}
    ensures Distinct(s) ==> Distinct(r)
    ensures w !in s ==> r == s
  {
    if s == [] then []
    else
      assert s == [s[0]] + s[1..];
      ElemsCons(s[0], s[1..]);
      var rest := Without(s[1..], w);
      ElemsCons(s[0], rest);
      assert Distinct(s) ==> Distinct(s[1..]) && s[0] !in Elems(rest);
      if s[0] == w then rest
      else
        assert Distinct(s) ==> Distinct([s[0]] + rest) by {
          if Distinct(s) {
            DistinctCons(s[0], rest);
          }
        }
        [s[0]] + rest
  }

  /** `[s for s in ws if counts[s] >= min_freq]`, order kept. */
  function Frequent(ws: seq<Word>, counts: map<Word, Count>, minFreq: int): (r: seq<Word>)
    requires Counted(ws, counts)
    ensures Elems(r) == set w | w in ws && AtLeast(counts[w], minFreq)
    ensures Distinct(ws) ==> Distinct(r)
    ensures |r| <= |ws|
    ensures (forall i :: 0 <= i < |ws| ==> AtLeast(counts[ws[i]], minFreq)) ==> r == ws
  {
    if ws == [] then []
    else
      assert ws == [ws[0]] + ws[1..];
      var rest := Frequent(ws[1..], counts, minFreq);
      assert Distinct(ws) ==> Distinct(ws[1..]) && ws[0] !in Elems(rest);
      if AtLeast(counts[ws[0]], minFreq) then
        ElemsCons(ws[0], rest);
        assert Distinct(ws) ==> Distinct([ws[0]] + rest) by {
          if Distinct(ws) {
            DistinctCons(ws[0], rest);
          }
        }
        [ws[0]] + rest
      else rest
  }

  /** The `s2c` Counter: its keys in insertion order, and their counts. */
  datatype Counter = Counter(keys: seq<Word>, counts: map<Word, Count>)
  {
    ghost predicate Valid()
    {
      Distinct(keys) && Elems(keys) == counts.Keys
    }

    /** `counter[w]`: a missing word reads as 0 without being inserted. */
    function Get(w: Word): Count
    {
      if w in counts then counts[w] else Fin(0)
    }

    /** `counter[w] = c`: overwrite in place, or insert at the end. */
    function Set(w: Word, c: Count): (r: Counter)
      requires Valid()
      ensures r.Valid()
    {
      if w in counts then Counter(keys, counts[w := c])
      else Counter(keys + [w], counts[w := c])
    }

    /** `del counter[w]`. */
    function Delete(w: Word): (r: Counter)
      requires Valid() && w in counts
      ensures r.Valid()
    {
      Counter(Without(keys, w), counts - {w})
    }

    /** Vocab.add: 1 for a new word, one more for a known word. */
    function Add(w: Word): (r: Counter)
      requires Valid()
      ensures r.Valid()
    {
      if w in counts then Set(w, Inc(counts[w])) else Set(w, Fin(1))
    }

    /** Vocab.uncount: `s2c[w] -= 1`, then delete the entry if it reached 0. */
    function Uncount(w: Word): (r: Counter)
      requires Valid()
      ensures r.Valid()
    {
      var lowered := Set(w, Dec(Get(w)));
      if Dec(Get(w)) == Fin(0) then lowered.Delete(w) else lowered
    }

    /** Vocab.add_iterable. */
    function AddAll(ws: seq<Word>): (r: Counter)
      requires Valid()
      ensures r.Valid()
    {
      if ws == [] then this else AddAll(ws[..|ws| - 1]).Add(ws[|ws| - 1])
    }

    /** Vocab.uncount_iterable. */
    function UncountAll(ws: seq<Word>): (r: Counter)
      requires Valid()
      ensures r.Valid()
    {
      if ws == [] then this else UncountAll(ws[..|ws| - 1]).Uncount(ws[|ws| - 1])
    }

    /** The words most_common(n_to_keep) keeps, or every word in insertion order when
        n_to_keep is not below the size. */
    function TopWords(limit: Limit): (r: seq<Word>)
      requires Valid()
      ensures Counted(r, counts) && Distinct(r)
      ensures Elems(r) <= counts.Keys
    {
      SortDescRanked(keys, counts);
      RankedDistinct(keys, counts, SortDesc(keys, counts));
      if Below(limit, |keys|) then MostCommon(keys, counts, limit.n) else keys
    }

    /** Vocab.strip with minimal=True and n_to_keep already raised by the reserved
        special block: the top words that are also frequent enough, counts kept. */
    function Stripped(limit: Limit, minFreq: int): (r: Counter)
      requires Valid()
      ensures r.Valid()
    {
      var kept := Frequent(TopWords(limit), counts, minFreq);
      assert forall w :: w in kept ==> w in Elems(kept);
      Counter(kept, map w | w in kept :: counts[w])
    }
  }

  /** Adding a word sets an absent word to 1 and raises a present word by exactly one;
      every other word keeps its count, and only a new word is appended to the order. */
  lemma AddCounts(c: Counter, w: Word)
    requires c.Valid()
    ensures w in c.Add(w).counts
    ensures c.Add(w).counts[w] == if w in c.counts then Inc(c.counts[w]) else Fin(1)
    ensures forall v :: v != w ==> c.Add(w).Get(v) == c.Get(v)
    ensures c.Add(w).keys == if w in c.counts then c.keys else c.keys + [w]
  {
  }

  /** Uncounting lowers a word's count by one and deletes the entry exactly when the
      count reaches 0; other words are untouched. */
  lemma UncountCounts(c: Counter, w: Word)
    requires c.Valid()
    ensures w !in c.Uncount(w).counts <==> c.Get(w) == Fin(1)
    ensures w in c.Uncount(w).counts ==> c.Uncount(w).counts[w] == Dec(c.Get(w))
    ensures forall v :: v != w ==> c.Uncount(w).Get(v) == c.Get(v)
    ensures w !in c.Uncount(w).counts ==> c.Uncount(w).keys == Without(c.keys, w)
    ensures w in c.Uncount(w).counts ==> c.Uncount(w).keys == if w in c.counts then c.keys else c.keys + [w]
  {
  }

  /** Uncount undoes an add of a word that was absent or had a non-zero count. */
  lemma AddThenUncount(c: Counter, w: Word)
    requires c.Valid()
    requires w in c.counts ==> c.counts[w] != Fin(0)
    ensures c.Add(w).Uncount(w) == c
  {
    var a := c.Add(w);
    if w in c.counts {
      assert a.Get(w) == Inc(c.counts[w]);
      assert Dec(Inc(c.counts[w])) == c.counts[w];
      assert a.Uncount(w).counts == c.counts;
    } else {
      assert w !in c.keys;
      assert Without(c.keys + [w], w) == c.keys by {
        WithoutLast(c.keys, w);
      }
      assert a.Uncount(w).counts == c.counts;
    }
  }

  lemma {:induction false} WithoutLast(s: seq<Word>, w: Word)
    requires w !in s
    ensures Without(s + [w], w) == s
  {
    if s != [] {
      assert (s + [w])[1..] == s[1..] + [w];
      WithoutLast(s[1..], w);
      assert s == [s[0]] + s[1..];
    }
  }

  function Repeat(w: Word, k: nat): (r: seq<Word>)
    ensures |r| == k && forall i :: 0 <= i < k ==> r[i] == w
  {
    if k == 0 then [] else Repeat(w, k - 1) + [w]
  }

  /** k adds of an absent word leave it last in the order with count k. */
  lemma {:induction false} AddRepeated(c: Counter, w: Word, k: nat)
    requires c.Valid() && w !in c.counts && k >= 1
    ensures c.AddAll(Repeat(w, k)) == Counter(c.keys + [w], c.counts[w := Fin(k)])
  {
    var ws, init := Repeat(w, k), Repeat(w, k - 1);
    var prev := c.AddAll(init);
    assert c.AddAll(ws) == prev.Add(w) by {
      assert ws == init + [w];
      assert ws[..k - 1] == init;
    }
    if k == 1 {
      AddNew(c, w);
    } else {
      AddRepeated(c, w, k - 1);
      AddKnown(prev, w, k - 1);
      UpdateTwice(c.counts, w, Fin(k - 1), Fin(k));
    }
  }

  lemma UpdateTwice<K, V>(m: map<K, V>, key: K, a: V, b: V)
    ensures m[key := a][key := b] == m[key := b]
  {
  }

  lemma AddNew(c: Counter, w: Word)
    requires c.Valid() && w !in c.counts
    ensures c.Add(w) == Counter(c.keys + [w], c.counts[w := Fin(1)])
  {
  }

  lemma AddKnown(c: Counter, w: Word, n: nat)
    requires c.Valid() && w in c.counts && c.counts[w] == Fin(n)
    ensures c.Add(w) == Counter(c.keys, c.counts[w := Fin(n + 1)])
  {
  }

  /** j uncounts of a word that stands at k > j lower it to k - j. */
  lemma {:induction false} UncountRepeated(c: Counter, w: Word, k: nat, j: nat)
    requires c.Valid() && w !in c.counts && j < k
    ensures Counter(c.keys + [w], c.counts[w := Fin(k)]).Valid()
    ensures Counter(c.keys + [w], c.counts[w := Fin(k)]).UncountAll(Repeat(w, j))
         == Counter(c.keys + [w], c.counts[w := Fin(k - j)])
  {
    var full := Counter(c.keys + [w], c.counts[w := Fin(k)]);
    assert Elems(c.keys + [w]) == Elems(c.keys) + {w};
    DistinctSnoc(c.keys, w);
    if j > 0 {
      var ws := Repeat(w, j);
      assert ws[..j - 1] == Repeat(w, j - 1);
      UncountRepeated(c, w, k, j - 1);
      var prev := full.UncountAll(ws[..j - 1]);
      assert prev == Counter(c.keys + [w], c.counts[w := Fin(k - j + 1)]);
      assert full.UncountAll(ws) == prev.Uncount(w);
      assert prev.Get(w) == Fin(k - j + 1);
      assert prev.Uncount(w) == prev.Set(w, Fin(k - j));
      UpdateTwice(c.counts, w, Fin(k - j + 1), Fin(k - j));
    }
  }

  /** Removal to zero: k adds of an absent word followed by k uncounts give back the
      counter exactly as it was, so the word is no longer contained. */
  lemma RemovalToZero(c: Counter, w: Word, k: nat)
    requires c.Valid() && w !in c.counts && k >= 1
    ensures c.AddAll(Repeat(w, k)).UncountAll(Repeat(w, k)) == c
    ensures w !in c.AddAll(Repeat(w, k)).UncountAll(Repeat(w, k)).counts
  {
    var ws := Repeat(w, k);
    var full := Counter(c.keys + [w], c.counts[w := Fin(k)]);
    var one := Counter(c.keys + [w], c.counts[w := Fin(1)]);
    assert c.AddAll(ws) == full by {
      AddRepeated(c, w, k);
    }
    assert full.Valid() && full.UncountAll(ws[..k - 1]) == one by {
      assert ws[..k - 1] == Repeat(w, k - 1);
      UncountRepeated(c, w, k, k - 1);
    }
    assert full.UncountAll(ws) == c by {
      UncountLastOne(c, w);
    }
  }

  /** Uncounting a word that was added last with count 1 restores the counter. */
  lemma UncountLastOne(c: Counter, w: Word)
    requires c.Valid() && w !in c.counts
    ensures Counter(c.keys + [w], c.counts[w := Fin(1)]).Valid()
    ensures Counter(c.keys + [w], c.counts[w := Fin(1)]).Uncount(w) == c
  {
    var one := Counter(c.keys + [w], c.counts[w := Fin(1)]);
    assert Elems(c.keys + [w]) == Elems(c.keys) + {w};
    DistinctSnoc(c.keys, w);
    assert one.Get(w) == Fin(1);
    WithoutLast(c.keys, w);
    assert c.counts[w := Fin(1)][w := Fin(0)] - {w} == c.counts;
  }

  /** Strip keeps exactly the entries among the top of most_common that are frequent
      enough, with their counts unchanged. */
  lemma StripKept(c: Counter, limit: Limit, minFreq: int, w: Word)
    requires c.Valid()
    ensures w in c.Stripped(limit, minFreq).counts <==>
              && w in c.counts
              && AtLeast(c.counts[w], minFreq)
              && (!Below(limit, |c.keys|) || w in SortDesc(c.keys, c.counts)[..limit.n])
    ensures w in c.Stripped(limit, minFreq).counts ==> c.Stripped(limit, minFreq).counts[w] == c.counts[w]
  {
    var top := c.TopWords(limit);
    assert w in Elems(top) <==> w in top;
    assert w in Elems(c.keys) <==> w in c.keys;
  }

  /** Without a size bound strip keeps exactly the frequent-enough words, in their
      insertion order. */
  lemma StripByFrequency(c: Counter, minFreq: int)
    requires c.Valid()
    ensures c.Stripped(NoCap, minFreq).keys == Frequent(c.keys, c.counts, minFreq)
    ensures forall w :: w in c.Stripped(NoCap, minFreq).counts <==> w in c.counts && AtLeast(c.counts[w], minFreq)
  {
    forall w ensures w in c.Stripped(NoCap, minFreq).counts <==> w in c.counts && AtLeast(c.counts[w], minFreq) {
      assert w in Elems(c.keys) <==> w in c.keys;
    }
  }

  /** Strip keeps the highest-ranked words: a word that has a higher count than a kept
      word, or the same count and an earlier insertion, is kept too. */
  lemma StripRankClosed(c: Counter, limit: Limit, minFreq: int, v: Word, w: Word)
    requires c.Valid()
    requires w in c.Stripped(limit, minFreq).counts && Before(c.keys, c.counts, v, w)
    ensures v in c.Stripped(limit, minFreq).counts
  {
    StripKept(c, limit, minFreq, w);
    StripKept(c, limit, minFreq, v);
    BeforeAsym(c.keys, c.counts, v, w);
    if Below(limit, |c.keys|) {
      RankedTopClosed(c, limit.n, v, w);
    }
  }

  /** The first n of the stable descending sort are closed under "listed before". */
  lemma RankedTopClosed(c: Counter, n: nat, v: Word, w: Word)
    requires c.Valid() && n <= |c.keys|
    requires w in SortDesc(c.keys, c.counts)[..n] && Before(c.keys, c.counts, v, w)
    ensures v in SortDesc(c.keys, c.counts)[..n]
  {
    var r := SortDesc(c.keys, c.counts);
    assert v in multiset(r) by {
      assert v in Elems(c.keys);
    }
    SortDescRanked(c.keys, c.counts);
    RankedPrefixClosed(c.keys, c.counts, r, n, v, w);
  }

  /** When every count clears min_freq, strip keeps min(bound, size) words. */
  lemma StripSize(c: Counter, limit: Limit, minFreq: int)
    requires c.Valid()
    requires forall w :: w in c.counts ==> AtLeast(c.counts[w], minFreq)
    ensures |c.Stripped(limit, minFreq).keys| == if Below(limit, |c.keys|) then limit.n else |c.keys|
  {
    var top := c.TopWords(limit);
    assert forall i :: 0 <= i < |top| ==> AtLeast(c.counts[top[i]], minFreq);
  }

  /** The infinite-count words (specials and unk) survive strip when the bound reserves
      room for all of them, whatever min_freq is. */
  lemma StripKeepsInfinite(c: Counter, limit: Limit, minFreq: int, reserved: set<Word>, w: Word)
    requires c.Valid()
    requires forall v :: v in c.counts && c.counts[v] == Inf ==> v in reserved
    requires limit.Cap? ==> limit.n >= |reserved|
    requires w in c.counts && c.counts[w] == Inf
    ensures w in c.Stripped(limit, minFreq).counts && c.Stripped(limit, minFreq).counts[w] == Inf
  {
    StripKept(c, limit, minFreq, w);
    if Below(limit, |c.keys|) {
      InfRankedTop(c, limit.n, reserved, w);
    }
  }

  /** An infinite-count word stands among the first n of the stable descending sort
      when n leaves room for every infinite-count word. */
  lemma InfRankedTop(c: Counter, n: nat, reserved: set<Word>, w: Word)
    requires c.Valid() && n <= |c.keys| && n >= |reserved|
    requires forall v :: v in c.counts && c.counts[v] == Inf ==> v in reserved
    requires w in c.counts && c.counts[w] == Inf
    ensures w in SortDesc(c.keys, c.counts)[..n]
  {
    var r := SortDesc(c.keys, c.counts);
    assert w in multiset(r) by {
      assert w in Elems(c.keys);
    }
    var j :| 0 <= j < |r| && r[j] == w;
    SortDescRanked(c.keys, c.counts);
    RankedInfWithin(c.keys, c.counts, r, j, reserved);
    assert r[..n][j] == w;
  }

  /** Strip with a bound no smaller than the size and a min_freq every count clears
      changes nothing. */
  lemma StripNoop(c: Counter, limit: Limit, minFreq: int)
    requires c.Valid()
    requires !Below(limit, |c.keys|)
    requires forall w :: w in c.counts ==> AtLeast(c.counts[w], minFreq)
    ensures c.Stripped(limit, minFreq) == c
  {
    var r := c.Stripped(limit, minFreq);
    assert r.keys == c.keys;
    assert r.counts == c.counts;
  }

  /** Stripping twice with the same arguments is stripping once. */
  lemma StripIdempotent(c: Counter, limit: Limit, minFreq: int)
    requires c.Valid()
    ensures c.Stripped(limit, minFreq).Stripped(limit, minFreq) == c.Stripped(limit, minFreq)
  {
    var r := c.Stripped(limit, minFreq);
    var top := c.TopWords(limit);
    assert |r.keys| <= |top|;
    assert !Below(limit, |r.keys|);
    forall w | w in r.counts ensures AtLeast(r.counts[w], minFreq) {
      assert w in Elems(r.keys);
    }
    StripNoop(r, limit, minFreq);
  }

  /** The Vocab object: its specials and unk, fixed at construction, and the `s2c`
      counter its methods replace. `string` (`_VocStrInterface`) is the Contains
      query. */
  class Vocab {
    const specials: set<Word>
    const unk: Option<Word>
    const specialsWithUnk: set<Word>
    var s2c: Counter

    /** The counter is well formed, every special (and a truthy unk) is present with
        an infinite count, and only they are infinite. */
    ghost predicate Valid()
      reads this
    {
      && s2c.Valid()
      && specialsWithUnk == specials + UnkSet(unk)
      && (forall w :: w in specialsWithUnk ==> w in s2c.counts && s2c.counts[w] == Inf)
      && (forall w :: w in s2c.counts && s2c.counts[w] == Inf ==> w in specialsWithUnk)
    }

    /** `Vocab(specials, unk)`: the specials and a truthy unk, each counted inf, in
        the order a set iteration yields them. */
    constructor (specials: set<Word>, unk: Option<Word>)
      ensures Valid()
      ensures this.specials == specials && this.unk == unk
      ensures Elems(s2c.keys) == specialsWithUnk
      ensures forall w :: w in s2c.counts ==> s2c.counts[w] == Inf
    {
      var withUnk := specials + UnkSet(unk);
      var c := Counter([], map[]);
      var rest := withUnk;
      while rest != {}
        invariant rest <= withUnk
        invariant c.Valid()
        invariant c.counts.Keys == withUnk - rest
        invariant forall w :: w in c.counts ==> c.counts[w] == Inf
        decreases rest
      {
        var w :| w in rest;
        c := c.Set(w, Inf);
        rest := rest - {w};
      }
      this.specials := specials;
      this.unk := unk;
      specialsWithUnk := withUnk;
      s2c := c;
    }

    /** `len(vocab)`: the number of distinct words counted. */
    function Len(): (n: nat)
      reads this
      requires Valid()
      ensures n == |s2c.counts|
    {
      DistinctCard(s2c.keys);
      |s2c.keys|
    }

    /** `w in vocab.string`. */
    function Contains(w: Word): (r: bool)
      reads this
      requires Valid()
      ensures r <==> w in s2c.keys
    {
      assert w in s2c.keys <==> w in Elems(s2c.keys);
      w in s2c.counts
    }

    /** `vocab.add(w)`. */
    method Add(w: Word)
      requires Valid()
      modifies this
      ensures Valid()
      ensures s2c == old(s2c).Add(w)
    {
      if w in s2c.counts {
        s2c := s2c.Set(w, Inc(s2c.counts[w]));
      } else {
        s2c := s2c.Set(w, Fin(1));
      }
    }

    /** `vocab.uncount(w)`: specials stay at inf and are never deleted. */
    method Uncount(w: Word)
      requires Valid()
      modifies this
      ensures Valid()
      ensures s2c == old(s2c).Uncount(w)
    {
      var lowered := Dec(s2c.Get(w));
      s2c := s2c.Set(w, lowered);
      if lowered == Fin(0) {
        s2c := s2c.Delete(w);
      }
    }

    /** `vocab.add_iterable(words)`. */
    method AddIterable(words: seq<Word>)
      requires Valid()
      modifies this
      ensures Valid()
      ensures s2c == old(s2c).AddAll(words)
    {
      for i := 0 to |words|
        invariant Valid()
        invariant s2c == old(s2c).AddAll(words[..i])
      {
        assert words[..i + 1][..i] == words[..i];
        Add(words[i]);
      }
      assert words[..|words|] == words;
    }

    /** `vocab.uncount_iterable(words)`. */
    method UncountIterable(words: seq<Word>)
      requires Valid()
      modifies this
      ensures Valid()
      ensures s2c == old(s2c).UncountAll(words)
    {
      for i := 0 to |words|
        invariant Valid()
        invariant s2c == old(s2c).UncountAll(words[..i])
      {
        assert words[..i + 1][..i] == words[..i];
        Uncount(words[i]);
      }
      assert words[..|words|] == words;
    }

    /** `vocab.strip(n_to_keep, min_freq, minimal)`. With minimal=True the counter is
        replaced by its top `n_to_keep + len(specials_w_unk)` words that reach
        min_freq; the specials always survive. With minimal=False the source reads
        an undefined name before assigning anything, so it raises NameError and the
        vocabulary is left as it was. */
    method Strip(nToKeep: Limit, minFreq: int, minimal: bool) returns (raised: Option<Error>)
      requires Valid()
      modifies this
      ensures Valid()
      ensures minimal ==> raised == None && s2c == old(s2c).Stripped(Plus(nToKeep, |specialsWithUnk|), minFreq)
      ensures !minimal ==> raised == Some(NameError) && s2c == old(s2c)
    {
      if !minimal {
        return Some(NameError);
      }
      var limit := Plus(nToKeep, |specialsWithUnk|);
      var kept := s2c.Stripped(limit, minFreq);
      forall w | w in specialsWithUnk
        ensures w in kept.counts && kept.counts[w] == Inf
      {
        StripKeepsInfinite(s2c, limit, minFreq, specialsWithUnk, w);
      }
      forall w | w in kept.counts && kept.counts[w] == Inf
        ensures w in specialsWithUnk
      {
        StripKept(s2c, limit, minFreq, w);
      }
      s2c := kept;
      raised := None;
    }
  }
}
