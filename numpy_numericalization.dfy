/** protovoc/numericalization/numpy.py: a vocabulary frozen into ranks, most frequent
    first, that turns arrays of ranks back into sentences with numpy's vectorised
    operations. */
module NumpyNumericalization {
  import opened Wrappers
  import opened Counts
  import opened Seqs
  import opened Ranking
  import opened BasicVocab
  import opened NdArrays
  import opened Decoding
  import opened Frozen
  import opened Interfaces

  /** `np.isin(integers, spec_ints)`, elementwise. */
  function InSet(ints: seq<int>, s: set<int>): (flags: seq<bool>)
    ensures |flags| == |ints|
    ensures forall p :: 0 <= p < |ints| ==> (flags[p] <==> ints[p] in s)
  {
    seq(|ints|, p requires 0 <= p < |ints| => ints[p] in s)
  }

  /** The index, the unk rank of the `integer` interface and the special ranks agree
      with each other. */
  ghost predicate Coherent(specials: set<Word>, unk: Option<Word>, specialsWithUnk: set<Word>,
                           cts: seq<Count>, i2s: seq<Word>, s2i: map<Word, nat>, intUnk: Option<nat>,
                           specsAsInt: set<int>, specsWithUnkAsInt: set<int>)
  {
    && specialsWithUnk == specials + UnkSet(unk)
    && Indexed(cts, i2s, s2i, specialsWithUnk)
    && specialsWithUnk <= s2i.Keys
    && intUnk == (if Truthy(unk) then Some(s2i[unk.value]) else None)
    && specsAsInt == RanksOf(s2i, specials)
    && specsWithUnkAsInt == RanksOf(s2i, specialsWithUnk)
  }

  class Numericalization {
    const specials: set<Word>
    const unk: Option<Word>
    const specialsWithUnk: set<Word>
    var cts: seq<Count>
    var i2s: seq<Word>
    var s2i: map<Word, nat>
    /** The `unk` attribute of the `integer` interface, absent for a falsy unk. */
    var intUnk: Option<nat>
    var specsAsInt: set<int>
    var specsWithUnkAsInt: set<int>
    /** The ranks `sentence` stops at, chosen by `permit_unk`. */
    var specInts: set<int>

    /** The frozen index and the ranks derived from it agree. */
    ghost predicate Core()
      reads this`cts, this`i2s, this`s2i, this`intUnk, this`specsAsInt, this`specsWithUnkAsInt
    {
      Coherent(specials, unk, specialsWithUnk, cts, i2s, s2i, intUnk, specsAsInt, specsWithUnkAsInt)
    }

    ghost predicate Valid()
      reads this`cts, this`i2s, this`s2i, this`intUnk, this`specsAsInt, this`specsWithUnkAsInt, this`specInts
    {
      Core() && (specInts == specsAsInt || specInts == specsWithUnkAsInt)
    }

    /** `Numericalization(vocab)`: the vocabulary's words sorted by count, highest
        first, so that the specials and unk take the lowest ranks; unk is not
        permitted in sentences. */
    constructor (vocab: Vocab)
      requires vocab.Valid()
      ensures Valid()
      ensures specials == vocab.specials && unk == vocab.unk && specialsWithUnk == vocab.specialsWithUnk
      ensures multiset(i2s) == multiset(vocab.s2c.keys)
      ensures forall k :: 0 <= k < |i2s| ==> i2s[k] in vocab.s2c.counts && cts[k] == vocab.s2c.counts[i2s[k]]
      ensures specInts == specsWithUnkAsInt
    {
      var order, counts, index, unkRank, asInt, withUnkAsInt :=
        FreezeIndex(vocab.specials, vocab.unk, vocab.specialsWithUnk, vocab.s2c);
      specials := vocab.specials;
      unk := vocab.unk;
      specialsWithUnk := vocab.specialsWithUnk;
      specsAsInt := asInt;
      specsWithUnkAsInt := withUnkAsInt;
      new;
      Replace(counts, order, index, unkRank);
      PermitUnk(false);
    }

    /** `permit_unk(val)`: with val set, sentences stop at specials only and unk is
        rendered as a word; otherwise they stop at unk too. */
    method PermitUnk(val: bool)
      requires Core()
      modifies this
      ensures Valid()
      ensures specInts == if val then specsAsInt else specsWithUnkAsInt
      ensures cts == old(cts) && i2s == old(i2s) && s2i == old(s2i) && intUnk == old(intUnk)
      ensures specsAsInt == old(specsAsInt) && specsWithUnkAsInt == old(specsWithUnkAsInt)
    {
      if val {
        specInts := specsAsInt;
      } else {
        specInts := specsWithUnkAsInt;
      }
    }

    /** `len(num)`: the number of ranks, which is the number of distinct words. */
    function Len(): (n: nat)
      reads this
      requires Valid()
      ensures n == |i2s| && n == |s2i|
    {
      DistinctCard(i2s);
      |cts|
    }

    /** `sentence(integers, axis)`: along the axis, each lane of ranks becomes the
        words up to (not including) its first rank in `spec_ints`, joined by single
        spaces; the result drops that axis. An axis the array does not have raises
        before any lookup, and a rank outside the index raises next. */
    method Sentence(integers: Nd<int>, axis: nat) returns (r: Result<Nd<string>>)
      requires Valid() && integers.Valid() && |integers.shape| >= 1
      ensures axis >= |integers.shape| ==> r == Err(AxisError)
      ensures axis < |integers.shape| && !AllInRange(integers.data, |i2s|) ==> r == Err(IndexError)
      ensures axis < |integers.shape| && AllInRange(integers.data, |i2s|) ==>
        && r.Ok?
        && r.value.Valid()
        && r.value.shape == DropAt(integers.shape, axis)
        && var l := LayoutOf(integers.shape, axis);
           var stops := InSet(integers.data, specInts);
           forall b :: 0 <= b < l.Lanes() ==>
             && AllInRange(Lane(integers.data, l, b), |i2s|)
             && r.value.data[b] == DecodeSlice(i2s, Lane(integers.data, l, b), Lane(stops, l, b))
    {
      if axis >= |integers.shape| {
        return Err(AxisError);
      }
      var l := LayoutOf(integers.shape, axis);
      var stops := InSet(integers.data, specInts);
      var mask := CumAnyAlong(stops, l);
      if !AllInRange(integers.data, |i2s|) {
        return Err(IndexError);
      }
      var out := RenderAlong(i2s, integers.data, mask, l);
      forall b | 0 <= b < l.Lanes()
        ensures AllInRange(Lane(integers.data, l, b), |i2s|)
        ensures out[b] == DecodeSlice(i2s, Lane(integers.data, l, b), Lane(stops, l, b))
      {
        MaskedLaneText(i2s, integers.data, stops, l, b);
      }
      r := Ok(Nd(DropAt(integers.shape, axis), out));
    }

    /** `strip(n_to_keep, min_freq, minimal)`: keep the first KeptLength ranks (the
        bound raised by the reserved block, combined with the count of ranks that
        reach min_freq by min or max) and rebuild the lookups over them; every kept
        word keeps its rank and the reserved block survives. */
    method Strip(nToKeep: Limit, minFreq: int, minimal: bool)
      requires Valid()
      modifies this
      ensures Valid()
      ensures var k := KeptLength(old(cts), nToKeep, minFreq, minimal, |specialsWithUnk|);
        cts == old(cts)[..k] && i2s == old(i2s)[..k]
      ensures intUnk == old(intUnk)
      ensures specInts == old(specInts)
      ensures specsAsInt == old(specsAsInt) && specsWithUnkAsInt == old(specsWithUnkAsInt)
    {
      var k := KeepCount(cts, nToKeep, minFreq, minimal, |specialsWithUnk|);
      if k == |cts| {
        return;
      }
      KeptReserved(cts, nToKeep, minFreq, minimal, |specialsWithUnk|);
      var ctsKept, i2sKept, index, unkRank := StripIndex(specials, unk, specialsWithUnk, cts, i2s, s2i, intUnk, specsAsInt, specsWithUnkAsInt, k);
      Replace(ctsKept, i2sKept, index, unkRank);
    }

    /** Install a new index and its `integer` interface, as the end of `strip` does. */
    method Replace(newCts: seq<Count>, newI2s: seq<Word>, newS2i: map<Word, nat>, newIntUnk: Option<nat>)
      modifies this
      ensures cts == newCts && i2s == newI2s && s2i == newS2i && intUnk == newIntUnk
      ensures specsAsInt == old(specsAsInt) && specsWithUnkAsInt == old(specsWithUnkAsInt) && specInts == old(specInts)
    {
      cts, i2s, s2i, intUnk := newCts, newI2s, newS2i, newIntUnk;
    }
  }

  /** The index cut to its first k ranks, its lookups rebuilt. */
  method StripIndex(specials: set<Word>, unk: Option<Word>, specialsWithUnk: set<Word>,
                    cts: seq<Count>, i2s: seq<Word>, s2i: map<Word, nat>, intUnk: Option<nat>,
                    specsAsInt: set<int>, specsWithUnkAsInt: set<int>, k: nat)
    returns (ctsKept: seq<Count>, i2sKept: seq<Word>, index: map<Word, nat>, unkRank: Option<nat>)
    requires Coherent(specials, unk, specialsWithUnk, cts, i2s, s2i, intUnk, specsAsInt, specsWithUnkAsInt)
    requires |specialsWithUnk| <= k <= |cts|
    ensures Coherent(specials, unk, specialsWithUnk, ctsKept, i2sKept, index, unkRank, specsAsInt, specsWithUnkAsInt)
    ensures ctsKept == cts[..k] && i2sKept == i2s[..k] && unkRank == intUnk
  {
    StripCoherent(specials, unk, specialsWithUnk, cts, i2s, s2i, intUnk, specsAsInt, specsWithUnkAsInt, k);
    ctsKept, i2sKept := cts[..k], i2s[..k];
    index := IndexMap(i2sKept);
    unkRank := if Truthy(unk) then Some(index[unk.value]) else None;
  }

  /** The index `__init__` builds from a vocabulary: the words sorted by count,
      highest first, their counts, the inverse dictionary, the unk rank and the
      ranks of the specials with and without unk. */
  method FreezeIndex(specials: set<Word>, unk: Option<Word>, specialsWithUnk: set<Word>, voc: Counter)
    returns (order: seq<Word>, counts: seq<Count>, index: map<Word, nat>, unkRank: Option<nat>,
             asInt: set<int>, withUnkAsInt: set<int>)
    requires voc.Valid() && specialsWithUnk == specials + UnkSet(unk)
    requires forall w :: w in specialsWithUnk ==> w in voc.counts && voc.counts[w] == Inf
    requires forall w :: w in voc.counts && voc.counts[w] == Inf ==> w in specialsWithUnk
    ensures Coherent(specials, unk, specialsWithUnk, counts, order, index, unkRank, asInt, withUnkAsInt)
    ensures multiset(order) == multiset(voc.keys)
    ensures forall k :: 0 <= k < |order| ==> order[k] in voc.counts && counts[k] == voc.counts[order[k]]
  {
    order, counts, index := Freeze(voc.keys, voc.counts, specialsWithUnk);
    ReservedRanks(counts, order, index, specialsWithUnk, specialsWithUnk);
    unkRank := if Truthy(unk) then Some(index[unk.value]) else None;
    asInt, withUnkAsInt := RanksOf(index, specials), RanksOf(index, specialsWithUnk);
  }

  /** Cutting a coherent index to its first k ranks, k covering the reserved block,
      leaves it coherent with the same unk rank and special ranks. */
  lemma StripCoherent(specials: set<Word>, unk: Option<Word>, specialsWithUnk: set<Word>,
                      cts: seq<Count>, i2s: seq<Word>, s2i: map<Word, nat>, intUnk: Option<nat>,
                      specsAsInt: set<int>, specsWithUnkAsInt: set<int>, k: nat)
    requires Coherent(specials, unk, specialsWithUnk, cts, i2s, s2i, intUnk, specsAsInt, specsWithUnkAsInt)
    requires |specialsWithUnk| <= k <= |cts|
    ensures Distinct(i2s[..k])
    ensures Coherent(specials, unk, specialsWithUnk, cts[..k], i2s[..k], IndexMap(i2s[..k]),
                     if Truthy(unk) then Some(IndexMap(i2s[..k])[unk.value]) else None, specsAsInt, specsWithUnkAsInt)
    ensures Truthy(unk) ==> unk.value in s2i && IndexMap(i2s[..k])[unk.value] == s2i[unk.value]
  {
    IndexedPrefix(cts, i2s, s2i, specialsWithUnk, k);
    var index := IndexMap(i2s[..k]);
    ReservedRanks(cts[..k], i2s[..k], index, specialsWithUnk, specialsWithUnk);
    RanksOfAgree(index, s2i, specials);
    RanksOfAgree(index, s2i, specialsWithUnk);
  }

  /** The ranks sentences can stop at: with unk not permitted, exactly the reserved
      block 0 to |specials_w_unk| - 1; with unk permitted, the ranks of the
      specials alone. */
  lemma StopRanks(num: Numericalization)
    requires num.Valid()
    ensures forall r :: r in num.specsWithUnkAsInt <==> 0 <= r < |num.specialsWithUnk|
    ensures forall r :: r in num.specsAsInt <==> 0 <= r < |num.i2s| && num.i2s[r] in num.specials
  {
    ReservedRanks(num.cts, num.i2s, num.s2i, num.specialsWithUnk, num.specialsWithUnk);
    ReservedRanks(num.cts, num.i2s, num.s2i, num.specialsWithUnk, num.specials);
  }

  /** A word in the index maps to its rank and back (`string[integer[w]] == w`). */
  lemma KnownWordRoundTrip(num: Numericalization, w: Word)
    requires num.Valid() && w in num.s2i
    ensures IntOf(num.s2i, num.intUnk, w) == Ok(num.s2i[w] as int)
    ensures StrOf(num.i2s, num.s2i[w]) == Ok(w)
  {
  }

  /** A word outside the index maps to the unk rank, which reads back as the unk
      word, or raises KeyError when unk is falsy. */
  lemma UnknownWord(num: Numericalization, w: Word)
    requires num.Valid() && w !in num.s2i
    ensures Truthy(num.unk) ==> IntOf(num.s2i, num.intUnk, w).Ok? && StrOf(num.i2s, IntOf(num.s2i, num.intUnk, w).value) == Ok(num.unk.value)
    ensures !Truthy(num.unk) ==> IntOf(num.s2i, num.intUnk, w) == Err(KeyError)
  {
  }
}
