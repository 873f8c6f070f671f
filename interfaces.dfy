/** The `.integer` and `.string` lookup objects of both Numericalization variants
    (`_NpIntInterface`/`_NbIntInterface` and `_NpStrInterface`/`_NbStrInterface`),
    as functions of the dictionaries and arrays they hold. The source tells a
    single key from a collection by its type or by catching the failure of a
    single lookup; here the two cases are separate functions. */
module Interfaces {
  import opened Wrappers
  import opened Counts
  import opened Seqs
  import opened Decoding

  /** `integer[w]` for one word: its rank; failing that, the unk rank the interface
      was given; failing that, KeyError. */
  function IntOf(s2i: map<Word, nat>, unkRank: Option<nat>, w: Word): (r: Result<int>)
    ensures r.Err? <==> w !in s2i && unkRank.None?
    ensures r.Err? ==> r.error == KeyError
    ensures r.Ok? && w !in s2i ==> r == Ok(unkRank.value)
    ensures w in s2i ==> r == Ok(s2i[w]) && r.value >= 0
  {
    if w in s2i then Ok(s2i[w])
    else if unkRank.Some? then Ok(unkRank.value)
    else Err(KeyError)
  }

  /** `integer[ws]` for a sequence of words: each looked up in turn, the first failure
      raising. */
  function IntsOf(s2i: map<Word, nat>, unkRank: Option<nat>, ws: seq<Word>): (r: Result<seq<int>>)
    ensures r.Ok? <==> forall i :: 0 <= i < |ws| ==> IntOf(s2i, unkRank, ws[i]).Ok?
    ensures r.Ok? ==> |r.value| == |ws| && forall i :: 0 <= i < |ws| ==> r.value[i] == IntOf(s2i, unkRank, ws[i]).value
    ensures r.Err? ==> r.error == KeyError
  {
    if ws == [] then Ok([])
    else
      var n := |ws|;
      match IntsOf(s2i, unkRank, ws[..n - 1])
      case Err(e) => Err(e)
      case Ok(init) =>
        match IntOf(s2i, unkRank, ws[n - 1])
        case Err(e) => Err(e)
        case Ok(i) => Ok(init + [i])
  }

  /** `r in integer`: true for every rank below the size, negative ones included. */
  predicate HasInt(s2i: map<Word, nat>, r: int)
    ensures r < 0 ==> HasInt(s2i, r)
  {
    r < |s2i|
  }

  /** `string[r]` for one rank. numpy raises IndexError for a rank outside the index;
      the bare `except` then retries the rank as a sequence, and iterating over an
      integer raises TypeError. */
  function StrOf(i2s: seq<Word>, r: int): (res: Result<Word>)
    ensures res.Ok? <==> InRange(r, |i2s|)
    ensures res.Ok? ==> HasStr(i2s, res.value)
    ensures res.Ok? && r >= 0 ==> res.value == i2s[r]
    ensures res.Ok? && r < 0 ==> res.value == i2s[|i2s| + r]
    ensures res.Err? ==> res.error == TypeError
  {
    if InRange(r, |i2s|) then Ok(WordAt(i2s, r)) else Err(TypeError)
  }

  /** `string[rs]` for a sequence of ranks: numpy's fancy indexing, or, when it raises,
      the list comprehension that retries rank by rank and raises IndexError at the
      first rank outside the index. */
  function StrsOf(i2s: seq<Word>, rs: seq<int>): (res: Result<seq<Word>>)
    ensures res.Ok? <==> forall p :: 0 <= p < |rs| ==> StrOf(i2s, rs[p]).Ok?
    ensures res.Ok? ==> |res.value| == |rs| && forall p :: 0 <= p < |rs| ==> res.value[p] == StrOf(i2s, rs[p]).value
    ensures res.Err? ==> res.error == IndexError
  {
    if AllInRange(rs, |i2s|) then Ok(WordsAt(i2s, rs)) else Err(IndexError)
  }

  /** `w in string`. */
  predicate HasStr(i2s: seq<Word>, w: Word)
  {
    w in i2s
  }

  /** Over an index of distinct words, looking up known words and then their ranks
      gives the words back. */
  lemma LookupRoundTrip(i2s: seq<Word>, unkRank: Option<nat>, ws: seq<Word>)
    requires Distinct(i2s)
    requires forall i :: 0 <= i < |ws| ==> ws[i] in i2s
    ensures IntsOf(IndexMap(i2s), unkRank, ws).Ok?
    ensures StrsOf(i2s, IntsOf(IndexMap(i2s), unkRank, ws).value) == Ok(ws)
  {
    var s2i := IndexMap(i2s);
    forall i | 0 <= i < |ws|
      ensures ws[i] in s2i
    {
      assert ws[i] in Elems(i2s);
    }
    var rs := IntsOf(s2i, unkRank, ws).value;
    assert AllInRange(rs, |i2s|);
    assert WordsAt(i2s, rs) == ws;
  }

  /** A rank is `in integer` exactly when it is below the number of words: the lower
      bound is not checked. */
  lemma HasIntBelow(i2s: seq<Word>, r: int)
    requires Distinct(i2s)
    ensures HasInt(IndexMap(i2s), r) <==> r < |i2s|
  {
    DistinctCard(i2s);
  }

  /** `w in string` holds exactly for the words of the index, and for those
      `integer[w]` is a rank that is `in integer` and reads back as w. */
  lemma ContainsLookup(i2s: seq<Word>, unkRank: Option<nat>, w: Word)
    requires Distinct(i2s)
    ensures HasStr(i2s, w) <==> w in IndexMap(i2s)
    ensures HasStr(i2s, w) ==>
      && IntOf(IndexMap(i2s), unkRank, w).Ok?
      && HasInt(IndexMap(i2s), IntOf(IndexMap(i2s), unkRank, w).value)
      && StrOf(i2s, IntOf(IndexMap(i2s), unkRank, w).value) == Ok(w)
  {
    assert w in i2s <==> w in Elems(i2s);
    DistinctCard(i2s);
  }
}
