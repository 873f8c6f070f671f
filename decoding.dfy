/** The decoding shared by both `Numericalization.sentence` implementations: map ranks
    to words, prefix every word past the first along the axis with a space, blank the
    masked positions, and concatenate along the axis. */
module Decoding {
  import opened Counts
  import opened Seqs
  import opened NdArrays

  /** `i2s[r]` is defined: numpy accepts -len <= r < len. */
  predicate InRange(r: int, n: nat)
  {
    -(n as int) <= r < n
  }

  predicate AllInRange(rs: seq<int>, n: nat)
  {
    forall p :: 0 <= p < |rs| ==> InRange(rs[p], n)
  }

  /** `i2s[r]`, counting a negative r from the end as numpy does. */
  function WordAt(i2s: seq<Word>, r: int): Word
    requires InRange(r, |i2s|)
  {
    if r < 0 then i2s[|i2s| + r] else i2s[r]
  }

  /** `i2s[rs]` for a sequence of ranks. */
  function WordsAt(i2s: seq<Word>, rs: seq<int>): (ws: seq<Word>)
    requires AllInRange(rs, |i2s|)
    ensures |ws| == |rs|
  {
    seq(|rs|, j requires 0 <= j < |rs| => WordAt(i2s, rs[j]))
  }

  /** What position j of a slice holds after the two writes into `strs`: nothing when
      the mask is set, otherwise the word, with a leading space unless it is first. */
  function Piece(word: string, j: nat, blank: bool): string
  {
    if blank then "" else if j >= 1 then " " + word else word
  }

  function Pieces(words: seq<string>, blank: seq<bool>): (r: seq<string>)
    requires |words| == |blank|
    ensures |r| == |words|
  {
    seq(|words|, j requires 0 <= j < |words| => Piece(words[j], j, blank[j]))
  }

  /** The one-dimensional decode: the words before the first terminator, joined by
      single spaces. */
  function DecodeSlice(i2s: seq<Word>, ranks: seq<int>, stops: seq<bool>): string
    requires AllInRange(ranks, |i2s|) && |stops| == |ranks|
  {
    Join(WordsAt(i2s, ranks)[..FirstTrue(stops)])
  }

  /** Blanking the positions from the first terminator on and concatenating the
      space-prefixed words is joining the words before the first terminator. */
  lemma {:induction false} PiecesJoin(words: seq<string>, flags: seq<bool>)
    requires |words| == |flags|
    ensures Concat(Pieces(words, CumAny(flags))) == Join(words[..FirstTrue(flags)])
  {
    if words == [] {
      assert Pieces(words, CumAny(flags)) == [];
    } else {
      var n := |words|;
      var wi, fi := words[..n - 1], flags[..n - 1];
      PiecesJoin(wi, fi);
      var c := CumAny(flags);
      CumAnyInit(flags);
      PiecesSnoc(words, c);
      var f, g := FirstTrue(flags), FirstTrue(fi);
      FirstTrueInit(flags);
      CumAnyFirstTrue(flags);
      if f < n {
        assert c[n - 1];
        assert words[..f] == wi[..g];
      } else {
        assert !c[n - 1] && g == n - 1;
        assert words[..f] == words && wi[..g] == wi;
        JoinSnoc(words);
      }
    }
  }

  lemma PiecesSnoc(words: seq<string>, blank: seq<bool>)
    requires |words| == |blank| > 0
    ensures var n := |words|;
      Concat(Pieces(words, blank)) == Concat(Pieces(words[..n - 1], blank[..n - 1])) + Piece(words[n - 1], n - 1, blank[n - 1])
  {
    var n := |words|;
    assert Pieces(words, blank)[..n - 1] == Pieces(words[..n - 1], blank[..n - 1]);
  }

  lemma CumAnyInit(flags: seq<bool>)
    requires flags != []
    ensures CumAny(flags)[..|flags| - 1] == CumAny(flags[..|flags| - 1])
  {
  }

  lemma {:induction false} FirstTrueInit(flags: seq<bool>)
    requires flags != []
    ensures var n, g := |flags|, FirstTrue(flags[..|flags| - 1]);
      FirstTrue(flags) == if g < n - 1 then g else if flags[n - 1] then n - 1 else n
  {
    var n := |flags|;
    if n > 1 && !flags[0] {
      var tail := flags[1..];
      FirstTrueInit(tail);
      assert tail[..n - 2] == flags[..n - 1][1..];
    }
  }

  lemma JoinSnoc(words: seq<string>)
    requires words != []
    ensures var n := |words|;
      Join(words) == Join(words[..n - 1]) + (if n >= 2 then " " + words[n - 1] else words[n - 1])
  {
  }

  /** A slice that starts with a terminator decodes to the empty string, and one
      without a terminator decodes to all its words. */
  lemma DecodeSliceEnds(i2s: seq<Word>, ranks: seq<int>, stops: seq<bool>)
    requires AllInRange(ranks, |i2s|) && |stops| == |ranks|
    ensures |stops| > 0 && stops[0] ==> DecodeSlice(i2s, ranks, stops) == ""
    ensures (forall j :: 0 <= j < |stops| ==> !stops[j]) ==> DecodeSlice(i2s, ranks, stops) == Join(WordsAt(i2s, ranks))
  {
    if forall j :: 0 <= j < |stops| ==> !stops[j] {
      assert WordsAt(i2s, ranks)[..|stops|] == WordsAt(i2s, ranks);
    }
  }

  /** The text of lane b after the writes into `strs`, summed along the axis. */
  function LaneText(i2s: seq<Word>, ints: seq<int>, blank: seq<bool>, l: Layout, b: nat): string
    requires |ints| == l.Size() && |blank| == |ints| && AllInRange(ints, |i2s|) && b < l.Lanes()
  {
    var lane := Lane(ints, l, b);
    assert AllInRange(lane, |i2s|);
    Concat(Pieces(WordsAt(i2s, lane), Lane(blank, l, b)))
  }

  /** `strs = i2s[integers]; strs[idx] = " " + strs[idx]; strs[mask] = ""`: every
      position ends up holding its piece of the decoded text. */
  method WriteWords(i2s: seq<Word>, ints: seq<int>, blank: seq<bool>, l: Layout) returns (written: seq<string>)
    requires |ints| == l.Size() && |blank| == |ints| && AllInRange(ints, |i2s|)
    ensures |written| == |ints|
    ensures forall q :: 0 <= q < |ints| ==> written[q] == Piece(WordAt(i2s, ints[q]), l.AxisCoord(q), blank[q])
  {
    var strs := new string[|ints|];
    for p := 0 to |ints|
      invariant forall q :: 0 <= q < p ==> strs[q] == WordAt(i2s, ints[q])
    {
      strs[p] := WordAt(i2s, ints[p]);
    }
    PrefixSpaces(strs, l);
    BlankMasked(strs, blank);
    written := strs[..];
  }

  /** `strs[idx] = " " + strs[idx]`: a space before every element whose index along
      the axis is at least 1. */
  method PrefixSpaces(strs: array<string>, l: Layout)
    requires strs.Length == l.Size()
    modifies strs
    ensures forall q :: 0 <= q < strs.Length ==> strs[q] == if l.AxisCoord(q) >= 1 then " " + old(strs[q]) else old(strs[q])
  {
    for p := 0 to strs.Length
      invariant forall q :: 0 <= q < p ==> strs[q] == if l.AxisCoord(q) >= 1 then " " + old(strs[q]) else old(strs[q])
      invariant forall q :: p <= q < strs.Length ==> strs[q] == old(strs[q])
    {
      if l.AxisCoord(p) >= 1 {
        strs[p] := " " + strs[p];
      }
    }
  }

  /** `strs[mask] = ""`. */
  method BlankMasked(strs: array<string>, blank: seq<bool>)
    requires strs.Length == |blank|
    modifies strs
    ensures forall q :: 0 <= q < strs.Length ==> strs[q] == if blank[q] then "" else old(strs[q])
  {
    for p := 0 to strs.Length
      invariant forall q :: 0 <= q < p ==> strs[q] == if blank[q] then "" else old(strs[q])
      invariant forall q :: p <= q < strs.Length ==> strs[q] == old(strs[q])
    {
      if blank[p] {
        strs[p] := "";
      }
    }
  }

  /** `strs.sum(axis=axis)` on an array of strings: each lane concatenated in order. */
  method SumAlong(strs: seq<string>, l: Layout) returns (out: seq<string>)
    requires |strs| == l.Size()
    ensures |out| == l.Lanes()
    ensures forall b :: 0 <= b < l.Lanes() ==> out[b] == Concat(Lane(strs, l, b))
  {
    out := [];
    for b := 0 to l.Lanes()
      invariant |out| == b
      invariant forall c :: 0 <= c < b ==> out[c] == Concat(Lane(strs, l, c))
    {
      ghost var lane := Lane(strs, l, b);
      var acc := "";
      for j := 0 to l.n
        invariant acc == Concat(lane[..j])
      {
        assert lane[..j + 1][..j] == lane[..j];
        acc := acc + strs[l.Pos(b, j)];
      }
      assert lane[..l.n] == lane;
      out := out + [acc];
    }
  }

  /** The rendering both sentence methods share: each lane's text, given the mask of
      positions to blank. */
  method RenderAlong(i2s: seq<Word>, ints: seq<int>, blank: seq<bool>, l: Layout) returns (out: seq<string>)
    requires |ints| == l.Size() && |blank| == |ints| && AllInRange(ints, |i2s|)
    ensures |out| == l.Lanes()
    ensures forall b :: 0 <= b < l.Lanes() ==> out[b] == LaneText(i2s, ints, blank, l, b)
  {
    var written := WriteWords(i2s, ints, blank, l);
    out := SumAlong(written, l);
    forall b | 0 <= b < l.Lanes()
      ensures out[b] == LaneText(i2s, ints, blank, l, b)
    {
      WrittenLane(i2s, ints, blank, l, b, written);
    }
  }

  lemma WrittenLane(i2s: seq<Word>, ints: seq<int>, blank: seq<bool>, l: Layout, b: nat, written: seq<string>)
    requires |ints| == l.Size() && |blank| == |ints| && AllInRange(ints, |i2s|) && b < l.Lanes()
    requires |written| == |ints|
    requires forall q :: 0 <= q < |ints| ==> written[q] == Piece(WordAt(i2s, ints[q]), l.AxisCoord(q), blank[q])
    ensures Lane(written, l, b) == Pieces(WordsAt(i2s, Lane(ints, l, b)), Lane(blank, l, b))
  {
    var lane := Lane(ints, l, b);
    forall j | 0 <= j < l.n
      ensures Lane(written, l, b)[j] == Pieces(WordsAt(i2s, lane), Lane(blank, l, b))[j]
    {
      l.PosCoords(b, j);
      var p := l.Pos(b, j);
      assert lane[j] == ints[p] && Lane(blank, l, b)[j] == blank[p];
    }
  }

  /** Blanking the running mask of the terminator flags leaves each lane's text as
      the lane decoded up to its first terminator. */
  lemma MaskedLaneText(i2s: seq<Word>, ints: seq<int>, flags: seq<bool>, l: Layout, b: nat)
    requires |ints| == l.Size() && |flags| == |ints| && AllInRange(ints, |i2s|) && b < l.Lanes()
    ensures AllInRange(Lane(ints, l, b), |i2s|)
    ensures LaneText(i2s, ints, CumAnyAlong(flags, l), l, b) == DecodeSlice(i2s, Lane(ints, l, b), Lane(flags, l, b))
  {
    var lane := Lane(ints, l, b);
    assert AllInRange(lane, |i2s|);
    CumAnyAlongLanes(flags, l, b);
    PiecesJoin(WordsAt(i2s, lane), Lane(flags, l, b));
  }
}

