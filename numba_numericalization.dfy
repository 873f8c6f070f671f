/** protovoc/numericalization/numba.py: the same frozen index as the numpy variant,
    but unk is moved to the last rank of the reserved block so that a single rank
    threshold (`_cutoff`) tells terminators apart, and the running "seen a
    terminator" mask is computed by an explicit loop over the lanes of the array. */
module NumbaNumericalization {
  import opened Wrappers
  import opened Counts
  import opened Seqs
  import opened BasicVocab
  import opened NdArrays
  import opened Decoding
  import opened Frozen
  import opened Interfaces

  /** `arr < thresh`, elementwise. */
  function BelowFlags(ints: seq<int>, thresh: int): (flags: seq<bool>)
    ensures |flags| == |ints|
    ensures forall p :: 0 <= p < |ints| ==> (flags[p] <==> ints[p] < thresh)
  {
    seq(|ints|, p requires 0 <= p < |ints| => ints[p] < thresh)
  }

  /** Some element from `lo` up to and including `p` is below `thresh`. */
  predicate SeenBelow(arr: seq<int>, thresh: int, lo: nat, p: nat)
    requires lo <= p < |arr|
  {
    exists q :: lo <= q <= p && arr[q] < thresh
  }

  /** `m` flags, within each group of `s` consecutive elements of `arr`, every
      position at or after the group's first element below `thresh`. */
  ghost predicate Stepped(arr: seq<int>, thresh: int, s: nat, m: seq<bool>)
    requires s > 0
  {
    && |m| == |arr|
    && forall p :: 0 <= p < |arr| ==> (m[p] <==> SeenBelow(arr, thresh, p - p % s, p))
  }

  /** `_isin_cumsum_ge0_stepped(arr, thresh, stepsize)`: `arr` is cut into groups of
      `stepsize` consecutive elements, and each position is flagged exactly when an
      element of its own group at or before it is below `thresh`. A zero step
      divides by zero. */
  method IsinCumsumGe0Stepped(arr: seq<int>, thresh: int, stepsize: nat) returns (r: Result<seq<bool>>)
    requires stepsize > 0 ==> |arr| % stepsize == 0
    ensures stepsize == 0 ==> r == Err(ZeroDivisionError)
    ensures stepsize > 0 ==> r.Ok? && Stepped(arr, thresh, stepsize, r.value)
  {
    if stepsize == 0 {
      return Err(ZeroDivisionError);
    }
    var mask := new bool[|arr|];
    var groups := |arr| / stepsize;
    DivMod(|arr|, stepsize);
    for g := 0 to groups
      invariant g * stepsize <= |arr|
      invariant forall p :: 0 <= p < g * stepsize ==> (mask[p] <==> SeenBelow(arr, thresh, p - p % stepsize, p))
    {
      MulLe(g + 1, groups, stepsize);
      var lo, hi := g * stepsize, (g + 1) * stepsize;
      assert hi == lo + stepsize;
      FillGroup(arr, thresh, mask, lo, hi);
      forall p | lo <= p < hi
        ensures p - p % stepsize == lo
      {
        FlatSplit(g, p - lo, stepsize);
      }
    }
    r := Ok(mask[..]);
  }

  /** The inner loop over one group: positions are cleared until the first element
      below `thresh`, and from there to the end of the group set
      (`mask[elem_idx:end] = True`), after which the loop stops. */
  method FillGroup(arr: seq<int>, thresh: int, mask: array<bool>, lo: nat, hi: nat)
    requires lo <= hi <= |arr| == mask.Length
    modifies mask
    ensures forall p :: lo <= p < hi ==> (mask[p] <==> SeenBelow(arr, thresh, lo, p))
    ensures forall p :: 0 <= p < mask.Length && !(lo <= p < hi) ==> mask[p] == old(mask[p])
  {
    var e := lo;
    while e < hi
      invariant lo <= e <= hi
      invariant forall p :: lo <= p < e ==> !mask[p] && arr[p] >= thresh
      invariant forall p :: 0 <= p < mask.Length && !(lo <= p < e) ==> mask[p] == old(mask[p])
    {
      if arr[e] < thresh {
        forall p | e <= p < hi {
          mask[p] := true;
        }
        break;
      }
      mask[e] := false;
      e := e + 1;
    }
    forall p | lo <= p < hi
      ensures mask[p] <==> SeenBelow(arr, thresh, lo, p)
    {
      if mask[p] {
        assert lo <= e <= p && arr[e] < thresh;
      }
    }
  }

  /** `le_or_after(arr, thresh, axis)`: along the axis, every position at or after
      the first rank below `thresh` in its lane. Off the last axis the lanes are first
      laid end to end and the flags put back afterwards; on the last axis the ravel is
      already in lane order. An axis the shape does not have raises IndexError, a
      zero-length one divides by zero. */
  method LeOrAfter(arr: Nd<int>, thresh: int, axis: nat) returns (r: Result<seq<bool>>)
    requires arr.Valid()
    ensures axis >= |arr.shape| ==> r == Err(IndexError)
    ensures axis < |arr.shape| && arr.shape[axis] == 0 ==> r == Err(ZeroDivisionError)
    ensures axis < |arr.shape| && arr.shape[axis] > 0 ==>
      r == Ok(CumAnyAlong(BelowFlags(arr.data, thresh), LayoutOf(arr.shape, axis)))
  {
    if axis >= |arr.shape| {
      return Err(IndexError);
    }
    var l := LayoutOf(arr.shape, axis);
    var stepsize := arr.shape[axis];
    if stepsize > 0 {
      FlatSplit(l.Lanes(), 0, stepsize);
    }
    if axis != |arr.shape| - 1 {
      var flat := MovedRavel(arr.data, l);
      var m := IsinCumsumGe0Stepped(flat, thresh, stepsize);
      if m.Err? {
        return Err(m.error);
      }
      SteppedAlong(arr.data, thresh, l, m.value);
      r := Ok(Restore(m.value, l));
    } else {
      LastAxisLayout(arr.shape, axis);
      LastAxisRavel(arr.data, l);
      var m := IsinCumsumGe0Stepped(arr.data, thresh, stepsize);
      if m.Err? {
        return Err(m.error);
      }
      SteppedAlong(arr.data, thresh, l, m.value);
      LastAxisRestore(m.value, l);
      r := Ok(m.value);
    }
  }

  lemma LastAxisLayout(shape: seq<nat>, axis: nat)
    requires axis == |shape| - 1
    ensures LayoutOf(shape, axis).inner == 1
  {
    assert shape[axis + 1..] == [];
  }

  /** On the last axis lane b is the block at b * n, so the moved ravel is the data. */
  lemma LastAxisRavel<T>(data: seq<T>, l: Layout)
    requires |data| == l.Size() && l.inner == 1
    ensures MovedRavel(data, l) == data
  {
    var flat := MovedRavel(data, l);
    forall q | 0 <= q < |data|
      ensures flat[q] == data[q]
    {
      DivMod(q, l.n);
    }
  }

  lemma LastAxisRestore<T>(flat: seq<T>, l: Layout)
    requires |flat| == l.Lanes() * l.n && l.inner == 1
    ensures Restore(flat, l) == flat
  {
    var back := Restore(flat, l);
    forall p | 0 <= p < |flat|
      ensures back[p] == flat[p]
    {
      l.CoordsPos(p);
    }
  }

  /** The stepped flags over the moved ravel, put back in place, are the running
      "seen a rank below thresh" flag along the axis. */
  lemma SteppedAlong(data: seq<int>, thresh: int, l: Layout, m: seq<bool>)
    requires |data| == l.Size() && l.n > 0 && Stepped(MovedRavel(data, l), thresh, l.n, m)
    ensures |m| == l.Lanes() * l.n
    ensures Restore(m, l) == CumAnyAlong(BelowFlags(data, thresh), l)
  {
    forall b | 0 <= b < l.Lanes()
      ensures Lane(Restore(m, l), l, b) == Lane(CumAnyAlong(BelowFlags(data, thresh), l), l, b)
    {
      SteppedLane(data, thresh, l, m, b);
    }
    LanesDetermine(Restore(m, l), CumAnyAlong(BelowFlags(data, thresh), l), l);
  }

  lemma SteppedLane(data: seq<int>, thresh: int, l: Layout, m: seq<bool>, b: nat)
    requires |data| == l.Size() && l.n > 0 && Stepped(MovedRavel(data, l), thresh, l.n, m)
    requires b < l.Lanes()
    ensures |m| == l.Lanes() * l.n
    ensures Lane(Restore(m, l), l, b) == Lane(CumAnyAlong(BelowFlags(data, thresh), l), l, b)
  {
    var below, n := BelowFlags(data, thresh), l.n;
    RestoreLane(m, l, b);
    CumAnyAlongLanes(below, l, b);
    var block := m[b * n..(b + 1) * n];
    assert block == CumAny(Lane(below, l, b)) by {
      forall j | 0 <= j < n
        ensures block[j] == CumAny(Lane(below, l, b))[j]
      {
        SteppedAt(data, thresh, l, m, b, j);
      }
    }
  }

  /** One position of lane b's block in the stepped mask. */
  lemma SteppedAt(data: seq<int>, thresh: int, l: Layout, m: seq<bool>, b: nat, j: nat)
    requires |data| == l.Size() && l.n > 0 && Stepped(MovedRavel(data, l), thresh, l.n, m)
    requires b < l.Lanes() && j < l.n
    ensures b * l.n + j < |m|
    ensures m[b * l.n + j] == CumAny(Lane(BelowFlags(data, thresh), l, b))[j]
  {
    var flat, p := MovedRavel(data, l), b * l.n + j;
    SeenBelowLane(data, thresh, l, b, j);
    FlatSplit(b, j, l.n);
    assert p < |flat| && p - p % l.n == b * l.n;
    assert m[p] <==> SeenBelow(flat, thresh, b * l.n, p);
  }

  /** Within the block of lane b in the moved ravel, "some rank below thresh so far"
      is the running flag of that lane. */
  lemma SeenBelowLane(data: seq<int>, thresh: int, l: Layout, b: nat, j: nat)
    requires |data| == l.Size() && b < l.Lanes() && j < l.n
    ensures b * l.n + j < l.Lanes() * l.n
    ensures SeenBelow(MovedRavel(data, l), thresh, b * l.n, b * l.n + j) == CumAny(Lane(BelowFlags(data, thresh), l, b))[j]
  {
    var flat, lane := MovedRavel(data, l), Lane(BelowFlags(data, thresh), l, b);
    var lo := b * l.n;
    MovedRavelBlock(data, l, b);
    forall i | 0 <= i < l.n
      ensures lane[i] <==> flat[lo + i] < thresh
    {
      assert flat[lo + i] == flat[lo..lo + l.n][i];
    }
    SeenBelowBlock(flat, thresh, lo, lane, j);
  }

  /** The running flag of a block, stated on the flat sequence it lies in. */
  lemma SeenBelowBlock(flat: seq<int>, thresh: int, lo: nat, lane: seq<bool>, j: nat)
    requires lo + |lane| <= |flat| && j < |lane|
    requires forall i :: 0 <= i < |lane| ==> (lane[i] <==> flat[lo + i] < thresh)
    ensures SeenBelow(flat, thresh, lo, lo + j) == CumAny(lane)[j]
  {
    CumAnySeen(lane, j);
    if SeenBelow(flat, thresh, lo, lo + j) {
      SeenInLane(flat, thresh, lo, lane, j);
    }
    if CumAny(lane)[j] {
      SeenInFlat(flat, thresh, lo, lane, j);
    }
  }

  lemma SeenInLane(flat: seq<int>, thresh: int, lo: nat, lane: seq<bool>, j: nat)
    requires lo + |lane| <= |flat| && j < |lane|
    requires forall i :: 0 <= i < |lane| ==> (lane[i] <==> flat[lo + i] < thresh)
    requires SeenBelow(flat, thresh, lo, lo + j)
    ensures exists i :: 0 <= i <= j && lane[i]
  {
    var q :| lo <= q <= lo + j && flat[q] < thresh;
    assert lane[q - lo];
  }

  lemma SeenInFlat(flat: seq<int>, thresh: int, lo: nat, lane: seq<bool>, j: nat)
    requires lo + |lane| <= |flat| && j < |lane|
    requires forall i :: 0 <= i < |lane| ==> (lane[i] <==> flat[lo + i] < thresh)
    requires exists i :: 0 <= i <= j && lane[i]
    ensures SeenBelow(flat, thresh, lo, lo + j)
  {
    var i :| 0 <= i <= j && lane[i];
    assert flat[lo + i] < thresh;
  }

  /** A reserved word's rank lies in the reserved block. */
  lemma BlockRank(cts: seq<Count>, i2s: seq<Word>, s2i: map<Word, nat>, reserved: set<Word>, w: Word)
    requires Indexed(cts, i2s, s2i, reserved) && w in reserved
    ensures w in s2i && s2i[w] < |reserved| && cts[s2i[w]] == Inf
  {
    var k :| 0 <= k < |reserved| && i2s[..|reserved|][k] == w;
    assert i2s[k] == w;
  }

  /** `__init__` lines 89-98: when unk does not already hold the last rank of the
      reserved block, it trades places with the word there, in `i2s`, in `s2i` and
      (both counts being infinite) in `cts`. */
  method MoveUnkLast(unk: Option<Word>, reserved: set<Word>, cts: seq<Count>, i2s: seq<Word>, s2i: map<Word, nat>,
                     ghost counts: map<Word, Count>)
    returns (ctsMoved: seq<Count>, i2sMoved: seq<Word>, s2iMoved: map<Word, nat>)
    requires Indexed(cts, i2s, s2i, reserved) && UnkSet(unk) <= reserved
    requires unk.Some? ==> Truthy(unk)
    requires CountsMatch(cts, i2s, counts)
    ensures Indexed(ctsMoved, i2sMoved, s2iMoved, reserved)
    ensures ctsMoved == cts && multiset(i2sMoved) == multiset(i2s)
    ensures CountsMatch(ctsMoved, i2sMoved, counts)
    ensures Truthy(unk) ==> unk.value in s2iMoved && s2iMoved[unk.value] == |reserved| - 1
    ensures Truthy(unk) ==> unk.value in s2i && i2sMoved[s2i[unk.value]] == i2s[|reserved| - 1]
    ensures !Truthy(unk) ==> i2sMoved == i2s && s2iMoved == s2i
    ensures Truthy(unk) ==> unk.value in s2i && RanksKept(i2s, i2sMoved, s2i[unk.value], |reserved| - 1)
    ensures Truthy(unk) ==> WordsKept(s2i, s2iMoved, unk.value, i2s[|reserved| - 1])
  {
    ctsMoved, i2sMoved, s2iMoved := cts, i2s, s2i;
    if unk.Some? {
      BlockRank(cts, i2s, s2i, reserved, unk.value);
      var unkAt := s2iMoved[unk.value];
      if unkAt != |reserved| - 1 {
        var unkTo := |reserved| - 1;
        s2iMoved := s2iMoved[unk.value := unkTo];
        var wasAtUnkTo := i2sMoved[unkTo];
        s2iMoved := s2iMoved[wasAtUnkTo := unkAt];
        i2sMoved := i2sMoved[unkAt := i2sMoved[unkTo]][unkTo := i2sMoved[unkAt]];
        ctsMoved := ctsMoved[unkAt := ctsMoved[unkTo]][unkTo := ctsMoved[unkTo]];
        UnkSwapped(unk.value, reserved, cts, i2s, s2i, counts, ctsMoved, i2sMoved, s2iMoved);
        SwapFrame(i2s, s2i, unkAt, unkTo);
        assert i2s[unkAt] == unk.value;
      } else {
        assert RanksKept(i2s, i2sMoved, unkAt, |reserved| - 1);
        assert WordsKept(s2i, s2iMoved, unk.value, i2s[|reserved| - 1]);
      }
    }
  }

  /** Every rank other than i and j holds the same word in both sequences. */
  ghost predicate RanksKept(i2s: seq<Word>, i2sMoved: seq<Word>, i: nat, j: nat)
  {
    |i2sMoved| == |i2s| && forall k :: 0 <= k < |i2s| && k != i && k != j ==> i2sMoved[k] == i2s[k]
  }

  /** Every word other than a and b keeps its rank in both maps. */
  ghost predicate WordsKept(s2i: map<Word, nat>, s2iMoved: map<Word, nat>, a: Word, b: Word)
  {
    forall w :: w in s2i && w != a && w != b ==> w in s2iMoved && s2iMoved[w] == s2i[w]
  }

  /** Exchanging the words on ranks i and j, and their entries in the inverse,
      leaves every other rank and every other word where it was. */
  lemma SwapFrame(i2s: seq<Word>, s2i: map<Word, nat>, i: nat, j: nat)
    requires i < |i2s| && j < |i2s|
    ensures RanksKept(i2s, i2s[i := i2s[j]][j := i2s[i]], i, j)
    ensures WordsKept(s2i, s2i[i2s[i] := j][i2s[j] := i], i2s[i], i2s[j])
  {
  }

  /** What the exchange of unk with the word on the last reserved rank keeps and
      what it changes. */
  lemma UnkSwapped(u: Word, reserved: set<Word>, cts: seq<Count>, i2s: seq<Word>, s2i: map<Word, nat>,
                   counts: map<Word, Count>, ctsMoved: seq<Count>, i2sMoved: seq<Word>, s2iMoved: map<Word, nat>)
    requires Indexed(cts, i2s, s2i, reserved) && u in reserved
    requires CountsMatch(cts, i2s, counts)
    requires u in s2i && s2i[u] < |reserved| && s2i[u] != |reserved| - 1
    requires var i, j := s2i[u], |reserved| - 1;
      && s2iMoved == s2i[u := j][i2s[j] := i]
      && i2sMoved == i2s[i := i2s[j]][j := i2s[i]]
      && ctsMoved == cts[i := cts[j]][j := cts[j]]
    ensures Indexed(ctsMoved, i2sMoved, s2iMoved, reserved)
    ensures ctsMoved == cts && multiset(i2sMoved) == multiset(i2s)
    ensures CountsMatch(ctsMoved, i2sMoved, counts)
    ensures u in s2iMoved && s2iMoved[u] == |reserved| - 1
    ensures i2sMoved[s2i[u]] == i2s[|reserved| - 1]
  {
    var i, j := s2i[u], |reserved| - 1;
    IndexedRank(cts, i2s, s2i, reserved, u);
    assert i2s[j] != u;
    MovedIndexed(cts, i2s, s2i, reserved, i, j, ctsMoved, i2sMoved, s2iMoved);
    SwapMultiset(i2s, i, j);
    SwapCounts(i2s, cts, counts, i, j, i2sMoved, ctsMoved);
  }

  /** Every rank's count is its word's count. */
  ghost predicate CountsMatch(cts: seq<Count>, i2s: seq<Word>, counts: map<Word, Count>)
  {
    |cts| == |i2s| && forall k :: 0 <= k < |i2s| ==> i2s[k] in counts && cts[k] == counts[i2s[k]]
  }

  /** Exchanging two words of equal count keeps every rank's count its word's count. */
  lemma SwapCounts(i2s: seq<Word>, cts: seq<Count>, counts: map<Word, Count>, i: nat, j: nat,
                    swapped: seq<Word>, ctsSwapped: seq<Count>)
    requires |i2s| == |cts| && i < |i2s| && j < |i2s| && cts[i] == cts[j]
    requires CountsMatch(cts, i2s, counts)
    requires swapped == i2s[i := i2s[j]][j := i2s[i]] && ctsSwapped == cts[i := cts[j]][j := cts[j]]
    ensures CountsMatch(ctsSwapped, swapped, counts)
  {
  }

  /** Exchanging two ranks of the reserved block keeps the index an index. */
  lemma MovedIndexed(cts: seq<Count>, i2s: seq<Word>, s2i: map<Word, nat>, reserved: set<Word>, i: nat, j: nat,
                      ctsMoved: seq<Count>, i2sMoved: seq<Word>, s2iMoved: map<Word, nat>)
    requires Indexed(cts, i2s, s2i, reserved) && i < |reserved| && j < |reserved|
    requires ctsMoved == cts[i := cts[j]][j := cts[j]] && i2sMoved == i2s[i := i2s[j]][j := i2s[i]]
    requires s2iMoved == s2i[i2s[i] := j][i2s[j] := i]
    ensures ctsMoved == cts
    ensures Indexed(ctsMoved, i2sMoved, s2iMoved, reserved)
  {
    assert cts[i] == Inf && cts[j] == Inf;
    assert Distinct(i2sMoved) && s2iMoved == IndexMap(i2sMoved) by {
      IndexMapSwap(i2s, i, j);
    }
    assert Elems(i2sMoved[..|reserved|]) == reserved by {
      SwapPrefixElems(i2s, i, j, |reserved|);
    }
  }

  /** The state `__init__` leaves: the frozen index with unk on the last reserved
      rank, and the `integer` interface's unk rank, which was read before the move
      and so is some rank of the reserved block. */
  ghost predicate Captured(specials: set<Word>, unk: Option<Word>, specialsWithUnk: set<Word>,
                           cts: seq<Count>, i2s: seq<Word>, s2i: map<Word, nat>, intUnk: Option<nat>)
  {
    && specialsWithUnk == specials + UnkSet(unk)
    && Indexed(cts, i2s, s2i, specialsWithUnk)
    && (Truthy(unk) ==> unk.value in s2i && s2i[unk.value] == |specialsWithUnk| - 1)
    && (if Truthy(unk) then intUnk.Some? && intUnk.value < |specialsWithUnk| else intUnk == None)
  }

  /** As Captured, with the interface's unk rank pointing at unk's rank after the
      move, the last reserved rank: what `strip` installs, and what `__init__` was
      evidently meant to install. */
  ghost predicate Coherent(specials: set<Word>, unk: Option<Word>, specialsWithUnk: set<Word>,
                           cts: seq<Count>, i2s: seq<Word>, s2i: map<Word, nat>, intUnk: Option<nat>)
  {
    && Captured(specials, unk, specialsWithUnk, cts, i2s, s2i, intUnk)
    && intUnk == (if Truthy(unk) then Some(|specialsWithUnk| - 1) else None)
  }

  /** `__init__` up to the `integer` interface: the vocabulary frozen by count, unk
      moved to the last reserved rank, and the interface given unk's rank as it
      stands after the move. */
  method FreezeMoved(specials: set<Word>, unk: Option<Word>, specialsWithUnk: set<Word>, voc: Counter)
    returns (cts: seq<Count>, i2s: seq<Word>, s2i: map<Word, nat>, intUnk: Option<nat>)
    requires voc.Valid() && specialsWithUnk == specials + UnkSet(unk)
    requires unk.Some? ==> Truthy(unk)
    requires forall w :: w in specialsWithUnk ==> w in voc.counts && voc.counts[w] == Inf
    requires forall w :: w in voc.counts && voc.counts[w] == Inf ==> w in specialsWithUnk
    ensures Coherent(specials, unk, specialsWithUnk, cts, i2s, s2i, intUnk)
    ensures multiset(i2s) == multiset(voc.keys)
    ensures forall k :: 0 <= k < |i2s| ==> i2s[k] in voc.counts && cts[k] == voc.counts[i2s[k]]
  {
    var order, counts, index := Freeze(voc.keys, voc.counts, specialsWithUnk);
    cts, i2s, s2i := MoveUnkLast(unk, specialsWithUnk, counts, order, index, voc.counts);
    intUnk := if Truthy(unk) then Some(s2i[unk.value]) else None;
    MovedCoherent(specials, unk, specialsWithUnk, cts, i2s, s2i, intUnk);
  }

  lemma MovedCoherent(specials: set<Word>, unk: Option<Word>, specialsWithUnk: set<Word>,
                      cts: seq<Count>, i2s: seq<Word>, s2i: map<Word, nat>, intUnk: Option<nat>)
    requires specialsWithUnk == specials + UnkSet(unk) && Indexed(cts, i2s, s2i, specialsWithUnk)
    requires Truthy(unk) ==> unk.value in s2i && s2i[unk.value] == |specialsWithUnk| - 1
    requires intUnk == if Truthy(unk) then Some(s2i[unk.value]) else None
    ensures Coherent(specials, unk, specialsWithUnk, cts, i2s, s2i, intUnk)
  {
  }

  /** `__init__` lines 78-98 as written: the `integer` interface is handed unk's rank
      in the freeze order, before unk is moved, so whenever the move happens an
      unknown word's rank reads back as the word moved out of the last reserved rank
      instead of unk. */
  method FreezeMovedAsWritten(specials: set<Word>, unk: Option<Word>, specialsWithUnk: set<Word>, voc: Counter)
    returns (cts: seq<Count>, i2s: seq<Word>, s2i: map<Word, nat>, intUnk: Option<nat>)
    requires voc.Valid() && specialsWithUnk == specials + UnkSet(unk)
    requires unk.Some? ==> Truthy(unk)
    requires forall w :: w in specialsWithUnk ==> w in voc.counts && voc.counts[w] == Inf
    requires forall w :: w in voc.counts && voc.counts[w] == Inf ==> w in specialsWithUnk
    ensures Captured(specials, unk, specialsWithUnk, cts, i2s, s2i, intUnk)
    ensures multiset(i2s) == multiset(voc.keys)
    ensures forall k :: 0 <= k < |i2s| ==> i2s[k] in voc.counts && cts[k] == voc.counts[i2s[k]]
    ensures Truthy(unk) ==> intUnk == Some(IndexMap(FreezeOrder(voc.keys, voc.counts))[unk.value])
    ensures Truthy(unk) ==> i2s[intUnk.value] == FreezeOrder(voc.keys, voc.counts)[|specialsWithUnk| - 1]
    ensures intUnk.Some? ==>
      (StrOf(i2s, intUnk.value) == Ok(unk.value) <==> intUnk.value == |specialsWithUnk| - 1)
  {
    var order, counts, index := Freeze(voc.keys, voc.counts, specialsWithUnk);
    intUnk := if Truthy(unk) then Some(index[unk.value]) else None;
    cts, i2s, s2i := MoveUnkLast(unk, specialsWithUnk, counts, order, index, voc.counts);
    StaleCaptured(specials, unk, specialsWithUnk, counts, order, index, cts, i2s, s2i, intUnk);
  }

  /** The unk rank read from the freeze order, before the move, is a rank of the
      reserved block; after the move it holds the word that was on the last reserved
      rank, so it reads back as unk exactly when it is that rank. */
  lemma StaleCaptured(specials: set<Word>, unk: Option<Word>, specialsWithUnk: set<Word>,
                      counts: seq<Count>, order: seq<Word>, index: map<Word, nat>,
                      cts: seq<Count>, i2s: seq<Word>, s2i: map<Word, nat>, intUnk: Option<nat>)
    requires specialsWithUnk == specials + UnkSet(unk)
    requires Indexed(counts, order, index, specialsWithUnk) && Indexed(cts, i2s, s2i, specialsWithUnk)
    requires Truthy(unk) ==> unk.value in s2i && s2i[unk.value] == |specialsWithUnk| - 1
    requires Truthy(unk) ==> unk.value in index && i2s[index[unk.value]] == order[|specialsWithUnk| - 1]
    requires intUnk == if Truthy(unk) then Some(index[unk.value]) else None
    ensures Captured(specials, unk, specialsWithUnk, cts, i2s, s2i, intUnk)
    ensures Truthy(unk) ==> i2s[intUnk.value] == order[|specialsWithUnk| - 1]
    ensures intUnk.Some? ==>
      (StrOf(i2s, intUnk.value) == Ok(unk.value) <==> intUnk.value == |specialsWithUnk| - 1)
  {
    if Truthy(unk) {
      var u, r := unk.value, index[unk.value];
      assert u in specialsWithUnk;
      BlockRank(counts, order, index, specialsWithUnk, u);
      assert r < |i2s|;
      RankReadsBack(i2s, s2i, u, r);
      assert StrOf(i2s, r) == Ok(i2s[r]);
    }
  }

  /** In an index without repetitions, a rank holds w exactly when it is w's rank. */
  lemma RankReadsBack(i2s: seq<Word>, s2i: map<Word, nat>, w: Word, r: nat)
    requires Distinct(i2s) && s2i == IndexMap(i2s) && w in s2i && r < |i2s|
    ensures i2s[r] == w <==> r == s2i[w]
  {
  }

  /** `Vocab({"<pad>"}, "UNK")`, whose counter holds "<pad>" and then "UNK", both
      inf: the freeze order puts the later-inserted "UNK" first, so unk's captured
      rank (0) is not the last reserved rank (1), and FreezeMovedAsWritten's
      interface reads back "<pad>", the word the move puts on rank 0. */
  lemma StaleUnkRankExample(keys: seq<Word>, counts: map<Word, Count>, reserved: set<Word>)
    requires keys == ["<pad>", "UNK"] && counts == map["UNK" := Inf, "<pad>" := Inf]
    requires reserved == {"<pad>"} + UnkSet(Some("UNK"))
    ensures Counter(keys, counts).Valid()
    ensures reserved == {"UNK", "<pad>"} && |reserved| == 2
    ensures FreezeOrder(keys, counts) == ["UNK", "<pad>"]
    ensures IndexMap(FreezeOrder(keys, counts))["UNK"] == 0 != |reserved| - 1
    ensures FreezeOrder(keys, counts)[|reserved| - 1] == "<pad>"
  {
    assert "UNK" != "<pad>" by {
      assert |"UNK"| != |"<pad>"|;
    }
    TiedFreezeOrder(keys, counts);
    var r := FreezeOrder(keys, counts);
    assert r[0] == "UNK";
  }

  /** Freezing "<pad>" and then "UNK", both inf, ranks the later-inserted "UNK" first. */
  lemma TiedFreezeOrder(keys: seq<Word>, counts: map<Word, Count>)
    requires keys == ["<pad>", "UNK"] && counts == map["UNK" := Inf, "<pad>" := Inf]
    ensures Elems(keys) == counts.Keys
    ensures FreezeOrder(keys, counts) == ["UNK", "<pad>"]
  {
    assert Elems(keys) == counts.Keys by {
      assert keys[0] == "<pad>" && keys[1] == "UNK";
    }
    assert Reversed(keys) == ["UNK", "<pad>"];
    TiedInfOrder(counts);
  }

  /** Two infinite counts tie, so the stable sort keeps their insertion order. */
  lemma TiedInfOrder(counts: map<Word, Count>)
    requires counts == map["UNK" := Inf, "<pad>" := Inf]
    ensures Ranking.SortDesc(["UNK", "<pad>"], counts) == ["UNK", "<pad>"]
  {
    var keys := ["UNK", "<pad>"];
    assert keys[..1] == ["UNK"];
    assert Ranking.SortDesc(["UNK"], counts) == ["UNK"] by {
      assert ["UNK"][..0] == [];
    }
    assert Ranking.Insert("<pad>", ["UNK"], counts) == keys by {
      assert Ge(counts["UNK"], counts["<pad>"]);
      assert ["UNK"][1..] == [];
    }
  }

  class Numericalization {
    const specials: set<Word>
    const unk: Option<Word>
    const specialsWithUnk: set<Word>
    /** `_n_spec`: the size of the reserved block. */
    const nSpec: nat := |specialsWithUnk|
    var cts: seq<Count>
    var i2s: seq<Word>
    var s2i: map<Word, nat>
    /** The `unk` attribute of the `integer` interface, absent for a falsy unk. */
    var intUnk: Option<nat>
    /** `_cutoff`: ranks below it end a sentence. */
    var cutoff: int

    ghost predicate Core()
      reads this`cts, this`i2s, this`s2i, this`intUnk
    {
      Captured(specials, unk, specialsWithUnk, cts, i2s, s2i, intUnk)
    }

    ghost predicate Valid()
      reads this`cts, this`i2s, this`s2i, this`intUnk, this`cutoff
    {
      Core() && (cutoff == nSpec || cutoff == nSpec - 1)
    }

    /** `Numericalization(vocab)`: ranks by count, highest first, with unk on the last
        rank of the reserved block; the `integer` interface keeps unk's rank from
        before the move; unk is not permitted in sentences. */
    constructor (vocab: Vocab)
      requires vocab.Valid()
      requires vocab.unk.Some? ==> Truthy(vocab.unk)
      ensures Valid()
      ensures specials == vocab.specials && unk == vocab.unk && specialsWithUnk == vocab.specialsWithUnk
      ensures multiset(i2s) == multiset(vocab.s2c.keys)
      ensures forall k :: 0 <= k < |i2s| ==> i2s[k] in vocab.s2c.counts && cts[k] == vocab.s2c.counts[i2s[k]]
      ensures Truthy(unk) ==> intUnk == Some(IndexMap(FreezeOrder(vocab.s2c.keys, vocab.s2c.counts))[unk.value])
      ensures cutoff == nSpec
    {
      var counts, order, index, unkRank := FreezeMovedAsWritten(vocab.specials, vocab.unk, vocab.specialsWithUnk, vocab.s2c);
      specials := vocab.specials;
      unk := vocab.unk;
      specialsWithUnk := vocab.specialsWithUnk;
      new;
      Replace(counts, order, index, unkRank);
      PermitUnk(false);
    }

    /** `permit_unk(val)`: with val set and a truthy unk, the threshold drops below
        unk's rank so unk renders as a word; otherwise every reserved rank ends a
        sentence. */
    method PermitUnk(val: bool)
      requires Core()
      modifies this
      ensures Valid()
      ensures cutoff == if val && Truthy(unk) then nSpec - 1 else nSpec
      ensures cts == old(cts) && i2s == old(i2s) && s2i == old(s2i) && intUnk == old(intUnk)
    {
      if val && Truthy(unk) {
        cutoff := nSpec - 1;
      } else {
        cutoff := nSpec;
      }
    }

    /** `permit_unk(val)` as written: the threshold drops by one whether or not there
        is an unk to exclude. */
    method PermitUnkAsWritten(val: bool)
      requires Core()
      modifies this
      ensures Valid()
      ensures cutoff == if val then nSpec - 1 else nSpec
      ensures cts == old(cts) && i2s == old(i2s) && s2i == old(s2i) && intUnk == old(intUnk)
    {
      if val {
        cutoff := nSpec - 1;
      } else {
        cutoff := nSpec;
      }
    }

    /** `len(num)`: the number of ranks, which is the number of distinct words. */
    function Len(): (n: nat)
      reads this
      requires Valid()
      ensures n == |i2s| && n == |s2i|
    {
      DistinctCard(i2s);
      |cts|
    }

    /** `sentence(integers, axis)`: along the axis, each lane of ranks becomes the
        words before its first rank below the threshold, joined by single spaces; the
        result drops that axis. A rank outside the index raises first, then an axis
        the array does not have, then a zero-length axis. */
    method Sentence(integers: Nd<int>, axis: nat) returns (r: Result<Nd<string>>)
      requires Valid() && integers.Valid() && |integers.shape| >= 1
      ensures !AllInRange(integers.data, |i2s|) ==> r == Err(IndexError)
      ensures AllInRange(integers.data, |i2s|) && axis >= |integers.shape| ==> r == Err(IndexError)
      ensures AllInRange(integers.data, |i2s|) && axis < |integers.shape| && integers.shape[axis] == 0 ==>
        r == Err(ZeroDivisionError)
      ensures AllInRange(integers.data, |i2s|) && axis < |integers.shape| && integers.shape[axis] > 0 ==>
        && r.Ok?
        && r.value.Valid()
        && r.value.shape == DropAt(integers.shape, axis)
        && var l := LayoutOf(integers.shape, axis);
           var stops := BelowFlags(integers.data, cutoff);
           forall b :: 0 <= b < l.Lanes() ==>
             && AllInRange(Lane(integers.data, l, b), |i2s|)
             && r.value.data[b] == DecodeSlice(i2s, Lane(integers.data, l, b), Lane(stops, l, b))
    {
      if !AllInRange(integers.data, |i2s|) {
        return Err(IndexError);
      }
      var mask := LeOrAfter(integers, cutoff, axis);
      if mask.Err? {
        return Err(mask.error);
      }
      var l := LayoutOf(integers.shape, axis);
      var out := RenderAlong(i2s, integers.data, mask.value, l);
      forall b | 0 <= b < l.Lanes()
        ensures AllInRange(Lane(integers.data, l, b), |i2s|)
        ensures out[b] == DecodeSlice(i2s, Lane(integers.data, l, b), Lane(BelowFlags(integers.data, cutoff), l, b))
      {
        MaskedLaneText(i2s, integers.data, BelowFlags(integers.data, cutoff), l, b);
      }
      r := Ok(Nd(DropAt(integers.shape, axis), out));
    }

    /** `strip(n_to_keep, min_freq, minimal)`: keep the first KeptLength ranks and
        rebuild the lookups and the `integer` interface over them. unk keeps the last
        reserved rank; when ranks are cut, the interface's unk rank is read again and
        so becomes that rank, and when none are cut it stays as it was. */
    method Strip(nToKeep: Limit, minFreq: int, minimal: bool)
      requires Valid()
      modifies this
      ensures Valid()
      ensures var k := KeptLength(old(cts), nToKeep, minFreq, minimal, nSpec);
        cts == old(cts)[..k] && i2s == old(i2s)[..k]
      ensures intUnk == if |cts| < |old(cts)| && Truthy(unk) then Some(|specialsWithUnk| - 1) else old(intUnk)
      ensures cutoff == old(cutoff)
    {
      var ctsKept, i2sKept, index, unkRank := StripTo(specials, unk, specialsWithUnk, cts, i2s, s2i, intUnk, nToKeep, minFreq, minimal);
      Replace(ctsKept, i2sKept, index, unkRank);
    }

    /** Install a new index and its `integer` interface, as the end of `strip` does. */
    method Replace(newCts: seq<Count>, newI2s: seq<Word>, newS2i: map<Word, nat>, newIntUnk: Option<nat>)
      modifies this
      ensures cts == newCts && i2s == newI2s && s2i == newS2i && intUnk == newIntUnk
      ensures cutoff == old(cutoff)
    {
      cts, i2s, s2i, intUnk := newCts, newI2s, newS2i, newIntUnk;
    }
  }

  /** The values `strip` leaves behind: the index unchanged when KeptLength reaches
      the end, otherwise cut to the first KeptLength ranks (never into the reserved
      block) with the unk rank read again. */
  method StripTo(specials: set<Word>, unk: Option<Word>, specialsWithUnk: set<Word>,
                 cts: seq<Count>, i2s: seq<Word>, s2i: map<Word, nat>, intUnk: Option<nat>,
                 nToKeep: Limit, minFreq: int, minimal: bool)
    returns (ctsKept: seq<Count>, i2sKept: seq<Word>, index: map<Word, nat>, unkRank: Option<nat>)
    requires Captured(specials, unk, specialsWithUnk, cts, i2s, s2i, intUnk)
    ensures Captured(specials, unk, specialsWithUnk, ctsKept, i2sKept, index, unkRank)
    ensures var k := KeptLength(cts, nToKeep, minFreq, minimal, |specialsWithUnk|);
      ctsKept == cts[..k] && i2sKept == i2s[..k]
    ensures unkRank == if |ctsKept| < |cts| && Truthy(unk) then Some(|specialsWithUnk| - 1) else intUnk
  {
    var k := KeepCount(cts, nToKeep, minFreq, minimal, |specialsWithUnk|);
    if k >= |cts| {
      assert cts[..k] == cts && i2s[..k] == i2s;
      return cts, i2s, s2i, intUnk;
    }
    assert |specialsWithUnk| <= k by {
      KeptReserved(cts, nToKeep, minFreq, minimal, |specialsWithUnk|);
    }
    ctsKept, i2sKept, index, unkRank := StripIndex(specials, unk, specialsWithUnk, cts, i2s, s2i, intUnk, k);
  }

  /** The index cut to its first k ranks, the word-to-rank map rebuilt and the unk
      rank read again from it, which is unk's rank after the move. */
  method StripIndex(specials: set<Word>, unk: Option<Word>, specialsWithUnk: set<Word>,
                    cts: seq<Count>, i2s: seq<Word>, s2i: map<Word, nat>, intUnk: Option<nat>, k: nat)
    returns (ctsKept: seq<Count>, i2sKept: seq<Word>, index: map<Word, nat>, unkRank: Option<nat>)
    requires Captured(specials, unk, specialsWithUnk, cts, i2s, s2i, intUnk)
    requires |specialsWithUnk| <= k <= |cts|
    ensures Coherent(specials, unk, specialsWithUnk, ctsKept, i2sKept, index, unkRank)
    ensures ctsKept == cts[..k] && i2sKept == i2s[..k]
  {
    IndexedPrefix(cts, i2s, s2i, specialsWithUnk, k);
    ctsKept, i2sKept := cts[..k], i2s[..k];
    index := IndexMap(i2sKept);
    if Truthy(unk) {
      unkRank := Some(index[unk.value]);
    } else {
      unkRank := None;
    }
  }

  /** With the default threshold a rank ends a sentence exactly when its word is
      reserved; with unk permitted, exactly when its word is reserved and is not
      unk. */
  lemma Terminators(num: Numericalization)
    requires num.Valid()
    ensures num.cutoff == num.nSpec ==>
      forall r :: 0 <= r < |num.i2s| ==> (r < num.cutoff <==> num.i2s[r] in num.specialsWithUnk)
    ensures num.cutoff != num.nSpec ==>
      forall r :: 0 <= r < |num.i2s| ==> (r < num.cutoff <==> num.i2s[r] in num.specialsWithUnk && r != num.nSpec - 1)
    ensures num.cutoff != num.nSpec && Truthy(num.unk) ==>
      forall r :: 0 <= r < |num.i2s| ==> (r < num.cutoff <==> num.i2s[r] in num.specialsWithUnk - {num.unk.value})
  {
    ReservedBlock(num.cts, num.i2s, num.s2i, num.specialsWithUnk);
    if num.cutoff != num.nSpec && Truthy(num.unk) {
      var u := num.unk.value;
      assert u in num.s2i && num.s2i[u] == num.nSpec - 1;
      forall r | 0 <= r < |num.i2s|
        ensures num.i2s[r] == u <==> r == num.nSpec - 1
      {
        RankReadsBack(num.i2s, num.s2i, u, r);
      }
    }
  }

  /** Rank r holds a reserved word exactly when r lies in the reserved block. */
  lemma ReservedBlock(cts: seq<Count>, i2s: seq<Word>, s2i: map<Word, nat>, reserved: set<Word>)
    requires Indexed(cts, i2s, s2i, reserved)
    ensures forall r :: 0 <= r < |i2s| ==> (r < |reserved| <==> i2s[r] in reserved)
  {
    forall r | 0 <= r < |i2s|
      ensures r < |reserved| <==> i2s[r] in reserved
    {
      if r < |reserved| {
        assert i2s[r] == i2s[..|reserved|][r];
      } else if i2s[r] in reserved {
        BlockRank(cts, i2s, s2i, reserved, i2s[r]);
      }
    }
  }

  /** With no truthy unk, `permit_unk(True)` as written stops treating the last
      reserved rank as a terminator, although a special lives there: a sentence
      made of that rank alone decodes to the special instead of "". */
  lemma PermitWithoutUnk(num: Numericalization)
    requires num.Valid() && !Truthy(num.unk) && num.nSpec > 0 && num.cutoff == num.nSpec - 1
    ensures num.nSpec - 1 < |num.i2s| && num.i2s[num.nSpec - 1] in num.specials
    ensures !(num.nSpec - 1 < num.cutoff)
    ensures AllInRange([num.nSpec - 1], |num.i2s|)
    ensures DecodeSlice(num.i2s, [num.nSpec - 1], BelowFlags([num.nSpec - 1], num.cutoff)) == num.i2s[num.nSpec - 1]
  {
    ReservedBlock(num.cts, num.i2s, num.s2i, num.specialsWithUnk);
    SingleRankText(num.i2s, num.nSpec - 1, num.cutoff);
  }

  /** A sentence of one rank that is not a terminator decodes to that rank's word. */
  lemma SingleRankText(i2s: seq<Word>, r: nat, thresh: int)
    requires r < |i2s| && thresh <= r
    ensures AllInRange([r], |i2s|)
    ensures DecodeSlice(i2s, [r], BelowFlags([r], thresh)) == i2s[r]
  {
    assert BelowFlags([r], thresh) == [false];
    DecodeSliceEnds(i2s, [r], [false]);
    assert WordsAt(i2s, [r]) == [i2s[r]];
  }

  /** A word in the index maps to its rank and back (`string[integer[w]] == w`). */
  lemma KnownWordRoundTrip(num: Numericalization, w: Word)
    requires num.Valid() && w in num.s2i
    ensures IntOf(num.s2i, num.intUnk, w) == Ok(num.s2i[w] as int)
    ensures StrOf(num.i2s, num.s2i[w]) == Ok(w)
  {
  }

  /** A word outside the index maps to the interface's unk rank, unk's rank from
      before the move: a rank of the reserved block, holding a reserved word, that
      reads back as unk exactly when it is the last reserved rank. With no truthy
      unk the lookup raises KeyError. */
  lemma UnknownWord(num: Numericalization, w: Word)
    requires num.Valid() && w !in num.s2i
    ensures Truthy(num.unk) ==> IntOf(num.s2i, num.intUnk, w) == Ok(num.intUnk.value) && num.intUnk.value < num.nSpec
    ensures Truthy(num.unk) ==> num.nSpec <= |num.i2s| && num.i2s[num.intUnk.value] in num.specialsWithUnk
    ensures Truthy(num.unk) ==>
      (StrOf(num.i2s, num.intUnk.value) == Ok(num.unk.value) <==> num.intUnk.value == num.nSpec - 1)
    ensures !Truthy(num.unk) ==> IntOf(num.s2i, num.intUnk, w) == Err(KeyError)
  {
    if Truthy(num.unk) {
      var u, r := num.unk.value, num.intUnk.value;
      ReservedBlock(num.cts, num.i2s, num.s2i, num.specialsWithUnk);
      IndexedRank(num.cts, num.i2s, num.s2i, num.specialsWithUnk, u);
      assert StrOf(num.i2s, r) == Ok(num.i2s[r]);
    }
  }

  /** With the unk rank read after the move, a word outside the index maps to the last
      reserved rank, which reads back as unk; with no truthy unk it raises KeyError. */
  lemma UnknownWordMoved(specials: set<Word>, unk: Option<Word>, specialsWithUnk: set<Word>,
                         cts: seq<Count>, i2s: seq<Word>, s2i: map<Word, nat>, intUnk: Option<nat>, w: Word)
    requires Coherent(specials, unk, specialsWithUnk, cts, i2s, s2i, intUnk) && w !in s2i
    ensures Truthy(unk) ==> IntOf(s2i, intUnk, w) == Ok(|specialsWithUnk| - 1)
    ensures Truthy(unk) ==> StrOf(i2s, |specialsWithUnk| - 1) == Ok(unk.value)
    ensures !Truthy(unk) ==> IntOf(s2i, intUnk, w) == Err(KeyError)
  {
    if Truthy(unk) {
      var u, last := unk.value, |specialsWithUnk| - 1;
      assert s2i[u] == last;
      assert i2s[last] == u by {
        IndexedRank(cts, i2s, s2i, specialsWithUnk, u);
      }
      assert StrOf(i2s, last) == Ok(WordAt(i2s, last));
    }
  }

  /** A word of the index is the word at its rank. */
  lemma IndexedRank(cts: seq<Count>, i2s: seq<Word>, s2i: map<Word, nat>, reserved: set<Word>, w: Word)
    requires Indexed(cts, i2s, s2i, reserved) && w in s2i
    ensures s2i[w] < |i2s| && i2s[s2i[w]] == w
  {
  }
}
