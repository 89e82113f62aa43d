/**
 On-disk extents and what a sorted list of them maps (mqfs/ext4_extents.h, mqfs/extents.c).

 An extent keeps the raw 16-bit `ee_len`, with the unwritten flag in its top bit and 0x8000 standing for
 a written extent of 32768 blocks.
 */
module ExtentLists {
  import opened Common

  const INIT_MAX_LEN: nat := 0x8000
  const UNWRITTEN_MAX_LEN: nat := 0x7fff
  /** Physical block numbers have 48 bits. */
  const PBLK_LIMIT: nat := 0x1_0000_0000_0000

  /** Where a block is, and whether it reads as zeros until written. */
  datatype Cell = Cell(pblk: nat, unwritten: bool)

  /** The raw length field for a length and a state. */
  function RawLen(len: nat, unwritten: bool): nat {
    if unwritten then len + INIT_MAX_LEN else len
  }

  datatype Ext = Ext(block: nat, eeLen: nat, pblk: nat) {
    /** ext4_ext_get_actual_len */
    function Len(): nat { if eeLen <= INIT_MAX_LEN then eeLen else eeLen - INIT_MAX_LEN }

    /** ext4_ext_is_unwritten */
    predicate Unwritten() { eeLen > INIT_MAX_LEN }

    function End(): nat { block + Len() }

    predicate Covers(b: int) { block <= b < End() }

    predicate Valid() {
      0 < eeLen < 0x1_0000 && End() <= MAX_BLOCKS && pblk + Len() <= PBLK_LIMIT
    }

    function At(b: int): Cell
      requires Covers(b)
    {
      Cell(pblk + (b - block), Unwritten())
    }

    /** ext4_ext_mark_unwritten; the BUG_ON is the precondition. */
    function MarkUnwritten(): (r: Ext)
      requires 0 < eeLen < 0x1_0000 && eeLen != INIT_MAX_LEN
      ensures r.Len() == Len() && r.Unwritten()
    {
      this.(eeLen := if eeLen > INIT_MAX_LEN then eeLen else eeLen + INIT_MAX_LEN)
    }

    /** ext4_ext_mark_initialized */
    function MarkInitialized(): (r: Ext)
      ensures eeLen < 0x1_0000 ==> r.Len() == Len() && !r.Unwritten()
    {
      this.(eeLen := Len())
    }

    /** The same state with another length: ee_len is stored and the flag restored. */
    function Resized(len: nat): Ext {
      this.(eeLen := RawLen(len, Unwritten()))
    }
  }

  /** The encoding is unambiguous exactly for lengths up to 32768 written and 32767 unwritten. */
  lemma EncodingRoundTrip(e: Ext, len: nat, unwritten: bool)
    requires 0 < len < 0x1_0000
    ensures var r := e.(eeLen := RawLen(len, unwritten));
            (r.Len() == len && r.Unwritten() == unwritten && r.eeLen < 0x1_0000) <==>
            len <= (if unwritten then UNWRITTEN_MAX_LEN else INIT_MAX_LEN)
  {
  }

  // ----- a list of extents as a map -----

  ghost function Map(es: seq<Ext>, b: int): Option<Cell> {
    if es == [] then None
    else if es[0].Covers(b) then Some(es[0].At(b))
    else Map(es[1..], b)
  }

  /** The extents are valid, disjoint, in order and inside [lo, hi). */
  ghost predicate Ordered(es: seq<Ext>, lo: int, hi: int) {
    if es == [] then lo <= hi
    else lo <= es[0].block && es[0].Valid() && Ordered(es[1..], es[0].End(), hi)
  }

  function LastEnd(es: seq<Ext>, lo: int): int {
    if es == [] then lo else es[|es| - 1].End()
  }

  lemma {:induction false} MapConcat(x: seq<Ext>, y: seq<Ext>, b: int)
    ensures Map(x + y, b) == if Map(x, b).Some? then Map(x, b) else Map(y, b)
  {
    if x == [] {
      assert x + y == y;
    } else {
      assert (x + y)[1..] == x[1..] + y;
      MapConcat(x[1..], y, b);
    }
  }

  lemma {:induction false} MapWithin(es: seq<Ext>, lo: int, hi: int, b: int)
    requires Ordered(es, lo, hi)
    ensures Map(es, b).Some? ==> lo <= b < hi
    ensures lo <= LastEnd(es, lo) <= hi
  {
    if es != [] {
      MapWithin(es[1..], es[0].End(), hi, b);
    }
  }

  lemma {:induction false} Loosen(es: seq<Ext>, lo: int, lo': int, hi: int, hi': int)
    requires Ordered(es, lo', hi) && lo <= lo' && hi <= hi'
    ensures Ordered(es, lo, hi')
  {
    if es != [] {
      Loosen(es[1..], es[0].End(), es[0].End(), hi, hi');
    }
  }

  lemma {:induction false} OrderedConcat(x: seq<Ext>, y: seq<Ext>, lo: int, mid: int, hi: int)
    requires Ordered(x, lo, mid) && Ordered(y, mid, hi)
    ensures Ordered(x + y, lo, hi)
  {
    if x == [] {
      assert x + y == y;
      Loosen(y, lo, mid, hi, hi);
    } else {
      assert (x + y)[1..] == x[1..] + y;
      OrderedConcat(x[1..], y, x[0].End(), mid, hi);
    }
  }

  lemma {:induction false} OrderedSplit(x: seq<Ext>, y: seq<Ext>, lo: int, hi: int)
    requires Ordered(x + y, lo, hi)
    ensures Ordered(x, lo, LastEnd(x, lo)) && Ordered(y, LastEnd(x, lo), hi)
    ensures lo <= LastEnd(x, lo) <= hi
  {
    if x == [] {
      assert x + y == y;
      MapWithin(y, lo, hi, 0);
    } else {
      assert (x + y)[1..] == x[1..] + y;
      OrderedSplit(x[1..], y, x[0].End(), hi);
    }
  }

  /** The three parts of a list, each inside its own bounds. */
  lemma Split3(x: seq<Ext>, y: seq<Ext>, z: seq<Ext>, lo: int, hi: int)
    requires Ordered(x + y + z, lo, hi)
    ensures var a := LastEnd(x, lo); var c := LastEnd(y, a);
            Ordered(x, lo, a) && Ordered(y, a, c) && Ordered(z, c, hi) && lo <= a <= c <= hi
  {
    OrderedSplit(x + y, z, lo, hi);
    OrderedSplit(x, y, lo, LastEnd(x + y, lo));
  }

  lemma Join3(x: seq<Ext>, y: seq<Ext>, z: seq<Ext>, lo: int, a: int, c: int, hi: int)
    requires Ordered(x, lo, a) && Ordered(y, a, c) && Ordered(z, c, hi)
    ensures Ordered(x + y + z, lo, hi)
  {
    OrderedConcat(x, y, lo, a, c);
    OrderedConcat(x + y, z, lo, c, hi);
  }

  lemma Map3(x: seq<Ext>, y: seq<Ext>, z: seq<Ext>, b: int)
    ensures Map(x + y + z, b) ==
            if Map(x, b).Some? then Map(x, b) else if Map(y, b).Some? then Map(y, b) else Map(z, b)
  {
    MapConcat(x + y, z, b);
    MapConcat(x, y, b);
  }

  lemma Single(e: Ext, lo: int, hi: int)
    requires e.Valid() && lo <= e.block && e.End() <= hi
    ensures Ordered([e], lo, hi)
    ensures forall b: int :: Map([e], b) == if e.Covers(b) then Some(e.At(b)) else None
  {
    assert [e][1..] == [];
  }

  /** A list around one of its extents. */
  lemma Around(es: seq<Ext>, i: nat, lo: int, hi: int)
    requires Ordered(es, lo, hi) && i < |es|
    ensures es == es[..i] + [es[i]] + es[i + 1..]
    ensures es[i].Valid() && lo <= LastEnd(es[..i], lo) <= es[i].block && es[i].End() <= hi
    ensures Ordered(es[..i], lo, LastEnd(es[..i], lo)) && Ordered(es[i + 1..], es[i].End(), hi)
    ensures i + 1 < |es| ==> es[i].End() <= es[i + 1].block
  {
    assert es == es[..i] + es[i..];
    OrderedSplit(es[..i], es[i..], lo, hi);
    assert es[i..][1..] == es[i + 1..];
    MapWithin(es[i + 1..], es[i].End(), hi, 0);
  }

  /** What the list maps, seen from one of its extents. */
  lemma MapAround(es: seq<Ext>, i: nat, lo: int, hi: int, b: int)
    requires Ordered(es, lo, hi) && i < |es|
    ensures Map(es, b) ==
            if b < es[i].block then Map(es[..i], b)
            else if b < es[i].End() then Some(es[i].At(b))
            else Map(es[i + 1..], b)
    ensures b >= es[i].block ==> Map(es[..i], b).None?
    ensures b < es[i].End() ==> Map(es[i + 1..], b).None?
  {
    Around(es, i, lo, hi);
    Map3(es[..i], [es[i]], es[i + 1..], b);
    Single(es[i], es[i].block, es[i].End());
    MapWithin(es[..i], lo, LastEnd(es[..i], lo), b);
    MapWithin(es[i + 1..], es[i].End(), hi, b);
  }

  // ----- comparing lists -----

  ghost predicate SameMap(es: seq<Ext>, es': seq<Ext>) {
    forall b: int :: Map(es', b) == Map(es, b)
  }

  /** The second list maps what the first maps, plus the new extent. */
  ghost predicate MapPlus(es: seq<Ext>, es': seq<Ext>, e: Ext) {
    forall b: int :: Map(es', b) == if e.Covers(b) then Some(e.At(b)) else Map(es, b)
  }

  /** The second list maps what the first maps, minus [lo, hi). */
  ghost predicate MapMinus(es: seq<Ext>, es': seq<Ext>, lo: int, hi: int) {
    forall b: int :: Map(es', b) == if lo <= b < hi then None else Map(es, b)
  }

  /** Nothing is mapped where the extent would go. */
  ghost predicate Free(es: seq<Ext>, e: Ext) {
    forall b: int | e.Covers(b) :: Map(es, b).None?
  }

  // ----- merging -----

  /** ext4_can_extents_be_merged; `busy` stands for unwritten I/O in flight on the inode. */
  predicate CanMerge(a: Ext, b: Ext, busy: bool) {
    && a.Unwritten() == b.Unwritten()
    && a.End() == b.block
    && a.Len() + b.Len() <= INIT_MAX_LEN
    && (a.Unwritten() ==> !busy && a.Len() + b.Len() <= UNWRITTEN_MAX_LEN)
    && a.pblk + a.Len() == b.pblk
  }

  function Merged(a: Ext, b: Ext): Ext { a.Resized(a.Len() + b.Len()) }

  /** Merging changes no block and stays within the encodable lengths. */
  lemma MergeSound(a: Ext, b: Ext, busy: bool)
    requires a.Valid() && b.Valid() && CanMerge(a, b, busy)
    ensures Merged(a, b).Valid() && Merged(a, b).block == a.block && Merged(a, b).End() == b.End()
    ensures SameMap([a, b], [Merged(a, b)])
  {
    var m := Merged(a, b);
    assert [a, b][1..] == [b] && [b][1..] == [] && [m][1..] == [];
    forall x: int
      ensures Map([m], x) == Map([a, b], x)
    {
      assert Map([a, b], x) == if a.Covers(x) then Some(a.At(x)) else Map([b], x);
    }
  }

  /** Merging two neighbours of a list. */
  lemma MergePair(es: seq<Ext>, i: nat, busy: bool, lo: int, hi: int)
    requires Ordered(es, lo, hi) && i + 1 < |es| && CanMerge(es[i], es[i + 1], busy)
    ensures var es' := es[..i] + [Merged(es[i], es[i + 1])] + es[i + 2..];
            Ordered(es', lo, hi) && SameMap(es, es') && es'[0].block == es[0].block
  {
    var x, z, m := es[..i], es[i + 2..], Merged(es[i], es[i + 1]);
    Around(es, i, lo, hi);
    Around(es, i + 1, lo, hi);
    MergeSound(es[i], es[i + 1], busy);
    assert es == x + [es[i], es[i + 1]] + z;
    Single(m, LastEnd(x, lo), m.End());
    Join3(x, [m], z, lo, LastEnd(x, lo), m.End(), hi);
    forall b: int
      ensures Map(x + [m] + z, b) == Map(es, b)
    {
      Map3(x, [m], z, b);
      Map3(x, [es[i], es[i + 1]], z, b);
      assert Map([m], b) == Map([es[i], es[i + 1]], b);
    }
  }

  /** A part of a list replaced by one with the same bounds and map. */
  lemma InContext(x: seq<Ext>, y: seq<Ext>, y': seq<Ext>, z: seq<Ext>, lo: int, hi: int)
    requires Ordered(x + y + z, lo, hi)
    requires Ordered(y', LastEnd(x, lo), LastEnd(y, LastEnd(x, lo))) && SameMap(y, y')
    ensures Ordered(x + y' + z, lo, hi) && SameMap(x + y + z, x + y' + z)
  {
    Split3(x, y, z, lo, hi);
    Join3(x, y', z, lo, LastEnd(x, lo), LastEnd(y, LastEnd(x, lo)), hi);
    forall b: int
      ensures Map(x + y' + z, b) == Map(x + y + z, b)
    {
      Map3(x, y, z, b);
      Map3(x, y', z, b);
    }
  }

  // ----- inserting into a gap -----

  lemma FreeApart(es: seq<Ext>, e: Ext, m: nat, lo: int, hi: int)
    requires Ordered(es, lo, hi) && Free(es, e) && e.Valid() && m < |es|
    ensures es[m].End() <= e.block || e.End() <= es[m].block
  {
    Around(es, m, lo, hi);
    MapAround(es, m, lo, hi, if e.block < es[m].block then es[m].block else e.block);
  }

  /** The place the search finds for an extent of which nothing is mapped fits it. */
  lemma GapFits(x: seq<Ext>, y: seq<Ext>, e: Ext)
    requires Ordered(x + y, 0, MAX_BLOCKS) && Free(x + y, e) && e.Valid()
    requires x == [] || x[|x| - 1].block <= e.block
    requires y == [] || e.block < y[0].block
    ensures LastEnd(x, 0) <= e.block && (y != [] ==> e.End() <= y[0].block)
  {
    if x != [] {
      assert (x + y)[|x| - 1] == x[|x| - 1];
      FreeApart(x + y, e, |x| - 1, 0, MAX_BLOCKS);
      Around(x + y, |x| - 1, 0, MAX_BLOCKS);
    }
    if y != [] {
      assert (x + y)[|x|] == y[0];
      FreeApart(x + y, e, |x|, 0, MAX_BLOCKS);
      Around(x + y, |x|, 0, MAX_BLOCKS);
    }
  }

  lemma InsertEffect(x: seq<Ext>, y: seq<Ext>, e: Ext)
    requires Ordered(x + y, 0, MAX_BLOCKS) && e.Valid()
    requires LastEnd(x, 0) <= e.block && (y != [] ==> e.End() <= y[0].block)
    ensures Ordered(x + [e] + y, 0, MAX_BLOCKS) && MapPlus(x + y, x + [e] + y, e)
  {
    OrderedSplit(x, y, 0, MAX_BLOCKS);
    Single(e, LastEnd(x, 0), e.End());
    assert Ordered(y, e.End(), MAX_BLOCKS);
    Join3(x, [e], y, 0, LastEnd(x, 0), e.End(), MAX_BLOCKS);
    forall b: int
      ensures Map(x + [e] + y, b) == if e.Covers(b) then Some(e.At(b)) else Map(x + y, b)
    {
      Map3(x, [e], y, b);
      MapConcat(x, y, b);
      MapWithin(x, 0, LastEnd(x, 0), b);
      MapWithin(y, e.End(), MAX_BLOCKS, b);
    }
  }

  // ----- merging in a leaf -----

  /** What extent `i` becomes by absorbing right neighbours. */
  function Absorbed(es: seq<Ext>, i: nat, busy: bool): seq<Ext>
    decreases |es|
  {
    if i + 1 < |es| && CanMerge(es[i], es[i + 1], busy)
    then Absorbed(es[..i] + [Merged(es[i], es[i + 1])] + es[i + 2..], i, busy)
    else es
  }

  /** Extent `j` has absorbed right neighbours, and could not absorb the next one. */
  ghost predicate Grown(es: seq<Ext>, r: seq<Ext>, j: nat, busy: bool) {
    && j < |r| <= |es| && r[..j] == es[..j] && r[j].block == es[j].block
    && r[j + 1..] == es[|es| - |r| + j + 1..] && (j + 1 < |r| ==> !CanMerge(r[j], r[j + 1], busy))
  }

  /** Extent `i` absorbs some neighbour exactly if it can be merged with the first, and stops only where it must. */
  lemma {:induction false} AbsorbedGrown(es: seq<Ext>, i: nat, busy: bool)
    requires i < |es|
    ensures Grown(es, Absorbed(es, i, busy), i, busy)
    ensures |Absorbed(es, i, busy)| < |es| <==> i + 1 < |es| && CanMerge(es[i], es[i + 1], busy)
    decreases |es|
  {
    if i + 1 < |es| && CanMerge(es[i], es[i + 1], busy) {
      var r := es[..i] + [Merged(es[i], es[i + 1])] + es[i + 2..];
      AbsorbedGrown(r, i, busy);
      GrownOn(es, r, Absorbed(r, i, busy), i, busy);
    }
  }

  lemma GrownOn(es: seq<Ext>, r: seq<Ext>, r': seq<Ext>, i: nat, busy: bool)
    requires i + 1 < |es| && r == es[..i] + [Merged(es[i], es[i + 1])] + es[i + 2..] && Grown(r, r', i, busy)
    ensures Grown(es, r', i, busy)
  {
    assert r[..i] == es[..i];
    assert r[|r| - |r'| + i + 1..] == es[|es| - |r'| + i + 1..];
  }

  /** Some extent starts at block `b`. */
  ghost predicate StartsAt(es: seq<Ext>, b: int) {
    exists i :: 0 <= i < |es| && es[i].block == b
  }

  /** Every extent of the second list starts where one of the first does. */
  ghost predicate StartsAmong(es: seq<Ext>, es': seq<Ext>) {
    forall i | 0 <= i < |es'| :: StartsAt(es, es'[i].block)
  }

  lemma StartsMerged(es: seq<Ext>, r: seq<Ext>, i: nat)
    requires StartsAmong(es, r) && i + 1 < |r|
    ensures StartsAmong(es, r[..i] + [Merged(r[i], r[i + 1])] + r[i + 2..])
  {
    var r' := r[..i] + [Merged(r[i], r[i + 1])] + r[i + 2..];
    forall k | 0 <= k < |r'|
      ensures StartsAt(es, r'[k].block)
    {
      assert r'[k].block == r[if k <= i then k else k + 1].block;
    }
  }

  lemma StartsInContext(x: seq<Ext>, y: seq<Ext>, y': seq<Ext>, z: seq<Ext>)
    requires StartsAmong(y, y')
    ensures StartsAmong(x + y + z, x + y' + z)
  {
    var es, es' := x + y + z, x + y' + z;
    forall k | 0 <= k < |es'|
      ensures StartsAt(es, es'[k].block)
    {
      if k < |x| {
        assert es[k] == es'[k];
      } else if k < |x| + |y'| {
        assert es'[k] == y'[k - |x|];
        var j :| 0 <= j < |y| && y[j].block == y'[k - |x|].block;
        assert es[|x| + j] == y[j];
      } else {
        assert es'[k] == z[k - |x| - |y'|] == es[k - |y'| + |y|];
      }
    }
  }

  /** ext4_ext_try_to_merge_right: extent `i` absorbs its right neighbours while it can. */
  method MergeRight(es: seq<Ext>, i: nat, busy: bool, ghost lo: int, ghost hi: int) returns (r: seq<Ext>, done: bool)
    requires Ordered(es, lo, hi) && i < |es|
    ensures Ordered(r, lo, hi) && SameMap(es, r)
    ensures i < |r| <= |es| && r[0].block == es[0].block && (done <==> |r| < |es|)
    ensures r[..i] == es[..i] && r[i].block == es[i].block
    ensures r == Absorbed(es, i, busy) && StartsAmong(es, r)
    ensures Grown(es, r, i, busy) && (done <==> i + 1 < |es| && CanMerge(es[i], es[i + 1], busy))
  {
    AbsorbedGrown(es, i, busy);
    r, done := es, false;
    while i + 1 < |r| && CanMerge(r[i], r[i + 1], busy)
      invariant Ordered(r, lo, hi) && SameMap(es, r)
      invariant i < |r| <= |es| && r[0].block == es[0].block && (done <==> |r| < |es|)
      invariant r[..i] == es[..i] && r[i].block == es[i].block
      invariant Absorbed(r, i, busy) == Absorbed(es, i, busy) && StartsAmong(es, r)
      decreases |r|
    {
      MergePair(r, i, busy, lo, hi);
      StartsMerged(es, r, i);
      r := r[..i] + [Merged(r[i], r[i + 1])] + r[i + 2..];
      done := true;
    }
  }

  /** Extent `i` went into its left neighbour exactly where it could, and what it became could grow no further. */
  ghost predicate MergedAround(es: seq<Ext>, r: seq<Ext>, i: nat, busy: bool)
    requires i < |es|
  {
    if i > 0 && CanMerge(es[i - 1], es[i], busy) then Grown(es, r, i - 1, busy) && |r| < |es| else Grown(es, r, i, busy)
  }

  /** ext4_ext_try_to_merge within the leaf. */
  method TryMerge(es: seq<Ext>, i: nat, busy: bool, ghost lo: int, ghost hi: int) returns (r: seq<Ext>)
    requires Ordered(es, lo, hi) && i < |es|
    ensures Ordered(r, lo, hi) && SameMap(es, r)
    ensures 0 < |r| <= |es| && r[0].block == es[0].block && StartsAmong(es, r)
    ensures MergedAround(es, r, i, busy)
  {
    var done := false;
    r := es;
    if i > 0 {
      r, done := MergeRight(r, i - 1, busy, lo, hi);
    }
    if !done {
      r, done := MergeRight(r, i, busy, lo, hi);
    }
  }
}
