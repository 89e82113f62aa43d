/**
 Caching the gap around a block that is not mapped
 (mqfs/extents.c, ext4_ext_determine_hole, ext4_ext_put_gap_in_cache).
 */
module GapCache {
  import opened Common
  import opened ExtentLists
  import opened ExtentNodes
  import opened ExtentTree
  import Known = StatusExtents
  import opened StatusTree
  import Delalloc

  /** [start, start + len) holds the block, is not mapped, and reaches to the next mapped block and back to the one
      before; only if nothing is mapped before the block it starts with the block, or with 0 in an empty file. */
  ghost predicate IsHole(es: seq<Ext>, block: nat, start: nat, len: nat) {
    && start <= block < start + len <= MAX_BLOCKS
    && (forall b: int | start <= b < start + len :: Map(es, b).None?)
    && (start + len == MAX_BLOCKS || Map(es, start + len).Some?)
    && (if forall b: int | b < block :: Map(es, b).None? then start == (if es == [] then 0 else block)
        else 0 < start && Map(es, start - 1).Some?)
  }

  /** ext4_ext_determine_hole for a block the search did not find mapped. */
  method DetermineHole(t: ExtentTree, block: nat) returns (start: nat, len: nat)
    requires t.Valid() && block < MAX_BLOCKS && Map(Flat(t.root), block).None?
    ensures IsHole(Flat(t.root), block, start, len)
  {
    var path, pos := FindExtent(t.root, t.depth, t.cap, block);
    var exts := NodeAt(t.root, path).exts;
    if exts == [] {
      OnlyEmptyTree(t.root, path, t.depth, t.cap);
      return 0, MAX_BLOCKS;
    }
    FoundFlat(t.root, path, pos, block, t.depth, t.cap);
    NextAllocatedExact(t.root, path, pos, t.depth, ROOT_CAP, t.cap);
    HoleAround(Flat(t.root), |Before(t.root, path)| + pos, block);
    var ex := exts[pos];
    if block < ex.block {
      start, len := block, ex.block - block;
    } else {
      start := ex.End();
      len := NextAllocated(t.root, path, pos) - start;
    }
  }

  lemma HoleAround(es: seq<Ext>, q: nat, block: nat)
    requires Ordered(es, 0, MAX_BLOCKS) && Locates(es, q, block) && block < MAX_BLOCKS && Map(es, block).None?
    ensures block < es[q].block ==> IsHole(es, block, block, es[q].block - block)
    ensures block >= es[q].block ==>
              var next := if q + 1 < |es| then es[q + 1].block else MAX_BLOCKS;
              es[q].End() < next && IsHole(es, block, es[q].End(), next - es[q].End())
  {
    MapAround(es, q, 0, MAX_BLOCKS, block);
    Around(es, q, 0, MAX_BLOCKS);
    if block < es[q].block {
      MapAround(es, q, 0, MAX_BLOCKS, es[q].block);
      forall b: int | block <= b < es[q].block
        ensures Map(es, b).None?
      {
        MapAround(es, q, 0, MAX_BLOCKS, b);
      }
      forall b: int | b < block
        ensures Map(es, b).None?
      {
        MapAround(es, q, 0, MAX_BLOCKS, b);
      }
    } else {
      MapAround(es, q, 0, MAX_BLOCKS, es[q].End() - 1);
      assert es[q].End() - 1 < block && Map(es, es[q].End() - 1).Some?;
      var rest := es[q + 1..];
      var next := if q + 1 < |es| then es[q + 1].block else MAX_BLOCKS;
      if q + 1 < |es| {
        Around(es, q + 1, 0, MAX_BLOCKS);
        MapAround(es, q + 1, 0, MAX_BLOCKS, next);
      }
      forall b: int | es[q].End() <= b < next
        ensures Map(es, b).None?
      {
        MapAround(es, q, 0, MAX_BLOCKS, b);
        if q + 1 < |es| {
          MapWithin(rest, next, MAX_BLOCKS, b);
        }
      }
    }
  }

  /** EXTENT_STATUS_HOLE */
  const HOLE: Known.Status := Known.Status(false, false, false, true)

  /** ext4_ext_put_gap_in_cache on the hole around an unmapped block.  The hole is recorded up to the first delayed
      block in it, unless it starts with one or memory runs out. */
  method CacheGap(t: ExtentTree, st: StatusTrees, k: nat, block: nat, memory: bool)
    returns (err: bool, ghost start: nat, ghost len: nat, ghost hi: nat)
    requires t.Valid() && st.Valid() && st.Faithful() && k < |st.ino|
    requires block < MAX_BLOCKS && Map(Flat(t.root), block).None?
    modifies st
    ensures st.Valid() && st.Faithful() && |st.ref| == |old(st.ref)|
    ensures forall j | 0 <= j < |st.ref| && j != k :: st.ref[j] == old(st.ref[j])
    ensures IsHole(Flat(t.root), block, start, len) && start <= hi <= start + len
    ensures forall b: int | start <= b < hi :: !Known.IsDelayed(old(st.ref[k])(b))
    ensures hi == start + len || Known.IsDelayed(old(st.ref[k])(hi))
    ensures st.ref[k] == if err || hi == start then old(st.ref[k])
                         else Record(old(st.ref[k]), Known.Extent(start, hi - start, NO_BLOCK, HOLE, false))
    ensures memory ==> !err && OnRecord(st.ino[k].nodes, Known.Extent(start, hi - start, NO_BLOCK, HOLE, false))
  {
    var from, n := DetermineHole(t, block);
    var r := st.FindDelayed(k, from, from + n - 1);
    start, len, hi := from, n, from + n;
    ghost var es := st.ino[k].nodes;
    assert InodeOk(st.ino[k]) && Agrees(es, st.ref[k]);
    if r.Some? {
      if r.value.lblk <= from {
        DelayedThere(es, r.value, from, st.ref[k]);
        hi := from;
        return false, start, len, hi;
      }
      if r.value.lblk - from < n {
        DelayedThere(es, r.value, r.value.lblk, st.ref[k]);
        n := r.value.lblk - from;
        hi := r.value.lblk;
      }
    }
    err := st.Insert(k, from, n, NO_BLOCK, HOLE, memory);
  }

  lemma DelayedThere(es: seq<Known.Extent>, e: Known.Extent, b: nat, r: Reference)
    requires Known.Ordered(es, 0, MAX_BLOCKS) && Agrees(es, r) && e in es && e.st.delayed
             && (b == e.lblk || e.Covers(b))
    ensures Known.IsDelayed(r(b))
  {
    Delalloc.ExtentValid(es, e, 0, MAX_BLOCKS);
    Delalloc.KnownOf(es, e, b, 0, MAX_BLOCKS);
  }

  /** All ones, without the flag bits. */
  const NO_BLOCK: nat := 0x7ff_ffff_ffff_ffff
}
