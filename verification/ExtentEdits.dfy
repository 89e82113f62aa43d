/**
 Splitting an extent in place (mqfs/extents.c, ext4_split_extent_at, ext4_split_extent).
 */
module ExtentEdits {
  import opened Common
  import opened ExtentLists
  import opened ExtentNodes
  import opened ExtentTree

  // ----- on lists -----

  /** The blocks of `ex` below `split`, in the given state. */
  function Head(ex: Ext, split: nat, unwritten: bool): Ext
    requires ex.block < split < ex.End()
  {
    Ext(ex.block, RawLen(split - ex.block, unwritten), ex.pblk)
  }

  /** The blocks of `ex` from `split` on, in the given state. */
  function Tail(ex: Ext, split: nat, unwritten: bool): Ext
    requires ex.block <= split < ex.End()
  {
    Ext(split, RawLen(ex.End() - split, unwritten), ex.pblk + (split - ex.block))
  }

  /** What the extent becomes. */
  function Pieces(ex: Ext, split: nat, u1: bool, u2: bool): seq<Ext>
    requires ex.Covers(split)
  {
    if split == ex.block then [Tail(ex, split, u2)] else [Head(ex, split, u1), Tail(ex, split, u2)]
  }

  /** Only the states of the blocks of `ex` change: `u1` below the split and `u2` from it on. */
  ghost predicate Restated(es: seq<Ext>, es': seq<Ext>, ex: Ext, split: nat, u1: bool, u2: bool) {
    forall b: int :: Map(es', b) ==
      if ex.Covers(b) then Some(Cell(ex.At(b).pblk, if b < split then u1 else u2)) else Map(es, b)
  }

  /** States the split may give: unwritten only to what was unwritten. */
  predicate StatesOk(ex: Ext, u1: bool, u2: bool) { u1 || u2 ==> ex.Unwritten() }

  lemma TailOk(ex: Ext, split: nat, u: bool)
    requires ex.Valid() && ex.Covers(split) && (u ==> ex.Unwritten())
    ensures var t := Tail(ex, split, u);
            && t.Valid() && t.block == split && t.End() == ex.End() && t.Unwritten() == u
            && forall b: int | split <= b < ex.End() :: t.At(b) == Cell(ex.At(b).pblk, u)
  {
  }

  lemma HeadOk(ex: Ext, split: nat, u: bool)
    requires ex.Valid() && ex.block < split < ex.End() && (u ==> ex.Unwritten())
    ensures var h := Head(ex, split, u);
            && h.Valid() && h.block == ex.block && h.End() == split && h.Unwritten() == u
            && forall b: int | ex.block <= b < split :: h.At(b) == Cell(ex.At(b).pblk, u)
  {
  }

  /** Replacing one extent by another inside the same bounds. */
  lemma ReplaceEffect(es: seq<Ext>, p: nat, e: Ext, lo: int, hi: int)
    requires Ordered(es, lo, hi) && p < |es| && e.Valid() && es[p].block <= e.block && e.End() <= es[p].End()
    ensures Ordered(es[p := e], lo, hi)
    ensures forall b: int :: Map(es[p := e], b) ==
              if e.Covers(b) then Some(e.At(b)) else if es[p].Covers(b) then None else Map(es, b)
  {
    var x, z := es[..p], es[p + 1..];
    Around(es, p, lo, hi);
    assert es[p := e] == x + [e] + z;
    Single(e, LastEnd(x, lo), es[p].End());
    Join3(x, [e], z, lo, LastEnd(x, lo), es[p].End(), hi);
    forall b: int
      ensures Map(es[p := e], b) == if e.Covers(b) then Some(e.At(b)) else if es[p].Covers(b) then None else Map(es, b)
    {
      Map3(x, [e], z, b);
      MapAround(es, p, lo, hi, b);
    }
  }

  lemma RestateWhole(es: seq<Ext>, p: nat, u1: bool, u2: bool)
    requires Ordered(es, 0, MAX_BLOCKS) && p < |es| && es[p].Valid() && StatesOk(es[p], u1, u2)
    ensures var es' := es[p := Tail(es[p], es[p].block, u2)];
            Ordered(es', 0, MAX_BLOCKS) && Restated(es, es', es[p], es[p].block, u1, u2)
  {
    Around(es, p, 0, MAX_BLOCKS);
    TailOk(es[p], es[p].block, u2);
    ReplaceEffect(es, p, Tail(es[p], es[p].block, u2), 0, MAX_BLOCKS);
  }

  lemma SplitMiddle(es: seq<Ext>, p: nat, split: nat, u1: bool, u2: bool)
    requires Ordered(es, 0, MAX_BLOCKS) && p < |es| && es[p].block < split < es[p].End() && StatesOk(es[p], u1, u2)
    ensures var mid, tail := es[p := Head(es[p], split, u1)], Tail(es[p], split, u2);
            && Ordered(mid, 0, MAX_BLOCKS) && tail.Valid() && Free(mid, tail)
            && forall es' | MapPlus(mid, es', tail) :: Restated(es, es', es[p], split, u1, u2)
  {
    var ex := es[p];
    Around(es, p, 0, MAX_BLOCKS);
    HeadOk(ex, split, u1);
    TailOk(ex, split, u2);
    var mid, tail := es[p := Head(ex, split, u1)], Tail(ex, split, u2);
    ReplaceEffect(es, p, Head(ex, split, u1), 0, MAX_BLOCKS);
    forall b: int | tail.Covers(b)
      ensures Map(mid, b).None?
    {
      assert ex.Covers(b);
    }
    forall es' | MapPlus(mid, es', tail)
      ensures Restated(es, es', ex, split, u1, u2)
    {
      forall b: int
        ensures Map(es', b) == if ex.Covers(b) then Some(Cell(ex.At(b).pblk, if b < split then u1 else u2))
                else Map(es, b)
      {
        assert Map(es', b) == if tail.Covers(b) then Some(tail.At(b)) else Map(mid, b);
      }
    }
  }

  /** With merging switched off the tail lands right behind the head. */
  lemma TailPlace(es: seq<Ext>, p: nat, split: nat, u1: bool, u2: bool, es': seq<Ext>)
    requires Ordered(es, 0, MAX_BLOCKS) && p < |es| && es[p].block < split < es[p].End() && StatesOk(es[p], u1, u2)
    requires InsertedPlain(es[p := Head(es[p], split, u1)], es', Tail(es[p], split, u2)) && Ordered(es', 0, MAX_BLOCKS)
    ensures es' == es[..p] + Pieces(es[p], split, u1, u2) + es[p + 1..]
  {
    var mid, tail := es[p := Head(es[p], split, u1)], Tail(es[p], split, u2);
    var q :| 0 <= q <= |mid| && es' == mid[..q] + [tail] + mid[q..];
    Around(es, p, 0, MAX_BLOCKS);
    HeadOk(es[p], split, u1);
    TailOk(es[p], split, u2);
    assert p + 1 < |mid| ==> mid[p + 1] == es[p + 1];
    PlainPlace(mid, p, tail, q, es');
    Adjoin(es, p, Head(es[p], split, u1), tail);
  }

  lemma Adjoin(es: seq<Ext>, p: nat, h: Ext, t: Ext)
    requires p < |es|
    ensures es[p := h][..p + 1] + [t] + es[p := h][p + 1..] == es[..p] + [h, t] + es[p + 1..]
  {
  }

  /** In a sorted list a new extent has one place only. */
  lemma PlainPlace(mid: seq<Ext>, p: nat, e: Ext, q: nat, es': seq<Ext>)
    requires p < |mid| && q <= |mid| && es' == mid[..q] + [e] + mid[q..] && Ordered(es', 0, MAX_BLOCKS)
    requires mid[p].block < e.block && (p + 1 < |mid| ==> e.block < mid[p + 1].block)
    ensures q == p + 1
  {
    assert es'[q] == e;
    if q <= p {
      assert es'[p + 1] == mid[p];
      Increasing(es', q, p + 1);
    } else if q > p + 1 {
      assert es'[p + 1] == mid[p + 1];
      Increasing(es', p + 1, q);
    }
  }

  /** At most one extent covers a block. */
  lemma CoverUnique(es: seq<Ext>, p: nat, q: nat, b: int)
    requires Ordered(es, 0, MAX_BLOCKS) && p < |es| && q < |es| && es[p].Covers(b) && es[q].Covers(b)
    ensures p == q
  {
    if p < q {
      Increasing(es, p, q);
    } else if q < p {
      Increasing(es, q, p);
    }
  }

  // ----- on the tree -----

  /** ext4_split_extent_at; `p` is the place of the extent among all extents. */
  method SplitExtentAt(t: ExtentTree, split: nat, u1: bool, u2: bool, preIo: bool, busy: bool) returns (ghost p: nat)
    requires t.Valid() && Map(Flat(t.root), split).Some?
    requires u1 || u2 ==> Map(Flat(t.root), split).value.unwritten
    modifies t
    ensures t.LedgerGrows()
    ensures t.Valid() && p < |old(Flat(t.root))| && old(Flat(t.root))[p].Covers(split)
    ensures Restated(old(Flat(t.root)), Flat(t.root), old(Flat(t.root))[p], split, u1, u2)
    ensures preIo ==> Flat(t.root) ==
                      old(Flat(t.root))[..p] + Pieces(old(Flat(t.root))[p], split, u1, u2) + old(Flat(t.root))[p + 1..]
  {
    var path, pos := FindExtent(t.root, t.depth, t.cap, split);
    p := Hit(t.root, path, pos, split, t.depth, t.cap);
    if split == NodeAt(t.root, path).exts[pos].block {
      Mark(t, path, pos, p, u1, u2, preIo, busy);
    } else {
      SplitInTwo(t, path, pos, p, split, u1, u2, preIo, busy);
    }
  }

  /** Entry `pos` of the leaf at the end of the path is extent `p` of the tree. */
  ghost predicate IsEntry(t: ExtentTree, path: seq<nat>, pos: nat, p: nat)
    reads t
  {
    && IsPath(t.root, path) && |path| == t.depth && NodeAt(t.root, path).Leaf?
    && pos < Entries(NodeAt(t.root, path)) && p == |Before(t.root, path)| + pos < |Flat(t.root)|
    && Flat(t.root)[p] == NodeAt(t.root, path).exts[pos]
  }

  /** The split falls on the extent's first block: only its state changes. */
  method Mark(t: ExtentTree, path: seq<nat>, pos: nat, ghost p: nat, ghost u1: bool, u2: bool, preIo: bool, busy: bool)
    requires t.Valid() && IsEntry(t, path, pos, p) && Flat(t.root)[p].Valid() && StatesOk(Flat(t.root)[p], u1, u2)
    modifies t
    ensures t.LedgerGrows()
    ensures t.Valid()
    ensures var flat := old(Flat(t.root)); var ex := flat[p];
            && Restated(flat, Flat(t.root), ex, ex.block, u1, u2)
            && (preIo ==> Flat(t.root) == flat[..p] + Pieces(ex, ex.block, u1, u2) + flat[p + 1..])
  {
    ghost var flat := Flat(t.root);
    var exts := NodeAt(t.root, path).exts;
    var e := if u2 then exts[pos].MarkUnwritten() else exts[pos].MarkInitialized();
    assert e == Tail(exts[pos], exts[pos].block, u2);
    RestateWhole(flat, p, u1, u2);
    LeafUpdate(t.root, path, pos, e);
    t.LeafSize(path);
    t.PutLeaf(path, exts[pos := e], pos, preIo, busy);
    assert flat[p := e] == flat[..p] + [e] + flat[p + 1..];
  }

  /** The extent is shortened in place and the rest inserted as an extent of its own. */
  method SplitInTwo(t: ExtentTree, path: seq<nat>, pos: nat, ghost p: nat, split: nat, u1: bool, u2: bool,
                    preIo: bool, busy: bool)
    requires t.Valid() && IsEntry(t, path, pos, p)
    requires Flat(t.root)[p].block < split < Flat(t.root)[p].End() && StatesOk(Flat(t.root)[p], u1, u2)
    modifies t
    ensures t.LedgerGrows()
    ensures t.Valid()
    ensures var flat := old(Flat(t.root));
            && Restated(flat, Flat(t.root), flat[p], split, u1, u2)
            && (preIo ==> Flat(t.root) == flat[..p] + Pieces(flat[p], split, u1, u2) + flat[p + 1..])
  {
    ghost var flat := Flat(t.root);
    var exts := NodeAt(t.root, path).exts;
    var ex := exts[pos];
    SplitMiddle(flat, p, split, u1, u2);
    LeafUpdate(t.root, path, pos, Head(ex, split, u1));
    t.LeafSize(path);
    t.StoreLeaf(path, exts[pos := Head(ex, split, u1)]);
    ghost var mid := Flat(t.root);
    var err := t.Insert(Tail(ex, split, u2), preIo, busy);
    assert MapPlus(mid, Flat(t.root), Tail(ex, split, u2));
    if preIo {
      TailPlace(flat, p, split, u1, u2, Flat(t.root));
    }
  }

  /** The search for a mapped block finds the extent that maps it. */
  lemma Hit(root: Node, path: seq<nat>, pos: nat, block: nat, d: nat, cap: nat) returns (p: nat)
    requires RootOk(root, d, cap) && Ordered(Flat(root), 0, MAX_BLOCKS) && Map(Flat(root), block).Some?
    requires IsPath(root, path) && |path| == d && Routes(root, path, block)
    requires NodeAt(root, path).Leaf? && Placed(NodeAt(root, path).exts, pos, block)
    ensures pos < Entries(NodeAt(root, path)) && p == |Before(root, path)| + pos < |Flat(root)|
    ensures Flat(root)[p] == NodeAt(root, path).exts[pos] && Flat(root)[p].Covers(block) && Flat(root)[p].Valid()
    ensures Map(Flat(root), block) == Some(Flat(root)[p].At(block))
  {
    p := |Before(root, path)| + pos;
    FoundFlat(root, path, pos, block, d, cap);
    var es := Flat(root);
    Around(es, p, 0, MAX_BLOCKS);
    assert p == 0 ==> es[..p] == [];
    if p + 1 < |es| {
      MapWithin(es[p + 1..], es[p + 1].block, MAX_BLOCKS, block);
    }
    MapAround(es, p, 0, MAX_BLOCKS, block);
  }

  /** Changing one entry of a leaf changes the list of all extents in one place. */
  lemma LeafUpdate(root: Node, path: seq<nat>, pos: nat, e: Ext)
    requires IsPath(root, path) && NodeAt(root, path).Leaf? && pos < Entries(NodeAt(root, path))
    ensures |Before(root, path)| + pos < |Flat(root)|
    ensures Before(root, path) + NodeAt(root, path).exts[pos := e] + After(root, path) ==
            Flat(root)[|Before(root, path)| + pos := e]
  {
    FlatAt(root, path);
  }
}
