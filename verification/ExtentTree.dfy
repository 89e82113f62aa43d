/**
 The on-disk extent tree of an inode and the insertion of an extent (mqfs/extents.c).
 */
module ExtentTree {
  import opened Common
  import opened ExtentLists
  import opened ExtentNodes
  import opened ExtentSplit

  /** Entry `p` of a list is where a search for `block` ends. */
  ghost predicate Locates(es: seq<Ext>, p: nat, block: int) {
    && p < |es|
    && (p == 0 || es[p].block <= block)
    && (p + 1 < |es| ==> block < es[p + 1].block)
  }

  /** What ext4_find_extent found, seen on the list of all extents. */
  lemma FoundFlat(root: Node, path: seq<nat>, pos: nat, block: nat, d: nat, cap: nat)
    requires Shaped(root, d, ROOT_CAP, cap) && Ordered(Flat(root), 0, MAX_BLOCKS)
    requires IsPath(root, path) && |path| == d && Routes(root, path, block)
    requires NodeAt(root, path).Leaf? && Placed(NodeAt(root, path).exts, pos, block)
    ensures var exts, p := NodeAt(root, path).exts, |Before(root, path)| + pos;
            pos < |exts| && Locates(Flat(root), p, block) && Flat(root)[p] == exts[pos]
  {
    FlatAt(root, path);
    RoutesPlace(root, path, block, d, ROOT_CAP, cap);
    PlacedFlat(Before(root, path), NodeAt(root, path).exts, After(root, path), pos, block);
  }

  lemma PlacedFlat(b: seq<Ext>, exts: seq<Ext>, a: seq<Ext>, pos: nat, block: nat)
    requires exts != [] && Placed(exts, pos, block)
    requires a == [] || a[0].block > block
    requires b == [] || exts[0].block <= block
    ensures Locates(b + exts + a, |b| + pos, block) && (b + exts + a)[|b| + pos] == exts[pos]
  {
    var flat, p := b + exts + a, |b| + pos;
    assert flat[p] == exts[pos];
    if p + 1 < |flat| {
      assert flat[p + 1] == if pos + 1 < |exts| then exts[pos + 1] else a[0];
    }
  }

  /** Where a search ended, the new extent fits before or after the extent found. */
  lemma SearchFits(root: Node, path: seq<nat>, pos: nat, e: Ext, d: nat, cap: nat)
    requires RootOk(root, d, cap) && Ordered(Flat(root), 0, MAX_BLOCKS)
    requires IsPath(root, path) && |path| == d && Routes(root, path, e.block)
    requires NodeAt(root, path).Leaf? && Placed(NodeAt(root, path).exts, pos, e.block)
    requires e.Valid() && Free(Flat(root), e)
    ensures var exts := NodeAt(root, path).exts;
            Fits(Before(root, path), exts, After(root, path),
                 if exts != [] && e.block > exts[pos].block then pos + 1 else pos, e)
  {
    var exts := NodeAt(root, path).exts;
    if d == 0 && root == Leaf([]) {
      assert exts == [] && Before(root, path) == [] && After(root, path) == [];
    } else {
      FlatAt(root, path);
      RoutesPlace(root, path, e.block, d, ROOT_CAP, cap);
      PlacedFits(Before(root, path), exts, After(root, path), pos, e);
    }
  }

  lemma LocatesUnique(es: seq<Ext>, p: nat, q: nat, block: int)
    requires Ordered(es, 0, MAX_BLOCKS) && Locates(es, p, block) && Locates(es, q, block)
    ensures p == q
  {
    if p < q {
      Increasing(es, p + 1, q);
    } else if q < p {
      Increasing(es, q + 1, p);
    }
  }

  lemma {:induction false} Increasing(es: seq<Ext>, i: nat, j: nat)
    requires Ordered(es, 0, MAX_BLOCKS) && i <= j < |es|
    ensures es[i].block <= es[j].block && (i < j ==> es[i].End() <= es[j].block)
    decreases j - i
  {
    Around(es, i, 0, MAX_BLOCKS);
    if i < j {
      Increasing(es, i + 1, j);
    }
  }

  lemma {:induction false} Widen(n: Node, d: nat, max: nat, max': nat, cap: nat)
    requires Shaped(n, d, max, cap) && max <= max'
    ensures Shaped(n, d, max', cap)
  {
  }

  /** The first block of the next leaf, if there is one (ext4_ext_next_leaf_block). */
  function NextLeaf(n: Node, path: seq<nat>): Option<nat>
    requires IsPath(n, path)
    decreases |path|
  {
    if path == [] then None
    else
      var below := NextLeaf(n.idxs[path[0]].child, path[1..]);
      if below.Some? then below
      else if path[0] + 1 < |n.idxs| then Some(n.idxs[path[0] + 1].key) else None
  }

  lemma {:induction false} NextLeafExact(n: Node, path: seq<nat>, d: nat, max: nat, cap: nat)
    requires Shaped(n, d, max, cap) && IsPath(n, path) && |path| == d
    ensures NextLeaf(n, path) == if After(n, path) == [] then None else Some(After(n, path)[0].block)
    decreases d
  {
    if d > 0 {
      var i := path[0];
      assert EntryOk(n.idxs[i], d - 1, cap);
      NextLeafExact(n.idxs[i].child, path[1..], d - 1, cap, cap);
      if i + 1 < |n.idxs| {
        assert EntryOk(n.idxs[i + 1], d - 1, cap);
        NextFirst(n.idxs, i + 1, d, cap);
      }
    }
  }

  /** ext4_ext_next_allocated_block for entry `pos` of the leaf at the end of the path. */
  function NextAllocated(n: Node, path: seq<nat>, pos: nat): nat
    requires IsPath(n, path) && NodeAt(n, path).Leaf?
  {
    var exts := NodeAt(n, path).exts;
    if pos + 1 < |exts| then exts[pos + 1].block
    else if NextLeaf(n, path).Some? then NextLeaf(n, path).value else MAX_BLOCKS
  }

  /** It is the first block of the next extent in the whole tree. */
  lemma NextAllocatedExact(n: Node, path: seq<nat>, pos: nat, d: nat, max: nat, cap: nat)
    requires Shaped(n, d, max, cap) && IsPath(n, path) && |path| == d && NodeAt(n, path).Leaf?
             && pos < Entries(NodeAt(n, path))
    ensures var q := |Before(n, path)| + pos;
            NextAllocated(n, path, pos) == if q + 1 < |Flat(n)| then Flat(n)[q + 1].block else MAX_BLOCKS
  {
    NextLeafExact(n, path, d, max, cap);
    FlatAt(n, path);
  }

  /** A search ends in an empty leaf only if nothing is mapped at all. */
  lemma OnlyEmptyTree(root: Node, path: seq<nat>, d: nat, cap: nat)
    requires RootOk(root, d, cap) && IsPath(root, path) && |path| == d && Entries(NodeAt(root, path)) == 0
    ensures Flat(root) == []
  {
    if Shaped(root, d, ROOT_CAP, cap) {
      ShapedAt(root, path, d, ROOT_CAP, cap);
    }
  }

  class ExtentTree {
    const cap: nat // entries of a tree block
    var root: Node
    var depth: nat
    ghost var born: multiset<nat> // tree blocks ever allocated
    ghost var gone: multiset<nat> // and freed again

    ghost predicate Valid()
      reads this
    {
      && ROOT_CAP < cap
      && RootOk(root, depth, cap)
      && Ordered(Flat(root), 0, MAX_BLOCKS)
      && Addrs(root) + gone == born
    }

    /** Tree blocks once allocated stay on record, and so do freed ones. */
    twostate predicate LedgerGrows()
      reads this
    {
      old(born) <= born && old(gone) <= gone
    }

    /** ext4_ext_tree_init */
    constructor (cap: nat)
      requires ROOT_CAP < cap
      ensures Valid() && this.cap == cap && Flat(root) == []
    {
      this.cap := cap;
      root, depth := Leaf([]), 0;
      born, gone := multiset{}, multiset{};
    }

    /** How many entries the leaf at the end of a path may hold. */
    function LeafMax(): nat
      reads this
    {
      if depth == 0 then ROOT_CAP else cap
    }

    /** Storing a leaf and correcting the index keys above it. */
    method StoreLeaf(path: seq<nat>, es: seq<Ext>)
      requires Valid() && IsPath(root, path) && |path| == depth && NodeAt(root, path).Leaf?
      requires 1 <= |es| <= LeafMax()
      requires Ordered(Before(root, path) + es + After(root, path), 0, MAX_BLOCKS)
      modifies `root
      ensures Valid() && Flat(root) == old(Before(root, path) + es + After(root, path))
    {
      StoreFlat(root, path, Leaf(es), es[0].block);
      StoreAddrs(root, path, Leaf(es), es[0].block);
      ghost var was, now := Addrs(root), Addrs(Store(root, path, Leaf(es), es[0].block));
      assert now == now + multiset{} && was == was + multiset{};
      if depth > 0 {
        StoreShaped(root, path, Leaf(es), depth, ROOT_CAP, cap);
      }
      root := Store(root, path, Leaf(es), es[0].block);
    }

    /** ext4_ext_try_to_merge_up: a single leaf block moves back into the inode, journal credits permitting. */
    method MergeUp(credits: bool)
      requires Valid()
      modifies this
      ensures LedgerGrows()
      ensures Valid() && Flat(root) == old(Flat(root))
      ensures if credits && old(depth == 1 && |root.idxs| == 1 && |Flat(root)| <= ROOT_CAP)
              then depth == 0 && root == Leaf(Flat(root)) && gone == old(gone + Addrs(root))
              else root == old(root) && depth == old(depth) && gone == old(gone)
    {
      if depth == 1 && |root.idxs| == 1 {
        assert EntryOk(root.idxs[0], 0, cap);
        assert root.idxs[..0] == [] && root.idxs[1..] == [];
        assert Flat(root) == Flat(root.idxs[0].child) by { FlatAllAt(root.idxs, 0); }
      }
      if depth == 1 && |root.idxs| == 1 && |root.idxs[0].child.exts| <= ROOT_CAP && credits {
        var e := root.idxs[0];
        assert Addrs(root) == multiset{e.addr} by { AddrsAllAt(root.idxs, 0); }
        gone := gone + multiset{e.addr};
        root, depth := e.child, 0;
      }
    }

    /** The end of every change of a leaf: merge around entry `i` unless PRE_IO forbids it, store, correct. */
    method PutLeaf(path: seq<nat>, es: seq<Ext>, i: nat, preIo: bool, busy: bool)
      requires Valid() && IsPath(root, path) && |path| == depth && NodeAt(root, path).Leaf?
      requires i < |es| <= LeafMax()
      requires Ordered(Before(root, path) + es + After(root, path), 0, MAX_BLOCKS)
      modifies this
      ensures LedgerGrows()
      ensures Valid() && SameMap(old(Before(root, path) + es + After(root, path)), Flat(root))
      ensures StartsAmong(old(Before(root, path) + es + After(root, path)), Flat(root))
      ensures preIo ==> Flat(root) == old(Before(root, path) + es + After(root, path)) && depth == old(depth)
      ensures !preIo ==> exists merged | MergedAround(es, merged, i, busy) ::
                           Flat(root) == old(Before(root, path)) + merged + old(After(root, path))
    {
      var merged := es;
      if !preIo {
        ghost var x, z := Before(root, path), After(root, path);
        ghost var lo := LastEnd(x, 0);
        Split3(x, es, z, 0, MAX_BLOCKS);
        merged := TryMerge(es, i, busy, lo, LastEnd(es, lo));
        InContext(x, es, merged, z, 0, MAX_BLOCKS);
        StartsInContext(x, es, merged, z);
      }
      StoreLeaf(path, merged);
      if !preIo {
        var credits := *;
        MergeUp(credits);
      }
    }
  
    // ----- insertion -----

    /** The new extent belongs before entry `j` of the leaf at the end of the path. */
    ghost predicate FitsAt(path: seq<nat>, j: nat, e: Ext)
      requires IsPath(root, path) && NodeAt(root, path).Leaf?
      reads this
    {
      Fits(Before(root, path), NodeAt(root, path).exts, After(root, path), j, e)
    }

    /** The has_space part of ext4_ext_insert_extent. */
    method InsertAt(path: seq<nat>, j: nat, newext: Ext, preIo: bool, busy: bool)
      requires Valid() && IsPath(root, path) && |path| == depth && NodeAt(root, path).Leaf?
      requires Entries(NodeAt(root, path)) < LeafMax() && FitsAt(path, j, newext)
      modifies this
      ensures LedgerGrows()
      ensures Valid() && MapPlus(old(Flat(root)), Flat(root), newext)
      ensures preIo ==> InsertedPlain(old(Flat(root)), Flat(root), newext)
    {
      var exts := NodeAt(root, path).exts;
      FlatAt(root, path);
      LeafInsert(Before(root, path), exts, After(root, path), j, newext);
      PutLeaf(path, exts[..j] + [newext] + exts[j..], j, preIo, busy);
    }

    /** Appending to or prepending to entry `k` instead of taking a new one. */
    method MergeInto(path: seq<nat>, k: nat, j: nat, newext: Ext, busy: bool)
      requires Valid() && IsPath(root, path) && |path| == depth && NodeAt(root, path).Leaf? && FitsAt(path, j, newext)
      requires k < Entries(NodeAt(root, path)) && (j == k || j == k + 1)
      requires Mergeable(NodeAt(root, path).exts[k], newext, j == k, busy)
      modifies this
      ensures LedgerGrows()
      ensures Valid() && MapPlus(old(Flat(root)), Flat(root), newext)
    {
      var exts := NodeAt(root, path).exts;
      FlatAt(root, path);
      LeafMergeInto(Before(root, path), exts, After(root, path), k, j, newext, busy);
      if depth > 0 {
        ShapedAt(root, path, depth, ROOT_CAP, cap);
      }
      PutLeaf(path, exts[k := Joint(exts[k], newext, j == k)], k, false, busy);
    }
  
    /** ext4_ext_grow_indepth: the root moves into a new block below a new root. */
    method Grow(path: seq<nat>, ghost block: nat) returns (path': seq<nat>)
      requires Valid() && Entries(root) > 0
      requires IsPath(root, path) && |path| == depth && Routes(root, path, block)
      modifies this
      ensures LedgerGrows()
      ensures Valid() && Flat(root) == old(Flat(root)) && depth == old(depth) + 1 && Entries(root) == 1
      ensures IsPath(root, path') && |path'| == depth && Routes(root, path', block)
      ensures NodeAt(root, path') == old(NodeAt(root, path))
    {
      var addr :| ROOT_CAP < addr;
      var grown := Index([Idx(First(root), addr, root)]);
      Widen(root, depth, ROOT_CAP, cap, cap);
      assert EntryOk(grown.idxs[0], depth, cap);
      assert grown.idxs[..0] == [] && grown.idxs[1..] == [];
      assert Flat(grown) == Flat(root) by { FlatAllAt(grown.idxs, 0); }
      assert Addrs(grown) == multiset{addr} + Addrs(root) by { AddrsAllAt(grown.idxs, 0); }
      path' := [0] + path;
      assert path'[1..] == path;
      born := born + multiset{addr};
      root, depth := grown, depth + 1;
    }

    /** The deepest level of the path with a free index entry, if any. */
    method FreeLevel(path: seq<nat>) returns (at: Option<nat>)
      requires Valid() && 0 < depth == |path| && IsPath(root, path)
      requires Entries(NodeAt(root, path)) == cap
      ensures at.Some? ==> at.value < depth && HasFree(root, path, at.value, ROOT_CAP, cap)
      ensures at.None? ==> Entries(root) >= ROOT_CAP
    {
      var i := depth;
      var full := true;
      while i > 0 && full
        invariant 0 <= i <= depth
        invariant full && i < depth ==> Entries(LevelNode(root, path, i)) >= LevelMax(i)
        invariant !full ==> i < depth && Entries(LevelNode(root, path, i)) < LevelMax(i)
        decreases i, full
      {
        i := i - 1;
        full := Entries(LevelNode(root, path, i)) >= LevelMax(i);
      }
      if full {
        at := None;
      } else {
        FreeAt(root, path, i, ROOT_CAP, cap);
        at := Some(i);
      }
    }

    function LevelMax(i: nat): nat
      reads this
    {
      if i == 0 then ROOT_CAP else cap
    }

    /** ext4_ext_split at level `at`, and the insertion into the half the refilled path leads to. */
    method SplitAndInsert(path: seq<nat>, pos: nat, at: nat, newext: Ext, preIo: bool, busy: bool)
      requires Valid() && IsPath(root, path) && at < |path| == depth && Routes(root, path, newext.block)
      requires NodeAt(root, path).Leaf? && Placed(NodeAt(root, path).exts, pos, newext.block)
      requires Entries(NodeAt(root, path)) == cap && HasFree(root, path, at, ROOT_CAP, cap)
      requires newext.Valid() && Free(Flat(root), newext)
      modifies this
      ensures LedgerGrows()
      ensures Valid() && MapPlus(old(Flat(root)), Flat(root), newext)
      ensures preIo ==> InsertedPlain(old(Flat(root)), Flat(root), newext)
    {
      var addrs := NewBlocks(depth - at);
      SearchFits(root, path, pos, newext, depth, cap);
      if pos + 1 < |NodeAt(root, path).exts| {
        SplitInsideAndInsert(path, pos, at, addrs, newext, preIo, busy);
      } else {
        SplitAfterLeaf(path, at, addrs, newext);
      }
    }

    method SplitInsideAndInsert(path: seq<nat>, pos: nat, at: nat, addrs: seq<nat>, newext: Ext, preIo: bool,
                                busy: bool)
      requires Valid() && IsPath(root, path) && at < |path| == depth && Routes(root, path, newext.block)
      requires NodeAt(root, path).Leaf? && pos + 1 < Entries(NodeAt(root, path)) <= cap
      requires newext.block < NodeAt(root, path).exts[pos + 1].block
      requires HasFree(root, path, at, ROOT_CAP, cap)
      requires |addrs| == depth - at && forall k | 0 <= k < |addrs| :: ROOT_CAP < addrs[k]
      requires FitsAt(path, if newext.block > NodeAt(root, path).exts[pos].block then pos + 1 else pos, newext)
      modifies this
      ensures LedgerGrows()
      ensures Valid() && MapPlus(old(Flat(root)), Flat(root), newext)
      ensures preIo ==> InsertedPlain(old(Flat(root)), Flat(root), newext)
    {
      var exts := NodeAt(root, path).exts;
      var j := if newext.block > exts[pos].block then pos + 1 else pos;
      CutFits(Before(root, path), exts, After(root, path), pos + 1, j, newext);
      SplitInLeaf(path, pos, at, addrs, newext.block);
      InsertAt(path, j, newext, preIo, busy);
    }

    /** The tree blocks a split needs. */
    method NewBlocks(n: nat) returns (addrs: seq<nat>)
      ensures |addrs| == n && forall k | 0 <= k < n :: ROOT_CAP < addrs[k]
    {
      addrs := [];
      while |addrs| < n
        invariant |addrs| <= n && forall k | 0 <= k < |addrs| :: ROOT_CAP < addrs[k]
        decreases n - |addrs|
      {
        var addr :| ROOT_CAP < addr;
        addrs := addrs + [addr];
      }
    }

    /** The leaf is cut after entry `pos`; the path keeps leading to its left half. */
    method SplitInLeaf(path: seq<nat>, pos: nat, at: nat, addrs: seq<nat>, block: nat)
      requires Valid() && IsPath(root, path) && at < |path| == depth && Routes(root, path, block)
      requires NodeAt(root, path).Leaf? && pos + 1 < Entries(NodeAt(root, path)) <= cap
      requires block < NodeAt(root, path).exts[pos + 1].block
      requires HasFree(root, path, at, ROOT_CAP, cap)
      requires |addrs| == depth - at && forall k | 0 <= k < |addrs| :: ROOT_CAP < addrs[k]
      modifies this
      ensures LedgerGrows()
      ensures Valid() && Flat(root) == old(Flat(root)) && depth == old(depth)
      ensures IsPath(root, path) && Routes(root, path, block)
      ensures NodeAt(root, path) == Leaf(old(NodeAt(root, path).exts)[..pos + 1])
      ensures Before(root, path) == old(Before(root, path))
      ensures After(root, path) == old(NodeAt(root, path).exts)[pos + 1..] + old(After(root, path))
    {
      var exts := NodeAt(root, path).exts;
      var l, r := exts[..pos + 1], exts[pos + 1..];
      var border := r[0].block;
      assert exts == l + r;
      FlatAt(root, path);
      SplitAtFlat(root, path, at, l, r, border, addrs);
      SplitAtAddrs(root, path, at, l, r, border, addrs);
      SplitAtShaped(root, path, at, l, r, border, addrs, depth, ROOT_CAP, cap);
      LeftHalfFound(root, path, at, l, r, border, addrs, block);
      born := born + multiset(addrs);
      root := SplitAt(root, path, at, l, r, border, addrs);
    }

    /** The found extent is the last of its leaf: the new extent becomes the first of a new leaf. */
    method SplitAfterLeaf(path: seq<nat>, at: nat, addrs: seq<nat>, newext: Ext)
      requires Valid() && IsPath(root, path) && at < |path| == depth && Routes(root, path, newext.block)
      requires NodeAt(root, path).Leaf? && 0 < Entries(NodeAt(root, path)) <= cap
      requires HasFree(root, path, at, ROOT_CAP, cap)
      requires |addrs| == depth - at && forall k | 0 <= k < |addrs| :: ROOT_CAP < addrs[k]
      requires FitsAt(path, Entries(NodeAt(root, path)), newext)
      modifies this
      ensures LedgerGrows()
      ensures Valid() && MapPlus(old(Flat(root)), Flat(root), newext)
      ensures InsertedPlain(old(Flat(root)), Flat(root), newext)
    {
      var exts, border := NodeAt(root, path).exts, newext.block;
      NewLeafTree(root, path, at, addrs, newext, depth, cap);
      born := born + multiset(addrs);
      root := SplitAt(root, path, at, exts, [], border, addrs);
      root := Store(root, NewPath(path, at), Leaf([newext]), border);
    }
  
    /** ext4_ext_create_new_leaf: splits where an index is free, growing the tree first if none is. */
    method CreateNewLeaf(path0: seq<nat>, pos: nat, newext: Ext, preIo: bool, busy: bool) returns (repeats: nat)
      requires Valid() && IsPath(root, path0) && |path0| == depth && Routes(root, path0, newext.block)
      requires NodeAt(root, path0).Leaf? && Placed(NodeAt(root, path0).exts, pos, newext.block)
      requires Entries(NodeAt(root, path0)) == LeafMax()
      requires newext.Valid() && Free(Flat(root), newext)
      modifies this
      ensures LedgerGrows()
      ensures Valid() && MapPlus(old(Flat(root)), Flat(root), newext)
      ensures preIo ==> InsertedPlain(old(Flat(root)), Flat(root), newext)
      ensures repeats <= 1
    {
      var exts, path := NodeAt(root, path0).exts, path0;
      repeats := 0;
      while true
        invariant Valid() && Flat(root) == old(Flat(root)) && LedgerGrows()
        invariant IsPath(root, path) && |path| == depth && Routes(root, path, newext.block)
        invariant NodeAt(root, path) == Leaf(exts) && |exts| == LeafMax()
        invariant repeats <= 1 && (repeats == 1 ==> 0 < depth && Entries(root) == 1)
        decreases 1 - repeats
      {
        var at: Option<nat> := None;
        if depth > 0 {
          at := FreeLevel(path);
        }
        if at.Some? {
          SplitAndInsert(path, pos, at.value, newext, preIo, busy);
          return;
        }
        path := Grow(path, newext.block);
        if |exts| < cap {
          SearchFits(root, path, pos, newext, depth, cap);
          InsertAt(path, if newext.block > exts[pos].block then pos + 1 else pos, newext, preIo, busy);
          return;
        }
        repeats := repeats + 1;
      }
    }

    /** The leaf is full and the extent lies beyond it: the next leaf may take it. */
    method InsertNext(path: seq<nat>, newext: Ext, preIo: bool, busy: bool) returns (done: bool)
      requires Valid() && 0 < depth == |path| && IsPath(root, path) && NodeAt(root, path).Leaf?
      requires FitsAt(path, Entries(NodeAt(root, path)), newext)
      modifies this
      ensures LedgerGrows()
      ensures !done ==> root == old(root) && depth == old(depth) && born == old(born) && gone == old(gone)
      ensures done ==> Valid() && MapPlus(old(Flat(root)), Flat(root), newext)
      ensures done && preIo ==> InsertedPlain(old(Flat(root)), Flat(root), newext)
    {
      done := false;
      var next := NextLeaf(root, path);
      NextLeafExact(root, path, depth, ROOT_CAP, cap);
      if next.Some? {
        var npath, npos := FindExtent(root, depth, cap, next.value);
        var exts := NodeAt(root, npath).exts;
        if |exts| < LeafMax() {
          NextLeafFits(root, path, npath, npos, next.value, newext, depth, cap);
          InsertAt(npath, npos, newext, preIo, busy); // the extent found lies beyond the new one
          done := true;
        }
      }
    }

    /** ext4_ext_insert_extent */
    method Insert(newext: Ext, preIo: bool, busy: bool) returns (err: bool)
      requires Valid() && (newext.Len() != 0 ==> newext.Valid() && Free(Flat(root), newext))
      modifies this
      ensures LedgerGrows()
      ensures Valid() && (err <==> newext.Len() == 0)
      ensures err ==> Flat(root) == old(Flat(root))
      ensures !err ==> MapPlus(old(Flat(root)), Flat(root), newext)
      ensures !err && preIo ==> InsertedPlain(old(Flat(root)), Flat(root), newext)
    {
      if newext.Len() == 0 {
        return true;
      }
      err := false;
      var path, pos := FindExtent(root, depth, cap, newext.block);
      SearchFits(root, path, pos, newext, depth, cap);
      var merged := false;
      if !preIo {
        merged := MergeFound(path, pos, newext, busy);
      }
      if !merged {
        InsertFound(path, pos, newext, preIo, busy);
      }
    }

    /** What a search for the new extent's first block found. */
    ghost predicate Found(path: seq<nat>, pos: nat, e: Ext)
      reads this
    {
      && IsPath(root, path) && |path| == depth && Routes(root, path, e.block)
      && NodeAt(root, path).Leaf? && Placed(NodeAt(root, path).exts, pos, e.block)
      && FitsAt(path, InsertPos(NodeAt(root, path).exts, pos, e), e)
    }

    /** The new extent continues, or is continued by, an extent of the leaf. */
    method MergeFound(path: seq<nat>, pos: nat, newext: Ext, busy: bool) returns (done: bool)
      requires Valid() && Found(path, pos, newext)
      modifies this
      ensures LedgerGrows()
      ensures !done ==> root == old(root) && depth == old(depth) && born == old(born) && gone == old(gone)
      ensures done ==> Valid() && MapPlus(old(Flat(root)), Flat(root), newext)
    {
      var exts := NodeAt(root, path).exts;
      done := false;
      if exts != [] {
        if pos + 1 < |exts| && exts[pos].End() < newext.block {
          if CanMerge(newext, exts[pos + 1], busy) {
            MergeInto(path, pos + 1, pos + 1, newext, busy);
            done := true;
          }
        } else if CanMerge(exts[pos], newext, busy) {
          MergeInto(path, pos, pos + 1, newext, busy);
          done := true;
        } else if CanMerge(newext, exts[pos], busy) {
          MergeInto(path, pos, pos, newext, busy);
          done := true;
        }
      }
    }

    /** The new extent takes an entry of its own: in the leaf found, in the next one, or in a new one. */
    method InsertFound(path: seq<nat>, pos: nat, newext: Ext, preIo: bool, busy: bool)
      requires Valid() && Found(path, pos, newext) && newext.Valid() && Free(Flat(root), newext)
      modifies this
      ensures LedgerGrows()
      ensures Valid() && MapPlus(old(Flat(root)), Flat(root), newext)
      ensures preIo ==> InsertedPlain(old(Flat(root)), Flat(root), newext)
    {
      var exts := NodeAt(root, path).exts;
      LeafSize(path);
      if |exts| < LeafMax() {
        InsertAt(path, InsertPos(exts, pos, newext), newext, preIo, busy);
      } else {
        var done := false;
        if depth > 0 && newext.block > exts[|exts| - 1].block {
          assert pos + 1 == |exts| by {
            FlatAt(root, path);
            SubOrdered(Before(root, path), exts, After(root, path));
            LastPlaced(exts, pos, newext.block);
          }
          done := InsertNext(path, newext, preIo, busy);
        }
        if !done {
          var _ := CreateNewLeaf(path, pos, newext, preIo, busy);
        }
      }
    }

    lemma LeafSize(path: seq<nat>)
      requires Valid() && IsPath(root, path) && |path| == depth && NodeAt(root, path).Leaf?
      ensures Entries(NodeAt(root, path)) <= LeafMax()
    {
      if depth > 0 {
        ShapedAt(root, path, depth, ROOT_CAP, cap);
      }
    }
  }

  /** Before which entry of the leaf the new extent goes, given the entry found. */
  function InsertPos(exts: seq<Ext>, pos: nat, e: Ext): nat {
    if pos < |exts| && e.block > exts[pos].block then pos + 1 else pos
  }

  lemma LastPlaced(exts: seq<Ext>, pos: nat, block: nat)
    requires Ordered(exts, 0, MAX_BLOCKS) && exts != []
    requires Placed(exts, pos, block) && exts[|exts| - 1].block < block
    ensures pos + 1 == |exts|
  {
    if pos + 1 < |exts| {
      Increasing(exts, pos + 1, |exts| - 1);
    }
  }

  /** A new leaf with the new extent behind the leaf at the end of the path. */
  lemma NewLeafTree(root: Node, path: seq<nat>, at: nat, addrs: seq<nat>, newext: Ext, d: nat, cap: nat)
    requires Shaped(root, d, ROOT_CAP, cap) && Ordered(Flat(root), 0, MAX_BLOCKS)
    requires IsPath(root, path) && at < |path| == d && Routes(root, path, newext.block)
    requires NodeAt(root, path).Leaf? && 0 < Entries(NodeAt(root, path)) <= cap
    requires HasFree(root, path, at, ROOT_CAP, cap)
    requires |addrs| == d - at && forall k | 0 <= k < |addrs| :: ROOT_CAP < addrs[k]
    requires var exts := NodeAt(root, path).exts; Fits(Before(root, path), exts, After(root, path), |exts|, newext)
    ensures var exts, border := NodeAt(root, path).exts, newext.block;
            var empty, path' := SplitAt(root, path, at, exts, [], border, addrs), NewPath(path, at);
            && IsPath(empty, path') && NodeAt(empty, path') == Leaf([]) && Routes(empty, path', border)
            && var full := Store(empty, path', Leaf([newext]), border);
               && Shaped(full, d, ROOT_CAP, cap) && Addrs(full) == Addrs(root) + multiset(addrs)
               && Ordered(Flat(full), 0, MAX_BLOCKS)
               && MapPlus(Flat(root), Flat(full), newext) && InsertedPlain(Flat(root), Flat(full), newext)
  {
    var exts, border := NodeAt(root, path).exts, newext.block;
    NewLeafFound(root, path, at, exts, [newext], border, addrs);
    SplitAtAddrs(root, path, at, exts, [newext], border, addrs);
    SplitAtShaped(root, path, at, exts, [newext], border, addrs, d, ROOT_CAP, cap);
    NewLeafFlat(root, path, at, addrs, newext);
  }

  lemma NewLeafFlat(root: Node, path: seq<nat>, at: nat, addrs: seq<nat>, newext: Ext)
    requires Ordered(Flat(root), 0, MAX_BLOCKS)
    requires IsPath(root, path) && at < |path| && |addrs| == |path| - at && NodeAt(root, path).Leaf?
    requires var exts := NodeAt(root, path).exts; Fits(Before(root, path), exts, After(root, path), |exts|, newext)
    ensures var full := SplitAt(root, path, at, NodeAt(root, path).exts, [newext], newext.block, addrs);
            && Ordered(Flat(full), 0, MAX_BLOCKS)
            && MapPlus(Flat(root), Flat(full), newext) && InsertedPlain(Flat(root), Flat(full), newext)
  {
    var exts := NodeAt(root, path).exts;
    FlatAt(root, path);
    SplitAtFlat(root, path, at, exts, [newext], newext.block, addrs);
    LeafInsert(Before(root, path), exts, After(root, path), |exts|, newext);
    assert exts[..|exts|] + [newext] + exts[|exts|..] == exts + [newext];
  }

  /** The node at level `i` of a path. */
  function LevelNode(n: Node, path: seq<nat>, i: nat): Node
    requires IsPath(n, path) && i <= |path|
    decreases i
  {
    if i == 0 then n else LevelNode(n.idxs[path[0]].child, path[1..], i - 1)
  }

  lemma {:induction false} FreeAt(n: Node, path: seq<nat>, i: nat, max: nat, cap: nat)
    requires IsPath(n, path) && i <= |path|
    ensures HasFree(n, path, i, max, cap) <==> Entries(LevelNode(n, path, i)) < if i == 0 then max else cap
    decreases i
  {
    if i > 0 {
      FreeAt(n.idxs[path[0]].child, path[1..], i - 1, cap, cap);
    }
  }

  lemma CutFits(b: seq<Ext>, exts: seq<Ext>, a: seq<Ext>, m: nat, j: nat, e: Ext)
    requires Fits(b, exts, a, j, e) && j <= m <= |exts|
    ensures Fits(b, exts[..m], exts[m..] + a, j, e)
  {
    assert exts[..m][..j] == exts[..j];
    assert exts[..m][j..] + (exts[m..] + a) == exts[j..] + a;
  }

  /** Searching for the first block of the next leaf leads to the gap before it. */
  lemma NextLeafFits(root: Node, path: seq<nat>, npath: seq<nat>, npos: nat, next: nat, e: Ext, d: nat, cap: nat)
    requires Shaped(root, d, ROOT_CAP, cap) && Ordered(Flat(root), 0, MAX_BLOCKS)
    requires IsPath(root, path) && |path| == d && NodeAt(root, path).Leaf?
    requires var exts := NodeAt(root, path).exts; Fits(Before(root, path), exts, After(root, path), |exts|, e)
    requires After(root, path) != [] && After(root, path)[0].block == next
    requires IsPath(root, npath) && |npath| == d && Routes(root, npath, next) && NodeAt(root, npath).Leaf?
    requires Placed(NodeAt(root, npath).exts, npos, next)
    ensures var exts := NodeAt(root, npath).exts;
            && npos < |exts| && e.block < exts[npos].block
            && Fits(Before(root, npath), exts, After(root, npath), npos, e)
  {
    FlatAt(root, path);
    FlatAt(root, npath);
    FoundFlat(root, npath, npos, next, d, cap);
    SameGap(Before(root, path), NodeAt(root, path).exts, After(root, path),
            Before(root, npath), NodeAt(root, npath).exts, After(root, npath), npos, e);
  }

  lemma SameGap(b: seq<Ext>, x: seq<Ext>, a: seq<Ext>, b': seq<Ext>, x': seq<Ext>, a': seq<Ext>, j: nat, e: Ext)
    requires b + x + a == b' + x' + a' && Ordered(b + x + a, 0, MAX_BLOCKS)
    requires a != [] && Fits(b, x, a, |x|, e) && j < |x'| && Locates(b' + x' + a', |b'| + j, a[0].block)
    ensures e.block < x'[j].block && Fits(b', x', a', j, e)
  {
    var flat, p := b + x + a, |b| + |x|;
    FitsFlat(b, x, a, |x|, e);
    FitsFlat(b', x', a', j, e);
    assert flat[p] == a[0];
    Around(flat, p, 0, MAX_BLOCKS);
    LocatesUnique(flat, p, |b'| + j, a[0].block);
    assert flat[|b'| + j] == x'[j];
  }

  /** Whether an extent fits depends on the list of all extents and the place in it alone. */
  lemma FitsFlat(b: seq<Ext>, exts: seq<Ext>, a: seq<Ext>, j: nat, e: Ext)
    requires j <= |exts|
    ensures var flat, p := b + exts + a, |b| + j;
            Fits(b, exts, a, j, e) <==>
            e.Valid() && LastEnd(flat[..p], 0) <= e.block && (p < |flat| ==> e.End() <= flat[p].block)
  {
    Recut(b, exts, a, j, []);
    var flat, p := b + exts + a, |b| + j;
    assert flat[..p] == b + exts[..j] && flat[p..] == exts[j..] + a;
  }

  // ----- insertion into the leaf `exts` between `b` and `a` -----

  ghost predicate Fits(b: seq<Ext>, exts: seq<Ext>, a: seq<Ext>, j: nat, e: Ext) {
    && j <= |exts| && e.Valid()
    && LastEnd(b + exts[..j], 0) <= e.block
    && (exts[j..] + a != [] ==> e.End() <= (exts[j..] + a)[0].block)
  }

  ghost predicate InsertedPlain(es: seq<Ext>, es': seq<Ext>, e: Ext) {
    exists p | 0 <= p <= |es| :: es' == es[..p] + [e] + es[p..]
  }

  predicate Mergeable(e: Ext, newext: Ext, front: bool, busy: bool) {
    if front then CanMerge(newext, e, busy) else CanMerge(e, newext, busy)
  }

  function Joint(e: Ext, newext: Ext, front: bool): Ext {
    if front then Merged(newext, e) else Merged(e, newext)
  }

  lemma Recut(b: seq<Ext>, exts: seq<Ext>, a: seq<Ext>, j: nat, m: seq<Ext>)
    requires j <= |exts|
    ensures b + exts + a == (b + exts[..j]) + (exts[j..] + a)
    ensures b + (exts[..j] + m + exts[j..]) + a == (b + exts[..j]) + m + (exts[j..] + a)
  {
    assert exts == exts[..j] + exts[j..];
  }

  lemma PlacedFits(b: seq<Ext>, exts: seq<Ext>, a: seq<Ext>, pos: nat, e: Ext)
    requires Ordered(b + exts + a, 0, MAX_BLOCKS) && Free(b + exts + a, e) && e.Valid()
    requires exts != [] && Placed(exts, pos, e.block)
    requires a == [] || a[0].block > e.block
    requires b == [] || exts[0].block <= e.block
    ensures Fits(b, exts, a, if e.block > exts[pos].block then pos + 1 else pos, e)
  {
    PlacedFlat(b, exts, a, pos, e.block);
    FoundFits(b, exts, a, pos, e);
  }

  lemma FoundFits(b: seq<Ext>, exts: seq<Ext>, a: seq<Ext>, pos: nat, e: Ext)
    requires Ordered(b + exts + a, 0, MAX_BLOCKS) && Free(b + exts + a, e) && e.Valid() && pos < |exts|
    requires Locates(b + exts + a, |b| + pos, e.block)
    ensures Fits(b, exts, a, if e.block > exts[pos].block then pos + 1 else pos, e)
  {
    var flat, p := b + exts + a, |b| + pos;
    assert flat[p] == exts[pos];
    FreeApart(flat, e, p, 0, MAX_BLOCKS);
    Around(flat, p, 0, MAX_BLOCKS);
    var j := if e.block > exts[pos].block then pos + 1 else pos;
    Recut(b, exts, a, j, []);
    var x, y := b + exts[..j], exts[j..] + a;
    assert x != [] ==> x[|x| - 1] == flat[|b| + j - 1];
    assert y != [] ==> y[0] == flat[|b| + j];
    GapFits(x, y, e);
  }

  lemma LeafInsert(b: seq<Ext>, exts: seq<Ext>, a: seq<Ext>, j: nat, e: Ext)
    requires Ordered(b + exts + a, 0, MAX_BLOCKS) && Fits(b, exts, a, j, e)
    ensures var flat := b + (exts[..j] + [e] + exts[j..]) + a;
            Ordered(flat, 0, MAX_BLOCKS) && MapPlus(b + exts + a, flat, e) && InsertedPlain(b + exts + a, flat, e)
  {
    var x, y := b + exts[..j], exts[j..] + a;
    Recut(b, exts, a, j, [e]);
    InsertEffect(x, y, e);
    var es := x + y;
    assert es[..|x|] == x && es[|x|..] == y;
  }

  lemma LeafMergeInto(b: seq<Ext>, exts: seq<Ext>, a: seq<Ext>, k: nat, j: nat, e: Ext, busy: bool)
    requires Ordered(b + exts + a, 0, MAX_BLOCKS) && Fits(b, exts, a, j, e)
    requires k < |exts| && (j == k || j == k + 1) && Mergeable(exts[k], e, j == k, busy)
    ensures var flat := b + exts[k := Joint(exts[k], e, j == k)] + a;
            Ordered(flat, 0, MAX_BLOCKS) && MapPlus(b + exts + a, flat, e)
  {
    LeafInsert(b, exts, a, j, e);
    var p, q := if j == k then e else exts[k], if j == k then exts[k] else e;
    var x, z := b + exts[..k], exts[k + 1..] + a;
    assert exts[..j] + [e] + exts[j..] == exts[..k] + [p, q] + exts[k + 1..];
    PairIn(b, exts[..k], [p, q], exts[k + 1..], a);
    MergePairIn(x, p, q, z, busy);
    var joint := Joint(exts[k], e, j == k);
    assert exts[k := joint] == exts[..k] + [joint] + exts[k + 1..];
    PairIn(b, exts[..k], [joint], exts[k + 1..], a);
  }

  lemma PairIn(b: seq<Ext>, x: seq<Ext>, m: seq<Ext>, z: seq<Ext>, a: seq<Ext>)
    ensures b + (x + m + z) + a == (b + x) + m + (z + a)
  {
  }

  lemma MergePairIn(x: seq<Ext>, p: Ext, q: Ext, z: seq<Ext>, busy: bool)
    requires Ordered(x + [p, q] + z, 0, MAX_BLOCKS) && CanMerge(p, q, busy)
    ensures Ordered(x + [Merged(p, q)] + z, 0, MAX_BLOCKS)
    ensures SameMap(x + [p, q] + z, x + [Merged(p, q)] + z)
  {
    var es, i := x + [p, q] + z, |x|;
    assert es[..i] == x && es[i] == p && es[i + 1] == q && es[i + 2..] == z;
    MergePair(es, i, busy, 0, MAX_BLOCKS);
  }
}
