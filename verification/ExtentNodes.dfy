/**
 The nodes of an on-disk extent tree and the paths into it (mqfs/extents.c, mqfs/ext4_extents.h).

 A path is the index taken at every level; a node is reached, replaced or split by following one.
 */
module ExtentNodes {
  import opened Common
  import opened ExtentLists

  /** Entries that fit into the inode. */
  const ROOT_CAP: nat := 4

  datatype Node = Leaf(exts: seq<Ext>) | Index(idxs: seq<Idx>)

  /** An index entry: the first block below it and the tree block it points to. */
  datatype Idx = Idx(key: nat, addr: nat, child: Node)

  /** eh_entries */
  function Entries(n: Node): nat {
    if n.Leaf? then |n.exts| else |n.idxs|
  }

  /** The block of the first entry. */
  function First(n: Node): nat
    requires Entries(n) > 0
  {
    if n.Leaf? then n.exts[0].block else n.idxs[0].key
  }

  // ----- contents -----

  /** All extents of the tree, from left to right. */
  ghost function Flat(n: Node): seq<Ext> {
    match n
    case Leaf(exts) => exts
    case Index(idxs) => FlatAll(idxs)
  }

  ghost function FlatAll(idxs: seq<Idx>): seq<Ext> {
    if idxs == [] then [] else FlatEntry(idxs[0]) + FlatAll(idxs[1..])
  }

  ghost function FlatEntry(i: Idx): seq<Ext> {
    Flat(i.child)
  }

  lemma {:induction false} FlatAllConcat(x: seq<Idx>, y: seq<Idx>)
    ensures FlatAll(x + y) == FlatAll(x) + FlatAll(y)
  {
    if x == [] {
      assert x + y == y;
    } else {
      assert (x + y)[1..] == x[1..] + y;
      FlatAllConcat(x[1..], y);
    }
  }

  lemma FlatAllAt(idxs: seq<Idx>, i: nat)
    requires i < |idxs|
    ensures FlatAll(idxs) == FlatAll(idxs[..i]) + Flat(idxs[i].child) + FlatAll(idxs[i + 1..])
  {
    assert idxs == idxs[..i] + idxs[i..];
    FlatAllConcat(idxs[..i], idxs[i..]);
    assert idxs[i..][1..] == idxs[i + 1..];
    assert FlatAll(idxs[i..]) == Flat(idxs[i].child) + FlatAll(idxs[i + 1..]);
  }

  /** The tree blocks in use below a node. */
  ghost function Addrs(n: Node): multiset<nat> {
    match n
    case Leaf(_) => multiset{}
    case Index(idxs) => AddrsAll(idxs)
  }

  ghost function AddrsAll(idxs: seq<Idx>): multiset<nat> {
    if idxs == [] then multiset{} else AddrsEntry(idxs[0]) + AddrsAll(idxs[1..])
  }

  ghost function AddrsEntry(i: Idx): multiset<nat> {
    multiset{i.addr} + Addrs(i.child)
  }

  lemma {:induction false} AddrsAllConcat(x: seq<Idx>, y: seq<Idx>)
    ensures AddrsAll(x + y) == AddrsAll(x) + AddrsAll(y)
  {
    if x == [] {
      assert x + y == y;
    } else {
      assert (x + y)[1..] == x[1..] + y;
      AddrsAllConcat(x[1..], y);
    }
  }

  lemma AddrsAllAt(idxs: seq<Idx>, i: nat)
    requires i < |idxs|
    ensures AddrsAll(idxs) == AddrsAll(idxs[..i]) + AddrsEntry(idxs[i]) + AddrsAll(idxs[i + 1..])
  {
    assert idxs == idxs[..i] + idxs[i..];
    AddrsAllConcat(idxs[..i], idxs[i..]);
    assert idxs[i..][1..] == idxs[i + 1..];
  }

  // ----- shape -----

  /** Depth `d`, at most `max` entries here and `cap` in every node below, none empty, every index key equal to the
      first block below it.  Blocks 0 to 4 hold the superblock, descriptors, bitmaps and inode table, never a tree
      node. */
  ghost predicate Shaped(n: Node, d: nat, max: nat, cap: nat)
    decreases d, 0
  {
    && 1 <= Entries(n) <= max
    && (if d == 0 then n.Leaf? else n.Index? && forall i | 0 <= i < |n.idxs| :: EntryOk(n.idxs[i], d - 1, cap))
  }

  ghost predicate EntryOk(i: Idx, d: nat, cap: nat)
    decreases d, 1
  {
    Shaped(i.child, d, cap, cap) && i.key == First(i.child) && ROOT_CAP < i.addr
  }

  /** The root may be an empty leaf. */
  ghost predicate RootOk(root: Node, d: nat, cap: nat) {
    (d == 0 && root == Leaf([])) || Shaped(root, d, ROOT_CAP, cap)
  }

  // ----- paths -----

  ghost predicate IsPath(n: Node, path: seq<nat>)
    decreases |path|
  {
    path == [] || (n.Index? && path[0] < |n.idxs| && IsPath(n.idxs[path[0]].child, path[1..]))
  }

  function NodeAt(n: Node, path: seq<nat>): Node
    requires IsPath(n, path)
    decreases |path|
  {
    if path == [] then n else NodeAt(n.idxs[path[0]].child, path[1..])
  }

  /** The extents left of the path's end, and right of it. */
  ghost function Before(n: Node, path: seq<nat>): seq<Ext>
    requires IsPath(n, path)
    decreases |path|
  {
    if path == [] then [] else FlatAll(n.idxs[..path[0]]) + Before(n.idxs[path[0]].child, path[1..])
  }

  ghost function After(n: Node, path: seq<nat>): seq<Ext>
    requires IsPath(n, path)
    decreases |path|
  {
    if path == [] then [] else After(n.idxs[path[0]].child, path[1..]) + FlatAll(n.idxs[path[0] + 1..])
  }

  lemma {:induction false} FlatAt(n: Node, path: seq<nat>)
    requires IsPath(n, path)
    ensures Flat(n) == Before(n, path) + Flat(NodeAt(n, path)) + After(n, path)
    decreases |path|
  {
    if path != [] {
      var i := path[0];
      var child := n.idxs[i].child;
      FlatAt(child, path[1..]);
      FlatAllAt(n.idxs, i);
      Regroup(FlatAll(n.idxs[..i]), Before(child, path[1..]), Flat(NodeAt(n, path)), After(child, path[1..]),
              FlatAll(n.idxs[i + 1..]));
    }
  }

  predicate AllZero(path: seq<nat>) {
    forall i | 0 <= i < |path| :: path[i] == 0
  }

  /** Storing a node at the end of a path and correcting the index keys above it: every key on the path for which the
      stored node comes first becomes `border` (ext4_ext_correct_indexes). */
  function Store(n: Node, path: seq<nat>, m: Node, border: nat): Node
    requires IsPath(n, path)
    decreases |path|
  {
    if path == [] then m
    else
      var e := n.idxs[path[0]];
      var child := Store(e.child, path[1..], m, border);
      Index(n.idxs[path[0] := Idx(if AllZero(path[1..]) then border else e.key, e.addr, child)])
  }

  lemma {:induction false} StoreFlat(n: Node, path: seq<nat>, m: Node, border: nat)
    requires IsPath(n, path)
    ensures Flat(Store(n, path, m, border)) == Before(n, path) + Flat(m) + After(n, path)
    decreases |path|
  {
    if path != [] {
      var i := path[0];
      var child := n.idxs[i].child;
      StoreFlat(child, path[1..], m, border);
      var idxs' := Store(n, path, m, border).idxs;
      assert idxs'[..i] == n.idxs[..i] && idxs'[i + 1..] == n.idxs[i + 1..];
      FlatAllAt(idxs', i);
      Regroup(FlatAll(n.idxs[..i]), Before(child, path[1..]), Flat(m), After(child, path[1..]),
              FlatAll(n.idxs[i + 1..]));
    }
  }

  lemma Regroup(a: seq<Ext>, b: seq<Ext>, c: seq<Ext>, d: seq<Ext>, e: seq<Ext>)
    ensures a + (b + c + d) + e == (a + b) + c + (d + e)
  {
  }

  lemma {:induction false} StoreAddrs(n: Node, path: seq<nat>, m: Node, border: nat)
    requires IsPath(n, path)
    ensures Addrs(Store(n, path, m, border)) + Addrs(NodeAt(n, path)) == Addrs(n) + Addrs(m)
    decreases |path|
  {
    if path != [] {
      var i := path[0];
      var e := n.idxs[i];
      StoreAddrs(e.child, path[1..], m, border);
      var idxs' := Store(n, path, m, border).idxs;
      assert idxs'[..i] == n.idxs[..i] && idxs'[i + 1..] == n.idxs[i + 1..];
      AddrsAllAt(idxs', i);
      AddrsAllAt(n.idxs, i);
      Exchange(AddrsAll(n.idxs[..i]), multiset{e.addr}, Addrs(e.child), Addrs(idxs'[i].child),
               AddrsAll(n.idxs[i + 1..]), Addrs(NodeAt(n, path)), Addrs(m));
    }
  }

  lemma Exchange(l: multiset<nat>, a: multiset<nat>, x: multiset<nat>, x': multiset<nat>, r: multiset<nat>,
                 y: multiset<nat>, z: multiset<nat>)
    requires x' + y == x + z
    ensures (l + (a + x') + r) + y == (l + (a + x) + r) + z
  {
    assert (l + (a + x') + r) + y == (l + a + r) + (x' + y);
    assert (l + (a + x) + r) + z == (l + a + r) + (x + z);
  }

  lemma {:induction false} ShapedAt(n: Node, path: seq<nat>, d: nat, max: nat, cap: nat)
    requires IsPath(n, path) && Shaped(n, d, max, cap) && |path| <= d
    ensures Shaped(NodeAt(n, path), d - |path|, if path == [] then max else cap, cap)
    decreases |path|
  {
    if path != [] {
      assert EntryOk(n.idxs[path[0]], d - 1, cap);
      ShapedAt(n.idxs[path[0]].child, path[1..], d - 1, cap, cap);
    }
  }

  /** Storing a well-formed node keeps the tree well formed; only a node on the left edge moves the first key. */
  lemma {:induction false} StoreShaped(n: Node, path: seq<nat>, m: Node, d: nat, max: nat, cap: nat)
    requires IsPath(n, path) && Shaped(n, d, max, cap) && |path| <= d
    requires Shaped(m, d - |path|, if path == [] then max else cap, cap)
    ensures Shaped(Store(n, path, m, First(m)), d, max, cap)
    ensures First(Store(n, path, m, First(m))) == if AllZero(path) then First(m) else First(n)
    decreases |path|
  {
    if path != [] {
      var i := path[0];
      var n' := Store(n, path, m, First(m));
      assert EntryOk(n.idxs[i], d - 1, cap);
      StoreShaped(n.idxs[i].child, path[1..], m, d - 1, cap, cap);
      forall j | 0 <= j < |n'.idxs|
        ensures EntryOk(n'.idxs[j], d - 1, cap)
      {
        assert EntryOk(n.idxs[j], d - 1, cap);
      }
      assert AllZero(path) <==> i == 0 && AllZero(path[1..]);
    }
  }

  // ----- searching -----

  lemma {:induction false} FlatFirst(n: Node, d: nat, max: nat, cap: nat)
    requires Shaped(n, d, max, cap)
    ensures Flat(n) != [] && Flat(n)[0].block == First(n)
    decreases d
  {
    if d > 0 {
      assert EntryOk(n.idxs[0], d - 1, cap);
      FlatFirst(n.idxs[0].child, d - 1, cap, cap);
      assert FlatAll(n.idxs) == Flat(n.idxs[0].child) + FlatAll(n.idxs[1..]);
    }
  }

  /** The extents from entry `k` on start with its key. */
  lemma NextFirst(idxs: seq<Idx>, k: nat, d: nat, cap: nat)
    requires 0 < d && k < |idxs| && EntryOk(idxs[k], d - 1, cap)
    ensures FlatAll(idxs[k..]) != [] && FlatAll(idxs[k..])[0].block == idxs[k].key
  {
    FlatFirst(idxs[k].child, d - 1, cap, cap);
    assert idxs[k..][0] == idxs[k];
    assert FlatAll(idxs[k..]) == Flat(idxs[k].child) + FlatAll(idxs[k..][1..]);
  }

  /** Index keys grow from left to right. */
  lemma KeysIncrease(n: Node, d: nat, max: nat, cap: nat, hi: int, i: nat, j: nat)
    requires Shaped(n, d, max, cap) && 0 < d && Ordered(Flat(n), 0, hi) && i < j < |n.idxs|
    ensures n.idxs[i].key < n.idxs[j].key
  {
    assert EntryOk(n.idxs[i], d - 1, cap) && EntryOk(n.idxs[j], d - 1, cap);
    FlatAllAt(n.idxs, j);
    FlatFirst(n.idxs[j].child, d - 1, cap, cap);
    FlatFirst(n.idxs[i].child, d - 1, cap, cap);
    var k := EntryPlace(n.idxs, i, j);
    FirstBelow(FlatAll(n.idxs[..j]), Flat(n.idxs[j].child), FlatAll(n.idxs[j + 1..]), k, hi);
  }

  /** Where the extents of entry `i` start among those before entry `j`. */
  lemma EntryPlace(idxs: seq<Idx>, i: nat, j: nat) returns (k: nat)
    requires i < j <= |idxs| && Flat(idxs[i].child) != []
    ensures k < |FlatAll(idxs[..j])| && FlatAll(idxs[..j])[k] == Flat(idxs[i].child)[0]
  {
    assert idxs[..j][..i] == idxs[..i] && idxs[..j][i] == idxs[i];
    FlatAllAt(idxs[..j], i);
    k := |FlatAll(idxs[..i])|;
  }

  lemma FirstBelow(x: seq<Ext>, y: seq<Ext>, z: seq<Ext>, k: nat, hi: int)
    requires Ordered(x + y + z, 0, hi) && k < |x| && y != []
    ensures x[k].block < y[0].block
  {
    Split3(x, y, z, 0, hi);
    Around(x, k, 0, LastEnd(x, 0));
  }

  /** The path a search for `block` takes: at every level the last entry whose key is not beyond the block, or the
      first entry. */
  ghost predicate Routes(n: Node, path: seq<nat>, block: nat)
    requires IsPath(n, path)
    decreases |path|
  {
    path == [] ||
    (RouteStep(n.idxs, path[0], block) && Routes(n.idxs[path[0]].child, path[1..], block))
  }

  ghost predicate RouteStep(idxs: seq<Idx>, i: nat, block: nat)
    requires i < |idxs|
  {
    (i == 0 || idxs[i].key <= block) && (i + 1 < |idxs| ==> block < idxs[i + 1].key)
  }

  /** Nothing right of the search path starts at or before the block, and only a path along the left edge can end in a
      leaf that starts after it. */
  lemma RoutesPlace(n: Node, path: seq<nat>, block: nat, d: nat, max: nat, cap: nat)
    requires Shaped(n, d, max, cap) && IsPath(n, path) && |path| == d && Routes(n, path, block)
    ensures After(n, path) == [] || After(n, path)[0].block > block
    ensures Entries(NodeAt(n, path)) > 0
    ensures AllZero(path) ==> Before(n, path) == [] && First(NodeAt(n, path)) == First(n)
    ensures !AllZero(path) ==> First(NodeAt(n, path)) <= block
  {
    RoutesAfter(n, path, block, d, max, cap);
    RoutesFirst(n, path, block, d, max, cap);
  }

  lemma {:induction false} RoutesAfter(n: Node, path: seq<nat>, block: nat, d: nat, max: nat, cap: nat)
    requires Shaped(n, d, max, cap) && IsPath(n, path) && |path| == d && Routes(n, path, block)
    ensures After(n, path) == [] || After(n, path)[0].block > block
    decreases d
  {
    if d > 0 {
      var i := path[0];
      assert EntryOk(n.idxs[i], d - 1, cap);
      RoutesAfter(n.idxs[i].child, path[1..], block, d - 1, cap, cap);
      if i + 1 < |n.idxs| {
        assert EntryOk(n.idxs[i + 1], d - 1, cap);
        NextFirst(n.idxs, i + 1, d, cap);
      }
      BothAfter(After(n.idxs[i].child, path[1..]), FlatAll(n.idxs[i + 1..]), block);
    }
  }

  lemma BothAfter(x: seq<Ext>, y: seq<Ext>, block: nat)
    requires x == [] || x[0].block > block
    requires y == [] || y[0].block > block
    ensures x + y == [] || (x + y)[0].block > block
  {
  }

  lemma {:induction false} RoutesFirst(n: Node, path: seq<nat>, block: nat, d: nat, max: nat, cap: nat)
    requires Shaped(n, d, max, cap) && IsPath(n, path) && |path| == d && Routes(n, path, block)
    ensures Entries(NodeAt(n, path)) > 0
    ensures AllZero(path) ==> Before(n, path) == [] && First(NodeAt(n, path)) == First(n)
    ensures !AllZero(path) ==> First(NodeAt(n, path)) <= block
    decreases d
  {
    if d > 0 {
      var i := path[0];
      assert EntryOk(n.idxs[i], d - 1, cap);
      RoutesFirst(n.idxs[i].child, path[1..], block, d - 1, cap, cap);
      assert AllZero(path) <==> i == 0 && AllZero(path[1..]);
      assert i == 0 ==> n.idxs[..i] == [];
    }
  }

  /** ext4_ext_binsearch_idx */
  method BinSearchIdx(idxs: seq<Idx>, block: nat) returns (i: nat)
    requires idxs != [] && forall j, k | 0 <= j < k < |idxs| :: idxs[j].key < idxs[k].key
    ensures i < |idxs| && RouteStep(idxs, i, block)
  {
    var l, r := 1, |idxs| - 1;
    while l <= r
      invariant 1 <= l <= r + 1 <= |idxs|
      invariant l == 1 || idxs[l - 1].key <= block
      invariant r + 1 < |idxs| ==> block < idxs[r + 1].key
    {
      var m := l + (r - l) / 2;
      if block < idxs[m].key {
        r := m - 1;
      } else {
        l := m + 1;
      }
    }
    i := l - 1;
  }

  /** ext4_ext_binsearch: the last extent not beyond the block, or the first one. */
  method BinSearch(exts: seq<Ext>, block: nat, ghost lo: int, ghost hi: int) returns (i: nat)
    requires exts != [] && Ordered(exts, lo, hi)
    ensures i < |exts| && (i == 0 || exts[i].block <= block) && (i + 1 < |exts| ==> block < exts[i + 1].block)
  {
    var l, r := 1, |exts| - 1;
    while l <= r
      invariant 1 <= l <= r + 1 <= |exts|
      invariant l == 1 || exts[l - 1].block <= block
      invariant r + 1 < |exts| ==> block < exts[r + 1].block
    {
      var m := l + (r - l) / 2;
      if block < exts[m].block {
        r := m - 1;
      } else {
        l := m + 1;
      }
    }
    i := l - 1;
  }

  /** ext4_find_extent: the path to the leaf and, unless the tree is empty, the extent in it. */
  method FindExtent(root: Node, d: nat, cap: nat, block: nat) returns (path: seq<nat>, pos: nat)
    requires RootOk(root, d, cap)
    requires Ordered(Flat(root), 0, MAX_BLOCKS)
    ensures IsPath(root, path) && |path| == d && Routes(root, path, block)
    ensures NodeAt(root, path).Leaf? && Placed(NodeAt(root, path).exts, pos, block)
  {
    path := [];
    var node := root;
    while |path| < d
      invariant |path| <= d && IsPath(root, path) && NodeAt(root, path) == node && Routes(root, path, block)
      invariant d == 0 ==> node == root
      invariant d > 0 ==> Shaped(node, d - |path|, if path == [] then ROOT_CAP else cap, cap)
      invariant Ordered(Flat(node), 0, MAX_BLOCKS)
      decreases d - |path|
    {
      Descend(node, d - |path|, if path == [] then ROOT_CAP else cap, cap);
      var i := BinSearchIdx(node.idxs, block);
      PathExtend(root, path, i, block);
      path := path + [i];
      node := node.idxs[i].child;
    }
    pos := 0;
    if node.exts != [] {
      pos := BinSearch(node.exts, block, 0, MAX_BLOCKS);
    }
  }

  /** What a search needs at every index node: sorted keys, and children that are searchable themselves. */
  lemma Descend(n: Node, d: nat, max: nat, cap: nat)
    requires Shaped(n, d, max, cap) && 0 < d && Ordered(Flat(n), 0, MAX_BLOCKS)
    ensures forall j, k | 0 <= j < k < |n.idxs| :: n.idxs[j].key < n.idxs[k].key
    ensures forall i | 0 <= i < |n.idxs| ::
              Shaped(n.idxs[i].child, d - 1, cap, cap) && Ordered(Flat(n.idxs[i].child), 0, MAX_BLOCKS)
  {
    forall j, k | 0 <= j < k < |n.idxs|
      ensures n.idxs[j].key < n.idxs[k].key
    {
      KeysIncrease(n, d, max, cap, MAX_BLOCKS, j, k);
    }
    forall i | 0 <= i < |n.idxs|
      ensures Shaped(n.idxs[i].child, d - 1, cap, cap) && Ordered(Flat(n.idxs[i].child), 0, MAX_BLOCKS)
    {
      assert EntryOk(n.idxs[i], d - 1, cap);
      FlatAllAt(n.idxs, i);
      SubOrdered(FlatAll(n.idxs[..i]), Flat(n.idxs[i].child), FlatAll(n.idxs[i + 1..]));
    }
  }

  /** Where in a leaf a search for `block` ends. */
  ghost predicate Placed(exts: seq<Ext>, pos: nat, block: nat) {
    if exts == [] then pos == 0
    else
      pos < |exts| && (pos == 0 || exts[pos].block <= block) && (pos + 1 < |exts| ==> block < exts[pos + 1].block)
  }

  lemma SubOrdered(x: seq<Ext>, y: seq<Ext>, z: seq<Ext>)
    requires Ordered(x + y + z, 0, MAX_BLOCKS)
    ensures Ordered(y, 0, MAX_BLOCKS)
  {
    Split3(x, y, z, 0, MAX_BLOCKS);
    var a := LastEnd(x, 0);
    Loosen(y, 0, a, LastEnd(y, a), MAX_BLOCKS);
  }

  lemma {:induction false} PathExtend(n: Node, path: seq<nat>, i: nat, block: nat)
    requires IsPath(n, path) && NodeAt(n, path).Index? && i < |NodeAt(n, path).idxs|
    ensures IsPath(n, path + [i]) && NodeAt(n, path + [i]) == NodeAt(n, path).idxs[i].child
    ensures Routes(n, path, block) && RouteStep(NodeAt(n, path).idxs, i, block) ==> Routes(n, path + [i], block)
    decreases |path|
  {
    if path == [] {
      assert (path + [i])[1..] == [];
    } else {
      assert (path + [i])[1..] == path[1..] + [i];
      PathExtend(n.idxs[path[0]].child, path[1..], i, block);
    }
  }
}
