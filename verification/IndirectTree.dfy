/**
 A file mapped by pointer blocks, and looking blocks up in it (mqfs/indirect.c, ext4_get_branch, ext4_ind_map_blocks).
 */
module IndirectTree {
  import opened Common
  import opened Arithmetic
  import opened IndirectPath

  /** A pointer: null, or a block with the pointers it holds.  A data block holds none. */
  datatype Branch = Null | Block(nr: nat, kids: seq<Branch>)

  ghost predicate Shaped(b: Branch, p: nat, h: nat)
    decreases h
  {
    b.Null? || (b.nr != 0 && if h == 0 then b.kids == []
                             else |b.kids| == p && forall i | 0 <= i < p :: Shaped(b.kids[i], p, h - 1))
  }

  /** The fifteen pointers of the inode. */
  ghost predicate InodeOk(data: seq<Branch>, p: nat) {
    |data| == TIND + 1 && forall i | 0 <= i <= TIND :: Shaped(data[i], p, SlotHeight(i))
  }

  /** Following offsets down from a pointer. */
  ghost function Walk(b: Branch, ds: seq<nat>): Branch
    decreases |ds|
  {
    if ds == [] then b
    else if b.Block? && ds[0] < |b.kids| then Walk(b.kids[ds[0]], ds[1..])
    else Null
  }

  /** What a path leads to: null, or a data block. */
  ghost function At(data: seq<Branch>, path: seq<nat>): Branch
    requires path != [] && path[0] < |data|
  {
    Walk(data[path[0]], path[1..])
  }

  /** The pointers on the way down, up to the first null one. */
  ghost predicate IsChain(chain: seq<Branch>, top: Branch, ds: seq<nat>, p: nat) {
    && 0 < |chain| <= |ds| + 1 && chain[0] == top
    && forall i | 0 <= i < |chain| - 1 :: Linked(chain, ds, i)
  }

  ghost predicate Linked(chain: seq<Branch>, ds: seq<nat>, i: nat)
    requires i + 1 < |chain| <= |ds| + 1
  {
    chain[i].Block? && ds[i] < |chain[i].kids| && chain[i + 1] == chain[i].kids[ds[i]]
  }

  /** ext4_get_branch for the first `depth` offsets. */
  method GetBranch(data: seq<Branch>, offsets: seq<nat>, depth: nat, p: nat) returns (chain: seq<Branch>)
    requires InodeOk(data, p) && IsOffsets(p, offsets) && 0 < depth <= |offsets|
    ensures IsChain(chain, data[offsets[0]], offsets[1..], p) && |chain| <= depth
    ensures |chain| == depth || chain[|chain| - 1].Null?
    ensures forall i | 0 <= i < |chain| - 1 :: chain[i].Block?
    ensures ChainShaped(chain, p, |offsets| - 1)
  {
    chain := [data[offsets[0]]];
    while |chain| < depth && chain[|chain| - 1].Block?
      invariant IsChain(chain, data[offsets[0]], offsets[1..], p) && |chain| <= depth
      invariant ChainShaped(chain, p, |offsets| - 1)
      decreases depth - |chain|
    {
      var b := chain[|chain| - 1];
      assert Shaped(b, p, |offsets| - |chain|);
      ghost var was, ds := chain, offsets[1..];
      chain := chain + [b.kids[offsets[|chain|]]];
      forall i | 0 <= i < |chain| - 1
        ensures Linked(chain, ds, i)
      {
        assert i < |was| - 1 ==> Linked(was, ds, i);
      }
    }
    forall i | 0 <= i < |chain| - 1
      ensures chain[i].Block?
    {
      assert Linked(chain, offsets[1..], i);
    }
  }

  ghost predicate ChainShaped(chain: seq<Branch>, p: nat, h: nat) {
    |chain| <= h + 1 && forall i | 0 <= i < |chain| :: Shaped(chain[i], p, h - i)
  }

  /** Element `i` of the chain is where the first `i` offsets lead. */
  lemma {:induction false} ChainWalk(chain: seq<Branch>, top: Branch, ds: seq<nat>, p: nat, i: nat)
    requires IsChain(chain, top, ds, p) && i < |chain|
    ensures Walk(top, ds) == Walk(chain[i], ds[i..])
  {
    if i == 0 {
      assert ds[0..] == ds;
    } else {
      ChainWalk(chain, top, ds, p, i - 1);
      assert ds[i - 1..][1..] == ds[i..];
      assert Linked(chain, ds, i - 1);
    }
  }

  /** Below a null pointer there is nothing. */
  lemma {:induction false} WalkNull(b: Branch, ds: seq<nat>)
    requires b.Null?
    ensures Walk(b, ds) == Null
  {
  }

  lemma {:induction false} WalkSplit(b: Branch, x: seq<nat>, y: seq<nat>)
    ensures Walk(b, x + y) == Walk(Walk(b, x), y)
    decreases |x|
  {
    if x == [] {
      assert x + y == y;
    } else {
      assert (x + y)[1..] == x[1..] + y;
      if b.Block? && x[0] < |b.kids| {
        WalkSplit(b.kids[x[0]], x[1..], y);
      } else {
        WalkNull(Null, y);
      }
    }
  }

  // ----- the hole behind a missing pointer -----

  lemma {:induction false} ValueSplit(p: nat, x: seq<nat>, y: seq<nat>)
    ensures Value(p, x + y) == Value(p, x) * Width(p, |y|) + Value(p, y)
  {
    if x == [] {
      assert x + y == y;
    } else {
      var w, v := Width(p, |y|), Width(p, |x| - 1);
      assert (x + y)[1..] == x[1..] + y;
      ValueSplit(p, x[1..], y);
      WidthProduct(p, |x| - 1, |y|);
      assert x[0] * (v * w) + Value(p, x[1..]) * w == (x[0] * v + Value(p, x[1..])) * w by {
        Factor(x[0], v, w, Value(p, x[1..]));
      }
    }
  }

  lemma Factor(a: nat, v: nat, w: nat, c: nat)
    ensures a * (v * w) + c * w == (a * v + c) * w
  {
  }

  lemma {:induction false} WidthProduct(p: nat, a: nat, b: nat)
    ensures Width(p, a + b) == Width(p, a) * Width(p, b)
  {
    if a > 0 {
      WidthProduct(p, a - 1, b);
      Reassociate(p, Width(p, a - 1), Width(p, b));
    }
  }

  lemma Reassociate(a: nat, b: nat, c: nat)
    ensures a * (b * c) == a * b * c
  {
  }

  function Nines(p: nat, n: nat): seq<nat>
    requires 0 < p
  {
    seq(n, _ => p - 1)
  }

  lemma {:induction false} NinesValue(p: nat, n: nat)
    requires 0 < p
    ensures Value(p, Nines(p, n)) == Width(p, n) - 1 && Digits(p, Nines(p, n))
  {
    if n > 0 {
      assert Nines(p, n)[1..] == Nines(p, n - 1);
      NinesValue(p, n - 1);
      assert (p - 1) * Width(p, n - 1) == p * Width(p, n - 1) - Width(p, n - 1);
    }
  }

  lemma SnocValue(p: nat, x: seq<nat>, d: nat)
    ensures Value(p, x + [d]) == Value(p, x) * p + d
  {
    ValueSplit(p, x, [d]);
    Spell1(p, d);
    Widths(p);
  }

  lemma BehindDigit(p: nat, x: seq<nat>, d: nat)
    ensures (Width(p, |x|) - 1 - Value(p, x)) * p + (p - d - 1) == Width(p, |x| + 1) - 1 - Value(p, x + [d])
  {
    SnocValue(p, x, d);
    Telescope(Width(p, |x|), Value(p, x), p);
  }

  lemma Telescope(w: int, v: int, p: int)
    ensures (w - 1 - v) * p == p * w - p - v * p
  {
  }

  /** The loop that sums up the complete subtrees behind the offsets. */
  method CountHole(p: nat, ds: seq<nat>) returns (count: nat)
    requires Digits(p, ds)
    ensures count == Width(p, |ds|) - Value(p, ds)
  {
    var n: int := 0;
    assert ds[..0] == [];
    for i := 0 to |ds|
      invariant n == Width(p, i) - 1 - Value(p, ds[..i])
    {
      assert ds[..i + 1] == ds[..i] + [ds[i]];
      BehindDigit(p, ds[..i], ds[i]);
      n := n * p + (p - ds[i] - 1);
    }
    assert ds[..|ds|] == ds;
    ValueBounded(p, ds);
    count := n + 1;
  }

  /** What lies between two paths with a common start shares that start. */
  lemma {:induction false} Sandwich(x: seq<nat>, y: seq<nat>, z: seq<nat>, m: nat)
    requires x == y || Lex(x, y)
    requires y == z || Lex(y, z)
    requires m <= |x| && m <= |z| && x[..m] == z[..m] && m <= |y|
    ensures y[..m] == x[..m]
  {
    if m > 0 {
      assert x[..m][0] == z[..m][0];
      assert x[1..][..m - 1] == x[..m][1..] && z[1..][..m - 1] == z[..m][1..];
      Sandwich(x[1..], y[1..], z[1..], m - 1);
      assert x[..m] == [x[0]] + x[1..][..m - 1] && y[..m] == [y[0]] + y[1..][..m - 1];
    }
  }

  /** The blocks from a path's own up to the end of the subtree below its first `m` offsets. */
  lemma SubtreeEnd(p: nat, path: seq<nat>, m: nat)
    requires IsOffsets(p, path) && 0 < m <= |path| && 0 < p
    ensures var hi := path[..m] + Nines(p, |path| - m);
            && IsOffsets(p, hi) && BlockOf(p, hi) + 1 == BlockOf(p, path) + Width(p, |path| - m) - Value(p, path[m..])
  {
    var n := |path| - m;
    var hi := path[..m] + Nines(p, n);
    NinesValue(p, n);
    assert hi[1..] == path[1..m] + Nines(p, n);
    assert path[1..] == path[1..m] + path[m..];
    ValueSplit(p, path[1..m], Nines(p, n));
    ValueSplit(p, path[1..m], path[m..]);
    DigitsJoin(p, path, m);
  }

  lemma DigitsJoin(p: nat, path: seq<nat>, m: nat)
    requires 0 < m <= |path| && 0 < p && Digits(p, path[1..])
    ensures Digits(p, path[1..m] + Nines(p, |path| - m))
  {
    var ds := path[1..m] + Nines(p, |path| - m);
    forall i | 0 <= i < |ds|
      ensures ds[i] < p
    {
      if i < m - 1 {
        assert path[1..m][i] == path[1..][i];
      }
    }
  }

  /** A pointer missing after the first `m` offsets leaves exactly the rest of its subtree unmapped: every block from
      the one looked up to the end of the subtree, and the next block belongs to another subtree. */
  lemma HoleExact(data: seq<Branch>, p: nat, path: seq<nat>, m: nat, other: seq<nat>)
    requires InodeOk(data, p) && IsOffsets(p, path) && IsOffsets(p, other) && 0 < m <= |path| && 0 < p
    requires Walk(data[path[0]], path[1..m]) == Null
    ensures var end := BlockOf(p, path) + Width(p, |path| - m) - Value(p, path[m..]);
            && (BlockOf(p, path) <= BlockOf(p, other) < end ==> At(data, other) == Null)
            && (|other| >= m && other[..m] == path[..m] ==> BlockOf(p, other) < end)
  {
    var hi := path[..m] + Nines(p, |path| - m);
    SubtreeEnd(p, path, m);
    PathOrder(p, path, other);
    PathOrder(p, other, hi);
    assert hi[..m] == path[..m];
    if BlockOf(p, path) <= BlockOf(p, other) <= BlockOf(p, hi) {
      SameSlot(p, path, other, hi, m);
      Sandwich(path, other, hi, m);
      PrefixMissing(data, path, other, m);
    }
    if |other| >= m && other[..m] == path[..m] {
      Beyond(p, path, other, hi, m);
    }
  }

  lemma PrefixMissing(data: seq<Branch>, path: seq<nat>, other: seq<nat>, m: nat)
    requires 0 < m <= |path| && m <= |other| && other[..m] == path[..m] && path[0] < |data|
    requires Walk(data[path[0]], path[1..m]) == Null
    ensures other[0] == path[0] && At(data, other) == Null
  {
    assert other[..m][0] == path[..m][0];
    assert other[1..] == other[1..m] + other[m..] && other[1..m] == other[..m][1..] && path[1..m] == path[..m][1..];
    WalkSplit(data[path[0]], path[1..m], other[m..]);
    WalkNull(Null, other[m..]);
  }

  lemma SameSlot(p: nat, path: seq<nat>, other: seq<nat>, hi: seq<nat>, m: nat)
    requires IsOffsets(p, path) && IsOffsets(p, other) && IsOffsets(p, hi) && 0 < m <= |path| && |hi| == |path|
    requires path == other || Lex(path, other)
    requires other == hi || Lex(other, hi)
    requires hi[..m] == path[..m]
    ensures other[0] == path[0] && |other| == |path|
  {
    assert hi[..m][0] == path[..m][0];
  }

  lemma Beyond(p: nat, path: seq<nat>, other: seq<nat>, hi: seq<nat>, m: nat)
    requires IsOffsets(p, path) && IsOffsets(p, other) && IsOffsets(p, hi) && 0 < m <= |path| && 0 < p
    requires m <= |other| && other[..m] == path[..m] && hi == path[..m] + Nines(p, |path| - m)
    ensures BlockOf(p, other) <= BlockOf(p, hi)
  {
    assert other[..m][0] == path[..m][0] == hi[0];
    assert hi[1..] == path[..m][1..] + Nines(p, |path| - m) && other[1..] == other[..m][1..] + other[m..];
    ValueSplit(p, path[..m][1..], Nines(p, |path| - m));
    ValueSplit(p, path[..m][1..], other[m..]);
    NinesValue(p, |path| - m);
    DigitsRest(p, other, m);
    ValueBounded(p, other[m..]);
  }

  lemma DigitsRest(p: nat, path: seq<nat>, m: nat)
    requires 0 < m <= |path| && Digits(p, path[1..])
    ensures Digits(p, path[m..])
  {
    forall i | 0 <= i < |path| - m
      ensures path[m..][i] < p
    {
      assert path[m..][i] == path[1..][m - 1 + i];
    }
  }

  // ----- ext4_ind_map_blocks -----

  /** The block number at the end of a path, 0 if there is none. */
  ghost function NrAt(data: seq<Branch>, path: seq<nat>): nat
    requires path != [] && path[0] < |data|
  {
    if At(data, path).Block? then At(data, path).nr else 0
  }

  /** The `n` blocks from `lo` on are mapped to `pblk` and the numbers after it. */
  ghost predicate RunMapped(data: seq<Branch>, p: nat, lo: nat, n: nat, pblk: nat)
    requires |data| == TIND + 1
  {
    forall path | IsOffsets(p, path) && lo <= BlockOf(p, path) < lo + n ::
        NrAt(data, path) == pblk + (BlockOf(p, path) - lo)
  }

  /** None of them is mapped. */
  ghost predicate RunMissing(data: seq<Branch>, p: nat, lo: nat, n: nat)
    requires |data| == TIND + 1
  {
    forall path | IsOffsets(p, path) && lo <= BlockOf(p, path) < lo + n :: At(data, path) == Null
  }

  /** The first null pointer on the path comes after `m` offsets. */
  ghost predicate MissingAfter(data: seq<Branch>, path: seq<nat>, m: nat) {
    && 0 < m <= |path| && path[0] < |data| && Walk(data[path[0]], path[1..m]) == Null
    && forall j | 0 < j < m :: Walk(data[path[0]], path[1..j]).Block?
  }

  /** The lookup half of ext4_ind_map_blocks: a run of blocks mapped in a row within one pointer block, as long as
      possible, or the hole up to the end of the missing subtree. */
  method MapBlocks(data: seq<Branch>, p: nat, block: nat, len: nat)
    returns (pblk: nat, count: nat, ghost offsets: seq<nat>, ghost boundary: int, ghost m: nat)
    requires InodeOk(data, p) && NDIR <= p && 0 < len
    ensures count <= len && (count == 0 <==> Limit(p) <= block)
    ensures count > 0 ==> Parsed(p, block, offsets, boundary)
    ensures count > 0 && pblk != 0 ==> RunMapped(data, p, block, count, pblk)
    ensures count > 0 && pblk != 0 && count < len ==> count > boundary || !RunMapped(data, p, block, count + 1, pblk)
    ensures count > 0 && pblk == 0 ==> RunMissing(data, p, block, count) && MissingAfter(data, offsets, m)
    ensures count > 0 && pblk == 0 && count < len ==> count == Width(p, |offsets| - m) - Value(p, offsets[m..])
  {
    var path, bound := BlockToPath(p, block);
    offsets, boundary, m := path, bound, 0;
    if path == [] {
      return 0, 0, offsets, boundary, m;
    }
    var chain := GetBranch(data, path, |path|, p);
    var n := |chain|;
    if n == |path| && chain[n - 1].Block? {
      pblk, count := MapRun(data, p, block, len, path, bound, chain);
    } else {
      pblk, m := 0, n;
      DigitsRest(p, path, n);
      count := CountHole(p, path[n..]);
      HoleHere(data, p, block, path, chain, count);
      ValueBounded(p, path[n..]);
      if len < count {
        count := len;
      }
    }
  }

  lemma {:induction false} ChainAt(chain: seq<Branch>, top: Branch, ds: seq<nat>, p: nat, i: nat)
    requires IsChain(chain, top, ds, p) && i < |chain|
    ensures Walk(top, ds[..i]) == chain[i]
  {
    if i > 0 {
      ChainAt(chain, top, ds, p, i - 1);
      assert ds[..i] == ds[..i - 1] + [ds[i - 1]];
      WalkSplit(top, ds[..i - 1], [ds[i - 1]]);
      assert Linked(chain, ds, i - 1) && [ds[i - 1]][1..] == [];
    }
  }

  lemma HoleHere(data: seq<Branch>, p: nat, block: nat, offsets: seq<nat>, chain: seq<Branch>, count: nat)
    requires InodeOk(data, p) && 0 < p && IsOffsets(p, offsets) && BlockOf(p, offsets) == block
    requires IsChain(chain, data[offsets[0]], offsets[1..], p) && chain[|chain| - 1].Null?
    requires count == Width(p, |offsets| - |chain|) - Value(p, offsets[|chain|..])
    ensures RunMissing(data, p, block, count) && MissingAfter(data, offsets, |chain|)
  {
    ChainMissing(data, p, offsets, chain);
    forall path | IsOffsets(p, path) && block <= BlockOf(p, path) < block + count
      ensures At(data, path) == Null
    {
      HoleExact(data, p, offsets, |chain|, path);
    }
  }

  lemma ChainMissing(data: seq<Branch>, p: nat, offsets: seq<nat>, chain: seq<Branch>)
    requires 0 < |offsets| && offsets[0] < |data|
    requires IsChain(chain, data[offsets[0]], offsets[1..], p) && chain[|chain| - 1].Null?
    ensures MissingAfter(data, offsets, |chain|)
  {
    var n := |chain|;
    forall j | 0 < j <= n
      ensures Walk(data[offsets[0]], offsets[1..j]) == chain[j - 1] && (j < n ==> chain[j - 1].Block?)
    {
      ChainAt(chain, data[offsets[0]], offsets[1..], p, j - 1);
      assert offsets[1..][..j - 1] == offsets[1..j];
      assert j < n ==> Linked(chain, offsets[1..], j - 1);
    }
  }

  /** The pointers next to the one that leads to the block. */
  function Slots(data: seq<Branch>, chain: seq<Branch>): seq<Branch> {
    if |chain| <= 1 then data else if chain[|chain| - 2].Block? then chain[|chain| - 2].kids else []
  }

  /** Blocks mapped one after another in the same pointer block. */
  method MapRun(data: seq<Branch>, p: nat, ghost block: nat, len: nat, offsets: seq<nat>, boundary: int,
                chain: seq<Branch>)
    returns (pblk: nat, count: nat)
    requires InodeOk(data, p) && 0 < len && Parsed(p, block, offsets, boundary)
    requires IsChain(chain, data[offsets[0]], offsets[1..], p) && |chain| == |offsets| && chain[|chain| - 1].Block?
    requires ChainShaped(chain, p, |offsets| - 1)
    ensures 0 < pblk && 0 < count <= len && RunMapped(data, p, block, count, pblk)
    ensures count < len ==> count > boundary || !RunMapped(data, p, block, count + 1, pblk)
  {
    var last := |offsets| - 1;
    var slots := Slots(data, chain);
    assert Shaped(chain[last], p, 0);
    pblk, count := chain[last].nr, 1;
    assert offsets[last := offsets[last] + 0] == offsets && GrowsBy(p, offsets, 0);
    Neighbour(data, p, block, offsets, boundary, chain, 0);
    while count < len && count <= boundary
      invariant 0 < count <= len && RunMapped(data, p, block, count, pblk)
    {
      Neighbour(data, p, block, offsets, boundary, chain, count);
      var b := slots[offsets[last] + count];
      if b.Block? && b.nr == pblk + count {
        count := count + 1;
      } else {
        assert BlockOf(p, offsets[last := offsets[last] + count]) == block + count;
        return;
      }
    }
  }

  /** The block `m` further on is found `m` pointers further on, within the boundary. */
  lemma Neighbour(data: seq<Branch>, p: nat, block: nat, offsets: seq<nat>, boundary: int, chain: seq<Branch>, m: nat)
    requires InodeOk(data, p) && Parsed(p, block, offsets, boundary) && m <= boundary
    requires IsChain(chain, data[offsets[0]], offsets[1..], p) && |chain| == |offsets|
             && ChainShaped(chain, p, |offsets| - 1)
    ensures var last := |offsets| - 1;
            var at, slots, path := offsets[last] + m, Slots(data, chain), offsets[last := offsets[last] + m];
            && at < |slots| && (m == 0 ==> slots[at] == chain[|chain| - 1])
            && IsOffsets(p, path) && BlockOf(p, path) == block + m && At(data, path) == slots[at]
            && forall other | IsOffsets(p, other) && BlockOf(p, other) == block + m :: At(data, other) == slots[at]
  {
    var last := |offsets| - 1;
    var path := offsets[last := offsets[last] + m];
    var slots := Slots(data, chain);
    assert GrowsBy(p, offsets, m);
    Grown(data, p, offsets, chain, m);
    forall other | IsOffsets(p, other) && BlockOf(p, other) == block + m
      ensures At(data, other) == slots[offsets[last] + m]
    {
      PathOrder(p, path, other);
    }
  }

  lemma Grown(data: seq<Branch>, p: nat, offsets: seq<nat>, chain: seq<Branch>, m: nat)
    requires InodeOk(data, p) && IsOffsets(p, offsets) && GrowsBy(p, offsets, m)
    requires IsChain(chain, data[offsets[0]], offsets[1..], p) && |chain| == |offsets|
             && ChainShaped(chain, p, |offsets| - 1)
    ensures var last := |offsets| - 1;
            var path, at, slots := offsets[last := offsets[last] + m], offsets[last] + m, Slots(data, chain);
            && at < |slots| && (m == 0 ==> slots[at] == chain[last])
            && At(data, path) == slots[at] && BlockOf(p, path) == BlockOf(p, offsets) + m
  {
    var last := |offsets| - 1;
    var path := offsets[last := offsets[last] + m];
    if last == 0 {
      assert path[1..] == [] && offsets[1..] == [];
    } else {
      var x, d := offsets[1..last], offsets[last];
      LastDigit(offsets, m);
      assert Shaped(chain[last - 1], p, 1) && Linked(chain, offsets[1..], last - 1);
      ChainAt(chain, data[offsets[0]], offsets[1..], p, last - 1);
      WalkSplit(data[offsets[0]], x, [d + m]);
      LastValue(p, x, d, m);
    }
  }

  lemma LastDigit(offsets: seq<nat>, m: nat)
    requires |offsets| > 1
    ensures var last := |offsets| - 1;
            var x, d, path := offsets[1..last], offsets[last], offsets[last := offsets[last] + m];
            && path[1..] == x + [d + m] && path[1..][last - 1] == d + m && offsets[1..] == x + [d]
            && offsets[1..][..last - 1] == x && path[0] == offsets[0] && [d + m][1..] == []
  {
  }

  lemma LastValue(p: nat, x: seq<nat>, d: nat, m: nat)
    ensures Value(p, x + [d + m]) == Value(p, x + [d]) + m
  {
    ValueSplit(p, x, [d + m]);
    ValueSplit(p, x, [d]);
    Spell1(p, d);
    Spell1(p, d + m);
  }
}
