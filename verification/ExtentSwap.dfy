/**
 Exchanging the blocks of two files (mqfs/extents.c, ext4_swap_extents).
 */
module ExtentSwap {
  import opened Common
  import opened ExtentLists
  import opened ExtentNodes
  import opened ExtentTree
  import opened ExtentEdits

  // ----- the extent that covers a block -----

  ghost function Cover(es: seq<Ext>, b: int): Option<Ext> {
    if es == [] then None else if es[0].Covers(b) then Some(es[0]) else Cover(es[1..], b)
  }

  lemma {:induction false} CoverMap(es: seq<Ext>, b: int)
    ensures Cover(es, b).Some? ==> Cover(es, b).value.Covers(b)
    ensures Map(es, b) == if Cover(es, b).Some? then Some(Cover(es, b).value.At(b)) else None
  {
    if es != [] {
      CoverMap(es[1..], b);
    }
  }

  lemma {:induction false} CoverAt(es: seq<Ext>, p: nat, b: int, lo: int, hi: int)
    requires Ordered(es, lo, hi) && p < |es| && es[p].Covers(b)
    ensures Cover(es, b) == Some(es[p])
  {
    if p > 0 {
      Around(es, p, lo, hi);
      Around(es, 0, lo, hi);
      assert es[..p][0] == es[0];
      MapAround(es, p, lo, hi, b);
      assert es[1..][p - 1] == es[p];
      CoverAt(es[1..], p - 1, b, es[0].End(), hi);
      assert !es[0].Covers(b);
    }
  }

  // ----- what an exchange does -----

  /** Offset `i` of the mask says whether the blocks at that offset have been exchanged. */
  ghost predicate Marked(mask: seq<bool>, i: int) { 0 <= i < |mask| && mask[i] }

  /** The first file has the blocks of the second where the mask says so, in the state its own blocks had. */
  ghost predicate FirstAt(es: seq<Ext>, other: seq<Ext>, es': seq<Ext>, l: int, m: int, mask: seq<bool>, b: int) {
    if Marked(mask, b - l) then
      && Map(es, b).Some? && Map(other, b - l + m).Some?
      && Map(es', b) == Some(Cell(Map(other, b - l + m).value.pblk, Map(es, b).value.unwritten))
    else Map(es', b) == Map(es, b)
  }

  /** The second file has the blocks of the first, in the state asked for. */
  ghost predicate SecondAt(es: seq<Ext>, other: seq<Ext>, es': seq<Ext>, l: int, m: int, mask: seq<bool>,
                           unwritten: bool, b: int) {
    if Marked(mask, b - l) then
      Map(other, b - l + m).Some? && Map(es', b) == Some(Cell(Map(other, b - l + m).value.pblk, unwritten))
    else Map(es', b) == Map(es, b)
  }

  ghost predicate Exchanged(es1: seq<Ext>, es2: seq<Ext>, es1': seq<Ext>, es2': seq<Ext>, l1: int, l2: int,
                            mask: seq<bool>, unwritten: bool)
  {
    && (forall b: int :: FirstAt(es1, es2, es1', l1, l2, mask, b))
    && (forall b: int :: SecondAt(es2, es1, es2', l2, l1, mask, unwritten, b))
  }

  function Trues(mask: seq<bool>): nat {
    if mask == [] then 0 else Trues(mask[..|mask| - 1]) + if mask[|mask| - 1] then 1 else 0
  }

  function Run(n: nat, v: bool): seq<bool> { seq(n, _ => v) }

  lemma {:induction false} TruesRun(mask: seq<bool>, n: nat, v: bool)
    ensures Trues(mask + Run(n, v)) == Trues(mask) + if v then n else 0
  {
    if n == 0 {
      assert mask + Run(n, v) == mask;
    } else {
      var m := mask + Run(n, v);
      assert m[..|m| - 1] == mask + Run(n - 1, v);
      TruesRun(mask, n - 1, v);
    }
  }

  /** Nothing happens on a stretch that is skipped. */
  lemma SkipRun(es1: seq<Ext>, es2: seq<Ext>, es1': seq<Ext>, es2': seq<Ext>, l1: int, l2: int, mask: seq<bool>,
                unwritten: bool, n: nat)
    requires Exchanged(es1, es2, es1', es2', l1, l2, mask, unwritten)
    ensures Exchanged(es1, es2, es1', es2', l1, l2, mask + Run(n, false), unwritten)
  {
    var mask' := mask + Run(n, false);
    forall b: int
      ensures FirstAt(es1, es2, es1', l1, l2, mask', b) && SecondAt(es2, es1, es2', l2, l1, mask', unwritten, b)
    {
      assert Marked(mask', b - l1) <==> Marked(mask, b - l1);
      assert Marked(mask', b - l2) <==> Marked(mask, b - l2);
      assert FirstAt(es1, es2, es1', l1, l2, mask, b) && SecondAt(es2, es1, es2', l2, l1, mask, unwritten, b);
    }
  }

  /** One pair of extents of equal length exchanged right behind what the mask covers. */
  lemma SwapRun(es1: seq<Ext>, es2: seq<Ext>, f1: seq<Ext>, f2: seq<Ext>, g1: seq<Ext>, g2: seq<Ext>, l1: int, l2: int,
                mask: seq<bool>, unwritten: bool, ex1: Ext, ex2: Ext, n1: Ext, n2: Ext)
    requires Exchanged(es1, es2, f1, f2, l1, l2, mask, unwritten)
    requires ex1.block == l1 + |mask| && ex2.block == l2 + |mask| && ex1.Len() == ex2.Len()
    requires forall b: int | ex1.Covers(b) :: Map(f1, b) == Some(ex1.At(b))
    requires forall b: int | ex2.Covers(b) :: Map(f2, b) == Some(ex2.At(b))
    requires n1.block == ex1.block && n1.Len() == ex1.Len() && n1.pblk == ex2.pblk && n1.Unwritten() == ex1.Unwritten()
    requires n2.block == ex2.block && n2.Len() == ex2.Len() && n2.pblk == ex1.pblk && n2.Unwritten() == unwritten
    requires MapPlus(f1, g1, n1) && MapPlus(f2, g2, n2)
    ensures Exchanged(es1, es2, g1, g2, l1, l2, mask + Run(ex1.Len(), true), unwritten)
  {
    var mask' := mask + Run(ex1.Len(), true);
    forall b: int
      ensures FirstAt(es1, es2, g1, l1, l2, mask', b)
    {
      assert FirstAt(es1, es2, f1, l1, l2, mask, b) && SecondAt(es2, es1, f2, l2, l1, mask, unwritten, b - l1 + l2);
      assert Marked(mask', b - l1) <==> Marked(mask, b - l1) || ex1.Covers(b);
    }
    forall b: int
      ensures SecondAt(es2, es1, g2, l2, l1, mask', unwritten, b)
    {
      assert SecondAt(es2, es1, f2, l2, l1, mask, unwritten, b) && FirstAt(es1, es2, f1, l1, l2, mask, b - l2 + l1);
      assert Marked(mask', b - l2) <==> Marked(mask, b - l2) || ex2.Covers(b);
    }
  }

  /** One of the files has a hole at the offset. */
  ghost predicate HoleAt(es1: seq<Ext>, es2: seq<Ext>, l1: int, l2: int, i: int) {
    Map(es1, l1 + i).None? || Map(es2, l2 + i).None?
  }

  /** The blocks at offsets `j` to `i` are mapped, physically in a row and in one state. */
  ghost predicate InARow(es: seq<Ext>, l: int, j: int, i: int) {
    && Map(es, l + j).Some?
    && forall k | j <= k <= i :: ContinuedAt(es, l, j, k)
  }

  ghost predicate ContinuedAt(es: seq<Ext>, l: int, j: int, k: int)
    requires Map(es, l + j).Some? && j <= k
  {
    Map(es, l + k) == Some(Map(es, l + j).value.(pblk := Map(es, l + j).value.pblk + (k - j)))
  }

  ghost predicate Untouched(mask: seq<bool>, j: int, i: int)
    requires i < |mask|
  {
    forall k | 0 <= k && j <= k <= i :: !mask[k]
  }

  /** There is a hole at the offset, or a row of blocks leads to it from opposite an earlier hole, passed over as
      well. */
  ghost predicate PassedOver(es1: seq<Ext>, es2: seq<Ext>, l1: int, l2: int, mask: seq<bool>, i: int)
    requires i < |mask|
  {
    || HoleAt(es1, es2, l1, l2, i)
    || exists j :: BehindHole(es1, es2, l1, l2, mask, j, i)
  }

  ghost predicate BehindHole(es1: seq<Ext>, es2: seq<Ext>, l1: int, l2: int, mask: seq<bool>, j: int, i: int)
    requires i < |mask|
  {
    && 0 <= j < i && HoleAt(es1, es2, l1, l2, j) && Untouched(mask, j, i)
    && (InARow(es1, l1, j, i) || InARow(es2, l2, j, i))
  }

  /** Only what lies in a hole, or continues a row of blocks opposite one, stays where it is. */
  ghost predicate HolesOnly(es1: seq<Ext>, es2: seq<Ext>, l1: int, l2: int, mask: seq<bool>) {
    forall i | 0 <= i < |mask| && !mask[i] :: PassedOver(es1, es2, l1, l2, mask, i)
  }

  lemma PassedStays(es1: seq<Ext>, es2: seq<Ext>, l1: int, l2: int, mask: seq<bool>, more: seq<bool>, i: int)
    requires 0 <= i < |mask| && PassedOver(es1, es2, l1, l2, mask, i)
    ensures PassedOver(es1, es2, l1, l2, mask + more, i)
  {
    if !HoleAt(es1, es2, l1, l2, i) {
      var j :| BehindHole(es1, es2, l1, l2, mask, j, i);
      assert BehindHole(es1, es2, l1, l2, mask + more, j, i);
    }
  }

  /** The next `n` offsets are skipped. */
  ghost predicate Skippable(es1: seq<Ext>, es2: seq<Ext>, l1: int, l2: int, at: nat, n: nat) {
    && HoleAt(es1, es2, l1, l2, at)
    && forall i | at <= i < at + n :: HoleAt(es1, es2, l1, l2, i) || InARow(es1, l1, at, i) || InARow(es2, l2, at, i)
  }

  lemma SkipFromHole(es1: seq<Ext>, es2: seq<Ext>, l1: int, l2: int, mask: seq<bool>, n: nat)
    requires HolesOnly(es1, es2, l1, l2, mask) && Skippable(es1, es2, l1, l2, |mask|, n)
    ensures HolesOnly(es1, es2, l1, l2, mask + Run(n, false))
  {
    var mask' := mask + Run(n, false);
    forall i | 0 <= i < |mask'| && !mask'[i]
      ensures PassedOver(es1, es2, l1, l2, mask', i)
    {
      if i < |mask| {
        PassedStays(es1, es2, l1, l2, mask, Run(n, false), i);
      } else if !HoleAt(es1, es2, l1, l2, i) {
        assert BehindHole(es1, es2, l1, l2, mask', |mask|, i);
      }
    }
  }

  lemma SwapNoHole(es1: seq<Ext>, es2: seq<Ext>, l1: int, l2: int, mask: seq<bool>, n: nat)
    requires HolesOnly(es1, es2, l1, l2, mask)
    ensures HolesOnly(es1, es2, l1, l2, mask + Run(n, true))
  {
    var mask' := mask + Run(n, true);
    forall i | 0 <= i < |mask'| && !mask'[i]
      ensures PassedOver(es1, es2, l1, l2, mask', i)
    {
      PassedStays(es1, es2, l1, l2, mask, Run(n, true), i);
    }
  }

  /** No row of blocks in either file crosses the end of a hole. */
  ghost predicate RowsEndAtHoles(es1: seq<Ext>, es2: seq<Ext>, l1: int, l2: int, n: nat) {
    forall i | 0 < i < n :: HoleEnds(es1, es2, l1, l2, i) ==> !InARow(es1, l1, i - 1, i) && !InARow(es2, l2, i - 1, i)
  }

  ghost predicate HoleEnds(es1: seq<Ext>, es2: seq<Ext>, l1: int, l2: int, i: int) {
    HoleAt(es1, es2, l1, l2, i - 1) && !HoleAt(es1, es2, l1, l2, i)
  }

  lemma RowPart(es: seq<Ext>, l: int, j: int, i: int, k: int)
    requires InARow(es, l, j, i) && j < k <= i
    ensures InARow(es, l, k - 1, k)
  {
    assert ContinuedAt(es, l, j, k - 1) && ContinuedAt(es, l, j, k);
  }

  /** Between a hole and an offset without one some hole ends. */
  lemma {:induction false} SomeEnd(es1: seq<Ext>, es2: seq<Ext>, l1: int, l2: int, j: int, i: int) returns (k: int)
    requires j < i && HoleAt(es1, es2, l1, l2, j) && !HoleAt(es1, es2, l1, l2, i)
    ensures j < k <= i && HoleEnds(es1, es2, l1, l2, k)
    decreases i - j
  {
    if HoleAt(es1, es2, l1, l2, j + 1) {
      k := SomeEnd(es1, es2, l1, l2, j + 1, i);
    } else {
      k := j + 1;
    }
  }

  /** Then exactly the offsets mapped in both files are exchanged, and all of them if there are no holes. */
  lemma MappedExactlySwapped(es1: seq<Ext>, es2: seq<Ext>, es1': seq<Ext>, es2': seq<Ext>, l1: int, l2: int,
                             mask: seq<bool>, unwritten: bool)
    requires Exchanged(es1, es2, es1', es2', l1, l2, mask, unwritten) && HolesOnly(es1, es2, l1, l2, mask)
    requires RowsEndAtHoles(es1, es2, l1, l2, |mask|)
    ensures forall i | 0 <= i < |mask| :: mask[i] <==> !HoleAt(es1, es2, l1, l2, i)
  {
    forall i | 0 <= i < |mask|
      ensures mask[i] <==> !HoleAt(es1, es2, l1, l2, i)
    {
      if mask[i] {
        assert Marked(mask, l1 + i - l1);
        assert FirstAt(es1, es2, es1', l1, l2, mask, l1 + i);
        assert l1 + i - l1 + l2 == l2 + i;
      } else if !HoleAt(es1, es2, l1, l2, i) {
        assert PassedOver(es1, es2, l1, l2, mask, i);
        var j :| BehindHole(es1, es2, l1, l2, mask, j, i);
        var k := SomeEnd(es1, es2, l1, l2, j, i);
        if InARow(es1, l1, j, i) {
          RowPart(es1, l1, j, i, k);
        } else {
          RowPart(es2, l2, j, i, k);
        }
      }
    }
  }

  /** Two ranges without holes are exchanged completely. */
  lemma NoHolesAllSwapped(es1: seq<Ext>, es2: seq<Ext>, l1: int, l2: int, mask: seq<bool>)
    requires HolesOnly(es1, es2, l1, l2, mask) && forall i | 0 <= i < |mask| :: !HoleAt(es1, es2, l1, l2, i)
    ensures forall i | 0 <= i < |mask| :: mask[i]
    ensures Trues(mask) == |mask|
  {
    forall i | 0 <= i < |mask|
      ensures mask[i]
    {
      assert mask[i] || PassedOver(es1, es2, l1, l2, mask, i);
    }
    AllTrue(mask);
  }

  lemma {:induction false} AllTrue(mask: seq<bool>)
    requires forall i | 0 <= i < |mask| :: mask[i]
    ensures Trues(mask) == |mask|
  {
    if mask != [] {
      AllTrue(mask[..|mask| - 1]);
    }
  }

  // ----- one file -----

  /** `next` is where the first extent behind block `l` starts, MAX_BLOCKS if there is none. */
  ghost predicate NextStart(es: seq<Ext>, l: int, next: nat) {
    && l < next
    && (forall i | 0 <= i < |es| :: !(l < es[i].block < next))
    && (next == MAX_BLOCKS || exists i :: 0 <= i < |es| && es[i].block == next)
  }

  /** Where the search for `l` takes the next extent to start. */
  function NextFrom(ex: Ext, after: nat, l: nat): nat { if ex.block > l then ex.block else after }

  lemma StartsLater(es: seq<Ext>, i: nat, j: nat)
    requires Ordered(es, 0, MAX_BLOCKS) && i < j < |es|
    ensures es[i].block < es[j].block
  {
    Around(es, i, 0, MAX_BLOCKS);
    var rest := es[i + 1..];
    assert rest[j - i - 1] == es[j];
    Around(rest, j - i - 1, es[i].End(), MAX_BLOCKS);
  }

  lemma NextUnique(es: seq<Ext>, l: int, next: nat)
    requires Ordered(es, 0, MAX_BLOCKS) && NextStart(es, l, next)
    ensures forall other: nat | NextStart(es, l, other) :: other == next
  {
    forall other: nat | NextStart(es, l, other)
      ensures other == next
    {
      StartBounded(es, l, next);
      StartBounded(es, l, other);
    }
  }

  lemma StartBounded(es: seq<Ext>, l: int, next: nat)
    requires Ordered(es, 0, MAX_BLOCKS) && NextStart(es, l, next)
    ensures next <= MAX_BLOCKS
  {
    if next != MAX_BLOCKS {
      var i :| 0 <= i < |es| && es[i].block == next;
      Around(es, i, 0, MAX_BLOCKS);
    }
  }

  lemma LocatedNext(es: seq<Ext>, q: nat, l: nat)
    requires Ordered(es, 0, MAX_BLOCKS) && Locates(es, q, l) && l < MAX_BLOCKS
    ensures NextStart(es, l, NextFrom(es[q], if q + 1 < |es| then es[q + 1].block else MAX_BLOCKS, l))
  {
    var after := if q + 1 < |es| then es[q + 1].block else MAX_BLOCKS;
    var next := NextFrom(es[q], after, l);
    forall i | 0 <= i < |es|
      ensures !(l < es[i].block < next)
    {
      if i < q {
        StartsLater(es, i, q);
      } else if q + 1 < i {
        StartsLater(es, q + 1, i);
      }
      if q < i {
        StartsLater(es, q, i);
      }
    }
  }

  /** Two mapped blocks without the start of an extent behind the first and up to the second are in a row. */
  lemma NoStartInARow(es: seq<Ext>, l: int, j: int, i: int, next: nat)
    requires Ordered(es, 0, MAX_BLOCKS) && NextStart(es, l + j, next) && j <= i && l + i < next && Map(es, l + i).Some?
    ensures InARow(es, l, j, i)
  {
    CoverMap(es, l + i);
    var p := CoverIndex(es, l + i);
    assert es[p].block <= l + j;
    EntryMap(es, p);
    assert es[p].Covers(l + j);
    forall k | j <= k <= i
      ensures ContinuedAt(es, l, j, k)
    {
      assert es[p].Covers(l + k);
    }
  }

  /** The search for a block: the entry found, and the extent that covers the block if there is one. */
  ghost predicate Found(t: ExtentTree, path: seq<nat>, pos: nat, b: nat)
    reads t
  {
    && IsPath(t.root, path) && |path| == t.depth && NodeAt(t.root, path).Leaf?
    && (pos >= Entries(NodeAt(t.root, path)) ==> Flat(t.root) == [])
    && (pos < Entries(NodeAt(t.root, path)) ==>
          var ex := NodeAt(t.root, path).exts[pos];
          && |Before(t.root, path)| + pos < |Flat(t.root)| && Flat(t.root)[|Before(t.root, path)| + pos] == ex
          && Cover(Flat(t.root), b) == (if ex.Covers(b) then Some(ex) else None)
          && NextStart(Flat(t.root), b, NextFrom(ex, NextAllocated(t.root, path, pos), b)))
  }

  method Find(t: ExtentTree, b: nat) returns (path: seq<nat>, pos: nat)
    requires t.Valid() && b < MAX_BLOCKS
    ensures Found(t, path, pos, b)
  {
    path, pos := FindExtent(t.root, t.depth, t.cap, b);
    if pos < |NodeAt(t.root, path).exts| {
      FoundCover(t.root, path, pos, b, t.depth, t.cap);
    } else {
      OnlyEmptyTree(t.root, path, t.depth, t.cap);
    }
  }

  lemma FoundCover(root: Node, path: seq<nat>, pos: nat, b: nat, d: nat, cap: nat)
    requires RootOk(root, d, cap) && Ordered(Flat(root), 0, MAX_BLOCKS) && b < MAX_BLOCKS
    requires IsPath(root, path) && |path| == d && Routes(root, path, b)
    requires NodeAt(root, path).Leaf? && Placed(NodeAt(root, path).exts, pos, b) && pos < Entries(NodeAt(root, path))
    ensures var ex, q := NodeAt(root, path).exts[pos], |Before(root, path)| + pos;
            && q < |Flat(root)| && Flat(root)[q] == ex
            && Cover(Flat(root), b) == (if ex.Covers(b) then Some(ex) else None)
            && NextStart(Flat(root), b, NextFrom(ex, NextAllocated(root, path, pos), b))
  {
    FoundFlat(root, path, pos, b, d, cap);
    NextAllocatedExact(root, path, pos, d, ROOT_CAP, cap);
    var es, q := Flat(root), |Before(root, path)| + pos;
    LocatedNext(es, q, b);
    if es[q].Covers(b) {
      CoverAt(es, q, b, 0, MAX_BLOCKS);
    } else {
      CoverMap(es, b);
      if Cover(es, b).Some? {
        var p := Hit(root, path, pos, b, d, cap);
      }
    }
  }

  /** ext4_force_split_extent_at. */
  method ForceSplit(t: ExtentTree, ex: Ext, b: nat, busy: bool)
    requires t.Valid() && Cover(Flat(t.root), b) == Some(ex) && ex.block < b
    modifies t
    ensures t.LedgerGrows()
    ensures t.Valid() && SameMap(old(Flat(t.root)), Flat(t.root)) && ex.block < b < ex.End()
    ensures Cover(Flat(t.root), b) == Some(Tail(ex, b, ex.Unwritten()))
    ensures Cover(Flat(t.root), ex.block) == Some(Head(ex, b, ex.Unwritten()))
    ensures forall m | b <= m :: LateAs(old(Flat(t.root)), Flat(t.root), m)
  {
    ghost var flat := Flat(t.root);
    CoverMap(flat, b);
    ghost var p := SplitExtentAt(t, b, ex.Unwritten(), ex.Unwritten(), true, busy);
    CoverAt(flat, p, b, 0, MAX_BLOCKS);
    SplitCovers(flat, Flat(t.root), p, b);
    SplitStarts(flat, Flat(t.root), p, b);
  }

  /** The starts of the second list behind block `m` are starts of the first. */
  ghost predicate LateAs(es: seq<Ext>, f: seq<Ext>, m: int) {
    forall i | 0 <= i < |f| :: f[i].block > m ==> StartsAt(es, f[i].block)
  }

  lemma LateTransitive(es: seq<Ext>, f: seq<Ext>, g: seq<Ext>, m: int, k: int)
    requires LateAs(es, f, m) && LateAs(f, g, k)
    ensures LateAs(es, g, Max(m, k))
  {
    forall i | 0 <= i < |g|
      ensures g[i].block > Max(m, k) ==> StartsAt(es, g[i].block)
    {
      if g[i].block > Max(m, k) {
        var j :| 0 <= j < |f| && f[j].block == g[i].block;
      }
    }
  }

  lemma LateSelf(es: seq<Ext>, m: int)
    ensures LateAs(es, es, m)
  {
    assert forall i | 0 <= i < |es| :: StartsAt(es, es[i].block);
  }

  lemma SplitStarts(es: seq<Ext>, es': seq<Ext>, p: nat, b: nat)
    requires p < |es| && es[p].block < b < es[p].End()
    requires es' == es[..p] + Pieces(es[p], b, es[p].Unwritten(), es[p].Unwritten()) + es[p + 1..]
    ensures forall m | b <= m :: LateAs(es, es', m)
  {
    forall i | 0 <= i < |es'|
      ensures es'[i].block == b || StartsAt(es, es'[i].block)
    {
      if i <= p {
        assert es'[i].block == es[i].block;
      } else if i > p + 1 {
        assert es'[i] == es[i - 1];
      }
    }
  }

  lemma SplitCovers(es: seq<Ext>, es': seq<Ext>, p: nat, b: nat)
    requires Ordered(es, 0, MAX_BLOCKS) && p < |es| && es[p].block < b < es[p].End() && Ordered(es', 0, MAX_BLOCKS)
    requires es' == es[..p] + Pieces(es[p], b, es[p].Unwritten(), es[p].Unwritten()) + es[p + 1..]
    requires Restated(es, es', es[p], b, es[p].Unwritten(), es[p].Unwritten())
    ensures SameMap(es, es')
    ensures Cover(es', b) == Some(Tail(es[p], b, es[p].Unwritten()))
    ensures Cover(es', es[p].block) == Some(Head(es[p], b, es[p].Unwritten()))
  {
    var ex, u := es[p], es[p].Unwritten();
    Around(es, p, 0, MAX_BLOCKS);
    HeadOk(ex, b, u);
    TailOk(ex, b, u);
    assert es'[p] == Head(ex, b, u) && es'[p + 1] == Tail(ex, b, u);
    CoverAt(es', p, ex.block, 0, MAX_BLOCKS);
    CoverAt(es', p + 1, b, 0, MAX_BLOCKS);
    forall x: int
      ensures Map(es', x) == Map(es, x)
    {
      MapAround(es, p, 0, MAX_BLOCKS, x);
    }
  }

  /** Giving the entry found another place and state, and merging it with its neighbours. */
  method Replace(t: ExtentTree, path: seq<nat>, pos: nat, e: Ext, busy: bool)
    requires t.Valid() && IsPath(t.root, path) && |path| == t.depth && NodeAt(t.root, path).Leaf?
    requires pos < Entries(NodeAt(t.root, path)) && e.Valid()
    requires e.block == NodeAt(t.root, path).exts[pos].block && e.Len() == NodeAt(t.root, path).exts[pos].Len()
    modifies t
    ensures t.LedgerGrows()
    ensures t.Valid() && MapPlus(old(Flat(t.root)), Flat(t.root), e) && StartsAmong(old(Flat(t.root)), Flat(t.root))
  {
    ghost var flat, p := Flat(t.root), |Before(t.root, path)| + pos;
    var exts := NodeAt(t.root, path).exts;
    FlatAt(t.root, path);
    LeafUpdate(t.root, path, pos, e);
    ReplaceEffect(flat, p, e, 0, MAX_BLOCKS);
    t.LeafSize(path);
    t.PutLeaf(path, exts[pos := e], pos, false, busy);
    StartsReplaced(flat, p, e, Flat(t.root));
  }

  lemma StartsReplaced(es: seq<Ext>, p: nat, e: Ext, es': seq<Ext>)
    requires p < |es| && e.block == es[p].block && StartsAmong(es[p := e], es')
    ensures StartsAmong(es, es')
  {
    forall i | 0 <= i < |es'|
      ensures StartsAt(es, es'[i].block)
    {
      var j :| 0 <= j < |es| && es[p := e][j].block == es'[i].block;
      assert es[j].block == es'[i].block;
    }
  }

  lemma {:induction false} CoverIndex(es: seq<Ext>, b: int) returns (p: nat)
    requires Cover(es, b).Some?
    ensures p < |es| && es[p].Covers(b) && Cover(es, b) == Some(es[p])
  {
    if es[0].Covers(b) {
      p := 0;
    } else {
      var q := CoverIndex(es[1..], b);
      p := q + 1;
    }
  }

  lemma CoverSame(es: seq<Ext>, ex: Ext, b: int, b': int)
    requires Ordered(es, 0, MAX_BLOCKS) && Cover(es, b) == Some(ex) && ex.Covers(b')
    ensures Cover(es, b') == Some(ex) && ex.Valid()
  {
    var p := CoverIndex(es, b);
    CoverAt(es, p, b', 0, MAX_BLOCKS);
    Around(es, p, 0, MAX_BLOCKS);
  }

  method LeftBoundary(t: ExtentTree, ex: Ext, l: nat, busy: bool)
    requires t.Valid() && Cover(Flat(t.root), l) == Some(ex) && ex.block <= l
    modifies t
    ensures t.LedgerGrows()
    ensures t.Valid() && SameMap(old(Flat(t.root)), Flat(t.root))
    ensures Cover(Flat(t.root), l).Some? && Cover(Flat(t.root), l).value.block == l
    ensures LateAs(old(Flat(t.root)), Flat(t.root), l)
  {
    LateSelf(Flat(t.root), l);
    if ex.block < l {
      ForceSplit(t, ex, l, busy);
    }
  }

  method RightBoundary(t: ExtentTree, ex: Ext, len: nat, busy: bool)
    requires t.Valid() && Cover(Flat(t.root), ex.block) == Some(ex) && 0 < len <= ex.Len()
    modifies t
    ensures t.LedgerGrows()
    ensures t.Valid() && SameMap(old(Flat(t.root)), Flat(t.root))
    ensures Cover(Flat(t.root), ex.block).Some?
    ensures Cover(Flat(t.root), ex.block).value.block == ex.block && Cover(Flat(t.root), ex.block).value.Len() == len
    ensures LateAs(old(Flat(t.root)), Flat(t.root), ex.block + len)
  {
    LateSelf(Flat(t.root), ex.block + len);
    if len != ex.Len() {
      CoverSame(Flat(t.root), ex, ex.block, ex.block + len);
      ForceSplit(t, ex, ex.block + len, busy);
      HeadOk(ex, ex.block + len, ex.Unwritten());
    }
  }

  // ----- lists in which no extent continues the one before it -----

  /** Every extent starts where the blocks before it do not lead. */
  ghost predicate Tight(es: seq<Ext>) {
    Ordered(es, 0, MAX_BLOCKS) && forall i | 0 <= i < |es| :: !InARow(es, 0, es[i].block - 1, es[i].block)
  }

  /** As long as the map behind block `l` is the same and no start has been added there, the next extent starts where it
      did: merging can only have taken starts away that lie inside a row. */
  lemma NextStays(es: seq<Ext>, f: seq<Ext>, l: nat, next: nat)
    requires Tight(es) && Ordered(f, 0, MAX_BLOCKS) && LateAs(es, f, l) && NextStart(f, l, next)
    requires forall b | l <= b :: SameAt(es, f, 0, b)
    ensures NextStart(es, l, next)
  {
    forall i | 0 <= i < |es|
      ensures !(l < es[i].block < next)
    {
      if l < es[i].block < next {
        var b := es[i].block;
        EntryMap(es, i);
        assert es[i].Covers(b);
        assert SameAt(es, f, 0, b - 1) && SameAt(es, f, 0, b);
        StillStarts(es, f, b);
      }
    }
    if next != MAX_BLOCKS {
      var j :| 0 <= j < |f| && f[j].block == next;
      assert StartsAt(es, next);
    }
  }

  lemma StillStarts(es: seq<Ext>, f: seq<Ext>, b: nat)
    requires Ordered(f, 0, MAX_BLOCKS) && Map(es, b).Some? && !InARow(es, 0, b - 1, b)
    requires SameAt(es, f, 0, b - 1) && SameAt(es, f, 0, b)
    ensures StartsAt(f, b)
  {
    CoverMap(f, b);
    var p := CoverIndex(f, b);
    if f[p].block != b {
      EntryMap(f, p);
      assert f[p].Covers(b - 1) && f[p].Covers(b);
      assert ContinuedAt(es, 0, b - 1, b - 1) && ContinuedAt(es, 0, b - 1, b);
    }
  }

  /** Where the first extent behind block `l` starts. */
  ghost function NextOf(es: seq<Ext>, l: int): nat {
    if es == [] then MAX_BLOCKS else if es[0].block > l then es[0].block else NextOf(es[1..], l)
  }

  lemma {:induction false} NextOfIs(es: seq<Ext>, l: int, lo: int)
    requires Ordered(es, lo, MAX_BLOCKS) && l < MAX_BLOCKS
    ensures NextStart(es, l, NextOf(es, l))
  {
    if es != [] {
      if es[0].block > l {
        forall i | 0 <= i < |es|
          ensures es[i].block >= es[0].block
        {
          Around(es, i, lo, MAX_BLOCKS);
          if i > 0 {
            Around(es[..i], 0, lo, LastEnd(es[..i], lo));
            MapWithin(es[..i][1..], es[0].End(), LastEnd(es[..i], lo), 0);
          }
        }
      } else {
        NextOfIs(es[1..], l, es[0].End());
        forall i | 0 <= i < |es|
          ensures !(l < es[i].block < NextOf(es, l))
        {
          assert i > 0 ==> es[i] == es[1..][i - 1];
        }
        if NextOf(es, l) != MAX_BLOCKS {
          var j :| 0 <= j < |es[1..]| && es[1..][j].block == NextOf(es, l);
          assert es[j + 1].block == NextOf(es, l);
        }
      }
    }
  }

  /** On to the farther of the two next extents, if there are two. */
  ghost function StepTo(next1: nat, next2: nat, l1: int, l2: int, left: nat): Step
    requires l1 < next1 || l2 < next2
  {
    if next1 == MAX_BLOCKS || next2 == MAX_BLOCKS then Finish else Skip(Min(left, Max(next1 - l1, next2 - l2)))
  }

  /** The step is the one to the next extents of the two lists. */
  ghost predicate Stepped(f1: seq<Ext>, f2: seq<Ext>, l1: int, l2: int, left: nat, step: Step) {
    forall next1: nat, next2: nat | NextStart(f1, l1, next1) && NextStart(f2, l2, next2) ::
      step == StepTo(next1, next2, l1, l2, left)
  }

  /** The step at a hole, from the lists alone. */
  ghost function PlainStep(es1: seq<Ext>, es2: seq<Ext>, l1: int, l2: int, left: nat): Step
    requires l1 < NextOf(es1, l1) || l2 < NextOf(es2, l2)
  {
    StepTo(NextOf(es1, l1), NextOf(es2, l2), l1, l2, left)
  }

  // ----- both files -----

  /** How far the extents at the two positions are from being exchangeable as they are. */
  ghost function Misfit(es1: seq<Ext>, es2: seq<Ext>, l1: nat, l2: nat, left: nat): nat {
    if Cover(es1, l1).None? || Cover(es2, l2).None? then 0
    else
      var a, b := Cover(es1, l1).value, Cover(es2, l2).value;
      if a.block < l1 || b.block < l2 then 2 else if a.Len() != b.Len() || left < a.Len() then 1 else 0
  }

  /** How far behind the positions starts may have been added: not at all, or up to the end of two extents cut to
      size. */
  ghost function Reach(es1: seq<Ext>, es2: seq<Ext>, l1: nat, l2: nat, left: nat): nat {
    if Cover(es1, l1).None? || Cover(es2, l2).None? || Misfit(es1, es2, l1, l2, left) > 0 then 0
    else Cover(es1, l1).value.Len()
  }

  ghost predicate LateBoth(es1: seq<Ext>, es2: seq<Ext>, f1: seq<Ext>, f2: seq<Ext>, l1: int, l2: int, m: int) {
    LateAs(es1, f1, l1 + m) && LateAs(es2, f2, l2 + m)
  }

  lemma LateBothStep(es1: seq<Ext>, es2: seq<Ext>, f1: seq<Ext>, f2: seq<Ext>, g1: seq<Ext>, g2: seq<Ext>, l1: int,
                     l2: int, m: nat, k: nat)
    requires LateBoth(es1, es2, f1, f2, l1, l2, m) && LateBoth(f1, f2, g1, g2, l1, l2, k)
    ensures forall n | m <= n && k <= n :: LateBoth(es1, es2, g1, g2, l1, l2, n)
  {
    LateTransitive(es1, f1, g1, l1 + m, l1 + k);
    LateTransitive(es2, f2, g2, l2 + m, l2 + k);
  }

  /** The lists before a round: exchanged as the mask says, with no new starts beyond what was cut to size. */
  ghost predicate AtRound(es1: seq<Ext>, es2: seq<Ext>, f1: seq<Ext>, f2: seq<Ext>, b1: nat, b2: nat, mask: seq<bool>,
                          left: nat, unwritten: bool)
  {
    var l1, l2 := b1 + |mask|, b2 + |mask|;
    && Exchanged(es1, es2, f1, f2, b1, b2, mask, unwritten)
    && LateBoth(es1, es2, f1, f2, l1, l2, Reach(f1, f2, l1, l2, left))
  }

  function Min(a: nat, b: nat): nat { if a < b then a else b }

  function Max(a: int, b: int): int { if a < b then b else a }

  datatype Step = Finish | Skip(n: nat) | Again | Swap(n: nat)

  /** What the mask becomes. */
  ghost function Advanced(mask: seq<bool>, step: Step, left: nat): seq<bool> {
    match step
    case Finish => mask + Run(left, false)
    case Skip(n) => mask + Run(n, false)
    case Again => mask
    case Swap(n) => mask + Run(n, true)
  }

  /** From how far behind the positions on the starts are among the old ones after a step. */
  ghost function Behind(f1: seq<Ext>, f2: seq<Ext>, l1: nat, l2: nat, left: nat, step: Step): nat {
    match step
    case Again => Reach(f1, f2, l1, l2, left)
    case Swap(n) => n
    case _ => 0
  }

  ghost predicate AsPlain(es1: seq<Ext>, es2: seq<Ext>, l1: int, l2: int, left: nat, step: Step) {
    (l1 < NextOf(es1, l1) || l2 < NextOf(es2, l2)) && step == PlainStep(es1, es2, l1, l2, left)
  }

  /** What the hole step does on the lists as they are is what it would do on the old ones. */
  lemma StepAsPlain(es1: seq<Ext>, es2: seq<Ext>, f1: seq<Ext>, f2: seq<Ext>, b1: nat, b2: nat, mask: seq<bool>,
                    unwritten: bool, left: nat, step: Step)
    requires Ordered(f1, 0, MAX_BLOCKS) && Ordered(f2, 0, MAX_BLOCKS) && Tight(es1) && Tight(es2)
    requires b1 + |mask| < MAX_BLOCKS && b2 + |mask| < MAX_BLOCKS
    requires Exchanged(es1, es2, f1, f2, b1, b2, mask, unwritten)
    requires LateBoth(es1, es2, f1, f2, b1 + |mask|, b2 + |mask|, 0)
    requires Stepped(f1, f2, b1 + |mask|, b2 + |mask|, left, step)
    ensures AsPlain(es1, es2, b1 + |mask|, b2 + |mask|, left, step)
  {
    var l1, l2 := b1 + |mask|, b2 + |mask|;
    forall b | l1 <= b
      ensures SameAt(es1, f1, 0, b)
    {
      Unprocessed(es1, es2, f1, f2, b1, b2, mask, unwritten, b - b1);
    }
    forall b | l2 <= b
      ensures SameAt(es2, f2, 0, b)
    {
      Unprocessed(es1, es2, f1, f2, b1, b2, mask, unwritten, b - b2);
    }
    NextOfSame(es1, f1, l1);
    NextOfSame(es2, f2, l2);
    NextOfIs(f1, l1, 0);
    NextOfIs(f2, l2, 0);
  }

  lemma NextOfSame(es: seq<Ext>, f: seq<Ext>, l: nat)
    requires Tight(es) && Ordered(f, 0, MAX_BLOCKS) && LateAs(es, f, l) && l < MAX_BLOCKS
    requires forall b | l <= b :: SameAt(es, f, 0, b)
    ensures NextOf(es, l) == NextOf(f, l)
  {
    NextOfIs(f, l, 0);
    NextStays(es, f, l, NextOf(f, l));
    NextOfIs(es, l, 0);
    NextUnique(es, l, NextOf(es, l));
  }

  /** One round of the loop. */
  method SwapStep(t1: ExtentTree, t2: ExtentTree, l1: nat, l2: nat, left: nat, unwritten: bool, busy: bool,
                  ghost es1: seq<Ext>, ghost es2: seq<Ext>, ghost b1: nat, ghost b2: nat, ghost mask: seq<bool>)
    returns (step: Step)
    requires t1 != t2 && t1.Valid() && t2.Valid() && 0 < left <= UNWRITTEN_MAX_LEN
    requires l1 + left <= MAX_BLOCKS && l2 + left <= MAX_BLOCKS
    requires l1 == b1 + |mask| && l2 == b2 + |mask|
    requires AtRound(es1, es2, Flat(t1.root), Flat(t2.root), b1, b2, mask, left, unwritten)
    modifies t1, t2
    ensures t1.LedgerGrows() && t2.LedgerGrows()
    ensures t1.Valid() && t2.Valid()
    ensures RoundDone(es1, es2, Flat(t1.root), Flat(t2.root), b1, b2, mask, left, unwritten, step)
    ensures step.Again? ==> Misfit(Flat(t1.root), Flat(t2.root), l1, l2, left) <
                            old(Misfit(Flat(t1.root), Flat(t2.root), l1, l2, left))
  {
    var path1, pos1 := Find(t1, l1);
    var path2, pos2 := Find(t2, l2);
    var exts1, exts2 := NodeAt(t1.root, path1).exts, NodeAt(t2.root, path2).exts;
    if pos1 < |exts1| && pos2 < |exts2| && exts1[pos1].Covers(l1) && exts2[pos2].Covers(l2) {
      step := MappedStep(t1, path1, pos1, t2, path2, pos2, l1, l2, left, unwritten, busy, es1, es2, b1, b2, mask);
    } else {
      step := UnmappedStep(t1, path1, pos1, t2, path2, pos2, l1, l2, left, unwritten, es1, es2, b1, b2, mask);
    }
  }

  /** One of the files is empty or has a hole at the position. */
  method UnmappedStep(t1: ExtentTree, path1: seq<nat>, pos1: nat, t2: ExtentTree, path2: seq<nat>, pos2: nat, l1: nat,
                      l2: nat, left: nat, ghost unwritten: bool, ghost es1: seq<Ext>, ghost es2: seq<Ext>,
                      ghost b1: nat, ghost b2: nat, ghost mask: seq<bool>)
    returns (step: Step)
    requires t1.Valid() && t2.Valid() && 0 < left && l1 + left <= MAX_BLOCKS && l2 + left <= MAX_BLOCKS
    requires Found(t1, path1, pos1, l1) && Found(t2, path2, pos2, l2)
    requires !(pos1 < Entries(NodeAt(t1.root, path1)) && NodeAt(t1.root, path1).exts[pos1].Covers(l1)) ||
             !(pos2 < Entries(NodeAt(t2.root, path2)) && NodeAt(t2.root, path2).exts[pos2].Covers(l2))
    requires l1 == b1 + |mask| && l2 == b2 + |mask|
    requires AtRound(es1, es2, Flat(t1.root), Flat(t2.root), b1, b2, mask, left, unwritten)
    ensures step.Skip? || step.Finish?
    ensures RoundDone(es1, es2, Flat(t1.root), Flat(t2.root), b1, b2, mask, left, unwritten, step)
  {
    ghost var next1, next2;
    step, next1, next2 := HoleAhead(t1, path1, pos1, t2, path2, pos2, l1, l2, left);
    PassedRound(es1, es2, Flat(t1.root), Flat(t2.root), b1, b2, mask, left, unwritten, step, next1, next2);
  }

  /** One of the lists is empty, or has a hole at the position and the step leads to the next extents. */
  ghost predicate Passing(f1: seq<Ext>, f2: seq<Ext>, l1: nat, l2: nat, left: nat, step: Step, next1: nat, next2: nat) {
    && Ordered(f1, 0, MAX_BLOCKS) && Ordered(f2, 0, MAX_BLOCKS)
    && if f1 == [] || f2 == [] then step.Finish?
       else
         && (Cover(f1, l1).None? || Cover(f2, l2).None?)
         && NextStart(f1, l1, next1) && NextStart(f2, l2, next2) && Stepped(f1, f2, l1, l2, left, step)
  }

  method HoleAhead(t1: ExtentTree, path1: seq<nat>, pos1: nat, t2: ExtentTree, path2: seq<nat>, pos2: nat, l1: nat,
                   l2: nat, left: nat)
    returns (step: Step, ghost next1: nat, ghost next2: nat)
    requires t1.Valid() && t2.Valid() && 0 < left && l1 + left <= MAX_BLOCKS && l2 + left <= MAX_BLOCKS
    requires Found(t1, path1, pos1, l1) && Found(t2, path2, pos2, l2)
    requires !(pos1 < Entries(NodeAt(t1.root, path1)) && NodeAt(t1.root, path1).exts[pos1].Covers(l1)) ||
             !(pos2 < Entries(NodeAt(t2.root, path2)) && NodeAt(t2.root, path2).exts[pos2].Covers(l2))
    ensures Passing(Flat(t1.root), Flat(t2.root), l1, l2, left, step, next1, next2)
  {
    next1, next2 := 0, 0;
    if pos1 >= |NodeAt(t1.root, path1).exts| || pos2 >= |NodeAt(t2.root, path2).exts| {
      return Finish, next1, next2;
    }
    var ex1, ex2 := NodeAt(t1.root, path1).exts[pos1], NodeAt(t2.root, path2).exts[pos2];
    var after1, after2 := NextAllocated(t1.root, path1, pos1), NextAllocated(t2.root, path2, pos2);
    next1, next2 := NextFrom(ex1, after1, l1), NextFrom(ex2, after2, l2);
    step := HoleStep(ex1, after1, ex2, after2, l1, l2, left, Flat(t1.root), Flat(t2.root));
  }

  lemma PassedRound(es1: seq<Ext>, es2: seq<Ext>, f1: seq<Ext>, f2: seq<Ext>, b1: nat, b2: nat, mask: seq<bool>,
                    left: nat, unwritten: bool, step: Step, next1: nat, next2: nat)
    requires 0 < left && b1 + |mask| + left <= MAX_BLOCKS && b2 + |mask| + left <= MAX_BLOCKS
    requires AtRound(es1, es2, f1, f2, b1, b2, mask, left, unwritten)
    requires Passing(f1, f2, b1 + |mask|, b2 + |mask|, left, step, next1, next2)
    ensures step.Skip? || step.Finish?
    ensures RoundDone(es1, es2, f1, f2, b1, b2, mask, left, unwritten, step)
  {
    if f1 == [] || f2 == [] {
      EmptyRound(es1, es2, f1, f2, b1, b2, mask, unwritten, left);
    } else {
      HoleRound(es1, es2, f1, f2, b1, b2, mask, unwritten, left, step, next1, next2);
    }
  }

  /** A round at a hole. */
  lemma HoleRound(es1: seq<Ext>, es2: seq<Ext>, f1: seq<Ext>, f2: seq<Ext>, b1: nat, b2: nat, mask: seq<bool>,
                  unwritten: bool, left: nat, step: Step, next1: nat, next2: nat)
    requires Ordered(f1, 0, MAX_BLOCKS) && Ordered(f2, 0, MAX_BLOCKS)
             && Exchanged(es1, es2, f1, f2, b1, b2, mask, unwritten)
    requires Cover(f1, b1 + |mask|).None? || Cover(f2, b2 + |mask|).None?
    requires LateBoth(es1, es2, f1, f2, b1 + |mask|, b2 + |mask|, 0)
    requires 0 < left && b1 + |mask| + left <= MAX_BLOCKS && b2 + |mask| + left <= MAX_BLOCKS
    requires NextStart(f1, b1 + |mask|, next1) && NextStart(f2, b2 + |mask|, next2)
    requires Stepped(f1, f2, b1 + |mask|, b2 + |mask|, left, step)
    ensures RoundDone(es1, es2, f1, f2, b1, b2, mask, left, unwritten, step)
    ensures step.Skip? || step.Finish?
  {
    assert step == StepTo(next1, next2, b1 + |mask|, b2 + |mask|, left);
    var n := if step.Skip? then step.n else left;
    SkipRun(es1, es2, f1, f2, b1, b2, mask, unwritten, n);
    StillHole(es1, es2, f1, f2, b1, b2, mask, unwritten);
    SkipsHole(es1, es2, f1, f2, b1, b2, mask, unwritten, next1, next2, n);
    if Tight(es1) && Tight(es2) {
      StepAsPlain(es1, es2, f1, f2, b1, b2, mask, unwritten, left, step);
    }
  }

  /** A round that finds one of the files empty. */
  lemma EmptyRound(es1: seq<Ext>, es2: seq<Ext>, f1: seq<Ext>, f2: seq<Ext>, b1: nat, b2: nat, mask: seq<bool>,
                   unwritten: bool, left: nat)
    requires Ordered(f1, 0, MAX_BLOCKS) && Ordered(f2, 0, MAX_BLOCKS) && (f1 == [] || f2 == [])
    requires Exchanged(es1, es2, f1, f2, b1, b2, mask, unwritten)
    requires LateBoth(es1, es2, f1, f2, b1 + |mask|, b2 + |mask|, 0)
    requires b1 + |mask| < MAX_BLOCKS && b2 + |mask| < MAX_BLOCKS
    ensures RoundDone(es1, es2, f1, f2, b1, b2, mask, left, unwritten, Finish)
  {
    SkipRun(es1, es2, f1, f2, b1, b2, mask, unwritten, left);
    NothingThere(es1, es2, f1, f2, b1, b2, mask, unwritten, left);
    if Tight(es1) && Tight(es2) {
      StepAsPlain(es1, es2, f1, f2, b1, b2, mask, unwritten, left, Finish);
    }
  }

  /** Both positions are mapped: cut the extents to size, or exchange them. */
  method MappedStep(t1: ExtentTree, path1: seq<nat>, pos1: nat, t2: ExtentTree, path2: seq<nat>, pos2: nat, l1: nat,
                    l2: nat, left: nat, unwritten: bool, busy: bool, ghost es1: seq<Ext>, ghost es2: seq<Ext>,
                    ghost b1: nat, ghost b2: nat, ghost mask: seq<bool>)
    returns (step: Step)
    requires t1 != t2 && t1.Valid() && t2.Valid() && 0 < left <= UNWRITTEN_MAX_LEN
    requires Found(t1, path1, pos1, l1) && pos1 < Entries(NodeAt(t1.root, path1))
             && NodeAt(t1.root, path1).exts[pos1].Covers(l1)
    requires Found(t2, path2, pos2, l2) && pos2 < Entries(NodeAt(t2.root, path2))
             && NodeAt(t2.root, path2).exts[pos2].Covers(l2)
    requires l1 == b1 + |mask| && l2 == b2 + |mask|
    requires AtRound(es1, es2, Flat(t1.root), Flat(t2.root), b1, b2, mask, left, unwritten)
    modifies t1, t2
    ensures t1.LedgerGrows() && t2.LedgerGrows()
    ensures t1.Valid() && t2.Valid() && (step.Again? || step.Swap?)
    ensures RoundDone(es1, es2, Flat(t1.root), Flat(t2.root), b1, b2, mask, left, unwritten, step)
    ensures step.Again? ==> Misfit(Flat(t1.root), Flat(t2.root), l1, l2, left) <
                            old(Misfit(Flat(t1.root), Flat(t2.root), l1, l2, left))
  {
    ghost var f1, f2 := Flat(t1.root), Flat(t2.root);
    var ex1, ex2 := NodeAt(t1.root, path1).exts[pos1], NodeAt(t2.root, path2).exts[pos2];
    if ex1.block < l1 || ex2.block < l2 {
      CutLeft(t1, ex1, l1, t2, ex2, l2, busy);
      AgainRound(es1, es2, f1, f2, Flat(t1.root), Flat(t2.root), b1, b2, mask, left, unwritten, 0);
      step := Again;
    } else {
      var len := Min(left, Min(ex1.Len(), ex2.Len()));
      if len != ex1.Len() || len != ex2.Len() {
        CutRight(t1, ex1, t2, ex2, len, busy);
        AgainRound(es1, es2, f1, f2, Flat(t1.root), Flat(t2.root), b1, b2, mask, left, unwritten, len);
        step := Again;
      } else {
        step := Swap(len);
        SwapPair(t1, path1, pos1, t2, path2, pos2, unwritten, busy, es1, es2, b1, b2, mask);
        SwappedRound(es1, es2, f1, f2, Flat(t1.root), Flat(t2.root), b1, b2, mask, left, unwritten, len);
      }
    }
  }

  /** Both files have an extent that starts at the position. */
  method CutLeft(t1: ExtentTree, ex1: Ext, l1: nat, t2: ExtentTree, ex2: Ext, l2: nat, busy: bool)
    requires t1 != t2 && t1.Valid() && t2.Valid()
    requires Cover(Flat(t1.root), l1) == Some(ex1) && ex1.block <= l1
    requires Cover(Flat(t2.root), l2) == Some(ex2) && ex2.block <= l2
    modifies t1, t2
    ensures t1.LedgerGrows() && t2.LedgerGrows() && t1.Valid() && t2.Valid()
    ensures SameMap(old(Flat(t1.root)), Flat(t1.root)) && SameMap(old(Flat(t2.root)), Flat(t2.root))
    ensures Cover(Flat(t1.root), l1).Some? && Cover(Flat(t1.root), l1).value.block == l1
    ensures Cover(Flat(t2.root), l2).Some? && Cover(Flat(t2.root), l2).value.block == l2
    ensures LateBoth(old(Flat(t1.root)), old(Flat(t2.root)), Flat(t1.root), Flat(t2.root), l1, l2, 0)
  {
    LeftBoundary(t1, ex1, l1, busy);
    LeftBoundary(t2, ex2, l2, busy);
  }

  /** Both extents end after `len` blocks. */
  method CutRight(t1: ExtentTree, ex1: Ext, t2: ExtentTree, ex2: Ext, len: nat, busy: bool)
    requires t1 != t2 && t1.Valid() && t2.Valid() && 0 < len <= ex1.Len() && len <= ex2.Len()
    requires Cover(Flat(t1.root), ex1.block) == Some(ex1) && Cover(Flat(t2.root), ex2.block) == Some(ex2)
    modifies t1, t2
    ensures t1.LedgerGrows() && t2.LedgerGrows() && t1.Valid() && t2.Valid()
    ensures SameMap(old(Flat(t1.root)), Flat(t1.root)) && SameMap(old(Flat(t2.root)), Flat(t2.root))
    ensures SizedAt(Flat(t1.root), ex1.block, len) && SizedAt(Flat(t2.root), ex2.block, len)
    ensures LateBoth(old(Flat(t1.root)), old(Flat(t2.root)), Flat(t1.root), Flat(t2.root), ex1.block, ex2.block, len)
  {
    RightBoundary(t1, ex1, len, busy);
    RightBoundary(t2, ex2, len, busy);
  }

  /** An extent of `len` blocks starts at block `l`. */
  ghost predicate SizedAt(es: seq<Ext>, l: int, len: nat) {
    Cover(es, l).Some? && Cover(es, l).value.block == l && Cover(es, l).value.Len() == len
  }

  /** A round that only cut extents. */
  lemma AgainRound(es1: seq<Ext>, es2: seq<Ext>, f1: seq<Ext>, f2: seq<Ext>, g1: seq<Ext>, g2: seq<Ext>, b1: nat,
                   b2: nat, mask: seq<bool>, left: nat, unwritten: bool, k: nat)
    requires AtRound(es1, es2, f1, f2, b1, b2, mask, left, unwritten) && SameMap(f1, g1) && SameMap(f2, g2)
    requires Reach(f1, f2, b1 + |mask|, b2 + |mask|, left) == 0
    requires LateBoth(f1, f2, g1, g2, b1 + |mask|, b2 + |mask|, k)
    requires k <= Reach(g1, g2, b1 + |mask|, b2 + |mask|, left)
    ensures RoundDone(es1, es2, g1, g2, b1, b2, mask, left, unwritten, Again)
  {
    LateBothStep(es1, es2, f1, f2, g1, g2, b1 + |mask|, b2 + |mask|, 0, k);
    ExchangedSame(es1, es2, f1, f2, g1, g2, b1, b2, mask, unwritten);
  }

  /** A round that exchanged two extents. */
  lemma SwappedRound(es1: seq<Ext>, es2: seq<Ext>, f1: seq<Ext>, f2: seq<Ext>, g1: seq<Ext>, g2: seq<Ext>, b1: nat,
                     b2: nat, mask: seq<bool>, left: nat, unwritten: bool, n: nat)
    requires AtRound(es1, es2, f1, f2, b1, b2, mask, left, unwritten) && 0 < n <= left
    requires Reach(f1, f2, b1 + |mask|, b2 + |mask|, left) == n
    requires Exchanged(es1, es2, g1, g2, b1, b2, mask + Run(n, true), unwritten)
    requires StartsAmong(f1, g1) && StartsAmong(f2, g2)
    ensures RoundDone(es1, es2, g1, g2, b1, b2, mask, left, unwritten, Swap(n))
  {
    LateBothStep(es1, es2, f1, f2, g1, g2, b1 + |mask|, b2 + |mask|, n, n);
  }

  lemma ExchangedSame(es1: seq<Ext>, es2: seq<Ext>, f1: seq<Ext>, f2: seq<Ext>, g1: seq<Ext>, g2: seq<Ext>, l1: int,
                      l2: int, mask: seq<bool>, unwritten: bool)
    requires Exchanged(es1, es2, f1, f2, l1, l2, mask, unwritten) && SameMap(f1, g1) && SameMap(f2, g2)
    ensures Exchanged(es1, es2, g1, g2, l1, l2, mask, unwritten)
  {
    forall b: int
      ensures FirstAt(es1, es2, g1, l1, l2, mask, b) && SecondAt(es2, es1, g2, l2, l1, mask, unwritten, b)
    {
      assert FirstAt(es1, es2, f1, l1, l2, mask, b) && SecondAt(es2, es1, f2, l2, l1, mask, unwritten, b);
    }
  }

  /** One of the files is empty. */
  lemma NothingThere(es1: seq<Ext>, es2: seq<Ext>, f1: seq<Ext>, f2: seq<Ext>, l1: int, l2: int, mask: seq<bool>,
                     unwritten: bool, n: nat)
    requires Exchanged(es1, es2, f1, f2, l1, l2, mask, unwritten) && (f1 == [] || f2 == [])
    ensures Skippable(es1, es2, l1, l2, |mask|, n)
  {
    forall i | |mask| <= i <= |mask| + n
      ensures HoleAt(es1, es2, l1, l2, i)
    {
      Unprocessed(es1, es2, f1, f2, l1, l2, mask, unwritten, i);
    }
  }

  /** A hole at the position reached was there from the start. */
  lemma StillHole(es1: seq<Ext>, es2: seq<Ext>, f1: seq<Ext>, f2: seq<Ext>, l1: int, l2: int, mask: seq<bool>,
                  unwritten: bool)
    requires Exchanged(es1, es2, f1, f2, l1, l2, mask, unwritten)
    requires Cover(f1, l1 + |mask|).None? || Cover(f2, l2 + |mask|).None?
    ensures HoleAt(es1, es2, l1, l2, |mask|)
  {
    CoverMap(f1, l1 + |mask|);
    CoverMap(f2, l2 + |mask|);
    assert FirstAt(es1, es2, f1, l1, l2, mask, l1 + |mask|)
           && SecondAt(es2, es1, f2, l2, l1, mask, unwritten, l2 + |mask|);
  }

  /** At a hole in either file both positions move on to the farther of the two next extents, if both files have one. */
  method HoleStep(ex1: Ext, after1: nat, ex2: Ext, after2: nat, l1: nat, l2: nat, left: nat, ghost f1: seq<Ext>,
                  ghost f2: seq<Ext>)
    returns (step: Step)
    requires 0 < left && Ordered(f1, 0, MAX_BLOCKS) && Ordered(f2, 0, MAX_BLOCKS)
    requires NextStart(f1, l1, NextFrom(ex1, after1, l1)) && NextStart(f2, l2, NextFrom(ex2, after2, l2))
    ensures Stepped(f1, f2, l1, l2, left, step)
  {
    NextUnique(f1, l1, NextFrom(ex1, after1, l1));
    NextUnique(f2, l2, NextFrom(ex2, after2, l2));
    var n1, n2 := after1, after2;
    if ex1.block > l1 {
      n1 := ex1.block;
    }
    if ex2.block > l2 {
      n2 := ex2.block;
    }
    if n1 == MAX_BLOCKS || n2 == MAX_BLOCKS {
      step := Finish;
    } else {
      var len := n1 - l1;
      if len < n2 - l2 {
        len := n2 - l2;
      }
      if len > left {
        len := left;
      }
      step := Skip(len);
    }
  }

  /** Behind what the mask covers the files are as they were. */
  lemma Unprocessed(es1: seq<Ext>, es2: seq<Ext>, f1: seq<Ext>, f2: seq<Ext>, l1: int, l2: int, mask: seq<bool>,
                    unwritten: bool, i: int)
    requires Exchanged(es1, es2, f1, f2, l1, l2, mask, unwritten) && |mask| <= i
    ensures Map(f1, l1 + i) == Map(es1, l1 + i) && Map(f2, l2 + i) == Map(es2, l2 + i)
  {
    assert FirstAt(es1, es2, f1, l1, l2, mask, l1 + i) && SecondAt(es2, es1, f2, l2, l1, mask, unwritten, l2 + i);
  }

  ghost predicate SameAt(es: seq<Ext>, f: seq<Ext>, l: int, k: int) { Map(f, l + k) == Map(es, l + k) }

  lemma RowSame(es: seq<Ext>, f: seq<Ext>, l: int, j: int, i: int)
    requires InARow(f, l, j, i) && j <= i && forall k | j <= k <= i :: SameAt(es, f, l, k)
    ensures InARow(es, l, j, i)
  {
    assert SameAt(es, f, l, j);
    forall k | j <= k <= i
      ensures ContinuedAt(es, l, j, k)
    {
      assert SameAt(es, f, l, k) && ContinuedAt(f, l, j, k);
    }
  }

  /** Up to the start of the next extent in one of the files nothing but holes and rows opposite the hole is skipped. */
  lemma SkipsHole(es1: seq<Ext>, es2: seq<Ext>, f1: seq<Ext>, f2: seq<Ext>, l1: nat, l2: nat, mask: seq<bool>,
                  unwritten: bool, next1: nat, next2: nat, n: nat)
    requires Ordered(f1, 0, MAX_BLOCKS) && Ordered(f2, 0, MAX_BLOCKS)
             && Exchanged(es1, es2, f1, f2, l1, l2, mask, unwritten)
    requires HoleAt(es1, es2, l1, l2, |mask|)
    requires NextStart(f1, l1 + |mask|, next1) && NextStart(f2, l2 + |mask|, next2)
    requires l1 + |mask| + n <= next1 || l2 + |mask| + n <= next2
    ensures Skippable(es1, es2, l1, l2, |mask|, n)
  {
    forall i | |mask| <= i < |mask| + n
      ensures HoleAt(es1, es2, l1, l2, i) || InARow(es1, l1, |mask|, i) || InARow(es2, l2, |mask|, i)
    {
      forall k | |mask| <= k <= i
        ensures SameAt(es1, f1, l1, k) && SameAt(es2, f2, l2, k)
      {
        Unprocessed(es1, es2, f1, f2, l1, l2, mask, unwritten, k);
      }
      assert SameAt(es1, f1, l1, i) && SameAt(es2, f2, l2, i);
      if !HoleAt(es1, es2, l1, l2, i) {
        if l1 + i < next1 {
          NoStartInARow(f1, l1, |mask|, i, next1);
          RowSame(es1, f1, l1, |mask|, i);
        } else {
          NoStartInARow(f2, l2, |mask|, i, next2);
          RowSame(es2, f2, l2, |mask|, i);
        }
      }
    }
  }

  /** The exchange of two extents of equal length.  The first file keeps its state, the second gets the one asked
      for. */
  method SwapPair(t1: ExtentTree, path1: seq<nat>, pos1: nat, t2: ExtentTree, path2: seq<nat>, pos2: nat,
                  unwritten: bool, busy: bool, ghost es1: seq<Ext>, ghost es2: seq<Ext>, ghost b1: nat, ghost b2: nat,
                  ghost mask: seq<bool>)
    requires t1 != t2 && t1.Valid() && t2.Valid()
    requires Found(t1, path1, pos1, b1 + |mask|) && pos1 < Entries(NodeAt(t1.root, path1))
    requires Found(t2, path2, pos2, b2 + |mask|) && pos2 < Entries(NodeAt(t2.root, path2))
    requires var ex1, ex2 := NodeAt(t1.root, path1).exts[pos1], NodeAt(t2.root, path2).exts[pos2];
             && ex1.block == b1 + |mask| && ex2.block == b2 + |mask| && 0 < ex1.Len() == ex2.Len() <= UNWRITTEN_MAX_LEN
    requires Exchanged(es1, es2, Flat(t1.root), Flat(t2.root), b1, b2, mask, unwritten)
    modifies t1, t2
    ensures t1.LedgerGrows() && t2.LedgerGrows()
    ensures t1.Valid() && t2.Valid()
    ensures Exchanged(es1, es2, Flat(t1.root), Flat(t2.root), b1, b2,
                      mask + Run(old(NodeAt(t1.root, path1).exts[pos1]).Len(), true), unwritten)
    ensures StartsAmong(old(Flat(t1.root)), Flat(t1.root)) && StartsAmong(old(Flat(t2.root)), Flat(t2.root))
  {
    ghost var f1, f2 := Flat(t1.root), Flat(t2.root);
    var ex1, ex2 := NodeAt(t1.root, path1).exts[pos1], NodeAt(t2.root, path2).exts[pos2];
    EntryMap(f1, |Before(t1.root, path1)| + pos1);
    EntryMap(f2, |Before(t2.root, path2)| + pos2);
    var n1 := Ext(ex1.block, RawLen(ex2.Len(), ex1.Unwritten()), ex2.pblk);
    var n2 := Ext(ex2.block, RawLen(ex1.Len(), unwritten), ex1.pblk);
    Replace(t2, path2, pos2, n2, busy);
    Replace(t1, path1, pos1, n1, busy);
    SwapRun(es1, es2, f1, f2, Flat(t1.root), Flat(t2.root), b1, b2, mask, unwritten, ex1, ex2, n1, n2);
  }

  lemma EntryMap(es: seq<Ext>, p: nat)
    requires Ordered(es, 0, MAX_BLOCKS) && p < |es|
    ensures es[p].Valid() && forall b: int | es[p].Covers(b) :: Map(es, b) == Some(es[p].At(b))
  {
    Around(es, p, 0, MAX_BLOCKS);
    forall b: int | es[p].Covers(b)
      ensures Map(es, b) == Some(es[p].At(b))
    {
      MapAround(es, p, 0, MAX_BLOCKS, b);
    }
  }

  /** The mask, from the old lists alone. */
  ghost function PlainMask(es1: seq<Ext>, es2: seq<Ext>, l1: int, l2: int, at: nat, count: nat): seq<bool>
    decreases count - at
  {
    if count <= at then []
    else if !HoleAt(es1, es2, l1, l2, at) then [true] + PlainMask(es1, es2, l1, l2, at + 1, count)
    else if NextOf(es1, l1 + at) <= l1 + at && NextOf(es2, l2 + at) <= l2 + at then []
    else
      match PlainStep(es1, es2, l1 + at, l2 + at, count - at)
      case Skip(n) => if n == 0 then [] else Run(n, false) + PlainMask(es1, es2, l1, l2, at + n, count)
      case _ => Run(count - at, false)
  }

  lemma {:induction false} PlainSwapped(es1: seq<Ext>, es2: seq<Ext>, l1: int, l2: int, at: nat, count: nat, n: nat)
    requires at + n <= count && forall i | at <= i < at + n :: !HoleAt(es1, es2, l1, l2, i)
    ensures PlainMask(es1, es2, l1, l2, at, count) == Run(n, true) + PlainMask(es1, es2, l1, l2, at + n, count)
    decreases n
  {
    if n == 0 {
      assert Run(n, true) == [];
    } else {
      var rest := PlainMask(es1, es2, l1, l2, at + n, count);
      PlainSwapped(es1, es2, l1, l2, at + 1, count, n - 1);
      assert !HoleAt(es1, es2, l1, l2, at);
      assert PlainMask(es1, es2, l1, l2, at, count) == [true] + (Run(n - 1, true) + rest);
      OneMore(n, rest);
    }
  }

  lemma OneMore(n: nat, rest: seq<bool>)
    requires 0 < n
    ensures [true] + (Run(n - 1, true) + rest) == Run(n, true) + rest
  {
    assert Run(n, true) == [true] + Run(n - 1, true);
  }

  /** What is exchanged was mapped in both files. */
  lemma MarkedMapped(es1: seq<Ext>, es2: seq<Ext>, f1: seq<Ext>, f2: seq<Ext>, l1: int, l2: int, mask: seq<bool>,
                     unwritten: bool, i: nat)
    requires Exchanged(es1, es2, f1, f2, l1, l2, mask, unwritten) && i < |mask| && mask[i]
    ensures !HoleAt(es1, es2, l1, l2, i)
  {
    assert Marked(mask, l1 + i - l1);
    assert FirstAt(es1, es2, f1, l1, l2, mask, l1 + i);
    assert l1 + i - l1 + l2 == l2 + i;
  }

  /** One step of the mask. */
  lemma PlainAdvance(es1: seq<Ext>, es2: seq<Ext>, f1: seq<Ext>, f2: seq<Ext>, l1: int, l2: int, mask: seq<bool>,
                     unwritten: bool, count: nat, step: Step)
    requires |mask| < count && Exchanged(es1, es2, f1, f2, l1, l2, Advanced(mask, step, count - |mask|), unwritten)
    requires step.Skip? || step.Swap? ==> 0 < step.n <= count - |mask|
    requires step.Skip? || step.Finish? ==> HoleAt(es1, es2, l1, l2, |mask|)
    requires step.Skip? || step.Finish? ==> AsPlain(es1, es2, l1 + |mask|, l2 + |mask|, count - |mask|, step)
    ensures var mask' := Advanced(mask, step, count - |mask|);
            mask' + PlainMask(es1, es2, l1, l2, |mask'|, count) == mask + PlainMask(es1, es2, l1, l2, |mask|, count)
  {
    var at := |mask|;
    match step
    case Finish => PlainFinished(es1, es2, l1, l2, at, count);
    case Skip(n) =>
      PlainSkipped(es1, es2, l1, l2, at, count, n);
      Regrouped(mask, Run(n, false), PlainMask(es1, es2, l1, l2, at + n, count));
    case Again =>
    case Swap(n) =>
      forall i | at <= i < at + n
        ensures !HoleAt(es1, es2, l1, l2, i)
      {
        MarkedMapped(es1, es2, f1, f2, l1, l2, mask + Run(n, true), unwritten, i);
      }
      PlainSwapped(es1, es2, l1, l2, at, count, n);
      Regrouped(mask, Run(n, true), PlainMask(es1, es2, l1, l2, at + n, count));
  }

  lemma Regrouped(x: seq<bool>, y: seq<bool>, z: seq<bool>)
    ensures x + y + z == x + (y + z)
  {
  }

  lemma PlainSkipped(es1: seq<Ext>, es2: seq<Ext>, l1: int, l2: int, at: nat, count: nat, n: nat)
    requires at < count && 0 < n && HoleAt(es1, es2, l1, l2, at)
    requires AsPlain(es1, es2, l1 + at, l2 + at, count - at, Skip(n))
    ensures PlainMask(es1, es2, l1, l2, at, count) == Run(n, false) + PlainMask(es1, es2, l1, l2, at + n, count)
  {
  }

  lemma PlainFinished(es1: seq<Ext>, es2: seq<Ext>, l1: int, l2: int, at: nat, count: nat)
    requires at < count && HoleAt(es1, es2, l1, l2, at)
    requires AsPlain(es1, es2, l1 + at, l2 + at, count - at, Finish)
    ensures PlainMask(es1, es2, l1, l2, at, count) == Run(count - at, false)
    ensures PlainMask(es1, es2, l1, l2, count, count) == []
  {
  }

  // ----- what is passed over, by the starts of extents alone -----

  /** Some extent starts behind block `lo` and not behind block `hi`. */
  ghost predicate StartsIn(es: seq<Ext>, lo: int, hi: int) {
    exists i :: 0 <= i < |es| && lo < es[i].block <= hi
  }

  /** In both files an extent starts behind offset `at` and not behind offset `k`. */
  ghost predicate BothStart(es1: seq<Ext>, es2: seq<Ext>, l1: int, l2: int, at: int, k: int) {
    StartsIn(es1, l1 + at, l1 + k) && StartsIn(es2, l2 + at, l2 + k)
  }

  /** Offset `k` is the first behind `at` by which that is so: the farther of the two next starts. */
  ghost predicate FartherStart(es1: seq<Ext>, es2: seq<Ext>, l1: int, l2: int, at: int, k: int) {
    at < k && BothStart(es1, es2, l1, l2, at, k) && !BothStart(es1, es2, l1, l2, at, k - 1)
  }

  /** A new stretch starts at the offset: at the beginning, behind an exchanged block, or where the way from a hole
      ended. */
  ghost predicate StretchAt(es1: seq<Ext>, es2: seq<Ext>, l1: int, l2: int, mask: seq<bool>, at: nat)
    decreases at
  {
    || at == 0 || (at <= |mask| && mask[at - 1])
    || exists a: nat :: a < at && StretchAt(es1, es2, l1, l2, mask, a) && HoleAt(es1, es2, l1, l2, a) &&
                        FartherStart(es1, es2, l1, l2, a, at)
  }

  /** Where a stretch starts in a hole, everything is passed over up to the farther of the two next starts, or to the
      end of the range; a stretch that starts with mapped blocks is exchanged up to the next hole. */
  ghost predicate StretchRule(es1: seq<Ext>, es2: seq<Ext>, l1: int, l2: int, mask: seq<bool>, at: nat, k: nat) {
    at <= k < |mask| && StretchAt(es1, es2, l1, l2, mask, at) ==>
      if HoleAt(es1, es2, l1, l2, at) then !BothStart(es1, es2, l1, l2, at, k) ==> !mask[k]
      else (forall i | at <= i <= k :: !HoleAt(es1, es2, l1, l2, i)) ==> mask[k]
  }

  lemma StartsByNext(es: seq<Ext>, l: int, k: int)
    requires Ordered(es, 0, MAX_BLOCKS) && l < MAX_BLOCKS && k < MAX_BLOCKS
    ensures StartsIn(es, l, k) <==> NextOf(es, l) <= k
  {
    NextOfIs(es, l, 0);
  }

  /** The two ways to say how far the way from a hole leads agree. */
  lemma StepByStarts(es1: seq<Ext>, es2: seq<Ext>, l1: int, l2: int, at: nat, count: nat)
    requires Ordered(es1, 0, MAX_BLOCKS) && Ordered(es2, 0, MAX_BLOCKS) && at < count
    requires l1 + count <= MAX_BLOCKS && l2 + count <= MAX_BLOCKS
    ensures AsPlain(es1, es2, l1 + at, l2 + at, count - at, PlainNext(es1, es2, l1, l2, at, count))
    ensures forall k | at <= k < count ::
              BothStart(es1, es2, l1, l2, at, k) <==>
              PlainNext(es1, es2, l1, l2, at, count).Skip? && at + PlainNext(es1, es2, l1, l2, at, count).n <= k
  {
    NextOfIs(es1, l1 + at, 0);
    NextOfIs(es2, l2 + at, 0);
    StartBounded(es1, l1 + at, NextOf(es1, l1 + at));
    StartBounded(es2, l2 + at, NextOf(es2, l2 + at));
    forall k | at <= k < count
      ensures BothStart(es1, es2, l1, l2, at, k) <==>
              PlainNext(es1, es2, l1, l2, at, count).Skip? && at + PlainNext(es1, es2, l1, l2, at, count).n <= k
    {
      StartsByNext(es1, l1 + at, l1 + k);
      StartsByNext(es2, l2 + at, l2 + k);
    }
  }

  ghost function PlainNext(es1: seq<Ext>, es2: seq<Ext>, l1: int, l2: int, at: nat, count: nat): Step
    requires at < count
  {
    if l1 + at < NextOf(es1, l1 + at) || l2 + at < NextOf(es2, l2 + at)
    then PlainStep(es1, es2, l1 + at, l2 + at, count - at) else Finish
  }

  ghost predicate InBounds(es1: seq<Ext>, es2: seq<Ext>, l1: int, l2: int, count: nat) {
    && Ordered(es1, 0, MAX_BLOCKS) && Ordered(es2, 0, MAX_BLOCKS)
    && l1 + count <= MAX_BLOCKS && l2 + count <= MAX_BLOCKS
  }

  /** The mask from a hole on. */
  lemma PlainFromHole(es1: seq<Ext>, es2: seq<Ext>, l1: int, l2: int, at: nat, count: nat)
    requires InBounds(es1, es2, l1, l2, count) && at < count && HoleAt(es1, es2, l1, l2, at)
    ensures var step := PlainNext(es1, es2, l1, l2, at, count);
            if step.Skip? then
              && 0 < step.n <= count - at
              && PlainMask(es1, es2, l1, l2, at, count) ==
                 Run(step.n, false) + PlainMask(es1, es2, l1, l2, at + step.n, count)
            else PlainMask(es1, es2, l1, l2, at, count) == Run(count - at, false)
  {
    StepByStarts(es1, es2, l1, l2, at, count);
    NextOfIs(es1, l1 + at, 0);
    NextOfIs(es2, l2 + at, 0);
    var step := PlainNext(es1, es2, l1, l2, at, count);
    if step.Skip? {
      PlainSkipped(es1, es2, l1, l2, at, count, step.n);
    } else {
      PlainFinished(es1, es2, l1, l2, at, count);
    }
  }

  lemma {:induction false} PlainLength(es1: seq<Ext>, es2: seq<Ext>, l1: int, l2: int, at: nat, count: nat)
    requires InBounds(es1, es2, l1, l2, count) && at <= count
    ensures |PlainMask(es1, es2, l1, l2, at, count)| == count - at
    decreases count - at
  {
    if at < count {
      if HoleAt(es1, es2, l1, l2, at) {
        PlainFromHole(es1, es2, l1, l2, at, count);
        var step := PlainNext(es1, es2, l1, l2, at, count);
        if step.Skip? {
          PlainLength(es1, es2, l1, l2, at + step.n, count);
        }
      } else {
        PlainLength(es1, es2, l1, l2, at + 1, count);
      }
    }
  }

  /** Mask `a` of a list starts with a run of length `n`, an exchanged block or blocks passed over, and goes on as mask
      `a + n`. */
  ghost predicate FirstRun(ms: seq<seq<bool>>, a: nat, n: nat) {
    && 0 < n && a + n < |ms| && n <= |ms[a]| && ms[a][n..] == ms[a + n]
    && forall i | 0 <= i < n - 1 :: !ms[a][i]
  }

  ghost predicate Starts(ms: seq<seq<bool>>, a: nat) {
    exists n: nat :: FirstRun(ms, a, n)
  }

  /** If all masks of a list start with runs, each goes on behind an exchanged block as the mask from there. */
  lemma {:induction false} MasksBehind(ms: seq<seq<bool>>, a: nat, at: nat)
    requires forall i: nat | i < |ms| - 1 :: Starts(ms, i)
    requires a < at < |ms| && at - a <= |ms[a]| && ms[a][at - 1 - a]
    ensures ms[a][at - a..] == ms[at]
    decreases |ms| - a
  {
    assert Starts(ms, a);
    var n: nat :| FirstRun(ms, a, n);
    assert n <= at - a;
    if a + n < at {
      assert ms[a + n][at - 1 - a - n] == ms[a][at - 1 - a];
      MasksBehind(ms, a + n, at);
      assert ms[a][at - a..] == ms[a + n][at - a - n..];
    }
  }

  ghost predicate IsMasks(es1: seq<Ext>, es2: seq<Ext>, l1: int, l2: int, ms: seq<seq<bool>>) {
    && 0 < |ms|
    && forall i: nat | i < |ms| :: ms[i] == PlainMask(es1, es2, l1, l2, i, |ms| - 1)
  }

  lemma PlainStarts(es1: seq<Ext>, es2: seq<Ext>, l1: int, l2: int, at: nat, ms: seq<seq<bool>>)
    requires at < |ms| - 1 && InBounds(es1, es2, l1, l2, |ms| - 1) && IsMasks(es1, es2, l1, l2, ms)
    ensures Starts(ms, at)
  {
    var count := |ms| - 1;
    PlainLength(es1, es2, l1, l2, at, count);
    var n: nat := 1;
    if HoleAt(es1, es2, l1, l2, at) {
      PlainFromHole(es1, es2, l1, l2, at, count);
      var step := PlainNext(es1, es2, l1, l2, at, count);
      n := if step.Skip? then step.n else count - at;
    }
    assert FirstRun(ms, at, n);
  }

  /** Behind an exchanged block the mask goes on as if it started there. */
  lemma PlainBehind(es1: seq<Ext>, es2: seq<Ext>, l1: int, l2: int, at: nat, count: nat)
    requires InBounds(es1, es2, l1, l2, count) && 0 < at <= count
    requires |PlainMask(es1, es2, l1, l2, 0, count)| == count && PlainMask(es1, es2, l1, l2, 0, count)[at - 1]
    ensures PlainMask(es1, es2, l1, l2, 0, count)[at..] == PlainMask(es1, es2, l1, l2, at, count)
  {
    var ms := seq(count + 1, (i: nat) => PlainMask(es1, es2, l1, l2, i, count));
    forall i: nat | i < |ms| - 1
      ensures Starts(ms, i)
    {
      PlainStarts(es1, es2, l1, l2, i, ms);
    }
    MasksBehind(ms, 0, at);
  }

  /** Where a stretch starts the mask goes on as if it started there. */
  lemma {:induction false} PlainStretch(es1: seq<Ext>, es2: seq<Ext>, l1: int, l2: int, mask: seq<bool>, at: nat)
    requires InBounds(es1, es2, l1, l2, |mask|) && mask == PlainMask(es1, es2, l1, l2, 0, |mask|) && at < |mask|
    requires StretchAt(es1, es2, l1, l2, mask, at)
    ensures mask[at..] == PlainMask(es1, es2, l1, l2, at, |mask|)
    decreases at
  {
    if at == 0 {
      assert mask[0..] == mask;
    } else if mask[at - 1] {
      PlainBehind(es1, es2, l1, l2, at, |mask|);
    } else {
      var a: nat :| a < at && StretchAt(es1, es2, l1, l2, mask, a) && HoleAt(es1, es2, l1, l2, a) &&
                    FartherStart(es1, es2, l1, l2, a, at);
      PlainStretch(es1, es2, l1, l2, mask, a);
      FartherIs(es1, es2, l1, l2, a, at, |mask|);
      PlainAcross(es1, es2, l1, l2, a, at, |mask|);
      assert mask[at..] == mask[a..][at - a..];
    }
  }

  lemma FartherIs(es1: seq<Ext>, es2: seq<Ext>, l1: int, l2: int, a: nat, at: nat, count: nat)
    requires InBounds(es1, es2, l1, l2, count) && a < at < count && FartherStart(es1, es2, l1, l2, a, at)
    ensures PlainNext(es1, es2, l1, l2, a, count) == Skip(at - a)
  {
    StepByStarts(es1, es2, l1, l2, a, count);
  }

  lemma PlainAcross(es1: seq<Ext>, es2: seq<Ext>, l1: int, l2: int, a: nat, at: nat, count: nat)
    requires InBounds(es1, es2, l1, l2, count) && a < at < count && HoleAt(es1, es2, l1, l2, a)
    requires PlainNext(es1, es2, l1, l2, a, count) == Skip(at - a)
    ensures |PlainMask(es1, es2, l1, l2, a, count)| == count - a
    ensures PlainMask(es1, es2, l1, l2, a, count)[at - a..] == PlainMask(es1, es2, l1, l2, at, count)
  {
    PlainFromHole(es1, es2, l1, l2, a, count);
    PlainLength(es1, es2, l1, l2, a, count);
    BehindRun(at - a, PlainMask(es1, es2, l1, l2, at, count));
  }

  lemma BehindRun(n: nat, rest: seq<bool>)
    ensures (Run(n, false) + rest)[n..] == rest
  {
  }

  lemma PlainRule(es1: seq<Ext>, es2: seq<Ext>, l1: int, l2: int, mask: seq<bool>, at: nat, k: nat)
    requires InBounds(es1, es2, l1, l2, |mask|) && mask == PlainMask(es1, es2, l1, l2, 0, |mask|)
    ensures StretchRule(es1, es2, l1, l2, mask, at, k)
  {
    if at <= k < |mask| && StretchAt(es1, es2, l1, l2, mask, at) {
      PlainStretch(es1, es2, l1, l2, mask, at);
      assert mask[k] == mask[at..][k - at];
      if HoleAt(es1, es2, l1, l2, at) {
        StepByStarts(es1, es2, l1, l2, at, |mask|);
        PlainFromHole(es1, es2, l1, l2, at, |mask|);
      } else if forall i | at <= i <= k :: !HoleAt(es1, es2, l1, l2, i) {
        PlainSwapped(es1, es2, l1, l2, at, |mask|, k + 1 - at);
      }
    }
  }

  /** The mask is the one the two lists give, and keeps the rule of the stretches everywhere. */
  ghost predicate PlainRun(es1: seq<Ext>, es2: seq<Ext>, l1: int, l2: int, mask: seq<bool>) {
    && mask == PlainMask(es1, es2, l1, l2, 0, |mask|)
    && forall at: nat, k: nat :: StretchRule(es1, es2, l1, l2, mask, at, k)
  }

  lemma PlainRules(es1: seq<Ext>, es2: seq<Ext>, l1: int, l2: int, mask: seq<bool>)
    requires InBounds(es1, es2, l1, l2, |mask|)
    ensures mask == PlainMask(es1, es2, l1, l2, 0, |mask|) ==> PlainRun(es1, es2, l1, l2, mask)
  {
    if mask == PlainMask(es1, es2, l1, l2, 0, |mask|) {
      forall at: nat, k: nat
        ensures StretchRule(es1, es2, l1, l2, mask, at, k)
      {
        PlainRule(es1, es2, l1, l2, mask, at, k);
      }
    }
  }

  ghost predicate AlongPlain(es1: seq<Ext>, es2: seq<Ext>, l1: int, l2: int, mask: seq<bool>, count: nat) {
    mask + PlainMask(es1, es2, l1, l2, |mask|, count) == PlainMask(es1, es2, l1, l2, 0, count)
  }

  /** The loop between two rounds. */
  ghost predicate Progress(es1: seq<Ext>, es2: seq<Ext>, f1: seq<Ext>, f2: seq<Ext>, b1: nat, b2: nat, mask: seq<bool>,
                           left: nat, count: nat, unwritten: bool)
  {
    && |mask| + left == count
    && HolesOnly(es1, es2, b1, b2, mask)
    && (left > 0 ==> AtRound(es1, es2, f1, f2, b1, b2, mask, left, unwritten))
    && Exchanged(es1, es2, f1, f2, b1, b2, mask, unwritten)
    && (Tight(es1) && Tight(es2) ==> AlongPlain(es1, es2, b1, b2, mask, count))
  }

  lemma ProgressStarts(es1: seq<Ext>, es2: seq<Ext>, b1: nat, b2: nat, count: nat, unwritten: bool)
    ensures Progress(es1, es2, es1, es2, b1, b2, [], count, count, unwritten)
  {
    LateSelf(es1, b1 + Reach(es1, es2, b1, b2, count));
    LateSelf(es2, b2 + Reach(es1, es2, b1, b2, count));
    assert [] + PlainMask(es1, es2, b1, b2, 0, count) == PlainMask(es1, es2, b1, b2, 0, count);
  }

  /** What a round tells. */
  ghost predicate RoundDone(es1: seq<Ext>, es2: seq<Ext>, f1: seq<Ext>, f2: seq<Ext>, b1: nat, b2: nat, mask: seq<bool>,
                            left: nat, unwritten: bool, step: Step)
  {
    var l1, l2, skipped := b1 + |mask|, b2 + |mask|, step.Skip? || step.Finish?;
    && Exchanged(es1, es2, f1, f2, b1, b2, Advanced(mask, step, left), unwritten)
    && LateBoth(es1, es2, f1, f2, l1, l2, Behind(f1, f2, l1, l2, left, step))
    && (step.Skip? || step.Swap? ==> 0 < step.n <= left)
    && (skipped ==> Skippable(es1, es2, b1, b2, |mask|, if step.Skip? then step.n else left))
    && (skipped && Tight(es1) && Tight(es2) ==> AsPlain(es1, es2, l1, l2, left, step))
  }

  lemma HolesAdvance(es1: seq<Ext>, es2: seq<Ext>, b1: nat, b2: nat, mask: seq<bool>, left: nat, step: Step)
    requires HolesOnly(es1, es2, b1, b2, mask)
    requires step.Skip? ==> Skippable(es1, es2, b1, b2, |mask|, step.n)
    requires step.Finish? ==> Skippable(es1, es2, b1, b2, |mask|, left)
    ensures HolesOnly(es1, es2, b1, b2, Advanced(mask, step, left))
    ensures Trues(Advanced(mask, step, left)) == Trues(mask) + if step.Swap? then step.n else 0
  {
    match step
    case Finish => SkipFromHole(es1, es2, b1, b2, mask, left); TruesRun(mask, left, false);
    case Skip(n) => SkipFromHole(es1, es2, b1, b2, mask, n); TruesRun(mask, n, false);
    case Again =>
    case Swap(n) => SwapNoHole(es1, es2, b1, b2, mask, n); TruesRun(mask, n, true);
  }

  lemma ProgressStep(es1: seq<Ext>, es2: seq<Ext>, g1: seq<Ext>, g2: seq<Ext>, f1: seq<Ext>, f2: seq<Ext>, b1: nat,
                     b2: nat, mask: seq<bool>, left: nat, count: nat, unwritten: bool, step: Step)
    requires 0 < left && Progress(es1, es2, g1, g2, b1, b2, mask, left, count, unwritten)
    requires RoundDone(es1, es2, f1, f2, b1, b2, mask, left, unwritten, step)
    ensures var mask' := Advanced(mask, step, left);
            && |mask'| <= count && Progress(es1, es2, f1, f2, b1, b2, mask', count - |mask'|, count, unwritten)
            && Trues(mask') == Trues(mask) + if step.Swap? then step.n else 0
  {
    HolesAdvance(es1, es2, b1, b2, mask, left, step);
    if Tight(es1) && Tight(es2) {
      PlainAdvance(es1, es2, f1, f2, b1, b2, mask, unwritten, count, step);
    }
  }

  lemma ProgressEnds(es1: seq<Ext>, es2: seq<Ext>, f1: seq<Ext>, f2: seq<Ext>, b1: nat, b2: nat, mask: seq<bool>,
                     count: nat, unwritten: bool)
    requires Progress(es1, es2, f1, f2, b1, b2, mask, 0, count, unwritten) && InBounds(es1, es2, b1, b2, count)
    ensures |mask| == count && HolesOnly(es1, es2, b1, b2, mask)
    ensures Exchanged(es1, es2, f1, f2, b1, b2, mask, unwritten)
    ensures Tight(es1) && Tight(es2) ==> PlainRun(es1, es2, b1, b2, mask)
  {
    PlainRules(es1, es2, b1, b2, mask);
  }

  /** One round of the loop and what it has left to do after it. */
  method SwapRound(t1: ExtentTree, t2: ExtentTree, l1: nat, l2: nat, left: nat, replaced: nat, unwritten: bool,
                   busy: bool, ghost es1: seq<Ext>, ghost es2: seq<Ext>, ghost b1: nat, ghost b2: nat,
                   ghost mask: seq<bool>, ghost count: nat)
    returns (l1': nat, l2': nat, left': nat, replaced': nat, ghost mask': seq<bool>)
    requires t1 != t2 && t1.Valid() && t2.Valid() && 0 < left <= UNWRITTEN_MAX_LEN && replaced == Trues(mask)
    requires l1 + left <= MAX_BLOCKS && l2 + left <= MAX_BLOCKS && l1 == b1 + |mask| && l2 == b2 + |mask|
    requires Progress(es1, es2, Flat(t1.root), Flat(t2.root), b1, b2, mask, left, count, unwritten)
    modifies t1, t2
    ensures t1.LedgerGrows() && t2.LedgerGrows()
    ensures t1.Valid() && t2.Valid() && replaced' == Trues(mask')
    ensures left' > 0 ==> l1' == b1 + |mask'| && l2' == b2 + |mask'|
    ensures Progress(es1, es2, Flat(t1.root), Flat(t2.root), b1, b2, mask', left', count, unwritten)
    ensures || left' < left
            || (left' == left && Misfit(Flat(t1.root), Flat(t2.root), l1', l2', left') <
                                 old(Misfit(Flat(t1.root), Flat(t2.root), l1, l2, left)))
  {
    ghost var g1, g2 := Flat(t1.root), Flat(t2.root);
    var step := SwapStep(t1, t2, l1, l2, left, unwritten, busy, es1, es2, b1, b2, mask);
    ProgressStep(es1, es2, g1, g2, Flat(t1.root), Flat(t2.root), b1, b2, mask, left, count, unwritten, step);
    l1', l2', left', replaced', mask' := l1, l2, left, replaced, Advanced(mask, step, left);
    match step {
      case Finish => left' := 0;
      case Skip(n) => l1', l2', left' := l1 + n, l2 + n, left - n;
      case Again =>
      case Swap(n) => l1', l2', left', replaced' := l1 + n, l2 + n, left - n, replaced + n;
    }
  }

  /** ext4_swap_extents on two different files, for as many blocks as the state flag can be set on. */
  method SwapExtents(t1: ExtentTree, t2: ExtentTree, lblk1: nat, lblk2: nat, count: nat, unwritten: bool, busy: bool)
    returns (replaced: nat, ghost mask: seq<bool>)
    requires t1 != t2 && t1.Valid() && t2.Valid() && count <= UNWRITTEN_MAX_LEN
    requires lblk1 + count <= MAX_BLOCKS && lblk2 + count <= MAX_BLOCKS
    modifies t1, t2
    ensures t1.LedgerGrows() && t2.LedgerGrows()
    ensures t1.Valid() && t2.Valid() && |mask| == count && replaced == Trues(mask)
    ensures Exchanged(old(Flat(t1.root)), old(Flat(t2.root)), Flat(t1.root), Flat(t2.root), lblk1, lblk2, mask,
                      unwritten)
    ensures HolesOnly(old(Flat(t1.root)), old(Flat(t2.root)), lblk1, lblk2, mask)
    ensures Tight(old(Flat(t1.root))) && Tight(old(Flat(t2.root))) ==>
              PlainRun(old(Flat(t1.root)), old(Flat(t2.root)), lblk1, lblk2, mask)
  {
    ghost var es1, es2 := Flat(t1.root), Flat(t2.root);
    var l1: nat, l2: nat, left: nat := lblk1, lblk2, count;
    replaced, mask := 0, [];
    ProgressStarts(es1, es2, lblk1, lblk2, count, unwritten);
    while left > 0
      invariant t1.LedgerGrows() && t2.LedgerGrows()
      invariant t1.Valid() && t2.Valid() && replaced == Trues(mask)
      invariant left > 0 ==> l1 == lblk1 + |mask| && l2 == lblk2 + |mask|
      invariant Progress(es1, es2, Flat(t1.root), Flat(t2.root), lblk1, lblk2, mask, left, count, unwritten)
      decreases left, Misfit(Flat(t1.root), Flat(t2.root), l1, l2, left)
    {
      l1, l2, left, replaced, mask :=
        SwapRound(t1, t2, l1, l2, left, replaced, unwritten, busy, es1, es2, lblk1, lblk2, mask, count);
    }
    ProgressEnds(es1, es2, Flat(t1.root), Flat(t2.root), lblk1, lblk2, mask, count, unwritten);
  }
}
