/**
 Collapsing a range: the blocks are removed and everything behind them moves down
 (mqfs/extents.c, ext4_ext_shift_path_extents, ext4_ext_shift_extents, ext4_collapse_range).
 */
module ExtentCollapse {
  import opened Common
  import opened ExtentLists
  import opened ExtentNodes
  import opened ExtentTree
  import opened ExtentEdits
  import opened ExtentRemove

  // ----- on lists -----

  function Moved(e: Ext, shift: nat): Ext
    requires shift <= e.block
  {
    e.(block := e.block - shift)
  }

  /** All extents moved down; those that start below `shift` are not touched. */
  ghost function MovedAll(es: seq<Ext>, shift: nat): seq<Ext> {
    if es == [] then []
    else [if shift <= es[0].block then Moved(es[0], shift) else es[0]] + MovedAll(es[1..], shift)
  }

  lemma {:induction false} MovedMap(es: seq<Ext>, shift: nat, lo: int, hi: int)
    requires Ordered(es, lo, hi) && shift <= lo
    ensures Ordered(MovedAll(es, shift), lo - shift, hi - shift)
    ensures forall b: int :: Map(MovedAll(es, shift), b) == Map(es, b + shift)
  {
    if es != [] {
      var e, rest := Moved(es[0], shift), MovedAll(es[1..], shift);
      MovedMap(es[1..], shift, es[0].End(), hi);
      assert ([e] + rest)[1..] == rest;
    }
  }

  lemma {:induction false} MovedConcat(x: seq<Ext>, y: seq<Ext>, shift: nat)
    ensures MovedAll(x + y, shift) == MovedAll(x, shift) + MovedAll(y, shift)
  {
    if x == [] {
      assert x + y == y;
    } else {
      assert (x + y)[1..] == x[1..] + y;
      MovedConcat(x[1..], y, shift);
    }
  }

  // ----- a leaf -----

  /** The entries before `i` map what the leaf held before entry `n`, from `pos` on moved; the others wait. */
  ghost predicate LeafMoving(exts: seq<Ext>, pos: nat, n: nat, cur: seq<Ext>, i: nat, shift: nat, lo: int) {
    && pos <= n <= |exts| && i <= |cur| && cur[i..] == exts[n..]
    && Ordered(cur[..i], lo, LeafEnd(exts, pos, n, shift, lo))
    && SameMap(exts[..pos] + MovedAll(exts[pos..n], shift), cur[..i])
  }

  /** No extent from entry `pos` on can be merged with the one before it. */
  ghost predicate Settled(es: seq<Ext>, pos: nat, busy: bool) {
    forall k | 0 <= k && pos <= k + 1 < |es| :: !CanMerge(es[k], es[k + 1], busy)
  }

  lemma SettledMore(front: seq<Ext>, e: Ext, pos: nat, busy: bool)
    requires Settled(front, pos, busy) && (front != [] ==> !CanMerge(front[|front| - 1], e, busy))
    ensures Settled(front + [e], pos, busy)
  {
  }

  lemma SettledMerged(front: seq<Ext>, e: Ext, pos: nat, busy: bool)
    requires front != [] && Settled(front, pos, busy) && CanMerge(front[|front| - 1], e, busy)
    requires front[|front| - 1].Valid() && e.Valid()
    ensures Settled(front[..|front| - 1] + [Merged(front[|front| - 1], e)], pos, busy)
  {
  }

  ghost function LeafEnd(exts: seq<Ext>, pos: nat, n: nat, shift: nat, lo: int): int
    requires pos <= n <= |exts|
  {
    if n == pos then LastEnd(exts[..pos], lo) else exts[n - 1].End() - shift
  }

  /** The leaf part of ext4_ext_shift_path_extents: from entry `pos` on every extent moves down and is merged with the
      one before it where possible. */
  method ShiftLeaf(exts: seq<Ext>, pos: nat, shift: nat, busy: bool, ghost lo: int, ghost hi: int)
    returns (cur: seq<Ext>)
    requires Ordered(exts, lo, hi) && pos < |exts| && 0 < shift
             && LastEnd(exts[..pos], lo) + shift <= exts[pos].block && 0 <= lo
    ensures 0 < |cur| <= |exts|
    ensures Ordered(cur, lo, LastEnd(exts, lo) - shift)
    ensures SameMap(exts[..pos] + MovedAll(exts[pos..], shift), cur)
    ensures Settled(cur, pos, busy)
  {
    cur := exts;
    var i: nat, last: int := pos, |exts| - 1;
    ghost var n: nat := pos;
    LeafStarts(exts, pos, shift, busy, lo, hi);
    while i <= last
      invariant Shifting(exts, pos, n, cur, i, shift, busy, lo) && last == |cur| - 1
      decreases last - i + 1
    {
      cur, i, last := ShiftEntry(exts, pos, n, cur, i, shift, busy, lo, hi);
      n := n + 1;
    }
    LeafEnds(exts, pos, n, cur, i, shift, busy, lo);
  }

  /** The loop between two entries: `n` is the next to move, `i` its place in the list so far. */
  ghost predicate Shifting(exts: seq<Ext>, pos: nat, n: nat, cur: seq<Ext>, i: nat, shift: nat, busy: bool, lo: int) {
    && LeafMoving(exts, pos, n, cur, i, shift, lo) && |cur| <= |exts|
    && (pos < n ==> 0 < i) && Settled(cur[..i], pos, busy)
  }

  lemma LeafStarts(exts: seq<Ext>, pos: nat, shift: nat, busy: bool, lo: int, hi: int)
    requires Ordered(exts, lo, hi) && pos < |exts|
    ensures Shifting(exts, pos, pos, exts, pos, shift, busy, lo)
  {
    Around(exts, pos, lo, hi);
    assert exts[pos..pos] == [] && exts[..pos] + [] == exts[..pos];
  }

  lemma LeafEnds(exts: seq<Ext>, pos: nat, n: nat, cur: seq<Ext>, i: nat, shift: nat, busy: bool, lo: int)
    requires Shifting(exts, pos, n, cur, i, shift, busy, lo) && pos < |exts| && |cur| <= i
    ensures 0 < |cur| && Ordered(cur, lo, LastEnd(exts, lo) - shift) && Settled(cur, pos, busy)
    ensures SameMap(exts[..pos] + MovedAll(exts[pos..], shift), cur)
  {
    assert cur[..i] == cur && n == |exts| && exts[pos..n] == exts[pos..];
  }

  /** One entry: moved, and merged with the entry before it where possible.  It cannot reach the entry after it, which
      has not moved yet. */
  method ShiftEntry(ghost exts: seq<Ext>, ghost pos: nat, ghost n: nat, cur: seq<Ext>, i: nat, shift: nat, busy: bool,
                    ghost lo: int, ghost hi: int)
    returns (cur': seq<Ext>, i': nat, last: int)
    requires Ordered(exts, lo, hi) && n < |exts| && 0 < shift && 0 <= lo
    requires Shifting(exts, pos, n, cur, i, shift, busy, lo) && i < |cur|
             && LastEnd(exts[..pos], lo) + shift <= exts[pos].block
    ensures Shifting(exts, pos, n + 1, cur', i', shift, busy, lo) && last == |cur'| - 1
    ensures last - i' < |cur| - 1 - i
  {
    EntryMoves(exts, pos, n, cur[..i], shift, lo, hi);
    assert cur[i] == cur[i..][0] == exts[n];
    assert cur[i + 1..] == cur[i..][1..] == exts[n..][1..] == exts[n + 1..];
    ghost var front := cur[..i] + [Moved(exts[n], shift)];
    assert front[..i] == cur[..i];
    cur' := cur[i := Moved(cur[i], shift)];
    assert cur' == front + exts[n + 1..];
    JoinRest(front, exts, n, shift, lo, hi);
    cur', i' := MergeMoved(cur', i, busy, front, exts[n + 1..], pos, lo, exts[n].End() - shift, hi);
    last := |cur'| - 1;
  }

  /** The moved entry `i`, the last of `front`, goes into the entry before it where it can. */
  method MergeMoved(cur: seq<Ext>, i: nat, busy: bool, ghost front: seq<Ext>, ghost rest: seq<Ext>, ghost pos: nat,
                    ghost lo: int, ghost mid: int, ghost hi: int)
    returns (r: seq<Ext>, i': nat)
    requires |front| == i + 1 && cur == front + rest && Ordered(cur, lo, hi) && Ordered(front, lo, mid)
    requires rest != [] ==> front[i].End() < rest[0].block
    requires Settled(front[..i], pos, busy)
    ensures 0 < i' <= |r| <= |cur| && r[i'..] == rest
    ensures Ordered(r[..i'], lo, mid) && SameMap(front, r[..i']) && Settled(r[..i'], pos, busy)
  {
    var done := false;
    r := cur;
    if i > 0 {
      AbsorbOne(cur, i - 1, busy);
      r, done := MergeRight(cur, i - 1, busy, lo, hi);
    }
    i' := if done then i else i + 1;
    if done {
      MergeLast(front, rest, i - 1, busy, lo, mid);
      MergeSettles(front, rest, i - 1, pos, busy, lo, mid);
    } else {
      assert r == cur && r[..i'] == front && front == front[..i] + [front[i]];
      SettledMore(front[..i], front[i], pos, busy);
    }
  }

  lemma EntryMoves(exts: seq<Ext>, pos: nat, n: nat, front: seq<Ext>, shift: nat, lo: int, hi: int)
    requires Ordered(exts, lo, hi) && pos <= n < |exts| && 0 < shift && 0 <= lo
    requires LastEnd(exts[..pos], lo) + shift <= exts[pos].block
    requires Ordered(front, lo, LeafEnd(exts, pos, n, shift, lo))
    requires SameMap(exts[..pos] + MovedAll(exts[pos..n], shift), front)
    ensures shift <= exts[n].block
    ensures var f := front + [Moved(exts[n], shift)];
            Ordered(f, lo, exts[n].End() - shift) && SameMap(exts[..pos] + MovedAll(exts[pos..n + 1], shift), f)
  {
    EntryFits(exts, pos, n, shift, lo, hi);
    var e := Moved(exts[n], shift);
    Single(e, LeafEnd(exts, pos, n, shift, lo), exts[n].End() - shift);
    OrderedConcat(front, [e], lo, LeafEnd(exts, pos, n, shift, lo), exts[n].End() - shift);
    MovedSnoc(exts, pos, n, shift);
    Associate(exts[..pos], MovedAll(exts[pos..n], shift), [e]);
    AppendMap(exts[..pos] + MovedAll(exts[pos..n], shift), front, e);
  }

  lemma EntryFits(exts: seq<Ext>, pos: nat, n: nat, shift: nat, lo: int, hi: int)
    requires Ordered(exts, lo, hi) && pos <= n < |exts| && 0 <= lo
    requires LastEnd(exts[..pos], lo) + shift <= exts[pos].block
    ensures exts[n].Valid() && shift <= exts[n].block && LeafEnd(exts, pos, n, shift, lo) <= exts[n].block - shift
  {
    Around(exts, n, lo, hi);
    Around(exts, pos, lo, hi);
    if pos < n {
      Around(exts, n - 1, lo, hi);
      InOrder(exts, pos, n, lo, hi);
    }
  }

  lemma MovedSnoc(exts: seq<Ext>, pos: nat, n: nat, shift: nat)
    requires pos <= n < |exts| && shift <= exts[n].block
    ensures MovedAll(exts[pos..n + 1], shift) == MovedAll(exts[pos..n], shift) + [Moved(exts[n], shift)]
  {
    assert exts[pos..n + 1] == exts[pos..n] + [exts[n]];
    MovedConcat(exts[pos..n], [exts[n]], shift);
    assert [exts[n]][1..] == [];
  }

  lemma AppendMap(x: seq<Ext>, y: seq<Ext>, e: Ext)
    requires SameMap(x, y)
    ensures SameMap(x + [e], y + [e])
  {
    forall b: int
      ensures Map(y + [e], b) == Map(x + [e], b)
    {
      MapConcat(x, [e], b);
      MapConcat(y, [e], b);
    }
  }

  lemma {:induction false} InOrder(es: seq<Ext>, i: nat, j: nat, lo: int, hi: int)
    requires Ordered(es, lo, hi) && i < j < |es|
    ensures es[i].End() <= es[j].block
    decreases j - i
  {
    Around(es, j - 1, lo, hi);
    if i < j - 1 {
      InOrder(es, i, j - 1, lo, hi);
    }
  }

  lemma JoinRest(front: seq<Ext>, exts: seq<Ext>, n: nat, shift: nat, lo: int, hi: int)
    requires Ordered(exts, lo, hi) && n < |exts| && front != [] && Ordered(front, lo, exts[n].End() - shift)
    requires 0 < shift && front[|front| - 1].End() == exts[n].End() - shift
    ensures Ordered(front + exts[n + 1..], lo, hi)
    ensures n + 1 < |exts| ==> front[|front| - 1].End() < exts[n + 1].block
  {
    Around(exts, n, lo, hi);
    Loosen(exts[n + 1..], exts[n].End() - shift, exts[n].End(), hi, hi);
    OrderedConcat(front, exts[n + 1..], lo, exts[n].End() - shift, hi);
  }

  lemma AbsorbOne(es: seq<Ext>, i: nat, busy: bool)
    requires i + 1 < |es| && (i + 2 < |es| ==> es[i + 1].End() < es[i + 2].block)
    ensures Absorbed(es, i, busy) == if CanMerge(es[i], es[i + 1], busy)
                                     then es[..i] + [Merged(es[i], es[i + 1])] + es[i + 2..] else es
  {
    if CanMerge(es[i], es[i + 1], busy) {
      var r := es[..i] + [Merged(es[i], es[i + 1])] + es[i + 2..];
      assert r[i].End() == es[i + 1].End();
      assert i + 1 < |r| ==> r[i + 1] == es[i + 2];
    }
  }

  lemma MergeLast(front: seq<Ext>, rest: seq<Ext>, i: nat, busy: bool, lo: int, hi: int)
    requires Ordered(front, lo, hi) && i + 2 == |front| && CanMerge(front[i], front[i + 1], busy)
    ensures var es := front + rest;
            var r := es[..i] + [Merged(es[i], es[i + 1])] + es[i + 2..];
            && r[i + 1..] == rest && Ordered(r[..i + 1], lo, hi) && SameMap(front, r[..i + 1])
  {
    var es := front + rest;
    var r := es[..i] + [Merged(es[i], es[i + 1])] + es[i + 2..];
    MergePair(front, i, busy, lo, hi);
    assert r[..i + 1] == front[..i] + [Merged(front[i], front[i + 1])] + front[i + 2..];
    assert es[i + 2..] == rest;
  }

  lemma MergeSettles(front: seq<Ext>, rest: seq<Ext>, i: nat, pos: nat, busy: bool, lo: int, hi: int)
    requires Ordered(front, lo, hi) && i + 2 == |front| && CanMerge(front[i], front[i + 1], busy)
    requires Settled(front[..i + 1], pos, busy)
    ensures var es := front + rest;
            Settled((es[..i] + [Merged(es[i], es[i + 1])] + es[i + 2..])[..i + 1], pos, busy)
  {
    var es := front + rest;
    Around(front, i, lo, hi);
    Around(front, i + 1, lo, hi);
    SettledMerged(front[..i + 1], front[i + 1], pos, busy);
    assert (es[..i] + [Merged(es[i], es[i + 1])] + es[i + 2..])[..i + 1] ==
           front[..i + 1][..i] + [Merged(front[i], front[i + 1])];
  }

  // ----- the whole tree -----

  /** Below `p` nothing changes; from there on every block is found `shift` blocks lower. */
  ghost predicate ShiftedMap(es: seq<Ext>, es': seq<Ext>, p: int, shift: nat) {
    forall b: int :: ShiftedAt(es, es', p, shift, b)
  }

  ghost predicate ShiftedAt(es: seq<Ext>, es': seq<Ext>, p: int, shift: nat, b: int) {
    Map(es', b) == if b < p then Map(es, b) else Map(es, b + shift)
  }

  /** What was `before` has become `done`; `rest` starts at the iterator or later. */
  ghost predicate Moving(before: seq<Ext>, done: seq<Ext>, rest: seq<Ext>, it: int, p: int, shift: nat) {
    && 0 <= p && p + shift <= it && Ordered(before, 0, it) && Ordered(done, 0, it - shift)
    && Ordered(rest, it, MAX_BLOCKS)
    && ShiftedMap(before, done, p, shift)
  }

  lemma MovingLater(before: seq<Ext>, done: seq<Ext>, rest: seq<Ext>, it: int, p: int, shift: nat)
    requires Moving(before, done, rest, it, p, shift) && rest != []
    ensures Moving(before, done, rest, rest[0].block, p, shift)
  {
    Loosen(before, 0, 0, it, rest[0].block);
    Loosen(done, 0, 0, it - shift, rest[0].block - shift);
  }

  /** Shifting the rest of a leaf. */
  lemma ShiftStep(before: seq<Ext>, x: seq<Ext>, a: seq<Ext>, y: seq<Ext>, z: seq<Ext>, r: seq<Ext>, it: int,
                  mid: int, hi: int, p: int, shift: nat)
    requires Moving(before, x + a, y + z, it, p, shift) && Ordered(y, it, hi) && Ordered(z, hi, MAX_BLOCKS)
    requires Ordered(x, 0, mid) && Ordered(r, mid, hi - shift) && SameMap(a + MovedAll(y, shift), r)
    ensures Moving(before + y, x + r, z, hi, p, shift) && before + y + z == before + (y + z)
  {
    Associate(before, y, z);
    OrderedConcat(before, y, 0, it, hi);
    OrderedConcat(x, r, 0, mid, hi - shift);
    MapWithin(y, it, hi, 0);
    StepMap(before, x + a, x, a, y, r, it, hi, p, shift);
  }

  lemma StepMap(os: seq<Ext>, done: seq<Ext>, x: seq<Ext>, a: seq<Ext>, y: seq<Ext>, r: seq<Ext>, it: int,
                hi: int, p: int, shift: nat)
    requires done == x + a && ShiftedMap(os, done, p, shift) && SameMap(a + MovedAll(y, shift), r)
    requires Ordered(y, it, hi) && p + shift <= it && 0 <= p
    ensures ShiftedMap(os + y, x + r, p, shift)
  {
    MovedMap(y, shift, it, hi);
    forall b: int
      ensures ShiftedAt(os + y, x + r, p, shift, b)
    {
      assert ShiftedAt(os, done, p, shift, b);
      MapConcat(x, r, b);
      MapConcat(a, MovedAll(y, shift), b);
      MapConcat(x, a, b);
      MapConcat(os, y, b);
      MapConcat(os, y, b + shift);
      MapWithin(y, it, hi, b);
      MapWithin(y, it, hi, b + shift);
    }
  }

  lemma Aligned(done: seq<Ext>, rest: seq<Ext>, x: seq<Ext>, exts: seq<Ext>, z: seq<Ext>, pos: nat)
    requires pos < |exts| && x + exts + z == done + rest && |done| == |x| + pos
    ensures done == x + exts[..pos] && rest == exts[pos..] + z
  {
    var f := x + exts + z;
    assert f[..|done|] == done && f[|done|..] == rest;
    assert f[..|done|] == x + exts[..pos] && f[|done|..] == exts[pos..] + z;
  }

  /** Where the search for the iterator ends: at the last extent done, or at the next one. */
  lemma NextToMove(done: seq<Ext>, rest: seq<Ext>, it: int, shift: nat, q: nat)
    requires Ordered(done + rest, 0, MAX_BLOCKS) && Ordered(done, 0, it - shift) && Ordered(rest, it, MAX_BLOCKS)
    requires rest != [] && 0 < shift && Locates(done + rest, q, it)
    ensures if (done + rest)[q].block < it then q + 1 == |done| && it < rest[0].block else q == |done|
  {
    var f := done + rest;
    assert f[|done|] == rest[0];
    Around(f, |done|, 0, MAX_BLOCKS);
    if q < |done| {
      LastIsLow(done, q, it - shift);
      if q + 1 < |done| {
        LastIsLow(done, q + 1, it - shift);
      }
    } else if q > |done| {
      Increasing(f, |done|, q);
    }
  }

  lemma LastIsLow(done: seq<Ext>, q: nat, hi: int)
    requires Ordered(done, 0, hi) && q < |done|
    ensures done[q].block < hi
  {
    Around(done, q, 0, hi);
  }

  /** One round of the loop in ext4_ext_shift_extents. */
  method ShiftOnce(t: ExtentTree, it: nat, shift: nat, busy: bool, ghost before: seq<Ext>, ghost done: seq<Ext>,
                   ghost rest: seq<Ext>, ghost p: nat)
    returns (it': nat, ghost before': seq<Ext>, ghost done': seq<Ext>, ghost rest': seq<Ext>)
    requires t.Valid() && Flat(t.root) == done + rest && rest != [] && 0 < shift
             && Moving(before, done, rest, it, p, shift)
    modifies t
    ensures t.LedgerGrows()
    ensures t.Valid() && Flat(t.root) == done' + rest' && Moving(before', done', rest', it', p, shift)
    ensures before' + rest' == before + rest
    ensures |rest'| < |rest| || (rest' == rest && it < it' == rest[0].block)
  {
    var skip, path, pos := FindNext(t, it, shift, done, rest);
    if skip {
      it' := NextAllocated(t.root, path, pos);
      before', done', rest' := before, done, rest;
      MovingLater(before, done, rest, it, p, shift);
    } else {
      var exts := NodeAt(t.root, path).exts;
      it' := exts[|exts| - 1].End();
      before', done', rest' := ShiftRest(t, path, pos, it, shift, busy, before, p);
    }
  }

  /** The leaf and the entry from which to shift, or the hole to skip. */
  method FindNext(t: ExtentTree, it: nat, ghost shift: nat, ghost done: seq<Ext>, ghost rest: seq<Ext>)
    returns (skip: bool, path: seq<nat>, pos: nat)
    requires t.Valid() && Flat(t.root) == done + rest && rest != [] && 0 < shift
    requires Ordered(done, 0, it - shift) && Ordered(rest, it, MAX_BLOCKS)
    ensures IsPath(t.root, path) && |path| == t.depth && NodeAt(t.root, path).Leaf?
            && pos < Entries(NodeAt(t.root, path))
    ensures skip ==> NextAllocated(t.root, path, pos) == rest[0].block > it
    ensures !skip ==> var x, exts, z := Before(t.root, path), NodeAt(t.root, path).exts, After(t.root, path);
                      done == x + exts[..pos] && rest == exts[pos..] + z && LeafSplit(x, exts, z, pos, it, shift)
  {
    path, pos := FindExtent(t.root, t.depth, t.cap, it);
    FoundNext(t.root, path, pos, t.depth, t.cap, done, rest, it, shift);
    var exts := NodeAt(t.root, path).exts;
    skip := false;
    if it > exts[pos].block {
      if pos + 1 < |exts| {
        pos := pos + 1;
      } else {
        Skip(t.root, path, pos, t.depth, t.cap, done, rest);
        return true, path, pos;
      }
    }
    FlatAt(t.root, path);
    LeafReady(done, rest, Before(t.root, path), exts, After(t.root, path), pos, it, shift);
  }

  /** The leaf, the extents left of it and those right of it fit the parts done and not done. */
  ghost predicate LeafSplit(x: seq<Ext>, exts: seq<Ext>, z: seq<Ext>, pos: nat, it: int, shift: nat)
    requires pos < |exts|
  {
    && LastEnd(exts[..pos], LastEnd(x, 0)) + shift <= exts[pos].block
    && Ordered(x, 0, LastEnd(x, 0)) && Ordered(exts[pos..], it, LastEnd(exts, 0))
    && Ordered(z, LastEnd(exts, 0), MAX_BLOCKS)
  }

  method ShiftRest(t: ExtentTree, path: seq<nat>, pos: nat, ghost it: nat, shift: nat, busy: bool,
                   ghost before: seq<Ext>, ghost p: nat)
    returns (ghost before': seq<Ext>, ghost done': seq<Ext>, ghost rest': seq<Ext>)
    requires t.Valid() && 0 < shift
    requires IsPath(t.root, path) && |path| == t.depth && NodeAt(t.root, path).Leaf?
             && pos < Entries(NodeAt(t.root, path))
    requires var x, exts, z := Before(t.root, path), NodeAt(t.root, path).exts, After(t.root, path);
             Moving(before, x + exts[..pos], exts[pos..] + z, it, p, shift) && LeafSplit(x, exts, z, pos, it, shift)
    modifies t
    ensures t.LedgerGrows()
    ensures t.Valid() && Flat(t.root) == done' + rest'
    ensures var exts, z := old(NodeAt(t.root, path).exts), old(After(t.root, path));
            && Moving(before', done', rest', LastEnd(exts, 0), p, shift)
            && before' + rest' == before + (exts[pos..] + z) && |rest'| < |exts[pos..] + z|
  {
    ghost var x, exts, z := Before(t.root, path), NodeAt(t.root, path).exts, After(t.root, path);
    ghost var r := ShiftPath(t, path, pos, shift, busy);
    ShiftStep(before, x, exts[..pos], exts[pos..], z, r, it, LastEnd(x, 0), LastEnd(exts, 0), p, shift);
    before', done', rest' := before + exts[pos..], x + r, z;
  }

  lemma LeafReady(done: seq<Ext>, rest: seq<Ext>, x: seq<Ext>, exts: seq<Ext>, z: seq<Ext>, pos: nat, it: int,
                  shift: nat)
    requires pos < |exts| && x + exts + z == done + rest && |done| == |x| + pos
    requires Ordered(done, 0, it - shift) && Ordered(rest, it, MAX_BLOCKS)
    ensures done == x + exts[..pos] && rest == exts[pos..] + z && LeafSplit(x, exts, z, pos, it, shift)
  {
    Aligned(done, rest, x, exts, z, pos);
    LeafSplits(x, exts, z, pos, it, shift);
  }

  lemma LeafSplits(x: seq<Ext>, exts: seq<Ext>, z: seq<Ext>, pos: nat, it: int, shift: nat)
    requires pos < |exts| && Ordered(x + exts[..pos], 0, it - shift) && Ordered(exts[pos..] + z, it, MAX_BLOCKS)
    ensures LeafSplit(x, exts, z, pos, it, shift)
  {
    OrderedSplit(x, exts[..pos], 0, it - shift);
    MapWithin(exts[..pos], LastEnd(x, 0), it - shift, 0);
    OrderedSplit(exts[pos..], z, it, MAX_BLOCKS);
    assert (exts[pos..] + z)[0] == exts[pos];
  }

  lemma FoundNext(root: Node, path: seq<nat>, pos: nat, d: nat, cap: nat, done: seq<Ext>, rest: seq<Ext>, it: nat,
                  shift: nat)
    requires RootOk(root, d, cap) && Ordered(Flat(root), 0, MAX_BLOCKS) && Flat(root) == done + rest
    requires Ordered(done, 0, it - shift) && Ordered(rest, it, MAX_BLOCKS) && rest != [] && 0 < shift
    requires IsPath(root, path) && |path| == d && Routes(root, path, it)
    requires NodeAt(root, path).Leaf? && Placed(NodeAt(root, path).exts, pos, it)
    ensures Shaped(root, d, ROOT_CAP, cap) && pos < Entries(NodeAt(root, path))
    ensures if NodeAt(root, path).exts[pos].block < it then |Before(root, path)| + pos + 1 == |done|
            && it < rest[0].block
            else |Before(root, path)| + pos == |done|
  {
    FoundFlat(root, path, pos, it, d, cap);
    NextToMove(done, rest, it, shift, |Before(root, path)| + pos);
  }

  /** The hole between the leaf and the next extent. */
  lemma Skip(root: Node, path: seq<nat>, pos: nat, d: nat, cap: nat, done: seq<Ext>, rest: seq<Ext>)
    requires Shaped(root, d, ROOT_CAP, cap) && Flat(root) == done + rest && rest != []
    requires IsPath(root, path) && |path| == d && NodeAt(root, path).Leaf? && pos < Entries(NodeAt(root, path))
    requires |Before(root, path)| + pos + 1 == |done|
    ensures NextAllocated(root, path, pos) == rest[0].block
  {
    NextAllocatedExact(root, path, pos, d, ROOT_CAP, cap);
  }

  /** ext4_ext_shift_path_extents; storing the leaf corrects the index keys above it. */
  method ShiftPath(t: ExtentTree, path: seq<nat>, pos: nat, shift: nat, busy: bool) returns (ghost r: seq<Ext>)
    requires t.Valid() && IsPath(t.root, path) && |path| == t.depth && NodeAt(t.root, path).Leaf? && 0 < shift
    requires pos < Entries(NodeAt(t.root, path))
    requires LastEnd(NodeAt(t.root, path).exts[..pos], LastEnd(Before(t.root, path), 0)) + shift <=
             NodeAt(t.root, path).exts[pos].block
    modifies t
    ensures t.LedgerGrows()
    ensures t.Valid() && Flat(t.root) == old(Before(t.root, path)) + r + old(After(t.root, path))
    ensures LeafShifted(old(Before(t.root, path)), old(NodeAt(t.root, path).exts), pos, shift, busy, r)
  {
    var exts := NodeAt(t.root, path).exts;
    ghost var x, z := Before(t.root, path), After(t.root, path);
    FlatAt(t.root, path);
    var cur := ShiftWithin(exts, pos, shift, busy, x, z);
    t.LeafSize(path);
    t.StoreLeaf(path, cur);
    r := cur;
  }

  /** From entry `pos` on the leaf has moved, and merged with what was before it where possible. */
  ghost predicate LeafShifted(x: seq<Ext>, exts: seq<Ext>, pos: nat, shift: nat, busy: bool, r: seq<Ext>)
    requires pos < |exts|
  {
    && Ordered(r, LastEnd(x, 0), LastEnd(exts, 0) - shift)
    && SameMap(exts[..pos] + MovedAll(exts[pos..], shift), r) && Settled(r, pos, busy)
  }

  /** The leaf between the extents before and after it. */
  method ShiftWithin(exts: seq<Ext>, pos: nat, shift: nat, busy: bool, ghost x: seq<Ext>, ghost z: seq<Ext>)
    returns (cur: seq<Ext>)
    requires Ordered(x + exts + z, 0, MAX_BLOCKS) && pos < |exts| && 0 < shift
    requires LastEnd(exts[..pos], LastEnd(x, 0)) + shift <= exts[pos].block
    ensures 0 < |cur| <= |exts| && Ordered(x + cur + z, 0, MAX_BLOCKS)
    ensures LeafShifted(x, exts, pos, shift, busy, cur)
  {
    Split3(x, exts, z, 0, MAX_BLOCKS);
    cur := ShiftLeaf(exts, pos, shift, busy, LastEnd(x, 0), LastEnd(exts, 0));
    JoinMoved(x, exts, z, cur, shift);
  }

  lemma JoinMoved(x: seq<Ext>, exts: seq<Ext>, z: seq<Ext>, r: seq<Ext>, shift: nat)
    requires Ordered(x + exts + z, 0, MAX_BLOCKS) && exts != [] && Ordered(r, LastEnd(x, 0), LastEnd(exts, 0) - shift)
    ensures Ordered(x + r + z, 0, MAX_BLOCKS)
  {
    Split3(x, exts, z, 0, MAX_BLOCKS);
    Loosen(z, LastEnd(exts, 0) - shift, LastEnd(exts, 0), MAX_BLOCKS, MAX_BLOCKS);
    Join3(x, r, z, 0, LastEnd(x, 0), LastEnd(exts, 0) - shift, MAX_BLOCKS);
  }

  /** The difference as an unsigned 32-bit number. */
  function Minus32(a: nat, b: nat): nat { (a - b) % 0x1_0000_0000 }

  /** The test made before anything moves, on the extent found for the block before `start`. */
  predicate Refused(ex: Ext, start: nat, shift: nat) {
    (start == ex.block && shift > ex.block) || shift > Minus32(start, ex.End())
  }

  ghost predicate SomeMapped(es: seq<Ext>, lo: int, hi: int) {
    exists b: int :: lo <= b < hi && Map(es, b).Some?
  }

  /** For every list of extents: the test tells whether a block to move over is mapped exactly if no extent straddles
      `start`. */
  lemma RefusedExactly(es: seq<Ext>, q: nat, start: nat, shift: nat)
    requires Ordered(es, 0, MAX_BLOCKS) && 0 < shift <= start < MAX_BLOCKS && Locates(es, q, start - 1)
    ensures (Refused(es[q], start, shift) <==> SomeMapped(es, start - shift, start)) <==> CutAt(es, start - 1)
  {
    if CutAt(es, start - 1) {
      var low, high := MovingParts(es, q, start, shift);
    } else {
      Straddles(es, q, start, shift);
    }
  }

  /** An extent across `start` is the one found; the difference with its end wraps, so it is not seen. */
  lemma Straddles(es: seq<Ext>, q: nat, start: nat, shift: nat)
    requires Ordered(es, 0, MAX_BLOCKS) && 0 < shift <= start < MAX_BLOCKS && Locates(es, q, start - 1)
    requires !CutAt(es, start - 1)
    ensures !Refused(es[q], start, shift) && SomeMapped(es, start - shift, start)
  {
    var i :| 0 <= i < |es| && es[i].block <= start - 1 && start < es[i].End();
    Around(es, q, 0, MAX_BLOCKS);
    Around(es, i, 0, MAX_BLOCKS);
    StartsBefore(es, i, q, start - 1);
    assert Minus32(start, es[q].End()) == start + 0x1_0000_0000 - es[q].End();
    MapAround(es, q, 0, MAX_BLOCKS, start - 1);
    assert Map(es, start - 1).Some?;
  }

  /** The extent found for a block is the one that covers it. */
  lemma StartsBefore(es: seq<Ext>, i: nat, q: nat, b: nat)
    requires Ordered(es, 0, MAX_BLOCKS) && i < |es| && es[i].Covers(b) && Locates(es, q, b)
    ensures i == q
  {
    Around(es, q, 0, MAX_BLOCKS);
    MapAround(es, i, 0, MAX_BLOCKS, b);
    if i < q {
      Around(es, i, 0, MAX_BLOCKS);
      assert es[i + 1..][q - i - 1] == es[q];
      Around(es[i + 1..], q - i - 1, es[i].End(), MAX_BLOCKS);
    } else if q + 1 <= i {
      Around(es, i, 0, MAX_BLOCKS);
      if q + 1 < i {
        assert es[..i][q + 1] == es[q + 1];
        Around(es[..i], q + 1, 0, LastEnd(es[..i], 0));
      }
    }
  }

  /** Ten blocks, of which the upper five are to move down by one over the fifth: not refused. */
  lemma StraddleExample(pblk: nat)
    requires pblk + 10 <= PBLK_LIMIT
    ensures var es := [Ext(0, 10, pblk)];
            Ordered(es, 0, MAX_BLOCKS) && Locates(es, 0, 4) && !Refused(es[0], 5, 1) && SomeMapped(es, 4, 5)
  {
    var es := [Ext(0, 10, pblk)];
    Single(es[0], 0, MAX_BLOCKS);
    assert !CutAt(es, 4);
    Straddles(es, 0, 5, 1);
  }

  /** Without such an extent the list falls into what stays and what moves. */
  lemma MovingParts(es: seq<Ext>, q: nat, start: nat, shift: nat) returns (low: seq<Ext>, high: seq<Ext>)
    requires Ordered(es, 0, MAX_BLOCKS) && 0 < shift <= start < MAX_BLOCKS && CutAt(es, start - 1)
             && Locates(es, q, start - 1)
    ensures Refused(es[q], start, shift) <==> SomeMapped(es, start - shift, start)
    ensures !Refused(es[q], start, shift) ==> low + high == es && Moving(low, low, high, start, start - shift, shift)
  {
    if es[q].block < start {
      AfterFound(es, q, start, shift);
      low, high := es[..q + 1], es[q + 1..];
    } else {
      BeforeFirst(es, start, shift);
      low, high := es[..0], es[0..];
    }
  }

  lemma AfterFound(es: seq<Ext>, q: nat, start: nat, shift: nat)
    requires Ordered(es, 0, MAX_BLOCKS) && 0 < shift <= start < MAX_BLOCKS && CutAt(es, start - 1)
             && Locates(es, q, start - 1)
    requires es[q].block < start
    ensures Refused(es[q], start, shift) <==> SomeMapped(es, start - shift, start)
    ensures es[..q + 1] + es[q + 1..] == es
    ensures !Refused(es[q], start, shift) ==> Moving(es[..q + 1], es[..q + 1], es[q + 1..], start, start - shift, shift)
  {
    var x, z := es[..q + 1], es[q + 1..];
    Around(es, q, 0, MAX_BLOCKS);
    assert x + z == es;
    OrderedSplit(x, z, 0, MAX_BLOCKS);
    assert Minus32(start, es[q].End()) == start - es[q].End();
    if Refused(es[q], start, shift) {
      MapAround(es, q, 0, MAX_BLOCKS, es[q].End() - 1);
    } else {
      Loosen(x, 0, 0, es[q].End(), start);
      Loosen(x, 0, 0, es[q].End(), start - shift);
      Unmoved(x, start - shift, shift);
      forall b: int | start - shift <= b < start
        ensures Map(es, b).None?
      {
        MapConcat(x, z, b);
        MapWithin(x, 0, start - shift, b);
        MapWithin(z, start, MAX_BLOCKS, b);
      }
    }
  }

  lemma BeforeFirst(es: seq<Ext>, start: nat, shift: nat)
    requires Ordered(es, 0, MAX_BLOCKS) && es != [] && 0 < shift <= start < MAX_BLOCKS && start <= es[0].block
    ensures !Refused(es[0], start, shift) && !SomeMapped(es, start - shift, start)
    ensures es[..0] + es[0..] == es && Moving(es[..0], es[..0], es[0..], start, start - shift, shift)
  {
    Around(es, 0, 0, MAX_BLOCKS);
    assert Minus32(start, es[0].End()) == start + 0x1_0000_0000 - es[0].End();
    Unmoved(es[..0], start - shift, shift);
    assert es[0..] == es;
    forall b: int | start - shift <= b < start
      ensures Map(es, b).None?
    {
      MapWithin(es, start, MAX_BLOCKS, b);
    }
  }

  lemma Unmoved(x: seq<Ext>, p: int, shift: nat)
    requires Ordered(x, 0, p)
    ensures ShiftedMap(x, x, p, shift)
  {
    forall b: int
      ensures ShiftedAt(x, x, p, shift, b)
    {
      MapWithin(x, 0, p, b);
      MapWithin(x, 0, p, b + shift);
    }
  }

  /** ext4_ext_shift_extents to the left. */
  method ShiftExtents(t: ExtentTree, start: nat, shift: nat, busy: bool) returns (invalid: bool)
    requires t.Valid() && 0 < shift <= start < MAX_BLOCKS && CutAt(Flat(t.root), start - 1)
    modifies t
    ensures t.LedgerGrows()
    ensures t.Valid() && (invalid <==> SomeMapped(old(Flat(t.root)), start - shift, start))
    ensures if invalid then Flat(t.root) == old(Flat(t.root))
            else ShiftedMap(old(Flat(t.root)), Flat(t.root), start - shift, shift)
  {
    ghost var flat := Flat(t.root);
    if Entries(t.root) == 0 {
      assert flat == [] && !SomeMapped(flat, start - shift, start);
      Unmoved([], start - shift, shift);
      return false;
    }
    var stop := LastBlock(t);
    ghost var low, high;
    invalid, low, high := CheckHole(t, start, shift);
    if !invalid {
      ShiftAll(t, start, stop, shift, busy, low, high);
    }
  }

  /** The start of the last extent. */
  method LastBlock(t: ExtentTree) returns (stop: nat)
    requires t.Valid() && Entries(t.root) > 0
    ensures Flat(t.root) != [] && stop == Flat(t.root)[|Flat(t.root)| - 1].block
  {
    var path, pos := FindExtent(t.root, t.depth, t.cap, MAX_BLOCKS - 1);
    FoundFlat(t.root, path, pos, MAX_BLOCKS - 1, t.depth, t.cap);
    LastFound(Flat(t.root), |Before(t.root, path)| + pos);
    stop := NodeAt(t.root, path).exts[pos].block;
  }

  method CheckHole(t: ExtentTree, start: nat, shift: nat)
    returns (invalid: bool, ghost low: seq<Ext>, ghost high: seq<Ext>)
    requires t.Valid() && Entries(t.root) > 0 && 0 < shift <= start < MAX_BLOCKS && CutAt(Flat(t.root), start - 1)
    ensures invalid <==> SomeMapped(Flat(t.root), start - shift, start)
    ensures !invalid ==> low + high == Flat(t.root) && Moving(low, low, high, start, start - shift, shift)
  {
    var path, pos := FindExtent(t.root, t.depth, t.cap, start - 1);
    FoundFlat(t.root, path, pos, start - 1, t.depth, t.cap);
    low, high := MovingParts(Flat(t.root), |Before(t.root, path)| + pos, start, shift);
    invalid := Refused(NodeAt(t.root, path).exts[pos], start, shift);
  }

  lemma LastFound(es: seq<Ext>, q: nat)
    requires Ordered(es, 0, MAX_BLOCKS) && Locates(es, q, MAX_BLOCKS - 1)
    ensures q == |es| - 1
  {
    if q + 1 < |es| {
      Around(es, q + 1, 0, MAX_BLOCKS);
    }
  }

  /** The loop: the iterator runs from `start` to the last extent. */
  method ShiftAll(t: ExtentTree, start: nat, stop: nat, shift: nat, busy: bool, ghost low: seq<Ext>,
                  ghost high: seq<Ext>)
    requires t.Valid() && Flat(t.root) == low + high != [] && stop == (low + high)[|low + high| - 1].block
             && 0 < shift <= start
    requires Moving(low, low, high, start, start - shift, shift)
    modifies t
    ensures t.LedgerGrows()
    ensures t.Valid() && ShiftedMap(low + high, Flat(t.root), start - shift, shift)
  {
    var it := start;
    ghost var flat, before, done, rest := low + high, low, low, high;
    while it <= stop
      invariant t.LedgerGrows() && t.Valid() && Flat(t.root) == done + rest
                && Moving(before, done, rest, it, start - shift, shift)
      invariant before + rest == flat
      decreases |rest|, if rest != [] then rest[0].block - it else 0
    {
      NothingLeft(before, rest, it, stop);
      it, before, done, rest := ShiftOnce(t, it, shift, busy, before, done, rest, start - shift);
    }
    NothingLeft(before, rest, it, stop);
    assert before + [] == before && done + [] == done;
  }

  lemma NothingLeft(before: seq<Ext>, rest: seq<Ext>, it: int, stop: nat)
    requires Ordered(before, 0, it) && Ordered(rest, it, MAX_BLOCKS) && before + rest != []
    requires stop == (before + rest)[|before + rest| - 1].block
    ensures rest == [] <==> stop < it
  {
    if rest == [] {
      Around(before, |before| - 1, 0, it);
    } else {
      Around(rest, |rest| - 1, it, MAX_BLOCKS);
    }
  }

  /** ext4_collapse_range of the blocks from `p` to before `q`. */
  method CollapseRange(t: ExtentTree, p: nat, q: nat, busy: bool) returns (freed: seq<Ext>, invalid: bool)
    requires t.Valid() && p < q < MAX_BLOCKS
    modifies t
    ensures t.LedgerGrows()
    ensures t.Valid() && !invalid && ShiftedMap(old(Flat(t.root)), Flat(t.root), p, q - p)
    ensures FreesExactly(old(Flat(t.root)), freed, p, q - 1)
  {
    ghost var flat := Flat(t.root);
    freed := RemoveSpace(t, p, q - 1, busy);
    ghost var mid := Flat(t.root);
    HoleCut(mid, q - 1);
    assert !SomeMapped(mid, p, q);
    var shift := q - p;
    invalid := ShiftExtents(t, q, shift, busy);
    CutAndShifted(flat, mid, Flat(t.root), p, shift);
  }

  lemma CutAndShifted(es: seq<Ext>, mid: seq<Ext>, es': seq<Ext>, p: int, shift: nat)
    requires MapMinus(es, mid, p, p + shift) && ShiftedMap(mid, es', p, shift)
    ensures ShiftedMap(es, es', p, shift)
  {
    forall b: int
      ensures ShiftedAt(es, es', p, shift, b)
    {
      assert ShiftedAt(mid, es', p, shift, b);
    }
  }

  lemma HoleCut(es: seq<Ext>, b: nat)
    requires Ordered(es, 0, MAX_BLOCKS) && Map(es, b).None?
    ensures CutAt(es, b)
  {
    forall i | 0 <= i < |es|
      ensures es[i].block <= b ==> es[i].End() <= b + 1
    {
      MapAround(es, i, 0, MAX_BLOCKS, b);
    }
  }
}
