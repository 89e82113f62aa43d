/**
 Migrating a file from pointer blocks to extents (mqfs/migrate.c).
 */
module Migrate {
  import opened Common
  import opened ExtentLists
  import opened ExtentNodes
  import Tree = ExtentTree
  import opened IndirectPath
  import Ind = IndirectTree
  import opened MigrateRuns

  // ----- the file as a list of block numbers -----

  function Zeros(n: nat): seq<nat> { seq(n, _ => 0) }

  /** The physical block of every block below a pointer, 0 where there is none. */
  ghost function Leaves(b: Ind.Branch, p: nat, h: nat): seq<nat>
    decreases h, 0
  {
    if b.Null? then Zeros(Width(p, h)) else if h == 0 then [b.nr] else LeavesAll(b.kids, p, h - 1)
  }

  ghost function LeavesAll(bs: seq<Ind.Branch>, p: nat, h: nat): seq<nat>
    decreases h, 1, |bs|
  {
    if bs == [] then [] else LeavesAll(bs[..|bs| - 1], p, h) + Leaves(bs[|bs| - 1], p, h)
  }

  /** The slots of the inode up to `n`. */
  ghost function SlotLeaves(data: seq<Ind.Branch>, p: nat, n: nat): seq<nat>
    requires n <= |data|
  {
    if n == 0 then [] else SlotLeaves(data, p, n - 1) + Leaves(data[n - 1], p, SlotHeight(n - 1))
  }

  /** The blocks of the first `n` slots. */
  function UpTo(p: nat, n: nat): nat { if n == TIND + 1 then Limit(p) else SlotStart(p, n) }

  lemma {:induction false} LeavesLength(b: Ind.Branch, p: nat, h: nat)
    requires Ind.Shaped(b, p, h)
    ensures |Leaves(b, p, h)| == Width(p, h)
    decreases h, 0
  {
    if b.Block? && h > 0 {
      LeavesAllLength(b.kids, p, h - 1);
    }
  }

  lemma {:induction false} LeavesAllLength(bs: seq<Ind.Branch>, p: nat, h: nat)
    requires forall i | 0 <= i < |bs| :: Ind.Shaped(bs[i], p, h)
    ensures |LeavesAll(bs, p, h)| == |bs| * Width(p, h)
    decreases h, 1, |bs|
  {
    if bs != [] {
      var n := |bs| - 1;
      LeavesAllLength(bs[..n], p, h);
      LeavesLength(bs[n], p, h);
      Successor(n, Width(p, h));
    }
  }

  lemma Successor(n: nat, w: nat)
    ensures (n + 1) * w == n * w + w
  {
  }

  /** The list agrees with following the pointers. */
  lemma {:induction false} LeavesAt(b: Ind.Branch, p: nat, h: nat, ds: seq<nat>)
    requires Ind.Shaped(b, p, h) && |ds| == h && Digits(p, ds)
    ensures Value(p, ds) < |Leaves(b, p, h)|
    ensures Leaves(b, p, h)[Value(p, ds)] == if Ind.Walk(b, ds).Block? then Ind.Walk(b, ds).nr else 0
    decreases h, 0
  {
    LeavesLength(b, p, h);
    ValueBounded(p, ds);
    if b.Null? {
      Ind.WalkNull(b, ds);
    } else if h > 0 {
      LeavesAllAt(b.kids, p, h - 1, ds[0], ds[1..]);
    }
  }

  lemma {:induction false} LeavesAllAt(bs: seq<Ind.Branch>, p: nat, h: nat, j: nat, ds: seq<nat>)
    requires forall i | 0 <= i < |bs| :: Ind.Shaped(bs[i], p, h)
    requires j < |bs| && |ds| == h && Digits(p, ds)
    ensures j * Width(p, h) + Value(p, ds) < |LeavesAll(bs, p, h)|
    ensures LeavesAll(bs, p, h)[j * Width(p, h) + Value(p, ds)] ==
            if Ind.Walk(bs[j], ds).Block? then Ind.Walk(bs[j], ds).nr else 0
    decreases h, 1, |bs|
  {
    var n := |bs| - 1;
    LeavesAllLength(bs[..n], p, h);
    LeavesLength(bs[n], p, h);
    if j < n {
      LeavesAllAt(bs[..n], p, h, j, ds);
    } else {
      LeavesAt(bs[n], p, h, ds);
    }
  }

  lemma {:induction false} SlotLeavesLength(data: seq<Ind.Branch>, p: nat, n: nat)
    requires Ind.InodeOk(data, p) && n <= TIND + 1
    ensures |SlotLeaves(data, p, n)| == UpTo(p, n)
  {
    if n > 0 {
      SlotLeavesLength(data, p, n - 1);
      LeavesLength(data[n - 1], p, SlotHeight(n - 1));
      SlotEnds(p, n - 1);
    }
  }

  lemma {:induction false} SlotLeavesAt(data: seq<Ind.Branch>, p: nat, n: nat, path: seq<nat>)
    requires Ind.InodeOk(data, p) && IsOffsets(p, path) && path[0] < n <= TIND + 1
    ensures BlockOf(p, path) < |SlotLeaves(data, p, n)|
            && SlotLeaves(data, p, n)[BlockOf(p, path)] == Ind.NrAt(data, path)
  {
    SlotLeavesLength(data, p, n - 1);
    if path[0] < n - 1 {
      SlotLeavesAt(data, p, n - 1, path);
    } else {
      LeavesAt(data[n - 1], p, SlotHeight(n - 1), path[1..]);
    }
  }

  // ----- every list is that of a file -----

  /** A pointer to the blocks listed. */
  ghost function BranchOf(s: seq<nat>, p: nat, h: nat): Ind.Branch
    requires |s| == Width(p, h)
    decreases h, 0
  {
    if h == 0 then (if s[0] == 0 then Ind.Null else Ind.Block(s[0], []))
    else Ind.Block(1, KidsOf(s, p, h - 1, p))
  }

  ghost function KidsOf(s: seq<nat>, p: nat, h: nat, n: nat): seq<Ind.Branch>
    requires |s| == n * Width(p, h)
    decreases h, 1, n
  {
    if n == 0 then []
    else
      Successor(n - 1, Width(p, h));
      KidsOf(s[..(n - 1) * Width(p, h)], p, h, n - 1) + [BranchOf(s[(n - 1) * Width(p, h)..], p, h)]
  }

  lemma {:induction false} BranchLeaves(s: seq<nat>, p: nat, h: nat)
    requires |s| == Width(p, h)
    ensures Ind.Shaped(BranchOf(s, p, h), p, h) && Leaves(BranchOf(s, p, h), p, h) == s
    decreases h, 0
  {
    if h > 0 {
      KidsLeaves(s, p, h - 1, p);
    }
  }

  lemma {:induction false} KidsLeaves(s: seq<nat>, p: nat, h: nat, n: nat)
    requires |s| == n * Width(p, h)
    ensures |KidsOf(s, p, h, n)| == n && LeavesAll(KidsOf(s, p, h, n), p, h) == s
    ensures forall i | 0 <= i < n :: Ind.Shaped(KidsOf(s, p, h, n)[i], p, h)
    decreases h, 1, n
  {
    if n > 0 {
      Successor(n - 1, Width(p, h));
      var m := (n - 1) * Width(p, h);
      KidsLeaves(s[..m], p, h, n - 1);
      BranchLeaves(s[m..], p, h);
      var kids := KidsOf(s, p, h, n);
      assert kids[..n - 1] == KidsOf(s[..m], p, h, n - 1) && s == s[..m] + s[m..];
    }
  }

  /** The first `n` slots of the inode of the blocks listed. */
  lemma {:induction false} SlotsOf(s: seq<nat>, p: nat, n: nat) returns (data: seq<Ind.Branch>)
    requires n <= TIND + 1 && |s| == UpTo(p, n)
    ensures |data| == n && SlotsFor(data, p, s)
    decreases n
  {
    data := [];
    if n > 0 {
      var m := UpTo(p, n - 1);
      SlotEnds(p, n - 1);
      var front := SlotsOf(s[..m], p, n - 1);
      assert s == s[..m] + s[m..];
      data := SlotAdded(front, p, s[..m], s[m..]);
    }
  }

  ghost predicate SlotsFor(data: seq<Ind.Branch>, p: nat, s: seq<nat>) {
    SlotLeaves(data, p, |data|) == s && forall i | 0 <= i < |data| :: Ind.Shaped(data[i], p, SlotHeight(i))
  }

  lemma SlotAdded(front: seq<Ind.Branch>, p: nat, s: seq<nat>, more: seq<nat>) returns (data: seq<Ind.Branch>)
    requires SlotsFor(front, p, s) && |more| == Width(p, SlotHeight(|front|))
    ensures |data| == |front| + 1 && SlotsFor(data, p, s + more)
  {
    var b := BranchOf(more, p, SlotHeight(|front|));
    BranchLeaves(more, p, SlotHeight(|front|));
    SlotsSnoc(front, b, p);
    data := front + [b];
  }

  /** Every list of the right length is that of a file. */
  lemma AnyFile(s: seq<nat>, p: nat) returns (data: seq<Ind.Branch>)
    requires |s| == Limit(p)
    ensures Ind.InodeOk(data, p) && SlotLeaves(data, p, TIND + 1) == s
  {
    data := SlotsOf(s, p, TIND + 1);
  }

  lemma SlotsSnoc(front: seq<Ind.Branch>, b: Ind.Branch, p: nat)
    ensures SlotLeaves(front + [b], p, |front| + 1) == SlotLeaves(front, p, |front|) + Leaves(b, p, SlotHeight(|front|))
  {
    SlotsPrefix(front, front + [b], p, |front|);
  }

  lemma {:induction false} SlotsPrefix(x: seq<Ind.Branch>, y: seq<Ind.Branch>, p: nat, n: nat)
    requires n <= |x| && x <= y
    ensures SlotLeaves(y, p, n) == SlotLeaves(x, p, n)
  {
    if n > 0 {
      SlotsPrefix(x, y, p, n - 1);
    }
  }

  // ----- facts about growing lists -----

  lemma {:induction false} RunsZeros(seen: seq<nat>, n: nat)
    ensures RunsOf(seen + Zeros(n)) == RunsOf(seen)
  {
    if n == 0 {
      assert seen + Zeros(n) == seen;
    } else {
      var s := seen + Zeros(n);
      assert s[..|s| - 1] == seen + Zeros(n - 1);
      RunsZeros(seen, n - 1);
    }
  }

  lemma LongPrefix(a: seq<nat>, b: seq<nat>)
    requires AnyLong(RunsOf(a))
    ensures AnyLong(RunsOf(a + b))
  {
    assert (a + b)[..|a|] == a;
    LongStays(a + b, |a|);
  }

  lemma NarrowParts(a: seq<nat>, b: seq<nat>)
    ensures Narrow(a + b) <==> Narrow(a) && Narrow(b)
  {
    var s := a + b;
    if Narrow(s) {
      assert forall i | 0 <= i < |a| :: s[i] == a[i];
      assert forall i | 0 <= i < |b| :: s[|a| + i] == b[i];
    }
  }

  lemma RunsSnoc(seen: seq<nat>, nr: nat)
    ensures RunsOf(seen + [nr]) == Extended(RunsOf(seen), |seen|, nr)
  {
    assert (seen + [nr])[..|seen|] == seen;
  }

  // ----- the migration -----

  /** The runs of the file so far are those done and the one at hand, if there is one. */
  ghost predicate Pending(seen: seq<nat>, done: seq<Run>, first: nat, last: nat, firstP: nat, lastP: nat) {
    if firstP == 0 then RunsOf(seen) == done == []
    else
      && first <= last && lastP == firstP + (last - first)
      && RunsOf(seen) == done + [Run(first, last - first + 1, firstP)]
  }

  /** struct migrate_struct and the inode that receives the extents. */
  class Migration {
    const tree: Tree.ExtentTree
    const p: nat
    var first: nat
    var last: nat
    var curr: nat
    var firstP: nat
    var lastP: nat
    ghost var seen: seq<nat> // the file up to the current block
    ghost var done: seq<Run> // the runs inserted

    /** The extents inserted are those of the runs before the one at hand. */
    ghost predicate Stored()
      reads this, tree
    {
      && tree.Valid() && curr == |seen| <= MAX_BLOCKS && Narrow(seen) && !AnyZero(done)
      && SameMap(Encoded(done), Flat(tree.root))
    }

    ghost predicate Valid()
      reads this, tree
    {
      Stored() && Pending(seen, done, first, last, firstP, lastP)
    }

    constructor (tree: Tree.ExtentTree, p: nat)
      requires tree.Valid() && Flat(tree.root) == []
      ensures Valid() && this.tree == tree && this.p == p && seen == []
    {
      this.tree, this.p := tree, p;
      first, last, curr, firstP, lastP := 0, 0, 0, 0, 0;
      seen, done := [], [];
    }

    /** finish_range */
    method FinishRange() returns (err: bool)
      requires Valid()
      modifies `firstP, `done, tree
      ensures err ==> AnyLong(RunsOf(seen))
      ensures !err ==> Stored() && RunsOf(seen) == done
    {
      if firstP == 0 {
        return false;
      }
      ghost var r := Run(first, last - first + 1, firstP);
      var newext := Encode(Run(first, last - first + 1, firstP));
      var busy := *;
      NextFits(seen, done, r, Flat(tree.root));
      err := tree.Insert(newext, false, busy);
      ghost var was := done;
      done, firstP := done + [r], 0;
      if !err {
        NextStored(was, r, old(Flat(tree.root)), Flat(tree.root));
      } else {
        ZeroRun(seen, was, r);
      }
    }

    /** update_extent_range */
    method Update(pblock: nat) returns (err: bool)
      requires Valid() && 0 < pblock < 0x1_0000_0000 && |seen| < MAX_BLOCKS
      modifies this, tree
      ensures seen == old(seen) + [pblock]
      ensures err ==> AnyLong(RunsOf(seen))
      ensures !err ==> Valid()
    {
      NarrowParts(seen, [pblock]);
      if firstP != 0 && lastP + 1 == pblock && last + 1 == curr {
        JoinRun(seen, done, first, last, firstP, lastP);
        lastP, last, curr := pblock, curr, curr + 1;
        seen := seen + [pblock];
        err := false;
      } else {
        err := NewRange(pblock);
      }
    }

    method NewRange(pblock: nat) returns (err: bool)
      requires Valid() && 0 < pblock && |seen| < MAX_BLOCKS && Narrow(seen + [pblock])
      requires !(firstP != 0 && lastP + 1 == pblock && last + 1 == curr)
      modifies this, tree
      ensures seen == old(seen) + [pblock]
      ensures err ==> AnyLong(RunsOf(seen))
      ensures !err ==> Valid()
    {
      StartRun(seen, done, first, last, firstP, lastP, pblock);
      err := FinishRange();
      if err {
        LongPrefix(seen, [pblock]);
      }
      firstP, lastP, first, last, curr := pblock, pblock, curr, curr, curr + 1;
      seen := seen + [pblock];
    }

    /** A hole of `n` blocks. */
    method Skip(n: nat)
      requires Valid() && |seen| + n <= MAX_BLOCKS
      modifies `curr, `seen
      ensures Valid() && seen == old(seen) + Zeros(n)
    {
      RunsZeros(seen, n);
      NarrowParts(seen, Zeros(n));
      curr := curr + n;
      seen := seen + Zeros(n);
    }

    /** The pointers of one pointer block: update_ind_extent_range, update_dind_extent_range and
        update_tind_extent_range for heights 1, 2 and 3. */
    method UpdateTree(b: Ind.Branch, h: nat) returns (err: bool)
      requires Valid() && b.Block? && 0 < h && Ind.Shaped(b, p, h)
      requires Narrow(Leaves(b, p, h)) && |seen| + Width(p, h) <= MAX_BLOCKS
      modifies this, tree
      ensures err ==> AnyLong(RunsOf(old(seen) + Leaves(b, p, h)))
      ensures !err ==> Valid() && seen == old(seen) + Leaves(b, p, h)
      decreases h, 0
    {
      LeavesLength(b, p, h);
      ghost var was := seen;
      assert was + [] == was && b.kids[..0] == [];
      for i := 0 to |b.kids|
        invariant Valid() && seen == was + LeavesAll(b.kids[..i], p, h - 1)
      {
        err := UpdateKid(b, h, i, was);
        if err {
          return;
        }
      }
      assert b.kids[..|b.kids|] == b.kids;
      err := false;
    }

    /** Pointer `i` of a pointer block. */
    method UpdateKid(b: Ind.Branch, h: nat, i: nat, ghost was: seq<nat>) returns (err: bool)
      requires Valid() && b.Block? && 0 < h && Ind.Shaped(b, p, h) && i < |b.kids|
      requires Narrow(Leaves(b, p, h)) && |was + Leaves(b, p, h)| <= MAX_BLOCKS
      requires seen == was + LeavesAll(b.kids[..i], p, h - 1)
      modifies this, tree
      ensures err ==> AnyLong(RunsOf(was + Leaves(b, p, h)))
      ensures !err ==> Valid() && seen == was + LeavesAll(b.kids[..i + 1], p, h - 1)
      decreases h - 1, 2
    {
      KidLeaves(b.kids, p, h - 1, i, was);
      err := UpdatePointer(b.kids[i], h - 1);
      if err {
        LongPrefix(was + LeavesAll(b.kids[..i + 1], p, h - 1), LeavesAll(b.kids[i + 1..], p, h - 1));
      }
    }

    /** One pointer to a branch of height `h`. */
    method UpdatePointer(b: Ind.Branch, h: nat) returns (err: bool)
      requires Valid() && Ind.Shaped(b, p, h) && Narrow(Leaves(b, p, h)) && |seen| + Width(p, h) <= MAX_BLOCKS
      modifies this, tree
      ensures err ==> AnyLong(RunsOf(old(seen) + Leaves(b, p, h)))
      ensures !err ==> Valid() && seen == old(seen) + Leaves(b, p, h)
      decreases h, 1
    {
      err := false;
      if b.Null? {
        Skip(Width(p, h));
      } else if h == 0 {
        assert Leaves(b, p, h)[0] == b.nr;
        err := Update(b.nr);
      } else {
        err := UpdateTree(b, h);
      }
    }

    /** The walk over the inode's pointers in ext4_ext_migrate.  It reproduces the file exactly if no 32769 blocks in
        a row are physically in a row as well. */
    method WalkInode(data: seq<Ind.Branch>) returns (err: bool)
      requires Valid() && seen == [] && Ind.InodeOk(data, p) && Narrow(SlotLeaves(data, p, TIND + 1))
               && Limit(p) <= MAX_BLOCKS
      modifies this, tree
      ensures !err ==> tree.Valid()
      ensures !err && SameFile(SlotLeaves(data, p, TIND + 1), Flat(tree.root)) <==>
                !LongRun(SlotLeaves(data, p, TIND + 1))
    {
      SlotLeavesLength(data, p, TIND + 1);
      ghost var all := SlotLeaves(data, p, TIND + 1);
      for slot := 0 to TIND
        invariant Valid() && seen == SlotLeaves(data, p, slot)
      {
        err := WalkSlot(data, slot, all);
        if err {
          return;
        }
      }
      if data[TIND].Block? {
        err := WalkSlot(data, TIND, all);
        if err {
          return;
        }
      } else {
        RunsZeros(seen, Width(p, SlotHeight(TIND)));
      }
      err := Finish(all);
    }

    /** One pointer of the inode. */
    method WalkSlot(data: seq<Ind.Branch>, slot: nat, ghost all: seq<nat>) returns (err: bool)
      requires Ind.InodeOk(data, p) && slot <= TIND && all == SlotLeaves(data, p, TIND + 1) && Narrow(all)
               && Limit(p) <= MAX_BLOCKS
      requires Valid() && seen == SlotLeaves(data, p, slot)
      modifies this, tree
      ensures err ==> LongRun(all)
      ensures !err ==> Valid() && seen == SlotLeaves(data, p, slot + 1)
    {
      SlotFits(data, p, slot);
      err := UpdatePointer(data[slot], SlotHeight(slot));
      if err {
        FailedEarly(data, p, slot + 1);
      }
    }

    /** The last extent. */
    method Finish(ghost all: seq<nat>) returns (err: bool)
      requires Valid() && Narrow(all) && |all| <= MAX_BLOCKS && RunsOf(all) == RunsOf(seen)
      modifies this, tree
      ensures !err ==> tree.Valid()
      ensures !err && SameFile(all, Flat(tree.root)) <==> !LongRun(all)
    {
      err := FinishRange();
      Judge(all, done, Flat(tree.root), err);
    }
  }

  lemma {:induction false} LeavesConcat(x: seq<Ind.Branch>, y: seq<Ind.Branch>, p: nat, h: nat)
    ensures LeavesAll(x + y, p, h) == LeavesAll(x, p, h) + LeavesAll(y, p, h)
    decreases |y|
  {
    if y == [] {
      assert x + y == x;
    } else {
      var n := |y| - 1;
      assert (x + y)[..|x + y| - 1] == x + y[..n];
      LeavesConcat(x, y[..n], p, h);
    }
  }

  /** The blocks below pointer `i` between those before it and those after it. */
  lemma KidLeaves(bs: seq<Ind.Branch>, p: nat, h: nat, i: nat, was: seq<nat>)
    requires i < |bs| && Narrow(LeavesAll(bs, p, h)) && forall j | 0 <= j < |bs| :: Ind.Shaped(bs[j], p, h)
    ensures was + LeavesAll(bs[..i + 1], p, h) == was + LeavesAll(bs[..i], p, h) + Leaves(bs[i], p, h)
    ensures was + LeavesAll(bs, p, h) == was + LeavesAll(bs[..i + 1], p, h) + LeavesAll(bs[i + 1..], p, h)
    ensures Narrow(Leaves(bs[i], p, h)) && |LeavesAll(bs[..i], p, h)| + Width(p, h) <= |LeavesAll(bs, p, h)|
  {
    KidSplit(bs, p, h, i);
    Glue(was, LeavesAll(bs[..i], p, h), Leaves(bs[i], p, h), LeavesAll(bs[i + 1..], p, h));
    LeavesLength(bs[i], p, h);
  }

  lemma KidSplit(bs: seq<Ind.Branch>, p: nat, h: nat, i: nat)
    requires i < |bs|
    ensures LeavesAll(bs[..i + 1], p, h) == LeavesAll(bs[..i], p, h) + Leaves(bs[i], p, h)
    ensures LeavesAll(bs, p, h) == LeavesAll(bs[..i], p, h) + Leaves(bs[i], p, h) + LeavesAll(bs[i + 1..], p, h)
  {
    assert bs[..i + 1][..i] == bs[..i];
    LeavesConcat(bs[..i + 1], bs[i + 1..], p, h);
    assert bs == bs[..i + 1] + bs[i + 1..];
  }

  lemma Glue(was: seq<nat>, x: seq<nat>, l: seq<nat>, z: seq<nat>)
    ensures was + (x + l) == was + x + l && was + (x + l + z) == was + (x + l) + z
    ensures Narrow(x + l + z) ==> Narrow(l)
  {
    NarrowParts(x + l, z);
    NarrowParts(x, l);
  }

  lemma SlotFits(data: seq<Ind.Branch>, p: nat, slot: nat)
    requires Ind.InodeOk(data, p) && slot <= TIND && Narrow(SlotLeaves(data, p, TIND + 1))
    ensures Ind.Shaped(data[slot], p, SlotHeight(slot)) && Narrow(Leaves(data[slot], p, SlotHeight(slot)))
    ensures |SlotLeaves(data, p, slot)| + Width(p, SlotHeight(slot)) <= Limit(p)
  {
    var rest := SlotRest(data, p, slot + 1);
    var x, l := SlotLeaves(data, p, slot), Leaves(data[slot], p, SlotHeight(slot));
    NarrowParts(x + l, rest);
    NarrowParts(x, l);
    LeavesLength(data[slot], p, SlotHeight(slot));
    SlotLeavesLength(data, p, TIND + 1);
  }

  /** The rest of the file after the first slots. */
  lemma {:induction false} SlotRest(data: seq<Ind.Branch>, p: nat, n: nat) returns (rest: seq<nat>)
    requires |data| == TIND + 1 && n <= TIND + 1
    ensures SlotLeaves(data, p, TIND + 1) == SlotLeaves(data, p, n) + rest
    decreases TIND + 1 - n
  {
    if n == TIND + 1 {
      rest := [];
    } else {
      var l := Leaves(data[n], p, SlotHeight(n));
      var r := SlotRest(data, p, n + 1);
      rest := l + r;
      assert SlotLeaves(data, p, n) + l + r == SlotLeaves(data, p, n) + (l + r);
    }
  }

  lemma FailedEarly(data: seq<Ind.Branch>, p: nat, n: nat)
    requires |data| == TIND + 1 && n <= TIND + 1 && AnyLong(RunsOf(SlotLeaves(data, p, n)))
    ensures LongRun(SlotLeaves(data, p, TIND + 1))
  {
    var rest := SlotRest(data, p, n);
    LongPrefix(SlotLeaves(data, p, n), rest);
    LongExactly(SlotLeaves(data, p, TIND + 1));
  }

  lemma Judge(all: seq<nat>, done: seq<Run>, flat: seq<Ext>, err: bool)
    requires err ==> AnyLong(RunsOf(all))
    requires !err ==> done == RunsOf(all) && SameMap(Encoded(done), flat)
    ensures !err && SameFile(all, flat) <==> !LongRun(all)
  {
    LongExactly(all);
    if !err {
      FaithfulExactly(all);
      SameEither(all, Encoded(done), flat);
    }
  }

  lemma SameEither(all: seq<nat>, es: seq<Ext>, flat: seq<Ext>)
    requires SameMap(es, flat)
    ensures SameFile(all, es) <==> SameFile(all, flat)
  {
    if SameFile(all, flat) {
      forall b: int
        ensures Map(es, b) == Expect(all, b)
      {
        assert Map(flat, b) == Expect(all, b);
      }
    }
  }

  lemma ExtendLast(done: seq<Run>, r: Run, b: nat, nr: nat)
    requires nr != 0
    ensures Extended(done + [r], b, nr) == if r.Joins(b, nr) then done + [r.(len := r.len + 1)]
            else done + [r] + [Run(b, 1, nr)]
  {
    assert (done + [r])[..|done|] == done;
  }

  /** The next block continues the run at hand ... */
  lemma JoinRun(seen: seq<nat>, done: seq<Run>, first: nat, last: nat, firstP: nat, lastP: nat)
    requires firstP != 0 && Pending(seen, done, first, last, firstP, lastP) && last + 1 == |seen|
    ensures Pending(seen + [lastP + 1], done, first, |seen|, firstP, lastP + 1)
  {
    RunsSnoc(seen, lastP + 1);
    ExtendLast(done, Run(first, last - first + 1, firstP), |seen|, lastP + 1);
  }

  /** ... or starts a new one. */
  lemma StartRun(seen: seq<nat>, done: seq<Run>, first: nat, last: nat, firstP: nat, lastP: nat, nr: nat)
    requires nr != 0 && Pending(seen, done, first, last, firstP, lastP)
    requires !(firstP != 0 && lastP + 1 == nr && last + 1 == |seen|)
    ensures Pending(seen + [nr], RunsOf(seen), |seen|, |seen|, nr, nr)
  {
    RunsSnoc(seen, nr);
    if firstP != 0 {
      ExtendLast(done, Run(first, last - first + 1, firstP), |seen|, nr);
    }
  }

  lemma NextFits(seen: seq<nat>, done: seq<Run>, r: Run, flat: seq<Ext>)
    requires RunsOf(seen) == done + [r] && Narrow(seen) && |seen| <= MAX_BLOCKS && !AnyZero(done)
             && SameMap(Encoded(done), flat)
    ensures Encode(r).Len() == 0 <==> r.len % 0x1_0000 == 0
    ensures Encode(r).Len() != 0 ==> Encode(r).Valid() && Free(flat, Encode(r))
  {
    LastRun(seen, done, r);
    EncodeOk(r);
    FreeBehind(done, Encode(r), flat);
  }

  lemma LastRun(seen: seq<nat>, done: seq<Run>, r: Run)
    requires RunsOf(seen) == done + [r] && Narrow(seen) && |seen| <= MAX_BLOCKS && !AnyZero(done)
    ensures 0 < r.len && r.End() <= MAX_BLOCKS && LowRun(r) && Ordered(Encoded(done), 0, r.first)
  {
    var rs := RunsOf(seen);
    RunsFine(seen);
    RunsLow(seen);
    assert RunOk(rs, |done|, |seen|) && rs[|done|] == r && LowRun(rs[|done|]);
    PrefixOrdered(rs, done, r, |seen|);
  }

  lemma EncodeOk(r: Run)
    requires 0 < r.len && r.End() <= MAX_BLOCKS && LowRun(r)
    ensures Encode(r).block == r.first && (Encode(r).Len() == 0 <==> r.len % 0x1_0000 == 0)
    ensures Encode(r).Len() != 0 ==> Encode(r).Valid()
  {
  }

  lemma FreeBehind(done: seq<Run>, e: Ext, flat: seq<Ext>)
    requires Ordered(Encoded(done), 0, e.block) && SameMap(Encoded(done), flat)
    ensures Free(flat, e)
  {
    forall b: int | e.Covers(b)
      ensures Map(flat, b).None?
    {
      MapWithin(Encoded(done), 0, e.block, b);
    }
  }

  lemma PrefixOrdered(rs: seq<Run>, done: seq<Run>, r: Run, hi: nat)
    requires rs == done + [r] && RunsOk(rs, hi) && LowRuns(rs) && !AnyZero(done) && hi <= MAX_BLOCKS
    ensures Ordered(Encoded(done), 0, r.first)
  {
    forall i | 0 <= i < |done|
      ensures RunOk(done, i, r.first) && LowRun(done[i])
    {
      assert RunOk(rs, i, hi) && rs[i] == done[i] && LowRun(rs[i]);
    }
    assert RunOk(rs, |done|, hi);
    EncodedOrdered(done, r.first);
  }

  lemma NextStored(done: seq<Run>, r: Run, flat: seq<Ext>, flat': seq<Ext>)
    requires !AnyZero(done) && r.len % 0x1_0000 != 0 && SameMap(Encoded(done), flat) && MapPlus(flat, flat', Encode(r))
    requires Free(flat, Encode(r))
    ensures !AnyZero(done + [r]) && SameMap(Encoded(done + [r]), flat')
  {
    EncodedSnoc(done, r);
    assert [Encode(r)][1..] == [];
    forall b: int
      ensures Map(flat', b) == Map(Encoded(done + [r]), b)
    {
      MapConcat(Encoded(done), [Encode(r)], b);
    }
    assert forall i | 0 <= i < |done| :: (done + [r])[i] == done[i];
  }

  lemma ZeroRun(seen: seq<nat>, done: seq<Run>, r: Run)
    requires RunsOf(seen) == done + [r] && r.len % 0x1_0000 == 0
    ensures AnyLong(RunsOf(seen))
  {
    RunsFine(seen);
    assert RunsOf(seen)[|done|].len % 0x1_0000 == 0;
    ZeroIsLong(RunsOf(seen), |seen|);
  }

  /** After a faithful migration every path through the old pointer blocks and the new extents agree. */
  lemma MigratedMap(data: seq<Ind.Branch>, p: nat, flat: seq<Ext>, path: seq<nat>)
    requires Ind.InodeOk(data, p) && SameFile(SlotLeaves(data, p, TIND + 1), flat) && IsOffsets(p, path)
    ensures Map(flat, BlockOf(p, path)) == if Ind.NrAt(data, path) == 0 then None
            else Some(Cell(Ind.NrAt(data, path), false))
  {
    SlotLeavesAt(data, p, TIND + 1, path);
    assert Map(flat, BlockOf(p, path)) == Expect(SlotLeaves(data, p, TIND + 1), BlockOf(p, path));
  }

  lemma RowAndHole(n: nat, nr: nat, m: nat)
    requires 0 < nr && 0 < n
    ensures RunsOf(Row(n, nr) + Zeros(m)) == [Run(0, n, nr)]
    ensures LongRun(Row(n, nr) + Zeros(m)) <==> n > INIT_MAX_LEN
  {
    RowRuns(n, nr);
    RunsZeros(Row(n, nr), m);
    LongExactly(Row(n, nr) + Zeros(m));
    assert [Run(0, n, nr)][0].len == n;
  }

  /** For every length there is a file that is one run of it, which is too long from 32769 blocks on. */
  lemma LongFile(p: nat, n: nat, nr: nat) returns (data: seq<Ind.Branch>)
    requires 0 < nr && 0 < n <= Limit(p)
    ensures Ind.InodeOk(data, p) && RunsOf(SlotLeaves(data, p, TIND + 1)) == [Run(0, n, nr)]
    ensures LongRun(SlotLeaves(data, p, TIND + 1)) <==> n > INIT_MAX_LEN
  {
    var m := Limit(p) - n;
    RowAndHole(n, nr, m);
    data := AnyFile(Row(n, nr) + Zeros(m), p);
  }

  /** 32769 blocks in a row: the one extent stored for the file is unwritten and one block long. */
  lemma LongExample(p: nat) returns (data: seq<Ind.Branch>)
    requires 0x8001 <= Limit(p)
    ensures Ind.InodeOk(data, p) && RunsOf(SlotLeaves(data, p, TIND + 1)) == [Run(0, 0x8001, 100)]
    ensures Encoded([Run(0, 0x8001, 100)]) == [Ext(0, RawLen(1, true), 100)]
  {
    data := LongFile(p, 0x8001, 100);
  }
}
