/**
 Removing a range of blocks from the extent tree (mqfs/extents.c, ext4_ext_remove_space and ext4_ext_rm_leaf).

 The walk goes from right to left.  The source keeps its own stack of levels; here it is the call stack.
 */
module ExtentRemove {
  import opened Common
  import opened ExtentLists
  import opened ExtentNodes
  import opened ExtentTree
  import opened ExtentEdits

  // ----- what is kept and what is freed -----

  predicate Outside(e: Ext, start: nat, end: nat) { e.End() <= start || end < e.block }

  /** What is left of one extent that does not reach beyond `end`, and what is freed of it. */
  function KeptOf(e: Ext, start: nat, end: nat): seq<Ext> {
    if Outside(e, start, end) then [e] else if e.block < start then [Head(e, start, e.Unwritten())] else []
  }

  function FreedOf(e: Ext, start: nat, end: nat): seq<Ext> {
    if Outside(e, start, end) then []
    else if e.block < start then [Tail(e, start, e.Unwritten())]
    else [e]
  }

  ghost function Kept(es: seq<Ext>, start: nat, end: nat): seq<Ext> {
    if es == [] then [] else KeptOf(es[0], start, end) + Kept(es[1..], start, end)
  }

  ghost function Freed(es: seq<Ext>, start: nat, end: nat): seq<Ext> {
    if es == [] then [] else FreedOf(es[0], start, end) + Freed(es[1..], start, end)
  }

  /** No extent straddles the end of the range. */
  ghost predicate CutAt(es: seq<Ext>, end: nat) {
    forall i | 0 <= i < |es| :: es[i].block <= end ==> es[i].End() <= end + 1
  }

  /** Every extent ends inside the range or before it. */
  ghost predicate Below(es: seq<Ext>, end: nat) {
    forall i | 0 <= i < |es| :: es[i].End() <= end + 1
  }

  lemma {:induction false} Homomorphic(x: seq<Ext>, y: seq<Ext>, start: nat, end: nat)
    ensures Kept(x + y, start, end) == Kept(x, start, end) + Kept(y, start, end)
    ensures Freed(x + y, start, end) == Freed(x, start, end) + Freed(y, start, end)
  {
    if x == [] {
      assert x + y == y;
    } else {
      assert (x + y)[1..] == x[1..] + y;
      Homomorphic(x[1..], y, start, end);
    }
  }

  /** Nothing happens left of the range ... */
  lemma {:induction false} LowStays(es: seq<Ext>, lo: int, start: nat, end: nat)
    requires Ordered(es, lo, start)
    ensures Kept(es, start, end) == es && Freed(es, start, end) == []
  {
    if es != [] {
      MapWithin(es[1..], es[0].End(), start, 0);
      LowStays(es[1..], es[0].End(), start, end);
    }
  }

  /** ... or right of it. */
  lemma {:induction false} HighStays(es: seq<Ext>, lo: int, hi: int, start: nat, end: nat)
    requires Ordered(es, lo, hi) && (es == [] || end < es[0].block)
    ensures Kept(es, start, end) == es && Freed(es, start, end) == []
  {
    if es != [] {
      assert es[1..] != [] ==> end < es[1..][0].block;
      HighStays(es[1..], es[0].End(), hi, start, end);
    }
  }

  /** Inside the range nothing stays. */
  lemma {:induction false} InsideGoes(es: seq<Ext>, lo: int, hi: int, start: nat, end: nat)
    requires Ordered(es, lo, hi) && start <= lo && hi <= end + 1
    ensures Kept(es, start, end) == []
  {
    if es != [] {
      MapWithin(es[1..], es[0].End(), hi, 0);
      InsideGoes(es[1..], es[0].End(), hi, start, end);
    }
  }

  /** The kept extents map what was mapped outside the range, the freed ones what was mapped inside it. */
  lemma {:induction false} KeptAndFreed(es: seq<Ext>, lo: int, hi: int, start: nat, end: nat)
    requires Ordered(es, lo, hi) && CutAt(es, end) && start <= end
    ensures Ordered(Kept(es, start, end), lo, hi) && Ordered(Freed(es, start, end), lo, hi)
    ensures forall b: int :: Map(Kept(es, start, end), b) == if start <= b <= end then None else Map(es, b)
    ensures forall b: int :: Map(Freed(es, start, end), b) == if start <= b <= end then Map(es, b) else None
  {
    if es != [] {
      var e, rest := es[0], es[1..];
      KeptAndFreed(rest, e.End(), hi, start, end);
      MapWithin(rest, e.End(), hi, 0);
      OneKeptAndFreed(e, start, end);
      Loosen(KeptOf(e, start, end), lo, e.block, e.End(), e.End());
      Loosen(FreedOf(e, start, end), lo, e.block, e.End(), e.End());
      OrderedConcat(KeptOf(e, start, end), Kept(rest, start, end), lo, e.End(), hi);
      OrderedConcat(FreedOf(e, start, end), Freed(rest, start, end), lo, e.End(), hi);
      forall b: int
        ensures Map(Kept(es, start, end), b) == if start <= b <= end then None else Map(es, b)
        ensures Map(Freed(es, start, end), b) == if start <= b <= end then Map(es, b) else None
      {
        MapConcat(KeptOf(e, start, end), Kept(rest, start, end), b);
        MapConcat(FreedOf(e, start, end), Freed(rest, start, end), b);
        MapWithin(rest, e.End(), hi, b);
      }
    }
  }

  lemma OneKeptAndFreed(e: Ext, start: nat, end: nat)
    requires e.Valid() && (e.block <= end ==> e.End() <= end + 1) && start <= end
    ensures Ordered(KeptOf(e, start, end), e.block, e.End()) && Ordered(FreedOf(e, start, end), e.block, e.End())
    ensures forall b: int :: Map(KeptOf(e, start, end), b) ==
                             if start <= b <= end || !e.Covers(b) then None else Some(e.At(b))
    ensures forall b: int :: Map(FreedOf(e, start, end), b) ==
                             if start <= b <= end && e.Covers(b) then Some(e.At(b)) else None
  {
    if Outside(e, start, end) || start <= e.block {
      Single(e, e.block, e.End());
    } else {
      HeadOk(e, start, e.Unwritten());
      TailOk(e, start, e.Unwritten());
      Single(Head(e, start, e.Unwritten()), e.block, e.End());
      Single(Tail(e, start, e.Unwritten()), e.block, e.End());
    }
  }

  // ----- a leaf -----

  /** ext4_ext_rm_leaf, starting from entry `pos`.  The error for an extent that straddles the end of the range does
      not arise, because the caller has cut that extent. */
  method RmLeaf(exts: seq<Ext>, pos: nat, start: nat, end: nat) returns (cur: seq<Ext>, freed: seq<Ext>)
    requires Ordered(exts, 0, MAX_BLOCKS) && CutAt(exts, end) && start <= end < MAX_BLOCKS
    requires pos < |exts| && (pos + 1 < |exts| ==> end < exts[pos + 1].block)
    ensures cur == Kept(exts, start, end) && freed == Freed(exts, start, end)
  {
    cur, freed := exts, [];
    var n: nat := pos + 1;
    NothingDone(exts, n, start, end);
    while n > 0 && exts[n - 1].End() > start
      invariant Reached(exts, n, cur, freed, start, end)
      decreases n
    {
      cur, freed := RmStep(cur, freed, exts, n - 1, start, end);
      n := n - 1;
    }
    AllDone(exts, n, cur, freed, start, end);
  }

  /** The leaf when the entries from `n` on have been dealt with. */
  ghost predicate Reached(exts: seq<Ext>, n: nat, cur: seq<Ext>, freed: seq<Ext>, start: nat, end: nat) {
    n <= |exts| && cur == Done(exts, n, start, end) && freed == Freed(exts[n..], start, end)
  }

  method RmStep(cur: seq<Ext>, freed: seq<Ext>, ghost exts: seq<Ext>, i: nat, start: nat, end: nat)
    returns (cur': seq<Ext>, freed': seq<Ext>)
    requires i < |exts| && Reached(exts, i + 1, cur, freed, start, end)
    requires Ordered(exts, 0, MAX_BLOCKS) && start < exts[i].End()
    ensures Reached(exts, i, cur', freed', start, end)
  {
    LeafStep(exts, i, start, end);
    if cur[i].block <= end {
      if end == MAX_BLOCKS - 1 {
        LastLeft(exts, i, start, end);
      }
      cur', freed' := RmExtent(cur, i, start, end, freed, exts[..i], exts[i], Kept(exts[i + 1..], start, end));
    } else {
      cur', freed' := cur, freed;
    }
  }

  ghost function Done(exts: seq<Ext>, i: nat, start: nat, end: nat): seq<Ext>
    requires i <= |exts|
  {
    exts[..i] + Kept(exts[i..], start, end)
  }

  lemma NothingDone(exts: seq<Ext>, i: nat, start: nat, end: nat)
    requires Ordered(exts, 0, MAX_BLOCKS) && i <= |exts| && (i < |exts| ==> end < exts[i].block)
    ensures Reached(exts, i, exts, [], start, end)
  {
    Cut(exts, i);
    HighStays(exts[i..], LastEnd(exts[..i], 0), MAX_BLOCKS, start, end);
  }

  /** Dealing with entry `i`. */
  lemma LeafStep(exts: seq<Ext>, i: nat, start: nat, end: nat)
    requires i < |exts|
    ensures var e, z, d := exts[i], Kept(exts[i + 1..], start, end), Done(exts, i + 1, start, end);
            && d == exts[..i] + [e] + z && d[i] == e
            && Done(exts, i, start, end) == exts[..i] + KeptOf(e, start, end) + z
            && Freed(exts[i..], start, end) == FreedOf(e, start, end) + Freed(exts[i + 1..], start, end)
  {
    assert exts[i..][1..] == exts[i + 1..];
    assert exts[..i + 1] == exts[..i] + [exts[i]];
  }

  /** A truncation has removed everything right of an extent that it reaches. */
  lemma LastLeft(exts: seq<Ext>, i: nat, start: nat, end: nat)
    requires Ordered(exts, 0, MAX_BLOCKS) && i < |exts| && end == MAX_BLOCKS - 1 && start < exts[i].End()
    ensures Kept(exts[i + 1..], start, end) == []
  {
    Around(exts, i, 0, MAX_BLOCKS);
    InsideGoes(exts[i + 1..], exts[i].End(), MAX_BLOCKS, start, end);
  }

  lemma AllDone(exts: seq<Ext>, i: nat, cur: seq<Ext>, freed: seq<Ext>, start: nat, end: nat)
    requires Ordered(exts, 0, MAX_BLOCKS) && i <= |exts| && (i > 0 ==> exts[i - 1].End() <= start)
    requires Reached(exts, i, cur, freed, start, end)
    ensures cur == Kept(exts, start, end) && freed == Freed(exts, start, end)
  {
    Cut(exts, i);
    Homomorphic(exts[..i], exts[i..], start, end);
    Loosen(exts[..i], 0, 0, LastEnd(exts[..i], 0), start);
    LowStays(exts[..i], 0, start, end);
  }

  /** One extent of the range: removed, or cut back to what lies before the range. */
  method RmExtent(cur: seq<Ext>, i: nat, start: nat, end: nat, freed: seq<Ext>,
                  ghost x: seq<Ext>, ghost e: Ext, ghost z: seq<Ext>)
    returns (cur': seq<Ext>, freed': seq<Ext>)
    requires i == |x| && cur == x + [e] + z && !Outside(e, start, end)
    requires end == MAX_BLOCKS - 1 && start <= e.block ==> z == []
    ensures cur' == x + KeptOf(e, start, end) + z && freed' == FreedOf(e, start, end) + freed
  {
    var a := if cur[i].block > start then cur[i].block else start;
    if a == cur[i].block {
      freed' := [cur[i]] + freed;
      cur' := if end != MAX_BLOCKS - 1 then cur[..i] + cur[i + 1..] else cur[..|cur| - 1];
    } else {
      freed' := [Tail(cur[i], a, cur[i].Unwritten())] + freed;
      cur' := cur[i := Head(cur[i], a, cur[i].Unwritten())];
    }
  }

  lemma Cut(exts: seq<Ext>, i: nat)
    requires Ordered(exts, 0, MAX_BLOCKS) && i <= |exts|
    ensures exts == exts[..i] + exts[i..]
    ensures Ordered(exts[..i], 0, LastEnd(exts[..i], 0)) && Ordered(exts[i..], LastEnd(exts[..i], 0), MAX_BLOCKS)
  {
    assert exts == exts[..i] + exts[i..];
    OrderedSplit(exts[..i], exts[i..], 0, MAX_BLOCKS);
  }

  // ----- index nodes -----

  /** A node after the removal below it, the blocks freed and the tree blocks freed; it may be empty. */
  ghost predicate Removed(n: Node, n': Node, freed: seq<Ext>, gone: multiset<nat>, d: nat, max: nat, cap: nat,
                          start: nat, end: nat)
  {
    && Flat(n') == Kept(Flat(n), start, end) && freed == Freed(Flat(n), start, end)
    && Addrs(n) == Addrs(n') + gone
    && (Shaped(n', d, max, cap) || n' == if d == 0 then Leaf([]) else Index([]))
  }

  method RemoveLeaf(n: Node, pos: nat, ghost max: nat, ghost cap: nat, start: nat, end: nat)
    returns (n': Node, freed: seq<Ext>)
    requires Shaped(n, 0, max, cap) && Ordered(n.exts, 0, MAX_BLOCKS) && CutAt(n.exts, end) && start <= end < MAX_BLOCKS
    requires pos < |n.exts| && (pos + 1 < |n.exts| ==> end < n.exts[pos + 1].block)
    ensures Removed(n, n', freed, multiset{}, 0, max, cap, start, end)
  {
    var cur;
    cur, freed := RmLeaf(n.exts, pos, start, end);
    n' := Leaf(cur);
    KeptShorter(n.exts, start, end);
  }

  /** A node whose extents all end inside the range or before it, visited for the first time. */
  method RemoveNode(n: Node, d: nat, max: nat, cap: nat, start: nat, end: nat)
    returns (n': Node, freed: seq<Ext>, ghost gone: multiset<nat>)
    requires Shaped(n, d, max, cap) && Ordered(Flat(n), 0, MAX_BLOCKS) && Below(Flat(n), end)
             && start <= end < MAX_BLOCKS
    ensures Removed(n, n', freed, gone, d, max, cap, start, end)
    decreases d, 2
  {
    gone := multiset{};
    if n.Leaf? {
      n', freed := RemoveLeaf(n, |n.exts| - 1, max, cap, start, end);
    } else {
      var cur;
      assert n.idxs[..|n.idxs|] == n.idxs && n.idxs[|n.idxs|..] == [];
      cur, freed, gone := RemoveLeft(n.idxs, |n.idxs|, |n.idxs| + 1, d, cap, start, end);
      n' := Index(cur);
    }
  }

  lemma {:induction false} KeptShorter(es: seq<Ext>, start: nat, end: nat)
    ensures |Kept(es, start, end)| <= |es|
  {
    if es != [] {
      KeptShorter(es[1..], start, end);
    }
  }

  /** The entries before `k`, from right to left; the walk goes on as long as the number of entries differs from the
      number noted when it last went down, that is, as long as the entry visited last has been removed. */
  method RemoveLeft(idxs: seq<Idx>, k: nat, noted: nat, d: nat, cap: nat, start: nat, end: nat)
    returns (cur: seq<Idx>, freed: seq<Ext>, ghost gone: multiset<nat>)
    requires k <= |idxs| && noted != |idxs| && 0 < d && EntriesOk(idxs, d, cap) && start <= end < MAX_BLOCKS
    requires Ordered(FlatAll(idxs[..k]), 0, MAX_BLOCKS) && Below(FlatAll(idxs[..k]), end)
    ensures EntriesOk(cur, d, cap) && |cur| <= |idxs|
    ensures FlatAll(cur) == Kept(FlatAll(idxs[..k]), start, end) + FlatAll(idxs[k..])
    ensures freed == Freed(FlatAll(idxs[..k]), start, end)
    ensures AddrsAll(idxs) == AddrsAll(cur) + gone
    decreases d, 1
  {
    cur, freed, gone := idxs, [], multiset{};
    var i: nat, last := k, noted;
    ghost var visited, rest: seq<Ext> := [], FlatAll(idxs[k..]);
    while i > 0 && |cur| != last
      invariant LeftInv(idxs, i, k, cur, freed, gone, visited, rest, d, cap, start, end)
      invariant |cur| == last ==> Ordered(FlatAll(idxs[..i]), 0, start)
      decreases i
    {
      i := i - 1;
      last := |cur|;
      cur, freed, gone, visited := VisitEntry(idxs, i, k, cur, freed, gone, visited, rest, d, cap, start, end);
    }
    LeftEnd(idxs, i, k, cur, freed, gone, visited, rest, d, cap, start, end);
  }

  ghost predicate LeftInv(idxs: seq<Idx>, i: nat, k: nat, cur: seq<Idx>, freed: seq<Ext>, gone: multiset<nat>,
                          visited: seq<Ext>, rest: seq<Ext>, d: nat, cap: nat, start: nat, end: nat)
    requires 0 < d
  {
    && i <= k <= |idxs|
    && LeftDone(idxs, i, cur, freed, visited, rest, d, cap, start, end)
    && FlatAll(idxs[..k]) == FlatAll(idxs[..i]) + visited
    && AddrsAll(idxs) == AddrsAll(cur) + gone
  }

  /** The entries from `i` on have been visited; they held `visited`, and `rest` lies right of them. */
  ghost predicate LeftDone(idxs: seq<Idx>, i: nat, cur: seq<Idx>, freed: seq<Ext>, visited: seq<Ext>, rest: seq<Ext>,
                           d: nat, cap: nat, start: nat, end: nat)
    requires 0 < d
  {
    && i <= |idxs| && i <= |cur| <= |idxs| && cur[..i] == idxs[..i] && EntriesOk(cur, d, cap)
    && FlatAll(cur[i..]) == Kept(visited, start, end) + rest
    && freed == Freed(visited, start, end)
  }

  ghost predicate EntriesOk(idxs: seq<Idx>, d: nat, cap: nat)
    requires 0 < d
  {
    forall i | 0 <= i < |idxs| :: EntryOk(idxs[i], d - 1, cap)
  }

  lemma Prefix(es: seq<Ext>, x: seq<Ext>, y: seq<Ext>, end: nat)
    requires es == x + y && Ordered(es, 0, MAX_BLOCKS) && Below(es, end)
    ensures Ordered(x, 0, MAX_BLOCKS) && Below(x, end)
  {
    OrderedSplit(x, y, 0, MAX_BLOCKS);
    Loosen(x, 0, 0, LastEnd(x, 0), MAX_BLOCKS);
    forall j | 0 <= j < |x|
      ensures x[j].End() <= end + 1
    {
      assert es[j] == x[j];
    }
  }

  lemma LastPart(idxs: seq<Idx>, i: nat, z: seq<Ext>)
    requires i < |idxs|
    ensures FlatAll(idxs[..i + 1]) == FlatAll(idxs[..i]) + Flat(idxs[i].child)
    ensures FlatAll(idxs[..i + 1]) + z == FlatAll(idxs[..i]) + (Flat(idxs[i].child) + z)
  {
    assert idxs[..i + 1] == idxs[..i] + [idxs[i]];
    FlatAllConcat(idxs[..i], [idxs[i]]);
    assert [idxs[i]][1..] == [];
    assert FlatAll([idxs[i]]) == Flat(idxs[i].child) + FlatAll([]);
  }

  /** Going down into entry `i` and, if nothing is left of it, removing it. */
  method VisitEntry(ghost idxs: seq<Idx>, i: nat, ghost k: nat, cur: seq<Idx>, freed: seq<Ext>,
                    ghost gone: multiset<nat>, ghost visited: seq<Ext>, ghost rest: seq<Ext>, d: nat, cap: nat,
                    start: nat, end: nat)
    returns (cur': seq<Idx>, freed': seq<Ext>, ghost gone': multiset<nat>, ghost visited': seq<Ext>)
    requires 0 < d && i < |idxs| && start <= end < MAX_BLOCKS && EntriesOk(idxs, d, cap)
    requires LeftInv(idxs, i + 1, k, cur, freed, gone, visited, rest, d, cap, start, end)
    requires Ordered(FlatAll(idxs[..k]), 0, MAX_BLOCKS) && Below(FlatAll(idxs[..k]), end)
    ensures LeftInv(idxs, i, k, cur', freed', gone', visited', rest, d, cap, start, end)
    ensures |cur'| == |cur| ==> Ordered(FlatAll(idxs[..i]), 0, start)
    decreases d, 0
  {
    Prefix(FlatAll(idxs[..k]), FlatAll(idxs[..i + 1]), visited, end);
    ChildFits(idxs, i, d, cap, end);
    assert cur[i] == cur[..i + 1][i] == idxs[i];
    var child, more;
    ghost var below;
    child, more, below := RemoveNode(cur[i].child, d - 1, cap, cap, start, end);
    freed', visited' := more + freed, Flat(idxs[i].child) + visited;
    if Entries(child) == 0 {
      cur' := cur[..i] + cur[i + 1..];
      gone' := gone + (below + multiset{cur[i].addr});
      Dropped(idxs, i, k, cur, freed, gone, visited, rest, child, more, below, d, cap, start, end);
    } else {
      cur' := cur[i := Idx(First(child), cur[i].addr, child)];
      gone' := gone + below;
      Replaced(idxs, i, k, cur, freed, gone, visited, rest, child, more, below, d, cap, start, end);
    }
  }

  lemma Dropped(idxs: seq<Idx>, i: nat, k: nat, cur: seq<Idx>, freed: seq<Ext>, gone: multiset<nat>, visited: seq<Ext>,
                rest: seq<Ext>, child: Node, more: seq<Ext>, below: multiset<nat>, d: nat, cap: nat, start: nat,
                end: nat)
    requires 0 < d && i < |idxs| && LeftInv(idxs, i + 1, k, cur, freed, gone, visited, rest, d, cap, start, end)
    requires cur[i] == idxs[i]
    requires Removed(idxs[i].child, child, more, below, d - 1, cap, cap, start, end) && Entries(child) == 0
    ensures LeftInv(idxs, i, k, cur[..i] + cur[i + 1..], more + freed, gone + (below + multiset{cur[i].addr}),
                    Flat(idxs[i].child) + visited, rest, d, cap, start, end)
  {
    LastPart(idxs, i, visited);
    LeftDrop(idxs, i, cur, freed, visited, rest, child, more, below, d, cap, start, end);
    LedgerDrop(idxs, i, cur, gone, child, below);
  }

  lemma Replaced(idxs: seq<Idx>, i: nat, k: nat, cur: seq<Idx>, freed: seq<Ext>, gone: multiset<nat>, visited: seq<Ext>,
                 rest: seq<Ext>, child: Node, more: seq<Ext>, below: multiset<nat>, d: nat, cap: nat, start: nat,
                 end: nat)
    requires 0 < d && i < |idxs| && LeftInv(idxs, i + 1, k, cur, freed, gone, visited, rest, d, cap, start, end)
    requires cur[i] == idxs[i] && EntryOk(idxs[i], d - 1, cap)
    requires Removed(idxs[i].child, child, more, below, d - 1, cap, cap, start, end) && Entries(child) > 0
    requires Ordered(FlatAll(idxs[..i + 1]), 0, MAX_BLOCKS) && Below(Flat(idxs[i].child), end)
    ensures LeftInv(idxs, i, k, cur[i := Idx(First(child), cur[i].addr, child)], more + freed, gone + below,
                    Flat(idxs[i].child) + visited, rest, d, cap, start, end)
    ensures Ordered(FlatAll(idxs[..i]), 0, start)
  {
    LastPart(idxs, i, visited);
    LeftPut(idxs, i, cur, freed, visited, rest, child, more, below, d, cap, start, end);
    LedgerPut(idxs, i, cur, gone, child, below);
    Survivor(idxs, i, start, end);
  }

  lemma ChildFits(idxs: seq<Idx>, i: nat, d: nat, cap: nat, end: nat)
    requires i < |idxs| && 0 < d && EntriesOk(idxs, d, cap)
    requires Ordered(FlatAll(idxs[..i + 1]), 0, MAX_BLOCKS) && Below(FlatAll(idxs[..i + 1]), end)
    ensures Shaped(idxs[i].child, d - 1, cap, cap) && Ordered(Flat(idxs[i].child), 0, MAX_BLOCKS)
    ensures Below(Flat(idxs[i].child), end)
  {
    var x, y := FlatAll(idxs[..i]), Flat(idxs[i].child);
    assert EntryOk(idxs[i], d - 1, cap);
    LastPart(idxs, i, []);
    assert x + y == x + y + [];
    SubOrdered(x, y, []);
    forall j | 0 <= j < |y|
      ensures y[j].End() <= end + 1
    {
      assert (x + y)[|x| + j] == y[j];
    }
  }

  /** An entry that is not removed starts before the range, and so lies everything left of it. */
  lemma Survivor(idxs: seq<Idx>, i: nat, start: nat, end: nat)
    requires i < |idxs| && Ordered(FlatAll(idxs[..i + 1]), 0, MAX_BLOCKS) && Below(Flat(idxs[i].child), end)
    requires Kept(Flat(idxs[i].child), start, end) != []
    ensures Ordered(FlatAll(idxs[..i]), 0, start)
  {
    var x, y := FlatAll(idxs[..i]), Flat(idxs[i].child);
    LastPart(idxs, i, []);
    OrderedSplit(x, y, 0, MAX_BLOCKS);
    if start <= LastEnd(x, 0) {
      assert y + [] == y;
      OrderedSplit(y, [], LastEnd(x, 0), MAX_BLOCKS);
      InsideGoes(y, LastEnd(x, 0), LastEnd(y, LastEnd(x, 0)), start, end);
    }
    Loosen(x, 0, 0, LastEnd(x, 0), start);
  }

  lemma KeepMore(y: seq<Ext>, visited: seq<Ext>, rest: seq<Ext>, start: nat, end: nat)
    ensures Kept(y + visited, start, end) + rest == Kept(y, start, end) + (Kept(visited, start, end) + rest)
    ensures Freed(y + visited, start, end) == Freed(y, start, end) + Freed(visited, start, end)
  {
    Homomorphic(y, visited, start, end);
    Associate(Kept(y, start, end), Kept(visited, start, end), rest);
  }

  lemma LeftDrop(idxs: seq<Idx>, i: nat, cur: seq<Idx>, freed: seq<Ext>, visited: seq<Ext>, rest: seq<Ext>, child: Node,
                 more: seq<Ext>, below: multiset<nat>, d: nat, cap: nat, start: nat, end: nat)
    requires 0 < d && i < |idxs| && LeftDone(idxs, i + 1, cur, freed, visited, rest, d, cap, start, end)
    requires Removed(idxs[i].child, child, more, below, d - 1, cap, cap, start, end) && Entries(child) == 0
    ensures LeftDone(idxs, i, cur[..i] + cur[i + 1..], more + freed, Flat(idxs[i].child) + visited, rest, d, cap,
                     start, end)
  {
    assert cur[..i] == cur[..i + 1][..i] == idxs[..i];
    assert Flat(child) == [];
    KeepMore(Flat(idxs[i].child), visited, rest, start, end);
    DropEntry(cur, i, d, cap);
  }

  lemma LeftPut(idxs: seq<Idx>, i: nat, cur: seq<Idx>, freed: seq<Ext>, visited: seq<Ext>, rest: seq<Ext>, child: Node,
                more: seq<Ext>, below: multiset<nat>, d: nat, cap: nat, start: nat, end: nat)
    requires 0 < d && i < |idxs| && LeftDone(idxs, i + 1, cur, freed, visited, rest, d, cap, start, end)
    requires EntryOk(idxs[i], d - 1, cap)
    requires Removed(idxs[i].child, child, more, below, d - 1, cap, cap, start, end) && Entries(child) > 0
    ensures Kept(Flat(idxs[i].child), start, end) != []
    ensures LeftDone(idxs, i, cur[i := Idx(First(child), cur[i].addr, child)], more + freed,
                     Flat(idxs[i].child) + visited, rest, d, cap, start, end)
  {
    assert cur[i] == cur[..i + 1][i] == idxs[i];
    assert cur[..i] == cur[..i + 1][..i] == idxs[..i];
    KeepMore(Flat(idxs[i].child), visited, rest, start, end);
    FlatFirst(child, d - 1, cap, cap);
    PutEntry(cur, i, Idx(First(child), cur[i].addr, child), d, cap);
  }

  lemma LedgerDrop(idxs: seq<Idx>, i: nat, cur: seq<Idx>, gone: multiset<nat>, child: Node, below: multiset<nat>)
    requires i < |cur| && AddrsAll(idxs) == AddrsAll(cur) + gone && Entries(child) == 0
    requires Addrs(cur[i].child) == Addrs(child) + below
    ensures AddrsAll(idxs) == AddrsAll(cur[..i] + cur[i + 1..]) + (gone + (below + multiset{cur[i].addr}))
  {
    AddrsAllAt(cur, i);
    AddrsAllConcat(cur[..i], cur[i + 1..]);
    Ledger(AddrsAll(cur[..i]), multiset{cur[i].addr}, below, AddrsAll(cur[i + 1..]), gone);
  }

  lemma LedgerPut(idxs: seq<Idx>, i: nat, cur: seq<Idx>, gone: multiset<nat>, child: Node, below: multiset<nat>)
    requires i < |cur| && AddrsAll(idxs) == AddrsAll(cur) + gone && Entries(child) > 0
    requires Addrs(cur[i].child) == Addrs(child) + below
    ensures AddrsAll(idxs) == AddrsAll(cur[i := Idx(First(child), cur[i].addr, child)]) + (gone + below)
  {
    var c := cur[i := Idx(First(child), cur[i].addr, child)];
    assert c[..i] == cur[..i] && c[i + 1..] == cur[i + 1..];
    AddrsAllAt(cur, i);
    AddrsAllAt(c, i);
    Ledger2(AddrsAll(cur[..i]), multiset{cur[i].addr}, Addrs(child), below, AddrsAll(cur[i + 1..]), gone);
  }

  lemma Ledger(l: multiset<nat>, a: multiset<nat>, x: multiset<nat>, r: multiset<nat>, g: multiset<nat>)
    ensures l + (a + x) + r + g == l + r + (g + (x + a))
  {
  }

  lemma Ledger2(l: multiset<nat>, a: multiset<nat>, x: multiset<nat>, y: multiset<nat>, r: multiset<nat>,
                g: multiset<nat>)
    ensures l + (a + (x + y)) + r + g == l + (a + x) + r + (g + y)
  {
  }

  lemma DropEntry(cur: seq<Idx>, i: nat, d: nat, cap: nat)
    requires i < |cur| && 0 < d && EntriesOk(cur, d, cap)
    ensures var c := cur[..i] + cur[i + 1..]; c[..i] == cur[..i] && c[i..] == cur[i + 1..] && EntriesOk(c, d, cap)
  {
  }

  lemma PutEntry(cur: seq<Idx>, i: nat, e: Idx, d: nat, cap: nat)
    requires i < |cur| && 0 < d && EntriesOk(cur, d, cap) && EntryOk(e, d - 1, cap)
    ensures var c := cur[i := e];
            c[..i] == cur[..i] && EntriesOk(c, d, cap) && FlatAll(c[i..]) == Flat(e.child) + FlatAll(cur[i + 1..])
  {
    var c := cur[i := e];
    assert c[i..][1..] == cur[i + 1..];
  }

  lemma LeftEnd(idxs: seq<Idx>, i: nat, k: nat, cur: seq<Idx>, freed: seq<Ext>, gone: multiset<nat>,
                visited: seq<Ext>, rest: seq<Ext>, d: nat, cap: nat, start: nat, end: nat)
    requires 0 < d && LeftInv(idxs, i, k, cur, freed, gone, visited, rest, d, cap, start, end)
    requires i == 0 || Ordered(FlatAll(idxs[..i]), 0, start)
    ensures FlatAll(cur) == Kept(FlatAll(idxs[..k]), start, end) + rest
    ensures freed == Freed(FlatAll(idxs[..k]), start, end)
  {
    var x := FlatAll(idxs[..i]);
    if i == 0 {
      assert idxs[..i] == [];
    }
    LowJoins(x, visited, rest, start, end);
    assert cur == cur[..i] + cur[i..];
    FlatAllConcat(cur[..i], cur[i..]);
  }

  lemma LowJoins(x: seq<Ext>, y: seq<Ext>, rest: seq<Ext>, start: nat, end: nat)
    requires x == [] || Ordered(x, 0, start)
    ensures Kept(x + y, start, end) + rest == x + (Kept(y, start, end) + rest)
    ensures Freed(x + y, start, end) == Freed(y, start, end)
  {
    LowKept(x, y, start, end);
    Associate(x, Kept(y, start, end), rest);
  }

  lemma LowKept(x: seq<Ext>, y: seq<Ext>, start: nat, end: nat)
    requires x == [] || Ordered(x, 0, start)
    ensures Kept(x + y, start, end) == x + Kept(y, start, end)
    ensures Freed(x + y, start, end) == Freed(y, start, end)
  {
    Homomorphic(x, y, start, end);
    if x != [] {
      LowStays(x, 0, start, end);
    }
  }

  lemma Associate(x: seq<Ext>, y: seq<Ext>, z: seq<Ext>)
    ensures x + y + z == x + (y + z)
  {
  }

  // ----- along the search path -----

  /** The walk starts at entry `pos` of the leaf found for block `at`, the end of the range or the block after it.  What
      the source notes at the levels of this path is one more than their number of entries, and at the root the block
      the path leads to. */
  method RemovePath(n: Node, d: nat, max: nat, cap: nat, path: seq<nat>, pos: nat, top: bool, start: nat, end: nat,
                    ghost at: nat)
    returns (n': Node, freed: seq<Ext>, ghost gone: multiset<nat>)
    requires Shaped(n, d, max, cap) && Ordered(Flat(n), 0, MAX_BLOCKS) && CutAt(Flat(n), end)
             && start <= end < MAX_BLOCKS
    requires IsPath(n, path) && |path| == d && Routes(n, path, at) && end <= at <= end + 1 && (top ==> max <= ROOT_CAP)
    requires NodeAt(n, path).Leaf? && Placed(NodeAt(n, path).exts, pos, at)
    ensures Removed(n, n', freed, gone, d, max, cap, start, end)
    decreases d
  {
    gone := multiset{};
    if n.Leaf? {
      n', freed := RemoveLeaf(n, pos, max, cap, start, end);
    } else {
      var k := path[0];
      PathChild(n, d, max, cap, k, end, at);
      var child, more, cur;
      ghost var below;
      child, more, below := RemovePath(n.idxs[k].child, d - 1, cap, cap, path[1..], pos, false, start, end, at);
      var noted := if top then n.idxs[k].addr else |n.idxs| + 1;
      cur, freed, gone := FinishPath(n.idxs, k, child, more, below, noted, d, cap, start, end);
      n' := Index(cur);
      IndexRemoved(n, cur, freed, gone, d, max, cap, start, end);
    }
  }

  lemma IndexRemoved(n: Node, cur: seq<Idx>, freed: seq<Ext>, gone: multiset<nat>, d: nat, max: nat, cap: nat,
                     start: nat, end: nat)
    requires n.Index? && 0 < d && EntriesOk(cur, d, cap) && |cur| <= |n.idxs| <= max
    requires AddrsAll(n.idxs) == AddrsAll(cur) + gone
    requires FlatAll(cur) == Kept(FlatAll(n.idxs), start, end) && freed == Freed(FlatAll(n.idxs), start, end)
    ensures Removed(n, Index(cur), freed, gone, d, max, cap, start, end)
  {
  }

  /** The entries of a node around the child on the path. */
  ghost predicate Parted(idxs: seq<Idx>, k: nat, end: nat)
    requires k < |idxs|
  {
    var x, y, z := FlatAll(idxs[..k]), Flat(idxs[k].child), FlatAll(idxs[k + 1..]);
    && FlatAll(idxs) == x + y + z && Ordered(x, 0, MAX_BLOCKS) && Below(x, end)
    && Ordered(z, LastEnd(x + y, 0), MAX_BLOCKS) && (z != [] ==> end < z[0].block)
  }

  /** Back at an index node on the path: the entry is dealt with, then those left of it. */
  method FinishPath(idxs: seq<Idx>, k: nat, child: Node, more: seq<Ext>, ghost below: multiset<nat>, noted: nat,
                    d: nat, cap: nat, start: nat, end: nat)
    returns (cur: seq<Idx>, freed: seq<Ext>, ghost gone: multiset<nat>)
    requires 0 < d && k < |idxs| < noted && EntriesOk(idxs, d, cap) && start <= end < MAX_BLOCKS && Parted(idxs, k, end)
    requires Removed(idxs[k].child, child, more, below, d - 1, cap, cap, start, end)
    ensures EntriesOk(cur, d, cap) && |cur| <= |idxs| && AddrsAll(idxs) == AddrsAll(cur) + gone
    ensures FlatAll(cur) == Kept(FlatAll(idxs), start, end) && freed == Freed(FlatAll(idxs), start, end)
  {
    var left;
    ghost var gone';
    cur, gone := AfterChild(idxs, k, child, more, below, d, cap, start, end);
    cur, left, gone' := RemoveLeft(cur, k, noted, d, cap, start, end);
    freed, gone := left + more, gone' + gone;
    PathDone(FlatAll(idxs[..k]), Flat(idxs[k].child), FlatAll(idxs[k + 1..]), start, end);
  }

  /** Replacing the entry whose child was visited, or removing it. */
  method AfterChild(idxs: seq<Idx>, k: nat, child: Node, ghost more: seq<Ext>, ghost below: multiset<nat>, d: nat,
                    cap: nat, ghost start: nat, ghost end: nat)
    returns (cur: seq<Idx>, ghost gone: multiset<nat>)
    requires 0 < d && k < |idxs| && EntriesOk(idxs, d, cap)
    requires Removed(idxs[k].child, child, more, below, d - 1, cap, cap, start, end)
    ensures k <= |cur| <= |idxs| && cur[..k] == idxs[..k] && EntriesOk(cur, d, cap)
    ensures FlatAll(cur[k..]) == Kept(Flat(idxs[k].child), start, end) + FlatAll(idxs[k + 1..])
    ensures AddrsAll(idxs) == AddrsAll(cur) + gone
  {
    assert AddrsAll(idxs) == AddrsAll(idxs) + multiset{};
    if Entries(child) == 0 {
      cur := idxs[..k] + idxs[k + 1..];
      gone := multiset{} + (below + multiset{idxs[k].addr});
      DropEntry(idxs, k, d, cap);
      LedgerDrop(idxs, k, idxs, multiset{}, child, below);
      assert Kept(Flat(idxs[k].child), start, end) == [];
    } else {
      cur := idxs[k := Idx(First(child), idxs[k].addr, child)];
      gone := multiset{} + below;
      assert EntryOk(idxs[k], d - 1, cap);
      PutEntry(idxs, k, Idx(First(child), idxs[k].addr, child), d, cap);
      LedgerPut(idxs, k, idxs, multiset{}, child, below);
    }
  }

  /** What surrounds the child on the path: everything left of it ends by the end of the range, everything right of it
      starts after it. */
  lemma PathChild(n: Node, d: nat, max: nat, cap: nat, k: nat, end: nat, at: nat)
    requires Shaped(n, d, max, cap) && 0 < d && Ordered(Flat(n), 0, MAX_BLOCKS) && CutAt(Flat(n), end)
    requires k < |n.idxs| && RouteStep(n.idxs, k, at) && end <= at <= end + 1
    ensures EntriesOk(n.idxs, d, cap) && Shaped(n.idxs[k].child, d - 1, cap, cap) && n.idxs[k].addr > ROOT_CAP
    ensures Ordered(Flat(n.idxs[k].child), 0, MAX_BLOCKS) && CutAt(Flat(n.idxs[k].child), end)
    ensures Parted(n.idxs, k, end)
  {
    var x, y, z := FlatAll(n.idxs[..k]), Flat(n.idxs[k].child), FlatAll(n.idxs[k + 1..]);
    assert EntryOk(n.idxs[k], d - 1, cap);
    FlatAllAt(n.idxs, k);
    FlatFirst(n.idxs[k].child, d - 1, cap, cap);
    if k == 0 {
      assert n.idxs[..k] == [];
    }
    if k + 1 < |n.idxs| {
      assert EntryOk(n.idxs[k + 1], d - 1, cap);
      NextFirst(n.idxs, k + 1, d, cap);
    }
    PathParts(x, y, z, end);
  }

  lemma PathParts(x: seq<Ext>, y: seq<Ext>, z: seq<Ext>, end: nat)
    requires Ordered(x + y + z, 0, MAX_BLOCKS) && CutAt(x + y + z, end) && y != [] && (x == [] || y[0].block <= end + 1)
    ensures Ordered(x, 0, MAX_BLOCKS) && Below(x, end) && Ordered(y, 0, MAX_BLOCKS) && CutAt(y, end)
    ensures Ordered(z, LastEnd(x + y, 0), MAX_BLOCKS)
  {
    SubOrdered(x, y, z);
    Split3(x, y, z, 0, MAX_BLOCKS);
    Loosen(x, 0, 0, LastEnd(x, 0), MAX_BLOCKS);
    forall j | 0 <= j < |y|
      ensures y[j].block <= end ==> y[j].End() <= end + 1
    {
      assert (x + y + z)[|x| + j] == y[j];
    }
    forall j | 0 <= j < |x|
      ensures x[j].End() <= end + 1
    {
      Increasing(x, j, |x| - 1);
    }
  }

  lemma PathDone(x: seq<Ext>, y: seq<Ext>, z: seq<Ext>, start: nat, end: nat)
    requires Ordered(z, LastEnd(x + y, 0), MAX_BLOCKS) && (z != [] ==> end < z[0].block)
    ensures Kept(x + y + z, start, end) == Kept(x, start, end) + (Kept(y, start, end) + z)
    ensures Freed(x + y + z, start, end) == Freed(x, start, end) + Freed(y, start, end)
  {
    Homomorphic(x + y, z, start, end);
    Homomorphic(x, y, start, end);
    HighStays(z, LastEnd(x + y, 0), MAX_BLOCKS, start, end);
    Associate(Kept(x, start, end), Kept(y, start, end), z);
  }

  // ----- the whole tree -----

  /** The freed extents map what was mapped in the range, each block once, and nothing else. */
  ghost predicate FreesExactly(es: seq<Ext>, freed: seq<Ext>, start: nat, end: nat) {
    Ordered(freed, 0, MAX_BLOCKS) && forall b: int :: Map(freed, b) == if start <= b <= end then Map(es, b) else None
  }

  /** ext4_ext_remove_space of the blocks from `start` to `end`. */
  method RemoveSpace(t: ExtentTree, start: nat, end: nat, busy: bool) returns (freed: seq<Ext>)
    requires t.Valid() && start <= end < MAX_BLOCKS
    modifies t
    ensures t.LedgerGrows()
    ensures t.Valid() && MapMinus(old(Flat(t.root)), Flat(t.root), start, end + 1)
    ensures FreesExactly(old(Flat(t.root)), freed, start, end)
  {
    ghost var flat := Flat(t.root);
    freed := [];
    if Entries(t.root) > 0 {
      var n;
      ghost var gone;
      if end < MAX_BLOCKS - 1 {
        var path, pos;
        ghost var at;
        path, pos, at := CutEnd(t, end, busy);
        n, freed, gone := RemovePath(t.root, t.depth, ROOT_CAP, t.cap, path, pos, true, start, end, at);
      } else {
        AllBelow(Flat(t.root));
        n, freed, gone := RemoveNode(t.root, t.depth, ROOT_CAP, t.cap, start, end);
      }
      Effect(flat, Flat(t.root), start, end);
      SetRoot(t, n, gone);
    }
  }

  /** The new root; without entries it is an empty leaf again. */
  method SetRoot(t: ExtentTree, n: Node, ghost gone: multiset<nat>)
    requires t.Valid() && Addrs(t.root) == Addrs(n) + gone && Ordered(Flat(n), 0, MAX_BLOCKS)
    requires Shaped(n, t.depth, ROOT_CAP, t.cap) || Entries(n) == 0
    modifies t
    ensures t.LedgerGrows()
    ensures t.Valid() && Flat(t.root) == Flat(n)
  {
    t.gone := gone + t.gone;
    if Entries(n) == 0 {
      assert Flat(n) == [] && Addrs(n) == multiset{};
      t.root, t.depth := Leaf([]), 0;
    } else {
      t.root := n;
    }
  }

  lemma Effect(flat: seq<Ext>, es: seq<Ext>, start: nat, end: nat)
    requires SameMap(flat, es) && Ordered(es, 0, MAX_BLOCKS) && CutAt(es, end) && start <= end
    ensures Ordered(Kept(es, start, end), 0, MAX_BLOCKS) && MapMinus(flat, Kept(es, start, end), start, end + 1)
    ensures FreesExactly(flat, Freed(es, start, end), start, end)
  {
    KeptAndFreed(es, 0, MAX_BLOCKS, start, end);
  }

  /** Cutting the extent that straddles the end of a hole, and the path from which the walk starts. */
  method CutEnd(t: ExtentTree, end: nat, busy: bool) returns (path: seq<nat>, pos: nat, ghost at: nat)
    requires t.Valid() && end < MAX_BLOCKS && Entries(t.root) > 0
    modifies t
    ensures t.LedgerGrows()
    ensures t.Valid() && Entries(t.root) > 0 && SameMap(old(Flat(t.root)), Flat(t.root)) && CutAt(Flat(t.root), end)
    ensures IsPath(t.root, path) && |path| == t.depth && Routes(t.root, path, at) && end <= at <= end + 1
    ensures NodeAt(t.root, path).Leaf? && Placed(NodeAt(t.root, path).exts, pos, at)
  {
    ghost var flat := Flat(t.root);
    path, pos := FindExtent(t.root, t.depth, t.cap, end);
    FoundFlat(t.root, path, pos, end, t.depth, t.cap);
    ghost var p := |Before(t.root, path)| + pos;
    var ex := NodeAt(t.root, path).exts[pos];
    if ex.block <= end < ex.End() - 1 {
      SplitAtEnd(t, ex, end, busy, p);
      path, pos := FindExtent(t.root, t.depth, t.cap, end + 1);
      at := end + 1;
    } else {
      at := end;
      CutByPlace(flat, p, end);
    }
  }

  /** ext4_force_split_extent_at behind the last block to remove. */
  method SplitAtEnd(t: ExtentTree, ex: Ext, end: nat, busy: bool, ghost p: nat)
    requires t.Valid() && p < |Flat(t.root)| && Flat(t.root)[p] == ex && ex.block <= end < ex.End() - 1
    modifies t
    ensures t.LedgerGrows()
    ensures t.Valid() && Entries(t.root) > 0 && SameMap(old(Flat(t.root)), Flat(t.root)) && CutAt(Flat(t.root), end)
  {
    ghost var flat := Flat(t.root);
    MapAround(flat, p, 0, MAX_BLOCKS, end + 1);
    ghost var q := SplitExtentAt(t, end + 1, ex.Unwritten(), ex.Unwritten(), true, busy);
    CoverUnique(flat, p, q, end + 1);
    assert Flat(t.root)[p + 1] == Tail(ex, end + 1, ex.Unwritten());
    CutByNext(Flat(t.root), p + 1, end);
    forall b: int
      ensures Map(Flat(t.root), b) == Map(flat, b)
    {
      MapAround(flat, p, 0, MAX_BLOCKS, b);
    }
  }

  lemma CutByNext(es: seq<Ext>, q: nat, end: nat)
    requires Ordered(es, 0, MAX_BLOCKS) && q < |es| && es[q].block == end + 1
    ensures CutAt(es, end)
  {
    forall i | 0 <= i < |es|
      ensures es[i].block <= end ==> es[i].End() <= end + 1
    {
      if i < q {
        Increasing(es, i, q);
      } else {
        Increasing(es, q, i);
      }
    }
  }

  lemma CutByPlace(es: seq<Ext>, p: nat, end: nat)
    requires Ordered(es, 0, MAX_BLOCKS) && Locates(es, p, end) && !(es[p].block <= end < es[p].End() - 1)
    ensures CutAt(es, end)
  {
    forall i | 0 <= i < |es|
      ensures es[i].block <= end ==> es[i].End() <= end + 1
    {
      if i < p {
        Increasing(es, i, p);
      } else if p < i {
        Increasing(es, p + 1, i);
      }
    }
  }

  lemma AllBelow(es: seq<Ext>)
    requires Ordered(es, 0, MAX_BLOCKS)
    ensures Below(es, MAX_BLOCKS - 1) && CutAt(es, MAX_BLOCKS - 1)
  {
    forall i | 0 <= i < |es|
      ensures es[i].End() <= MAX_BLOCKS
    {
      Around(es, i, 0, MAX_BLOCKS);
    }
  }
}
