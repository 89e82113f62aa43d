/**
 Truncating a file mapped by pointer blocks (mqfs/indirect.c, ext4_find_shared, ext4_free_data, ext4_free_branches,
 ext4_ind_truncate).

 Changing a pointer block in place is changing the branch it is the top of.
 */
module IndirectTruncate {
  import opened Arithmetic
  import opened IndirectPath
  import opened IndirectTree

  // ----- what truncation means -----

  ghost predicate AllNull(bs: seq<Branch>) {
    forall i | 0 <= i < |bs| :: bs[i].Null?
  }

  function Nulls(n: nat): seq<Branch> { seq(n, _ => Null) }

  /** What stays of a branch whose blocks start at `start` when the file is cut at `cut`: every pointer below the
      cut, and of the pointer blocks across it those that still hold one. */
  ghost function Keep(b: Branch, p: nat, h: nat, start: int, cut: int): Branch
    decreases h, 0
  {
    if b.Null? || cut <= start then Null
    else if h == 0 || start + Width(p, h) <= cut then b
    else
      Rebuilt(b, KeepKids(b.kids, p, h - 1, start, cut))
  }

  ghost function KeepKids(kids: seq<Branch>, p: nat, h: nat, start: int, cut: int): seq<Branch>
    decreases h, 1
  {
    seq(|kids|, j requires 0 <= j < |kids| => Keep(kids[j], p, h, start + j * Width(p, h), cut))
  }

  ghost function KeepAll(data: seq<Branch>, p: nat, cut: int): seq<Branch> {
    seq(|data|, i requires 0 <= i < |data| => Keep(data[i], p, SlotHeight(i), SlotStart(p, i), cut))
  }

  /** The blocks of a branch, pointer blocks and data blocks. */
  ghost function Blocks(b: Branch): multiset<nat> {
    match b
    case Null => multiset{}
    case Block(nr, kids) => multiset{nr} + BlocksAll(kids)
  }

  ghost function BlocksAll(bs: seq<Branch>): multiset<nat> {
    if bs == [] then multiset{} else Blocks(bs[0]) + BlocksAll(bs[1..])
  }

  /** The cut keeps the mapping of every block below it and unmaps the others. */
  lemma {:induction false} KeepWalk(b: Branch, p: nat, h: nat, start: int, cut: int, ds: seq<nat>)
    requires Shaped(b, p, h) && |ds| == h && Digits(p, ds)
    ensures Walk(Keep(b, p, h, start, cut), ds) == if start + Value(p, ds) < cut then Walk(b, ds) else Null
    decreases h
  {
    ValueBounded(p, ds);
    if b.Null? || cut <= start {
      WalkNull(Null, ds);
    } else if h > 0 && cut < start + Width(p, h) {
      var w, d := Width(p, h - 1), ds[0];
      assert Shaped(b.kids[d], p, h - 1);
      KeepWalk(b.kids[d], p, h - 1, start + d * w, cut, ds[1..]);
      KeepStep(b, p, h, start, cut, ds);
    }
  }

  lemma KeepStep(b: Branch, p: nat, h: nat, start: int, cut: int, ds: seq<nat>)
    requires b.Block? && 0 < h && start < cut < start + Width(p, h) && ds != [] && ds[0] < |b.kids|
    ensures Walk(Keep(b, p, h, start, cut), ds) ==
            Walk(Keep(b.kids[ds[0]], p, h - 1, start + ds[0] * Width(p, h - 1), cut), ds[1..])
  {
    var kids := KeepKids(b.kids, p, h - 1, start, cut);
    if AllNull(kids) {
      assert kids[ds[0]].Null?;
      WalkNull(Null, ds);
      WalkNull(Null, ds[1..]);
    }
  }

  lemma KeepMap(data: seq<Branch>, p: nat, cut: int, path: seq<nat>)
    requires InodeOk(data, p) && IsOffsets(p, path)
    ensures At(KeepAll(data, p, cut), path) == if BlockOf(p, path) < cut then At(data, path) else Null
  {
    KeepWalk(data[path[0]], p, SlotHeight(path[0]), SlotStart(p, path[0]), cut, path[1..]);
  }

  // ----- the same, by offsets -----

  ghost predicate AllZero(ds: seq<nat>) {
    forall i | 0 <= i < |ds| :: ds[i] == 0
  }

  /** Cutting a branch at the offsets of the first block to go. */
  ghost function Cut(b: Branch, ds: seq<nat>): Branch
    decreases |ds|
  {
    if b.Null? || AllZero(ds) || ds[0] >= |b.kids| then Null
    else
      var kid := Cut(b.kids[ds[0]], ds[1..]);
      if AllNull(b.kids[..ds[0]]) && kid.Null? then Null
      else Block(b.nr, b.kids[..ds[0]] + [kid] + Nulls(|b.kids| - ds[0] - 1))
  }

  lemma {:induction false} ZeroValue(p: nat, ds: seq<nat>)
    requires 0 < p
    ensures AllZero(ds) <==> Value(p, ds) == 0
  {
    if ds != [] {
      ZeroValue(p, ds[1..]);
      WidthPositive(p, |ds| - 1);
      assert AllZero(ds) <==> ds[0] == 0 && AllZero(ds[1..]);
      if ds[0] > 0 {
        Multiple(Width(p, |ds| - 1), ds[0]);
      }
    }
  }

  lemma {:induction false} WidthPositive(p: nat, h: nat)
    requires 0 < p
    ensures 0 < Width(p, h)
  {
    if h > 0 {
      WidthPositive(p, h - 1);
      Multiple(p, Width(p, h - 1));
    }
  }

  lemma {:induction false} CutIsKeep(b: Branch, p: nat, h: nat, ds: seq<nat>, start: int)
    requires Shaped(b, p, h) && |ds| == h && Digits(p, ds) && 0 < p
    ensures Cut(b, ds) == Keep(b, p, h, start, start + Value(p, ds))
    decreases h
  {
    ZeroValue(p, ds);
    ValueBounded(p, ds);
    if b.Block? && !AllZero(ds) {
      var d, cut := ds[0], start + Value(p, ds);
      assert Shaped(b.kids[d], p, h - 1);
      CutIsKeep(b.kids[d], p, h - 1, ds[1..], start + d * Width(p, h - 1));
      KidsCut(b.kids, p, h - 1, start, ds, cut, Cut(b.kids[d], ds[1..]));
      CutRebuilds(b, ds);
    }
  }

  /** A pointer block with other pointers; without any it goes. */
  ghost function Rebuilt(b: Branch, kids: seq<Branch>): Branch
    requires b.Block?
  {
    if AllNull(kids) then Null else Block(b.nr, kids)
  }

  lemma CutRebuilds(b: Branch, ds: seq<nat>)
    requires b.Block? && !AllZero(ds) && ds[0] < |b.kids|
    ensures Cut(b, ds) == Rebuilt(b, b.kids[..ds[0]] + [Cut(b.kids[ds[0]], ds[1..])] + Nulls(|b.kids| - ds[0] - 1))
  {
    AllNullParts(b.kids[..ds[0]], Cut(b.kids[ds[0]], ds[1..]), |b.kids| - ds[0] - 1);
  }

  lemma KidsCut(kids: seq<Branch>, p: nat, h: nat, start: int, ds: seq<nat>, cut: int, kid: Branch)
    requires ds != [] && |kids| == p && ds[0] < p && |ds| == h + 1 && Digits(p, ds) && 0 < p
    requires cut == start + Value(p, ds) && kid == Keep(kids[ds[0]], p, h, start + ds[0] * Width(p, h), cut)
    ensures KeepKids(kids, p, h, start, cut) == kids[..ds[0]] + [kid] + Nulls(p - ds[0] - 1)
  {
    var ks, want := KeepKids(kids, p, h, start, cut), kids[..ds[0]] + [kid] + Nulls(p - ds[0] - 1);
    forall j | 0 <= j < p
      ensures ks[j] == want[j]
    {
      KidCut(kids[j], p, h, start, ds, cut, j);
    }
  }

  /** A pointer before the one on the path stays, one after it goes. */
  lemma KidCut(b: Branch, p: nat, h: nat, start: int, ds: seq<nat>, cut: int, j: nat)
    requires ds != [] && |ds| == h + 1 && Digits(p, ds) && 0 < p && cut == start + Value(p, ds)
    ensures j < ds[0] ==> Keep(b, p, h, start + j * Width(p, h), cut) == b
    ensures ds[0] < j ==> Keep(b, p, h, start + j * Width(p, h), cut) == Null
  {
    ValueBounded(p, ds[1..]);
    WidthPositive(p, h);
    if j < ds[0] {
      Scaled(j, ds[0], Width(p, h));
    } else if ds[0] < j {
      Scaled(ds[0], j, Width(p, h));
    }
  }

  lemma AllNullParts(x: seq<Branch>, b: Branch, n: nat)
    ensures AllNull(x + [b] + Nulls(n)) <==> AllNull(x) && b.Null?
  {
    var s := x + [b] + Nulls(n);
    assert s[|x|] == b;
    assert forall i | 0 <= i < |x| :: s[i] == x[i];
  }

  // ----- freeing -----

  lemma {:induction false} BlocksConcat(x: seq<Branch>, y: seq<Branch>)
    ensures BlocksAll(x + y) == BlocksAll(x) + BlocksAll(y)
  {
    if x == [] {
      assert x + y == y;
    } else {
      assert (x + y)[1..] == x[1..] + y;
      BlocksConcat(x[1..], y);
    }
  }

  lemma {:induction false} NoBlocks(bs: seq<Branch>)
    requires AllNull(bs)
    ensures BlocksAll(bs) == multiset{}
  {
    if bs != [] {
      NoBlocks(bs[1..]);
    }
  }

  /** The numbers of the data blocks that the pointers lead to, in their order. */
  ghost function Numbers(bs: seq<Branch>): seq<nat> {
    if bs == [] then []
    else Numbers(bs[..|bs| - 1]) + if bs[|bs| - 1].Block? then [bs[|bs| - 1].nr] else []
  }

  lemma {:induction false} NumbersBlocks(bs: seq<Branch>)
    requires forall i | 0 <= i < |bs| :: bs[i].Null? || bs[i].kids == []
    ensures multiset(Numbers(bs)) == BlocksAll(bs)
  {
    if bs != [] {
      var n := |bs| - 1;
      NumbersBlocks(bs[..n]);
      assert bs == bs[..n] + [bs[n]];
      BlocksConcat(bs[..n], [bs[n]]);
      assert [bs[n]][1..] == [];
    }
  }

  function RunOf(first: nat, count: nat): seq<nat> { seq(count, i requires 0 <= i => first + i) }

  /** Pointers [lo, hi) set to null. */
  function Cleared(bs: seq<Branch>, lo: nat, hi: nat): seq<Branch>
    requires lo <= hi <= |bs|
  {
    bs[..lo] + Nulls(hi - lo) + bs[hi..]
  }

  /** ext4_free_data: the blocks are freed in runs of consecutive numbers. */
  method FreeData(bs: seq<Branch>, lo: nat, hi: nat) returns (bs': seq<Branch>, freed: seq<nat>)
    requires lo <= hi <= |bs|
    ensures bs' == Cleared(bs, lo, hi) && freed == Numbers(bs[lo..hi])
  {
    bs', freed := bs, [];
    var first: nat, count: nat, start: nat := 0, 0, lo;
    assert bs[lo..lo] == [] && RunOf(0, 0) == [];
    for i := lo to hi
      invariant DataRun(bs, bs', freed, lo, i, hi, first, count, start)
    {
      if bs[i].Block? {
        if count == 0 {
          RunStarts(bs, bs', freed, lo, i, hi, first, start);
          first, start, count := bs[i].nr, i, 1;
        } else if bs[i].nr == first + count {
          RunGrows(bs, bs', freed, lo, i, hi, first, count, start);
          count := count + 1;
        } else {
          RunEnds(bs, bs', freed, lo, i, hi, first, count, start);
          bs', freed := Cleared(bs', start, i), freed + RunOf(first, count);
          RunStarts(bs, bs', freed, lo, i, hi, 0, start);
          first, start, count := bs[i].nr, i, 1;
        }
      } else {
        RunPauses(bs, bs', freed, lo, i, hi, first, count, start);
      }
    }
    if count > 0 {
      RunEnds(bs, bs', freed, lo, hi, hi, first, count, start);
      bs', freed, first := Cleared(bs', start, hi), freed + RunOf(first, count), 0;
    }
    RunDone(bs, bs', freed, lo, hi, first, start);
  }

  /** Everything before `i` is freed and cleared, except the run at hand, which began at pointer `start`. */
  ghost predicate DataRun(bs: seq<Branch>, bs': seq<Branch>, freed: seq<nat>, lo: nat, i: nat, hi: nat,
                          first: nat, count: nat, start: nat)
  {
    && lo <= i <= hi <= |bs| == |bs'| && lo <= start <= i
    && freed + RunOf(first, count) == Numbers(bs[lo..i])
    && (forall j | 0 <= j < |bs| :: bs'[j] == if lo <= j < (if count == 0 then i else start) then Null else bs[j])
  }

  lemma NextNumber(bs: seq<Branch>, lo: nat, i: nat)
    requires lo <= i < |bs|
    ensures Numbers(bs[lo..i + 1]) == Numbers(bs[lo..i]) + if bs[i].Block? then [bs[i].nr] else []
  {
    assert bs[lo..i + 1] == bs[lo..i] + [bs[i]];
    assert bs[lo..i + 1][..i - lo] == bs[lo..i];
  }

  lemma RunPauses(bs: seq<Branch>, bs': seq<Branch>, freed: seq<nat>, lo: nat, i: nat, hi: nat, first: nat,
                  count: nat, start: nat)
    requires i < hi && DataRun(bs, bs', freed, lo, i, hi, first, count, start) && bs[i].Null?
    ensures DataRun(bs, bs', freed, lo, i + 1, hi, first, count, start)
  {
    NextNumber(bs, lo, i);
    assert Numbers(bs[lo..i]) + [] == Numbers(bs[lo..i]);
  }

  lemma RunStarts(bs: seq<Branch>, bs': seq<Branch>, freed: seq<nat>, lo: nat, i: nat, hi: nat, first: nat, start: nat)
    requires i < hi && DataRun(bs, bs', freed, lo, i, hi, first, 0, start) && bs[i].Block?
    ensures DataRun(bs, bs', freed, lo, i + 1, hi, bs[i].nr, 1, i)
  {
    NextNumber(bs, lo, i);
    assert RunOf(bs[i].nr, 1) == [bs[i].nr] && freed + RunOf(first, 0) == freed;
  }

  lemma RunGrows(bs: seq<Branch>, bs': seq<Branch>, freed: seq<nat>, lo: nat, i: nat, hi: nat, first: nat,
                 count: nat, start: nat)
    requires i < hi && DataRun(bs, bs', freed, lo, i, hi, first, count, start) && 0 < count
    requires bs[i].Block? && bs[i].nr == first + count
    ensures DataRun(bs, bs', freed, lo, i + 1, hi, first, count + 1, start)
  {
    NextNumber(bs, lo, i);
    assert freed + RunOf(first, count + 1) == freed + RunOf(first, count) + [first + count];
  }

  lemma RunDone(bs: seq<Branch>, bs': seq<Branch>, freed: seq<nat>, lo: nat, hi: nat, first: nat, start: nat)
    requires DataRun(bs, bs', freed, lo, hi, hi, first, 0, start)
    ensures bs' == Cleared(bs, lo, hi) && freed == Numbers(bs[lo..hi])
  {
    assert RunOf(first, 0) == [] && freed + [] == freed;
  }

  lemma RunEnds(bs: seq<Branch>, bs': seq<Branch>, freed: seq<nat>, lo: nat, i: nat, hi: nat, first: nat, count: nat,
                start: nat)
    requires DataRun(bs, bs', freed, lo, i, hi, first, count, start) && 0 < count
    ensures DataRun(bs, Cleared(bs', start, i), freed + RunOf(first, count), lo, i, hi, 0, 0, start)
  {
    assert RunOf(0, 0) == [];
  }

  /** ext4_free_branches: pointers [lo, hi) to branches of height `depth`, from right to left and bottom up. */
  method FreeBranches(bs: seq<Branch>, lo: nat, hi: nat, depth: nat, p: nat) returns (bs': seq<Branch>, freed: seq<nat>)
    requires lo <= hi <= |bs| && forall i | lo <= i < hi :: Shaped(bs[i], p, depth)
    ensures bs' == Cleared(bs, lo, hi) && multiset(freed) == BlocksAll(bs[lo..hi])
    decreases depth, 1
  {
    if depth == 0 {
      bs', freed := FreeData(bs, lo, hi);
      assert forall i | 0 <= i < hi - lo :: bs[lo..hi][i] == bs[lo + i];
      NumbersBlocks(bs[lo..hi]);
    } else {
      bs', freed := bs, [];
      var i := hi;
      assert bs[hi..hi] == [] && bs == Cleared(bs, hi, hi);
      while i > lo
        invariant lo <= i <= hi && FreedFrom(bs, bs', freed, i, hi)
      {
        i := i - 1;
        if bs[i].Block? {
          var f := FreeTop(bs[i], depth, p);
          OneFreed(bs, bs', freed, i, hi, f);
          bs', freed := bs'[i := Null], freed + f;
        } else {
          OneNull(bs, bs', freed, i, hi);
        }
      }
    }
  }

  /** Everything below a pointer block, then the block itself. */
  method FreeTop(b: Branch, depth: nat, p: nat) returns (freed: seq<nat>)
    requires b.Block? && 0 < depth && Shaped(b, p, depth)
    ensures multiset(freed) == Blocks(b)
    decreases depth, 0
  {
    var kids, below := FreeBranches(b.kids, 0, |b.kids|, depth - 1, p);
    assert b.kids[0..|b.kids|] == b.kids;
    freed := below + [b.nr];
  }

  /** A single pointer. */
  method FreeWhole(b: Branch, h: nat, p: nat) returns (freed: seq<nat>)
    requires Shaped(b, p, h)
    ensures multiset(freed) == Blocks(b)
  {
    freed := [];
    if b.Block? {
      assert [b][0..1] == [b] && [b][1..] == [];
      var gone;
      gone, freed := FreeBranches([b], 0, 1, h, p);
    }
  }

  /** Pointers [i, hi) have been dealt with. */
  ghost predicate FreedFrom(bs: seq<Branch>, bs': seq<Branch>, freed: seq<nat>, i: nat, hi: nat) {
    i <= hi <= |bs| && bs' == Cleared(bs, i, hi) && multiset(freed) == BlocksAll(bs[i..hi])
  }

  lemma OneFreed(bs: seq<Branch>, bs': seq<Branch>, freed: seq<nat>, i: nat, hi: nat, f: seq<nat>)
    requires i < hi && FreedFrom(bs, bs', freed, i + 1, hi) && multiset(f) == Blocks(bs[i])
    ensures FreedFrom(bs, bs'[i := Null], freed + f, i, hi)
  {
    assert bs[i..hi][1..] == bs[i + 1..hi];
    assert Cleared(bs, i, hi) == bs'[i := Null];
  }

  lemma OneNull(bs: seq<Branch>, bs': seq<Branch>, freed: seq<nat>, i: nat, hi: nat)
    requires i < hi && FreedFrom(bs, bs', freed, i + 1, hi) && bs[i].Null?
    ensures FreedFrom(bs, bs', freed, i, hi)
  {
    assert bs[i..hi][1..] == bs[i + 1..hi];
    assert Cleared(bs, i, hi) == bs';
  }

  // ----- the shared branch -----

  /** all_zeroes */
  method AllZeroes(bs: seq<Branch>, n: nat) returns (r: bool)
    requires n <= |bs|
    ensures r <==> AllNull(bs[..n])
  {
    for i := 0 to n
      invariant AllNull(bs[..i])
    {
      if bs[i].Block? {
        assert bs[..n][i].Block?;
        return false;
      }
    }
    return true;
  }

  /** What ext4_find_shared finds: up to level `at` the chain survives the cut, from there on nothing does. */
  ghost predicate SharedAt(chain: seq<Branch>, ds: seq<nat>, at: nat) {
    && CutNull(chain, ds, at)
    && forall i | 0 <= i < at :: Survives(chain, ds, i)
  }

  ghost predicate Survives(chain: seq<Branch>, ds: seq<nat>, i: nat)
    requires i < |chain| <= |ds| + 1
  {
    Cut(chain[i], ds[i..]).Block?
  }

  /** ext4_find_shared; `k` is the number of offsets up to the last that is not zero. */
  method FindShared(data: seq<Branch>, offsets: seq<nat>, p: nat) returns (chain: seq<Branch>, k: nat, at: nat)
    requires InodeOk(data, p) && IsOffsets(p, offsets)
    ensures IsChain(chain, data[offsets[0]], offsets[1..], p) && ChainShaped(chain, p, |offsets| - 1)
    ensures k < |offsets| && at <= k && SharedAt(chain, offsets[1..], at)
    ensures at == k > 0 ==> offsets[k] > 0
  {
    k := LastNonZero(offsets);
    chain := GetBranch(data, offsets, k + 1, p);
    at := Climb(chain, data[offsets[0]], offsets[1..], offsets, p);
  }

  /** The last offset that is not zero, or the first. */
  method LastNonZero(offsets: seq<nat>) returns (k: nat)
    requires 0 < |offsets|
    ensures k < |offsets| && AllZero(offsets[1..][k..]) && (k > 0 ==> offsets[k] > 0)
  {
    k := |offsets| - 1;
    while k > 0 && offsets[k] == 0
      invariant k < |offsets| && AllZero(offsets[1..][k..])
    {
      k := k - 1;
    }
  }

  /** Up from the end of the chain past the pointer blocks that hold nothing before the path. */
  method Climb(chain: seq<Branch>, ghost top: Branch, ghost ds: seq<nat>, offsets: seq<nat>, p: nat) returns (at: nat)
    requires 0 < |offsets| && ds == offsets[1..] && IsChain(chain, top, ds, p) && CutNull(chain, ds, |chain| - 1)
    ensures SharedAt(chain, ds, at)
  {
    at := |chain| - 1;
    while at > 0
      invariant at < |chain| && CutNull(chain, ds, at)
    {
      CutAbove(chain, top, ds, p, at);
      var zero := AllZeroes(chain[at - 1].kids, offsets[at]);
      if !zero {
        SurvivesAbove(chain, top, ds, p, at);
        return;
      }
      at := at - 1;
    }
  }

  ghost predicate CutNull(chain: seq<Branch>, ds: seq<nat>, i: int) {
    0 <= i < |chain| <= |ds| + 1 && Cut(chain[i], ds[i..]) == Null
  }

  /** One level up: the pointer block goes exactly if all pointers before the one on the path are null. */
  lemma CutAbove(chain: seq<Branch>, top: Branch, ds: seq<nat>, p: nat, at: nat)
    requires IsChain(chain, top, ds, p) && 0 < at < |chain| && CutNull(chain, ds, at)
    ensures chain[at - 1].Block? && ds[at - 1] < |chain[at - 1].kids|
    ensures AllNull(chain[at - 1].kids[..ds[at - 1]]) ==> CutNull(chain, ds, at - 1)
    ensures !AllNull(chain[at - 1].kids[..ds[at - 1]]) ==> Survives(chain, ds, at - 1)
  {
    assert ds[at - 1..][1..] == ds[at..] && ds[at - 1..][0] == ds[at - 1];
    assert Linked(chain, ds, at - 1);
    if !AllNull(chain[at - 1].kids[..ds[at - 1]]) {
      assert !AllZero(ds[at - 1..]);
    }
  }

  /** Above a pointer block that survives everything does. */
  lemma {:induction false} SurvivesAbove(chain: seq<Branch>, top: Branch, ds: seq<nat>, p: nat, at: nat)
    requires IsChain(chain, top, ds, p) && 0 < at < |chain| && Survives(chain, ds, at - 1)
    ensures forall i | 0 <= i < at :: Survives(chain, ds, i)
  {
    if at > 1 {
      var d := ds[at - 2..];
      assert d[1..] == ds[at - 1..] && d[0] == ds[at - 2];
      assert Linked(chain, ds, at - 2);
      NotZero(ds[at - 1..], d);
      SurvivesAbove(chain, top, ds, p, at - 1);
    }
  }

  lemma NotZero(rest: seq<nat>, ds: seq<nat>)
    requires ds != [] && rest == ds[1..] && !AllZero(rest)
    ensures !AllZero(ds)
  {
    var i :| 0 <= i < |rest| && rest[i] != 0;
    assert ds[i + 1] != 0;
  }

  /** The end of a pointer block on the shared branch: the pointers from `from` on go; `cur` is what the pointer on the
      path leads to by now. */
  method ClearEnd(node: Branch, d: nat, cur: Branch, from: nat, depth: nat, p: nat)
    returns (node': Branch, freed: seq<nat>)
    requires node.Block? && Shaped(node, p, depth + 1) && d < p && d <= from <= d + 1 && Shaped(cur, p, depth)
    ensures node' == Block(node.nr, node.kids[..d] + [if from == d then Null else cur] + Nulls(p - d - 1))
    ensures multiset(freed) + Blocks(node') + Blocks(node.kids[d]) == Blocks(node) + Blocks(cur)
  {
    var kids := node.kids[d := cur];
    var kids';
    kids', freed := FreeBranches(kids, from, p, depth, p);
    node' := Block(node.nr, kids');
    EndCleared(node.kids, d, cur, from, p);
    EndBlocks(node.kids, d, cur, from, p);
    WithTop(multiset{node.nr}, multiset(freed), BlocksAll(kids'), Blocks(node.kids[d]), BlocksAll(node.kids),
            Blocks(cur));
  }

  lemma WithTop(nr: multiset<nat>, f: multiset<nat>, a: multiset<nat>, k: multiset<nat>, b: multiset<nat>,
                c: multiset<nat>)
    requires f + a + k == b + c
    ensures f + (nr + a) + k == (nr + b) + c
  {
    assert f + (nr + a) + k == nr + (f + a + k);
  }

  lemma EndCleared(bs: seq<Branch>, d: nat, cur: Branch, from: nat, p: nat)
    requires |bs| == p && d < p && d <= from <= d + 1
    ensures Cleared(bs[d := cur], from, p) == bs[..d] + [if from == d then Null else cur] + Nulls(p - d - 1)
  {
    var kids := bs[d := cur];
    assert kids[p..] == [];
    if from == d {
      assert kids[..from] == bs[..d] && Nulls(p - from) == [Null] + Nulls(p - d - 1);
    } else {
      assert kids[..from] == bs[..d] + [cur];
    }
  }

  lemma EndBlocks(bs: seq<Branch>, d: nat, cur: Branch, from: nat, p: nat)
    requires |bs| == p && d < p && from <= p
    ensures BlocksAll(bs[d := cur][from..p]) + BlocksAll(Cleared(bs[d := cur], from, p)) + Blocks(bs[d]) ==
            BlocksAll(bs) + Blocks(cur)
  {
    var kids := bs[d := cur];
    ClearedBlocks(kids, from, p);
    OneReplaced(bs, d, cur);
  }

  /** What is cleared and what is left is what there was. */
  lemma {:induction false} ClearedBlocks(bs: seq<Branch>, lo: nat, hi: nat)
    requires lo <= hi <= |bs|
    ensures BlocksAll(bs[lo..hi]) + BlocksAll(Cleared(bs, lo, hi)) == BlocksAll(bs)
    decreases hi - lo
  {
    if lo == hi {
      assert Cleared(bs, lo, hi) == bs && bs[lo..hi] == [];
    } else {
      ClearedBlocks(bs, lo + 1, hi);
      FirstCleared(bs, lo, hi);
      var c := Cleared(bs, lo + 1, hi);
      Emptied(c, lo);
      Reorder(Blocks(bs[lo]), BlocksAll(bs[lo + 1..hi]), BlocksAll(c[lo := Null]), BlocksAll(c), BlocksAll(bs));
    }
  }

  lemma FirstCleared(bs: seq<Branch>, lo: nat, hi: nat)
    requires lo < hi <= |bs|
    ensures var c := Cleared(bs, lo + 1, hi); c[lo] == bs[lo] && Cleared(bs, lo, hi) == c[lo := Null]
    ensures BlocksAll(bs[lo..hi]) == Blocks(bs[lo]) + BlocksAll(bs[lo + 1..hi])
  {
    assert bs[lo..hi][1..] == bs[lo + 1..hi];
  }

  lemma Reorder(a: multiset<nat>, b: multiset<nat>, d: multiset<nat>, c: multiset<nat>, all: multiset<nat>)
    requires a + d == c && b + c == all
    ensures a + b + d == all
  {
    assert a + b + d == b + (a + d);
  }

  lemma Emptied(bs: seq<Branch>, d: nat)
    requires d < |bs|
    ensures Blocks(bs[d]) + BlocksAll(bs[d := Null]) == BlocksAll(bs)
  {
    OneReplaced(bs, d, Null);
    assert BlocksAll(bs) + multiset{} == BlocksAll(bs);
  }

  lemma OneReplaced(bs: seq<Branch>, d: nat, b: Branch)
    requires d < |bs|
    ensures BlocksAll(bs[d := b]) + Blocks(bs[d]) == BlocksAll(bs) + Blocks(b)
  {
    BlocksAt(bs, d);
    BlocksAt(bs[d := b], d);
    assert bs[d := b][..d] == bs[..d] && bs[d := b][d + 1..] == bs[d + 1..];
  }

  lemma BlocksAt(bs: seq<Branch>, d: nat)
    requires d < |bs|
    ensures BlocksAll(bs) == BlocksAll(bs[..d]) + Blocks(bs[d]) + BlocksAll(bs[d + 1..])
  {
    assert bs == bs[..d] + bs[d..] && bs[d..][1..] == bs[d + 1..];
    BlocksConcat(bs[..d], bs[d..]);
  }

  /** Up to level `i` the shared branch is cut; `from` tells whether the pointer on the path is still to go. */
  ghost predicate CutUpTo(chain: seq<Branch>, ds: seq<nat>, i: nat, cur: Branch, from: nat, freed: seq<nat>) {
    && i < |chain| <= |ds| + 1
    && (if i > 0 && from == ds[i - 1] then Null else cur) == Cut(chain[i], ds[i..])
    && (i > 0 ==> ds[i - 1] <= from <= ds[i - 1] + 1)
    && multiset(freed) + Blocks(cur) == Blocks(chain[i])
  }

  /** Cutting the branch the first block to go is in. */
  method TruncateBranch(data: seq<Branch>, offsets: seq<nat>, p: nat) returns (cur: Branch, freed: seq<nat>)
    requires InodeOk(data, p) && IsOffsets(p, offsets)
    ensures cur == Cut(data[offsets[0]], offsets[1..]) && multiset(freed) + Blocks(cur) == Blocks(data[offsets[0]])
    ensures Shaped(cur, p, |offsets| - 1)
  {
    var chain, k, at := FindShared(data, offsets, p);
    cur, freed := CutChain(chain, data[offsets[0]], offsets[1..], offsets, k, at, p, |offsets| - 1);
  }

  /** The shared branch from its lowest level that survives up to the inode. */
  method CutChain(chain: seq<Branch>, ghost top: Branch, ghost ds: seq<nat>, offsets: seq<nat>, k: nat, at: nat,
                  p: nat, h: nat)
    returns (cur: Branch, freed: seq<nat>)
    requires OnBranch(chain, top, ds, offsets, at, p, h) && at <= k < |offsets|
    ensures cur == Cut(top, ds) && multiset(freed) + Blocks(cur) == Blocks(top) && Shaped(cur, p, h)
  {
    var from: nat;
    cur, from, freed := TopOfBranch(chain, top, ds, offsets, k, at, p, h);
    var i: nat := at;
    while i > 0
      invariant i <= at && LevelDone(chain, ds, i, cur, from, freed, p, h)
    {
      cur, from, freed := UpOneLevel(chain, top, ds, offsets, at, i, cur, from, freed, p, h);
      i := i - 1;
    }
    BranchDone(chain, top, ds, offsets, at, p, h, cur, from, freed);
  }

  /** The chain was found for these offsets, and survives down to level `at`. */
  ghost predicate OnBranch(chain: seq<Branch>, top: Branch, ds: seq<nat>, offsets: seq<nat>, at: nat, p: nat, h: nat) {
    && 0 < |offsets| && ds == offsets[1..] && h == |ds| && Digits(p, ds)
    && IsChain(chain, top, ds, p) && SharedAt(chain, ds, at) && ChainShaped(chain, p, h)
  }

  ghost predicate LevelDone(chain: seq<Branch>, ds: seq<nat>, i: nat, cur: Branch, from: nat, freed: seq<nat>,
                            p: nat, h: nat) {
    i <= h && CutUpTo(chain, ds, i, cur, from, freed) && Shaped(cur, p, h - i)
  }

  lemma BranchDone(chain: seq<Branch>, top: Branch, ds: seq<nat>, offsets: seq<nat>, at: nat, p: nat, h: nat,
                   cur: Branch, from: nat, freed: seq<nat>)
    requires OnBranch(chain, top, ds, offsets, at, p, h) && LevelDone(chain, ds, 0, cur, from, freed, p, h)
    ensures cur == Cut(top, ds) && multiset(freed) + Blocks(cur) == Blocks(top) && Shaped(cur, p, h)
  {
    assert ds[0..] == ds;
  }

  method UpOneLevel(chain: seq<Branch>, ghost top: Branch, ghost ds: seq<nat>, offsets: seq<nat>, ghost at: nat, i: nat,
                    cur: Branch, from: nat, freed: seq<nat>, p: nat, h: nat)
    returns (cur': Branch, from': nat, freed': seq<nat>)
    requires OnBranch(chain, top, ds, offsets, at, p, h) && 0 < i <= at
             && LevelDone(chain, ds, i, cur, from, freed, p, h)
    ensures LevelDone(chain, ds, i - 1, cur', from', freed', p, h)
  {
    LevelReady(chain, top, ds, offsets, at, p, h, i, cur, from, freed);
    var f;
    cur', f := ClearEnd(chain[i - 1], offsets[i], cur, from, h - i, p);
    from' := if i > 1 then offsets[i - 1] + 1 else 0;
    freed' := freed + f;
    LevelUp(chain, top, ds, offsets, at, p, h, i, cur, from, freed, cur', f, from');
  }

  lemma LevelReady(chain: seq<Branch>, top: Branch, ds: seq<nat>, offsets: seq<nat>, at: nat, p: nat, h: nat, i: nat,
                   cur: Branch, from: nat, freed: seq<nat>)
    requires OnBranch(chain, top, ds, offsets, at, p, h) && 0 < i <= at
             && LevelDone(chain, ds, i, cur, from, freed, p, h)
    ensures i < |chain| && i < |offsets| && i <= h && offsets[i] == ds[i - 1] && (i > 1 ==> offsets[i - 1] == ds[i - 2])
    ensures chain[i - 1].Block? && Shaped(chain[i - 1], p, h - i + 1) && offsets[i] < p
            && chain[i - 1].kids[offsets[i]] == chain[i]
    ensures offsets[i] <= from <= offsets[i] + 1 && Shaped(cur, p, h - i)
  {
    CutStep(chain, top, ds, p, at, i);
    assert Shaped(chain[i - 1], p, h - (i - 1));
  }

  lemma LevelUp(chain: seq<Branch>, top: Branch, ds: seq<nat>, offsets: seq<nat>, at: nat, p: nat, h: nat, i: nat,
                was: Branch, from: nat, freed: seq<nat>, cur: Branch, f: seq<nat>, next: nat)
    requires OnBranch(chain, top, ds, offsets, at, p, h) && 0 < i <= at
             && LevelDone(chain, ds, i, was, from, freed, p, h)
    requires var b, d := chain[i - 1], ds[i - 1];
             && b.Block? && d < |b.kids| == p
             && cur == Block(b.nr, b.kids[..d] + [if from == d then Null else was] + Nulls(p - d - 1))
             && multiset(f) + Blocks(cur) + Blocks(b.kids[d]) == Blocks(b) + Blocks(was)
    requires next == if i > 1 then ds[i - 2] + 1 else 0
    ensures LevelDone(chain, ds, i - 1, cur, next, freed + f, p, h)
  {
    CutStep(chain, top, ds, p, at, i);
    CutOneUp(chain, ds, i, was, from, freed, cur, f, next);
    assert Shaped(chain[i - 1], p, h - (i - 1));
    KidsShaped(chain[i - 1], ds[i - 1], was, from, h - i, p);
  }

  /** The part of the branch below the level that survives: it goes with the end of the pointer block above it, or, when
      it is not all of the branch or grows from the inode, by itself. */
  method TopOfBranch(chain: seq<Branch>, ghost top: Branch, ghost ds: seq<nat>, offsets: seq<nat>, k: nat, at: nat,
                     p: nat, h: nat)
    returns (cur: Branch, from: nat, freed: seq<nat>)
    requires OnBranch(chain, top, ds, offsets, at, p, h) && at <= k < |offsets|
    ensures LevelDone(chain, ds, at, cur, from, freed, p, h)
  {
    from, freed := 0, [];
    if at == k && at > 0 {
      cur, from := chain[at], offsets[at];
    } else {
      cur := Null;
      freed := FreeWhole(chain[at], h - at, p);
      if at > 0 {
        from := offsets[at] + 1;
      }
    }
  }

  lemma CutOneUp(chain: seq<Branch>, ds: seq<nat>, i: nat, was: Branch, from: nat, freed: seq<nat>, cur: Branch,
                 f: seq<nat>, next: nat)
    requires 0 < i && CutUpTo(chain, ds, i, was, from, freed) && next == (if i > 1 then ds[i - 2] + 1 else 0)
    requires cur == Cut(chain[i - 1], ds[i - 1..])
    requires multiset(f) + Blocks(cur) + Blocks(chain[i]) == Blocks(chain[i - 1]) + Blocks(was)
    ensures CutUpTo(chain, ds, i - 1, cur, next, freed + f)
  {
    Cancel(multiset(freed), multiset(f), Blocks(cur), Blocks(chain[i]), Blocks(chain[i - 1]), Blocks(was));
  }

  lemma Cancel(a: multiset<nat>, f: multiset<nat>, c: multiset<nat>, x: multiset<nat>, y: multiset<nat>,
               w: multiset<nat>)
    requires a + w == x && f + c + x == y + w
    ensures a + f + c == y
  {
    forall e
      ensures (a + f + c)[e] == y[e]
    {
      assert (a + w)[e] == x[e] && (f + c + x)[e] == (y + w)[e];
    }
  }

  lemma KidsShaped(node: Branch, d: nat, cur: Branch, from: nat, h: nat, p: nat)
    requires node.Block? && Shaped(node, p, h + 1) && d < p && Shaped(cur, p, h)
    ensures Shaped(Block(node.nr, node.kids[..d] + [if from == d then Null else cur] + Nulls(p - d - 1)), p, h + 1)
  {
    var kids := node.kids[..d] + [if from == d then Null else cur] + Nulls(p - d - 1);
    assert Shaped(Null, p, h);
    forall i | 0 <= i < p
      ensures Shaped(kids[i], p, h)
    {
      if i < d {
        assert kids[i] == node.kids[i];
      }
    }
  }

  lemma CutStep(chain: seq<Branch>, top: Branch, ds: seq<nat>, p: nat, at: nat, i: nat)
    requires IsChain(chain, top, ds, p) && SharedAt(chain, ds, at) && 0 < i <= at
    ensures var b, d := chain[i - 1], ds[i - 1];
            && b.Block? && d < |b.kids| && b.kids[d] == chain[i]
            && Cut(b, ds[i - 1..]) == Block(b.nr, b.kids[..d] + [Cut(chain[i], ds[i..])] + Nulls(|b.kids| - d - 1))
  {
    assert ds[i - 1..][1..] == ds[i..] && ds[i - 1..][0] == ds[i - 1];
    assert Survives(chain, ds, i - 1) && Linked(chain, ds, i - 1);
  }

  // ----- the inode -----

  /** Cut at the first block to go: slots before its slot stay, those after it go. */
  ghost predicate SlotsCut(data: seq<Branch>, data': seq<Branch>, offsets: seq<nat>) {
    && 0 < |offsets| && |data'| == |data|
    && forall i | 0 <= i < |data| :: data'[i] == SlotCut(data, offsets, i)
  }

  ghost function SlotCut(data: seq<Branch>, offsets: seq<nat>, i: nat): Branch
    requires i < |data| && 0 < |offsets|
  {
    if i < offsets[0] then data[i] else if i == offsets[0] then Cut(data[i], offsets[1..]) else Null
  }

  lemma KeepSlot(data: seq<Branch>, p: nat, offsets: seq<nat>, i: nat)
    requires InodeOk(data, p) && IsOffsets(p, offsets) && 0 < p && i <= TIND
    ensures Keep(data[i], p, SlotHeight(i), SlotStart(p, i), BlockOf(p, offsets)) == SlotCut(data, offsets, i)
  {
    ValueBounded(p, offsets[1..]);
    if i < offsets[0] {
      SlotsGrow(p, i, offsets[0]);
      WidthPositive(p, SlotHeight(i));
    } else if i == offsets[0] {
      CutIsKeep(data[i], p, SlotHeight(i), offsets[1..], SlotStart(p, i));
    } else {
      SlotsGrow(p, offsets[0], i);
    }
  }

  lemma CutIsKeepAll(data: seq<Branch>, data': seq<Branch>, p: nat, offsets: seq<nat>)
    requires InodeOk(data, p) && IsOffsets(p, offsets) && 0 < p && SlotsCut(data, data', offsets)
    ensures data' == KeepAll(data, p, BlockOf(p, offsets))
  {
    forall i | 0 <= i < |data|
      ensures data'[i] == KeepAll(data, p, BlockOf(p, offsets))[i]
    {
      KeepSlot(data, p, offsets, i);
    }
  }

  /** Beyond the reach of the triple tree there is nothing to cut. */
  lemma KeepWhole(data: seq<Branch>, p: nat, cut: nat)
    requires InodeOk(data, p) && 0 < p && Limit(p) <= cut
    ensures KeepAll(data, p, cut) == data
  {
    forall i | 0 <= i < |data|
      ensures KeepAll(data, p, cut)[i] == data[i]
    {
      BelowLimit(p, i);
      WidthPositive(p, SlotHeight(i));
    }
  }

  lemma BelowLimit(p: nat, i: nat)
    requires i <= TIND
    ensures SlotStart(p, i) + Width(p, SlotHeight(i)) <= Limit(p)
  {
    SlotEnds(p, i);
    if i < TIND {
      SlotsGrow(p, i, TIND);
    }
  }

  class IndirectFile {
    const p: nat // pointers of a block
    var data: seq<Branch> // i_data

    ghost predicate Valid()
      reads this
    {
      NDIR <= p && InodeOk(data, p)
    }

    constructor (p: nat, data: seq<Branch>)
      requires NDIR <= p && InodeOk(data, p)
      ensures Valid() && this.p == p && this.data == data
    {
      this.p, this.data := p, data;
    }

    /** ext4_ind_truncate to `last` blocks; `max` is the number of blocks such a file can have. */
    method Truncate(last: nat, max: nat) returns (freed: seq<nat>)
      requires Valid() && (last == max ==> KeepAll(data, p, max) == data)
      modifies this
      ensures Valid() && data == KeepAll(old(data), p, last)
      ensures multiset(freed) + BlocksAll(data) == BlocksAll(old(data))
      ensures forall path | IsOffsets(p, path) ::
                At(data, path) == if BlockOf(p, path) < last then At(old(data), path) else Null
    {
      ghost var was := data;
      forall path | IsOffsets(p, path)
        ensures At(KeepAll(was, p, last), path) == if BlockOf(p, path) < last then At(was, path) else Null
      {
        KeepMap(was, p, last, path);
      }
      freed := [];
      if last != max {
        var offsets, boundary := BlockToPath(p, last);
        if offsets == [] {
          KeepWhole(data, p, last);
        } else {
          freed := CutAt(offsets);
        }
      }
    }

    /** The work of ext4_ind_truncate, from the offsets of the first block to go. */
    method CutAt(offsets: seq<nat>) returns (freed: seq<nat>)
      requires Valid() && IsOffsets(p, offsets)
      modifies this
      ensures Valid() && data == KeepAll(old(data), p, BlockOf(p, offsets))
      ensures multiset(freed) + BlocksAll(data) == BlocksAll(old(data))
    {
      ghost var was := data;
      if |offsets| == 1 {
        freed := CutDirect(offsets);
      } else {
        freed := CutShared(offsets);
      }
      var later := FreeLater(offsets, was);
      freed := freed + later;
      CutIsKeepAll(was, data, p, offsets);
    }

    /** The direct pointers from the first block to go on. */
    method CutDirect(offsets: seq<nat>) returns (freed: seq<nat>)
      requires Valid() && IsOffsets(p, offsets) && |offsets| == 1
      modifies this
      ensures Valid() && CutBefore(old(data), data, offsets, NDIR)
      ensures multiset(freed) + BlocksAll(data) == BlocksAll(old(data))
    {
      DirectCut(data, p, offsets);
      data, freed := FreeData(data, offsets[0], NDIR);
    }

    method CutShared(offsets: seq<nat>) returns (freed: seq<nat>)
      requires Valid() && IsOffsets(p, offsets) && |offsets| > 1
      modifies this
      ensures Valid() && CutBefore(old(data), data, offsets, offsets[0] + 1)
      ensures multiset(freed) + BlocksAll(data) == BlocksAll(old(data))
    {
      var cur;
      cur, freed := TruncateBranch(data, offsets, p);
      OneReplaced(data, offsets[0], cur);
      Cancel2(multiset(freed), BlocksAll(data[offsets[0] := cur]), Blocks(cur), Blocks(data[offsets[0]]),
              BlocksAll(data));
      data := data[offsets[0] := cur];
    }

    /** The slots of whole trees after the one cut. */
    method FreeLater(offsets: seq<nat>, ghost was: seq<Branch>) returns (freed: seq<nat>)
      requires Valid() && IsOffsets(p, offsets) && |was| == |data|
      requires CutBefore(was, data, offsets, if offsets[0] < IND then NDIR else offsets[0] + 1)
      modifies this
      ensures Valid() && SlotsCut(was, data, offsets)
      ensures multiset(freed) + BlocksAll(data) == BlocksAll(old(data))
    {
      freed := [];
      var slot := if offsets[0] < IND then IND else offsets[0] + 1;
      ghost var start := data;
      while slot <= TIND
        invariant IND <= slot <= TIND + 1 && Valid() && CutBefore(was, data, offsets, slot)
        invariant multiset(freed) + BlocksAll(data) == BlocksAll(start)
      {
        var f := FreeSlot(slot);
        freed := freed + f;
        slot := slot + 1;
      }
    }

    method FreeSlot(slot: nat) returns (freed: seq<nat>)
      requires Valid() && IND <= slot <= TIND
      modifies this
      ensures Valid() && data == old(data)[slot := Null]
      ensures multiset(freed) + BlocksAll(data) == BlocksAll(old(data))
    {
      Emptied(data, slot);
      freed := FreeWhole(data[slot], SlotHeight(slot), p);
      data := data[slot := Null];
    }
  }

  /** Slots below `n` are as after the cut, the others as before. */
  ghost predicate CutBefore(data: seq<Branch>, data': seq<Branch>, offsets: seq<nat>, n: nat) {
    && 0 < |offsets| && |data'| == |data|
    && forall i | 0 <= i < |data| :: data'[i] == if i < n then SlotCut(data, offsets, i) else data[i]
  }

  lemma DirectCut(data: seq<Branch>, p: nat, offsets: seq<nat>)
    requires InodeOk(data, p) && IsOffsets(p, offsets) && |offsets| == 1
    ensures offsets[0] < NDIR
    ensures var data' := Cleared(data, offsets[0], NDIR);
            && InodeOk(data', p) && CutBefore(data, data', offsets, NDIR)
            && multiset(Numbers(data[offsets[0]..NDIR])) + BlocksAll(data') == BlocksAll(data)
  {
    var lo := offsets[0];
    ClearedBlocks(data, lo, NDIR);
    DirectShaped(data, p, lo);
    NumbersBlocks(data[lo..NDIR]);
    ClearedDirect(data, p, offsets);
  }

  lemma ClearedDirect(data: seq<Branch>, p: nat, offsets: seq<nat>)
    requires InodeOk(data, p) && IsOffsets(p, offsets) && |offsets| == 1
    ensures var data' := Cleared(data, offsets[0], NDIR); InodeOk(data', p) && CutBefore(data, data', offsets, NDIR)
  {
    var data' := Cleared(data, offsets[0], NDIR);
    assert forall h: nat :: Shaped(Null, p, h);
    forall i | 0 <= i <= TIND
      ensures Shaped(data'[i], p, SlotHeight(i)) && data'[i] == if i < NDIR then SlotCut(data, offsets, i) else data[i]
    {
      assert Shaped(data[i], p, SlotHeight(i));
    }
  }

  lemma DirectShaped(data: seq<Branch>, p: nat, lo: nat)
    requires InodeOk(data, p) && lo <= NDIR
    ensures forall i | 0 <= i < NDIR - lo :: data[lo..NDIR][i].Null? || data[lo..NDIR][i].kids == []
  {
    forall i | 0 <= i < NDIR - lo
      ensures data[lo..NDIR][i].Null? || data[lo..NDIR][i].kids == []
    {
      assert Shaped(data[lo + i], p, SlotHeight(lo + i));
    }
  }

  lemma Cancel2(f: multiset<nat>, a: multiset<nat>, c: multiset<nat>, x: multiset<nat>, b: multiset<nat>)
    requires f + c == x && a + x == b + c
    ensures f + a == b
  {
    forall e
      ensures (f + a)[e] == b[e]
    {
      assert (f + c)[e] == x[e] && (a + x)[e] == (b + c)[e];
    }
  }
}
