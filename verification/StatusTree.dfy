/**
 The extent status trees of a file system's inodes and their shrinker (mqfs/extents_status.c).

 A red-black tree is kept as its in-order sequence of extents.  Descents pick an arbitrary node of the
 remaining range at every level, so the results hold for every tree shape; allocation failures and
 failed lock attempts are arbitrary too.  `cache_es` is an index into the sequence.
 */
module StatusTree {
  import opened Common
  import opened StatusExtents

  /** The status-tree part of an inode (i_es_tree, i_es_all_nr, i_es_shk_nr, i_es_shrink_lblk). */
  datatype Inode = Inode(nodes: seq<Extent>, cache: Option<nat>, allNr: nat, shkNr: nat,
                         shrinkLblk: nat, precached: bool)

  ghost predicate CountsOk(t: Inode) {
    && Ordered(t.nodes, 0, MAX_BLOCKS)
    && t.allNr == |t.nodes| && t.shkNr == Reclaimable(t.nodes)
  }

  ghost predicate InodeOk(t: Inode) {
    CountsOk(t) && (t.cache.Some? ==> t.cache.value < |t.nodes|)
  }

  /** Nothing is known that was not, and no delayed block is forgotten. */
  ghost predicate Weaker(es: seq<Extent>, es': seq<Extent>) {
    forall b: int :: Known(es', b) == Known(es, b) || (Known(es', b).None? && !IsDelayed(Known(es, b)))
  }

  // ----- the plain map the tree stands for -----

  /** The last information recorded for every block. */
  type Reference = int -> Option<Info>

  ghost function Blank(): Reference {
    b => None
  }

  ghost function Record(r: Reference, e: Extent): Reference {
    b => if e.Covers(b) then Some(e.At(b)) else r(b)
  }

  ghost function Forget(r: Reference, lo: int, hi: int): Reference {
    b => if lo <= b < hi then None else r(b)
  }

  /** The list knows exactly the last recorded information, except that blocks which are not delayed may be
      missing. */
  ghost predicate Agrees(es: seq<Extent>, r: Reference) {
    forall b: int :: Known(es, b) == r(b) || (Known(es, b).None? && !IsDelayed(r(b)))
  }

  // ----- totals over all inodes -----

  ghost function Total(ts: seq<Inode>): nat {
    if ts == [] then 0 else ts[0].shkNr + Total(ts[1..])
  }

  lemma {:induction false} TotalUpdate(ts: seq<Inode>, k: nat, t: Inode)
    requires k < |ts|
    ensures Total(ts[k := t]) == Total(ts) - ts[k].shkNr + t.shkNr
  {
    if k == 0 {
      assert ts[k := t][1..] == ts[1..];
    } else {
      assert ts[k := t][1..] == ts[1..][k - 1 := t];
      TotalUpdate(ts[1..], k - 1, t);
    }
  }

  // ----- the shrink list -----

  ghost predicate ListOk(list: seq<nat>, ts: seq<Inode>) {
    && (forall i, j | 0 <= i < j < |list| :: list[i] != list[j])
    && (forall k | k in list :: k < |ts|)
    && (forall k | 0 <= k < |ts| :: k in list <==> ts[k].shkNr > 0)
  }

  /** list_del_init */
  function Without(list: seq<nat>, k: nat): seq<nat> {
    if list == [] then [] else if list[0] == k then list[1..] else [list[0]] + Without(list[1..], k)
  }

  lemma {:induction false} WithoutMembers(list: seq<nat>, k: nat)
    requires forall i, j | 0 <= i < j < |list| :: list[i] != list[j]
    ensures forall x :: x in Without(list, k) <==> x in list && x != k
    ensures forall i, j | 0 <= i < j < |Without(list, k)| :: Without(list, k)[i] != Without(list, k)[j]
    ensures |Without(list, k)| == |list| - if k in list then 1 else 0
  {
    if list != [] {
      var tail := list[1..];
      assert list == [list[0]] + tail;
      if list[0] != k {
        WithoutMembers(tail, k);
        var w := Without(tail, k);
        assert list[0] !in tail;
        assert forall j | 0 <= j < |w| :: w[j] in w;
      } else {
        assert k !in tail;
      }
    }
  }

  /** An inode leaves the list when its last reclaimable extent goes. */
  ghost function ListAfter(list: seq<nat>, k: nat, before: nat, now: nat): seq<nat> {
    if now == 0 < before then Without(list, k) else list
  }

  lemma {:induction false} WithoutLast(list: seq<nat>)
    requires list != [] && Apart(list)
    ensures Without(list, list[|list| - 1]) == list[..|list| - 1]
  {
    if |list| > 1 {
      WithoutLast(list[1..]);
      assert list[..|list| - 1] == [list[0]] + list[1..][..|list| - 2];
    }
  }

  // ----- descents -----

  /** __es_tree_search: the extent covering `lblk`, or the next one after it. */
  method TreeSearch(es: seq<Extent>, lblk: nat) returns (r: Option<nat>)
    requires Ordered(es, 0, MAX_BLOCKS)
    ensures r.None? ==> LastEnd(es, 0) <= lblk
    ensures r.Some? ==> r.value < |es| && lblk < es[r.value].End() && LastEnd(es[..r.value], 0) <= lblk
  {
    var lo, hi := 0, |es|;
    var last: Option<nat> := None;
    while lo < hi
      invariant 0 <= lo <= hi <= |es|
      invariant LastEnd(es[..lo], 0) <= lblk && (hi < |es| ==> lblk < es[hi].lblk)
      invariant last.None? ==> lo == 0 && hi == |es|
      invariant last.Some? ==> (last.value == hi < |es|) || (last.value + 1 == lo && es[lo - 1].End() <= lblk)
    {
      var m :| lo <= m < hi;
      last := Some(m);
      if lblk < es[m].lblk {
        hi := m;
      } else if lblk > es[m].End() - 1 {
        lo := m + 1;
      } else {
        Around(es, m, 0, MAX_BLOCKS);
        return Some(m);
      }
    }
    if last.Some? && lblk < es[last.value].lblk {
      r := last;
    } else if last.Some? && lblk > es[last.value].End() - 1 {
      r := if last.value + 1 < |es| then Some(last.value + 1) else None;
      assert es[..|es|] == es;
    } else {
      r := None;
    }
  }

  /** The descent of ext4_es_lookup_extent: the extent that covers the block, if there is one. */
  method Descend(es: seq<Extent>, lblk: nat) returns (at: Option<nat>)
    requires Ordered(es, 0, MAX_BLOCKS)
    ensures at.None? ==> Known(es, lblk).None?
    ensures at.Some? ==> at.value < |es| && es[at.value].Covers(lblk) && Known(es, lblk) == Some(es[at.value].At(lblk))
  {
    var lo, hi := 0, |es|;
    while lo < hi
      invariant 0 <= lo <= hi <= |es|
      invariant LastEnd(es[..lo], 0) <= lblk && (hi < |es| ==> lblk < es[hi].lblk)
    {
      var m :| lo <= m < hi;
      if lblk < es[m].lblk {
        hi := m;
      } else if lblk > es[m].End() - 1 {
        lo := m + 1;
      } else {
        KnownAround(es, m, 0, MAX_BLOCKS, lblk);
        return Some(m);
      }
    }
    Gap(es, lo, lblk, lblk);
    at := None;
  }

  /** From an extent on, the first that is delayed, unless the range ends before it. */
  method NextDelayed(es: seq<Extent>, from: nat, lblk: nat, end: nat) returns (at: Option<nat>)
    requires Ordered(es, 0, MAX_BLOCKS) && from < |es| && lblk < es[from].End() && NoneDelayed(es, lblk, es[from].lblk)
    ensures at.Some? ==> at.value < |es| && es[at.value].st.delayed && lblk < es[at.value].End()
    ensures at.Some? ==> NoneDelayed(es, lblk, es[at.value].lblk) && (at.value == from || es[at.value].lblk <= end)
    ensures at.None? ==> NoneDelayed(es, lblk, end + 1)
  {
    var i := from;
    while !es[i].st.delayed
      invariant 0 <= i < |es| && lblk < es[i].End() && NoneDelayed(es, lblk, es[i].lblk)
      invariant i == from || es[i].lblk <= end
      decreases |es| - i
    {
      NextAfter(es, i, lblk);
      if i + 1 == |es| {
        return None;
      }
      i := i + 1;
      Neighbours(es, i);
      if es[i].lblk > end {
        return None;
      }
    }
    at := Some(i);
  }

  /** Entry `i` is what has become of entry `m`: as it was, or joined with the one before, and then it counts as used if
      either of the two did. */
  ghost predicate OneMark(es: seq<Extent>, es': seq<Extent>, m: nat, i: nat) {
    && m < |es| && i < |es'|
    && if |es'| == |es| then i == m && es' == es
       else 0 < m && (es'[i].referenced <==> es[m - 1].referenced || es[m].referenced)
  }

  // ----- what a scan does to the extents it visits -----

  /** Delayed extents are never dropped, others only if not referenced since the last visit. */
  predicate Survives(e: Extent) { e.st.delayed || e.referenced }

  /** A visit takes the mark off an extent that could be dropped. */
  function Visited(e: Extent): Extent { if e.st.delayed then e else e.(referenced := false) }

  /** What is left of the extents visited. */
  function Aged(es: seq<Extent>): seq<Extent> {
    if es == [] then []
    else Aged(es[..|es| - 1]) + if Survives(es[|es| - 1]) then [Visited(es[|es| - 1])] else []
  }

  /** The indices increase and are those of the extents that survive. */
  ghost predicate Surviving(ps: seq<nat>, es: seq<Extent>) {
    && Rising(ps, |es|)
    && (forall i | 0 <= i < |ps| :: Survives(es[ps[i]]))
    && (forall k | 0 <= k < |es| && Survives(es[k]) :: Hits(ps, k))
  }

  ghost predicate Rising(ps: seq<nat>, n: nat) {
    (forall i, j | 0 <= i < j < |ps| :: ps[i] < ps[j]) && (forall i | 0 <= i < |ps| :: ps[i] < n)
  }

  ghost predicate Hits(ps: seq<nat>, k: nat) { k in ps }

  /** Entry `i` of the second list is what a visit makes of the extent: a delayed one as it was, another without its
      mark. */
  ghost predicate VisitOf(e: Extent, e': Extent) {
    if e.st.delayed then e' == e else e' == e.(referenced := false)
  }

  ghost predicate VisitsOf(es: seq<Extent>, left: seq<Extent>, ps: seq<nat>) {
    |left| == |ps| <= |es| && forall i | 0 <= i < |ps| :: ps[i] < |es| && VisitOf(es[ps[i]], left[i])
  }

  /** Exactly the survivors are left, in order. */
  lemma {:induction false} AgedExactly(es: seq<Extent>) returns (ps: seq<nat>)
    ensures Surviving(ps, es) && VisitsOf(es, Aged(es), ps)
  {
    if es == [] {
      ps := [];
    } else {
      var front := AgedExactly(es[..|es| - 1]);
      ps := OneSurvivor(es, front);
      OneVisit(es, Aged(es[..|es| - 1]), front);
    }
  }

  lemma OneSurvivor(es: seq<Extent>, front: seq<nat>) returns (ps: seq<nat>)
    requires es != [] && Surviving(front, es[..|es| - 1])
    ensures ps == (if Survives(es[|es| - 1]) then front + [|es| - 1] else front) && Surviving(ps, es)
  {
    var m := |es| - 1;
    ps := if Survives(es[m]) then front + [m] else front;
    RisingMore(front, m);
    forall i | 0 <= i < |front|
      ensures Survives(es[front[i]])
    {
      assert es[..m][front[i]] == es[front[i]];
    }
    forall k | 0 <= k < |es| && Survives(es[k])
      ensures Hits(ps, k)
    {
      HitsMore(es, front, ps, k);
    }
  }

  lemma RisingMore(ps: seq<nat>, n: nat)
    requires Rising(ps, n)
    ensures Rising(ps, n + 1) && Rising(ps + [n], n + 1)
  {
  }

  lemma HitsMore(es: seq<Extent>, front: seq<nat>, ps: seq<nat>, k: nat)
    requires es != [] && k < |es| && Survives(es[k])
    requires forall j | 0 <= j < |es[..|es| - 1]| && Survives(es[..|es| - 1][j]) :: Hits(front, j)
    requires ps == if Survives(es[|es| - 1]) then front + [|es| - 1] else front
    ensures Hits(ps, k)
  {
    assert k < |es| - 1 ==> es[..|es| - 1][k] == es[k] && Hits(front, k);
  }

  lemma OneVisit(es: seq<Extent>, left: seq<Extent>, front: seq<nat>)
    requires es != [] && VisitsOf(es[..|es| - 1], left, front)
    ensures var m := |es| - 1;
            if Survives(es[m]) then VisitsOf(es, left + [Visited(es[m])], front + [m])
            else VisitsOf(es, left + [], front)
  {
    assert left + [] == left;
  }

  lemma {:induction false} AgedFewer(es: seq<Extent>, i: nat)
    requires i < |es| && !Survives(es[i])
    ensures |Aged(es)| < |es|
  {
    if i == |es| - 1 {
      AgedLength(es[..i]);
    } else {
      AgedFewer(es[..|es| - 1], i);
    }
  }

  lemma {:induction false} AgedLength(es: seq<Extent>)
    ensures |Aged(es)| <= |es|
  {
    if es != [] {
      AgedLength(es[..|es| - 1]);
    }
  }

  /** A scan from block `cursor` to block `end` visits the extents [from, to): the first that reaches beyond the cursor
      and those after it, as many as the budget allows and start at or before `end`. */
  ghost predicate Window(es: seq<Extent>, cursor: nat, end: nat, budget: int, from: nat, to: nat) {
    && from <= to <= |es|
    && (forall i | 0 <= i < from :: es[i].End() <= cursor)
    && (forall i | from <= i < |es| :: cursor < es[i].End())
    && (forall i | from <= i < to :: es[i].lblk <= end)
    && (to == from || to - from <= budget)
    && (to == |es| || end < es[to].lblk || budget <= to - from)
  }

  ghost predicate Scanned(es: seq<Extent>, es': seq<Extent>, from: nat, to: nat)
    requires from <= to <= |es|
  {
    es' == es[..from] + Aged(es[from..to]) + es[to..]
  }

  lemma ScanOne(es: seq<Extent>, cur: seq<Extent>, from: nat, to: nat)
    requires from <= to < |es| && Scanned(es, cur, from, to)
    ensures var i := from + |Aged(es[from..to])|;
            && i < |cur| && cur[i] == es[to]
            && Scanned(es, if Survives(es[to]) then cur[i := Visited(es[to])] else cur[..i] + cur[i + 1..], from,
                       to + 1)
  {
    var x, a, z := es[..from], Aged(es[from..to]), es[to..];
    var i := from + |a|;
    assert cur == x + a + z && cur[i] == z[0];
    assert es[from..to + 1][..to - from] == es[from..to] && es[from..to + 1][to - from] == es[to];
    assert z[1..] == es[to + 1..];
    assert cur[i := Visited(es[to])] == x + (a + [Visited(es[to])]) + z[1..];
    assert cur[..i] + cur[i + 1..] == x + (a + []) + z[1..];
  }

  lemma SameWeaker(x: seq<Extent>, y: seq<Extent>, z: seq<Extent>)
    requires Weaker(x, y) && SameMap(y, z)
    ensures Weaker(x, z)
  {
  }

  lemma DropWeaker(x: seq<Extent>, y: seq<Extent>, z: seq<Extent>, i: nat)
    requires Weaker(x, y) && Ordered(y, 0, MAX_BLOCKS) && i < |y|
    requires !y[i].st.delayed && Erased(y, z, y[i].lblk, y[i].End())
    ensures Weaker(x, z)
  {
    forall b: int
      ensures Known(z, b) == Known(y, b) || (Known(z, b).None? && !IsDelayed(Known(y, b)))
    {
      KnownAround(y, i, 0, MAX_BLOCKS, b);
    }
    WeakerTransitive(x, y, z);
  }

  lemma AgedSnoc(es: seq<Extent>, from: nat, to: nat)
    requires from <= to < |es|
    ensures |Aged(es[from..to + 1])| == |Aged(es[from..to])| + if Survives(es[to]) then 1 else 0
  {
    assert es[from..to + 1][..to - from] == es[from..to] && es[from..to + 1][to - from] == es[to];
  }

  /** A scan under way: [from, to) has been visited, and extent `to` is now entry `i`. */
  ghost predicate InScan(es: seq<Extent>, cursor: nat, end: nat, budget: int, from: nat, to: nat, nr: int, shrunk: nat,
                         cur: seq<Extent>, i: nat)
  {
    && from <= to <= |es| && Splits(es, cursor, from)
    && (forall j | from <= j < to :: es[j].lblk <= end)
    && nr == budget - (to - from) && (to == from || 0 <= nr)
    && shrunk == (to - from) - |Aged(es[from..to])|
    && Scanned(es, cur, from, to) && i == from + |Aged(es[from..to])|
  }

  lemma ScanStarts(es: seq<Extent>, cursor: nat, end: nat, budget: int, from: nat)
    requires Ordered(es, 0, MAX_BLOCKS) && from <= |es| && LastEnd(es[..from], 0) <= cursor
    requires from < |es| ==> cursor < es[from].End()
    ensures InScan(es, cursor, end, budget, from, from, budget, 0, es, from)
  {
    Reaching(es, cursor, from);
    assert es[from..from] == [] && es[..from] + [] + es[from..] == es;
  }

  /** What a scan comes to. */
  ghost predicate ScanDone(es: seq<Extent>, cursor: nat, end: nat, budget: int, from: nat, to: nat, nr: int,
                           shrunk: nat, es': seq<Extent>, exhausted: bool)
  {
    && Window(es, cursor, end, budget, from, to) && Scanned(es, es', from, to)
    && shrunk == (to - from) - |Aged(es[from..to])|
    && nr == budget - (to - from) && (exhausted <==> nr <= 0 && to < |es|)
  }

  lemma ScanEnds(es: seq<Extent>, cursor: nat, end: nat, budget: int, from: nat, to: nat, nr: int, shrunk: nat,
                 cur: seq<Extent>, i: nat, exhausted: bool)
    requires InScan(es, cursor, end, budget, from, to, nr, shrunk, cur, i)
    requires if exhausted then nr <= 0 && to < |es| else to == |es| || (end < es[to].lblk && 0 < nr)
    ensures ScanDone(es, cursor, end, budget, from, to, nr, shrunk, cur, exhausted)
  {
  }

  lemma AtCursor(es: seq<Extent>, cursor: nat, end: nat, budget: int, from: nat, to: nat, nr: int, shrunk: nat,
                 cur: seq<Extent>, i: nat)
    requires InScan(es, cursor, end, budget, from, to, nr, shrunk, cur, i) && to < |es|
    ensures i < |cur| && cur[i] == es[to] && (i + 1 < |cur| <==> to + 1 < |es|)
  {
    ScanOne(es, cur, from, to);
  }

  lemma ScanMoves(es: seq<Extent>, cursor: nat, end: nat, budget: int, from: nat, to: nat, nr: int, shrunk: nat,
                  cur: seq<Extent>, i: nat, cur': seq<Extent>)
    requires InScan(es, cursor, end, budget, from, to, nr, shrunk, cur, i) && to < |es| && es[to].lblk <= end && 0 < nr
    requires i < |cur| && cur[i] == es[to]
    requires cur' == if Survives(es[to]) then cur[i := Visited(es[to])] else cur[..i] + cur[i + 1..]
    ensures var kept := if Survives(es[to]) then 1 else 0;
            InScan(es, cursor, end, budget, from, to + 1, nr - 1, shrunk + 1 - kept, cur', i + kept)
    ensures i + 1 < |cur| <==> to + 1 < |es|
  {
    ScanOne(es, cur, from, to);
    AgedSnoc(es, from, to);
    assert |cur| == from + |Aged(es[from..to])| + (|es| - to);
  }

  /** The extents before the one found end by the block, the others reach beyond it. */
  lemma Reaching(es: seq<Extent>, cursor: nat, from: nat)
    requires Ordered(es, 0, MAX_BLOCKS) && from <= |es| && LastEnd(es[..from], 0) <= cursor
    requires from < |es| ==> cursor < es[from].End()
    ensures forall i | 0 <= i < from :: es[i].End() <= cursor
    ensures forall i | from <= i < |es| :: cursor < es[i].End()
  {
    forall i | 0 <= i < from
      ensures es[i].End() <= cursor
    {
      EndsGrow(es, i, from - 1);
    }
    forall i | from <= i < |es|
      ensures cursor < es[i].End()
    {
      EndsGrow(es, from, i);
    }
  }

  lemma {:induction false} EndsGrow(es: seq<Extent>, i: nat, j: nat)
    requires Ordered(es, 0, MAX_BLOCKS) && i <= j < |es|
    ensures es[i].End() <= es[j].End() && (i < j ==> es[i].End() <= es[j].lblk)
    decreases j
  {
    if i < j {
      Neighbours(es, j);
      EndsGrow(es, i, j - 1);
    }
  }

  // ----- one inode -----

  /** `from` extents end by the block the scan starts with. */
  ghost predicate Splits(es: seq<Extent>, cursor: nat, from: nat) {
    && from <= |es|
    && (forall i | 0 <= i < from :: es[i].End() <= cursor)
    && (forall i | from <= i < |es| :: cursor < es[i].End())
  }

  /** Extent `i` is among the first `budget` extents from the cursor on and around. */
  ghost predicate InReach(es: seq<Extent>, cursor: nat, budget: int, i: nat) {
    i < |es| && exists from: nat :: ReachFrom(es, cursor, budget, i, from)
  }

  ghost predicate ReachFrom(es: seq<Extent>, cursor: nat, budget: int, i: nat, from: nat) {
    Splits(es, cursor, from) && (if from <= i then i - from else |es| - from + i) < budget
  }

  /** Some extent in reach can be dropped at its first visit. */
  ghost predicate Droppable(t: Inode, budget: int) {
    exists i: nat :: InReach(t.nodes, t.shrinkLblk, budget, i) && !Survives(t.nodes[i])
  }

  /** One scan from the cursor to the end, and if the budget is not spent and the cursor was not at 0 another one
      up to it. */
  ghost predicate Twice(t: Inode, es: seq<Extent>, budget: int, left: int) {
    if t.shkNr == 0 then es == t.nodes && left == budget
    else
      exists mid, from: nat, to: nat :: ScanThen(t, es, budget, left, mid, from, to)
  }

  ghost predicate ScanThen(t: Inode, es: seq<Extent>, budget: int, left: int, mid: seq<Extent>, from: nat, to: nat) {
    && Window(t.nodes, t.shrinkLblk, MAX_BLOCKS, budget, from, to) && Scanned(t.nodes, mid, from, to)
    && if t.shrinkLblk == 0 || (budget <= to - from && to < |t.nodes|) then es == mid && left == budget - (to - from)
       else
         exists from': nat, to': nat ::
           && Window(mid, 0, t.shrinkLblk - 1, budget - (to - from), from', to') && Scanned(mid, es, from', to')
           && left == budget - (to - from) - (to' - from')
  }

  /** What scanning an inode comes to. */
  ghost predicate Reclaimed(t: Inode, t': Inode, budget: int, left: int, shrunk: nat) {
    && t'.precached == t.precached && t'.shkNr + shrunk == t.shkNr && |t'.nodes| + shrunk == |t.nodes|
    && Twice(t, t'.nodes, budget, left)
    && (shrunk == 0 ==> !Droppable(t, budget))
  }

  lemma NothingDroppable(t: Inode, budget: int)
    requires CountsOk(t) && t.shkNr == 0
    ensures !Droppable(t, budget)
  {
    forall i: nat | i < |t.nodes|
      ensures t.nodes[i].st.delayed
    {
      NoneReclaimable(t.nodes, i);
    }
  }

  lemma {:induction false} NoneReclaimable(es: seq<Extent>, i: nat)
    requires Reclaimable(es) == 0 && i < |es|
    ensures es[i].st.delayed
  {
    if i > 0 {
      NoneReclaimable(es[1..], i - 1);
    }
  }

  lemma ScannedLength(es: seq<Extent>, es': seq<Extent>, from: nat, to: nat)
    requires from <= to <= |es| && Scanned(es, es', from, to)
    ensures |es'| == |es| - ((to - from) - |Aged(es[from..to])|)
    ensures es'[..from] == es[..from]
  {
    assert (es[..from] + Aged(es[from..to]) + es[to..])[..from] == es[..from];
  }

  lemma SplitsUnique(es: seq<Extent>, cursor: nat, a: nat, b: nat)
    requires Splits(es, cursor, a) && Splits(es, cursor, b)
    ensures a == b
  {
    assert a < |es| ==> cursor < es[a].End();
    assert b < |es| ==> cursor < es[b].End();
  }

  /** What a first scan that drops nothing has not found. */
  lemma FirstScan(t: Inode, mid: seq<Extent>, budget: int, from: nat, to: nat, exhausted: bool)
    requires CountsOk(t) && t.shkNr > 0 && Window(t.nodes, t.shrinkLblk, MAX_BLOCKS, budget, from, to)
    requires Scanned(t.nodes, mid, from, to) && (exhausted <==> budget <= to - from && to < |t.nodes|)
    ensures !exhausted ==> to == |t.nodes|
    ensures exhausted || t.shrinkLblk == 0 ==> Twice(t, mid, budget, budget - (to - from))
    ensures |Aged(t.nodes[from..to])| == to - from && (exhausted || t.shrinkLblk == 0) ==> !Droppable(t, budget)
    ensures |mid| + ((to - from) - |Aged(t.nodes[from..to])|) == |t.nodes|
  {
    ScannedLength(t.nodes, mid, from, to);
    if to < |t.nodes| {
      Neighbours(t.nodes, to);
    }
    if exhausted || t.shrinkLblk == 0 {
      assert ScanThen(t, mid, budget, budget - (to - from), mid, from, to);
    }
    if |Aged(t.nodes[from..to])| == to - from && (exhausted || t.shrinkLblk == 0) {
      forall i: nat | InReach(t.nodes, t.shrinkLblk, budget, i)
        ensures Survives(t.nodes[i])
      {
        var f: nat :| ReachFrom(t.nodes, t.shrinkLblk, budget, i, f);
        SplitsUnique(t.nodes, t.shrinkLblk, f, from);
        FirstReaches(t.nodes, t.shrinkLblk, budget, from, to, i);
        KeptAll(t.nodes, from, to, i);
      }
    }
  }

  /** Whatever is in reach has been visited by the first scan if that stopped for want of budget or started at 0. */
  lemma FirstReaches(es: seq<Extent>, cursor: nat, budget: int, from: nat, to: nat, i: nat)
    requires Ordered(es, 0, MAX_BLOCKS) && Window(es, cursor, MAX_BLOCKS, budget, from, to) && i < |es|
    requires ReachFrom(es, cursor, budget, i, from) && ((budget <= to - from && to < |es|) || cursor == 0)
    ensures from <= i < to
  {
    if to < |es| {
      Neighbours(es, to);
    }
    if i < from {
      Neighbours(es, i);
    }
  }

  lemma KeptAll(es: seq<Extent>, from: nat, to: nat, i: nat)
    requires from <= i < to <= |es| && |Aged(es[from..to])| == to - from
    ensures Survives(es[i])
  {
    if !Survives(es[i]) {
      AgedFewer(es[from..to], i - from);
    }
  }

  /** What the two scans together have not found if they drop nothing. */
  lemma SecondScan(t: Inode, mid: seq<Extent>, es: seq<Extent>, budget: int, from: nat, to: nat, from': nat, to': nat)
    requires CountsOk(t) && t.shkNr > 0 && t.shrinkLblk != 0 && to == |t.nodes| && Ordered(mid, 0, MAX_BLOCKS)
    requires Window(t.nodes, t.shrinkLblk, MAX_BLOCKS, budget, from, to) && Scanned(t.nodes, mid, from, to)
    requires Window(mid, 0, t.shrinkLblk - 1, budget - (to - from), from', to') && Scanned(mid, es, from', to')
    ensures Twice(t, es, budget, budget - (to - from) - (to' - from'))
    ensures |Aged(t.nodes[from..to])| == to - from && |Aged(mid[from'..to'])| == to' - from' ==> !Droppable(t, budget)
    ensures |es| + ((to - from) - |Aged(t.nodes[from..to])|) + ((to' - from') - |Aged(mid[from'..to'])|) == |t.nodes|
  {
    ScannedLength(t.nodes, mid, from, to);
    ScannedLength(mid, es, from', to');
    assert ScanThen(t, es, budget, budget - (to - from) - (to' - from'), mid, from, to);
    if |Aged(t.nodes[from..to])| == to - from && |Aged(mid[from'..to'])| == to' - from' {
      NothingFound(t, mid, budget, from, from', to');
    }
  }

  lemma NothingFound(t: Inode, mid: seq<Extent>, budget: int, from: nat, from': nat, to': nat)
    requires Ordered(t.nodes, 0, MAX_BLOCKS) && Ordered(mid, 0, MAX_BLOCKS) && from <= |t.nodes| == |mid|
    requires mid[..from] == t.nodes[..from] && 0 < t.shrinkLblk && Splits(t.nodes, t.shrinkLblk, from)
    requires Window(mid, 0, t.shrinkLblk - 1, budget - (|t.nodes| - from), from', to')
    requires |Aged(t.nodes[from..|t.nodes|])| == |t.nodes| - from && |Aged(mid[from'..to'])| == to' - from'
    ensures !Droppable(t, budget)
  {
    forall i: nat | InReach(t.nodes, t.shrinkLblk, budget, i)
      ensures Survives(t.nodes[i])
    {
      var f: nat :| ReachFrom(t.nodes, t.shrinkLblk, budget, i, f);
      SplitsUnique(t.nodes, t.shrinkLblk, f, from);
      SecondKept(t.nodes, mid, t.shrinkLblk, budget, from, from', to', i);
    }
  }

  lemma SecondKept(es: seq<Extent>, mid: seq<Extent>, cursor: nat, budget: int, from: nat, from': nat, to': nat, i: nat)
    requires Ordered(es, 0, MAX_BLOCKS) && Ordered(mid, 0, MAX_BLOCKS) && from <= |es| == |mid| && i < |es|
    requires mid[..from] == es[..from] && 0 < cursor && ReachFrom(es, cursor, budget, i, from)
    requires Window(mid, 0, cursor - 1, budget - (|es| - from), from', to')
    requires |Aged(es[from..|es|])| == |es| - from && |Aged(mid[from'..to'])| == to' - from'
    ensures Survives(es[i])
  {
    if from <= i {
      KeptAll(es, from, |es|, i);
    } else {
      SecondReaches(es, mid, cursor, budget, from, from', to', i);
      KeptAll(mid, from', to', i);
      assert mid[i] == mid[..from][i] == es[i];
    }
  }

  lemma SecondReaches(es: seq<Extent>, mid: seq<Extent>, cursor: nat, budget: int, from: nat, from': nat, to': nat,
                      i: nat)
    requires Ordered(es, 0, MAX_BLOCKS) && Ordered(mid, 0, MAX_BLOCKS) && i < from <= |es| && |mid| == |es|
    requires mid[..from] == es[..from] && Splits(es, cursor, from) && 0 < cursor
    requires Window(mid, 0, cursor - 1, budget - (|es| - from), from', to')
    requires |es| - from + i < budget
    ensures from' <= i < to'
  {
    Neighbours(mid, 0);
    var j := if to' < from then to' else i;
    assert mid[j] == mid[..from][j] == es[j];
    Neighbours(es, j);
  }

  // ----- all inodes -----

  /** Whether the attempts to lock an inode succeed, in the first walk and in the second. */
  datatype Lock = Lock(first: bool, second: bool)

  /** The inode is scanned when it is met: precached ones only in the second walk, never the caller's own. */
  predicate Passes(t: Inode, k: nat, locked: Option<nat>, retried: bool, locks: seq<Lock>)
    requires k < |locks|
  {
    && (retried || !t.precached) && locked != Some(k)
    && if retried then locks[k].second else locks[k].first
  }

  ghost predicate Open(ts: seq<Inode>, k: nat, locked: Option<nat>, retried: bool, locks: seq<Lock>) {
    k < |ts| == |locks| && Passes(ts[k], k, locked, retried, locks)
  }

  /** At most so many extents are visited in the inodes of the list: each twice. */
  ghost function Cost(ts: seq<Inode>, list: seq<nat>, locked: Option<nat>, retried: bool, locks: seq<Lock>): nat {
    if list == [] then 0
    else
      var k := list[|list| - 1];
      Cost(ts, list[..|list| - 1], locked, retried, locks) +
      if Open(ts, k, locked, retried, locks) then 2 * |ts[k].nodes| else 0
  }

  /** How many inodes of the list are passed over. */
  ghost function Closed(ts: seq<Inode>, list: seq<nat>, locked: Option<nat>, retried: bool, locks: seq<Lock>): nat {
    if list == [] then 0
    else
      Closed(ts, list[..|list| - 1], locked, retried, locks) +
      if Open(ts, list[|list| - 1], locked, retried, locks) then 0 else 1
  }

  /** Inode number `q` of the list has something to drop within what the ones before it leave of the budget. */
  ghost predicate Promising(ts: seq<Inode>, list: seq<nat>, locked: Option<nat>, retried: bool, locks: seq<Lock>,
                            budget: int, q: nat)
  {
    && q < |list| && Open(ts, list[q], locked, retried, locks)
    && Droppable(ts[list[q]], budget - Cost(ts, list[..q], locked, retried, locks))
  }

  /** The first walk has something to drop. */
  ghost predicate FreesFirst(ts: seq<Inode>, list: seq<nat>, locked: Option<nat>, locks: seq<Lock>, budget: int) {
    exists q: nat :: Promising(ts, list, locked, false, locks, budget, q)
  }

  /** Inodes passed over are as they were. */
  ghost predicate NotOpen(ts: seq<Inode>, ts': seq<Inode>, locked: Option<nat>, retried: bool, locks: seq<Lock>) {
    |ts'| == |ts| && forall j | 0 <= j < |ts| && !Open(ts, j, locked, retried, locks) :: ts'[j] == ts[j]
  }

  ghost predicate SameSizes(ts: seq<Inode>, ts': seq<Inode>, k: nat) {
    |ts'| == |ts| && forall j | 0 <= j < |ts| && j != k :: |ts'[j].nodes| == |ts[j].nodes|
  }

  /** If nothing was freed there was nothing to drop within the budget: not in an inode open to the first walk, not in
      one open to the second only, and not in the caller's own. */
  ghost predicate AllTried(ts: seq<Inode>, list: seq<nat>, locked: Option<nat>, locks: seq<Lock>, budget: int) {
    && !FreesFirst(ts, list, locked, locks, budget)
    && SecondTried(ts, list, locked, locks, budget) && OwnTried(ts, list, locked, locks, budget)
  }

  ghost predicate SecondTried(ts: seq<Inode>, list: seq<nat>, locked: Option<nat>, locks: seq<Lock>, budget: int) {
    forall q: nat | q < |list| && !Open(ts, list[q], locked, false, locks) ::
      !Promising(ts, list, locked, true, locks, budget - Cost(ts, list, locked, false, locks), q)
  }

  ghost predicate OwnTried(ts: seq<Inode>, list: seq<nat>, locked: Option<nat>, locks: seq<Lock>, budget: int) {
    locked.Some? && locked.value < |ts| ==>
      !Droppable(ts[locked.value], budget - Cost(ts, list, locked, false, locks) - Cost(ts, list, locked, true, locks))
  }

  /** The walk after `w` of the inodes listed: those not met are first on the list and as they were. */
  ghost predicate Walked(ts: seq<Inode>, ts': seq<Inode>, list: seq<nat>, list': seq<nat>, locked: Option<nat>,
                         retried: bool, locks: seq<Lock>, budget: int, left: int, w: nat, shrunk: nat, out: bool)
  {
    && w <= |list| && |ts'| == |ts| == |locks|
    && (!out ==> WalkedList(list, list', w, shrunk == 0) && Unmet(ts, ts', list, w))
    && WalkedInodes(ts, ts', locked, retried, locks, shrunk)
    && WalkedBudget(ts, list, locked, retried, locks, budget, left, w, shrunk)
  }

  ghost predicate WalkedList(list: seq<nat>, list': seq<nat>, w: nat, whole: bool)
    requires w <= |list|
  {
    list[w..] <= list' && (whole ==> list' == list[w..] + list[..w])
  }

  ghost predicate Unmet(ts: seq<Inode>, ts': seq<Inode>, list: seq<nat>, w: nat) {
    forall q | w <= q < |list| :: Untouched(ts, ts', list[q])
  }

  ghost predicate WalkedInodes(ts: seq<Inode>, ts': seq<Inode>, locked: Option<nat>, retried: bool, locks: seq<Lock>,
                               shrunk: nat)
    requires |ts'| == |ts|
  {
    && NotOpen(ts, ts', locked, retried, locks)
    && (forall j | 0 <= j < |ts| :: ts'[j].precached == ts[j].precached)
    && (shrunk == 0 ==> forall j | 0 <= j < |ts| :: |ts'[j].nodes| == |ts[j].nodes|)
  }

  ghost predicate WalkedBudget(ts: seq<Inode>, list: seq<nat>, locked: Option<nat>, retried: bool, locks: seq<Lock>,
                               budget: int, left: int, w: nat, shrunk: nat)
    requires w <= |list|
  {
    && budget <= left + Cost(ts, list[..w], locked, retried, locks)
    && (shrunk == 0 ==> forall q: nat | q < w :: !Promising(ts, list, locked, retried, locks, budget, q))
  }

  lemma WalkStarts(ts: seq<Inode>, list: seq<nat>, locked: Option<nat>, retried: bool, locks: seq<Lock>, budget: int)
    requires |locks| == |ts| && forall k | k in list :: k < |ts|
    ensures Walked(ts, ts, list, list, locked, retried, locks, budget, budget, 0, 0, false)
  {
    forall q | 0 <= q < |list|
      ensures Untouched(ts, ts, list[q])
    {
      assert list[q] in list;
    }
    assert list[0..] == list && list[..0] == [] && list + [] == list;
  }

  ghost predicate Untouched(ts: seq<Inode>, ts': seq<Inode>, k: nat) { k < |ts| == |ts'| && ts'[k] == ts[k] }

  lemma NextMet(ts: seq<Inode>, ts': seq<Inode>, list: seq<nat>, list': seq<nat>, w: nat)
    requires w < |list| && list[w..] <= list'
    ensures list' != [] && list'[0] == list[w]
  {
    assert list[w..][0] == list[w];
  }

  lemma CostNext(ts: seq<Inode>, list: seq<nat>, w: nat, locked: Option<nat>, retried: bool, locks: seq<Lock>)
    requires w < |list|
    ensures Cost(ts, list[..w + 1], locked, retried, locks) ==
            Cost(ts, list[..w], locked, retried, locks) +
            if Open(ts, list[w], locked, retried, locks) then 2 * |ts[list[w]].nodes| else 0
  {
    assert list[..w + 1][..w] == list[..w];
  }

  lemma {:induction false} CostGrows(ts: seq<Inode>, list: seq<nat>, a: nat, b: nat, locked: Option<nat>, retried: bool,
                                     locks: seq<Lock>)
    requires a <= b <= |list|
    ensures Cost(ts, list[..a], locked, retried, locks) <= Cost(ts, list[..b], locked, retried, locks)
    decreases b
  {
    if a < b {
      CostNext(ts, list, b - 1, locked, retried, locks);
      CostGrows(ts, list, a, b - 1, locked, retried, locks);
    }
  }

  lemma {:induction false} CostSame(ts: seq<Inode>, ts': seq<Inode>, list: seq<nat>, locked: Option<nat>, retried: bool,
                                    locks: seq<Lock>)
    requires |ts'| == |ts| && WalkedInodes(ts, ts', locked, false, locks, 0)
    ensures Cost(ts', list, locked, retried, locks) == Cost(ts, list, locked, retried, locks)
  {
    if list != [] {
      var k := list[|list| - 1];
      CostSame(ts, ts', list[..|list| - 1], locked, retried, locks);
    }
  }

  lemma WalkedSkip(ts: seq<Inode>, ts': seq<Inode>, list: seq<nat>, l: seq<nat>, l': seq<nat>, locked: Option<nat>,
                   retried: bool, locks: seq<Lock>, budget: int, left: int, w: nat, shrunk: nat)
    requires Walked(ts, ts', list, l, locked, retried, locks, budget, left, w, shrunk, false) && w < |list|
    requires l != [] && l' == l[1..] + [l[0]] && list[w] < |ts|
             && !Passes(ts'[list[w]], list[w], locked, retried, locks)
    ensures Walked(ts, ts', list, l', locked, retried, locks, budget, left, w + 1, shrunk, false)
  {
    CostNext(ts, list, w, locked, retried, locks);
    RotatedList(list, l, l', w, shrunk == 0);
    assert Untouched(ts, ts', list[w]);
  }

  lemma RotatedList(list: seq<nat>, l: seq<nat>, l': seq<nat>, w: nat, whole: bool)
    requires w < |list| && list[w..] <= l && l' == l[1..] + [l[0]] && (whole ==> l == list[w..] + list[..w])
    ensures list[w + 1..] <= l' && (whole ==> l' == list[w + 1..] + list[..w + 1])
  {
    var a := list[w..];
    assert a[1..] == list[w + 1..] && l[0] == a[0] == list[w] && a[1..] <= l[1..];
    if whole {
      assert l[1..] == a[1..] + list[..w] && list[..w + 1] == list[..w] + [list[w]];
    }
  }

  lemma TailDropped(list: seq<nat>, l: seq<nat>, l': seq<nat>, k: nat, w: nat)
    requires w < |list| && list[w + 1..] <= l && l != [] && l[|l| - 1] == k == list[w]
    requires l' == l || l' == l[..|l| - 1]
    requires Apart(list)
    ensures list[w + 1..] <= l'
  {
    var a := list[w + 1..];
    assert a == [] || a[|a| - 1] == list[|list| - 1] != list[w];
  }

  lemma BudgetSpent(ts: seq<Inode>, ts': seq<Inode>, list: seq<nat>, l: seq<nat>, locked: Option<nat>, retried: bool,
                    locks: seq<Lock>, budget: int, left: int, w: nat, shrunk: nat)
    requires Walked(ts, ts', list, l, locked, retried, locks, budget, left, w, shrunk, false) && left <= 0
    ensures Walked(ts, ts', list, l, locked, retried, locks, budget, left, |list|, shrunk, true)
  {
    CostGrows(ts, list, w, |list|, locked, retried, locks);
    assert list[..|list|] == list;
    if shrunk == 0 {
      forall q: nat | q < |list|
        ensures !Promising(ts, list, locked, retried, locks, budget, q)
      {
        if w <= q {
          CostGrows(ts, list, w, q, locked, retried, locks);
          NoBudget(ts[if list[q] < |ts| then list[q] else 0], budget - Cost(ts, list[..q], locked, retried, locks));
        }
      }
    }
  }

  lemma NoBudget(t: Inode, budget: int)
    requires budget <= 0
    ensures !Droppable(t, budget)
  {
    forall i: nat, from: nat | i < |t.nodes|
      ensures !ReachFrom(t.nodes, t.shrinkLblk, budget, i, from)
    {
    }
  }

  lemma MoreBudget(t: Inode, a: int, b: int)
    requires a <= b && Droppable(t, a)
    ensures Droppable(t, b)
  {
    var i: nat :| InReach(t.nodes, t.shrinkLblk, a, i) && !Survives(t.nodes[i]);
    var from: nat :| ReachFrom(t.nodes, t.shrinkLblk, a, i, from);
    assert ReachFrom(t.nodes, t.shrinkLblk, b, i, from);
  }

  /** At most twice the extents are visited. */
  lemma TwiceCost(t: Inode, es: seq<Extent>, budget: int, left: int)
    requires Twice(t, es, budget, left)
    ensures budget - left <= 2 * |t.nodes|
  {
    if t.shkNr != 0 {
      var mid, from: nat, to: nat :| ScanThen(t, es, budget, left, mid, from, to);
      ScannedLength(t.nodes, mid, from, to);
      AgedLength(t.nodes[from..to]);
    }
  }

  lemma WalkedReclaim(ts: seq<Inode>, us: seq<Inode>, us': seq<Inode>, list: seq<nat>, l: seq<nat>, l': seq<nat>,
                      locked: Option<nat>, retried: bool, locks: seq<Lock>, budget: int, left: int, left': int, w: nat,
                      shrunk: nat, got: nat)
    requires Walked(ts, us, list, l, locked, retried, locks, budget, left, w, shrunk, false) && w < |list|
    requires list[w] < |ts| && Passes(us[list[w]], list[w], locked, retried, locks)
    requires l != [] && l[0] == list[w] && OthersSame(us, us', list[w])
    requires Reclaimed(us[list[w]], us'[list[w]], left, left', got)
    requires l' == ListAfter(l[1..] + [l[0]], list[w], us[list[w]].shkNr, us'[list[w]].shkNr)
    requires Apart(list) && Apart(l)
    ensures Walked(ts, us', list, l', locked, retried, locks, budget, left', w + 1, shrunk + got, false)
  {
    assert Untouched(ts, us, list[w]);
    ReclaimedList(list, l, l', w, us[list[w]].shkNr, us'[list[w]].shkNr, shrunk == 0, got);
    ReclaimedUnmet(ts, us, us', list, w);
    ReclaimedInodes(ts, us, us', locked, retried, locks, shrunk, list[w], got);
    ReclaimedBudget(ts, us'[list[w]], list, locked, retried, locks, budget, left, left', w, shrunk, got);
  }

  ghost predicate Apart(list: seq<nat>) {
    forall i, j | 0 <= i < j < |list| :: list[i] != list[j]
  }

  lemma ReclaimedList(list: seq<nat>, l: seq<nat>, l': seq<nat>, w: nat, before: nat, now: nat, whole: bool, got: nat)
    requires w < |list| && WalkedList(list, l, w, whole) && l != [] && l[0] == list[w] && Apart(list) && Apart(l)
    requires l' == ListAfter(l[1..] + [l[0]], list[w], before, now) && now + got == before
    ensures WalkedList(list, l', w + 1, whole && got == 0)
  {
    var r := l[1..] + [l[0]];
    RotatedList(list, l, r, w, whole);
    WithoutLast(r);
    TailDropped(list, r, l', list[w], w);
  }

  lemma ReclaimedUnmet(ts: seq<Inode>, us: seq<Inode>, us': seq<Inode>, list: seq<nat>, w: nat)
    requires w < |list| && Unmet(ts, us, list, w) && OthersSame(us, us', list[w]) && Apart(list)
    ensures Unmet(ts, us', list, w + 1)
  {
    forall q | w + 1 <= q < |list|
      ensures Untouched(ts, us', list[q])
    {
      assert Untouched(ts, us, list[q]);
    }
  }

  lemma ReclaimedInodes(ts: seq<Inode>, us: seq<Inode>, us': seq<Inode>, locked: Option<nat>, retried: bool,
                        locks: seq<Lock>, shrunk: nat, k: nat, got: nat)
    requires |ts| == |us| && WalkedInodes(ts, us, locked, retried, locks, shrunk) && OthersSame(us, us', k) && k < |us|
    requires us[k] == ts[k] && Open(ts, k, locked, retried, locks)
    requires us'[k].precached == us[k].precached && |us'[k].nodes| + got == |us[k].nodes|
    ensures WalkedInodes(ts, us', locked, retried, locks, shrunk + got)
  {
  }

  lemma ReclaimedBudget(ts: seq<Inode>, t': Inode, list: seq<nat>, locked: Option<nat>, retried: bool, locks: seq<Lock>,
                        budget: int, left: int, left': int, w: nat, shrunk: nat, got: nat)
    requires w < |list| && WalkedBudget(ts, list, locked, retried, locks, budget, left, w, shrunk)
    requires Open(ts, list[w], locked, retried, locks) && Reclaimed(ts[list[w]], t', left, left', got)
    ensures WalkedBudget(ts, list, locked, retried, locks, budget, left', w + 1, shrunk + got)
  {
    var t, cost := ts[list[w]], Cost(ts, list[..w], locked, retried, locks);
    CostNext(ts, list, w, locked, retried, locks);
    TwiceCost(t, t'.nodes, left, left');
    if shrunk + got == 0 && Droppable(t, budget - cost) {
      MoreBudget(t, budget - cost, left);
    }
  }

  lemma SpentFirst(ts: seq<Inode>, list: seq<nat>, locked: Option<nat>, locks: seq<Lock>, budget: int)
    requires budget <= Cost(ts, list, locked, false, locks)
    ensures SecondTried(ts, list, locked, locks, budget) && OwnTried(ts, list, locked, locks, budget)
  {
    var rest := budget - Cost(ts, list, locked, false, locks);
    forall q: nat | q < |list|
      ensures !Promising(ts, list, locked, true, locks, rest, q)
    {
      if list[q] < |ts| {
        NoBudget(ts[list[q]], rest - Cost(ts, list[..q], locked, true, locks));
      }
    }
    if locked.Some? && locked.value < |ts| {
      NoBudget(ts[locked.value], rest - Cost(ts, list, locked, true, locks));
    }
  }

  lemma {:induction false} AllOpen(ts: seq<Inode>, list: seq<nat>, locked: Option<nat>, retried: bool, locks: seq<Lock>,
                                   q: nat)
    requires Closed(ts, list, locked, retried, locks) == 0 && q < |list|
    ensures Open(ts, list[q], locked, retried, locks)
  {
    if q < |list| - 1 {
      AllOpen(ts, list[..|list| - 1], locked, retried, locks, q);
    }
  }

  lemma ClosedNext(ts: seq<Inode>, list: seq<nat>, w: nat, locked: Option<nat>, retried: bool, locks: seq<Lock>)
    requires w < |list|
    ensures Closed(ts, list[..w + 1], locked, retried, locks) ==
            Closed(ts, list[..w], locked, retried, locks) + if Open(ts, list[w], locked, retried, locks) then 0 else 1
  {
    assert list[..w + 1][..w] == list[..w];
  }

  lemma NoneClosed(ts: seq<Inode>, list: seq<nat>, locked: Option<nat>, locks: seq<Lock>, budget: int)
    requires Closed(ts, list, locked, false, locks) == 0
    ensures SecondTried(ts, list, locked, locks, budget)
  {
    forall q: nat | q < |list|
      ensures Open(ts, list[q], locked, false, locks)
    {
      AllOpen(ts, list, locked, false, locks, q);
    }
  }

  lemma SecondWalk(ts: seq<Inode>, mid: seq<Inode>, list: seq<nat>, locked: Option<nat>, locks: seq<Lock>, budget: int,
                   left: int, left': int)
    requires |mid| == |ts| == |locks| && WalkedInodes(ts, mid, locked, false, locks, 0) && list[..|list|] == list
    requires budget <= left + Cost(ts, list, locked, false, locks)
    requires WalkedBudget(mid, list, locked, true, locks, left, left', |list|, 0)
    ensures SecondTried(ts, list, locked, locks, budget)
    ensures budget - Cost(ts, list, locked, false, locks) - Cost(ts, list, locked, true, locks) <= left'
  {
    CostSame(ts, mid, list, locked, true, locks);
    NonePromising(ts, mid, list, locked, locks, budget - Cost(ts, list, locked, false, locks), left);
  }

  lemma NonePromising(ts: seq<Inode>, mid: seq<Inode>, list: seq<nat>, locked: Option<nat>, locks: seq<Lock>, rest: int,
                      left: int)
    requires |mid| == |ts| == |locks| && WalkedInodes(ts, mid, locked, false, locks, 0) && rest <= left
    requires forall q: nat | q < |list| :: !Promising(mid, list, locked, true, locks, left, q)
    ensures forall q: nat | q < |list| && !Open(ts, list[q], locked, false, locks) ::
              !Promising(ts, list, locked, true, locks, rest, q)
  {
    forall q: nat | q < |list| && !Open(ts, list[q], locked, false, locks)
      ensures !Promising(ts, list, locked, true, locks, rest, q)
    {
      NotPromising(ts, mid, list, locked, locks, rest, left, q);
    }
  }

  lemma NotPromising(ts: seq<Inode>, mid: seq<Inode>, list: seq<nat>, locked: Option<nat>, locks: seq<Lock>, rest: int,
                     left: int, q: nat)
    requires |mid| == |ts| == |locks| && WalkedInodes(ts, mid, locked, false, locks, 0) && rest <= left && q < |list|
    requires !Open(ts, list[q], locked, false, locks) && !Promising(mid, list, locked, true, locks, left, q)
    ensures !Promising(ts, list, locked, true, locks, rest, q)
  {
    if Promising(ts, list, locked, true, locks, rest, q) {
      StillPromising(ts, mid, list, locked, locks, rest, left, q);
    }
  }

  lemma StillPromising(ts: seq<Inode>, mid: seq<Inode>, list: seq<nat>, locked: Option<nat>, locks: seq<Lock>,
                       rest: int, left: int, q: nat)
    requires |mid| == |ts| == |locks| && WalkedInodes(ts, mid, locked, false, locks, 0) && rest <= left
    requires Promising(ts, list, locked, true, locks, rest, q) && !Open(ts, list[q], locked, false, locks)
    ensures Promising(mid, list, locked, true, locks, left, q)
  {
    var k, c := list[q], Cost(ts, list[..q], locked, true, locks);
    CostSame(ts, mid, list[..q], locked, true, locks);
    assert mid[k] == ts[k];
    MoreBudget(ts[k], rest - c, left - c);
  }

  lemma OwnScan(ts: seq<Inode>, list: seq<nat>, locked: Option<nat>, locks: seq<Lock>, budget: int, left: int,
                shrunk: nat)
    requires locked.Some? && locked.value < |ts| && (shrunk == 0 ==> !Droppable(ts[locked.value], left))
    requires budget - Cost(ts, list, locked, false, locks) - Cost(ts, list, locked, true, locks) <= left
    ensures shrunk == 0 ==> OwnTried(ts, list, locked, locks, budget)
  {
    var rest := budget - Cost(ts, list, locked, false, locks) - Cost(ts, list, locked, true, locks);
    if shrunk == 0 && Droppable(ts[locked.value], rest) {
      MoreBudget(ts[locked.value], rest, left);
    }
  }

  // ----- when memory is needed, and what it buys -----

  /** Some extent can be joined with the new one. */
  ghost predicate Mergeable(es: seq<Extent>, e: Extent) {
    exists i :: 0 <= i < |es| && (CanMerge(es[i], e) || CanMerge(e, es[i]))
  }

  /** Only the neighbours can be. */
  lemma NotMergeable(es: seq<Extent>, lo: nat, e: Extent)
    requires Ordered(es, 0, MAX_BLOCKS) && e.Valid() && lo <= |es|
    requires LastEnd(es[..lo], 0) <= e.lblk && (lo < |es| ==> e.End() <= es[lo].lblk)
    requires (0 < lo ==> !CanMerge(es[lo - 1], e)) && (lo < |es| ==> !CanMerge(e, es[lo]))
    ensures !Mergeable(es, e)
  {
    forall i | 0 <= i < |es|
      ensures !CanMerge(es[i], e) && !CanMerge(e, es[i])
    {
      Neighbours(es, i);
      if i < lo {
        EndsGrow(es, i, lo - 1);
        Neighbours(es, lo - 1);
      } else {
        EndsGrow(es, lo, i);
        Neighbours(es, lo);
      }
    }
  }

  /** Blocks on both sides of the range are known: it may lie inside one extent. */
  ghost predicate Inner(es: seq<Extent>, lblk: nat, end: int) {
    Known(es, lblk - 1).Some? && Known(es, end + 1).Some?
  }

  lemma InnerThere(es: seq<Extent>, i: nat, lblk: nat, end: nat)
    requires Ordered(es, 0, MAX_BLOCKS) && i < |es| && es[i].lblk < lblk <= end < es[i].End() - 1
    ensures Inner(es, lblk, end)
  {
    KnownAround(es, i, 0, MAX_BLOCKS, lblk - 1);
    KnownAround(es, i, 0, MAX_BLOCKS, end + 1);
  }

  lemma InnerBefore(es: seq<Extent>, es': seq<Extent>, lblk: nat, end: nat)
    requires Weaker(es, es') && Inner(es', lblk, end)
    ensures Inner(es, lblk, end)
  {
  }

  /** Every block of the extent is known as the extent says. */
  ghost predicate OnRecord(es: seq<Extent>, e: Extent) {
    forall b: int | e.Covers(b) :: Known(es, b) == Some(e.At(b))
  }

  lemma SomethingKnown(es: seq<Extent>, i: nat, e: Extent)
    requires Ordered(es, 0, MAX_BLOCKS) && i < |es| && 0 < e.len && e.lblk < es[i].End() && es[i].lblk < e.End()
    ensures !Free(es, e)
  {
    var b := if e.lblk < es[i].lblk then es[i].lblk else e.lblk;
    Neighbours(es, i);
    KnownAround(es, i, 0, MAX_BLOCKS, b);
  }

  /** The extent found counts as used from now on, and nothing else has changed. */
  ghost predicate Touched(es: seq<Extent>, es': seq<Extent>, i: nat, e: Extent) {
    i < |es| && es[i] == e && es' == es[i := e.(referenced := true)]
  }

  class StatusTrees {
    var ino: seq<Inode>
    var list: seq<nat>     // s_es_list
    var nrInode: nat       // s_es_nr_inode
    ghost var ref: seq<Reference> // what was last recorded for every block of every inode

    ghost predicate Listed()
      reads this
    {
      ListOk(list, ino) && nrInode == |list|
    }

    ghost predicate Valid()
      reads this
    {
      Listed() && forall k | 0 <= k < |ino| :: InodeOk(ino[k])
    }

    /** Everything but the named inode is in order. */
    ghost predicate ValidBut(k: nat)
      reads this
    {
      Listed() && forall j | 0 <= j < |ino| && j != k :: InodeOk(ino[j])
    }

    /** The counters of ext4_es_alloc_extent. */
    method CountAlloc(k: nat, delayed: bool)
      requires k < |ino| && Listed()
      modifies `ino, `list, `nrInode
      ensures Listed()
      ensures ino == old(ino)[k := old(ino[k]).(allNr := old(ino[k].allNr) + 1,
                                                shkNr := old(ino[k].shkNr) + if delayed then 0 else 1)]
    {
      if !delayed {
        if ino[k].shkNr == 0 && k !in list {
          list := list + [k];
          nrInode := nrInode + 1;
        }
        ino := ino[k := ino[k].(shkNr := ino[k].shkNr + 1)];
      }
      ino := ino[k := ino[k].(allNr := ino[k].allNr + 1)];
    }

    /** The counters of ext4_es_free_extent. */
    method CountFree(k: nat, delayed: bool)
      requires k < |ino| && Listed() && 0 < ino[k].allNr && (!delayed ==> 0 < ino[k].shkNr)
      modifies `ino, `list, `nrInode
      ensures Listed()
      ensures ino == old(ino)[k := old(ino[k]).(allNr := old(ino[k].allNr) - 1,
                                                shkNr := old(ino[k].shkNr) - if delayed then 0 else 1)]
      ensures list == ListAfter(old(list), k, old(ino[k].shkNr), ino[k].shkNr)
    {
      ino := ino[k := ino[k].(allNr := ino[k].allNr - 1)];
      if !delayed {
        ino := ino[k := ino[k].(shkNr := ino[k].shkNr - 1)];
        if ino[k].shkNr == 0 && k in list {
          WithoutMembers(list, k);
          list := Without(list, k);
          nrInode := nrInode - 1;
        }
      }
    }
  
    /** ext4_es_try_to_merge_left: `i` is where the extent ends up. */
    method MergeLeft(k: nat, m: nat) returns (i: nat)
      requires Valid() && k < |ino| && m < |ino[k].nodes|
      modifies `ino, `list, `nrInode
      ensures Listed() && OthersSame(old(ino), ino, k)
      ensures CountsOk(ino[k]) && i < |ino[k].nodes| && ino[k].shrinkLblk == old(ino[k].shrinkLblk)
      ensures SameMap(old(ino[k].nodes), ino[k].nodes)
      ensures var merges := 0 < m && CanMerge(old(ino[k].nodes)[m - 1], old(ino[k].nodes)[m]);
              |ino[k].nodes| + (if merges then 1 else 0) == |old(ino[k].nodes)|
      ensures OneMark(old(ino[k].nodes), ino[k].nodes, m, i)
    {
      var es := ino[k].nodes;
      i := m;
      if 0 < m && CanMerge(es[m - 1], es[m]) {
        var joint := Merged(es[m - 1], es[m], es[m - 1].referenced || es[m].referenced);
        MergeEffect(es, m - 1, joint.referenced);
        CountFree(k, es[m].st.delayed);
        ino := ino[k := ino[k].(nodes := es[..m - 1] + [joint] + es[m + 1..])];
        i := m - 1;
      }
    }

    /** ext4_es_try_to_merge_right */
    method MergeRight(k: nat, m: nat)
      requires Valid() && k < |ino| && m < |ino[k].nodes|
      modifies `ino, `list, `nrInode
      ensures Listed() && OthersSame(old(ino), ino, k)
      ensures CountsOk(ino[k]) && m < |ino[k].nodes| && ino[k].shrinkLblk == old(ino[k].shrinkLblk)
      ensures SameMap(old(ino[k].nodes), ino[k].nodes)
      ensures var merges := m + 1 < |old(ino[k].nodes)| && CanMerge(old(ino[k].nodes)[m], old(ino[k].nodes)[m + 1]);
              |ino[k].nodes| + (if merges then 1 else 0) == |old(ino[k].nodes)|
      ensures OneMark(old(ino[k].nodes), ino[k].nodes, if |ino[k].nodes| < |old(ino[k].nodes)| then m + 1 else m, m)
    {
      var es := ino[k].nodes;
      if m + 1 < |es| && CanMerge(es[m], es[m + 1]) {
        var joint := Merged(es[m], es[m + 1], es[m].referenced || es[m + 1].referenced);
        MergeEffect(es, m, joint.referenced);
        CountFree(k, es[m + 1].st.delayed);
        ino := ino[k := ino[k].(nodes := es[..m] + [joint] + es[m + 2..])];
      }
    }

    /** What a successful insertion leaves: the new blocks recorded, the cache on a live extent. */
    twostate predicate Recorded(k: nat, newes: Extent)
      requires k < old(|ino|)
      reads this
    {
      && Valid() && OthersSame(old(ino), ino, k)
      && ino[k].shrinkLblk == old(ino[k].shrinkLblk) && ino[k].cache.Some?
      && Inserted(old(ino[k].nodes), ino[k].nodes, newes)
    }

    /** __es_insert_extent, into a range nothing is known about. */
    method InsertCore(k: nat, newes: Extent, memory: bool) returns (oom: bool)
      requires Valid() && k < |ino| && newes.Valid() && Free(ino[k].nodes, newes)
      modifies `ino, `list, `nrInode
      ensures oom ==> Valid() && ino == old(ino) && list == old(list)
      ensures !oom ==> Recorded(k, newes)
      ensures memory || Mergeable(old(ino[k].nodes), newes) ==> !oom
      ensures !oom ==> (|ino[k].nodes| <= |old(ino[k].nodes)| <==> Mergeable(old(ino[k].nodes), newes))
    {
      var es := ino[k].nodes;
      var lo, hi := 0, |es|;
      while lo < hi
        invariant 0 <= lo <= hi <= |es|
        invariant ino == old(ino) && list == old(list) && nrInode == old(nrInode)
        invariant LastEnd(es[..lo], 0) <= newes.lblk && (hi < |es| ==> newes.End() <= es[hi].lblk)
        invariant (0 < lo ==> !CanMerge(es[lo - 1], newes)) && (hi < |es| ==> !CanMerge(newes, es[hi]))
      {
        var m :| lo <= m < hi;
        FreeApart(es, newes, m);
        Neighbours(es, m);
        if newes.lblk < es[m].lblk {
          if CanMerge(newes, es[m]) {
            Prepend(k, m, newes);
            return false;
          }
          hi := m;
        } else {
          if CanMerge(es[m], newes) {
            Append(k, m, newes);
            return false;
          }
          lo := m + 1;
        }
      }
      NotMergeable(es, lo, newes);
      oom := *;
      if memory {
        oom := false;
      }
      if !oom {
        Link(k, lo, newes);
      }
    }

    method Prepend(k: nat, m: nat, newes: Extent)
      requires Valid() && k < |ino| && m < |ino[k].nodes|
      requires newes.Valid() && Free(ino[k].nodes, newes) && CanMerge(newes, ino[k].nodes[m])
      modifies `ino, `list, `nrInode
      ensures Recorded(k, newes) && |ino[k].nodes| <= |old(ino[k].nodes)|
    {
      var e := ino[k].nodes[m];
      Grow(k, m, newes, Prepended(e, newes));
      var i := MergeLeft(k, m);
      ino := ino[k := ino[k].(cache := Some(i))];
    }

    method Append(k: nat, m: nat, newes: Extent)
      requires Valid() && k < |ino| && m < |ino[k].nodes|
      requires newes.Valid() && Free(ino[k].nodes, newes) && CanMerge(ino[k].nodes[m], newes)
      modifies `ino, `list, `nrInode
      ensures Recorded(k, newes) && |ino[k].nodes| <= |old(ino[k].nodes)|
    {
      var e := ino[k].nodes[m];
      Grow(k, m, newes, e.(len := e.len + newes.len));
      MergeRight(k, m);
      ino := ino[k := ino[k].(cache := Some(m))];
    }

    method Link(k: nat, i: nat, newes: Extent)
      requires Valid() && k < |ino| && i <= |ino[k].nodes| && newes.Valid()
      requires LastEnd(ino[k].nodes[..i], 0) <= newes.lblk
      requires i < |ino[k].nodes| ==> newes.End() <= ino[k].nodes[i].lblk
      modifies `ino, `list, `nrInode
      ensures Recorded(k, newes) && |ino[k].nodes| == |old(ino[k].nodes)| + 1
    {
      var es := ino[k].nodes;
      LinkEffect(es, i, newes);
      CountAlloc(k, newes.st.delayed);
      ino := ino[k := ino[k].(nodes := es[..i] + [newes] + es[i..], cache := Some(i))];
    }

    /** Extending extent `m` by the adjacent new one. */
    method Grow(k: nat, m: nat, newes: Extent, g: Extent)
      requires Valid() && k < |ino| && m < |ino[k].nodes|
      requires newes.Valid() && Free(ino[k].nodes, newes) && Grown(ino[k].nodes, m, newes, g)
      modifies `ino, `list, `nrInode
      ensures Valid() && OthersSame(old(ino), ino, k)
      ensures ino[k] == old(ino[k]).(nodes := old(ino[k].nodes)[m := g])
      ensures Inserted(old(ino[k].nodes), ino[k].nodes, newes)
    {
      GrowEffect(ino[k].nodes, m, newes, g);
      ino := ino[k := ino[k].(nodes := ino[k].nodes[m := g])];
    }
  
    // ----- reclaim -----

    /** rb_erase and ext4_es_free_extent */
    method Unlink(k: nat, i: nat)
      requires ValidBut(k) && k < |ino| && CountsOk(ino[k]) && i < |ino[k].nodes|
      modifies `ino, `list, `nrInode
      ensures ValidBut(k) && OthersSame(old(ino), ino, k) && CountsOk(ino[k])
      ensures ino[k].nodes == old(ino[k].nodes)[..i] + old(ino[k].nodes)[i + 1..]
      ensures ino[k].cache == old(ino[k].cache) && ino[k].precached == old(ino[k].precached)
      ensures Erased(old(ino[k].nodes), ino[k].nodes, old(ino[k].nodes[i].lblk), old(ino[k].nodes[i].End()))
      ensures Total(ino) + (if old(ino[k].nodes[i]).st.delayed then 0 else 1) == old(Total(ino))
      ensures list == ListAfter(old(list), k, old(ino[k].shkNr), ino[k].shkNr)
      ensures ino[k].shkNr + (if old(ino[k].nodes[i]).st.delayed then 0 else 1) == old(ino[k].shkNr)
    {
      var es := ino[k].nodes;
      UnlinkEffect(es, i);
      CountFree(k, es[i].st.delayed);
      TotalUpdate(old(ino), k, ino[k]);
      ghost var ts := ino;
      ino := ino[k := ino[k].(nodes := es[..i] + es[i + 1..])];
      TotalUpdate(ts, k, ino[k]);
    }

    /** Changing one extent's referenced flag. */
    method SetReferenced(k: nat, i: nat, on: bool)
      requires ValidBut(k) && k < |ino| && CountsOk(ino[k]) && i < |ino[k].nodes|
      modifies `ino, `list, `nrInode
      ensures ValidBut(k) && OthersSame(old(ino), ino, k) && CountsOk(ino[k])
      ensures ino[k] == old(ino[k]).(nodes := old(ino[k].nodes)[i := old(ino[k].nodes[i]).(referenced := on)])
      ensures SameMap(old(ino[k].nodes), ino[k].nodes) && Total(ino) == old(Total(ino)) && list == old(list)
    {
      var es := ino[k].nodes;
      var e := es[i].(referenced := on);
      Neighbours(es, i);
      ReplaceEffect(es, i, e);
      forall b: int
        ensures Known(es[i := e], b) == Known(es, b)
      {
        KnownAround(es, i, 0, MAX_BLOCKS, b);
      }
      ino := ino[k := ino[k].(nodes := es[i := e])];
      TotalUpdate(old(ino), k, ino[k]);
    }

    /** Inode `k` is being scanned: `shrunk` extents have been dropped since the state given. */
    ghost predicate Reclaiming(k: nat, ts: seq<Inode>, l: seq<nat>, shrunk: nat)
      reads this
    {
      && k < |ts| && ValidBut(k) && OthersSame(ts, ino, k) && CountsOk(ino[k])
      && Weaker(ts[k].nodes, ino[k].nodes) && ino[k].precached == ts[k].precached
      && Total(ino) + shrunk == Total(ts) && ino[k].shkNr + shrunk == ts[k].shkNr
      && list == ListAfter(l, k, ts[k].shkNr, ino[k].shkNr)
    }

    /** One extent under the shrinker's cursor: skipped, aged or reclaimed. */
    method ReclaimOne(k: nat, i: nat, ghost ts: seq<Inode>, ghost l: seq<nat>, ghost shrunk: nat) returns (freed: bool)
      requires Reclaiming(k, ts, l, shrunk) && i < |ino[k].nodes|
      modifies `ino, `list, `nrInode
      ensures Reclaiming(k, ts, l, shrunk + if freed then 1 else 0)
      ensures var es := old(ino[k].nodes);
              && freed == !Survives(es[i])
              && ino[k].nodes == if freed then es[..i] + es[i + 1..] else es[i := Visited(es[i])]
    {
      var e := ino[k].nodes[i];
      ghost var es := ino[k].nodes;
      freed := false;
      if e.st.delayed {
        // fiemap, bigalloc and seek need it
        assert ino[k].nodes[i := e] == ino[k].nodes;
      } else if e.referenced {
        SetReferenced(k, i, false);
        SameWeaker(ts[k].nodes, es, ino[k].nodes);
      } else {
        Unlink(k, i);
        DropWeaker(ts[k].nodes, es, ino[k].nodes, i);
        freed := true;
      }
    }

    /** Where the next scan starts: at the extent not visited for want of budget, behind the range, or from 0 again. */
    ghost function NextCursor(es: seq<Extent>, end: nat, to: nat, exhausted: bool): nat
      requires to <= |es| && (exhausted ==> to < |es|)
    {
      if exhausted then es[to].lblk else if to < |es| then end + 1 else 0
    }

    /** es_do_reclaim_extents: scans from the cursor up to block `end`. */
    method DoReclaim(k: nat, end: nat, nrToScan: int, ghost ts: seq<Inode>, ghost l: seq<nat>, ghost before: nat)
      returns (exhausted: bool, nr: int, shrunk: nat, ghost from: nat, ghost to: nat)
      requires Reclaiming(k, ts, l, before)
      modifies `ino, `list, `nrInode
      ensures Reclaiming(k, ts, l, before + shrunk)
      ensures ScanDone(old(ino[k].nodes), old(ino[k].shrinkLblk), end, nrToScan, from, to, nr, shrunk, ino[k].nodes,
                       exhausted)
      ensures ino[k].shrinkLblk == NextCursor(old(ino[k].nodes), end, to, exhausted)
    {
      ghost var es, cursor := ino[k].nodes, ino[k].shrinkLblk;
      var start := TreeSearch(ino[k].nodes, ino[k].shrinkLblk);
      from := if start.Some? then start.value else |es|;
      assert es[..|es|] == es;
      ScanStarts(es, cursor, end, nrToScan, from);
      if start.None? {
        nr, shrunk, exhausted, to := nrToScan, 0, false, from;
        Stop(k, 0, from, ts, l, before, es, cursor, end, nrToScan, from, to, nr, 0, false);
      } else {
        exhausted, nr, shrunk, to := ScanLoop(k, start.value, end, nrToScan, ts, l, before, cursor);
      }
    }

    method ScanLoop(k: nat, start: nat, end: nat, nrToScan: int, ghost ts: seq<Inode>, ghost l: seq<nat>,
                    ghost before: nat, ghost cursor: nat)
      returns (exhausted: bool, nr: int, shrunk: nat, ghost to: nat)
      requires Reclaiming(k, ts, l, before) && start < |ino[k].nodes|
      requires InScan(ino[k].nodes, cursor, end, nrToScan, start, start, nrToScan, 0, ino[k].nodes, start)
      modifies `ino, `list, `nrInode
      ensures Reclaiming(k, ts, l, before + shrunk)
      ensures ScanDone(old(ino[k].nodes), cursor, end, nrToScan, start, to, nr, shrunk, ino[k].nodes, exhausted)
      ensures ino[k].shrinkLblk == NextCursor(old(ino[k].nodes), end, to, exhausted)
    {
      ghost var es := ino[k].nodes;
      nr, shrunk, to := nrToScan, 0, start;
      var i: nat, beyond, more := start, false, true;
      while nr > 0 && !beyond && more
        invariant Scanning(k, i, beyond, more, end, ts, l, before, es, cursor, nrToScan, start, to, nr, shrunk)
        decreases nr, !beyond
      {
        i, beyond, more, nr, shrunk, to :=
          Turn(k, i, end, ts, l, before, es, cursor, nrToScan, start, to, nr, shrunk);
      }
      exhausted := FinishScan(k, i, beyond, more, end, ts, l, before, es, cursor, nrToScan, start, to, nr, shrunk);
    }

    /** A scan between two rounds. */
    ghost predicate Scanning(k: nat, i: nat, beyond: bool, more: bool, end: nat, ts: seq<Inode>, l: seq<nat>,
                             before: nat, es: seq<Extent>, cursor: nat, budget: int, from: nat, to: nat, nr: int,
                             shrunk: nat)
      reads this
    {
      && Reclaiming(k, ts, l, before + shrunk)
      && InScan(es, cursor, end, budget, from, to, nr, shrunk, ino[k].nodes, i)
      && (more <==> to < |es|) && (beyond ==> more && end < es[to].lblk && 0 < nr)
    }

    /** A round, and what the scan has left to do after it. */
    method Turn(k: nat, i: nat, end: nat, ghost ts: seq<Inode>, ghost l: seq<nat>, ghost before: nat,
                ghost es: seq<Extent>, ghost cursor: nat, ghost budget: int, ghost from: nat, ghost to: nat, nr: int,
                shrunk: nat)
      returns (i': nat, beyond: bool, more: bool, nr': int, shrunk': nat, ghost to': nat)
      requires Scanning(k, i, false, true, end, ts, l, before, es, cursor, budget, from, to, nr, shrunk) && 0 < nr
      modifies `ino, `list, `nrInode
      ensures Scanning(k, i', beyond, more, end, ts, l, before, es, cursor, budget, from, to', nr', shrunk')
      ensures nr' == if beyond then nr else nr - 1
    {
      var freed;
      i', nr', shrunk', to' := i, nr, shrunk, to;
      beyond, freed, more := Round(k, i, end, ts, l, before, es, cursor, budget, from, to, nr, shrunk);
      if beyond {
        more := true;
      } else {
        nr', to' := nr - 1, to + 1;
        if freed {
          shrunk' := shrunk + 1;
        } else {
          i' := i + 1;
        }
      }
    }

    /** Where the cursor goes at the end of a scan. */
    method FinishScan(k: nat, i: nat, beyond: bool, more: bool, end: nat, ghost ts: seq<Inode>, ghost l: seq<nat>,
                      ghost before: nat, ghost es: seq<Extent>, ghost cursor: nat, ghost budget: int, ghost from: nat,
                      ghost to: nat, ghost nr: int, ghost shrunk: nat)
      returns (exhausted: bool)
      requires Scanning(k, i, beyond, more, end, ts, l, before, es, cursor, budget, from, to, nr, shrunk)
      requires nr <= 0 || beyond || !more
      modifies `ino
      ensures Reclaiming(k, ts, l, before + shrunk)
      ensures ScanDone(es, cursor, end, budget, from, to, nr, shrunk, ino[k].nodes, exhausted)
      ensures ino[k].shrinkLblk == NextCursor(es, end, to, exhausted)
    {
      exhausted := !beyond && more;
      var lblk := if beyond then end + 1 else 0;
      if exhausted {
        AtCursor(es, cursor, end, budget, from, to, nr, shrunk, ino[k].nodes, i);
        lblk := ino[k].nodes[i].lblk;
      }
      Stop(k, lblk, i, ts, l, before, es, cursor, end, budget, from, to, nr, shrunk, exhausted);
    }

    /** One round of the scan: an extent beyond the range ends it, any other is visited. */
    method Round(k: nat, i: nat, end: nat, ghost ts: seq<Inode>, ghost l: seq<nat>, ghost before: nat,
                 ghost es: seq<Extent>, ghost cursor: nat, ghost budget: int, ghost from: nat, ghost to: nat,
                 ghost nr: int, ghost shrunk: nat)
      returns (beyond: bool, freed: bool, more: bool)
      requires Reclaiming(k, ts, l, before + shrunk) && to < |es| && 0 < nr
      requires InScan(es, cursor, end, budget, from, to, nr, shrunk, ino[k].nodes, i)
      modifies `ino, `list, `nrInode
      ensures beyond <==> end < es[to].lblk
      ensures beyond ==> ino == old(ino) && list == old(list) && nrInode == old(nrInode)
      ensures !beyond ==> Reclaiming(k, ts, l, before + shrunk + if freed then 1 else 0) && (more <==> to + 1 < |es|)
      ensures !beyond ==> InScan(es, cursor, end, budget, from, to + 1, nr - 1, shrunk + (if freed then 1 else 0),
                                 ino[k].nodes, if freed then i else i + 1)
    {
      AtCursor(es, cursor, end, budget, from, to, nr, shrunk, ino[k].nodes, i);
      more := i + 1 < |ino[k].nodes|;
      beyond, freed := ino[k].nodes[i].lblk > end, false;
      if !beyond {
        freed := Visit(k, i, ts, l, before, es, cursor, end, budget, from, to, nr, shrunk);
      }
    }

    /** The end of a scan: only the cursor moves. */
    method Stop(k: nat, lblk: nat, ghost i: nat, ghost ts: seq<Inode>, ghost l: seq<nat>, ghost before: nat,
                ghost es: seq<Extent>, ghost cursor: nat, ghost end: nat, ghost budget: int, ghost from: nat,
                ghost to: nat, ghost nr: int, ghost shrunk: nat, ghost exhausted: bool)
      requires Reclaiming(k, ts, l, before + shrunk)
      requires InScan(es, cursor, end, budget, from, to, nr, shrunk, ino[k].nodes, i)
      requires if exhausted then nr <= 0 && to < |es| else to == |es| || (end < es[to].lblk && 0 < nr)
      requires lblk == NextCursor(es, end, to, exhausted)
      modifies `ino
      ensures Reclaiming(k, ts, l, before + shrunk) && ino[k].shrinkLblk == lblk
      ensures ScanDone(es, cursor, end, budget, from, to, nr, shrunk, ino[k].nodes, exhausted)
    {
      ScanEnds(es, cursor, end, budget, from, to, nr, shrunk, ino[k].nodes, i, exhausted);
      MoveCursor(k, lblk, ts, l, before + shrunk);
    }

    /** The extent under the cursor. */
    method Visit(k: nat, i: nat, ghost ts: seq<Inode>, ghost l: seq<nat>, ghost before: nat, ghost es: seq<Extent>,
                 ghost cursor: nat, ghost end: nat, ghost budget: int, ghost from: nat, ghost to: nat, ghost nr: int,
                 ghost shrunk: nat)
      returns (freed: bool)
      requires Reclaiming(k, ts, l, before + shrunk) && to < |es| && es[to].lblk <= end && 0 < nr
      requires InScan(es, cursor, end, budget, from, to, nr, shrunk, ino[k].nodes, i)
      modifies `ino, `list, `nrInode
      ensures Reclaiming(k, ts, l, before + shrunk + if freed then 1 else 0)
      ensures InScan(es, cursor, end, budget, from, to + 1, nr - 1, shrunk + (if freed then 1 else 0), ino[k].nodes,
                     if freed then i else i + 1)
    {
      ghost var cur := ino[k].nodes;
      AtCursor(es, cursor, end, budget, from, to, nr, shrunk, cur, i);
      freed := ReclaimOne(k, i, ts, l, before + shrunk);
      ScanMoves(es, cursor, end, budget, from, to, nr, shrunk, cur, i, ino[k].nodes);
    }

    method MoveCursor(k: nat, lblk: nat, ghost ts: seq<Inode>, ghost l: seq<nat>, ghost shrunk: nat)
      requires Reclaiming(k, ts, l, shrunk)
      modifies `ino
      ensures Reclaiming(k, ts, l, shrunk) && ino[k] == old(ino[k]).(shrinkLblk := lblk)
    {
      ghost var us := ino;
      ino := ino[k := ino[k].(shrinkLblk := lblk)];
      TotalUpdate(us, k, ino[k]);
    }

    /** es_reclaim_extents */
    method Reclaim(k: nat, nrToScan: int) returns (nr: int, shrunk: nat)
      requires Valid() && k < |ino|
      modifies `ino, `list, `nrInode
      ensures Valid() && OthersSame(old(ino), ino, k)
      ensures Weaker(old(ino[k].nodes), ino[k].nodes) && Total(ino) + shrunk == old(Total(ino))
      ensures Reclaimed(old(ino[k]), ino[k], nrToScan, nr, shrunk)
      ensures list == ListAfter(old(list), k, old(ino[k].shkNr), ino[k].shkNr)
    {
      nr, shrunk := nrToScan, 0;
      ghost var was := ino[k];
      if ino[k].shkNr == 0 {
        NothingDroppable(was, nrToScan);
        return;
      }
      nr, shrunk := ScanTwice(k, nrToScan);
      ghost var ts := ino;
      ino := ino[k := ino[k].(cache := None)];
      TotalUpdate(ts, k, ino[k]);
    }

    /** The two scans of es_reclaim_extents. */
    method ScanTwice(k: nat, nrToScan: int) returns (nr: int, shrunk: nat)
      requires Valid() && k < |ino| && ino[k].shkNr > 0
      modifies `ino, `list, `nrInode
      ensures Reclaiming(k, old(ino), old(list), shrunk)
      ensures Reclaimed(old(ino[k]), ino[k], nrToScan, nr, shrunk)
    {
      ghost var was := ino[k];
      var start := ino[k].shrinkLblk;
      var exhausted;
      ghost var from, to;
      exhausted, nr, shrunk, from, to := DoReclaim(k, MAX_BLOCKS, nrToScan, old(ino), old(list), 0);
      ghost var mid := ino[k].nodes;
      FirstScan(was, mid, nrToScan, from, to, exhausted);
      if !exhausted && start != 0 {
        var more;
        ghost var from', to';
        exhausted, nr, more, from', to' := DoReclaim(k, start - 1, nr, old(ino), old(list), shrunk);
        SecondScan(was, mid, ino[k].nodes, nrToScan, from, to, from', to');
        shrunk := shrunk + more;
      }
    }

    /** list_move_tail of the first inode on the shrink list. */
    method Rotate() returns (k: nat)
      requires Valid() && list != []
      modifies `list
      ensures Valid() && k < |ino| && k == old(list)[0] && list == old(list)[1..] + [k]
    {
      k := list[0];
      var tail := list[1..];
      assert list == [k] + tail;
      assert k in list && forall x :: x in tail + [k] <==> x in list;
      list := tail + [k];
    }

    /** __es_shrink: reclaims from the inodes on the list, and from the caller's own only as a last resort.  `locks`
        says for which inodes the attempt to lock succeeds. */
    method Shrink(nrToScan: int, locked: Option<nat>, locks: seq<Lock>) returns (nrShrunk: nat)
      requires Valid() && (locked.Some? ==> locked.value < |ino|) && |locks| == |ino|
      modifies `ino, `list, `nrInode
      ensures Valid() && AllWeaker(old(ino), ino)
      ensures Total(ino) + nrShrunk == old(Total(ino))
      ensures nrShrunk == 0 ==> AllTried(old(ino), old(list), locked, locks, nrToScan)
      ensures FreesFirst(old(ino), old(list), locked, locks, nrToScan) ==> NotOpen(old(ino), ino, locked, false, locks)
      ensures locked.Some? && ino[locked.value] != old(ino)[locked.value] ==> SameSizes(old(ino), ino, locked.value)
    {
      var out, nr, skipped;
      out, nr, nrShrunk, skipped := Walk(nrToScan, locked, false, locks, old(ino));
      assert old(list)[..|old(list)|] == old(list);
      if out {
        if nrShrunk == 0 {
          SpentFirst(old(ino), old(list), locked, locks, nrToScan);
        }
      } else if nrShrunk == 0 {
        nrShrunk := LastResort(nr, locked, locks, skipped, old(ino), old(list), nrToScan);
      }
    }

    /** After a first walk that freed nothing: another over the list if any inode was passed over, and then the caller's
        own. */
    method LastResort(left: int, locked: Option<nat>, locks: seq<Lock>, skipped: nat, ghost ts: seq<Inode>,
                      ghost l: seq<nat>, ghost budget: int)
      returns (nrShrunk: nat)
      requires Valid() && AllWeaker(ts, ino) && (locked.Some? ==> locked.value < |ino|) && |locks| == |ino|
      requires Walked(ts, ino, l, list, locked, false, locks, budget, left, |l|, 0, false)
      requires skipped == Closed(ts, l, locked, false, locks)
      modifies `ino, `list, `nrInode
      ensures Valid() && AllWeaker(ts, ino) && |ino| == |old(ino)|
      ensures Total(ino) + nrShrunk == old(Total(ino))
      ensures nrShrunk == 0 ==> SecondTried(ts, l, locked, locks, budget) && OwnTried(ts, l, locked, locks, budget)
      ensures locked.Some? && ino[locked.value] != ts[locked.value] ==> SameSizes(ts, ino, locked.value)
    {
      ghost var total := Total(ino);
      var out, nr := false, left;
      nrShrunk := 0;
      assert l[..|l|] == l && l[|l|..] == [] && [] + l == l;
      if skipped > 0 {
        out, nr, nrShrunk := SecondPass(left, locked, locks, ts, l, budget);
      } else {
        NoneClosed(ts, l, locked, locks, budget);
      }
      if nrShrunk == 0 && locked.Some? {
        if out {
          NoBudget(ts[locked.value], budget - Cost(ts, l, locked, false, locks) - Cost(ts, l, locked, true, locks));
        } else {
          nrShrunk := OwnPass(nr, locked.value, locks, ts, l, budget);
        }
      }
    }

    method SecondPass(left: int, locked: Option<nat>, locks: seq<Lock>, ghost ts: seq<Inode>, ghost l: seq<nat>,
                      ghost budget: int)
      returns (out: bool, nr: int, nrShrunk: nat)
      requires Valid() && AllWeaker(ts, ino) && |locks| == |ino| && list == l && l[..|l|] == l
      requires WalkedInodes(ts, ino, locked, false, locks, 0)
      requires WalkedBudget(ts, l, locked, false, locks, budget, left, |l|, 0)
      modifies `ino, `list, `nrInode
      ensures Valid() && AllWeaker(ts, ino) && |ino| == |old(ino)|
      ensures Total(ino) + nrShrunk == old(Total(ino)) && (out ==> nr <= 0)
      ensures nrShrunk == 0 ==> SecondTried(ts, l, locked, locks, budget)
      ensures nrShrunk == 0 ==>
                budget - Cost(ts, l, locked, false, locks) - Cost(ts, l, locked, true, locks) <= nr
      ensures nrShrunk == 0 ==> forall j | 0 <= j < |ts| :: |ino[j].nodes| == |ts[j].nodes|
      ensures locked.Some? && locked.value < |ts| ==> ino[locked.value] == ts[locked.value]
    {
      ghost var mid := ino;
      var skipped;
      out, nr, nrShrunk, skipped := Walk(left, locked, true, locks, ts);
      if nrShrunk == 0 {
        SecondWalk(ts, mid, l, locked, locks, budget, left, nr);
      }
    }

    method OwnPass(left: int, k: nat, locks: seq<Lock>, ghost ts: seq<Inode>, ghost l: seq<nat>, ghost budget: int)
      returns (nrShrunk: nat)
      requires Valid() && AllWeaker(ts, ino) && k < |ino| && ino[k] == ts[k]
      requires forall j | 0 <= j < |ts| :: |ino[j].nodes| == |ts[j].nodes|
      requires budget - Cost(ts, l, Some(k), false, locks) - Cost(ts, l, Some(k), true, locks) <= left
      modifies `ino, `list, `nrInode
      ensures Valid() && AllWeaker(ts, ino) && |ino| == |old(ino)|
      ensures Total(ino) + nrShrunk == old(Total(ino)) && SameSizes(ts, ino, k)
      ensures nrShrunk == 0 ==> OwnTried(ts, l, Some(k), locks, budget)
    {
      ghost var us := ino;
      var nr;
      nr, nrShrunk := Reclaim(k, left);
      StepAllWeaker(ts, us, ino, k);
      OwnScan(ts, l, Some(k), locks, budget, left, nrShrunk);
    }

    /** Any attempt to lock may fail. */
    method SomeLocks() returns (locks: seq<Lock>)
      ensures |locks| == |ino|
    {
      locks := *;
      if |locks| != |ino| {
        locks := seq(|ino|, _ => Lock(false, false));
      }
    }

    /** A walk over the shrink list that has met `w` inodes. */
    ghost predicate Walking(from: seq<Inode>, ts: seq<Inode>, l: seq<nat>, locked: Option<nat>, retried: bool,
                            locks: seq<Lock>, budget: int, left: int, w: nat, shrunk: nat)
      reads this
    {
      && Valid() && AllWeaker(from, ino) && Apart(l)
      && Total(ino) + shrunk == Total(ts)
      && Walked(ts, ino, l, list, locked, retried, locks, budget, left, w, shrunk, false)
    }

    /** One walk over the shrink list; `out` when the scan budget ran out.  Every inode listed is met once: those met go
        to the end of the list or leave it. */
    method Walk(nrToScan: int, locked: Option<nat>, retried: bool, locks: seq<Lock>, ghost from: seq<Inode>)
      returns (out: bool, nr: int, shrunk: nat, skipped: nat)
      requires Valid() && AllWeaker(from, ino) && |locks| == |ino|
      modifies `ino, `list, `nrInode
      ensures Valid() && AllWeaker(from, ino) && |ino| == old(|ino|)
      ensures Total(ino) + shrunk == old(Total(ino))
      ensures Walked(old(ino), ino, old(list), list, locked, retried, locks, nrToScan, nr, |old(list)|, shrunk, out)
      ensures out ==> nr <= 0
      ensures !out ==> skipped == Closed(old(ino), old(list), locked, retried, locks)
    {
      ghost var ts, l, w := ino, list, 0;
      var walk := nrInode;
      out, nr, shrunk, skipped := false, nrToScan, 0, 0;
      WalkStarts(ts, l, locked, retried, locks, nrToScan);
      while walk > 0
        invariant Walking(from, ts, l, locked, retried, locks, nrToScan, nr, w, shrunk) && w + walk == |l|
        invariant skipped == Closed(ts, l[..w], locked, retried, locks)
        decreases walk
      {
        walk := walk - 1;
        var got, met;
        nr, got, met := Meet(nr, locked, retried, locks, from, ts, l, nrToScan, w, shrunk);
        ClosedNext(ts, l, w, locked, retried, locks);
        w := w + 1;
        shrunk := shrunk + got;
        if met {
          if nr <= 0 {
            out := true;
            BudgetSpent(ts, ino, l, list, locked, retried, locks, nrToScan, nr, w, shrunk);
            return;
          }
        } else {
          skipped := skipped + 1;
        }
      }
      assert l[..w] == l;
    }

    /** The next inode: passed over or scanned.  The list is never empty here, as no other thread changes it. */
    method Meet(nr: int, locked: Option<nat>, retried: bool, locks: seq<Lock>, ghost from: seq<Inode>,
                ghost ts: seq<Inode>, ghost l: seq<nat>, ghost budget: int, ghost w: nat, ghost shrunk: nat)
      returns (nr': int, got: nat, met: bool)
      requires Walking(from, ts, l, locked, retried, locks, budget, nr, w, shrunk) && w < |l|
      modifies `ino, `list, `nrInode
      ensures Walking(from, ts, l, locked, retried, locks, budget, nr', w + 1, shrunk + got)
      ensures met == Open(ts, l[w], locked, retried, locks) && (!met ==> got == 0 && nr' == nr)
    {
      NextMet(ts, ino, l, list, w);
      ghost var us, was := ino, list;
      assert Untouched(ts, us, l[w]);
      var k := Rotate();
      nr', got, met := nr, 0, false;
      if Passes(ino[k], k, locked, retried, locks) {
        met := true;
        nr', got := Reclaim(k, nr);
        StepAllWeaker(from, us, ino, k);
        WalkedReclaim(ts, us, ino, l, was, list, locked, retried, locks, budget, nr, nr', w, shrunk, got);
      } else {
        WalkedSkip(ts, ino, l, was, list, locked, retried, locks, budget, nr, w, shrunk);
      }
    }
  
    // ----- removal -----

    /** Only blocks of [lblk, end] may have been forgotten, in inode `k` alone. */
    twostate predicate ChippedOnly(k: nat, lblk: nat, end: nat)
      requires k < old(|ino|)
      reads this
    {
      Valid() && OthersSame(old(ino), ino, k) && Chipped(old(ino[k].nodes), ino[k].nodes, lblk, end + 1)
    }

    /** Shortening extent `i` to a part of itself. */
    method Shorten(k: nat, i: nat, e: Extent, lblk: nat, end: nat)
      requires Valid() && k < |ino| && i < |ino[k].nodes| && ino[k].cache.None?
      requires lblk <= end && PartOf(e, ino[k].nodes[i], lblk, end)
      modifies `ino, `list, `nrInode
      ensures ChippedOnly(k, lblk, end) && ino[k] == old(ino[k]).(nodes := old(ino[k].nodes)[i := e])
    {
      var es := ino[k].nodes;
      Neighbours(es, i);
      PartValid(e, es[i], lblk, end);
      ReplaceEffect(es, i, e);
      forall b: int
        ensures Known(es[i := e], b) == Known(es, b) || (lblk <= b <= end && Known(es[i := e], b).None?)
      {
        KnownAround(es, i, 0, MAX_BLOCKS, b);
      }
      ino := ino[k := ino[k].(nodes := es[i := e])];
    }

    /** The range lies strictly inside extent `i`: its tail becomes an extent of its own. */
    method SplitMiddle(k: nat, i: nat, lblk: nat, end: nat, memory: bool) returns (oom: bool)
      requires Valid() && k < |ino| && i < |ino[k].nodes| && ino[k].cache.None?
      requires ino[k].nodes[i].lblk < lblk <= end < ino[k].nodes[i].End() - 1
      modifies `ino, `list, `nrInode
      ensures Valid() && OthersSame(old(ino), ino, k)
      ensures oom ==> ino == old(ino) && !memory
      ensures !oom ==> Erased(old(ino[k].nodes), ino[k].nodes, lblk, end + 1)
    {
      var es, orig := ino[k].nodes, ino[k].nodes[i];
      var tail := SplitTail(orig, end + 1);
      SplitEffect(es, i, lblk, end);
      ino := ino[k := ino[k].(nodes := es[i := KeepBelow(orig, lblk)])];
      ghost var mid := ino[k].nodes;
      oom := InsertCore(k, tail, memory);
      if oom {
        ino := ino[k := ino[k].(nodes := ino[k].nodes[i := orig])];
        assert es[i := KeepBelow(orig, lblk)][i := orig] == es;
      } else {
        assert Inserted(mid, ino[k].nodes, tail);
      }
    }

    /** The range reaches the end of extent `i` or beyond it. */
    method RemoveSpan(k: nat, first: nat, lblk: nat, end: nat)
      requires Valid() && k < |ino| && first < |ino[k].nodes| && ino[k].cache.None?
      requires lblk <= end && lblk < ino[k].nodes[first].End() <= end + 1
      requires LastEnd(ino[k].nodes[..first], 0) <= lblk
      modifies `ino, `list, `nrInode
      ensures Valid() && OthersSame(old(ino), ino, k)
      ensures Erased(old(ino[k].nodes), ino[k].nodes, lblk, end + 1)
    {
      var i := first;
      Neighbours(ino[k].nodes, i);
      if lblk > ino[k].nodes[i].lblk {
        Shorten(k, i, KeepBelow(ino[k].nodes[i], lblk), lblk, end);
        assert ino[k].nodes[..i + 1][i] == ino[k].nodes[i];
        i := i + 1;
      }
      ghost var mid := ino[k].nodes;
      EraseWhole(k, i, lblk, end);
      ChippedTransitive(old(ino[k].nodes), mid, ino[k].nodes, lblk, end + 1);
      if i < |ino[k].nodes| && ino[k].nodes[i].lblk < end + 1 {
        ghost var es := ino[k].nodes;
        Shorten(k, i, KeepFrom(ino[k].nodes[i], end + 1), lblk, end);
        ChippedTransitive(old(ino[k].nodes), es, ino[k].nodes, lblk, end + 1);
      }
      Gap(ino[k].nodes, i, lblk, end);
    }
  
    /** The extents from `i` on that end within the range go. */
    method EraseWhole(k: nat, i: nat, lblk: nat, end: nat)
      requires Valid() && k < |ino| && ino[k].cache.None? && i <= |ino[k].nodes|
      requires LastEnd(ino[k].nodes[..i], 0) <= lblk <= end && (i < |ino[k].nodes| ==> lblk <= ino[k].nodes[i].lblk)
      modifies `ino, `list, `nrInode
      ensures ChippedOnly(k, lblk, end) && ino[k].cache.None? && i <= |ino[k].nodes|
      ensures LastEnd(ino[k].nodes[..i], 0) <= lblk && (i < |ino[k].nodes| ==> lblk <= ino[k].nodes[i].lblk)
      ensures i < |ino[k].nodes| ==> end < ino[k].nodes[i].End() - 1
    {
      while i < |ino[k].nodes| && ino[k].nodes[i].End() - 1 <= end
        invariant ChippedOnly(k, lblk, end) && ino[k].cache.None?
        invariant i <= |ino[k].nodes| && LastEnd(ino[k].nodes[..i], 0) <= lblk
        invariant i < |ino[k].nodes| ==> lblk <= ino[k].nodes[i].lblk
        decreases |ino[k].nodes|
      {
        ghost var es := ino[k].nodes;
        Neighbours(es, i);
        Unlink(k, i);
        assert ino[k].nodes[..i] == es[..i];
        assert i < |ino[k].nodes| ==> ino[k].nodes[i] == es[i + 1];
        ChippedTransitive(old(ino[k].nodes), es, ino[k].nodes, lblk, end + 1);
      }
    }

    /** One attempt of __es_remove_extent; a failed one leaves the list of extents as it was. */
    method TryRemove(k: nat, lblk: nat, end: nat, memory: bool) returns (oom: bool)
      requires Valid() && k < |ino| && lblk <= end
      modifies `ino, `list, `nrInode
      ensures Valid() && OthersSame(old(ino), ino, k)
      ensures oom ==> ino[k] == old(ino[k]).(cache := None) && !memory && Inner(old(ino[k].nodes), lblk, end)
      ensures !oom ==> Erased(old(ino[k].nodes), ino[k].nodes, lblk, end + 1)
    {
      var found := TreeSearch(ino[k].nodes, lblk);
      if found.None? {
        assert ino[k].nodes[..|ino[k].nodes|] == ino[k].nodes;
        Gap(ino[k].nodes, |ino[k].nodes|, lblk, end);
        return false;
      }
      var i := found.value;
      if ino[k].nodes[i].lblk > end {
        Gap(ino[k].nodes, i, lblk, end);
        return false;
      }
      ino := ino[k := ino[k].(cache := None)];
      var e := ino[k].nodes[i];
      if e.End() - 1 > end {
        if lblk > e.lblk {
          InnerThere(ino[k].nodes, i, lblk, end);
          oom := SplitMiddle(k, i, lblk, end, memory);
        } else {
          Shorten(k, i, KeepFrom(e, end + 1), lblk, end);
          assert ino[k].nodes[..i] == old(ino[k].nodes)[..i];
          Gap(ino[k].nodes, i, lblk, end);
          oom := false;
        }
      } else {
        RemoveSpan(k, i, lblk, end);
        oom := false;
      }
    }

    /** __es_remove_extent: after a failed allocation it shrinks and retries while that frees anything. */
    method RemoveCore(k: nat, lblk: nat, end: nat, memory: bool) returns (oom: bool)
      requires Valid() && k < |ino| && lblk <= end
      modifies `ino, `list, `nrInode
      ensures Valid()
      ensures oom ==> AllWeaker(old(ino), ino) && !memory && Inner(old(ino[k].nodes), lblk, end)
      ensures !oom ==> Removed(old(ino), ino, k, lblk, end + 1)
    {
      while true
        invariant Valid() && AllWeaker(old(ino), ino)
        decreases Total(ino)
      {
        ghost var ts := ino;
        oom := TryRemove(k, lblk, end, memory);
        if !oom {
          RemovedAfter(old(ino), ts, ino, k, lblk, end + 1);
          return;
        }
        InnerBefore(old(ino[k].nodes), ts[k].nodes, lblk, end);
        TotalUpdate(ts, k, ino[k]);
        assert ino == ts[k := ino[k]];
        StepAllWeaker(old(ino), ts, ino, k);
        ghost var us := ino;
        var locks := SomeLocks();
        var freed := Shrink(128, Some(k), locks);
        AllWeakerTransitive(old(ino), us, ino);
        if freed == 0 {
          return;
        }
      }
    }
  
    // ----- the interface -----

    ghost predicate Faithful()
      reads this
    {
      |ref| == |ino| && forall k | 0 <= k < |ino| :: Agrees(ino[k].nodes, ref[k])
    }

    constructor (n: nat, precached: seq<bool>)
      requires |precached| == n
      ensures Valid() && Faithful() && |ino| == n
      ensures forall k | 0 <= k < n :: ref[k] == Blank()
    {
      ino := seq(n, k requires 0 <= k < n => Inode([], None, 0, 0, 0, precached[k]));
      list, nrInode := [], 0;
      ref := seq<Reference>(n, k => Blank());
    }

    /** ext4_es_insert_extent */
    method Insert(k: nat, lblk: nat, len: nat, pblk: nat, st: Status, memory: bool) returns (err: bool)
      requires Valid() && Faithful() && k < |ino|
      requires lblk + len <= MAX_BLOCKS && st.Sane() && (st.Mapped() ==> pblk + len <= PBLK_LIMIT)
      modifies this
      ensures Valid() && Faithful() && |ino| == |old(ino)|
      ensures !err ==> ref == old(ref)[k := Record(old(ref[k]), Extent(lblk, len, pblk, st, false))]
      ensures err ==> ref == old(ref) || (st.delayed && ref == old(ref)[k := Forget(old(ref[k]), lblk, lblk + len)])
      ensures memory ==> !err && OnRecord(ino[k].nodes, Extent(lblk, len, pblk, st, false))
    {
      var newes := Extent(lblk, len, pblk, st, false);
      if len == 0 {
        RecordNothing(ref[k], newes);
        ref := ref[k := Record(ref[k], newes)];
        return false;
      }
      err := RemoveCore(k, lblk, lblk + len - 1, memory);
      if err {
        return;
      }
      ref := ref[k := Forget(ref[k], lblk, lblk + len)];
      err := InsertForgotten(k, newes, old(ref[k]), memory);
    }

    /** The second half of ext4_es_insert_extent, once the range has been cleared. */
    method InsertForgotten(k: nat, newes: Extent, ghost r: Reference, memory: bool) returns (err: bool)
      requires Valid() && Faithful() && k < |ino| && newes.Valid() && ref[k] == Forget(r, newes.lblk, newes.End())
      modifies this
      ensures Valid() && Faithful() && |ino| == |old(ino)|
      ensures !err ==> ref == old(ref)[k := Record(r, newes)]
      ensures err ==> newes.st.delayed && ref == old(ref)
      ensures memory ==> !err && OnRecord(ino[k].nodes, newes)
    {
      ghost var es := ino[k].nodes;
      assert Agrees(es, ref[k]);
      err := InsertRetrying(k, newes, memory);
      if !err || !newes.st.delayed {
        AgreesRecorded(es, ino[k].nodes, r, newes, err);
        err := false;
        ref := ref[k := Record(r, newes)];
      }
    }

    /** The retry loop of ext4_es_insert_extent. */
    method InsertRetrying(k: nat, newes: Extent, memory: bool) returns (oom: bool)
      requires Valid() && k < |ino| && newes.Valid() && Free(ino[k].nodes, newes)
      modifies `ino, `list, `nrInode
      ensures Valid() && |ino| == |old(ino)|
      ensures forall j | 0 <= j < |ino| && j != k :: Weaker(old(ino[j].nodes), ino[j].nodes)
      ensures oom ==> Weaker(old(ino[k].nodes), ino[k].nodes) && !memory
      ensures !oom ==> OnRecord(ino[k].nodes, newes)
      ensures !oom ==> exists es :: Weaker(old(ino[k].nodes), es) && Inserted(es, ino[k].nodes, newes)
    {
      while true
        invariant Valid() && AllWeaker(old(ino), ino)
        decreases Total(ino)
      {
        ghost var ts := ino;
        assert Weaker(old(ino[k].nodes), ts[k].nodes);
        oom := InsertCore(k, newes, memory);
        if !oom {
          assert Inserted(ts[k].nodes, ino[k].nodes, newes);
          return;
        }
        var locks := SomeLocks();
        var freed := Shrink(128, Some(k), locks);
        AllWeakerTransitive(old(ino), ts, ino);
        if freed == 0 {
          return;
        }
      }
    }

    /** ext4_es_cache_extent: records only where nothing is known; `kept` tells whether it did. */
    method Cache(k: nat, lblk: nat, len: nat, pblk: nat, st: Status, memory: bool) returns (kept: bool)
      requires Valid() && Faithful() && k < |ino|
      requires lblk + len <= MAX_BLOCKS && st.Sane() && (st.Mapped() ==> pblk + len <= PBLK_LIMIT)
      modifies this
      ensures Valid() && Faithful() && |ino| == |old(ino)|
      ensures kept ==> 0 < len && Free(old(ino[k].nodes), Extent(lblk, len, pblk, st, false))
      ensures memory && 0 < len && Free(old(ino[k].nodes), Extent(lblk, len, pblk, st, false)) ==> kept
      ensures kept ==> ref == old(ref)[k := Record(old(ref[k]), Extent(lblk, len, pblk, st, false))]
      ensures kept ==> OnRecord(ino[k].nodes, Extent(lblk, len, pblk, st, false))
      ensures !kept ==> ref == old(ref) && ino == old(ino)
    {
      var newes := Extent(lblk, len, pblk, st, false);
      if len == 0 {
        return false;
      }
      var found := TreeSearch(ino[k].nodes, lblk);
      if found.Some? && ino[k].nodes[found.value].lblk <= lblk + len - 1 {
        SomethingKnown(ino[k].nodes, found.value, newes);
        return false;
      }
      var i := if found.Some? then found.value else |ino[k].nodes|;
      assert ino[k].nodes[..|ino[k].nodes|] == ino[k].nodes;
      Gap(ino[k].nodes, i, lblk, lblk + len - 1);
      var oom := InsertCore(k, newes, memory);
      kept := !oom;
      if kept {
        ref := ref[k := Record(ref[k], newes)];
      }
    }

    /** ext4_es_remove_extent */
    method Remove(k: nat, lblk: nat, len: nat, memory: bool) returns (err: bool)
      requires Valid() && Faithful() && k < |ino|
      modifies this
      ensures Valid() && Faithful() && |ino| == |old(ino)|
      ensures err ==> ref == old(ref) && !memory && Inner(old(ino[k].nodes), lblk, lblk + len - 1)
      ensures !err ==> ref == old(ref)[k := Forget(old(ref[k]), lblk, lblk + len)]
      ensures !err ==> forall b: int | lblk <= b < lblk + len :: Known(ino[k].nodes, b).None?
    {
      err := false;
      if len != 0 {
        err := RemoveCore(k, lblk, lblk + len - 1, memory);
      }
      if !err {
        ref := ref[k := Forget(ref[k], lblk, lblk + len)];
      }
    }
  
    /** ext4_es_lookup_extent: through the cache or by descent, the extent covering the block if there is one. */
    method Lookup(k: nat, lblk: nat) returns (found: bool, e: Extent)
      requires Valid() && Faithful() && k < |ino|
      modifies `ino, `list, `nrInode
      ensures Valid() && Faithful() && OthersSame(old(ino), ino, k)
      ensures SameMap(old(ino[k].nodes), ino[k].nodes)
      ensures found <==> Known(old(ino[k].nodes), lblk).Some?
      ensures found ==> e in old(ino[k].nodes) && e.Covers(lblk) && Known(old(ino[k].nodes), lblk) == Some(e.At(lblk))
      ensures found ==> exists i: nat :: Touched(old(ino[k].nodes), ino[k].nodes, i, e)
      ensures !found ==> ino == old(ino)
    {
      e := Extent(0, 0, 0, Status(false, false, false, false), false);
      var es := ino[k].nodes;
      var at: Option<nat>;
      if ino[k].cache.Some? && es[ino[k].cache.value].Covers(lblk) {
        at := ino[k].cache;
        KnownAround(es, at.value, 0, MAX_BLOCKS, lblk);
      } else {
        at := Descend(es, lblk);
      }
      found := at.Some?;
      if found {
        e := es[at.value];
        if !e.referenced {
          SetReferenced(k, at.value, true);
        }
        assert Touched(es, ino[k].nodes, at.value, e);
      }
    }

    /** ext4_es_find_delayed_extent_range: the first delayed extent reaching `lblk` or beyond.  When there is none in
        [lblk, end] it may be one further on, or none. */
    method FindDelayed(k: nat, lblk: nat, end: nat) returns (r: Option<Extent>)
      requires Valid() && Faithful() && k < |ino| && lblk <= end
      modifies `ino, `list, `nrInode
      ensures Valid() && Faithful() && OthersSame(old(ino), ino, k) && ino[k].nodes == old(ino[k].nodes)
      ensures r.Some? ==> r.value in ino[k].nodes && r.value.st.delayed && lblk < r.value.End()
      ensures r.Some? ==> NoneDelayed(ino[k].nodes, lblk, r.value.lblk)
      ensures r.None? ==> NoneDelayed(ino[k].nodes, lblk, end + 1)
      ensures r.Some? ==>
                r.value.lblk <= end || forall b: int | lblk <= b < r.value.lblk :: Known(ino[k].nodes, b).None?
    {
      var es := ino[k].nodes;
      var at: Option<nat>;
      if ino[k].cache.Some? && es[ino[k].cache.value].Covers(lblk) {
        at := ino[k].cache;
        Neighbours(es, at.value);
      } else {
        at := TreeSearch(es, lblk);
      }
      if at.None? {
        assert es[..|es|] == es;
        Gap(es, |es|, lblk, end);
        return None;
      }
      var i := at.value;
      if lblk < es[i].lblk {
        Gap(es, i, lblk, es[i].lblk - 1);
      }
      at := NextDelayed(es, i, lblk, end);
      r := None;
      if at.Some? {
        Touch(k, at.value);
        r := Some(es[at.value]);
      }
    }

    /** The extent found becomes the cached one. */
    method Touch(k: nat, i: nat)
      requires Valid() && Faithful() && k < |ino| && i < |ino[k].nodes|
      modifies `ino
      ensures Valid() && Faithful() && OthersSame(old(ino), ino, k) && ino[k].nodes == old(ino[k].nodes)
    {
      ino := ino[k := ino[k].(cache := Some(i))];
    }

    /** ext4_es_scan; asked to scan nothing it tells how much there is, by the approximate counter. */
    method Scan(nrToScan: int, counter: nat, locks: seq<Lock>) returns (nrShrunk: nat)
      requires Valid() && Faithful() && |locks| == |ino|
      modifies `ino, `list, `nrInode
      ensures Valid() && Faithful() && |ino| == |old(ino)|
      ensures nrToScan == 0 ==> ino == old(ino) && nrShrunk == counter
      ensures nrToScan != 0 ==> Total(ino) + nrShrunk == old(Total(ino))
      ensures nrToScan != 0 && nrShrunk == 0 ==> AllTried(old(ino), old(list), None, locks, nrToScan)
    {
      if nrToScan == 0 {
        return counter;
      }
      nrShrunk := Shrink(nrToScan, None, locks);
      forall k | 0 <= k < |ino|
        ensures Agrees(ino[k].nodes, ref[k])
      {
        assert Agrees(old(ino)[k].nodes, ref[k]) && Weaker(old(ino)[k].nodes, ino[k].nodes);
      }
    }

    // ----- whole runs -----

    /** One call of any operation, with what it meant for the plain map. */
    method Perform(op: Op) returns (ghost ev: Event)
      requires Valid() && Faithful() && op.Ok(|ino|)
      modifies this
      ensures Valid() && Faithful() && |ino| == |old(ino)|
      ensures ev.Explains(op) && ev.Within(|ref|) && ref == ev.Effect(old(ref))
    {
      var memory := *;
      match op {
        case DoInsert(k, e) =>
          var err := Insert(k, e.lblk, e.len, e.pblk, e.st, memory);
          ev := if !err then DidRecord(k, e) else if ref == old(ref) then Unchanged else DidForget(k, e.lblk, e.End());
        case DoCache(k, e) =>
          var kept := Cache(k, e.lblk, e.len, e.pblk, e.st, memory);
          ev := if kept then DidRecord(k, e) else Unchanged;
        case DoRemove(k, lblk, len) =>
          var err := Remove(k, lblk, len, memory);
          ev := if err then Unchanged else DidForget(k, lblk, lblk + len);
        case DoLookup(k, lblk) =>
          var found, e := Lookup(k, lblk);
          ev := Unchanged;
        case DoFind(k, lblk, end) =>
          var r := FindDelayed(k, lblk, end);
          ev := Unchanged;
        case DoScan(nr) =>
          var counter: nat := *;
          var locks := SomeLocks();
          var n := Scan(nr, counter, locks);
          ev := Unchanged;
      }
    }

    /** Any sequence of calls on any inodes, under any allocation failures: the trees stay sorted, disjoint and
        correctly counted, and agree with the plain map that the calls' effects add up to. */
    method Run(ops: seq<Op>) returns (ghost evs: seq<Event>)
      requires Valid() && Faithful() && forall i | 0 <= i < |ops| :: ops[i].Ok(|ino|)
      modifies this
      ensures Valid() && Faithful() && |ino| == |old(ino)|
      ensures |evs| == |ops| && Explained(ops, evs, old(|ref|)) && ref == Effects(old(ref), evs)
    {
      evs := [];
      for i := 0 to |ops|
        invariant Valid() && Faithful() && |ino| == |old(ino)|
        invariant |evs| == i && Explained(ops, evs, old(|ref|)) && ref == Effects(old(ref), evs)
      {
        ghost var ev := Perform(ops[i]);
        EffectsAppend(old(ref), ops, evs, ev);
        evs := evs + [ev];
      }
    }
  }

  /** A call: the extents of insertions and cachings carry their arguments. */
  datatype Op =
    | DoInsert(k: nat, e: Extent)
    | DoCache(k: nat, e: Extent)
    | DoRemove(k: nat, lblk: nat, len: nat)
    | DoLookup(k: nat, lblk: nat)
    | DoFind(k: nat, lblk: nat, end: nat)
    | DoScan(nr: int)
  {
    predicate Ok(n: nat) {
      match this
      case DoInsert(k, e) => k < n && ArgsOk(e)
      case DoCache(k, e) => k < n && ArgsOk(e)
      case DoRemove(k, _, _) => k < n
      case DoLookup(k, _) => k < n
      case DoFind(k, lblk, end) => k < n && lblk <= end
      case DoScan(_) => true
    }
  }

  predicate ArgsOk(e: Extent) {
    && e.End() <= MAX_BLOCKS && !e.referenced
    && e.st.Sane() && (e.st.Mapped() ==> e.pblk + e.len <= PBLK_LIMIT)
  }

  /** What a call did to the plain map. */
  datatype Event = Unchanged | DidRecord(k: nat, e: Extent) | DidForget(k: nat, lo: nat, hi: nat) {
    predicate Within(n: nat) { !Unchanged? ==> k < n }

    /** Insertion may fail, with the range cleared already if it was to become delayed; caching and removal may
        fail; the others never change anything. */
    predicate Explains(op: Op) {
      match op
      case DoInsert(k, e) =>
        this == DidRecord(k, e) || Unchanged? || (e.st.delayed && this == DidForget(k, e.lblk, e.End()))
      case DoCache(k, e) => this == DidRecord(k, e) || Unchanged?
      case DoRemove(k, lblk, len) => this == DidForget(k, lblk, lblk + len) || Unchanged?
      case _ => Unchanged?
    }

    ghost function Effect(refs: seq<Reference>): (refs': seq<Reference>)
      requires Within(|refs|)
      ensures |refs'| == |refs|
    {
      match this
      case Unchanged => refs
      case DidRecord(k, e) => refs[k := Record(refs[k], e)]
      case DidForget(k, lo, hi) => refs[k := Forget(refs[k], lo, hi)]
    }
  }

  ghost predicate Explained(ops: seq<Op>, evs: seq<Event>, n: nat) {
    |evs| <= |ops| && forall i | 0 <= i < |evs| :: evs[i].Explains(ops[i]) && evs[i].Within(n)
  }

  ghost function Effects(refs: seq<Reference>, evs: seq<Event>): (refs': seq<Reference>)
    requires forall i | 0 <= i < |evs| :: evs[i].Within(|refs|)
    ensures |refs'| == |refs|
  {
    if evs == [] then refs else evs[|evs| - 1].Effect(Effects(refs, evs[..|evs| - 1]))
  }

  lemma EffectsAppend(refs: seq<Reference>, ops: seq<Op>, evs: seq<Event>, ev: Event)
    requires Explained(ops, evs, |refs|) && |evs| < |ops| && ev.Explains(ops[|evs|]) && ev.Within(|refs|)
    ensures Explained(ops, evs + [ev], |refs|)
    ensures Effects(refs, evs + [ev]) == ev.Effect(Effects(refs, evs))
  {
    assert (evs + [ev])[..|evs|] == evs;
  }

  ghost predicate NoneDelayed(es: seq<Extent>, lo: int, hi: int) {
    forall b: int | lo <= b < hi :: !IsDelayed(Known(es, b))
  }

  /** Past an extent that is not delayed nothing is, up to the next one or for good. */
  lemma NextAfter(es: seq<Extent>, i: nat, lblk: int)
    requires Ordered(es, 0, MAX_BLOCKS) && i < |es| && !es[i].st.delayed && NoneDelayed(es, lblk, es[i].lblk)
    ensures i + 1 < |es| ==> NoneDelayed(es, lblk, es[i + 1].lblk)
    ensures i + 1 == |es| ==> forall hi: int :: NoneDelayed(es, lblk, hi)
  {
    forall b: int | lblk <= b && (i + 1 < |es| ==> b < es[i + 1].lblk)
      ensures !IsDelayed(Known(es, b))
    {
      KnownAround(es, i, 0, MAX_BLOCKS, b);
      Around(es, i, 0, MAX_BLOCKS);
      if i + 1 < |es| && es[i].End() <= b {
        KnownAround(es, i + 1, 0, MAX_BLOCKS, b);
        Around(es, i + 1, 0, MAX_BLOCKS);
        KnownWithin(es[..i + 1], 0, LastEnd(es[..i + 1], 0), b);
      }
    }
  }

  lemma AgreesRecorded(es: seq<Extent>, es': seq<Extent>, r: Reference, newes: Extent, oom: bool)
    requires Agrees(es, Forget(r, newes.lblk, newes.End()))
    requires oom ==> Weaker(es, es') && !newes.st.delayed
    requires !oom ==> exists mid :: Weaker(es, mid) && Inserted(mid, es', newes)
    ensures Agrees(es', Record(r, newes))
  {
    var cleared, now := Forget(r, newes.lblk, newes.End()), Record(r, newes);
    var mid :| Weaker(es, mid) && (if oom then mid == es' else Inserted(mid, es', newes));
    forall b: int
      ensures Known(es', b) == now(b) || (Known(es', b).None? && !IsDelayed(now(b)))
    {
      assert Known(es, b) == cleared(b) || (Known(es, b).None? && !IsDelayed(cleared(b)));
      assert Known(mid, b) == Known(es, b) || (Known(mid, b).None? && !IsDelayed(Known(es, b)));
      assert now(b) == if newes.Covers(b) then Some(newes.At(b)) else r(b);
    }
  }

  lemma RecordNothing(r: Reference, e: Extent)
    requires e.len == 0
    ensures forall b: int :: Record(r, e)(b) == r(b)
  {
  }

  /** Inode `k` forgot [lo, hi); apart from that no inode knows anything new or forgot a delayed block. */
  ghost predicate Removed(ts: seq<Inode>, ts': seq<Inode>, k: nat, lo: int, hi: int)
    requires k < |ts|
  {
    && |ts'| == |ts|
    && (forall j | 0 <= j < |ts| && j != k :: Weaker(ts[j].nodes, ts'[j].nodes))
    && (forall b: int | lo <= b < hi :: Known(ts'[k].nodes, b).None?)
    && (forall b: int | !(lo <= b < hi) ::
          || Known(ts'[k].nodes, b) == Known(ts[k].nodes, b)
          || (Known(ts'[k].nodes, b).None? && !IsDelayed(Known(ts[k].nodes, b))))
  }

  lemma RemovedAfter(ts: seq<Inode>, mid: seq<Inode>, ts': seq<Inode>, k: nat, lo: int, hi: int)
    requires AllWeaker(ts, mid) && k < |ts| && OthersSame(mid, ts', k)
    requires Erased(mid[k].nodes, ts'[k].nodes, lo, hi)
    ensures Removed(ts, ts', k, lo, hi)
  {
    assert Weaker(ts[k].nodes, mid[k].nodes);
  }

  lemma AllWeakerTransitive(ts: seq<Inode>, mid: seq<Inode>, ts': seq<Inode>)
    requires AllWeaker(ts, mid) && AllWeaker(mid, ts')
    ensures AllWeaker(ts, ts')
  {
    forall j | 0 <= j < |ts|
      ensures Weaker(ts[j].nodes, ts'[j].nodes)
    {
      WeakerTransitive(ts[j].nodes, mid[j].nodes, ts'[j].nodes);
    }
  }

  // ----- removal, on lists -----

  /** Only blocks of [lo, hi) may have been forgotten. */
  ghost predicate Chipped(es: seq<Extent>, es': seq<Extent>, lo: int, hi: int) {
    forall b: int :: Known(es', b) == Known(es, b) || (lo <= b < hi && Known(es', b).None?)
  }

  lemma ChippedTransitive(x: seq<Extent>, y: seq<Extent>, z: seq<Extent>, lo: int, hi: int)
    requires Chipped(x, y, lo, hi) && Chipped(y, z, lo, hi)
    ensures Chipped(x, z, lo, hi)
  {
  }

  /** What is left of extent `e` when [lblk, end] reaches one of its ends. */
  predicate PartOf(part: Extent, e: Extent, lblk: nat, end: nat) {
    || (e.lblk < lblk < e.End() <= end + 1 && part == KeepBelow(e, lblk))
    || (lblk <= e.lblk <= end < e.End() - 1 && part == KeepFrom(e, end + 1))
  }

  lemma PartValid(part: Extent, e: Extent, lblk: nat, end: nat)
    requires e.Valid() && lblk <= end && PartOf(part, e, lblk, end)
    ensures part.Valid() && e.lblk <= part.lblk && part.End() <= e.End()
    ensures forall b: int | part.Covers(b) :: e.Covers(b) && part.At(b) == e.At(b)
    ensures forall b: int | e.Covers(b) && !part.Covers(b) :: lblk <= b <= end
  {
  }

  /** A place in the list with nothing of [lblk, end] on either side of it. */
  lemma Gap(es: seq<Extent>, i: nat, lblk: nat, end: nat)
    requires Ordered(es, 0, MAX_BLOCKS) && i <= |es|
    requires LastEnd(es[..i], 0) <= lblk && (i < |es| ==> end < es[i].lblk)
    ensures forall b: int | lblk <= b <= end :: Known(es, b).None?
  {
    assert es == es[..i] + es[i..];
    OrderedSplit(es[..i], es[i..], 0, MAX_BLOCKS);
    forall b: int | lblk <= b <= end
      ensures Known(es, b).None?
    {
      KnownConcat(es[..i], es[i..], b);
      KnownWithin(es[..i], 0, LastEnd(es[..i], 0), b);
      if i < |es| {
        KnownAround(es[i..], 0, LastEnd(es[..i], 0), MAX_BLOCKS, b);
      }
    }
  }

  /** The extent made of the blocks of `e` from `from` on, as the removal code builds it. */
  function SplitTail(e: Extent, from: nat): Extent
    requires e.lblk < from < e.End()
  {
    Extent(from, e.End() - from, if e.st.Mapped() then e.pblk + (e.len - (e.End() - from)) else 0x7F_DEAD_BEEF,
           e.st, e.referenced)
  }

  lemma SplitEffect(es: seq<Extent>, i: nat, lblk: nat, end: nat)
    requires Ordered(es, 0, MAX_BLOCKS) && i < |es| && es[i].lblk < lblk <= end < es[i].End() - 1
    ensures var mid, tail := es[i := KeepBelow(es[i], lblk)], SplitTail(es[i], end + 1);
            && Ordered(mid, 0, MAX_BLOCKS) && Reclaimable(mid) == Reclaimable(es)
            && tail.Valid() && Free(mid, tail)
            && forall b: int :: (if tail.Covers(b) then Some(tail.At(b)) else Known(mid, b)) ==
                                if lblk <= b < end + 1 then None else Known(es, b)
  {
    var e := es[i];
    var part, tail := KeepBelow(e, lblk), SplitTail(e, end + 1);
    Neighbours(es, i);
    ReplaceEffect(es, i, part);
    forall b: int
      ensures Known(es[i := part], b) == if lblk <= b < e.End() then None else Known(es, b)
      ensures tail.Covers(b) ==> Known(es, b) == Some(tail.At(b))
    {
      KnownAround(es, i, 0, MAX_BLOCKS, b);
    }
  }

  /** No inode knows anything new, and none forgot a delayed block. */
  ghost predicate AllWeaker(ts: seq<Inode>, ts': seq<Inode>) {
    |ts'| == |ts| && forall k | 0 <= k < |ts| :: Weaker(ts[k].nodes, ts'[k].nodes)
  }

  lemma StepAllWeaker(ts: seq<Inode>, mid: seq<Inode>, ts': seq<Inode>, k: nat)
    requires AllWeaker(ts, mid) && k < |mid| && OthersSame(mid, ts', k) && Weaker(mid[k].nodes, ts'[k].nodes)
    ensures AllWeaker(ts, ts')
  {
    forall j | 0 <= j < |ts|
      ensures Weaker(ts[j].nodes, ts'[j].nodes)
    {
      WeakerTransitive(ts[j].nodes, mid[j].nodes, ts'[j].nodes);
    }
  }

  lemma WeakerTransitive(x: seq<Extent>, y: seq<Extent>, z: seq<Extent>)
    requires Weaker(x, y) && Weaker(y, z)
    ensures Weaker(x, z)
  {
  }

  ghost predicate SameMap(es: seq<Extent>, es': seq<Extent>) {
    forall b: int :: Known(es', b) == Known(es, b)
  }

  /** Only inode `k` differs. */
  ghost predicate OthersSame(ts: seq<Inode>, ts': seq<Inode>, k: nat) {
    |ts'| == |ts| && forall j | 0 <= j < |ts| && j != k :: ts'[j] == ts[j]
  }
}
