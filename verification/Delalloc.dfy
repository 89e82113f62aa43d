/**
 Delayed blocks in a range and the clusters reserved for them
 (mqfs/extents.c, ext4_find_delalloc_range, get_reserved_cluster_alloc).
 */
module Delalloc {
  import opened Common
  import opened Arithmetic
  import opened StatusExtents
  import opened StatusTree

  lemma {:induction false} KnownOf(es: seq<Extent>, e: Extent, b: int, lo: int, hi: int)
    requires Ordered(es, lo, hi) && e in es && e.Covers(b)
    ensures Known(es, b) == Some(e.At(b))
  {
    if e != es[0] {
      KnownOf(es[1..], e, b, es[0].End(), hi);
      KnownWithin(es[1..], es[0].End(), hi, b);
    }
  }

  /** ext4_find_delalloc_range */
  method FindDelallocRange(st: StatusTrees, k: nat, first: nat, last: nat) returns (found: bool)
    requires st.Valid() && st.Faithful() && k < |st.ino| && first <= last
    modifies st
    ensures st.Valid() && st.Faithful() && |st.ino| == |old(st.ino)| && st.ino[k].nodes == old(st.ino[k].nodes)
    ensures found <==> !NoneDelayed(st.ino[k].nodes, first, last + 1)
  {
    var r := st.FindDelayed(k, first, last);
    ghost var es := st.ino[k].nodes;
    if r.None? {
      return false;
    }
    var e := r.value;
    assert InodeOk(st.ino[k]);
    if e.lblk <= first < e.End() {
      KnownOf(es, e, first, 0, MAX_BLOCKS);
      found := true;
    } else if first <= e.lblk <= last {
      ExtentValid(es, e, 0, MAX_BLOCKS);
      KnownOf(es, e, e.lblk, 0, MAX_BLOCKS);
      found := true;
    } else {
      found := false;
    }
  }

  lemma {:induction false} ExtentValid(es: seq<Extent>, e: Extent, lo: int, hi: int)
    requires Ordered(es, lo, hi) && e in es
    ensures e.Valid()
  {
    if e != es[0] {
      ExtentValid(es[1..], e, es[0].End(), hi);
    }
  }

  // ----- clusters -----

  /** The first block of a cluster. */
  function Base(c: nat, ratio: nat): nat { ratio * c }

  /** No block of the cluster outside [start, stop) is delayed. */
  ghost predicate Whole(es: seq<Extent>, ratio: nat, start: nat, stop: nat, c: nat) {
    NoneDelayedBut(es, Base(c, ratio), Base(c, ratio) + ratio, start, stop)
  }

  ghost predicate NoneDelayedBut(es: seq<Extent>, lo: int, hi: int, start: int, stop: int) {
    forall b: int | lo <= b < hi && !(start <= b < stop) :: !IsDelayed(Known(es, b))
  }

  /** How many of the `n` clusters from `c` on are whole. */
  ghost function WholeCount(es: seq<Extent>, ratio: nat, start: nat, stop: nat, c: nat, n: nat): nat
    decreases n
  {
    if n == 0 then 0
    else (if Whole(es, ratio, start, stop, c) then 1 else 0) + WholeCount(es, ratio, start, stop, c + 1, n - 1)
  }

  /** Clusters inside the range are whole; the last one counts by itself. */
  lemma {:induction false} CountFrom(es: seq<Extent>, ratio: nat, start: nat, stop: nat, c: nat, n: nat)
    requires 0 < n && start <= Base(c, ratio) && Base(c + n - 1, ratio) <= stop
    ensures WholeCount(es, ratio, start, stop, c, n) == n - 1 + if Whole(es, ratio, start, stop, c + n - 1) then 1
            else 0
    decreases n
  {
    if n == 1 {
      assert WholeCount(es, ratio, start, stop, c + 1, 0) == 0;
    } else {
      Spread(c, c + n - 1, ratio);
      CountFrom(es, ratio, start, stop, c + 1, n - 1);
    }
  }

  /** Cluster `c` is the one block `b` lies in. */
  ghost predicate InCluster(c: nat, ratio: nat, b: nat) { Base(c, ratio) <= b < Base(c, ratio) + ratio }

  /** get_reserved_cluster_alloc: of the clusters the range touches, those that hold no delayed block outside it. */
  method ReservedClusters(st: StatusTrees, k: nat, ratio: nat, start: nat, num: nat)
    returns (count: nat, ghost first: nat, ghost last: nat)
    requires st.Valid() && st.Faithful() && k < |st.ino| && 0 < ratio && 0 < num
    modifies st
    ensures st.Valid() && st.Faithful() && |st.ino| == |old(st.ino)| && st.ino[k].nodes == old(st.ino[k].nodes)
    ensures first <= last && InCluster(first, ratio, start) && InCluster(last, ratio, start + num - 1)
    ensures count == WholeCount(st.ino[k].nodes, ratio, start, start + num, first, last - first + 1)
  {
    ghost var es := st.ino[k].nodes;
    count, first, last := ClustersTouched(ratio, start, start + num);
    var left := LeftDelayed(st, k, ratio, start, first);
    if left {
      count := count - 1;
    }
    if count != 0 {
      var right := RightDelayed(st, k, ratio, start + num, last);
      if right {
        count := count - 1;
      }
    }
    CountClusters(es, ratio, start, start + num, first, last);
  }

  /** The clusters of the first and the last block of a range. */
  method ClustersTouched(ratio: nat, start: nat, stop: nat) returns (count: nat, ghost first: nat, ghost last: nat)
    requires 0 < ratio && start < stop
    ensures first <= last && count == last - first + 1
    ensures InCluster(first, ratio, start) && InCluster(last, ratio, stop - 1)
  {
    var a, b := start / ratio, (stop - 1) / ratio;
    Divided(ratio, start);
    Divided(ratio, stop - 1);
    QuotientGrows(ratio, start, stop - 1);
    count, first, last := b - a + 1, a, b;
  }

  /** A delayed block in the first cluster before the range. */
  method LeftDelayed(st: StatusTrees, k: nat, ratio: nat, start: nat, ghost first: nat) returns (found: bool)
    requires st.Valid() && st.Faithful() && k < |st.ino| && InCluster(first, ratio, start)
    modifies st
    ensures st.Valid() && st.Faithful() && |st.ino| == |old(st.ino)| && st.ino[k].nodes == old(st.ino[k].nodes)
    ensures found <==> !NoneDelayed(st.ino[k].nodes, Base(first, ratio), start)
  {
    var offset := start % ratio;
    Quotient(start, ratio, first, start - Base(first, ratio));
    found := false;
    if offset != 0 {
      var from := start - offset;
      found := FindDelallocRange(st, k, from, from + offset - 1);
    }
  }

  /** A delayed block in the last cluster behind the range. */
  method RightDelayed(st: StatusTrees, k: nat, ratio: nat, stop: nat, ghost last: nat) returns (found: bool)
    requires st.Valid() && st.Faithful() && k < |st.ino| && 0 < stop && InCluster(last, ratio, stop - 1)
    modifies st
    ensures st.Valid() && st.Faithful() && |st.ino| == |old(st.ino)| && st.ino[k].nodes == old(st.ino[k].nodes)
    ensures found <==> !NoneDelayed(st.ino[k].nodes, stop, Base(last, ratio) + ratio)
  {
    var offset := stop % ratio;
    ClusterEnd(ratio, stop, last);
    found := false;
    if offset != 0 {
      found := FindDelallocRange(st, k, stop, stop + (ratio - offset) - 1);
    }
  }

  lemma ClusterEnd(ratio: nat, stop: nat, last: nat)
    requires 0 < stop && InCluster(last, ratio, stop - 1)
    ensures Base(last, ratio) + ratio == if stop % ratio == 0 then stop else stop + (ratio - stop % ratio)
  {
    if stop == Base(last, ratio) + ratio {
      OneFurther(last, ratio);
      Quotient(stop, ratio, last + 1, 0);
    } else {
      Quotient(stop, ratio, last, stop - Base(last, ratio));
    }
  }

  lemma QuotientGrows(n: nat, x: nat, y: nat)
    requires 0 < n && x <= y
    ensures x / n <= y / n
  {
    var k := x / n - y / n;
    Multiple(n, k);
    assert n * k == n * (x / n) - n * (y / n);
  }

  lemma CountClusters(es: seq<Extent>, ratio: nat, start: nat, stop: nat, first: nat, last: nat)
    requires start < stop && first <= last && InCluster(first, ratio, start) && InCluster(last, ratio, stop - 1)
    ensures var l, r := NoneDelayed(es, Base(first, ratio), start), NoneDelayed(es, stop, Base(last, ratio) + ratio);
            WholeCount(es, ratio, start, stop, first, last - first + 1) ==
            if first == last then (if l && r then 1 else 0)
            else last - first - 1 + (if l then 1 else 0) + (if r then 1 else 0)
  {
    if first == last {
      TwoSides(es, Base(first, ratio), Base(first, ratio) + ratio, start, stop);
      assert WholeCount(es, ratio, start, stop, first + 1, 0) == 0;
    } else {
      Spread(first, last, ratio);
      TwoSides(es, Base(first, ratio), Base(first, ratio) + ratio, start, stop);
      TwoSides(es, Base(last, ratio), Base(last, ratio) + ratio, start, stop);
      CountFrom(es, ratio, start, stop, first + 1, last - first);
    }
  }

  lemma Spread(first: nat, last: nat, ratio: nat)
    requires first < last
    ensures Base(first, ratio) + ratio == Base(first + 1, ratio) <= Base(last, ratio)
  {
    OneFurther(first, ratio);
    AtLeast(ratio, first + 1, last);
  }

  lemma OneFurther(c: nat, ratio: nat)
    ensures Base(c + 1, ratio) == Base(c, ratio) + ratio
  {
  }

  /** The part of [lo, hi) outside [start, stop), if the two meet. */
  lemma TwoSides(es: seq<Extent>, lo: int, hi: int, start: int, stop: int)
    requires start < stop && start < hi && lo < stop
    ensures NoneDelayedBut(es, lo, hi, start, stop) <==> NoneDelayed(es, lo, start) && NoneDelayed(es, stop, hi)
  {
  }
}
