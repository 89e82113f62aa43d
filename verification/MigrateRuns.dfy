/**
 Runs of consecutive blocks and the extents they are stored as (mqfs/migrate.c, finish_range, update_extent_range).
 */
module MigrateRuns {
  import opened Common
  import opened ExtentLists

  /** `len` blocks from `first` on, stored in a row from `pblk` on. */
  datatype Run = Run(first: nat, len: nat, pblk: nat) {
    function End(): nat { first + len }

    /** Block `b` mapped to `nr` continues the run. */
    predicate Joins(b: nat, nr: nat) { End() == b && pblk + len == nr }
  }

  /** The maximal runs of a file, given by the physical block of each of its blocks, 0 where there is none. */
  function RunsOf(seen: seq<nat>): seq<Run> {
    if seen == [] then [] else Extended(RunsOf(seen[..|seen| - 1]), |seen| - 1, seen[|seen| - 1])
  }

  /** The runs when block `b` is mapped to `nr`. */
  function Extended(rs: seq<Run>, b: nat, nr: nat): seq<Run> {
    if nr == 0 then rs
    else if rs != [] && rs[|rs| - 1].Joins(b, nr) then rs[..|rs| - 1] + [rs[|rs| - 1].(len := rs[|rs| - 1].len + 1)]
    else rs + [Run(b, 1, nr)]
  }

  /** The extent a run is stored as: its length is cut to 16 bits, of which the topmost is the unwritten flag. */
  function Encode(r: Run): Ext { Ext(r.first, r.len % 0x1_0000, r.pblk) }

  function Encoded(rs: seq<Run>): seq<Ext> {
    seq(|rs|, i requires 0 <= i < |rs| => Encode(rs[i]))
  }

  /** The runs are in order, not empty, and end by `hi`. */
  ghost predicate RunsOk(rs: seq<Run>, hi: nat) {
    forall i | 0 <= i < |rs| :: RunOk(rs, i, hi)
  }

  ghost predicate RunOk(rs: seq<Run>, i: nat, hi: nat)
    requires i < |rs|
  {
    0 < rs[i].len && 0 < rs[i].pblk && rs[i].End() <= if i + 1 < |rs| then rs[i + 1].first else hi
  }

  lemma {:induction false} RunsFine(seen: seq<nat>)
    ensures RunsOk(RunsOf(seen), |seen|)
  {
    if seen != [] {
      var n := |seen| - 1;
      var rs, rs' := RunsOf(seen[..n]), RunsOf(seen);
      RunsFine(seen[..n]);
      forall i | 0 <= i < |rs'|
        ensures RunOk(rs', i, |seen|)
      {
        assert i < |rs| ==> RunOk(rs, i, n);
        assert i + 1 < |rs| ==> RunOk(rs, i + 1, n);
      }
    }
  }

  // ----- lengths -----

  /** Too long for a written extent. */
  ghost predicate AnyLong(rs: seq<Run>) {
    exists i :: 0 <= i < |rs| && rs[i].len > INIT_MAX_LEN
  }

  /** The extent's length field would be zero. */
  ghost predicate AnyZero(rs: seq<Run>) {
    exists i :: 0 <= i < |rs| && rs[i].len % 0x1_0000 == 0
  }

  /** Longer than any written extent: that many blocks in a row, physically in a row as well. */
  ghost predicate LongRun(seen: seq<nat>) {
    exists i: nat :: LongAt(seen, i)
  }

  ghost predicate LongAt(seen: seq<nat>, i: nat) {
    i + INIT_MAX_LEN < |seen| && InARow(seen, i, i + INIT_MAX_LEN)
  }

  ghost predicate InARow(seen: seq<nat>, i: nat, j: nat)
    requires j < |seen|
  {
    forall k | i <= k <= j :: seen[k] != 0 && seen[k] == seen[i] + (k - i)
  }

  /** What a run says about the file. */
  lemma {:induction false} RunHolds(seen: seq<nat>, m: nat)
    requires m < |RunsOf(seen)|
    ensures var r := RunsOf(seen)[m]; r.End() <= |seen| && forall k | r.first <= k < r.End() ::
              seen[k] == r.pblk + (k - r.first) && seen[k] != 0
  {
    var n := |seen| - 1;
    var rs, r := RunsOf(seen[..n]), RunsOf(seen)[m];
    if m < |rs| {
      RunHolds(seen[..n], m);
      assert forall k | 0 <= k < n :: seen[..n][k] == seen[k];
    }
  }

  /** The last run is the one the last block belongs to, and reaches back at least to block `i`. */
  ghost predicate EndsWith(rs: seq<Run>, i: nat, n: nat, nr: nat) {
    rs != [] && rs[|rs| - 1].End() == n && rs[|rs| - 1].first <= i && rs[|rs| - 1].pblk + rs[|rs| - 1].len == nr + 1
  }

  /** It reaches back over all blocks in a row at the end. */
  lemma {:induction false} TailRun(seen: seq<nat>, i: nat)
    requires i < |seen| && InARow(seen, i, |seen| - 1)
    ensures EndsWith(RunsOf(seen), i, |seen|, seen[|seen| - 1])
    decreases |seen|
  {
    var n := |seen| - 1;
    var part := seen[..n];
    assert seen[n] != 0;
    if i < n {
      assert forall k | 0 <= k < n :: part[k] == seen[k];
      assert InARow(part, i, n - 1) && seen[n] == seen[n - 1] + 1;
      TailRun(part, i);
      GrowTail(RunsOf(part), i, n, seen[n]);
    } else {
      RunsFine(part);
      NewTail(RunsOf(part), n, seen[n]);
    }
  }

  lemma GrowTail(rs: seq<Run>, i: nat, n: nat, nr: nat)
    requires 0 < nr && EndsWith(rs, i, n, nr - 1)
    ensures EndsWith(Extended(rs, n, nr), i, n + 1, nr)
  {
  }

  lemma NewTail(rs: seq<Run>, n: nat, nr: nat)
    requires RunsOk(rs, n) && nr != 0
    ensures EndsWith(Extended(rs, n, nr), n, n + 1, nr)
  {
    if rs != [] {
      assert RunOk(rs, |rs| - 1, n);
    }
  }

  /** A long run stays. */
  lemma {:induction false} LongStays(seen: seq<nat>, n: nat)
    requires n <= |seen| && AnyLong(RunsOf(seen[..n]))
    ensures AnyLong(RunsOf(seen))
    decreases |seen| - n
  {
    if n == |seen| {
      assert seen[..n] == seen;
    } else {
      var rs, rs' := RunsOf(seen[..n]), RunsOf(seen[..n + 1]);
      assert seen[..n + 1][..n] == seen[..n];
      var i :| 0 <= i < |rs| && rs[i].len > INIT_MAX_LEN;
      assert rs'[i].len > INIT_MAX_LEN;
      LongStays(seen, n + 1);
    }
  }

  lemma RowIsLong(seen: seq<nat>, i: nat)
    requires LongAt(seen, i)
    ensures AnyLong(RunsOf(seen))
  {
    var n := i + INIT_MAX_LEN + 1;
    var part := seen[..n];
    assert forall k | 0 <= k < n :: part[k] == seen[k];
    assert InARow(part, i, n - 1);
    TailRun(part, i);
    var rs := RunsOf(part);
    assert rs[|rs| - 1].len > INIT_MAX_LEN;
    LongStays(seen, n);
  }

  lemma LongIsRow(seen: seq<nat>, m: nat)
    requires m < |RunsOf(seen)| && RunsOf(seen)[m].len > INIT_MAX_LEN
    ensures LongAt(seen, RunsOf(seen)[m].first)
  {
    RunHolds(seen, m);
  }

  /** Some run is too long exactly if that many blocks are in a row. */
  lemma LongExactly(seen: seq<nat>)
    ensures AnyLong(RunsOf(seen)) <==> LongRun(seen)
  {
    if AnyLong(RunsOf(seen)) {
      var m :| 0 <= m < |RunsOf(seen)| && RunsOf(seen)[m].len > INIT_MAX_LEN;
      LongIsRow(seen, m);
    }
    if LongRun(seen) {
      var i: nat :| LongAt(seen, i);
      RowIsLong(seen, i);
    }
  }

  lemma ZeroIsLong(rs: seq<Run>, hi: nat)
    requires RunsOk(rs, hi) && AnyZero(rs)
    ensures AnyLong(rs)
  {
    var i :| 0 <= i < |rs| && rs[i].len % 0x1_0000 == 0;
    assert RunOk(rs, i, hi);
    assert rs[i].len > INIT_MAX_LEN;
  }

  // ----- what the stored extents map -----

  /** What the file maps block `b` to. */
  ghost function Expect(seen: seq<nat>, b: int): Option<Cell> {
    if 0 <= b < |seen| && seen[b] != 0 then Some(Cell(seen[b], false)) else None
  }

  /** The extents map what the file maps. */
  ghost predicate SameFile(seen: seq<nat>, es: seq<Ext>) {
    forall b: int :: Map(es, b) == Expect(seen, b)
  }

  /** Physical block numbers have 32 bits. */
  ghost predicate Narrow(seen: seq<nat>) {
    forall i | 0 <= i < |seen| :: seen[i] < 0x1_0000_0000
  }

  lemma EncodedSnoc(rs: seq<Run>, r: Run)
    ensures Encoded(rs + [r]) == Encoded(rs) + [Encode(r)]
  {
  }

  /** Runs that fit are stored without loss. */
  lemma {:induction false} ShortFaithful(seen: seq<nat>)
    requires !AnyLong(RunsOf(seen))
    ensures SameFile(seen, Encoded(RunsOf(seen)))
  {
    if seen != [] {
      var n := |seen| - 1;
      var part, nr := seen[..n], seen[n];
      if AnyLong(RunsOf(part)) {
        LongStays(seen, n);
      }
      ShortFaithful(part);
      RunsFine(part);
      OneMoreFaithful(part, RunsOf(part), nr, seen);
    }
  }

  lemma OneMoreFaithful(part: seq<nat>, rs: seq<Run>, nr: nat, seen: seq<nat>)
    requires RunsOk(rs, |part|) && SameFile(part, Encoded(rs)) && seen == part + [nr]
    requires !AnyLong(rs) && !AnyLong(Extended(rs, |part|, nr))
    ensures SameFile(seen, Encoded(Extended(rs, |part|, nr)))
  {
    var n := |part|;
    if nr != 0 {
      if rs != [] && rs[|rs| - 1].Joins(n, nr) {
        var m := |rs| - 1;
        assert rs == rs[..m] + [rs[m]] && RunOk(rs, m, n);
        var e, e' := Encode(rs[m]), Encode(rs[m].(len := rs[m].len + 1));
        var rs' := rs[..m] + [rs[m].(len := rs[m].len + 1)];
        assert rs[m].len <= INIT_MAX_LEN && rs'[m].len <= INIT_MAX_LEN;
        EncodedSnoc(rs[..m], rs[m]);
        EncodedSnoc(rs[..m], rs'[m]);
        LastGrows(Encoded(rs[..m]), e, e', part, nr, seen);
      } else {
        EncodedSnoc(rs, Run(n, 1, nr));
        LastAdded(Encoded(rs), Encode(Run(n, 1, nr)), part, nr, seen);
      }
    } else {
      SameFileHole(Encoded(rs), part, seen);
    }
  }

  lemma SameFileHole(es: seq<Ext>, part: seq<nat>, seen: seq<nat>)
    requires SameFile(part, es) && seen == part + [0]
    ensures SameFile(seen, es)
  {
    forall b: int
      ensures Map(es, b) == Expect(seen, b)
    {
      assert Map(es, b) == Expect(part, b);
    }
  }

  lemma LastGrows(x: seq<Ext>, e: Ext, e': Ext, part: seq<nat>, nr: nat, seen: seq<nat>)
    requires SameFile(part, x + [e]) && seen == part + [nr] && nr != 0
    requires e'.block == e.block && e'.pblk == e.pblk && e'.Len() == e.Len() + 1 && !e.Unwritten() && !e'.Unwritten()
    requires e.End() == |part| && e.pblk + e.Len() == nr
    ensures SameFile(seen, x + [e'])
  {
    assert [e][1..] == [] && [e'][1..] == [];
    forall b: int
      ensures Map(x + [e'], b) == Expect(seen, b)
    {
      MapConcat(x, [e], b);
      MapConcat(x, [e'], b);
      assert Map(x + [e], b) == Expect(part, b);
    }
  }

  lemma LastAdded(x: seq<Ext>, e: Ext, part: seq<nat>, nr: nat, seen: seq<nat>)
    requires SameFile(part, x) && seen == part + [nr] && nr != 0 && e == Ext(|part|, 1, nr)
    ensures SameFile(seen, x + [e])
  {
    assert [e][1..] == [];
    forall b: int
      ensures Map(x + [e], b) == Expect(seen, b)
    {
      MapConcat(x, [e], b);
      assert Map(x, b) == Expect(part, b);
    }
  }

  lemma {:induction false} EncodedOrdered(rs: seq<Run>, hi: nat)
    requires RunsOk(rs, hi) && !AnyZero(rs) && hi <= MAX_BLOCKS && LowRuns(rs)
    ensures Ordered(Encoded(rs), 0, hi)
  {
    if rs != [] {
      var m := |rs| - 1;
      var x := rs[..m];
      assert RunOk(rs, m, hi) && LowRun(rs[m]);
      assert rs[m].len % 0x1_0000 != 0;
      Init(rs, hi);
      EncodedOrdered(x, rs[m].first);
      assert rs == x + [rs[m]];
      EncodedSnoc(x, rs[m]);
      Single(Encode(rs[m]), rs[m].first, hi);
      OrderedConcat(Encoded(x), [Encode(rs[m])], 0, rs[m].first, hi);
    }
  }

  ghost predicate LowRuns(rs: seq<Run>) {
    forall i | 0 <= i < |rs| :: LowRun(rs[i])
  }

  predicate LowRun(r: Run) { r.pblk + r.len <= PBLK_LIMIT }

  lemma Init(rs: seq<Run>, hi: nat)
    requires rs != [] && RunsOk(rs, hi) && !AnyZero(rs) && LowRuns(rs)
    ensures var x := rs[..|rs| - 1]; RunsOk(x, rs[|rs| - 1].first) && !AnyZero(x) && LowRuns(x)
  {
    var x, last := rs[..|rs| - 1], rs[|rs| - 1].first;
    forall i | 0 <= i < |x|
      ensures RunOk(x, i, last)
    {
      assert RunOk(rs, i, hi);
    }
    assert forall i | 0 <= i < |x| :: x[i] == rs[i];
  }

  lemma RunsLow(seen: seq<nat>)
    requires Narrow(seen)
    ensures LowRuns(RunsOf(seen))
  {
    RunsFine(seen);
    forall m | 0 <= m < |RunsOf(seen)|
      ensures LowRun(RunsOf(seen)[m])
    {
      var r := RunsOf(seen)[m];
      RunHolds(seen, m);
      assert RunOk(RunsOf(seen), m, |seen|);
      assert seen[r.End() - 1] == r.pblk + r.len - 1;
    }
  }

  lemma {:induction false} NotCovered(es: seq<Ext>, b: int)
    requires forall i | 0 <= i < |es| :: !es[i].Covers(b)
    ensures Map(es, b).None?
  {
    if es != [] {
      assert !es[0].Covers(b);
      assert forall i | 0 <= i < |es[1..]| :: es[1..][i] == es[i + 1];
      NotCovered(es[1..], b);
    }
  }

  /** Different runs have no block in common. */
  lemma {:induction false} RunsApart(rs: seq<Run>, hi: nat, i: nat, j: nat)
    requires RunsOk(rs, hi) && i < j < |rs|
    ensures rs[i].End() <= rs[j].first
    decreases j
  {
    assert RunOk(rs, i, hi);
    if i + 1 < j {
      RunsApart(rs, hi, i, j - 1);
      assert RunOk(rs, j - 1, hi);
    }
  }

  /** A run that does not fit loses its last block. */
  lemma LongLoses(seen: seq<nat>, m: nat)
    requires m < |RunsOf(seen)| && RunsOf(seen)[m].len > INIT_MAX_LEN
    ensures !SameFile(seen, Encoded(RunsOf(seen)))
  {
    var rs := RunsOf(seen);
    var es, b := Encoded(rs), rs[m].End() - 1;
    RunsFine(seen);
    RunHolds(seen, m);
    forall i | 0 <= i < |es|
      ensures !es[i].Covers(b)
    {
      assert es[i].Len() <= rs[i].len && es[i].Len() <= INIT_MAX_LEN;
      if i < m {
        RunsApart(rs, |seen|, i, m);
      } else if m < i {
        RunsApart(rs, |seen|, m, i);
      }
    }
    NotCovered(es, b);
    assert Expect(seen, b).Some?;
  }

  /** The stored extents map the file exactly if no run is too long. */
  lemma FaithfulExactly(seen: seq<nat>)
    ensures SameFile(seen, Encoded(RunsOf(seen))) <==> !LongRun(seen)
  {
    LongExactly(seen);
    if AnyLong(RunsOf(seen)) {
      var m :| 0 <= m < |RunsOf(seen)| && RunsOf(seen)[m].len > INIT_MAX_LEN;
      LongLoses(seen, m);
    } else {
      ShortFaithful(seen);
    }
  }

  /** `n` blocks in a row from `nr` on. */
  function Row(n: nat, nr: nat): seq<nat> {
    seq(n, i requires 0 <= i < n => nr + i)
  }

  lemma {:induction false} RowRuns(n: nat, nr: nat)
    requires 0 < nr
    ensures RunsOf(Row(n, nr)) == if n == 0 then [] else [Run(0, n, nr)]
  {
    if n > 0 {
      RowRuns(n - 1, nr);
      assert Row(n, nr)[..n - 1] == Row(n - 1, nr);
    }
  }
}
