/**
 The per-stream journal allocator and the sharded index of journalled blocks
 (ccnvme/checkpoint.c, alloc_journal_block and journal_write_alloc; ccnvme/horae.h).
 */
module StreamJournal {
  import opened Common
  import opened Arithmetic

  // ----- the allocator -----

  /** A run of journal blocks handed to a writer. */
  datatype Run = Run(start: nat, len: nat)

  /** The runs lie end to end from `from` up to `to`. */
  ghost predicate Tiles(runs: seq<Run>, from: nat, to: nat) {
    if runs == [] then from == to
    else
      var last := runs[|runs| - 1];
      last.start + last.len == to && Tiles(runs[..|runs| - 1], from, last.start)
  }

  lemma {:induction false} TilesWithin(runs: seq<Run>, from: nat, to: nat, i: nat)
    requires Tiles(runs, from, to) && i < |runs|
    ensures from <= runs[i].start <= runs[i].start + runs[i].len <= to
    decreases |runs|
  {
    var front, last := runs[..|runs| - 1], runs[|runs| - 1];
    if front != [] {
      TilesWithin(front, from, last.start, |front| - 1);
    }
    if i < |front| {
      TilesWithin(front, from, last.start, i);
    }
  }

  /** Runs handed out between two resets are pairwise disjoint and inside the region. */
  lemma {:induction false} TilesDisjoint(runs: seq<Run>, from: nat, to: nat, i: nat, j: nat)
    requires Tiles(runs, from, to) && i < j < |runs|
    ensures from <= runs[i].start && runs[i].start + runs[i].len <= runs[j].start && runs[j].start + runs[j].len <= to
    decreases |runs|
  {
    var front, last := runs[..|runs| - 1], runs[|runs| - 1];
    TilesWithin(runs, from, to, j);
    if j < |front| {
      TilesDisjoint(front, from, last.start, i, j);
    } else {
      TilesWithin(front, from, last.start, i);
    }
  }

  class Journal {
    const streamId: nat
    const nrBlocks: nat // nr_journal_block
    const offset: nat   // off_in_journal
    var writePtr: nat
    ghost var runs: seq<Run> // handed out since the write pointer was last reset

    ghost predicate Valid()
      reads this
    {
      Tiles(runs, offset, writePtr) && offset <= writePtr <= offset + nrBlocks
    }

    /** stream_init_journal */
    constructor (streamId: nat, regionBlocks: nat, nrStreams: nat)
      requires 0 < nrStreams
      ensures Valid() && runs == []
      ensures this.streamId == streamId
      ensures nrBlocks == regionBlocks / nrStreams && offset == streamId * (regionBlocks / nrStreams)
    {
      this.streamId := streamId;
      nrBlocks := regionBlocks / nrStreams;
      offset := streamId * (regionBlocks / nrStreams);
      writePtr := streamId * (regionBlocks / nrStreams);
      runs := [];
    }

    /** The allocation step; `reset` tells that the ring was committed and the region reused. */
    method Alloc(n: nat) returns (start: Option<nat>, reset: bool)
      requires Valid()
      modifies this
      ensures Valid()
      ensures start.None? <==> nrBlocks < n
      ensures start.None? ==> !reset && writePtr == old(writePtr) && runs == old(runs)
      ensures start.Some? ==> runs == (if reset then [] else old(runs)) + [Run(start.value, n)]
      ensures start.Some? ==> writePtr == start.value + n
      ensures reset <==> n <= nrBlocks && offset + nrBlocks < n + old(writePtr)
    {
      reset := false;
      if n > nrBlocks {
        return None, false;
      }
      if n + writePtr > offset + nrBlocks {
        reset := true;
        writePtr := offset;
        runs := [];
      }
      start := Some(writePtr);
      ghost var before := runs;
      runs := runs + [Run(writePtr, n)];
      assert runs[..|runs| - 1] == before;
      writePtr := writePtr + n;
    }
  }

  /** The regions of different streams never meet, and all lie inside the journal. */
  lemma RegionsDisjoint(i: nat, j: nat, nrStreams: nat, regionBlocks: nat)
    requires i < j < nrStreams
    ensures var nr := regionBlocks / nrStreams; i * nr + nr <= j * nr && j * nr + nr <= regionBlocks
  {
    var nr := regionBlocks / nrStreams;
    Scaled(i, j, nr);
    Scaled(j, nrStreams, nr);
  }

  // ----- the sharded index -----

  function Group(lba: nat, perGroup: nat): nat
    requires 0 < perGroup
  {
    lba / perGroup
  }

  function TreeIdx(group: nat, trees: nat): (r: nat)
    requires 0 < trees
    ensures r < trees
  {
    group % trees
  }

  function TreeOff(group: nat, lba: nat, perGroup: nat, trees: nat): nat
    requires 0 < trees && 0 < perGroup
  {
    group / trees * perGroup + lba % perGroup
  }

  /** Shard and offset together determine the block. */
  lemma ShardingInjective(a: nat, b: nat, perGroup: nat, trees: nat)
    requires 0 < trees && 0 < perGroup
    requires var ga, gb := Group(a, perGroup), Group(b, perGroup);
             TreeIdx(ga, trees) == TreeIdx(gb, trees) &&
             TreeOff(ga, a, perGroup, trees) == TreeOff(gb, b, perGroup, trees)
    ensures a == b
  {
    var ga, gb := Group(a, perGroup), Group(b, perGroup);
    QuotientUnique(perGroup, ga / trees, a % perGroup, gb / trees, b % perGroup);
    assert ga == trees * (ga / trees) + ga % trees;
    assert gb == trees * (gb / trees) + gb % trees;
  }

  datatype IpuEntry = IpuEntry(lba: nat, plba: nat, txid: nat)

  /** What the index keeps of two writes to the same block, the old one first. */
  function Newer(was: Option<IpuEntry>, e: IpuEntry): Option<IpuEntry> {
    if was.None? || e.txid > was.value.txid then Some(e) else was
  }

  class ShardedIndex {
    const perGroup: nat
    var trees: seq<map<nat, IpuEntry>> // one radix tree a shard

    ghost predicate Valid()
      reads this
    {
      0 < perGroup && 0 < |trees|
    }

    /** The index as one map. */
    ghost function Find(lba: nat): Option<IpuEntry>
      requires Valid()
      reads this
    {
      var g := Group(lba, perGroup);
      var tree := trees[TreeIdx(g, |trees|)];
      var off := TreeOff(g, lba, perGroup, |trees|);
      if off in tree then Some(tree[off]) else None
    }

    constructor (perGroup: nat, nrTrees: nat)
      requires 0 < perGroup && 0 < nrTrees
      ensures Valid() && this.perGroup == perGroup && |trees| == nrTrees
      ensures forall b: nat :: Find(b) == None
    {
      this.perGroup := perGroup;
      trees := seq(nrTrees, _ => map[]);
    }

    /** One turn of the indexing loop. */
    method Put(lba: nat, plba: nat, txid: nat)
      requires Valid()
      modifies this
      ensures Valid()
      ensures forall b: nat :: Find(b) == if b == lba then Newer(old(Find(b)), IpuEntry(lba, plba, txid))
              else old(Find(b))
    {
      var g := Group(lba, perGroup);
      var t, off := TreeIdx(g, |trees|), TreeOff(g, lba, perGroup, |trees|);
      forall b: nat | TreeIdx(Group(b, perGroup), |trees|) == t
        && TreeOff(Group(b, perGroup), b, perGroup, |trees|) == off
        ensures b == lba
      {
        ShardingInjective(b, lba, perGroup, |trees|);
      }
      if off !in trees[t] || txid > trees[t][off].txid {
        trees := trees[t := trees[t][off := IpuEntry(lba, plba, txid)]];
      }
    }

    /** journal_write_alloc's loop over the blocks of a bio journalled at `plba`. */
    method PutAll(lba: nat, count: nat, plba: nat, txid: nat)
      requires Valid()
      modifies this
      ensures Valid()
      ensures forall b: nat :: Find(b) ==
                if lba <= b < lba + count then Newer(old(Find(b)), IpuEntry(b, plba + (b - lba), txid))
                  else old(Find(b))
    {
      for i := 0 to count
        invariant Valid()
        invariant forall b: nat :: Find(b) ==
                    if lba <= b < lba + i then Newer(old(Find(b)), IpuEntry(b, plba + (b - lba), txid))
                      else old(Find(b))
      {
        Put(lba + i, plba + i, txid);
      }
    }
  }

  // ----- what the index holds after any sequence of writes -----

  datatype Write = Write(lba: nat, count: nat, plba: nat, txid: nat)

  function Covers(w: Write, b: nat): bool { w.lba <= b < w.lba + w.count }

  /** The index entry for block `b` after the writes, each applied as by PutAll. */
  ghost function Indexed(writes: seq<Write>, b: nat): Option<IpuEntry> {
    if writes == [] then None
    else
      var was, w := Indexed(writes[..|writes| - 1], b), writes[|writes| - 1];
      if Covers(w, b) then Newer(was, IpuEntry(b, w.plba + (b - w.lba), w.txid)) else was
  }

  /** Any sequence of journalled writes, replayed into an empty index. */
  method Replay(writes: seq<Write>, perGroup: nat, nrTrees: nat) returns (index: ShardedIndex)
    requires 0 < perGroup && 0 < nrTrees
    ensures index.Valid() && forall b: nat :: index.Find(b) == Indexed(writes, b)
  {
    index := new ShardedIndex(perGroup, nrTrees);
    for i := 0 to |writes|
      invariant fresh(index) && index.Valid()
      invariant forall b: nat :: index.Find(b) == Indexed(writes[..i], b)
    {
      var w := writes[i];
      assert writes[..i + 1][..i] == writes[..i];
      index.PutAll(w.lba, w.count, w.plba, w.txid);
    }
    assert writes[..|writes|] == writes;
  }

  /** Write `i` is the first to `b` among those of the greatest transaction id. */
  ghost predicate Wins(writes: seq<Write>, b: nat, i: nat)
    requires i < |writes|
  {
    && Covers(writes[i], b)
    && (forall j | 0 <= j < |writes| && Covers(writes[j], b) :: writes[j].txid <= writes[i].txid)
    && (forall j | 0 <= j < i && Covers(writes[j], b) :: writes[j].txid < writes[i].txid)
  }

  /** One map that keeps, of all writes to a block, the first one with the greatest transaction id. */
  lemma {:induction false} GreatestTxidWins(writes: seq<Write>, b: nat)
    ensures Indexed(writes, b).None? <==> forall w <- writes :: !Covers(w, b)
    ensures Indexed(writes, b).Some? ==>
              exists i | 0 <= i < |writes| :: Wins(writes, b, i) &&
                Indexed(writes, b).value == IpuEntry(b, writes[i].plba + (b - writes[i].lba), writes[i].txid)
  {
    if writes != [] {
      var front, w := writes[..|writes| - 1], writes[|writes| - 1];
      GreatestTxidWins(front, b);
      assert writes == front + [w];
      if Indexed(front, b).Some? {
        var i :| 0 <= i < |front| && Wins(front, b, i) &&
          Indexed(front, b).value == IpuEntry(b, front[i].plba + (b - front[i].lba), front[i].txid);
        if Covers(w, b) && w.txid > front[i].txid {
          assert Wins(writes, b, |front|);
        } else {
          assert Wins(writes, b, i);
        }
      } else if Covers(w, b) {
        assert Wins(writes, b, |front|);
      }
    }
  }
}
