/**
 Writing into an unwritten extent (mqfs/extents.c, ext4_ext_convert_to_initialized, ext4_split_extent).
 */
module ExtentConvert {
  import opened Common
  import opened ExtentLists
  import opened ExtentNodes
  import opened ExtentTree
  import opened ExtentEdits

  /** The blocks of [lo, hi) were mapped and become written in place; nothing else changes. */
  ghost predicate Converted(es: seq<Ext>, es': seq<Ext>, lo: int, hi: int) {
    forall b: int :: ConvertedAt(es, es', lo, hi, b)
  }

  ghost predicate ConvertedAt(es: seq<Ext>, es': seq<Ext>, lo: int, hi: int, b: int) {
    if lo <= b < hi then Map(es, b).Some? && Map(es', b) == Some(Cell(Map(es, b).value.pblk, false))
    else Map(es', b) == Map(es, b)
  }

  // ----- on lists -----

  /** Changing the states below or above a split of an unwritten extent converts that side. */
  lemma RestatedConverts(es: seq<Ext>, es': seq<Ext>, p: nat, split: nat, u1: bool, u2: bool)
    requires Ordered(es, 0, MAX_BLOCKS) && p < |es| && es[p].Unwritten() && es[p].block <= split <= es[p].End()
    requires Restated(es, es', es[p], split, u1, u2) && u1 != u2
    ensures u1 ==> Converted(es, es', split, es[p].End())
    ensures u2 ==> Converted(es, es', es[p].block, split)
  {
    forall b: int
      ensures u1 ==> ConvertedAt(es, es', split, es[p].End(), b)
      ensures u2 ==> ConvertedAt(es, es', es[p].block, split, b)
    {
      MapAround(es, p, 0, MAX_BLOCKS, b);
    }
  }

  /** Two neighbours replaced by two others covering the same stretch. */
  lemma PairReplace(es: seq<Ext>, p: nat, a: Ext, b: Ext)
    requires Ordered(es, 0, MAX_BLOCKS) && p + 1 < |es| && es[p].End() == es[p + 1].block
    requires a.Valid() && b.Valid() && a.block == es[p].block && a.End() == b.block && b.End() == es[p + 1].End()
    ensures Ordered(es[p := a][p + 1 := b], 0, MAX_BLOCKS)
    ensures forall x: int :: Map(es[p := a][p + 1 := b], x) ==
              if a.Covers(x) then Some(a.At(x)) else if b.Covers(x) then Some(b.At(x)) else Map(es, x)
  {
    Around(es, p, 0, MAX_BLOCKS);
    Around(es, p + 1, 0, MAX_BLOCKS);
    CutPair(es, p, a, b);
    PairIn(es[..p], es[p], es[p + 1], a, b, es[p + 2..]);
  }

  lemma CutPair(es: seq<Ext>, p: nat, a: Ext, b: Ext)
    requires p + 1 < |es|
    ensures es == es[..p] + [es[p], es[p + 1]] + es[p + 2..]
    ensures es[p := a][p + 1 := b] == es[..p] + [a, b] + es[p + 2..]
  {
  }

  lemma PairIn(x: seq<Ext>, c: Ext, d: Ext, a: Ext, b: Ext, z: seq<Ext>)
    requires Ordered(x + [c, d] + z, 0, MAX_BLOCKS) && Ordered(x, 0, LastEnd(x, 0)) && Ordered(z, d.End(), MAX_BLOCKS)
    requires c.Valid() && d.Valid() && c.End() == d.block && LastEnd(x, 0) <= c.block
    requires a.Valid() && b.Valid() && a.block == c.block && a.End() == b.block && b.End() == d.End()
    ensures Ordered(x + [a, b] + z, 0, MAX_BLOCKS)
    ensures forall y: int :: Map(x + [a, b] + z, y) ==
              if a.Covers(y) then Some(a.At(y)) else if b.Covers(y) then Some(b.At(y)) else Map(x + [c, d] + z, y)
  {
    Pair(a, b, LastEnd(x, 0), b.End());
    Pair(c, d, LastEnd(x, 0), b.End());
    Join3(x, [a, b], z, 0, LastEnd(x, 0), b.End(), MAX_BLOCKS);
    forall y: int
      ensures Map(x + [a, b] + z, y) ==
              if a.Covers(y) then Some(a.At(y)) else if b.Covers(y) then Some(b.At(y)) else Map(x + [c, d] + z, y)
    {
      Map3(x, [a, b], z, y);
      Map3(x, [c, d], z, y);
      MapWithin(x, 0, LastEnd(x, 0), y);
    }
  }

  /** The neighbour on the left takes over the first `n` blocks. */
  lemma TransferLeft(es: seq<Ext>, p: nat, n: nat)
    requires Ordered(es, 0, MAX_BLOCKS) && 0 < p < |es| && es[p].Unwritten() && 0 < n < es[p].Len()
    requires !es[p - 1].Unwritten() && es[p - 1].End() == es[p].block && es[p - 1].pblk + es[p - 1].Len() == es[p].pblk
    requires es[p - 1].Len() + n < INIT_MAX_LEN
    ensures var ex, abut := es[p], es[p - 1];
            var es' := es[p - 1 := abut.(eeLen := abut.Len() + n)][p := Tail(ex, ex.block + n, true)];
            Ordered(es', 0, MAX_BLOCKS) && Restated(es, es', ex, ex.block + n, false, true)
  {
    var ex, abut := es[p], es[p - 1];
    var g, t := abut.(eeLen := abut.Len() + n), Tail(ex, ex.block + n, true);
    Around(es, p - 1, 0, MAX_BLOCKS);
    Around(es, p, 0, MAX_BLOCKS);
    TailOk(ex, ex.block + n, true);
    PairReplace(es, p - 1, g, t);
    forall b: int
      ensures Map(es[p - 1 := g][p := t], b) ==
              if ex.Covers(b) then Some(Cell(ex.At(b).pblk, if b < ex.block + n then false else true)) else Map(es, b)
    {
      MapAround(es, p - 1, 0, MAX_BLOCKS, b);
    }
  }

  /** The neighbour on the right takes over the last `n` blocks. */
  lemma TransferRight(es: seq<Ext>, p: nat, n: nat)
    requires Ordered(es, 0, MAX_BLOCKS) && p + 1 < |es| && es[p].Unwritten() && 0 < n < es[p].Len()
    requires !es[p + 1].Unwritten() && es[p].End() == es[p + 1].block && es[p].pblk + es[p].Len() == es[p + 1].pblk
    requires es[p + 1].Len() + n < INIT_MAX_LEN
    ensures var ex, abut := es[p], es[p + 1];
            var grown := Ext(abut.block - n, abut.Len() + n, abut.pblk - n);
            var es' := es[p := Head(ex, ex.End() - n, true)][p + 1 := grown];
            Ordered(es', 0, MAX_BLOCKS) && Restated(es, es', ex, ex.End() - n, true, false)
  {
    var ex, abut := es[p], es[p + 1];
    var h, g := Head(ex, ex.End() - n, true), Ext(abut.block - n, abut.Len() + n, abut.pblk - n);
    Around(es, p, 0, MAX_BLOCKS);
    Around(es, p + 1, 0, MAX_BLOCKS);
    HeadOk(ex, ex.End() - n, true);
    PairReplace(es, p, h, g);
    forall b: int
      ensures Map(es[p := h][p + 1 := g], b) ==
              if ex.Covers(b) then Some(Cell(ex.At(b).pblk, if b < ex.End() - n then true else false)) else Map(es, b)
    {
      MapAround(es, p + 1, 0, MAX_BLOCKS, b);
    }
  }

  lemma LeftConverts(es: seq<Ext>, p: nat, n: nat)
    requires Ordered(es, 0, MAX_BLOCKS) && 0 < p < |es| && es[p].Unwritten() && 0 < n < es[p].Len()
    requires Takes(es[p - 1], es[p], true, n)
    ensures var es' := LeftMoved(es, p - 1, n);
            Ordered(es', 0, MAX_BLOCKS) && Converted(es, es', es[p].block, es[p].block + n)
  {
    TransferLeft(es, p, n);
    RestatedConverts(es, LeftMoved(es, p - 1, n), p, es[p].block + n, false, true);
  }

  lemma RightConverts(es: seq<Ext>, p: nat, n: nat)
    requires Ordered(es, 0, MAX_BLOCKS) && p + 1 < |es| && es[p].Unwritten() && 0 < n < es[p].Len()
    requires Takes(es[p + 1], es[p], false, n)
    ensures var es' := RightMoved(es, p, n);
            Ordered(es', 0, MAX_BLOCKS) && Converted(es, es', es[p].End() - n, es[p].End())
  {
    TransferRight(es, p, n);
    RestatedConverts(es, RightMoved(es, p, n), p, es[p].End() - n, true, false);
  }

  /** Entry `k` grows by `n` blocks at the cost of the entry after it. */
  function LeftMoved(es: seq<Ext>, k: nat, n: nat): seq<Ext>
    requires k + 1 < |es| && n < es[k + 1].Len()
  {
    es[k := es[k].(eeLen := es[k].Len() + n)][k + 1 := Tail(es[k + 1], es[k + 1].block + n, true)]
  }

  /** Entry `k + 1` grows downwards by `n` blocks at the cost of the entry before it. */
  function RightMoved(es: seq<Ext>, k: nat, n: nat): seq<Ext>
    requires k + 1 < |es| && 0 < n < es[k].Len() && n <= es[k + 1].block && n <= es[k + 1].pblk
  {
    var ex, abut := es[k], es[k + 1];
    es[k := Head(ex, ex.End() - n, true)][k + 1 := Ext(abut.block - n, abut.Len() + n, abut.pblk - n)]
  }

  lemma Pair(a: Ext, b: Ext, lo: int, hi: int)
    requires a.Valid() && b.Valid() && lo <= a.block && a.End() <= b.block && b.End() <= hi
    ensures Ordered([a, b], lo, hi)
    ensures forall x: int :: Map([a, b], x) == if a.Covers(x) then Some(a.At(x))
            else if b.Covers(x) then Some(b.At(x)) else None
  {
    assert [a, b][1..] == [b] && [b][1..] == [];
    Single(b, a.End(), hi);
  }

  // ----- on the tree -----

  /** ext4_split_extent as the conversion uses it: [lblk, lblk + len), as far as extent `p` reaches, becomes written. */
  method SplitExtent(t: ExtentTree, lblk: nat, len: nat, preIo: bool, busy: bool, ghost p: nat) returns (count: nat)
    requires t.Valid() && 0 < len && p < |Flat(t.root)| && Flat(t.root)[p].Covers(lblk) && Flat(t.root)[p].Unwritten()
    modifies t
    ensures t.LedgerGrows()
    ensures t.Valid() && lblk + count == Reach(old(Flat(t.root))[p], lblk + len)
    ensures Converted(old(Flat(t.root)), Flat(t.root), lblk, lblk + count)
  {
    ghost var flat := Flat(t.root);
    MapAround(flat, p, 0, MAX_BLOCKS, lblk);
    var path, pos := FindExtent(t.root, t.depth, t.cap, lblk);
    ghost var q := Hit(t.root, path, pos, lblk, t.depth, t.cap);
    CoverUnique(flat, p, q, lblk);
    var ex := NodeAt(t.root, path).exts[pos];
    count := len;
    if lblk + len < ex.End() {
      SplitRight(t, lblk + len, busy, p);
    } else {
      count := ex.Len() - (lblk - ex.block);
    }
    ghost var mid := Flat(t.root);
    MapAround(mid, p, 0, MAX_BLOCKS, lblk);
    ghost var r := SplitExtentAt(t, lblk, true, false, preIo, busy);
    CoverUnique(mid, p, r, lblk);
    RestatedConverts(mid, Flat(t.root), p, lblk, true, false);
    ConvertedFrom(flat, mid, Flat(t.root), lblk, lblk + count);
  }

  /** How far a request ending at `hi` reaches into an extent. */
  function Reach(ex: Ext, hi: nat): nat { if hi < ex.End() then hi else ex.End() }

  /** Cutting extent `p` at the end of the request, with no change of state. */
  method SplitRight(t: ExtentTree, split: nat, busy: bool, ghost p: nat)
    requires t.Valid() && p < |Flat(t.root)| && Flat(t.root)[p].Unwritten()
    requires Flat(t.root)[p].block < split < Flat(t.root)[p].End()
    modifies t
    ensures t.LedgerGrows()
    ensures t.Valid() && SameMap(old(Flat(t.root)), Flat(t.root))
    ensures p < |Flat(t.root)| && Flat(t.root)[p] == Head(old(Flat(t.root))[p], split, true)
  {
    ghost var flat := Flat(t.root);
    MapAround(flat, p, 0, MAX_BLOCKS, split);
    ghost var q := SplitExtentAt(t, split, true, true, true, busy);
    CoverUnique(flat, p, q, split);
    forall b: int
      ensures Map(Flat(t.root), b) == Map(flat, b)
    {
      MapAround(flat, p, 0, MAX_BLOCKS, b);
    }
  }

  lemma ConvertedFrom(es: seq<Ext>, mid: seq<Ext>, es': seq<Ext>, lo: int, hi: int)
    requires SameMap(es, mid) && Converted(mid, es', lo, hi)
    ensures Converted(es, es', lo, hi)
  {
    forall b: int
      ensures ConvertedAt(es, es', lo, hi, b)
    {
      assert ConvertedAt(mid, es', lo, hi, b);
    }
  }

  // ----- ext4_ext_convert_to_initialized -----

  /** The written neighbour `abut` can take `len` blocks of the unwritten extent `ex`: the tests C1 to C4. */
  predicate Takes(abut: Ext, ex: Ext, left: bool, len: nat) {
    && !abut.Unwritten()
    && (if left then abut.End() == ex.block else ex.End() == abut.block)
    && (if left then abut.pblk + abut.Len() == ex.pblk else ex.pblk + ex.Len() == abut.pblk)
    && abut.Len() + len < INIT_MAX_LEN
  }

  /** The request is the start of the extent and the neighbour on the left takes it. */
  predicate GoesLeft(exts: seq<Ext>, pos: nat, lblk: nat, len: nat)
    requires pos < |exts|
  {
    lblk == exts[pos].block && len < exts[pos].Len() && 0 < pos && Takes(exts[pos - 1], exts[pos], true, len)
  }

  /** The request is the end of the extent and the neighbour on the right takes it. */
  predicate GoesRight(exts: seq<Ext>, pos: nat, lblk: nat, len: nat)
    requires pos < |exts|
  {
    && lblk + len == exts[pos].End() && len < exts[pos].Len() && pos + 1 < |exts|
    && Takes(exts[pos + 1], exts[pos], false, len)
  }

  /** How many blocks may be zeroed: none past the end of the file and none of an encrypted file. */
  function MaxZeroout(ex: Ext, eof: nat, limit: nat, encrypted: bool): nat {
    if ex.End() <= eof && !encrypted then limit else 0
  }

  /** When the returned number of blocks is written up to its last block: a neighbour took the request ... */
  predicate CountHonest(exts: seq<Ext>, pos: nat, lblk: nat, len: nat, maxZeroout: nat)
    requires pos < |exts| && exts[pos].Covers(lblk)
  {
    Taken(exts, pos, lblk, len) || SplitHonest(exts[pos], lblk, len, maxZeroout)
  }

  /** A neighbour takes the request. */
  predicate Taken(exts: seq<Ext>, pos: nat, lblk: nat, len: nat)
    requires pos < |exts|
  {
    GoesLeft(exts, pos, lblk, len) || GoesRight(exts, pos, lblk, len)
  }

  /** ... or it reaches the end of the extent, or zeroing makes up for the difference. */
  predicate SplitHonest(ex: Ext, lblk: nat, len: nat, maxZeroout: nat)
    requires ex.Covers(lblk)
  {
    var rest, off := ex.End() - lblk, lblk - ex.block;
    rest <= len || (0 < maxZeroout && (rest <= maxZeroout || off + len < maxZeroout))
  }

  /** Blocks [lo, hi) of `ex`, and nothing when that is empty. */
  ghost predicate Zeroes(z: Option<Ext>, ex: Ext, lo: nat, hi: nat) {
    if lo < hi then z.Some? && z.value.block == lo && z.value.End() == hi && z.value.pblk == ex.pblk + lo - ex.block
    else z.None?
  }

  ghost predicate AllWritten(es: seq<Ext>, lo: int, hi: int) {
    forall b: int | lo <= b < hi :: Map(es, b).Some? && !Map(es, b).value.unwritten
  }

  /** What is converted beyond the request is zeroed, and only where that is allowed. */
  ghost predicate OnlyZeroesMore(ex: Ext, lblk: nat, len: nat, lo: nat, hi: nat, head: Option<Ext>, tail: Option<Ext>,
                                 eof: nat, encrypted: bool)
  {
    var end := Reach(ex, lblk + len);
    && ex.block <= lo <= lblk && end <= hi <= ex.End()
    && Zeroes(head, ex, lo, lblk) && Zeroes(tail, ex, end, hi)
    && (lo < lblk || end < hi ==> ex.End() <= eof && !encrypted)
  }

  /** Which blocks are converted and which number is returned when no neighbour took them.  Of what is left of the
      extent behind the request all is converted if it may be zeroed; from the start of the extent on all is if, with
      that, less than the limit is touched, and then the number is the request's.  Otherwise it goes to the end of the
      extent. */
  ghost predicate SplitExactly(ex: Ext, lblk: nat, len: nat, maxZeroout: nat, count: nat, lo: nat, hi: nat)
    requires ex.Covers(lblk)
  {
    var rest := ex.End() - lblk;
    if rest <= len || maxZeroout == 0 then count == rest && lo == lblk && hi == Reach(ex, lblk + len)
    else
      && hi == (if rest <= maxZeroout then ex.End() else lblk + len)
      && (if hi - ex.block < maxZeroout then count == len && lo == ex.block else count == rest && lo == lblk)
  }

  function Eof(sizeBlocks: nat, end: nat): nat { if sizeBlocks < end then end else sizeBlocks }

  method Convert(t: ExtentTree, path: seq<nat>, pos: nat, lblk: nat, len: nat, sizeBlocks: nat, limit: nat,
                 encrypted: bool, preIo: bool, busy: bool, ghost p: nat)
    returns (count: nat, head: Option<Ext>, tail: Option<Ext>, ghost lo: nat, ghost hi: nat)
    requires t.Valid() && IsEntry(t, path, pos, p) && 0 < len
    requires Flat(t.root)[p].Covers(lblk) && Flat(t.root)[p].Unwritten()
    modifies t
    ensures t.LedgerGrows()
    ensures t.Valid() && Converted(old(Flat(t.root)), Flat(t.root), lo, hi)
    ensures var ex, eof := old(Flat(t.root))[p], Eof(sizeBlocks, lblk + len);
            && OnlyZeroesMore(ex, lblk, len, lo, hi, head, tail, eof, encrypted)
            && (count >= len <==> lblk + len <= ex.End())
            && (if Taken(old(NodeAt(t.root, path).exts), pos, lblk, len)
                then count == len && lo == lblk && hi == lblk + len
                else SplitExactly(ex, lblk, len, MaxZeroout(ex, eof, limit, encrypted), count, lo, hi))
            && (AllWritten(Flat(t.root), lblk, lblk + count) <==>
                CountHonest(old(NodeAt(t.root, path).exts), pos, lblk, len, MaxZeroout(ex, eof, limit, encrypted)))
  {
    ghost var flat := Flat(t.root);
    var moved := TryTransfer(t, path, pos, lblk, len, p);
    if moved {
      count, head, tail := len, None, None;
      lo, hi := lblk, lblk + len;
      ConvertedWritten(flat, Flat(t.root), lo, hi, p, lblk, lblk + count);
    } else {
      var ex := NodeAt(t.root, path).exts[pos];
      count, head, tail, lo, hi := ZeroAndSplit(t, ex, lblk, len, Eof(sizeBlocks, lblk + len), limit, encrypted,
                                                preIo, busy, p);
    }
  }

  method TryTransfer(t: ExtentTree, path: seq<nat>, pos: nat, lblk: nat, len: nat, ghost p: nat) returns (moved: bool)
    requires t.Valid() && IsEntry(t, path, pos, p) && 0 < len
    requires Flat(t.root)[p].Covers(lblk) && Flat(t.root)[p].Unwritten()
    modifies t
    ensures t.LedgerGrows()
    ensures var exts := old(NodeAt(t.root, path).exts);
            moved <==> Taken(exts, pos, lblk, len)
    ensures t.Valid() && if moved then Converted(old(Flat(t.root)), Flat(t.root), lblk, lblk + len) else unchanged(t)
  {
    var exts := NodeAt(t.root, path).exts;
    var ex := exts[pos];
    moved := false;
    if lblk == ex.block && len < ex.Len() && 0 < pos {
      if Takes(exts[pos - 1], ex, true, len) {
        MoveLeft(t, path, pos, len, p);
        moved := true;
      }
    } else if lblk + len == ex.End() && len < ex.Len() && pos + 1 < |exts| {
      if Takes(exts[pos + 1], ex, false, len) {
        MoveRight(t, path, pos, len, p);
        moved := true;
      }
    }
  }

  method ZeroAndSplit(t: ExtentTree, ex: Ext, lblk: nat, len: nat, eof: nat, limit: nat, encrypted: bool,
                      preIo: bool, busy: bool, ghost p: nat)
    returns (count: nat, head: Option<Ext>, tail: Option<Ext>, ghost lo: nat, ghost hi: nat)
    requires t.Valid() && p < |Flat(t.root)| && Flat(t.root)[p] == ex && ex.Covers(lblk) && ex.Unwritten() && 0 < len
    modifies t
    ensures t.LedgerGrows()
    ensures t.Valid() && Converted(old(Flat(t.root)), Flat(t.root), lo, hi)
    ensures OnlyZeroesMore(ex, lblk, len, lo, hi, head, tail, eof, encrypted)
    ensures count >= len <==> lblk + len <= ex.End()
    ensures SplitExactly(ex, lblk, len, MaxZeroout(ex, eof, limit, encrypted), count, lo, hi)
    ensures AllWritten(Flat(t.root), lblk, lblk + count) <==>
            SplitHonest(ex, lblk, len, MaxZeroout(ex, eof, limit, encrypted))
  {
    ghost var flat := Flat(t.root);
    Around(flat, p, 0, MAX_BLOCKS);
    head, tail := None, None;
    count := ex.Len() - (lblk - ex.block);
    var maxZeroout := MaxZeroout(ex, eof, limit, encrypted);
    var from, n := lblk, len;
    if 0 < maxZeroout && count > len {
      if count <= maxZeroout {
        tail := Some(Ext(lblk + len, count - len, ex.pblk + lblk + len - ex.block));
        n := count;
      }
      if lblk - ex.block + n < maxZeroout {
        if lblk != ex.block {
          head := Some(Ext(ex.block, lblk - ex.block, ex.pblk));
        }
        from, n := ex.block, n + (lblk - ex.block);
        count := len;
      }
    }
    var done := SplitExtent(t, from, n, preIo, busy, p);
    lo, hi := from, from + done;
    ConvertedWritten(flat, Flat(t.root), lo, hi, p, lblk, lblk + count);
  }

  /** Inside the old extent exactly the converted part is written. */
  lemma ConvertedWritten(es: seq<Ext>, es': seq<Ext>, lo: nat, hi: nat, p: nat, from: nat, to: nat)
    requires Ordered(es, 0, MAX_BLOCKS) && p < |es| && es[p].Unwritten() && Converted(es, es', lo, hi)
    requires es[p].block <= lo <= from < hi <= es[p].End() && from <= to <= es[p].End()
    ensures AllWritten(es', from, to) <==> to <= hi
  {
    forall b: int | from <= b < to
      ensures Map(es, b) == Some(es[p].At(b)) && ConvertedAt(es, es', lo, hi, b)
    {
      MapAround(es, p, 0, MAX_BLOCKS, b);
    }
    if hi < to {
      assert ConvertedAt(es, es', lo, hi, hi) && Map(es', hi).value.unwritten;
    } else {
      forall b: int | from <= b < to
        ensures Map(es', b).Some? && !Map(es', b).value.unwritten
      {
        assert ConvertedAt(es, es', lo, hi, b);
      }
    }
  }

  method MoveLeft(t: ExtentTree, path: seq<nat>, pos: nat, len: nat, ghost p: nat)
    requires t.Valid() && IsEntry(t, path, pos, p) && Flat(t.root)[p].Unwritten() && 0 < len < Flat(t.root)[p].Len()
    requires 0 < pos && Takes(NodeAt(t.root, path).exts[pos - 1], Flat(t.root)[p], true, len)
    modifies t
    ensures t.LedgerGrows()
    ensures t.Valid()
    ensures var ex := old(Flat(t.root))[p]; Converted(old(Flat(t.root)), Flat(t.root), ex.block, ex.block + len)
  {
    ghost var flat := Flat(t.root);
    var exts := NodeAt(t.root, path).exts;
    var es := LeftMoved(exts, pos - 1, len);
    LeafPair(t.root, path, pos - 1, es[pos - 1], es[pos]);
    LeftConverts(flat, p, len);
    t.LeafSize(path);
    t.StoreLeaf(path, es);
  }

  method MoveRight(t: ExtentTree, path: seq<nat>, pos: nat, len: nat, ghost p: nat)
    requires t.Valid() && IsEntry(t, path, pos, p) && Flat(t.root)[p].Unwritten() && 0 < len < Flat(t.root)[p].Len()
    requires pos + 1 < Entries(NodeAt(t.root, path))
             && Takes(NodeAt(t.root, path).exts[pos + 1], Flat(t.root)[p], false, len)
    modifies t
    ensures t.LedgerGrows()
    ensures t.Valid()
    ensures var ex := old(Flat(t.root))[p]; Converted(old(Flat(t.root)), Flat(t.root), ex.End() - len, ex.End())
  {
    ghost var flat := Flat(t.root);
    var exts := NodeAt(t.root, path).exts;
    var es := RightMoved(exts, pos, len);
    LeafPair(t.root, path, pos, es[pos], es[pos + 1]);
    RightConverts(flat, p, len);
    t.LeafSize(path);
    t.StoreLeaf(path, es);
  }

  /** Two neighbouring entries of a leaf are neighbours among all extents. */
  lemma LeafPair(root: Node, path: seq<nat>, k: nat, a: Ext, b: Ext)
    requires IsPath(root, path) && NodeAt(root, path).Leaf? && k + 1 < Entries(NodeAt(root, path))
    ensures var q := |Before(root, path)| + k;
            && q + 1 < |Flat(root)|
            && Flat(root)[q] == NodeAt(root, path).exts[k] && Flat(root)[q + 1] == NodeAt(root, path).exts[k + 1]
            && Before(root, path) + NodeAt(root, path).exts[k := a][k + 1 := b] + After(root, path) ==
               Flat(root)[q := a][q + 1 := b]
  {
    FlatAt(root, path);
  }

  /** Writing the first of ten unwritten blocks of an encrypted file reports ten blocks and writes one. */
  lemma CountOverstated()
    ensures var ex := Ext(0, RawLen(10, true), 100);
            ex.Valid() && ex.Unwritten() && !CountHonest([ex], 0, 0, 1, MaxZeroout(ex, 10, 32, true))
  {
  }
}
