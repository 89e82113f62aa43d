/**
 Extents of the status tree and what a sorted list of them says about a file's blocks
 (mqfs/extents_status.c, mqfs/extents_status.h).
 */
module StatusExtents {
  import opened Common

  /** Physical blocks live below the five flag bits of a 64-bit word. */
  const PBLK_LIMIT: nat := 0x800_0000_0000_0000

  /** The four type flags. */
  datatype Status = Status(written: bool, unwritten: bool, delayed: bool, hole: bool) {
    /** Blocks of this status carry a physical block. */
    predicate Mapped() { written || unwritten }

    /** The flag combinations the merge rule is sound for: among mapped ones, neither written+delayed nor hole. */
    predicate Sane() { Mapped() ==> !hole && (delayed ==> unwritten) }
  }

  // ----- the packed word -----

  const WORD_LIMIT: nat := 0x1_0000_0000_0000_0000

  function Bit(b: bool): nat { if b then 1 else 0 }

  /** The five flags, from ES_WRITTEN_B up to ES_REFERENCED_B. */
  function FlagBits(st: Status, referenced: bool): nat {
    Bit(st.written) + 2 * Bit(st.unwritten) + 4 * Bit(st.delayed) + 8 * Bit(st.hole) + 16 * Bit(referenced)
  }

  /** ext4_es_type and the tests for its bits. */
  function TypeOf(flags: nat): Status {
    Status(flags % 2 == 1, flags / 2 % 2 == 1, flags / 4 % 2 == 1, flags / 8 % 2 == 1)
  }

  /** ext4_es_is_referenced */
  predicate IsReferenced(flags: nat) { flags / 16 % 2 == 1 }

  /** ext4_es_pblock */
  function WordPblock(w: nat): nat { w % PBLK_LIMIT }

  /** ext4_es_status */
  function WordFlags(w: nat): nat { w / PBLK_LIMIT }

  /** ext4_es_store_pblock: the low bits of `pb`, the high bits of the word. */
  function StorePblock(w: nat, pb: nat): nat { pb % PBLK_LIMIT + (w - w % PBLK_LIMIT) }

  /** ext4_es_store_status */
  function StoreStatus(w: nat, flags: nat): nat { flags % 32 * PBLK_LIMIT + w % PBLK_LIMIT }

  /** ext4_es_store_pblock_status */
  function StorePblockStatus(pb: nat, flags: nat): nat { flags % 32 * PBLK_LIMIT + pb % PBLK_LIMIT }

  /** Each store changes the part it names to the value given, cut to its width, and leaves the other part alone. */
  lemma StoresIndependent(w: nat, pb: nat, flags: nat)
    requires w < WORD_LIMIT
    ensures var u := StorePblock(w, pb);
            u < WORD_LIMIT && WordPblock(u) == pb % PBLK_LIMIT && WordFlags(u) == WordFlags(w)
    ensures var u := StoreStatus(w, flags);
            u < WORD_LIMIT && WordFlags(u) == flags % 32 && WordPblock(u) == WordPblock(w)
    ensures StorePblock(StoreStatus(w, flags), pb) == StorePblockStatus(pb, flags)
    ensures StoreStatus(StorePblock(w, pb), flags) == StorePblockStatus(pb, flags)
  {
    assert w == PBLK_LIMIT * (w / PBLK_LIMIT) + w % PBLK_LIMIT;
  }

  lemma FlagsRoundTrip(st: Status, referenced: bool)
    ensures FlagBits(st, referenced) < 32
    ensures TypeOf(FlagBits(st, referenced)) == st && IsReferenced(FlagBits(st, referenced)) == referenced
  {
  }

  /** Status, referenced bit and block can be read back from the word of an extent whose block fits. */
  lemma WordRoundTrip(e: Extent)
    ensures e.Word() < WORD_LIMIT && WordPblock(e.Word()) == e.pblk % PBLK_LIMIT
    ensures TypeOf(WordFlags(e.Word())) == e.st && IsReferenced(WordFlags(e.Word())) == e.referenced
  {
    FlagsRoundTrip(e.st, e.referenced);
    PackedParts(e.pblk, FlagBits(e.st, e.referenced));
  }

  lemma PackedParts(pb: nat, flags: nat)
    requires flags < 32
    ensures var w := StorePblockStatus(pb, flags);
            w < WORD_LIMIT && WordPblock(w) == pb % PBLK_LIMIT && WordFlags(w) == flags
  {
  }

  datatype Extent = Extent(lblk: nat, len: nat, pblk: nat, st: Status, referenced: bool) {
    function End(): nat { lblk + len }

    predicate Covers(b: int) { lblk <= b < End() }

    predicate Valid() {
      && 0 < len && End() <= MAX_BLOCKS
      && st.Sane()
      && (st.Mapped() ==> pblk + len <= PBLK_LIMIT)
    }

    /** What the extent records about block `b`. */
    function At(b: int): Info
      requires Covers(b)
    {
      Info(st, if st.Mapped() then pblk + (b - lblk) else 0)
    }

    /** es_pblk: the flags above the physical block. */
    function Word(): nat { StorePblockStatus(pblk, FlagBits(st, referenced)) }

    /** The extent after ext4_es_store_pblock, read back from its word. */
    function WithPblock(pb: nat): (r: Extent)
      ensures r == this.(pblk := pb % PBLK_LIMIT)
    {
      WordRoundTrip(this);
      StoresIndependent(Word(), pb, 0);
      var w := StorePblock(Word(), pb);
      Extent(lblk, len, WordPblock(w), TypeOf(WordFlags(w)), IsReferenced(WordFlags(w)))
    }
  }

  /** The status of one block and, for mapped ones, where it is. */
  datatype Info = Info(st: Status, pblk: nat)

  predicate IsDelayed(i: Option<Info>) { i.Some? && i.value.st.delayed }

  // ----- a list of extents as a map -----

  ghost function Known(es: seq<Extent>, b: int): Option<Info> {
    if es == [] then None
    else if es[0].Covers(b) then Some(es[0].At(b))
    else Known(es[1..], b)
  }

  /** The extents are valid, disjoint, in order and inside [lo, hi). */
  ghost predicate Ordered(es: seq<Extent>, lo: int, hi: int) {
    if es == [] then lo <= hi
    else lo <= es[0].lblk && es[0].Valid() && Ordered(es[1..], es[0].End(), hi)
  }

  function LastEnd(es: seq<Extent>, lo: int): int {
    if es == [] then lo else es[|es| - 1].End()
  }

  lemma {:induction false} KnownConcat(x: seq<Extent>, y: seq<Extent>, b: int)
    ensures Known(x + y, b) == if Known(x, b).Some? then Known(x, b) else Known(y, b)
  {
    if x == [] {
      assert x + y == y;
    } else {
      assert (x + y)[1..] == x[1..] + y;
      KnownConcat(x[1..], y, b);
    }
  }

  lemma {:induction false} KnownWithin(es: seq<Extent>, lo: int, hi: int, b: int)
    requires Ordered(es, lo, hi)
    ensures Known(es, b).Some? ==> lo <= b < hi
    ensures lo <= LastEnd(es, lo) <= hi
  {
    if es != [] {
      KnownWithin(es[1..], es[0].End(), hi, b);
    }
  }

  lemma {:induction false} OrderedConcat(x: seq<Extent>, y: seq<Extent>, lo: int, mid: int, hi: int)
    requires Ordered(x, lo, mid) && Ordered(y, mid, hi)
    ensures Ordered(x + y, lo, hi)
  {
    if x == [] {
      assert x + y == y;
      Loosen(y, lo, mid, hi, hi);
    } else {
      assert (x + y)[1..] == x[1..] + y;
      OrderedConcat(x[1..], y, x[0].End(), mid, hi);
    }
  }

  lemma {:induction false} OrderedSplit(x: seq<Extent>, y: seq<Extent>, lo: int, hi: int)
    requires Ordered(x + y, lo, hi)
    ensures Ordered(x, lo, LastEnd(x, lo)) && Ordered(y, LastEnd(x, lo), hi)
    ensures lo <= LastEnd(x, lo) <= hi
  {
    if x == [] {
      assert x + y == y;
      KnownWithin(y, lo, hi, 0);
    } else {
      assert (x + y)[1..] == x[1..] + y;
      OrderedSplit(x[1..], y, x[0].End(), hi);
    }
  }

  lemma {:induction false} Loosen(es: seq<Extent>, lo: int, lo': int, hi: int, hi': int)
    requires Ordered(es, lo', hi) && lo <= lo' && hi <= hi'
    ensures Ordered(es, lo, hi')
  {
    if es != [] {
      Loosen(es[1..], es[0].End(), es[0].End(), hi, hi');
    }
  }

  /** A list around one extent: everything before it lies below, everything after it above. */
  lemma Around(es: seq<Extent>, i: nat, lo: int, hi: int)
    requires Ordered(es, lo, hi) && i < |es|
    ensures es == es[..i] + [es[i]] + es[i + 1..]
    ensures es[i].Valid()
    ensures Ordered(es[..i], lo, LastEnd(es[..i], lo)) && LastEnd(es[..i], lo) <= es[i].lblk
    ensures Ordered(es[i + 1..], es[i].End(), hi)
  {
    assert es == es[..i] + es[i..];
    OrderedSplit(es[..i], es[i..], lo, hi);
    assert es[i..][1..] == es[i + 1..];
  }

  /** What the list says, seen from one of its extents. */
  lemma KnownAround(es: seq<Extent>, i: nat, lo: int, hi: int, b: int)
    requires Ordered(es, lo, hi) && i < |es|
    ensures Known(es, b) ==
            if b < es[i].lblk then Known(es[..i], b)
            else if b < es[i].End() then Some(es[i].At(b))
            else Known(es[i + 1..], b)
    ensures b >= es[i].lblk ==> Known(es[..i], b).None?
    ensures b < es[i].End() ==> Known(es[i + 1..], b).None?
  {
    Around(es, i, lo, hi);
    var x, y := es[..i], es[i + 1..];
    assert es == x + ([es[i]] + y);
    KnownConcat(x, [es[i]] + y, b);
    KnownConcat([es[i]], y, b);
    KnownWithin(x, lo, LastEnd(x, lo), b);
    KnownWithin(y, es[i].End(), hi, b);
    assert [es[i]][1..] == [];
  }

  // ----- reclaimable extents -----

  function Reclaimable(es: seq<Extent>): nat {
    if es == [] then 0 else Reclaimable(es[1..]) + if es[0].st.delayed then 0 else 1
  }

  lemma {:induction false} ReclaimableConcat(x: seq<Extent>, y: seq<Extent>)
    ensures Reclaimable(x + y) == Reclaimable(x) + Reclaimable(y)
  {
    if x == [] {
      assert x + y == y;
    } else {
      assert (x + y)[1..] == x[1..] + y;
      ReclaimableConcat(x[1..], y);
    }
  }

  // ----- the merge rule -----

  /** ext4_es_can_be_merged */
  predicate CanMerge(a: Extent, b: Extent) {
    && a.st == b.st
    && a.len + b.len <= MAX_BLOCKS
    && a.End() == b.lblk
    && (|| (a.st.Mapped() && a.pblk + a.len == b.pblk)
        || a.st.hole
        || (a.st.delayed && !a.st.unwritten))
  }

  function Merged(a: Extent, b: Extent, referenced: bool): Extent {
    Extent(a.lblk, a.len + b.len, a.pblk, a.st, referenced)
  }

  /** Merging changes nothing about any block. */
  ghost predicate MergeFaithful(a: Extent, b: Extent) {
    forall x: int :: Known([Merged(a, b, false)], x) == Known([a, b], x)
  }

  lemma KnownPair(a: Extent, b: Extent, x: int)
    ensures Known([a], x) == if a.Covers(x) then Some(a.At(x)) else None
    ensures Known([a, b], x) == if a.Covers(x) then Some(a.At(x)) else if b.Covers(x) then Some(b.At(x)) else None
  {
    assert [a, b][1..] == [b] && [b][1..] == [] && [a][1..] == [];
  }

  lemma MergeSound(a: Extent, b: Extent, referenced: bool, x: int)
    requires a.st.Sane() && CanMerge(a, b)
    ensures a.Valid() && b.Valid() ==> Merged(a, b, referenced).Valid()
    ensures Known([Merged(a, b, referenced)], x) == Known([a, b], x)
  {
    KnownPair(a, b, x);
    KnownPair(Merged(a, b, referenced), b, x);
  }

  /** Every merge the rule allows for a status is faithful exactly if the status is sane: for the others some pair of
      extents merges although their physical blocks do not continue each other. */
  lemma MergeSoundExactly(st: Status)
    ensures st.Sane() <==> forall a: Extent, b: Extent | a.st == st && CanMerge(a, b) :: MergeFaithful(a, b)
  {
    if st.Sane() {
      forall a: Extent, b: Extent | a.st == st && CanMerge(a, b)
        ensures MergeFaithful(a, b)
      {
        forall x: int
          ensures Known([Merged(a, b, false)], x) == Known([a, b], x)
        {
          MergeSound(a, b, false, x);
        }
      }
    } else {
      var a, b := Extent(0, 1, 7, st, false), Extent(1, 1, 7, st, false);
      KnownPair(a, b, 1);
      KnownPair(Merged(a, b, false), b, 1);
      assert CanMerge(a, b) && !MergeFaithful(a, b);
    }
  }

  // ----- trimming -----

  /** The extent without its blocks from `from` on. */
  function KeepBelow(e: Extent, from: nat): Extent
    requires e.lblk < from <= e.End()
  {
    e.(len := from - e.lblk)
  }

  /** Adding to the packed word adds to the block, as long as that stays in range. */
  lemma AddToWord(e: Extent, d: nat)
    requires e.pblk + d < PBLK_LIMIT
    ensures WordPblock((e.Word() + d) % WORD_LIMIT) == e.pblk + d
  {
    FlagsRoundTrip(e.st, e.referenced);
    AddBelow(FlagBits(e.st, e.referenced), e.pblk, d);
  }

  lemma AddBelow(flags: nat, pblk: nat, d: nat)
    requires flags < 32 && pblk + d < PBLK_LIMIT
    ensures (StorePblockStatus(pblk, flags) + d) % WORD_LIMIT % PBLK_LIMIT == pblk + d
  {
    assert StorePblockStatus(pblk, flags) + d == flags * PBLK_LIMIT + (pblk + d) < WORD_LIMIT;
  }

  /** The extent without its blocks below `from`.  The code adds the offset to the packed word, flags included, and
      stores the sum back as a block number: as long as the blocks are in range that moves the block and nothing
      else. */
  function KeepFrom(e: Extent, from: nat): (k: Extent)
    requires e.lblk <= from < e.End()
    ensures e.Valid() ==>
              k == e.(lblk := from, len := e.End() - from, pblk := if e.st.Mapped() then e.pblk + (from - e.lblk)
                      else e.pblk)
  {
    var k, d := e.(lblk := from, len := e.End() - from), from - e.lblk;
    assert e.Valid() && e.st.Mapped() ==> WordPblock((e.Word() + d) % WORD_LIMIT) == e.pblk + d by {
      if e.Valid() && e.st.Mapped() {
        AddToWord(e, d);
      }
    }
    if e.st.Mapped() then k.WithPblock((e.Word() + d) % WORD_LIMIT) else k
  }

  /** Extent `e` grown to the left by `newes`, whose packed word is stored as the block number. */
  function Prepended(e: Extent, newes: Extent): (g: Extent)
    ensures newes.Valid() && (e.st.Mapped() ==> newes.st.Mapped()) ==>
              g == e.(lblk := newes.lblk, len := e.len + newes.len, pblk := if e.st.Mapped() then newes.pblk
                      else e.pblk)
  {
    WordRoundTrip(newes);
    var g := e.(lblk := newes.lblk, len := e.len + newes.len);
    if e.st.Mapped() then g.WithPblock(newes.Word()) else g
  }

  // ----- edits of a sorted list -----

  /** The second list knows what the first knows, plus the new extent. */
  ghost predicate Inserted(es: seq<Extent>, es': seq<Extent>, newes: Extent) {
    forall b: int :: Known(es', b) == if newes.Covers(b) then Some(newes.At(b)) else Known(es, b)
  }

  /** The second list knows what the first knows, minus the blocks in [lo, hi). */
  ghost predicate Erased(es: seq<Extent>, es': seq<Extent>, lo: int, hi: int) {
    forall b: int :: Known(es', b) == if lo <= b < hi then None else Known(es, b)
  }

  /** The extents `x` and `y` replace each other in the middle of a list. */
  lemma Splice(l: seq<Extent>, x: seq<Extent>, y: seq<Extent>, r: seq<Extent>, b: int)
    ensures Known(l + x + r, b) ==
            if Known(l, b).Some? then Known(l, b) else if Known(x, b).Some? then Known(x, b) else Known(r, b)
    ensures Known(l + y + r, b) ==
            if Known(l, b).Some? then Known(l, b) else if Known(y, b).Some? then Known(y, b) else Known(r, b)
    ensures Reclaimable(l + x + r) - Reclaimable(x) == Reclaimable(l + y + r) - Reclaimable(y)
  {
    KnownConcat(l + x, r, b);
    KnownConcat(l, x, b);
    KnownConcat(l + y, r, b);
    KnownConcat(l, y, b);
    ReclaimableConcat(l + x, r);
    ReclaimableConcat(l, x);
    ReclaimableConcat(l + y, r);
    ReclaimableConcat(l, y);
  }

  lemma OrderedSplice(l: seq<Extent>, y: seq<Extent>, r: seq<Extent>, lo: int, a: int, c: int, hi: int)
    requires Ordered(l, lo, a) && Ordered(y, a, c) && Ordered(r, c, hi)
    ensures Ordered(l + y + r, lo, hi)
  {
    OrderedConcat(l, y, lo, a, c);
    OrderedConcat(l + y, r, lo, c, hi);
  }

  lemma Single(e: Extent, lo: int, hi: int)
    requires e.Valid() && lo <= e.lblk && e.End() <= hi
    ensures Ordered([e], lo, hi)
    ensures forall b: int :: Known([e], b) == if e.Covers(b) then Some(e.At(b)) else None
    ensures Reclaimable([e]) == if e.st.delayed then 0 else 1
  {
    assert [e][1..] == [];
  }

  /** Linking a new extent between its neighbours. */
  lemma LinkEffect(es: seq<Extent>, i: nat, newes: Extent)
    requires Ordered(es, 0, MAX_BLOCKS) && newes.Valid() && i <= |es|
    requires LastEnd(es[..i], 0) <= newes.lblk && (i < |es| ==> newes.End() <= es[i].lblk)
    ensures var es' := es[..i] + [newes] + es[i..];
            Ordered(es', 0, MAX_BLOCKS) && Inserted(es, es', newes) &&
            Reclaimable(es') == Reclaimable(es) + if newes.st.delayed then 0 else 1
  {
    var l, r := es[..i], es[i..];
    assert es == l + r && es == l + [] + r;
    OrderedSplit(l, r, 0, MAX_BLOCKS);
    Single(newes, LastEnd(l, 0), newes.End());
    assert Ordered(r, newes.End(), MAX_BLOCKS);
    OrderedSplice(l, [newes], r, 0, LastEnd(l, 0), newes.End(), MAX_BLOCKS);
    forall b: int
      ensures Known(l + [newes] + r, b) == if newes.Covers(b) then Some(newes.At(b)) else Known(es, b)
    {
      Splice(l, [], [newes], r, b);
      KnownWithin(l, 0, LastEnd(l, 0), b);
      KnownWithin(r, newes.End(), MAX_BLOCKS, b);
    }
    Splice(l, [], [newes], r, 0);
  }

  /** Replacing one extent by another that fits between its neighbours. */
  lemma ReplaceEffect(es: seq<Extent>, i: nat, e: Extent)
    requires Ordered(es, 0, MAX_BLOCKS) && i < |es| && e.Valid()
    requires LastEnd(es[..i], 0) <= e.lblk && (i + 1 < |es| ==> e.End() <= es[i + 1].lblk)
    ensures var es' := es[i := e];
            && Ordered(es', 0, MAX_BLOCKS)
            && (forall b: int :: Known(es', b) ==
                  if e.Covers(b) then Some(e.At(b)) else if es[i].Covers(b) then None else Known(es, b))
            && (e.st.delayed == es[i].st.delayed ==> Reclaimable(es') == Reclaimable(es))
  {
    var l, r := es[..i], es[i + 1..];
    Around(es, i, 0, MAX_BLOCKS);
    assert es[i := e] == l + [e] + r;
    Single(e, LastEnd(l, 0), e.End());
    Single(es[i], LastEnd(l, 0), es[i].End());
    assert Ordered(r, e.End(), MAX_BLOCKS);
    OrderedSplice(l, [e], r, 0, LastEnd(l, 0), e.End(), MAX_BLOCKS);
    forall b: int
      ensures Known(l + [e] + r, b) ==
              if e.Covers(b) then Some(e.At(b)) else if es[i].Covers(b) then None else Known(es, b)
    {
      Splice(l, [es[i]], [e], r, b);
      KnownWithin(l, 0, LastEnd(l, 0), b);
      KnownWithin(r, es[i].End(), MAX_BLOCKS, b);
      KnownWithin(r, e.End(), MAX_BLOCKS, b);
    }
    Splice(l, [es[i]], [e], r, 0);
  }

  /** Unlinking one extent. */
  lemma UnlinkEffect(es: seq<Extent>, i: nat)
    requires Ordered(es, 0, MAX_BLOCKS) && i < |es|
    ensures var es' := es[..i] + es[i + 1..];
            Ordered(es', 0, MAX_BLOCKS) && Erased(es, es', es[i].lblk, es[i].End()) &&
            Reclaimable(es') + (if es[i].st.delayed then 0 else 1) == Reclaimable(es)
  {
    var l, r := es[..i], es[i + 1..];
    Around(es, i, 0, MAX_BLOCKS);
    assert l + r == l + [] + r;
    Single(es[i], LastEnd(l, 0), es[i].End());
    OrderedSplice(l, [], r, 0, LastEnd(l, 0), es[i].End(), MAX_BLOCKS);
    forall b: int
      ensures Known(l + r, b) == if es[i].lblk <= b < es[i].End() then None else Known(es, b)
    {
      Splice(l, [es[i]], [], r, b);
      KnownWithin(l, 0, LastEnd(l, 0), b);
      KnownWithin(r, es[i].End(), MAX_BLOCKS, b);
    }
    Splice(l, [es[i]], [], r, 0);
  }

  /** Merging two neighbours. */
  lemma MergeEffect(es: seq<Extent>, i: nat, referenced: bool)
    requires Ordered(es, 0, MAX_BLOCKS) && i + 1 < |es| && CanMerge(es[i], es[i + 1])
    ensures var es' := es[..i] + [Merged(es[i], es[i + 1], referenced)] + es[i + 2..];
            Ordered(es', 0, MAX_BLOCKS) && (forall b: int :: Known(es', b) == Known(es, b)) &&
            Reclaimable(es') + (if es[i + 1].st.delayed then 0 else 1) == Reclaimable(es)
  {
    var l, r, m := es[..i], es[i + 2..], Merged(es[i], es[i + 1], referenced);
    Around(es, i, 0, MAX_BLOCKS);
    Around(es, i + 1, 0, MAX_BLOCKS);
    assert es == l + [es[i], es[i + 1]] + r;
    MergeSound(es[i], es[i + 1], referenced, 0);
    Single(m, LastEnd(l, 0), m.End());
    OrderedSplice(l, [m], r, 0, LastEnd(l, 0), m.End(), MAX_BLOCKS);
    forall b: int
      ensures Known(l + [m] + r, b) == Known(es, b)
    {
      MergeSound(es[i], es[i + 1], referenced, b);
      Splice(l, [es[i], es[i + 1]], [m], r, b);
    }
    Splice(l, [es[i], es[i + 1]], [m], r, 0);
    ReclaimableConcat([es[i]], [es[i + 1]]);
    assert [es[i]] + [es[i + 1]] == [es[i], es[i + 1]];
    Single(es[i], LastEnd(l, 0), es[i].End());
    Single(es[i + 1], es[i].End(), es[i + 1].End());
  }

  // ----- inserting into a gap -----

  /** Nothing is known about any block of the extent. */
  ghost predicate Free(es: seq<Extent>, e: Extent) {
    forall b: int | e.Covers(b) :: Known(es, b).None?
  }

  lemma FreeApart(es: seq<Extent>, e: Extent, m: nat)
    requires Ordered(es, 0, MAX_BLOCKS) && Free(es, e) && e.Valid() && m < |es|
    ensures es[m].End() <= e.lblk || e.End() <= es[m].lblk
  {
    var b := if e.lblk < es[m].lblk then es[m].lblk else e.lblk;
    Around(es, m, 0, MAX_BLOCKS);
    KnownAround(es, m, 0, MAX_BLOCKS, b);
  }

  /** Neighbours in a list are in order. */
  lemma Neighbours(es: seq<Extent>, m: nat)
    requires Ordered(es, 0, MAX_BLOCKS) && m < |es|
    ensures es[m].Valid()
    ensures 0 < m ==> LastEnd(es[..m], 0) == es[m - 1].End() <= es[m].lblk
    ensures m + 1 < |es| ==> es[m].End() <= es[m + 1].lblk
  {
    Around(es, m, 0, MAX_BLOCKS);
  }

  /** `g` is extent `m` grown by the adjacent extent `e`. */
  ghost predicate Grown(es: seq<Extent>, m: nat, e: Extent, g: Extent)
    requires m < |es|
  {
    && e.st == es[m].st == g.st
    && (if e.lblk < es[m].lblk then e.End() == es[m].lblk && g.lblk == e.lblk
        else es[m].End() == e.lblk && g.lblk == es[m].lblk)
    && g.len == e.len + es[m].len
    && (g.st.Mapped() ==> g.pblk - g.lblk == es[m].pblk - es[m].lblk == e.pblk - e.lblk)
  }

  lemma GrownFits(es: seq<Extent>, m: nat, e: Extent, g: Extent)
    requires Ordered(es, 0, MAX_BLOCKS) && m < |es| && Free(es, e) && e.Valid() && Grown(es, m, e, g)
    ensures g.Valid()
    ensures LastEnd(es[..m], 0) <= g.lblk && (m + 1 < |es| ==> g.End() <= es[m + 1].lblk)
  {
    Neighbours(es, m);
    if 0 < m {
      FreeApart(es, e, m - 1);
      Neighbours(es, m - 1);
    }
    if m + 1 < |es| {
      FreeApart(es, e, m + 1);
      Neighbours(es, m + 1);
    }
  }

  /** Growing an extent records exactly the new blocks. */
  lemma GrowEffect(es: seq<Extent>, m: nat, e: Extent, g: Extent)
    requires Ordered(es, 0, MAX_BLOCKS) && m < |es| && Free(es, e) && e.Valid() && Grown(es, m, e, g)
    ensures Ordered(es[m := g], 0, MAX_BLOCKS) && Inserted(es, es[m := g], e)
    ensures Reclaimable(es[m := g]) == Reclaimable(es)
  {
    GrownFits(es, m, e, g);
    ReplaceEffect(es, m, g);
    forall b: int
      ensures Known(es[m := g], b) == if e.Covers(b) then Some(e.At(b)) else Known(es, b)
    {
      KnownAround(es, m, 0, MAX_BLOCKS, b);
    }
  }
}
