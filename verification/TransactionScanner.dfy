/**
 The scanner over a stream's ring of ordering metadata (ccnvme/checkpoint.c, commit_write).

 The ring is walked from head to flushed with a two-valued phase; every entry strictly between a
 BEGIN and the next END is handed over for write-back with the END's transaction id.  The result is
 specified without phases, by cutting the linearised log into transactions.
 */
module TransactionScanner {

  /** The bits of the three-bit tag field. */
  datatype Tag = Tag(begin: bool, tx: bool, end: bool)

  /** One slot of ordering metadata (struct nvme_rw_command_). */
  datatype Entry = Entry(lba: nat, length: nat, txid: nat, tag: Tag, device: nat, plba: nat)

  predicate Begins(o: Entry) { o.tag.begin }

  predicate Ends(o: Entry) { o.tag.end }

  /** An entry handed to the write-back routine, with the transaction id it is committed under. */
  datatype Handed = Handed(entry: Entry, txid: nat)

  // ----- the ring as a log -----

  /** The slot `i` places after `head` in a ring of `n` slots, for `i` up to one lap. */
  function Slot(head: nat, i: nat, n: nat): nat {
    if head + i < n then head + i else head + i - n
  }

  function LiveCount(head: nat, flushed: nat, n: nat): nat
    requires head < n && flushed < n
  {
    if head <= flushed then flushed - head else n - head + flushed
  }

  /** The live part of the ring, in log order. */
  function Linearise(ring: seq<Entry>, head: nat, flushed: nat): (log: seq<Entry>)
    requires head < |ring| && flushed < |ring|
    ensures |log| == LiveCount(head, flushed, |ring|)
    ensures forall i | 0 <= i < |log| :: log[i] == ring[Slot(head, i, |ring|)]
  {
    if head <= flushed then ring[head..flushed] else ring[head..] + ring[..flushed]
  }

  // ----- what the scan means -----

  /** A complete transaction: the positions of its BEGIN and of its END in the log. */
  datatype Span = Span(begin: nat, end: nat)

  ghost predicate NoBegin(log: seq<Entry>, lo: nat, hi: nat)
    requires hi <= |log|
  {
    forall k | lo <= k < hi :: !Begins(log[k])
  }

  ghost predicate NoEnd(log: seq<Entry>, lo: nat, hi: nat)
    requires hi <= |log|
  {
    forall k | lo <= k < hi :: !Ends(log[k])
  }

  /** Where the log goes on after the first `t` transactions. */
  ghost function Resume(spans: seq<Span>, t: nat): nat
    requires t <= |spans|
  {
    if t == 0 then 0 else spans[t - 1].end + 1
  }

  /** `s` is the first complete transaction at or after position `from`. */
  ghost predicate IsNext(log: seq<Entry>, from: nat, s: Span) {
    && from <= s.begin < s.end < |log|
    && NoBegin(log, from, s.begin) && Begins(log[s.begin])
    && NoEnd(log, s.begin + 1, s.end) && Ends(log[s.end])
  }

  /** A transaction is open at `i` since the BEGIN at `b`. */
  ghost predicate OpenSince(log: seq<Entry>, from: nat, b: nat, i: nat)
    requires i <= |log|
  {
    from <= b < i && NoBegin(log, from, b) && Begins(log[b]) && NoEnd(log, b + 1, i)
  }

  /** No transaction is complete between `from` and `i`. */
  ghost predicate Unmatched(log: seq<Entry>, from: nat, i: nat)
    requires i <= |log|
  {
    NoBegin(log, from, i) || exists b :: OpenSince(log, from, b, i)
  }

  ghost predicate Within(log: seq<Entry>, spans: seq<Span>) {
    forall t | 0 <= t < |spans| :: spans[t].begin < spans[t].end < |log|
  }

  ghost predicate IsNextAt(log: seq<Entry>, spans: seq<Span>, t: nat)
    requires t < |spans|
  {
    IsNext(log, Resume(spans, t), spans[t])
  }

  /** `spans` are the consecutive complete transactions found in the first `i` entries. */
  ghost predicate Transactions(log: seq<Entry>, spans: seq<Span>, i: nat) {
    && Within(log, spans)
    && Resume(spans, |spans|) <= i <= |log|
    && forall t | 0 <= t < |spans| :: IsNextAt(log, spans, t)
  }

  /** `spans` are all complete transactions of the log. */
  ghost predicate IsCut(log: seq<Entry>, spans: seq<Span>) {
    && Transactions(log, spans, |log|)
    && Unmatched(log, Resume(spans, |spans|), |log|)
  }

  /** The journalled entries (plba != 0) in [lo, hi), each once and in order. */
  ghost function Journalled(log: seq<Entry>, lo: nat, hi: nat, txid: nat): seq<Handed>
    requires lo <= hi <= |log|
    decreases hi
  {
    if lo == hi then []
    else Journalled(log, lo, hi - 1, txid) + if log[hi - 1].plba == 0 then [] else [Handed(log[hi - 1], txid)]
  }

  ghost function Delivery(log: seq<Entry>, spans: seq<Span>): seq<Handed>
    requires Within(log, spans)
  {
    if spans == [] then []
    else
      var s := spans[|spans| - 1];
      Delivery(log, spans[..|spans| - 1]) + Journalled(log, s.begin + 1, s.end, log[s.end].txid)
  }

  // ----- what is delivered, position by position -----

  ghost predicate Increasing(ps: seq<nat>) {
    forall i, j | 0 <= i < j < |ps| :: ps[i] < ps[j]
  }

  ghost predicate Among(k: nat, ps: seq<nat>) { k in ps }

  /** Position `k` of [lo, hi) has a journal block. */
  ghost predicate HasBlock(log: seq<Entry>, lo: nat, hi: nat, k: nat) {
    lo <= k < hi && k < |log| && log[k].plba != 0
  }

  /** The positions of [lo, hi) with a journal block, in order. */
  ghost predicate AllWithBlock(ps: seq<nat>, log: seq<Entry>, lo: nat, hi: nat) {
    Increasing(ps) && forall k: nat :: Among(k, ps) <==> HasBlock(log, lo, hi, k)
  }

  /** The entries at the positions, under one id. */
  ghost predicate TakenFrom(handed: seq<Handed>, log: seq<Entry>, ps: seq<nat>, txid: nat) {
    |handed| == |ps| && forall i | 0 <= i < |ps| :: ps[i] < |log| && handed[i] == Handed(log[ps[i]], txid)
  }

  lemma OneMoreBlock(ps: seq<nat>, log: seq<Entry>, lo: nat, hi: nat)
    requires lo < hi <= |log| && AllWithBlock(ps, log, lo, hi - 1)
    ensures AllWithBlock(if log[hi - 1].plba == 0 then ps else ps + [hi - 1], log, lo, hi)
  {
    var ps' := if log[hi - 1].plba == 0 then ps else ps + [hi - 1];
    forall i | 0 <= i < |ps|
      ensures ps[i] < hi - 1
    {
      assert Among(ps[i], ps);
      assert HasBlock(log, lo, hi - 1, ps[i]);
    }
    forall k: nat
      ensures Among(k, ps') <==> HasBlock(log, lo, hi, k)
    {
      assert Among(k, ps) <==> HasBlock(log, lo, hi - 1, k);
    }
  }

  lemma TakenMore(handed: seq<Handed>, log: seq<Entry>, ps: seq<nat>, txid: nat, k: nat)
    requires TakenFrom(handed, log, ps, txid) && k < |log|
    ensures TakenFrom(handed + [Handed(log[k], txid)], log, ps + [k], txid)
  {
  }

  lemma NoBlocks(log: seq<Entry>, lo: nat)
    ensures AllWithBlock([], log, lo, lo)
  {
  }

  /** Exactly the positions in [lo, hi) whose entry has a journal block, in order. */
  lemma {:induction false} JournalledExactly(log: seq<Entry>, lo: nat, hi: nat, txid: nat) returns (ps: seq<nat>)
    requires lo <= hi <= |log|
    ensures AllWithBlock(ps, log, lo, hi) && TakenFrom(Journalled(log, lo, hi, txid), log, ps, txid)
    decreases hi
  {
    if lo == hi {
      ps := [];
      NoBlocks(log, lo);
    } else {
      var front := JournalledExactly(log, lo, hi - 1, txid);
      ps := AddBlock(front, log, lo, hi, txid, Journalled(log, lo, hi - 1, txid));
    }
  }

  lemma AddBlock(front: seq<nat>, log: seq<Entry>, lo: nat, hi: nat, txid: nat, handed: seq<Handed>)
    returns (ps: seq<nat>)
    requires lo < hi <= |log| && AllWithBlock(front, log, lo, hi - 1) && TakenFrom(handed, log, front, txid)
    ensures AllWithBlock(ps, log, lo, hi)
    ensures TakenFrom(handed + if log[hi - 1].plba == 0 then [] else [Handed(log[hi - 1], txid)], log, ps, txid)
  {
    OneMoreBlock(front, log, lo, hi);
    if log[hi - 1].plba == 0 {
      ps := front;
      assert handed + [] == handed;
    } else {
      ps := front + [hi - 1];
      TakenMore(handed, log, front, txid, hi - 1);
    }
  }

  /** Position `k` lies strictly inside transaction `t`. */
  ghost predicate Inside(spans: seq<Span>, t: nat, k: nat) {
    t < |spans| && spans[t].begin < k < spans[t].end
  }

  /** Position `k` has a journal block and lies strictly inside some transaction. */
  ghost predicate Due(log: seq<Entry>, spans: seq<Span>, k: nat) {
    k < |log| && log[k].plba != 0 && exists t: nat :: Inside(spans, t, k)
  }

  /** The positions that are due, in order. */
  ghost predicate AllDue(ps: seq<nat>, log: seq<Entry>, spans: seq<Span>) {
    Increasing(ps) && forall k: nat :: Among(k, ps) <==> Due(log, spans, k)
  }

  /** Entry `h` is that of position `k`, under the id of the END of its transaction. */
  ghost predicate HandedAt(log: seq<Entry>, spans: seq<Span>, h: Handed, k: nat)
    requires Within(log, spans)
  {
    k < |log| && h.entry == log[k] && exists t: nat :: Inside(spans, t, k) && h.txid == log[spans[t].end].txid
  }

  /** Exactly the positions that are due, once each and in log order. */
  ghost predicate DeliveredAt(log: seq<Entry>, spans: seq<Span>, handed: seq<Handed>, ps: seq<nat>)
    requires Within(log, spans)
  {
    && AllDue(ps, log, spans)
    && |handed| == |ps| && forall i | 0 <= i < |ps| :: HandedAt(log, spans, handed[i], ps[i])
  }

  /** The transactions come one after the other. */
  lemma {:induction false} SpansApart(log: seq<Entry>, spans: seq<Span>, i: nat, t: nat, u: nat)
    requires Transactions(log, spans, i) && t < u < |spans|
    ensures spans[t].end < spans[u].begin
    decreases u
  {
    assert IsNextAt(log, spans, u);
    if t + 1 < u {
      SpansApart(log, spans, i, t, u - 1);
      assert IsNextAt(log, spans, u - 1);
    }
  }

  lemma TransactionsPrefix(log: seq<Entry>, spans: seq<Span>, i: nat)
    requires Transactions(log, spans, i) && spans != []
    ensures Transactions(log, spans[..|spans| - 1], i)
  {
    var x := spans[..|spans| - 1];
    forall t | 0 <= t < |x|
      ensures IsNextAt(log, x, t)
    {
      assert IsNextAt(log, spans, t);
    }
    assert IsNextAt(log, spans, |spans| - 1);
  }

  lemma NothingDue(log: seq<Entry>)
    ensures DeliveredAt(log, [], [], [])
  {
    forall k: nat
      ensures !Due(log, [], k)
    {
      assert forall t: nat :: !Inside([], t, k);
    }
  }

  /** What is delivered are exactly the positions that are due. */
  lemma {:induction false} DeliveryExactly(log: seq<Entry>, spans: seq<Span>, i: nat) returns (ps: seq<nat>)
    requires Transactions(log, spans, i)
    ensures DeliveredAt(log, spans, Delivery(log, spans), ps)
    decreases |spans|
  {
    if spans == [] {
      ps := [];
      NothingDue(log);
    } else {
      TransactionsPrefix(log, spans, i);
      var front := DeliveryExactly(log, spans[..|spans| - 1], i);
      ps := LastSpan(log, spans, i, Delivery(log, spans[..|spans| - 1]), front);
    }
  }

  lemma LastSpan(log: seq<Entry>, spans: seq<Span>, i: nat, x: seq<Handed>, front: seq<nat>) returns (ps: seq<nat>)
    requires Transactions(log, spans, i) && spans != [] && Within(log, spans[..|spans| - 1])
    requires DeliveredAt(log, spans[..|spans| - 1], x, front)
    ensures var s := spans[|spans| - 1];
            DeliveredAt(log, spans, x + Journalled(log, s.begin + 1, s.end, log[s.end].txid), ps)
  {
    var s := spans[|spans| - 1];
    var back := JournalledExactly(log, s.begin + 1, s.end, log[s.end].txid);
    ps := front + back;
    Joined(log, spans, i, x, Journalled(log, s.begin + 1, s.end, log[s.end].txid), front, back);
  }

  lemma Joined(log: seq<Entry>, spans: seq<Span>, i: nat, x: seq<Handed>, y: seq<Handed>, front: seq<nat>,
               back: seq<nat>)
    requires Transactions(log, spans, i) && spans != [] && Within(log, spans[..|spans| - 1])
    requires DeliveredAt(log, spans[..|spans| - 1], x, front)
    requires var s := spans[|spans| - 1];
             TakenFrom(y, log, back, log[s.end].txid) && AllWithBlock(back, log, s.begin + 1, s.end)
    ensures DeliveredAt(log, spans, x + y, front + back)
  {
    PositionsJoin(log, spans, i, front, back);
    OneMoreSpan(log, spans, x, y, front, back);
  }

  lemma DueSplit(log: seq<Entry>, spans: seq<Span>, k: nat)
    requires spans != []
    ensures var m := |spans| - 1;
            Due(log, spans, k) <==> Due(log, spans[..m], k) || HasBlock(log, spans[m].begin + 1, spans[m].end, k)
  {
    var m := |spans| - 1;
    if Due(log, spans, k) {
      var t: nat :| Inside(spans, t, k);
      assert t < m ==> Inside(spans[..m], t, k);
    }
    if Due(log, spans[..m], k) {
      var t: nat :| Inside(spans[..m], t, k);
      assert Inside(spans, t, k);
    }
    if HasBlock(log, spans[m].begin + 1, spans[m].end, k) {
      assert Inside(spans, m, k);
    }
  }

  lemma PositionsJoin(log: seq<Entry>, spans: seq<Span>, i: nat, front: seq<nat>, back: seq<nat>)
    requires Transactions(log, spans, i) && spans != []
    requires AllDue(front, log, spans[..|spans| - 1])
    requires AllWithBlock(back, log, spans[|spans| - 1].begin + 1, spans[|spans| - 1].end)
    ensures AllDue(front + back, log, spans)
  {
    var m, ps := |spans| - 1, front + back;
    var x := spans[..m];
    forall k: nat
      ensures Among(k, ps) <==> Due(log, spans, k)
    {
      assert Among(k, front) <==> Due(log, x, k);
      assert Among(k, back) <==> HasBlock(log, spans[m].begin + 1, spans[m].end, k);
      DueSplit(log, spans, k);
    }
    forall a, b | 0 <= a < b < |ps|
      ensures ps[a] < ps[b]
    {
      if a < |front| <= b {
        assert Among(front[a], front) && Among(back[b - |front|], back);
        assert Due(log, x, front[a]) && HasBlock(log, spans[m].begin + 1, spans[m].end, back[b - |front|]);
        var t: nat :| Inside(x, t, front[a]);
        SpansApart(log, spans, i, t, m);
      }
    }
  }

  lemma OneMoreSpan(log: seq<Entry>, spans: seq<Span>, x: seq<Handed>, y: seq<Handed>, front: seq<nat>, back: seq<nat>)
    requires spans != [] && Within(log, spans)
    requires DeliveredAt(log, spans[..|spans| - 1], x, front)
    requires var s := spans[|spans| - 1];
             && TakenFrom(y, log, back, log[s.end].txid)
             && AllWithBlock(back, log, s.begin + 1, s.end)
    ensures |x + y| == |front + back|
    ensures forall i | 0 <= i < |front + back| :: HandedAt(log, spans, (x + y)[i], (front + back)[i])
  {
    var m, ps := |spans| - 1, front + back;
    forall i | 0 <= i < |ps|
      ensures HandedAt(log, spans, (x + y)[i], ps[i])
    {
      if i < |front| {
        assert HandedAt(log, spans[..m], x[i], front[i]);
        var t: nat :| Inside(spans[..m], t, front[i]) && x[i].txid == log[spans[..m][t].end].txid;
        assert Inside(spans, t, front[i]);
      } else {
        assert Among(back[i - |front|], back);
        assert HasBlock(log, spans[m].begin + 1, spans[m].end, back[i - |front|]);
        assert Inside(spans, m, back[i - |front|]);
      }
    }
  }

  // ----- the cut is unique -----

  lemma NextUnique(log: seq<Entry>, from: nat, s: Span, s': Span)
    requires IsNext(log, from, s) && IsNext(log, from, s')
    ensures s == s'
  {
    assert s.begin == s'.begin;
  }

  lemma {:induction false} CutsAgree(log: seq<Entry>, spans: seq<Span>, spans': seq<Span>, t: nat)
    requires Transactions(log, spans, |log|) && Transactions(log, spans', |log|)
    requires t <= |spans| && t <= |spans'|
    ensures Resume(spans, t) == Resume(spans', t)
    ensures forall u | 0 <= u < t :: spans[u] == spans'[u]
  {
    if t > 0 {
      CutsAgree(log, spans, spans', t - 1);
      assert IsNextAt(log, spans, t - 1) && IsNextAt(log, spans', t - 1);
      NextUnique(log, Resume(spans, t - 1), spans[t - 1], spans'[t - 1]);
    }
  }

  lemma NotUnmatched(log: seq<Entry>, from: nat, s: Span)
    requires IsNext(log, from, s)
    ensures !Unmatched(log, from, |log|)
  {
  }

  lemma CutsEquallyLong(log: seq<Entry>, spans: seq<Span>, spans': seq<Span>)
    requires IsCut(log, spans) && IsCut(log, spans')
    ensures |spans'| <= |spans|
  {
    var t := |spans|;
    if t < |spans'| {
      CutsAgree(log, spans, spans', t);
      assert IsNextAt(log, spans', t);
      NotUnmatched(log, Resume(spans, t), spans'[t]);
    }
  }

  /** A log falls into complete transactions and an unmatched rest in one way only. */
  lemma CutUnique(log: seq<Entry>, spans: seq<Span>, spans': seq<Span>)
    requires IsCut(log, spans) && IsCut(log, spans')
    ensures spans == spans'
  {
    CutsEquallyLong(log, spans, spans');
    CutsEquallyLong(log, spans', spans);
    CutsAgree(log, spans, spans', |spans|);
  }

  // ----- the two wrapped index loops -----

  /** The first `i` entries have been scanned; a transaction is open since `b` unless `phase` is 0. */
  ghost predicate Scanned(log: seq<Entry>, spans: seq<Span>, i: nat, phase: nat, b: nat) {
    && Transactions(log, spans, i)
    && if phase == 0 then NoBegin(log, Resume(spans, |spans|), i) else OpenSince(log, Resume(spans, |spans|), b, i)
  }

  lemma {:induction false} ScanStep(log: seq<Entry>, spans: seq<Span>, i: nat, phase: nat, b: nat)
    requires Scanned(log, spans, i, phase, b) && i < |log|
    ensures phase == 0 && Begins(log[i]) ==> Scanned(log, spans, i + 1, 1, i)
    ensures phase == 0 && !Begins(log[i]) ==> Scanned(log, spans, i + 1, 0, b)
    ensures phase != 0 && !Ends(log[i]) ==> Scanned(log, spans, i + 1, phase, b)
    ensures phase != 0 && Ends(log[i]) ==> Scanned(log, spans + [Span(b, i)], i + 1, 0, b)
    ensures phase != 0 && Ends(log[i]) ==>
              Delivery(log, spans + [Span(b, i)]) ==
              Delivery(log, spans) + Journalled(log, b + 1, i, log[i].txid)
  {
    if phase != 0 && Ends(log[i]) {
      var more := spans + [Span(b, i)];
      assert more[..|spans|] == spans;
      forall t | 0 <= t < |more|
        ensures IsNextAt(log, more, t)
      {
        if t < |spans| {
          assert IsNextAt(log, spans, t) && Resume(more, t) == Resume(spans, t);
        }
      }
    }
  }

  method CommitWrite(ring: array<Entry>, head: nat, flushed: nat) returns (handed: seq<Handed>)
    requires head < ring.Length && flushed < ring.Length
    ensures exists spans, ps | IsCut(Linearise(ring[..], head, flushed), spans) ::
              DeliveredAt(Linearise(ring[..], head, flushed), spans, handed, ps)
  {
    var n := ring.Length;
    ghost var log := Linearise(ring[..], head, flushed);
    ghost var spans: seq<Span>, i, b := [], 0, 0;
    var m, phase, beginIdx := head, 0, 0;
    handed := [];
    while m != flushed
      invariant 0 <= i <= |log| < n && m == Slot(head, i, n)
      invariant Scanned(log, spans, i, phase, b)
      invariant phase != 0 ==> beginIdx == Slot(head, b, n)
      invariant handed == Delivery(log, spans)
      decreases |log| - i
    {
      var o := ring[m];
      assert o == log[i];
      ScanStep(log, spans, i, phase, b);
      if phase == 0 {
        if Begins(o) {
          beginIdx, phase, b := m, 1, i;
        }
      } else if Ends(o) {
        handed := HandOver(ring, beginIdx, m, o.txid, handed, head, flushed, b, i);
        spans, phase := spans + [Span(b, i)], 0;
      }
      m := NextSlot(m, n);
      i := i + 1;
    }
    assert IsCut(log, spans) && log == Linearise(ring[..], head, flushed);
    ghost var ps := DeliveryExactly(log, spans, |log|);
  }

  method NextSlot(m: nat, n: nat) returns (r: nat)
    requires m < n
    ensures r == Slot(m, 1, n)
  {
    r := (m + 1) % n;
  }

  /** The inner loop: hands over the entries strictly between the BEGIN slot and the END slot `j`. */
  method HandOver(ring: array<Entry>, beginIdx: nat, j: nat, txid: nat, before: seq<Handed>,
                  ghost head: nat, ghost flushed: nat, ghost b: nat, ghost e: nat) returns (handed: seq<Handed>)
    requires head < ring.Length && flushed < ring.Length
    requires b < e < LiveCount(head, flushed, ring.Length)
    requires beginIdx == Slot(head, b, ring.Length) && j == Slot(head, e, ring.Length)
    ensures handed == before + Journalled(Linearise(ring[..], head, flushed), b + 1, e, txid)
  {
    var n := ring.Length;
    ghost var log := Linearise(ring[..], head, flushed);
    var k := NextSlot(beginIdx, n);
    ghost var c := b + 1;
    handed := before;
    while k != j
      invariant b < c <= e && k == Slot(head, c, n)
      invariant handed == before + Journalled(log, b + 1, c, txid)
      decreases e - c
    {
      var o := ring[k];
      assert o == log[c];
      if o.plba != 0 {
        handed := handed + [Handed(o, txid)];
      }
      k := NextSlot(k, n);
      c := c + 1;
    }
  }
}
