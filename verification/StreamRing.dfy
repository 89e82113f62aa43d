/**
 A ccNVMe stream as a state machine over its atomic steps (ccnvme/horae.c, checkpoint.c, flush.c).

 Producers reserve a slot by moving the watermark, write the slot field by field and publish it by
 moving the tail; flushers, which share cp_rwsem, a truncating thread and a checkpointing thread move
 flushed and head.
 Positions are unbounded; the C fields are their residues modulo nr_ometa, and every comparison and
 every slot access below goes through residues, as in the source.  A producer only knows the residue of the
 watermark it read: when its compare-and-swap succeeds, the position it holds is the watermark's.
 */
module StreamRing {
  import opened Common
  import opened RingMacros
  import opened TransactionScanner

  /** The `flags` argument of stream_submit_bio_core: 0, HORAE_TX, HORAE_TX_END. */
  datatype Flag = Ordered | InTx | EndTx

  datatype Request = Request(lba: nat, length: nat, device: nat, plba: nat, flag: Flag)

  /** Program counter of a producer, with the watermark it read. */
  datatype Pc =
    | Entered                      // about to read the watermark, for the first time or again
    | Seen(pos: nat)               // watermark read
    | Checked(pos: nat)            // ring_space was at least one
    | Filling(pos: nat, done: nat) // slot reserved, `done` of its five fields written

  const FIELDS := 5

  datatype Call = Call(req: Request, pc: Pc)

  datatype Reservation = Reservation(id: nat, req: Request)

  /** A flush: head loaded for the count of entries, waiting for cp_rwsem, holding it with the tail it read. */
  datatype Flush = Looking(head: nat) | Waiting | Reading(value: nat)

  /** stream_do_checkpoint under cp_rwsem: two tests for space, its own truncation in between, then the stores. */
  datatype Checkpoint =
    | Off
    | Locked(again: bool)             // about to test, `again` after its own truncation
    | Looked(head: nat, again: bool)  // head loaded for the test
    | Short                           // the first test found no space
    | ShortLooked(head: nat)          // truncate_ordering_log has loaded head
    | Truncating                      // and found entries to drop: about to take journal_lock
    | OwnTruncation                   // holds journal_lock
    | Full                            // the second test found no space
    | Loaded(value: nat)              // tail loaded
    | Stored(value: nat)              // and stored into flushed

  datatype State = State(
    n: nat, head: nat, flushed: nat, tail: nat, watermark: nat, slots: seq<Entry>,
    committed: bool, calls: map<nat, Call>,           // producers inside stream_submit_bio_core
    reservations: seq<Reservation>,  // history: who reserved position p, and for what
    markers: map<nat, nat>,          // commits about to write TX_END, with the tail they loaded
    flushers: map<nat, Flush>, truncater: Option<nat>,          // the flushed pointer read under journal_lock
    checkpointer: Checkpoint)

  datatype Action =
    | Start(id: nat, req: Request)
    | Read(id: nat)
    | Check(id: nat)
    | Reserve(id: nat)
    | Fill(id: nat)
    | Publish(id: nat)
    | MarkRead(id: nat) | MarkWrite(id: nat)
    | FlushLook(id: nat) | FlushCheck(id: nat) | FlushRead(id: nat) | FlushWrite(id: nat)
    | TruncateRead | TruncateWrite
    | CheckpointLock | CheckpointLook | CheckpointTest
    | CheckpointTruncateLook | CheckpointTruncateTest | CheckpointTruncateRead | CheckpointTruncateWrite
    | CheckpointRead | CheckpointFlushed | CheckpointHead

  // ----- slots -----

  function OneBit(flag: Flag): Tag {
    match flag
    case Ordered => Tag(true, false, false)
    case InTx => Tag(false, true, false)
    case EndTx => Tag(false, false, true)
  }

  function NewTag(flag: Flag, committed: bool): Tag {
    if flag.InTx? && committed then OneBit(Ordered) else OneBit(flag)
  }

  /** The store that writes field number `k` of the slot. */
  function WriteField(e: Entry, r: Request, k: nat, committed: bool): Entry {
    if k == 0 then e.(device := r.device)
    else if k == 1 then e.(lba := r.lba)
    else if k == 2 then e.(length := r.length)
    else if k == 3 then e.(plba := r.plba)
    else e.(tag := NewTag(r.flag, committed))
  }

  /** The first `k` fields of the slot carry the request. */
  ghost predicate Carries(e: Entry, r: Request, k: nat) {
    && (k > 0 ==> e.device == r.device)
    && (k > 1 ==> e.lba == r.lba)
    && (k > 2 ==> e.length == r.length)
    && (k > 3 ==> e.plba == r.plba)
    && (k > 4 ==> e.tag == NewTag(r.flag, true) || e.tag == NewTag(r.flag, false))
  }

  // ----- steps -----

  /** No flush holds cp_rwsem. */
  ghost predicate NoReader(s: State) {
    forall id | id in s.flushers :: !s.flushers[id].Reading?
  }

  ghost predicate Enabled(s: State, a: Action)
    requires 0 < s.n
  {
    match a
    case Start(id, _) => id !in s.calls
    case Read(id) => id in s.calls && s.calls[id].pc.Entered?
    case Check(id) => id in s.calls && s.calls[id].pc.Seen?
    case Reserve(id) => id in s.calls && s.calls[id].pc.Checked?
    case Fill(id) => id in s.calls && s.calls[id].pc.Filling? && s.calls[id].pc.done < FIELDS
    case Publish(id) =>
      && id in s.calls && s.calls[id].pc.Filling? && s.calls[id].pc.done == FIELDS
      && s.tail % s.n == s.calls[id].pc.pos % s.n
    case MarkRead(id) => id !in s.markers
    case MarkWrite(id) => id in s.markers
    case FlushLook(id) => id !in s.flushers
    case FlushCheck(id) => id in s.flushers && s.flushers[id].Looking?
    case FlushRead(id) => id in s.flushers && s.flushers[id].Waiting? && s.checkpointer.Off?
    case FlushWrite(id) => id in s.flushers && s.flushers[id].Reading?
    case TruncateRead => s.truncater.None?
    case TruncateWrite => s.truncater.Some? && !s.checkpointer.OwnTruncation?
    case CheckpointLock => NoReader(s) && s.checkpointer.Off?
    case CheckpointLook => s.checkpointer.Locked?
    case CheckpointTest => s.checkpointer.Looked?
    case CheckpointTruncateLook => s.checkpointer.Short?
    case CheckpointTruncateTest => s.checkpointer.ShortLooked?
    case CheckpointTruncateRead => s.checkpointer.Truncating? && s.truncater.None?
    case CheckpointTruncateWrite => s.checkpointer.OwnTruncation? && s.truncater.Some?
    case CheckpointRead => s.checkpointer.Full?
    case CheckpointFlushed => s.checkpointer.Loaded?
    case CheckpointHead => s.checkpointer.Stored?
  }

  ghost function Apply(s: State, a: Action): State
    requires 0 < s.n == |s.slots| && Enabled(s, a)
  {
    match a
    case Start(id, req) => s.(calls := s.calls[id := Call(req, Entered)])
    case Read(id) => s.(calls := s.calls[id := s.calls[id].(pc := Seen(s.watermark))])
    case Check(id) =>
      var c := s.calls[id];
      if RingSpace(s.head % s.n, c.pc.pos % s.n, s.n) < 1 then
        s.(calls := s.calls[id := c.(pc := Entered)]) // after a checkpoint
      else s.(calls := s.calls[id := c.(pc := Checked(c.pc.pos))])
    case Reserve(id) =>
      var c := s.calls[id];
      if s.watermark % s.n == c.pc.pos % s.n then
        s.(watermark := s.watermark + 1,
           reservations := s.reservations + [Reservation(id, c.req)],
           calls := s.calls[id := c.(pc := Filling(s.watermark, 0))])
      else s.(calls := s.calls[id := c.(pc := Entered)])
    case Fill(id) =>
      var c := s.calls[id];
      var i := c.pc.pos % s.n;
      s.(slots := s.slots[i := WriteField(s.slots[i], c.req, c.pc.done, s.committed)],
         committed := s.committed && !(c.pc.done == FIELDS - 1 && c.req.flag.InTx?),
         calls := s.calls[id := c.(pc := Filling(c.pc.pos, c.pc.done + 1))])
    case Publish(id) => s.(tail := s.tail + 1, calls := s.calls - {id})
    case MarkRead(id) => s.(markers := s.markers[id := s.tail])
    case MarkWrite(id) =>
      var i := s.markers[id] % s.n;
      s.(slots := s.slots[i := s.slots[i].(tag := OneBit(EndTx))], committed := true, markers := s.markers - {id})
    case FlushLook(id) => s.(flushers := s.flushers[id := Looking(s.head)])
    case FlushCheck(id) =>
      if RingCount(s.flushers[id].head % s.n, s.tail % s.n, s.n) == 0 then s.(flushers := s.flushers - {id})
      else s.(flushers := s.flushers[id := Waiting])
    case FlushRead(id) => s.(flushers := s.flushers[id := Reading(s.tail)])
    case FlushWrite(id) => s.(flushed := s.flushers[id].value, flushers := s.flushers - {id})
    case TruncateRead => s.(truncater := Some(s.flushed))
    case TruncateWrite => s.(head := s.truncater.value, truncater := None)
    case CheckpointLock => s.(checkpointer := Locked(false))
    case CheckpointLook => s.(checkpointer := Looked(s.head, s.checkpointer.again))
    case CheckpointTest =>
      s.(checkpointer := if RingSpace(s.checkpointer.head % s.n, s.tail % s.n, s.n) >= 1 then Off
                         else if s.checkpointer.again then Full else Short)
    case CheckpointTruncateLook => s.(checkpointer := ShortLooked(s.head))
    case CheckpointTruncateTest =>
      s.(checkpointer := if s.checkpointer.head % s.n == s.flushed % s.n then Locked(true) else Truncating)
    case CheckpointTruncateRead => s.(truncater := Some(s.flushed), checkpointer := OwnTruncation)
    case CheckpointTruncateWrite => s.(head := s.truncater.value, truncater := None, checkpointer := Locked(true))
    case CheckpointRead => s.(checkpointer := Loaded(s.tail))
    case CheckpointFlushed => s.(flushed := s.checkpointer.value, checkpointer := Stored(s.checkpointer.value))
    case CheckpointHead => s.(head := s.checkpointer.value, checkpointer := Off)
  }

  /** Position `p` is published in slot `i`, with another tag than TX_END. */
  ghost predicate PublishedIn(s: State, p: nat, i: nat)
    requires 0 < s.n
  {
    s.head <= p < s.tail && p < |s.reservations| && p % s.n == i && !s.reservations[p].req.flag.EndTx?
  }

  /** Call `id` has finished slot `i`, with another tag than TX_END, and not yet published it. */
  ghost predicate FinishedIn(s: State, id: nat, i: nat)
    requires 0 < s.n && id in s.calls
  {
    var c := s.calls[id];
    c.pc.Filling? && c.pc.done == FIELDS && c.pc.pos % s.n == i && !c.req.flag.EndTx?
  }

  /** The TX_END mark, written to slot `i`, spoils no finished entry, be it published or about to be. */
  ghost predicate MarkSpares(s: State, i: nat)
    requires 0 < s.n
  {
    (forall p: nat :: !PublishedIn(s, p, i)) && (forall id | id in s.calls :: !FinishedIn(s, id, i))
  }

  /** What overlapping threads have to respect and the code does not check:
      - a slot is free when a producer's watermark CAS succeeds, though the check was made earlier;
      - a commit does not write its mark over an entry finished since it loaded tail, published or not;
      - a flush does not store flushed over that of a flush which read a later tail;
      - a checkpoint does not store head over a truncation that read an older flushed pointer. */
  ghost predicate Disciplined(s: State, a: Action)
    requires 0 < s.n && Enabled(s, a)
  {
    match a
    case Reserve(id) => s.watermark % s.n == s.calls[id].pc.pos % s.n ==> s.watermark + 1 < s.head + s.n
    case MarkWrite(id) => MarkSpares(s, s.markers[id] % s.n)
    case FlushWrite(id) => s.flushed <= s.flushers[id].value
    case CheckpointHead => s.truncater.None? || s.truncater.value == s.checkpointer.value
    case _ => true
  }

  // ----- invariant -----

  ghost predicate Window(s: State) {
    && s.head <= s.flushed <= s.tail <= s.watermark < s.head + s.n
    && |s.slots| == s.n
    && |s.reservations| == s.watermark
  }

  /** Published slots hold complete entries, in reservation order. */
  ghost predicate PublishedComplete(s: State)
    requires Window(s)
  {
    forall p | s.head <= p < s.tail :: Carries(s.slots[p % s.n], s.reservations[p].req, FIELDS)
  }

  ghost predicate CallOk(s: State, id: nat)
    requires Window(s) && id in s.calls
  {
    var c := s.calls[id];
    match c.pc
    case Entered => true
    case Seen(pos) => pos <= s.watermark
    case Checked(pos) => pos <= s.watermark && (pos == s.watermark ==> s.watermark + 1 < s.head + s.n)
    case Filling(pos, done) =>
      && s.tail <= pos < s.watermark && done <= FIELDS
      && s.reservations[pos] == Reservation(id, c.req)
      && Carries(s.slots[pos % s.n], c.req, done)
  }

  /** Every reserved position that is not published is being filled by the call that reserved it. */
  ghost predicate Held(s: State, p: nat)
    requires Window(s) && p < s.watermark
  {
    var id := s.reservations[p].id;
    id in s.calls && s.calls[id].pc.Filling? && s.calls[id].pc.pos == p
  }

  ghost predicate ThreadsOk(s: State) {
    && (forall id | id in s.flushers && s.flushers[id].Reading? :: s.flushers[id].value <= s.tail)
    && (s.checkpointer.Off? || NoReader(s))
    && (s.truncater.Some? ==> s.head <= s.truncater.value <= s.flushed)
    && (s.checkpointer.OwnTruncation? ==> s.truncater.Some?)
    && (s.checkpointer.Loaded? ==> s.flushed <= s.checkpointer.value <= s.tail)
    && (s.checkpointer.Stored? ==> s.checkpointer.value == s.flushed)
  }

  ghost predicate Inv(s: State) {
    && Window(s)
    && PublishedComplete(s)
    && (forall id | id in s.calls :: CallOk(s, id))
    && (forall p | s.tail <= p < s.watermark :: Held(s, p))
    && ThreadsOk(s)
  }

  // ----- each step keeps the invariant -----

  /** A call without a reservation starts or moves on. */
  lemma SetCall(s: State, id: nat, c: Call)
    requires Inv(s) && (id in s.calls ==> !s.calls[id].pc.Filling?)
    requires !c.pc.Filling? && (c.pc.Entered? || c.pc.pos <= s.watermark)
    requires c.pc.Checked? && c.pc.pos == s.watermark ==> s.watermark + 1 < s.head + s.n
    ensures Inv(s.(calls := s.calls[id := c]))
  {
    var s' := s.(calls := s.calls[id := c]);
    forall j | j in s'.calls
      ensures CallOk(s', j)
    {
      assert j != id ==> CallOk(s, j);
    }
    forall p | s'.tail <= p < s'.watermark
      ensures Held(s', p)
    {
      assert Held(s, p);
    }
  }

  lemma StartKeeps(s: State, id: nat, req: Request)
    requires Inv(s) && Enabled(s, Start(id, req))
    ensures Inv(Apply(s, Start(id, req)))
  {
    SetCall(s, id, Call(req, Entered));
  }

  lemma ReadKeeps(s: State, id: nat)
    requires Inv(s) && Enabled(s, Read(id))
    ensures Inv(Apply(s, Read(id)))
  {
    SetCall(s, id, s.calls[id].(pc := Seen(s.watermark)));
  }

  lemma CheckKeeps(s: State, id: nat)
    requires Inv(s) && Enabled(s, Check(id))
    ensures Inv(Apply(s, Check(id)))
  {
    var c := s.calls[id];
    assert CallOk(s, id);
    if c.pc.pos == s.watermark {
      MacrosExact(s.head, s.watermark, s.n);
    }
    if RingSpace(s.head % s.n, c.pc.pos % s.n, s.n) < 1 {
      SetCall(s, id, c.(pc := Entered));
    } else {
      SetCall(s, id, c.(pc := Checked(c.pc.pos)));
    }
  }

  lemma ReserveKeeps(s: State, id: nat)
    requires Inv(s) && Enabled(s, Reserve(id)) && Disciplined(s, Reserve(id))
    ensures Inv(Apply(s, Reserve(id)))
  {
    if s.watermark % s.n == s.calls[id].pc.pos % s.n {
      TakeSlot(s, id, Apply(s, Reserve(id)));
    } else {
      SetCall(s, id, s.calls[id].(pc := Entered));
    }
  }

  lemma TakeSlot(s: State, id: nat, s': State)
    requires Inv(s) && id in s.calls && !s.calls[id].pc.Filling? && s.watermark + 1 < s.head + s.n
    requires var req := s.calls[id].req;
             s' == s.(watermark := s.watermark + 1, reservations := s.reservations + [Reservation(id, req)],
                      calls := s.calls[id := Call(req, Filling(s.watermark, 0))])
    ensures Inv(s')
  {
    forall j | j in s'.calls
      ensures CallOk(s', j)
    {
      assert CallOk(s, j);
    }
    forall p | s'.tail <= p < s'.watermark
      ensures Held(s', p)
    {
      assert p < s.watermark ==> Held(s, p);
    }
  }

  /** A reservation keeps the invariant exactly when its CAS fails or a slot is still free. */
  lemma ReserveExactly(s: State, id: nat)
    requires Inv(s) && Enabled(s, Reserve(id))
    ensures Inv(Apply(s, Reserve(id))) <==> Disciplined(s, Reserve(id))
  {
    if Disciplined(s, Reserve(id)) {
      ReserveKeeps(s, id);
    }
  }

  /** As long as the watermark is the one the producer read, a slot is free. */
  lemma PromptReserve(s: State, id: nat)
    requires Inv(s) && Enabled(s, Reserve(id)) && s.calls[id].pc.pos == s.watermark
    ensures Disciplined(s, Reserve(id))
  {
    assert CallOk(s, id);
  }

  lemma FillKeeps(s: State, id: nat)
    requires Inv(s) && Enabled(s, Fill(id))
    ensures Inv(Apply(s, Fill(id)))
  {
    var s' := Apply(s, Fill(id));
    var pos := s.calls[id].pc.pos;
    assert CallOk(s, id);
    forall p | s'.head <= p < s'.tail
      ensures Carries(s'.slots[p % s'.n], s'.reservations[p].req, FIELDS)
    {
      SameSlot(p, pos, s.n);
    }
    forall j | j in s'.calls
      ensures CallOk(s', j)
    {
      assert CallOk(s, j);
      var c := s.calls[j];
      if j != id && c.pc.Filling? {
        if c.pc.pos <= pos { SameSlot(c.pc.pos, pos, s.n); } else { SameSlot(pos, c.pc.pos, s.n); }
      }
    }
    forall p | s'.tail <= p < s'.watermark
      ensures Held(s', p)
    {
      assert Held(s, p);
    }
  }

  lemma PublishKeeps(s: State, id: nat)
    requires Inv(s) && Enabled(s, Publish(id))
    ensures Inv(Apply(s, Publish(id)))
    ensures s.calls[id].pc.pos == s.tail
  {
    assert CallOk(s, id);
    SameSlot(s.tail, s.calls[id].pc.pos, s.n);
    GiveSlot(s, id, Apply(s, Publish(id)));
  }

  lemma GiveSlot(s: State, id: nat, s': State)
    requires Inv(s) && id in s.calls && s.calls[id].pc == Filling(s.tail, FIELDS)
    requires s' == s.(tail := s.tail + 1, calls := s.calls - {id})
    ensures Inv(s')
  {
    assert CallOk(s, id);
    forall j | j in s'.calls
      ensures CallOk(s', j)
    {
      assert CallOk(s, j);
      assert s.calls[j].pc.Filling? ==> s.reservations[s.calls[j].pc.pos].id == j;
    }
    forall p | s'.tail <= p < s'.watermark
      ensures Held(s', p)
    {
      assert Held(s, p);
    }
  }

  /** The mark, written to the slot of a position loaded earlier, misses every live slot exactly when that slot is, seen
      from head, behind all that are in use.  For a tail just loaded that means that no reservation is outstanding. */
  lemma MarkLandsFree(s: State, pos: nat)
    requires Window(s)
    ensures (forall p | s.head <= p < s.watermark :: !UnderMark(s, p, pos)) <==>
            s.watermark - s.head <= RingCount(s.head % s.n, pos % s.n, s.n)
    ensures pos == s.tail ==>
              ((forall p | s.head <= p < s.watermark :: !UnderMark(s, p, pos)) <==> s.tail == s.watermark)
  {
    var q := SlotFrom(s.head, pos, s.n);
    assert UnderMark(s, q, pos);
    forall p | s.head <= p < s.watermark
      ensures UnderMark(s, p, pos) <==> p == q
    {
      if p <= q { SameSlot(p, q, s.n); } else { SameSlot(q, p, s.n); }
    }
    if pos == s.tail {
      MacrosExact(s.head, s.tail, s.n);
    }
  }

  /** Position `p` lives in the slot of position `pos`. */
  ghost predicate UnderMark(s: State, p: nat, pos: nat)
    requires 0 < s.n
  {
    p % s.n == pos % s.n
  }

  /** The mark keeps the invariant exactly when it spoils no finished entry. */
  lemma MarkWriteExactly(s: State, id: nat)
    requires Inv(s) && Enabled(s, MarkWrite(id))
    ensures Inv(Apply(s, MarkWrite(id))) <==> Disciplined(s, MarkWrite(id))
  {
    var s', i := Apply(s, MarkWrite(id)), s.markers[id] % s.n;
    if MarkSpares(s, i) {
      MarkWriteKeeps(s, id);
    } else if exists p: nat :: PublishedIn(s, p, i) {
      var p: nat :| PublishedIn(s, p, i);
      assert !Carries(s'.slots[p % s'.n], s'.reservations[p].req, FIELDS);
    } else {
      var j :| j in s.calls && FinishedIn(s, j, i);
      assert Window(s') ==> !CallOk(s', j);
    }
  }

  lemma MarkWriteKeeps(s: State, id: nat)
    requires Inv(s) && Enabled(s, MarkWrite(id)) && Disciplined(s, MarkWrite(id))
    ensures Inv(Apply(s, MarkWrite(id)))
  {
    var s', i := Apply(s, MarkWrite(id)), s.markers[id] % s.n;
    forall p | s'.head <= p < s'.tail
      ensures Carries(s'.slots[p % s'.n], s'.reservations[p].req, FIELDS)
    {
      assert !PublishedIn(s, p, i);
    }
    forall j | j in s'.calls
      ensures CallOk(s', j)
    {
      assert CallOk(s, j) && !FinishedIn(s, j, i);
    }
    forall p | s'.tail <= p < s'.watermark
      ensures Held(s', p)
    {
      assert Held(s, p);
    }
  }

  /** Moving head and flushed forward to where they may be leaves producers and slots alone. */
  lemma FrameKeeps(s: State, s': State)
    requires Inv(s) && s.head <= s'.head <= s'.flushed <= s.tail && s.flushed <= s'.flushed && ThreadsOk(s')
    requires s' == s.(head := s'.head, flushed := s'.flushed, markers := s'.markers, flushers := s'.flushers,
                      truncater := s'.truncater, checkpointer := s'.checkpointer)
    ensures Inv(s') && Later(s, s')
  {
    forall j | j in s'.calls
      ensures CallOk(s', j)
    {
      assert CallOk(s, j);
    }
    forall p | s'.tail <= p < s'.watermark
      ensures Held(s', p)
    {
      assert Held(s, p);
    }
  }

  lemma FlushKeeps(s: State, a: Action)
    requires Inv(s) && Enabled(s, a) && Disciplined(s, a)
    requires a.FlushLook? || a.FlushCheck? || a.FlushRead? || a.FlushWrite?
    ensures Inv(Apply(s, a)) && Later(s, Apply(s, a))
  {
    FrameKeeps(s, Apply(s, a));
  }

  /** The steps of a checkpoint up to its stores. */
  lemma TestsKeep(s: State, a: Action)
    requires Inv(s) && Enabled(s, a)
    requires a.CheckpointLock? || a.CheckpointLook? || a.CheckpointTest? || a.CheckpointTruncateLook? ||
             a.CheckpointTruncateTest?
    ensures Inv(Apply(s, a)) && Later(s, Apply(s, a))
    ensures Apply(s, a) == s.(checkpointer := Apply(s, a).checkpointer)
  {
    FrameKeeps(s, Apply(s, a));
  }

  lemma TruncationKeeps(s: State, a: Action)
    requires Inv(s) && Enabled(s, a)
    requires a.TruncateRead? || a.TruncateWrite? || a.CheckpointTruncateRead? || a.CheckpointTruncateWrite?
    ensures Inv(Apply(s, a)) && Later(s, Apply(s, a))
  {
    FrameKeeps(s, Apply(s, a));
  }

  lemma CheckpointKeeps(s: State, a: Action)
    requires Inv(s) && Enabled(s, a) && Disciplined(s, a)
    requires a.CheckpointRead? || a.CheckpointFlushed? || a.CheckpointHead?
    ensures Inv(Apply(s, a)) && Later(s, Apply(s, a))
  {
    FrameKeeps(s, Apply(s, a));
  }

  lemma PointersKeep(s: State, a: Action)
    requires Inv(s) && Enabled(s, a) && Disciplined(s, a)
    requires !ByProducer(a)
    ensures Inv(Apply(s, a)) && Later(s, Apply(s, a))
  {
    if a.MarkRead? {
      FrameKeeps(s, Apply(s, a));
    } else if a.FlushLook? || a.FlushCheck? || a.FlushRead? || a.FlushWrite? {
      FlushKeeps(s, a);
    } else if a.TruncateRead? || a.TruncateWrite? || a.CheckpointTruncateRead? || a.CheckpointTruncateWrite? {
      TruncationKeeps(s, a);
    } else if a.CheckpointRead? || a.CheckpointFlushed? || a.CheckpointHead? {
      CheckpointKeeps(s, a);
    } else {
      TestsKeep(s, a);
    }
  }

  // ----- whole runs -----

  predicate ByProducer(a: Action) {
    a.Start? || a.Read? || a.Check? || a.Reserve? || a.Fill? || a.Publish? || a.MarkWrite?
  }

  /** One step keeps the invariant, moves every pointer forward only and never rewrites history. */
  lemma StepKeeps(s: State, a: Action)
    requires Inv(s) && Enabled(s, a) && Disciplined(s, a)
    ensures Inv(Apply(s, a)) && Later(s, Apply(s, a))
  {
    if ByProducer(a) {
      ProducerKeeps(s, a);
    } else {
      PointersKeep(s, a);
    }
  }

  lemma ProducerKeeps(s: State, a: Action)
    requires Inv(s) && Enabled(s, a) && Disciplined(s, a) && ByProducer(a)
    ensures Inv(Apply(s, a)) && Later(s, Apply(s, a))
  {
    match a
    case Start(id, req) => StartKeeps(s, id, req);
    case Read(id) => ReadKeeps(s, id);
    case Check(id) => CheckKeeps(s, id);
    case Reserve(id) => ReserveKeeps(s, id);
    case Fill(id) => FillKeeps(s, id);
    case Publish(id) => PublishKeeps(s, id);
    case MarkWrite(id) => MarkWriteKeeps(s, id);
  }

  /** `t` is reachable from `s` as far as pointers and history go. */
  ghost predicate Later(s: State, t: State) {
    && t.n == s.n
    && s.head <= t.head && s.flushed <= t.flushed && s.tail <= t.tail && s.watermark <= t.watermark
    && s.reservations <= t.reservations
  }

  ghost predicate Legal(s: State, run: seq<Action>)
    requires Inv(s)
    decreases |run|
  {
    run == [] ||
    (Enabled(s, run[0]) && Disciplined(s, run[0]) &&
     (StepKeeps(s, run[0]); Legal(Apply(s, run[0]), run[1..])))
  }

  ghost function After(s: State, run: seq<Action>): State
    requires Inv(s) && Legal(s, run)
    decreases |run|
  {
    if run == [] then s else StepKeeps(s, run[0]); After(Apply(s, run[0]), run[1..])
  }

  ghost function Initial(slots: seq<Entry>): State {
    State(|slots|, 0, 0, 0, 0, slots, false, map[], [], map[], map[], None, Off)
  }

  lemma {:induction false} RunFrom(s: State, run: seq<Action>)
    requires Inv(s) && Legal(s, run)
    ensures Inv(After(s, run)) && Later(s, After(s, run))
    decreases |run|
  {
    if run != [] {
      StepKeeps(s, run[0]);
      RunFrom(Apply(s, run[0]), run[1..]);
    }
  }

  /** Over every lawful run of a stream from its start: head <= flushed <= tail <= watermark < head + nr_ometa,
      published slots hold complete entries in reservation order, every outstanding reservation is held by its
      producer, and
      from any point of the run to its end no pointer goes back and no reservation changes.  Of the entries inside
      transactions exactly those carry BEGIN that were the first to be tagged after a commit. */
  lemma RunKeeps(slots: seq<Entry>, run: seq<Action>, more: seq<Action>)
    requires slots != [] && Legal(Initial(slots), run)
    requires (RunFrom(Initial(slots), run); Legal(After(Initial(slots), run), more))
    ensures (RunFrom(Initial(slots), run);
             var s := After(Initial(slots), run); Inv(s) && Inv(After(s, more)) && Later(s, After(s, more)))
    ensures forall p | FinishedTx(After(Initial(slots), run), p) :: TagExact(slots, run, p)
  {
    forall p | FinishedTx(After(Initial(slots), run), p)
      ensures TagExact(slots, run, p)
    {
      StartOf(slots, run);
      var i := OpensExactly(slots, run, |run|, p);
    }
    RunFrom(Initial(slots), run);
    RunFrom(After(Initial(slots), run), more);
  }

  /** Live positions never share a slot, so a reservation never reuses one. */
  lemma NoLiveSlotReused(s: State, p: nat, q: nat)
    requires Inv(s) && s.head <= p < q <= s.watermark
    ensures p % s.n != q % s.n
  {
    SameSlot(p, q, s.n);
  }

  /** A producer leaves only by publishing its request, which stays the one it came with. */
  lemma LeavesPublished(s: State, a: Action, id: nat)
    requires Inv(s) && Enabled(s, a) && id in s.calls
    ensures id in Apply(s, a).calls ==> Apply(s, a).calls[id].req == s.calls[id].req
    ensures id !in Apply(s, a).calls ==>
              && a == Publish(id) && s.tail < Apply(s, a).tail
              && s.reservations[s.tail] == Reservation(id, s.calls[id].req)
  {
    assert CallOk(s, id);
    if a == Publish(id) {
      PublishKeeps(s, id);
    }
  }

  // ----- which entries open a transaction -----

  /** The step stores the tag of position `p`, for a request inside a transaction. */
  ghost predicate StoresTx(s: State, a: Action, p: nat) {
    && a.Fill? && a.id in s.calls
    && s.calls[a.id].pc == Filling(p, FIELDS - 1) && s.calls[a.id].req.flag.InTx?
  }

  ghost predicate StoresSomeTx(s: State, a: Action) {
    exists p :: StoresTx(s, a, p)
  }

  /** Position `p` is finished, published or not. */
  ghost predicate Finished(s: State, p: nat) {
    && s.head <= p < s.watermark && p < |s.reservations|
    && (p < s.tail || (var id := s.reservations[p].id; id in s.calls && s.calls[id].pc == Filling(p, FIELDS)))
  }

  /** Position `p` is finished and belongs to a transaction. */
  ghost predicate FinishedTx(s: State, p: nat) { Finished(s, p) && s.reservations[p].req.flag.InTx? }

  /** It was so before, with the same tag. */
  ghost predicate TagKept(s: State, t: State, p: nat) {
    && FinishedTx(s, p) && 0 < s.n == t.n == |s.slots| == |t.slots| && t.slots[p % t.n].tag == s.slots[p % s.n].tag
  }

  lemma CommittedStep(s: State, a: Action)
    requires 0 < s.n == |s.slots| && Enabled(s, a)
    ensures Apply(s, a).committed <==> a.MarkWrite? || (s.committed && !StoresSomeTx(s, a))
  {
    if a.Fill? && s.calls[a.id].pc.done == FIELDS - 1 && s.calls[a.id].req.flag.InTx? {
      assert StoresTx(s, a, s.calls[a.id].pc.pos);
    }
  }

  lemma {:induction false} LegalPrefix(s: State, run: seq<Action>, i: nat)
    requires Inv(s) && Legal(s, run) && i <= |run|
    ensures Legal(s, run[..i]) && Inv(After(s, run[..i]))
    ensures i < |run| ==> Enabled(After(s, run[..i]), run[i]) && Disciplined(After(s, run[..i]), run[i])
    ensures i < |run| ==> Legal(s, run[..i + 1]) && After(s, run[..i + 1]) == Apply(After(s, run[..i]), run[i])
    decreases i
  {
    if i == 0 {
      if run != [] {
        StepKeeps(s, run[0]);
        assert run[..1][1..] == [] && run[..1][0] == run[0];
      }
    } else {
      StepKeeps(s, run[0]);
      LegalPrefix(Apply(s, run[0]), run[1..], i - 1);
      assert run[..i][1..] == run[1..][..i - 1];
      assert i < |run| ==> run[..i + 1][1..] == run[1..][..i] && run[i] == run[1..][i - 1];
    }
  }

  /** The state before step `i` of a run from the start. */
  ghost function Before(slots: seq<Entry>, run: seq<Action>, i: nat): (s: State)
    requires slots != [] && Legal(Initial(slots), run) && i <= |run|
    ensures 0 < s.n == |s.slots|
  {
    LegalPrefix(Initial(slots), run, i);
    After(Initial(slots), run[..i])
  }

  lemma StepOf(slots: seq<Entry>, run: seq<Action>, i: nat)
    requires slots != [] && Legal(Initial(slots), run) && i < |run|
    ensures var s := Before(slots, run, i);
            && Inv(s) && Enabled(s, run[i]) && Disciplined(s, run[i])
            && Before(slots, run, i + 1) == Apply(s, run[i])
  {
    LegalPrefix(Initial(slots), run, i);
  }

  lemma StartOf(slots: seq<Entry>, run: seq<Action>)
    requires slots != [] && Legal(Initial(slots), run)
    ensures Before(slots, run, 0) == Initial(slots) && Before(slots, run, |run|) == After(Initial(slots), run)
  {
    assert run[..0] == [] && run[..|run|] == run;
  }

  /** Step `j` of the run writes a TX_END mark, and no tag inside a transaction is stored from there to step `i`. */
  ghost predicate CommitLast(slots: seq<Entry>, run: seq<Action>, j: nat, i: nat)
    requires slots != [] && Legal(Initial(slots), run) && i <= |run|
  {
    j < i && run[j].MarkWrite? && forall k | j < k < i :: !StoresSomeTx(Before(slots, run, k), run[k])
  }

  /** The entry tagged at step `i` is the first after a commit. */
  ghost predicate Opens(slots: seq<Entry>, run: seq<Action>, i: nat)
    requires slots != [] && Legal(Initial(slots), run) && i <= |run|
  {
    exists j: nat :: CommitLast(slots, run, j, i)
  }

  lemma {:induction false} CommittedMeans(slots: seq<Entry>, run: seq<Action>, n: nat)
    requires slots != [] && Legal(Initial(slots), run) && n <= |run|
    ensures Before(slots, run, n).committed <==> Opens(slots, run, n)
    decreases n
  {
    if n == 0 {
      StartOf(slots, run);
    } else {
      CommittedMeans(slots, run, n - 1);
      CommittedNext(slots, run, n - 1);
      OpensNext(slots, run, n - 1);
    }
  }

  lemma CommittedNext(slots: seq<Entry>, run: seq<Action>, i: nat)
    requires slots != [] && Legal(Initial(slots), run) && i < |run|
    ensures Before(slots, run, i + 1).committed <==>
            run[i].MarkWrite? || (Before(slots, run, i).committed && !StoresSomeTx(Before(slots, run, i), run[i]))
  {
    StepOf(slots, run, i);
    CommittedStep(Before(slots, run, i), run[i]);
  }

  lemma OpensNext(slots: seq<Entry>, run: seq<Action>, i: nat)
    requires slots != [] && Legal(Initial(slots), run) && i < |run|
    ensures Opens(slots, run, i + 1) <==>
            run[i].MarkWrite? || (Opens(slots, run, i) && !StoresSomeTx(Before(slots, run, i), run[i]))
  {
    if run[i].MarkWrite? {
      assert CommitLast(slots, run, i, i + 1);
    } else if Opens(slots, run, i + 1) {
      var j: nat :| CommitLast(slots, run, j, i + 1);
      assert CommitLast(slots, run, j, i);
    } else if Opens(slots, run, i) {
      var j: nat :| CommitLast(slots, run, j, i);
      assert !StoresSomeTx(Before(slots, run, i), run[i]) ==> CommitLast(slots, run, j, i + 1);
    }
  }

  /** The tag of an entry inside a transaction: BEGIN if it opens one, TX if not. */
  function TxTag(opens: bool): Tag { if opens then Tag(true, false, false) else Tag(false, true, false) }

  /** The tag stored by step `i` is BEGIN exactly if the entry is the first after a commit. */
  lemma TagTells(slots: seq<Entry>, run: seq<Action>, i: nat, p: nat)
    requires slots != [] && Legal(Initial(slots), run) && i < |run| && StoresTx(Before(slots, run, i), run[i], p)
    ensures var t := Before(slots, run, i + 1); t.slots[p % t.n].tag == TxTag(Opens(slots, run, i))
  {
    StepOf(slots, run, i);
    CommittedMeans(slots, run, i);
    TagStored(Before(slots, run, i), run[i], p);
  }

  lemma TagStored(s: State, a: Action, p: nat)
    requires 0 < s.n == |s.slots| && Enabled(s, a) && StoresTx(s, a, p)
    ensures Apply(s, a).slots[p % s.n].tag == TxTag(s.committed) && Apply(s, a).n == s.n
  {
  }

  /** A finished entry keeps its tag, and is finished only by the store of its tag. */
  lemma FinishedStep(s: State, a: Action, t: State, p: nat)
    requires Inv(s) && Enabled(s, a) && Disciplined(s, a) && t == Apply(s, a) && FinishedTx(t, p)
    ensures StoresTx(s, a, p) || TagKept(s, t, p)
  {
    match a
    case Fill(id) => FinishedFill(s, id, t, p);
    case MarkWrite(id) => FinishedMark(s, id, t, p);
    case Publish(id) => FinishedPublish(s, id, t, p);
    case Reserve(id) => FinishedReserve(s, id, t, p);
    case _ => FinishedOther(s, a, t, p);
  }

  lemma FinishedFill(s: State, id: nat, t: State, p: nat)
    requires Inv(s) && Enabled(s, Fill(id)) && t == Apply(s, Fill(id)) && FinishedTx(t, p)
    ensures StoresTx(s, Fill(id), p) || TagKept(s, t, p)
  {
    var pos := s.calls[id].pc.pos;
    assert CallOk(s, id);
    if p <= pos { SameSlot(p, pos, s.n); } else { SameSlot(pos, p, s.n); }
  }

  lemma FinishedMark(s: State, id: nat, t: State, p: nat)
    requires Inv(s) && Enabled(s, MarkWrite(id)) && Disciplined(s, MarkWrite(id)) && t == Apply(s, MarkWrite(id))
    requires FinishedTx(t, p)
    ensures TagKept(s, t, p)
  {
    var i := s.markers[id] % s.n;
    assert !PublishedIn(s, p, i);
    if s.tail <= p {
      var holder := s.reservations[p].id;
      assert CallOk(s, holder);
      assert !FinishedIn(s, holder, i);
    }
  }

  lemma FinishedPublish(s: State, id: nat, t: State, p: nat)
    requires Inv(s) && Enabled(s, Publish(id)) && t == Apply(s, Publish(id)) && FinishedTx(t, p)
    ensures TagKept(s, t, p)
  {
    PublishKeeps(s, id);
    assert CallOk(s, id);
  }

  lemma FinishedReserve(s: State, id: nat, t: State, p: nat)
    requires Inv(s) && Enabled(s, Reserve(id)) && t == Apply(s, Reserve(id)) && FinishedTx(t, p)
    ensures TagKept(s, t, p)
  {
    assert CallOk(s, id);
  }

  lemma FinishedOther(s: State, a: Action, t: State, p: nat)
    requires Inv(s) && Enabled(s, a) && Disciplined(s, a) && t == Apply(s, a) && FinishedTx(t, p)
    requires !(a.Fill? || a.MarkWrite? || a.Publish? || a.Reserve?)
    ensures TagKept(s, t, p)
  {
    if !ByProducer(a) {
      PointersKeep(s, a);
    }
    assert t.slots == s.slots && t.reservations == s.reservations && t.tail == s.tail && t.watermark == s.watermark;
  }

  /** Step `i` stored the tag of position `p`. */
  ghost predicate TaggedAt(slots: seq<Entry>, run: seq<Action>, i: nat, p: nat)
    requires slots != [] && Legal(Initial(slots), run)
  {
    i < |run| && StoresTx(Before(slots, run, i), run[i], p)
  }

  ghost predicate TagExact(slots: seq<Entry>, run: seq<Action>, p: nat)
    requires slots != [] && Legal(Initial(slots), run)
  {
    var t := Before(slots, run, |run|);
    exists i: nat :: TaggedAt(slots, run, i, p) && t.slots[p % t.n].tag == TxTag(Opens(slots, run, i))
  }

  /** Over every lawful run every finished entry inside a transaction has been tagged by some step of the run, and its
      slot says BEGIN exactly if that step was the first such store after a commit. */
  lemma {:induction false} OpensExactly(slots: seq<Entry>, run: seq<Action>, n: nat, p: nat) returns (i: nat)
    requires slots != [] && Legal(Initial(slots), run) && n <= |run|
    requires FinishedTx(Before(slots, run, n), p)
    ensures i < n && TaggedAt(slots, run, i, p)
    ensures var t := Before(slots, run, n); t.slots[p % t.n].tag == TxTag(Opens(slots, run, i))
    decreases n
  {
    StartOf(slots, run);
    StepOf(slots, run, n - 1);
    FinishedStep(Before(slots, run, n - 1), run[n - 1], Before(slots, run, n), p);
    if StoresTx(Before(slots, run, n - 1), run[n - 1], p) {
      i := n - 1;
      TagTells(slots, run, n - 1, p);
    } else {
      i := OpensExactly(slots, run, n - 1, p);
    }
  }

  /** Until the first commit no entry inside a transaction is tagged BEGIN: a stream starts as if one were open. */
  lemma NothingOpensFirst(slots: seq<Entry>, run: seq<Action>, n: nat, p: nat)
    requires slots != [] && Legal(Initial(slots), run) && n <= |run| && forall j | 0 <= j < n :: !run[j].MarkWrite?
    requires FinishedTx(Before(slots, run, n), p)
    ensures var t := Before(slots, run, n); t.slots[p % t.n].tag == TxTag(false)
  {
    var i := OpensExactly(slots, run, n, p);
  }

  // ----- putting runs together -----

  lemma LegalStep(s: State, a: Action, rest: seq<Action>)
    requires Inv(s) && Enabled(s, a) && Disciplined(s, a) && Inv(Apply(s, a)) && Legal(Apply(s, a), rest)
    ensures Legal(s, [a] + rest) && After(s, [a] + rest) == After(Apply(s, a), rest)
  {
    assert ([a] + rest)[1..] == rest;
  }

  lemma {:induction false} LegalConcat(s: State, run: seq<Action>, more: seq<Action>)
    requires Inv(s) && Legal(s, run) && Inv(After(s, run)) && Legal(After(s, run), more)
    ensures Legal(s, run + more) && After(s, run + more) == After(After(s, run), more)
    decreases |run|
  {
    if run == [] {
      assert run + more == more;
    } else {
      assert (run + more)[1..] == run[1..] + more && (run + more)[0] == run[0];
      StepKeeps(s, run[0]);
      LegalConcat(Apply(s, run[0]), run[1..], more);
    }
  }

  /** Steps the code can take, with no promise from the callers. */
  ghost predicate Possible(s: State, run: seq<Action>)
    decreases |run|
  {
    0 < s.n == |s.slots| && (run == [] || (Enabled(s, run[0]) && Possible(Apply(s, run[0]), run[1..])))
  }

  ghost function Outcome(s: State, run: seq<Action>): State
    requires Possible(s, run)
    decreases |run|
  {
    if run == [] then s else Outcome(Apply(s, run[0]), run[1..])
  }

  lemma PossibleStep(s: State, a: Action, rest: seq<Action>)
    requires 0 < s.n == |s.slots| && Enabled(s, a) && Possible(Apply(s, a), rest)
    ensures Possible(s, [a] + rest) && Outcome(s, [a] + rest) == Outcome(Apply(s, a), rest)
  {
    assert ([a] + rest)[1..] == rest;
  }

  lemma {:induction false} Concatenate(s: State, run: seq<Action>, more: seq<Action>)
    requires Possible(s, run) && Possible(Outcome(s, run), more)
    ensures Possible(s, run + more) && Outcome(s, run + more) == Outcome(Outcome(s, run), more)
    decreases |run|
  {
    if run == [] {
      assert run + more == more;
    } else {
      assert (run + more)[1..] == run[1..] + more;
      Concatenate(Apply(s, run[0]), run[1..], more);
    }
  }

  lemma {:induction false} LegalPossible(s: State, run: seq<Action>)
    requires Inv(s) && Legal(s, run)
    ensures Possible(s, run) && Outcome(s, run) == After(s, run)
    decreases |run|
  {
    if run != [] {
      StepKeeps(s, run[0]);
      LegalPossible(Apply(s, run[0]), run[1..]);
    }
  }

  // ----- producers -----

  /** The window alone: what a reservation needs and keeps. */
  ghost predicate Roomy(s: State) {
    && s.head <= s.watermark < s.head + s.n && |s.slots| == s.n
  }

  /** What reservations leave alone: every pointer but the watermark, the other threads and the calls there were. */
  ghost predicate Beside(s: State, t: State) {
    && t.n == s.n && t.head == s.head && t.flushed == s.flushed && t.tail == s.tail
    && t.markers == s.markers && t.flushers == s.flushers && t.truncater == s.truncater
    && t.checkpointer == s.checkpointer
    && forall id | id in s.calls :: id in t.calls && t.calls[id] == s.calls[id]
  }

  /** One more producer reserves a slot; in a state within the invariant lawfully. */
  lemma ReserveOne(s: State, req: Request) returns (run: seq<Action>, t: State, id: nat)
    requires Roomy(s) && s.watermark + 1 < s.head + s.n
    ensures Possible(s, run) && Outcome(s, run) == t
    ensures Roomy(t) && t.watermark == s.watermark + 1 && Beside(s, t)
    ensures id !in s.calls && id in t.calls && t.calls[id] == Call(req, Filling(s.watermark, 0))
    ensures Inv(s) ==> Legal(s, run) && Inv(t)
  {
    id := FreshId(s.calls.Keys);
    var first, u := CheckOne(s, id, req);
    t := Apply(u, Reserve(id));
    PossibleStep(u, Reserve(id), []);
    Concatenate(s, first, [Reserve(id)] + []);
    run := first + ([Reserve(id)] + []);
    if Inv(s) {
      ReserveKeeps(u, id);
      LegalStep(u, Reserve(id), []);
      LegalPossible(s, first);
      LegalConcat(s, first, [Reserve(id)] + []);
    }
  }

  /** A producer passes its check; in a state within the invariant lawfully. */
  lemma CheckOne(s: State, id: nat, req: Request) returns (run: seq<Action>, t: State)
    requires Roomy(s) && s.watermark + 1 < s.head + s.n && id !in s.calls
    ensures Possible(s, run) && Outcome(s, run) == t
    ensures t == s.(calls := s.calls[id := Call(req, Checked(s.watermark))])
    ensures Inv(s) ==> Legal(s, run) && Inv(t)
  {
    MacrosExact(s.head, s.watermark, s.n);
    var s1 := Apply(s, Start(id, req));
    var s2 := Apply(s1, Read(id));
    t := Apply(s2, Check(id));
    assert t.calls == s.calls[id := Call(req, Checked(s.watermark))];
    PossibleStep(s2, Check(id), []);
    PossibleStep(s1, Read(id), [Check(id)] + []);
    PossibleStep(s, Start(id, req), [Read(id)] + ([Check(id)] + []));
    run := [Start(id, req)] + ([Read(id)] + ([Check(id)] + []));
    if Inv(s) {
      CheckLawful(s, s1, s2, t, id, req);
    }
  }

  lemma CheckLawful(s: State, s1: State, s2: State, t: State, id: nat, req: Request)
    requires Inv(s) && Enabled(s, Start(id, req)) && s1 == Apply(s, Start(id, req))
    requires 0 < s1.n == |s1.slots| && Enabled(s1, Read(id)) && s2 == Apply(s1, Read(id))
    requires 0 < s2.n == |s2.slots| && Enabled(s2, Check(id)) && t == Apply(s2, Check(id))
    ensures Inv(t) && Legal(s, [Start(id, req)] + ([Read(id)] + ([Check(id)] + [])))
  {
    StartKeeps(s, id, req);
    ReadKeeps(s1, id);
    CheckKeeps(s2, id);
    LegalStep(s2, Check(id), []);
    LegalStep(s1, Read(id), [Check(id)] + []);
    LegalStep(s, Start(id, req), [Read(id)] + ([Check(id)] + []));
  }

  lemma {:induction false} ReserveAll(s: State, req: Request) returns (run: seq<Action>, t: State)
    requires Roomy(s)
    ensures Possible(s, run) && Outcome(s, run) == t
    ensures Beside(s, t) && t.watermark == s.head + s.n - 1 && |t.slots| == t.n
    ensures Inv(s) ==> Legal(s, run) && Inv(t)
    decreases s.head + s.n - s.watermark
  {
    run, t := [], s;
    if s.watermark + 1 < s.head + s.n {
      var first, u, _ := ReserveOne(s, req);
      var rest;
      rest, t := ReserveAll(u, req);
      Concatenate(s, first, rest);
      if Inv(s) {
        LegalPossible(s, first);
        LegalConcat(s, first, rest);
      }
      run := first + rest;
    }
  }

  /** A producer writes the rest of its slot. */
  lemma {:induction false} FillAll(s: State, id: nat) returns (run: seq<Action>, t: State)
    requires Inv(s) && id in s.calls && s.calls[id].pc.Filling? && s.calls[id].pc.done <= FIELDS
    ensures Legal(s, run) && After(s, run) == t && Inv(t)
    ensures t == s.(slots := t.slots, committed := t.committed,
                    calls := s.calls[id := s.calls[id].(pc := Filling(s.calls[id].pc.pos, FIELDS))])
    decreases FIELDS - s.calls[id].pc.done
  {
    run, t := [], s;
    if s.calls[id].pc.done < FIELDS {
      FillKeeps(s, id);
      run, t := FillAll(Apply(s, Fill(id)), id);
      LegalStep(s, Fill(id), run);
      run := [Fill(id)] + run;
    } else {
      assert s.calls[id := s.calls[id].(pc := Filling(s.calls[id].pc.pos, FIELDS))] == s.calls;
    }
  }

  // ----- the reservation's discipline -----

  /** A slot is reserved, written and published. */
  lemma PassOne(s: State, req: Request) returns (run: seq<Action>, t: State)
    requires Inv(s) && s.tail == s.watermark && s.watermark + 1 < s.head + s.n
    ensures Legal(s, run) && After(s, run) == t && Inv(t)
    ensures t.tail == t.watermark == s.tail + 1 && Beside(s.(tail := t.tail), t)
    ensures t.reservations[s.tail].req == req
  {
    var first, u, id := ReserveOne(s, req);
    LegalPossible(s, first);
    assert CallOk(u, id);
    var rest, v := FillAll(u, id);
    LegalConcat(s, first, rest);
    PublishKeeps(v, id);
    t := Apply(v, Publish(id));
    LegalStep(v, Publish(id), []);
    LegalConcat(s, first + rest, [Publish(id)] + []);
    run := first + rest + ([Publish(id)] + []);
  }

  // ----- the mark's discipline -----

  /** In every ring of two slots or more a producer can have finished its slot when the mark is written over it. */
  lemma MarkRace(slots: seq<Entry>, req: Request) returns (run: seq<Action>)
    requires 2 <= |slots| && !req.flag.EndTx?
    ensures Inv(Initial(slots)) && Legal(Initial(slots), run) && Inv(After(Initial(slots), run))
    ensures Enabled(After(Initial(slots), run), MarkWrite(0))
    ensures !Inv(Apply(After(Initial(slots), run), MarkWrite(0)))
  {
    var s := Initial(slots);
    var first, u, id := ReserveOne(s, req);
    LegalPossible(s, first);
    assert CallOk(u, id);
    var rest, v := FillAll(u, id);
    LegalConcat(s, first, rest);
    PointersKeep(v, MarkRead(0));
    var t := Apply(v, MarkRead(0));
    LegalStep(v, MarkRead(0), []);
    LegalConcat(s, first + rest, [MarkRead(0)] + []);
    run := first + rest + ([MarkRead(0)] + []);
    assert FinishedIn(t, id, t.markers[0] % t.n);
    MarkWriteExactly(t, 0);
  }

  /** And a whole entry can be written and published between a commit's load of tail and its mark, which then goes
      over it, although no reservation is outstanding at either step. */
  lemma LateMark(slots: seq<Entry>, req: Request) returns (run: seq<Action>)
    requires 2 <= |slots| && !req.flag.EndTx?
    ensures Inv(Initial(slots)) && Legal(Initial(slots), run) && Inv(After(Initial(slots), run))
    ensures [MarkRead(0)] <= run && Enabled(After(Initial(slots), run), MarkWrite(0))
    ensures After(Initial(slots), run).tail == After(Initial(slots), run).watermark
    ensures !Inv(Apply(After(Initial(slots), run), MarkWrite(0)))
  {
    var s := Initial(slots);
    PointersKeep(s, MarkRead(0));
    var rest, t := PassOne(Apply(s, MarkRead(0)), req);
    LegalStep(s, MarkRead(0), rest);
    run := [MarkRead(0)] + rest;
    assert PublishedIn(t, 0, t.markers[0] % t.n);
    MarkWriteExactly(t, 0);
  }

  /** A flush goes through, from its check to its store. */
  lemma FlushThrough(s: State, id: nat) returns (run: seq<Action>, t: State)
    requires Inv(s) && s.head < s.tail && s.checkpointer.Off? && id !in s.flushers
    ensures Legal(s, run) && After(s, run) == t && Inv(t)
    ensures t == s.(flushed := s.tail)
  {
    MacrosExact(s.head, s.tail, s.n);
    FlushKeeps(s, FlushLook(id));
    var s1 := Apply(s, FlushLook(id));
    FlushKeeps(s1, FlushCheck(id));
    var s2 := Apply(s1, FlushCheck(id));
    assert s2 == s.(flushers := s.flushers[id := Waiting]);
    var rest;
    rest, t := FlushStores(s, s2, id);
    LegalStep(s1, FlushCheck(id), rest);
    LegalStep(s, FlushLook(id), [FlushCheck(id)] + rest);
    run := [FlushLook(id)] + ([FlushCheck(id)] + rest);
  }

  lemma FlushStores(s: State, s2: State, id: nat) returns (run: seq<Action>, t: State)
    requires Inv(s2) && s2 == s.(flushers := s.flushers[id := Waiting]) && id !in s.flushers && s.checkpointer.Off?
    ensures Legal(s2, run) && After(s2, run) == t && Inv(t)
    ensures t == s.(flushed := s.tail)
  {
    FlushKeeps(s2, FlushRead(id));
    var s3 := Apply(s2, FlushRead(id));
    FlushKeeps(s3, FlushWrite(id));
    t := Apply(s3, FlushWrite(id));
    assert t.flushers == s.flushers;
    LegalStep(s3, FlushWrite(id), []);
    LegalStep(s2, FlushRead(id), [FlushWrite(id)] + []);
    run := [FlushRead(id)] + ([FlushWrite(id)] + []);
  }

  /** A truncation goes through. */
  lemma TruncateThrough(s: State) returns (run: seq<Action>, t: State)
    requires Inv(s) && s.truncater.None? && !s.checkpointer.OwnTruncation?
    ensures Legal(s, run) && After(s, run) == t && Inv(t)
    ensures t == s.(head := s.flushed)
  {
    TruncationKeeps(s, TruncateRead);
    var s1 := Apply(s, TruncateRead);
    TruncationKeeps(s1, TruncateWrite);
    t := Apply(s1, TruncateWrite);
    LegalStep(s1, TruncateWrite, []);
    LegalStep(s, TruncateRead, [TruncateWrite] + []);
    run := [TruncateRead] + ([TruncateWrite] + []);
  }

  /** From an empty ring one entry is written, flushed and truncated, and then every slot is reserved. */
  lemma FullLap(s: State, req: Request) returns (run: seq<Action>, t: State)
    requires Inv(s) && s.head == s.watermark && 2 <= s.n
    requires s.flushers == map[] && s.truncater.None? && s.checkpointer.Off?
    ensures Legal(s, run) && After(s, run) == t && Inv(t)
    ensures t.n == s.n && t.head == s.head + 1 && t.watermark == s.watermark + s.n
    ensures forall id | id in s.calls :: id in t.calls && t.calls[id] == s.calls[id]
  {
    var r1, s1 := PassOne(s, req);
    var r2, s2 := FlushThrough(s1, 0);
    var r3, s3 := TruncateThrough(s2);
    var r4;
    r4, t := ReserveAll(s3, req);
    LegalPossible(s3, r4);
    LegalConcat(s2, r3, r4);
    LegalConcat(s1, r2, r3 + r4);
    LegalConcat(s, r1, r2 + (r3 + r4));
    run := r1 + (r2 + (r3 + r4));
  }

  /** The ring is full and looks empty. */
  ghost predicate Overrun(s: State) {
    0 < s.n && s.watermark == s.head + s.n && RingSpace(s.head % s.n, s.watermark % s.n, s.n) == s.n - 1
  }

  lemma LateReserve(s: State, id: nat)
    requires 0 < s.n == |s.slots| && id in s.calls && s.calls[id].pc == Checked(0)
    requires s.head == 1 && s.watermark == s.n
    ensures Enabled(s, Reserve(id)) && Overrun(Apply(s, Reserve(id)))
  {
    FullLooksEmpty(0, s.n);
    FullLooksEmpty(s.head, s.n);
  }

  /** In every ring of two slots or more a producer can pass its check, sleep while the watermark goes round once, and
      then reserve one slot too many: the ring is full and looks empty. */
  lemma LapRace(slots: seq<Entry>, req: Request) returns (run: seq<Action>)
    requires 2 <= |slots|
    ensures Inv(Initial(slots)) && Legal(Initial(slots), run) && Inv(After(Initial(slots), run))
    ensures Enabled(After(Initial(slots), run), Reserve(0)) && Overrun(Apply(After(Initial(slots), run), Reserve(0)))
  {
    var s := Initial(slots);
    var first, u := CheckOne(s, 0, req);
    LegalPossible(s, first);
    var rest, t := FullLap(u, req);
    LegalConcat(s, first, rest);
    run := first + rest;
    LateReserve(t, 0);
  }

  // ----- the checkpoint's discipline is exact -----

  /** A checkpoint storing head keeps the invariant exactly when no truncation has read an older pointer. */
  lemma CheckpointHeadExact(s: State)
    requires Inv(s) && s.checkpointer.Stored?
    ensures Inv(Apply(s, CheckpointHead)) <==> Disciplined(s, CheckpointHead)
  {
    if Disciplined(s, CheckpointHead) {
      CheckpointKeeps(s, CheckpointHead);
    }
  }

  /** Its own truncation, which drops what is flushed. */
  lemma TruncateOwn(s: State) returns (run: seq<Action>, t: State)
    requires Inv(s) && s.checkpointer.Short? && s.head < s.flushed && s.truncater.None?
    ensures Legal(s, run) && After(s, run) == t && Inv(t)
    ensures t == s.(head := s.flushed, checkpointer := Locked(true))
  {
    SameSlot(s.head, s.flushed, s.n);
    TestsKeep(s, CheckpointTruncateLook);
    var s1 := Apply(s, CheckpointTruncateLook);
    TestsKeep(s1, CheckpointTruncateTest);
    var s2 := Apply(s1, CheckpointTruncateTest);
    var rest;
    rest, t := TruncateLocked(s2);
    LegalStep(s1, CheckpointTruncateTest, rest);
    LegalStep(s, CheckpointTruncateLook, [CheckpointTruncateTest] + rest);
    run := [CheckpointTruncateLook] + ([CheckpointTruncateTest] + rest);
  }

  lemma TruncateLocked(s: State) returns (run: seq<Action>, t: State)
    requires Inv(s) && s.checkpointer.Truncating? && s.truncater.None?
    ensures Legal(s, run) && After(s, run) == t && Inv(t)
    ensures t == s.(head := s.flushed, checkpointer := Locked(true))
  {
    TruncationKeeps(s, CheckpointTruncateRead);
    var s1 := Apply(s, CheckpointTruncateRead);
    TruncationKeeps(s1, CheckpointTruncateWrite);
    t := Apply(s1, CheckpointTruncateWrite);
    LegalStep(s1, CheckpointTruncateWrite, []);
    LegalStep(s, CheckpointTruncateRead, [CheckpointTruncateWrite] + []);
    run := [CheckpointTruncateRead] + ([CheckpointTruncateWrite] + []);
  }

  /** With head as loaded, a flush goes on to its devices exactly when there is an entry. */
  lemma FlushCheckExact(s: State, id: nat)
    requires Inv(s) && Enabled(s, FlushCheck(id)) && s.flushers[id].head == s.head
    ensures id in Apply(s, FlushCheck(id)).flushers <==> s.head < s.tail
  {
    MacrosExact(s.head, s.tail, s.n);
  }

  /** With head as loaded, a test for space lets a checkpoint go on exactly when every slot is published. */
  lemma CheckpointTestExact(s: State)
    requires Inv(s) && s.checkpointer.Looked? && s.checkpointer.head == s.head
    ensures !Apply(s, CheckpointTest).checkpointer.Off? <==> s.tail == s.head + s.n - 1
  {
    MacrosExact(s.head, s.tail, s.n);
  }

  /** One of the two tests on a ring in which every slot is published. */
  lemma TestThrough(s: State) returns (run: seq<Action>, t: State)
    requires Inv(s) && s.checkpointer.Locked? && s.tail == s.head + s.n - 1
    ensures Legal(s, run) && After(s, run) == t && Inv(t)
    ensures t == s.(checkpointer := if s.checkpointer.again then Full else Short)
  {
    TestsKeep(s, CheckpointLook);
    var s1 := Apply(s, CheckpointLook);
    TestsKeep(s1, CheckpointTest);
    t := Apply(s1, CheckpointTest);
    CheckpointTestExact(s1);
    LegalStep(s1, CheckpointTest, []);
    LegalStep(s, CheckpointLook, [CheckpointTest] + []);
    run := [CheckpointLook] + ([CheckpointTest] + []);
  }

  /** Its own truncation, which finds nothing to drop. */
  lemma TruncateNothing(s: State) returns (run: seq<Action>, t: State)
    requires Inv(s) && s.checkpointer.Short? && s.head == s.flushed
    ensures Legal(s, run) && After(s, run) == t && Inv(t)
    ensures t == s.(checkpointer := Locked(true))
  {
    TestsKeep(s, CheckpointTruncateLook);
    var s1 := Apply(s, CheckpointTruncateLook);
    TestsKeep(s1, CheckpointTruncateTest);
    t := Apply(s1, CheckpointTruncateTest);
    LegalStep(s1, CheckpointTruncateTest, []);
    LegalStep(s, CheckpointTruncateLook, [CheckpointTruncateTest] + []);
    run := [CheckpointTruncateLook] + ([CheckpointTruncateTest] + []);
  }

  /** The stores up to that into flushed. */
  lemma StoreFlushed(s: State) returns (run: seq<Action>, t: State)
    requires Inv(s) && s.checkpointer.Full?
    ensures Legal(s, run) && After(s, run) == t && Inv(t)
    ensures t == s.(flushed := s.tail, checkpointer := Stored(s.tail))
  {
    CheckpointKeeps(s, CheckpointRead);
    var s1 := Apply(s, CheckpointRead);
    CheckpointKeeps(s1, CheckpointFlushed);
    t := Apply(s1, CheckpointFlushed);
    LegalStep(s1, CheckpointFlushed, []);
    LegalStep(s, CheckpointRead, [CheckpointFlushed] + []);
    run := [CheckpointRead] + ([CheckpointFlushed] + []);
  }

  /** A checkpoint up to its store into flushed, on a ring in which every slot is published and none flushed. */
  lemma CheckpointBegins(s: State) returns (run: seq<Action>, t: State)
    requires Inv(s) && NoReader(s) && s.checkpointer.Off? && s.head == s.flushed && s.tail == s.head + s.n - 1
    ensures Legal(s, run) && After(s, run) == t && Inv(t)
    ensures t == s.(flushed := s.tail, checkpointer := Stored(s.tail))
  {
    TestsKeep(s, CheckpointLock);
    var s1 := Apply(s, CheckpointLock);
    var r1, s2 := TestThrough(s1);
    var r2, s3 := TruncateNothing(s2);
    var r3, s4 := TestThrough(s3);
    var r4;
    r4, t := StoreFlushed(s4);
    LegalConcat(s3, r3, r4);
    LegalConcat(s2, r2, r3 + r4);
    LegalConcat(s1, r1, r2 + (r3 + r4));
    LegalStep(s, CheckpointLock, r1 + (r2 + (r3 + r4)));
    run := [CheckpointLock] + (r1 + (r2 + (r3 + r4)));
  }

  /** Whenever every slot is published and none flushed, an allocation that runs out of journal blocks and a checkpoint
      lead, lawfully, to such a store. */
  lemma RaceArises(s: State) returns (run: seq<Action>, t: State)
    requires Inv(s) && s.head == s.flushed < s.tail == s.head + s.n - 1
    requires NoReader(s) && s.truncater.None? && s.checkpointer.Off?
    ensures Legal(s, run) && After(s, run) == t && Inv(t)
    ensures t.checkpointer.Stored? && !Disciplined(t, CheckpointHead)
  {
    TruncationKeeps(s, TruncateRead);
    var rest;
    rest, t := CheckpointBegins(Apply(s, TruncateRead));
    LegalStep(s, TruncateRead, rest);
    run := [TruncateRead] + rest;
  }

  /** Every slot is written and published. */
  lemma {:induction false} PassAll(s: State, req: Request) returns (run: seq<Action>, t: State)
    requires Inv(s) && s.tail == s.watermark
    ensures Legal(s, run) && After(s, run) == t && Inv(t)
    ensures t.tail == t.watermark == s.head + s.n - 1 && Beside(s.(tail := t.tail), t)
    decreases s.head + s.n - s.watermark
  {
    run, t := [], s;
    if s.watermark + 1 < s.head + s.n {
      var first, u := PassOne(s, req);
      var rest;
      rest, t := PassAll(u, req);
      LegalConcat(s, first, rest);
      run := first + rest;
    }
  }

  /** Every ring of two slots or more gets there from its start. */
  lemma RaceFromStart(slots: seq<Entry>, req: Request) returns (run: seq<Action>)
    requires 2 <= |slots|
    ensures Inv(Initial(slots)) && Legal(Initial(slots), run) && Inv(After(Initial(slots), run))
    ensures After(Initial(slots), run).checkpointer.Stored?
    ensures !Disciplined(After(Initial(slots), run), CheckpointHead)
  {
    var s := Initial(slots);
    var first, u := PassAll(s, req);
    var rest, t := RaceArises(u);
    LegalConcat(s, first, rest);
    run := first + rest;
  }

  /** Without that discipline the window breaks: a truncation that read flushed before the checkpoint stored
      it takes head back under a full lap of reservations. */
  lemma CheckpointRace(s: State, req: Request) returns (run: seq<Action>)
    requires Inv(s) && s.checkpointer.Stored? && !Disciplined(s, CheckpointHead)
    ensures Possible(s, run)
    ensures Outcome(s, run).head + s.n <= Outcome(s, run).watermark
  {
    var s1 := Apply(s, CheckpointHead);
    var middle, t := ReserveAll(s1, req);
    var last := [TruncateWrite];
    assert last[1..] == [] && Possible(Apply(t, TruncateWrite), last[1..]);
    assert Possible(t, last) && Outcome(t, last) == Apply(t, TruncateWrite);
    Concatenate(s1, middle, last);
    run := [CheckpointHead] + (middle + last);
    assert run[1..] == middle + last;
  }

  // ----- the flushers' discipline is exact -----

  /** A flush storing flushed keeps the invariant and moves no pointer back exactly when no flush that read a
      later tail has stored it first. */
  lemma FlushWriteExactly(s: State, id: nat)
    requires Inv(s) && Enabled(s, FlushWrite(id))
    ensures Inv(Apply(s, FlushWrite(id))) && Later(s, Apply(s, FlushWrite(id))) <==> Disciplined(s, FlushWrite(id))
  {
    if Disciplined(s, FlushWrite(id)) {
      FlushKeeps(s, FlushWrite(id));
    }
  }

  /** A truncation goes through, then flush `id` stores the tail it read. */
  lemma TruncateThenFlush(s: State, id: nat) returns (run: seq<Action>)
    requires Inv(s) && Enabled(s, FlushWrite(id)) && s.flushers[id].value < s.flushed && s.truncater.None?
    ensures Possible(s, run) && Outcome(s, run).flushed < Outcome(s, run).head
  {
    var first, t := TruncateThrough(s);
    LegalPossible(s, first);
    PossibleStep(t, FlushWrite(id), []);
    Concatenate(s, first, [FlushWrite(id)] + []);
    run := first + ([FlushWrite(id)] + []);
  }

  /** Without that discipline flushed can fall behind head: whenever an entry is published while a flush waits
      for its devices, a second flush and a truncation can overtake it. */
  lemma FlushRace(s: State, id: nat) returns (run: seq<Action>)
    requires Inv(s) && Enabled(s, FlushWrite(id)) && s.flushers[id].value < s.tail && s.truncater.None?
    ensures Possible(s, run) && Outcome(s, run).flushed < Outcome(s, run).head
  {
    if s.flushed == s.tail {
      run := TruncateThenFlush(s, id);
    } else {
      var other := FreshId(s.flushers.Keys);
      var first, t := FlushThrough(s, other);
      var rest := TruncateThenFlush(t, id);
      LegalPossible(s, first);
      Concatenate(s, first, rest);
      run := first + rest;
    }
  }
}
