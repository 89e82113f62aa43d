/**
 The background submitter (ccnvme/submitter.c): any number of producers in delegate_bio and one
 delegator thread, as a state machine over their atomic steps.

 A call to delegate_bio is named by an id.  Positions are unbounded; the C fields are their residues.  A producer
 only knows the residue of the watermark it read: when its compare-and-swap succeeds, the position it holds is the
 watermark's.
 */
module Submitter {
  import opened RingMacros

  datatype Pc =
    | Entered           // about to read the watermark, for the first time or again
    | Seen(pos: nat)    // watermark read
    | Checked(pos: nat) // ring_space was at least one
    | Reserved(pos: nat)
    | Stored(pos: nat)  // bio_sqes[pos] written

  /** The delegator with its local copy of head: about to compare it with tail, about to submit, about to store it. */
  datatype Drain = Resting | Draining(next: nat) | Taking(next: nat) | Leaving(next: nat)

  datatype State<Bio> = State(
    len: nat, head: nat, tail: nat, watermark: nat, sqes: seq<Bio>,
    bios: map<nat, Bio>,      // every call made so far, with its bio
    calls: map<nat, Pc>,      // calls that have not returned
    owners: seq<nat>,         // history: the call that reserved position p
    delegator: Drain, delegated: seq<Bio>,      // submitted by the delegator, in order
    selfDone: seq<nat>)       // calls that found the ring full and submitted their bio themselves

  datatype Action<Bio> =
    | Call(id: nat, bio: Bio)
    | Read(id: nat)
    | Check(id: nat)
    | Reserve(id: nat)
    | Store(id: nat)
    | Publish(id: nat)
    | DrainBegin | DrainTest | DrainOne | DrainEnd

  /** How far the delegator has got. */
  function Consumed<Bio>(s: State<Bio>): nat {
    if s.delegator.Resting? then s.head else s.delegator.next
  }

  // ----- steps -----

  ghost predicate Enabled<Bio>(s: State<Bio>, a: Action<Bio>)
    requires 0 < s.len
  {
    match a
    case Call(id, _) => id !in s.bios
    case Read(id) => id in s.calls && s.calls[id].Entered?
    case Check(id) => id in s.calls && s.calls[id].Seen?
    case Reserve(id) => id in s.calls && s.calls[id].Checked?
    case Store(id) => id in s.calls && s.calls[id].Reserved? && id in s.bios
    case Publish(id) => id in s.calls && s.calls[id].Stored? && s.tail % s.len == s.calls[id].pos % s.len
    case DrainBegin => s.delegator.Resting?
    case DrainTest => s.delegator.Draining?
    case DrainOne => s.delegator.Taking?
    case DrainEnd => s.delegator.Leaving?
  }

  /** What the code relies on: a slot is free when a producer's watermark CAS succeeds, though the check was made
      earlier. */
  ghost predicate Disciplined<Bio>(s: State<Bio>, a: Action<Bio>)
    requires 0 < s.len && Enabled(s, a)
  {
    a.Reserve? && s.watermark % s.len == s.calls[a.id].pos % s.len ==> s.watermark + 1 < s.head + s.len
  }

  ghost function Apply<Bio>(s: State<Bio>, a: Action<Bio>): State<Bio>
    requires 0 < s.len == |s.sqes| && Enabled(s, a)
  {
    match a
    case Call(id, bio) =>
      s.(bios := s.bios[id := bio], calls := s.calls[id := Entered])
    case Read(id) => s.(calls := s.calls[id := Seen(s.watermark)])
    case Check(id) =>
      if RingSpace(s.head % s.len, s.calls[id].pos % s.len, s.len) < 1 then
        s.(calls := s.calls - {id}, selfDone := s.selfDone + [id])
      else s.(calls := s.calls[id := Checked(s.calls[id].pos)])
    case Reserve(id) =>
      if s.watermark % s.len == s.calls[id].pos % s.len then
        s.(watermark := s.watermark + 1, owners := s.owners + [id], calls := s.calls[id := Reserved(s.watermark)])
      else s.(calls := s.calls[id := Entered])
    case Store(id) =>
      s.(sqes := s.sqes[s.calls[id].pos % s.len := s.bios[id]], calls := s.calls[id := Stored(s.calls[id].pos)])
    case Publish(id) => s.(tail := s.tail + 1, calls := s.calls - {id})
    case DrainBegin => s.(delegator := Draining(s.head))
    case DrainTest =>
      s.(delegator := if s.delegator.next % s.len == s.tail % s.len then Leaving(s.delegator.next)
                      else Taking(s.delegator.next))
    case DrainOne =>
      s.(delegated := s.delegated + [s.sqes[s.delegator.next % s.len]], delegator := Draining(s.delegator.next + 1))
    case DrainEnd => s.(head := s.delegator.next, delegator := Resting)
  }

  // ----- invariant -----

  ghost predicate Window<Bio>(s: State<Bio>) {
    && s.head <= Consumed(s) <= s.tail <= s.watermark < s.head + s.len
    && |s.sqes| == s.len
    && |s.owners| == s.watermark
    && |s.delegated| == Consumed(s)
    && (s.delegator.Taking? ==> s.delegator.next < s.tail)
  }

  ghost predicate CallOk<Bio>(s: State<Bio>, id: nat)
    requires Window(s) && id in s.calls
  {
    && id in s.bios
    && id !in s.selfDone
    && match s.calls[id]
       case Entered => id !in s.owners
       case Seen(pos) => id !in s.owners && pos <= s.watermark
       case Checked(pos) =>
         id !in s.owners && pos <= s.watermark && (pos == s.watermark ==> s.watermark + 1 < s.head + s.len)
       case Reserved(pos) => s.tail <= pos < s.watermark && s.owners[pos] == id
       case Stored(pos) =>
         s.tail <= pos < s.watermark && s.owners[pos] == id && s.sqes[pos % s.len] == s.bios[id]
  }

  /** Who owns position `p`, and what has become of its bio. */
  ghost predicate PositionOk<Bio>(s: State<Bio>, p: nat)
    requires Window(s) && p < s.watermark
  {
    var id := s.owners[p];
    && id in s.bios && id !in s.selfDone
    && (p < Consumed(s) ==> id !in s.calls && s.delegated[p] == s.bios[id])
    && (Consumed(s) <= p < s.tail ==> id !in s.calls && s.sqes[p % s.len] == s.bios[id])
    && (s.tail <= p ==> id in s.calls && (s.calls[id] == Reserved(p) || s.calls[id] == Stored(p)))
  }

  ghost predicate Distinct(ids: seq<nat>) {
    forall i, j | 0 <= i < j < |ids| :: ids[i] != ids[j]
  }

  /** Every call is in flight, or in the ring's history, or was done by its caller. */
  ghost predicate Accounted<Bio>(s: State<Bio>, id: nat) {
    id in s.calls || id in s.owners || id in s.selfDone
  }

  ghost predicate Inv<Bio>(s: State<Bio>) {
    && Window(s)
    && (forall id | id in s.calls :: CallOk(s, id))
    && (forall p | 0 <= p < s.watermark :: PositionOk(s, p))
    && Distinct(s.owners) && Distinct(s.selfDone)
    && (forall id <- s.selfDone :: id in s.bios && id !in s.calls)
    && (forall id | id in s.bios :: Accounted(s, id))
  }

  // ----- each step keeps the invariant -----

  lemma CallKeeps<Bio>(s: State<Bio>, id: nat, bio: Bio)
    requires Inv(s) && Enabled(s, Call(id, bio))
    ensures Inv(Apply(s, Call(id, bio)))
  {
    var s' := Apply(s, Call(id, bio));
    forall p | 0 <= p < s'.watermark
      ensures PositionOk(s', p)
    {
      assert PositionOk(s, p);
    }
    assert id !in s.owners by {
      forall p | 0 <= p < |s.owners|
        ensures s.owners[p] != id
      {
        assert PositionOk(s, p);
      }
    }
    forall j | j in s'.calls
      ensures CallOk(s', j)
    {
      assert j != id ==> CallOk(s, j);
    }
    forall j | j in s'.bios
      ensures Accounted(s', j)
    {
      assert j != id ==> Accounted(s, j);
    }
  }

  lemma ReadKeeps<Bio>(s: State<Bio>, id: nat)
    requires Inv(s) && Enabled(s, Read(id))
    ensures Inv(Apply(s, Read(id)))
  {
    var s' := Apply(s, Read(id));
    assert CallOk(s, id);
    forall p | 0 <= p < s'.watermark
      ensures PositionOk(s', p)
    {
      assert PositionOk(s, p);
    }
    forall j | j in s'.calls
      ensures CallOk(s', j)
    {
      assert CallOk(s, j);
    }
    forall j | j in s'.bios
      ensures Accounted(s', j)
    {
      assert Accounted(s, j);
    }
  }

  lemma CheckKeeps<Bio>(s: State<Bio>, id: nat)
    requires Inv(s) && Enabled(s, Check(id))
    ensures Inv(Apply(s, Check(id)))
  {
    var s' := Apply(s, Check(id));
    assert CallOk(s, id);
    if s.calls[id].pos == s.watermark {
      MacrosExact(s.head, s.watermark, s.len);
    }
    forall p | 0 <= p < s'.watermark
      ensures PositionOk(s', p)
    {
      assert PositionOk(s, p);
    }
    forall j | j in s'.calls
      ensures CallOk(s', j)
    {
      assert CallOk(s, j);
    }
    forall j | j in s'.bios
      ensures Accounted(s', j)
    {
      assert Accounted(s, j);
      assert s'.selfDone == s.selfDone + [id] ==> s'.selfDone[|s.selfDone|] == id;
    }
  }

  lemma ReserveKeeps<Bio>(s: State<Bio>, id: nat)
    requires Inv(s) && Enabled(s, Reserve(id)) && Disciplined(s, Reserve(id))
    ensures Inv(Apply(s, Reserve(id)))
  {
    assert CallOk(s, id);
    if s.watermark % s.len == s.calls[id].pos % s.len {
      ReserveTakes(s, id);
    } else {
      ReserveRetries(s, id);
    }
  }

  lemma ReserveTakes<Bio>(s: State<Bio>, id: nat)
    requires Inv(s) && Enabled(s, Reserve(id)) && s.watermark % s.len == s.calls[id].pos % s.len
    requires s.watermark + 1 < s.head + s.len
    ensures Inv(Apply(s, Reserve(id)))
  {
    var s' := Apply(s, Reserve(id));
    assert CallOk(s, id);
    forall p | 0 <= p < s'.watermark
      ensures PositionOk(s', p)
    {
      assert p < s.watermark ==> PositionOk(s, p);
    }
    forall j | j in s'.calls
      ensures CallOk(s', j)
    {
      assert CallOk(s, j);
    }
    forall j | j in s'.bios
      ensures Accounted(s', j)
    {
      assert Accounted(s, j);
    }
  }

  lemma ReserveRetries<Bio>(s: State<Bio>, id: nat)
    requires Inv(s) && Enabled(s, Reserve(id)) && s.watermark % s.len != s.calls[id].pos % s.len
    ensures Inv(Apply(s, Reserve(id)))
  {
    var s' := Apply(s, Reserve(id));
    assert CallOk(s, id);
    forall p | 0 <= p < s'.watermark
      ensures PositionOk(s', p)
    {
      assert PositionOk(s, p);
    }
    forall j | j in s'.calls
      ensures CallOk(s', j)
    {
      assert CallOk(s, j);
    }
    forall j | j in s'.bios
      ensures Accounted(s', j)
    {
      assert Accounted(s, j);
    }
  }

  /** A reservation keeps the invariant exactly when its CAS fails or a slot is still free. */
  lemma ReserveExactly<Bio>(s: State<Bio>, id: nat)
    requires Inv(s) && Enabled(s, Reserve(id))
    ensures Inv(Apply(s, Reserve(id))) <==> Disciplined(s, Reserve(id))
  {
    if Disciplined(s, Reserve(id)) {
      ReserveKeeps(s, id);
    }
  }

  /** As long as the watermark is the one the producer read, a slot is free. */
  lemma PromptReserve<Bio>(s: State<Bio>, id: nat)
    requires Inv(s) && Enabled(s, Reserve(id)) && s.calls[id].pos == s.watermark
    ensures Disciplined(s, Reserve(id))
  {
    assert CallOk(s, id);
  }

  lemma StoreKeeps<Bio>(s: State<Bio>, id: nat)
    requires Inv(s) && Enabled(s, Store(id))
    ensures Inv(Apply(s, Store(id)))
  {
    var s' := Apply(s, Store(id));
    var pos := s.calls[id].pos;
    assert CallOk(s, id);
    forall p | 0 <= p < s'.watermark
      ensures PositionOk(s', p)
    {
      assert PositionOk(s, p);
      if Consumed(s) <= p <= pos {
        SameSlot(p, pos, s.len);
      }
    }
    forall j | j in s'.calls
      ensures CallOk(s', j)
    {
      assert CallOk(s, j);
      if j != id && s.calls[j].Stored? {
        var q := s.calls[j].pos;
        if q <= pos { SameSlot(q, pos, s.len); } else { SameSlot(pos, q, s.len); }
      }
    }
    forall j | j in s'.bios
      ensures Accounted(s', j)
    {
      assert Accounted(s, j);
    }
  }

  lemma PublishKeeps<Bio>(s: State<Bio>, id: nat)
    requires Inv(s) && Enabled(s, Publish(id))
    ensures Inv(Apply(s, Publish(id)))
  {
    var s' := Apply(s, Publish(id));
    assert CallOk(s, id);
    SameSlot(s.tail, s.calls[id].pos, s.len);
    forall p | 0 <= p < s'.watermark
      ensures PositionOk(s', p)
    {
      assert PositionOk(s, p);
    }
    forall j | j in s'.calls
      ensures CallOk(s', j)
    {
      assert CallOk(s, j);
    }
    forall j | j in s'.bios
      ensures Accounted(s', j)
    {
      assert Accounted(s, j);
    }
  }

  lemma DrainKeeps<Bio>(s: State<Bio>, a: Action<Bio>)
    requires Inv(s) && Enabled(s, a) && (a.DrainBegin? || a.DrainTest? || a.DrainOne? || a.DrainEnd?)
    ensures Inv(Apply(s, a))
  {
    var s' := Apply(s, a);
    if a.DrainTest? {
      SameSlot(s.delegator.next, s.tail, s.len);
    }
    forall p | 0 <= p < s'.watermark
      ensures PositionOk(s', p)
    {
      assert PositionOk(s, p);
    }
    forall j | j in s'.calls
      ensures CallOk(s', j)
    {
      assert CallOk(s, j);
    }
    forall j | j in s'.bios
      ensures Accounted(s', j)
    {
      assert Accounted(s, j);
    }
  }

  // ----- whole runs -----

  lemma StepKeeps<Bio>(s: State<Bio>, a: Action<Bio>)
    requires Inv(s) && Enabled(s, a) && Disciplined(s, a)
    ensures Inv(Apply(s, a))
    ensures s.delegated <= Apply(s, a).delegated && s.owners <= Apply(s, a).owners
  {
    match a
    case Call(id, bio) => CallKeeps(s, id, bio);
    case Read(id) => ReadKeeps(s, id);
    case Check(id) => CheckKeeps(s, id);
    case Reserve(id) => ReserveKeeps(s, id);
    case Store(id) => StoreKeeps(s, id);
    case Publish(id) => PublishKeeps(s, id);
    case _ => DrainKeeps(s, a);
  }

  ghost predicate Legal<Bio>(s: State<Bio>, run: seq<Action<Bio>>)
    requires Inv(s)
    decreases |run|
  {
    run == [] || (Enabled(s, run[0]) && Disciplined(s, run[0])
                  && (StepKeeps(s, run[0]); Legal(Apply(s, run[0]), run[1..])))
  }

  ghost function After<Bio>(s: State<Bio>, run: seq<Action<Bio>>): State<Bio>
    requires Inv(s) && Legal(s, run)
    decreases |run|
  {
    if run == [] then s else StepKeeps(s, run[0]); After(Apply(s, run[0]), run[1..])
  }

  ghost function Initial<Bio>(sqes: seq<Bio>): State<Bio> {
    State(|sqes|, 0, 0, 0, sqes, map[], map[], [], Resting, [], [])
  }

  /** The delegator has submitted exactly the bios of the first reservations, once each and in reservation
      order; every other call is in flight, queued in the ring, or submitted by its own caller, exactly once. */
  ghost predicate ExactlyOnce<Bio>(s: State<Bio>) {
    && 0 < s.len == |s.sqes|
    && |s.delegated| <= s.tail <= |s.owners|
    && Distinct(s.owners) && Distinct(s.selfDone)
    && (forall p | 0 <= p < |s.delegated| :: s.owners[p] in s.bios && s.delegated[p] == s.bios[s.owners[p]])
    && (forall p | |s.delegated| <= p < s.tail ::
          s.owners[p] in s.bios && s.sqes[p % s.len] == s.bios[s.owners[p]] && s.owners[p] !in s.calls)
    && (forall p | s.tail <= p < |s.owners| :: s.owners[p] in s.calls)
    && (forall id | id in s.bios && id !in s.calls :: id in s.owners <==> id !in s.selfDone)
    && (forall id | id in s.calls :: id !in s.selfDone && id !in s.owners[..|s.delegated|])
  }

  lemma InvExactlyOnce<Bio>(s: State<Bio>)
    requires Inv(s)
    ensures ExactlyOnce(s)
  {
    forall p | 0 <= p < |s.owners|
      ensures s.owners[p] in s.bios
      ensures p < |s.delegated| ==> s.delegated[p] == s.bios[s.owners[p]] && s.owners[p] !in s.calls
      ensures |s.delegated| <= p < s.tail ==> s.sqes[p % s.len] == s.bios[s.owners[p]] && s.owners[p] !in s.calls
      ensures s.tail <= p ==> s.owners[p] in s.calls
    {
      assert PositionOk(s, p);
    }
    forall id | id in s.bios && id !in s.calls
      ensures id in s.owners <==> id !in s.selfDone
    {
      assert Accounted(s, id);
      if id in s.owners {
        var p :| 0 <= p < |s.owners| && s.owners[p] == id;
        assert PositionOk(s, p);
      }
    }
    forall id | id in s.calls
      ensures id !in s.selfDone && id !in s.owners[..|s.delegated|]
    {
      assert CallOk(s, id);
    }
  }

  lemma {:induction false} RunFrom<Bio>(s: State<Bio>, run: seq<Action<Bio>>)
    requires Inv(s) && Legal(s, run)
    ensures Inv(After(s, run))
    ensures s.delegated <= After(s, run).delegated && s.owners <= After(s, run).owners
    decreases |run|
  {
    if run != [] {
      StepKeeps(s, run[0]);
      RunFrom(Apply(s, run[0]), run[1..]);
    }
  }

  /** Exactly-once, in-order delivery over every lawful run, from the start, of any number of producers and one
      delegator; what has been submitted and reserved at any point of the run stays; and a call has submitted its bio
      itself exactly if its test for space failed. */
  lemma RunDelivers<Bio>(sqes: seq<Bio>, run: seq<Action<Bio>>, more: seq<Action<Bio>>)
    requires sqes != [] && Legal(Initial(sqes), run)
    requires (RunFrom(Initial(sqes), run); Legal(After(Initial(sqes), run), more))
    ensures (RunFrom(Initial(sqes), run);
             var s := After(Initial(sqes), run);
             var t := After(s, more);
             ExactlyOnce(s) && ExactlyOnce(t) && s.delegated <= t.delegated && s.owners <= t.owners)
    ensures forall id :: id in After(Initial(sqes), run).selfDone <==> exists i: nat :: FailsAt(sqes, run, i, id)
  {
    forall id
      ensures id in After(Initial(sqes), run).selfDone <==> exists i: nat :: FailsAt(sqes, run, i, id)
    {
      StartOf(sqes, run);
      AloneOnlyIfFull(sqes, run, |run|, id);
    }
    RunFrom(Initial(sqes), run);
    var s := After(Initial(sqes), run);
    RunFrom(s, more);
    InvExactlyOnce(s);
    InvExactlyOnce(After(s, more));
  }

  // ----- who submits a bio itself -----

  /** The test for space fails for the position the call has read: the slot after it is that of head. */
  ghost predicate LooksFull<Bio>(s: State<Bio>, id: nat)
    requires 0 < s.len
  {
    id in s.calls && s.calls[id].Seen? && (s.calls[id].pos + 1) % s.len == s.head % s.len
  }

  /** A step adds a call to those that submit their bio themselves exactly if it is a test that fails, and then that
      call; no other step takes a call that has no slot out of the ring's loop. */
  lemma AloneExactly<Bio>(s: State<Bio>, a: Action<Bio>)
    requires 0 < s.len == |s.sqes| && Enabled(s, a)
    ensures Apply(s, a).selfDone == s.selfDone + if a.Check? && LooksFull(s, a.id) then [a.id] else []
    ensures forall id | id in s.calls && id !in Apply(s, a).calls ::
              a == Publish(id) || (a == Check(id) && LooksFull(s, id))
  {
    if a.Check? {
      SpaceFails(s.head, s.calls[a.id].pos, s.len);
    }
  }

  /** A call that looks at the current watermark finds the ring full exactly if it is; one that read it earlier does
      also if the ring has been emptied to just behind the position it read. */
  lemma FullExactly<Bio>(s: State<Bio>, id: nat)
    requires Inv(s) && id in s.calls && s.calls[id].Seen?
    ensures s.calls[id].pos == s.watermark ==> (LooksFull(s, id) <==> s.watermark + 1 == s.head + s.len)
    ensures LooksFull(s, id) <==> s.calls[id].pos + 1 == s.head + s.len ||
                                  (s.calls[id].pos < s.head && (s.head - (s.calls[id].pos + 1)) % s.len == 0)
  {
    var pos := s.calls[id].pos;
    assert CallOk(s, id);
    if pos < s.head {
      Congruent(pos + 1, s.head, s.len);
    } else if pos + 1 < s.head + s.len {
      SameSlot(s.head, pos + 1, s.len);
    } else {
      FullLooksEmpty(s.head, s.len);
    }
  }

  // ----- prefixes of runs -----

  lemma {:induction false} LegalPrefix<Bio>(s: State<Bio>, run: seq<Action<Bio>>, i: nat)
    requires Inv(s) && Legal(s, run) && i <= |run|
    ensures Legal(s, run[..i]) && Inv(After(s, run[..i]))
    ensures i < |run| ==> Enabled(After(s, run[..i]), run[i])
    ensures i < |run| ==> Legal(s, run[..i + 1]) && After(s, run[..i + 1]) == Apply(After(s, run[..i]), run[i])
    decreases i
  {
    if i == 0 {
      if run != [] {
        StepKeeps(s, run[0]);
        assert run[..1][1..] == [] && run[..1][0] == run[0];
      }
    } else {
      StepKeeps(s, run[0]);
      LegalPrefix(Apply(s, run[0]), run[1..], i - 1);
      assert run[..i][1..] == run[1..][..i - 1];
      assert i < |run| ==> run[..i + 1][1..] == run[1..][..i] && run[i] == run[1..][i - 1];
    }
  }

  /** The state before step `i` of a run from the start. */
  ghost function Before<Bio>(sqes: seq<Bio>, run: seq<Action<Bio>>, i: nat): (s: State<Bio>)
    requires sqes != [] && Legal(Initial(sqes), run) && i <= |run|
    ensures 0 < s.len
  {
    LegalPrefix(Initial(sqes), run, i);
    After(Initial(sqes), run[..i])
  }

  /** Step `i` of the run is a failing test of the call. */
  ghost predicate FailsAt<Bio>(sqes: seq<Bio>, run: seq<Action<Bio>>, i: nat, id: nat)
    requires sqes != [] && Legal(Initial(sqes), run)
  {
    i < |run| && run[i] == Check(id) && LooksFull(Before(sqes, run, i), id)
  }

  /** The position a call tests is the watermark at some earlier step of its own. */
  ghost predicate ReadAt<Bio>(sqes: seq<Bio>, run: seq<Action<Bio>>, i: nat, id: nat, pos: nat)
    requires sqes != [] && Legal(Initial(sqes), run)
  {
    i < |run| && run[i] == Read(id) && Before(sqes, run, i).watermark == pos
  }

  lemma SeenStep<Bio>(s: State<Bio>, a: Action<Bio>, t: State<Bio>, id: nat)
    requires 0 < s.len == |s.sqes| && Enabled(s, a) && t == Apply(s, a) && id in t.calls && t.calls[id].Seen?
    ensures if a == Read(id) then t.calls[id].pos == s.watermark else id in s.calls && s.calls[id] == t.calls[id]
  {
  }

  lemma {:induction false} SeenWasRead<Bio>(sqes: seq<Bio>, run: seq<Action<Bio>>, n: nat, id: nat) returns (i: nat)
    requires sqes != [] && Legal(Initial(sqes), run) && n <= |run|
    requires id in Before(sqes, run, n).calls && Before(sqes, run, n).calls[id].Seen?
    ensures i < n && ReadAt(sqes, run, i, id, Before(sqes, run, n).calls[id].pos)
    decreases n
  {
    StartOf(sqes, run);
    StepOf(sqes, run, n - 1);
    SeenStep(Before(sqes, run, n - 1), run[n - 1], Before(sqes, run, n), id);
    if run[n - 1] == Read(id) {
      i := n - 1;
    } else {
      i := SeenWasRead(sqes, run, n - 1, id);
    }
  }

  lemma StartOf<Bio>(sqes: seq<Bio>, run: seq<Action<Bio>>)
    requires sqes != [] && Legal(Initial(sqes), run)
    ensures Before(sqes, run, 0) == Initial(sqes) && Before(sqes, run, |run|) == After(Initial(sqes), run)
  {
    assert run[..0] == [] && run[..|run|] == run;
  }

  /** Step `i` of the run, without the invariant. */
  lemma StepOf<Bio>(sqes: seq<Bio>, run: seq<Action<Bio>>, i: nat)
    requires sqes != [] && Legal(Initial(sqes), run) && i < |run|
    ensures var s := Before(sqes, run, i);
            0 < s.len == |s.sqes| && Enabled(s, run[i]) && Before(sqes, run, i + 1) == Apply(s, run[i])
  {
    LegalPrefix(Initial(sqes), run, i);
  }

  lemma AloneStep<Bio>(s: State<Bio>, a: Action<Bio>, id: nat)
    requires 0 < s.len == |s.sqes| && Enabled(s, a)
    ensures id in Apply(s, a).selfDone <==> id in s.selfDone || (a == Check(id) && LooksFull(s, id))
  {
    if a.Check? {
      SpaceFails(s.head, s.calls[a.id].pos, s.len);
    }
  }

  /** Over every lawful run a call has submitted its bio itself exactly if some step of the run is its failing test. */
  lemma {:induction false} AloneOnlyIfFull<Bio>(sqes: seq<Bio>, run: seq<Action<Bio>>, n: nat, id: nat)
    requires sqes != [] && Legal(Initial(sqes), run) && n <= |run|
    ensures id in Before(sqes, run, n).selfDone <==> exists i: nat :: i < n && FailsAt(sqes, run, i, id)
    decreases n
  {
    if n == 0 {
      StartOf(sqes, run);
    } else {
      AloneOnlyIfFull(sqes, run, n - 1, id);
      StepOf(sqes, run, n - 1);
      AloneStep(Before(sqes, run, n - 1), run[n - 1], id);
      assert FailsAt(sqes, run, n - 1, id) <==> run[n - 1] == Check(id) && LooksFull(Before(sqes, run, n - 1), id);
    }
  }

  // ----- putting runs together -----

  lemma LegalStep<Bio>(s: State<Bio>, a: Action<Bio>, rest: seq<Action<Bio>>)
    requires Inv(s) && Enabled(s, a) && Disciplined(s, a) && Inv(Apply(s, a)) && Legal(Apply(s, a), rest)
    ensures Legal(s, [a] + rest) && After(s, [a] + rest) == After(Apply(s, a), rest)
  {
    assert ([a] + rest)[1..] == rest;
  }

  lemma {:induction false} LegalConcat<Bio>(s: State<Bio>, run: seq<Action<Bio>>, more: seq<Action<Bio>>)
    requires Inv(s) && Legal(s, run) && Inv(After(s, run)) && Legal(After(s, run), more)
    ensures Legal(s, run + more) && After(s, run + more) == After(After(s, run), more)
    decreases |run|
  {
    if run == [] {
      assert run + more == more;
    } else {
      assert (run + more)[1..] == run[1..] + more && (run + more)[0] == run[0];
      StepKeeps(s, run[0]);
      LegalConcat(Apply(s, run[0]), run[1..], more);
    }
  }

  // ----- the reservation's discipline -----

  /** The calls there were are where they were. */
  ghost predicate CallsStay<Bio>(s: State<Bio>, t: State<Bio>) {
    forall id | id in s.calls :: id in t.calls && t.calls[id] == s.calls[id]
  }

  /** One more producer passes its check. */
  lemma CheckOne<Bio>(s: State<Bio>, id: nat, bio: Bio) returns (run: seq<Action<Bio>>, t: State<Bio>)
    requires Inv(s) && id !in s.bios && id !in s.calls && s.watermark + 1 < s.head + s.len
    ensures Legal(s, run) && After(s, run) == t && Inv(t)
    ensures t == s.(bios := s.bios[id := bio], calls := s.calls[id := Checked(s.watermark)])
  {
    MacrosExact(s.head, s.watermark, s.len);
    var s1 := Apply(s, Call(id, bio));
    CallKeeps(s, id, bio);
    var s2 := Apply(s1, Read(id));
    ReadKeeps(s1, id);
    t := Apply(s2, Check(id));
    CheckKeeps(s2, id);
    assert t.calls == s.calls[id := Checked(s.watermark)];
    LegalStep(s2, Check(id), []);
    LegalStep(s1, Read(id), [Check(id)] + []);
    LegalStep(s, Call(id, bio), [Read(id)] + ([Check(id)] + []));
    run := [Call(id, bio)] + ([Read(id)] + ([Check(id)] + []));
  }

  /** One more producer reserves a slot. */
  lemma ReserveOne<Bio>(s: State<Bio>, bio: Bio) returns (run: seq<Action<Bio>>, t: State<Bio>, id: nat)
    requires Inv(s) && s.watermark + 1 < s.head + s.len
    ensures Legal(s, run) && After(s, run) == t && Inv(t)
    ensures id !in s.calls && t == s.(watermark := s.watermark + 1, owners := s.owners + [id],
                                      bios := s.bios[id := bio], calls := s.calls[id := Reserved(s.watermark)])
  {
    id := FreshId(s.bios.Keys + s.calls.Keys);
    var first, u := CheckOne(s, id, bio);
    ReserveKeeps(u, id);
    t := Apply(u, Reserve(id));
    assert t.calls == s.calls[id := Reserved(s.watermark)];
    LegalStep(u, Reserve(id), []);
    LegalConcat(s, first, [Reserve(id)] + []);
    run := first + ([Reserve(id)] + []);
  }

  /** Producers reserve every slot. */
  lemma {:induction false} ReserveAll<Bio>(s: State<Bio>, bio: Bio) returns (run: seq<Action<Bio>>, t: State<Bio>)
    requires Inv(s)
    ensures Legal(s, run) && After(s, run) == t && Inv(t)
    ensures t.len == s.len && t.head == s.head && t.watermark == s.head + s.len - 1 && CallsStay(s, t)
    decreases s.head + s.len - s.watermark
  {
    run, t := [], s;
    if s.watermark + 1 < s.head + s.len {
      var first, u, _ := ReserveOne(s, bio);
      var rest;
      rest, t := ReserveAll(u, bio);
      LegalConcat(s, first, rest);
      run := first + rest;
    }
  }

  /** A bio is stored in its slot and published. */
  lemma PublishOne<Bio>(s: State<Bio>, id: nat) returns (run: seq<Action<Bio>>, t: State<Bio>)
    requires Inv(s) && id in s.calls && s.calls[id] == Reserved(s.tail)
    ensures Legal(s, run) && After(s, run) == t && Inv(t)
    ensures t == s.(tail := s.tail + 1, sqes := t.sqes, calls := s.calls - {id})
  {
    assert CallOk(s, id);
    StoreKeeps(s, id);
    var s1 := Apply(s, Store(id));
    PublishKeeps(s1, id);
    t := Apply(s1, Publish(id));
    assert t.calls == s.calls - {id};
    LegalStep(s1, Publish(id), []);
    LegalStep(s, Store(id), [Publish(id)] + []);
    run := [Store(id)] + ([Publish(id)] + []);
  }

  /** The delegator submits the one bio there is. */
  lemma DrainThrough<Bio>(s: State<Bio>) returns (run: seq<Action<Bio>>, t: State<Bio>)
    requires Inv(s) && s.delegator.Resting? && s.tail == s.head + 1
    ensures Legal(s, run) && After(s, run) == t && Inv(t)
    ensures t == s.(head := s.tail, delegated := t.delegated)
  {
    SameSlot(s.head, s.tail, s.len);
    DrainKeeps(s, DrainBegin);
    var s1 := Apply(s, DrainBegin);
    DrainKeeps(s1, DrainTest);
    var s2 := Apply(s1, DrainTest);
    DrainKeeps(s2, DrainOne);
    var s3 := Apply(s2, DrainOne);
    var rest;
    rest, t := DrainLeaves(s3);
    LegalStep(s2, DrainOne, rest);
    LegalStep(s1, DrainTest, [DrainOne] + rest);
    LegalStep(s, DrainBegin, [DrainTest] + ([DrainOne] + rest));
    run := [DrainBegin] + ([DrainTest] + ([DrainOne] + rest));
  }

  lemma DrainLeaves<Bio>(s: State<Bio>) returns (run: seq<Action<Bio>>, t: State<Bio>)
    requires Inv(s) && s.delegator == Draining(s.tail)
    ensures Legal(s, run) && After(s, run) == t && Inv(t)
    ensures t == s.(head := s.tail, delegator := Resting)
  {
    DrainKeeps(s, DrainTest);
    var s1 := Apply(s, DrainTest);
    DrainKeeps(s1, DrainEnd);
    t := Apply(s1, DrainEnd);
    LegalStep(s1, DrainEnd, []);
    LegalStep(s, DrainTest, [DrainEnd] + []);
    run := [DrainTest] + ([DrainEnd] + []);
  }

  /** From an empty ring one bio is queued and submitted, and then every slot is reserved. */
  lemma FullLap<Bio>(s: State<Bio>, bio: Bio) returns (run: seq<Action<Bio>>, t: State<Bio>)
    requires Inv(s) && s.head == s.watermark && 2 <= s.len && s.delegator.Resting?
    ensures Legal(s, run) && After(s, run) == t && Inv(t)
    ensures t.len == s.len && t.head == s.head + 1 && t.watermark == s.watermark + s.len && CallsStay(s, t)
  {
    var r1, s1 := PassOne(s, bio);
    var r2;
    r2, t := ReserveAll(s1, bio);
    LegalConcat(s, r1, r2);
    run := r1 + r2;
  }

  /** The ring is full and looks empty. */
  ghost predicate Overrun<Bio>(s: State<Bio>) {
    0 < s.len && s.watermark == s.head + s.len && RingSpace(s.head % s.len, s.watermark % s.len, s.len) == s.len - 1
  }

  lemma LateReserve<Bio>(s: State<Bio>, id: nat)
    requires 0 < s.len == |s.sqes| && id in s.calls && s.calls[id] == Checked(0)
    requires s.head == 1 && s.watermark == s.len
    ensures Enabled(s, Reserve(id)) && Overrun(Apply(s, Reserve(id)))
  {
    FullLooksEmpty(0, s.len);
    FullLooksEmpty(s.head, s.len);
  }

  /** In every ring of two slots or more a producer can pass its check, sleep while the watermark goes round once, and
      then reserve one slot too many: the ring is full and looks empty. */
  lemma LapRace<Bio>(sqes: seq<Bio>, bio: Bio) returns (run: seq<Action<Bio>>)
    requires 2 <= |sqes|
    ensures Inv(Initial(sqes)) && Legal(Initial(sqes), run) && Inv(After(Initial(sqes), run))
    ensures Enabled(After(Initial(sqes), run), Reserve(0)) && Overrun(Apply(After(Initial(sqes), run), Reserve(0)))
  {
    var s := Initial(sqes);
    var first, u := CheckOne(s, 0, bio);
    var rest, t := FullLap(u, bio);
    LegalConcat(s, first, rest);
    run := first + rest;
    LateReserve(t, 0);
  }

  /** In every ring of two slots or more a call can read the watermark, see another bio queued and submitted, and then
      take the empty ring for a full one. */
  lemma StaleAlone<Bio>(sqes: seq<Bio>, bio: Bio) returns (run: seq<Action<Bio>>)
    requires 2 <= |sqes|
    ensures Legal(Initial(sqes), run) && Inv(After(Initial(sqes), run))
    ensures var s := After(Initial(sqes), run); s.head == s.tail == s.watermark && LooksFull(s, 0)
  {
    var s := Initial(sqes);
    CallKeeps(s, 0, bio);
    var s1 := Apply(s, Call(0, bio));
    ReadKeeps(s1, 0);
    var s2 := Apply(s1, Read(0));
    LegalStep(s1, Read(0), []);
    LegalStep(s, Call(0, bio), [Read(0)] + []);
    var first := [Call(0, bio)] + ([Read(0)] + []);
    var rest, t := PassOne(s2, bio);
    LegalConcat(s, first, rest);
    run := first + rest;
  }

  /** A bio is queued and submitted. */
  lemma PassOne<Bio>(s: State<Bio>, bio: Bio) returns (run: seq<Action<Bio>>, t: State<Bio>)
    requires Inv(s) && s.head == s.watermark && 2 <= s.len && s.delegator.Resting?
    ensures Legal(s, run) && After(s, run) == t && Inv(t)
    ensures t.len == s.len && t.head == t.tail == t.watermark == s.head + 1 && t.delegator.Resting? && CallsStay(s, t)
  {
    var r1, s1, id := ReserveOne(s, bio);
    var r2, s2 := PublishOne(s1, id);
    var r3;
    r3, t := DrainThrough(s2);
    LegalConcat(s1, r2, r3);
    LegalConcat(s, r1, r2 + r3);
    run := r1 + (r2 + r3);
  }
}
