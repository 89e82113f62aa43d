/**
 The index arithmetic of the two reserve/publish rings (ccnvme/horae.h).

 The C fields are residues modulo the ring size; the models keep the unbounded positions they are
 residues of, and the lemmas below say what the macros compute on a window shorter than one lap.
 */
module RingMacros {
  import opened Arithmetic

  /** horae_ring_space: computed on residues. */
  function RingSpace(head: nat, tail: nat, size: nat): nat
    requires head < size && tail < size
  {
    (size + head - tail - 1) % size
  }

  /** horae_count: computed on residues. */
  function RingCount(head: nat, tail: nat, size: nat): nat
    requires head < size && tail < size
  {
    (size + tail - head) % size
  }

  lemma ShiftedResidue(p: nat, d: nat, n: nat)
    requires d < n
    ensures (p + d) % n == if p % n + d < n then p % n + d else p % n + d - n
  {
    if p % n + d < n {
      Remainder(p + d, n, p / n, p % n + d);
    } else {
      assert n * (p / n + 1) == n * (p / n) + n;
      Remainder(p + d, n, p / n + 1, p % n + d - n);
    }
  }

  /** Two positions less than a lap apart share a slot exactly when they are equal. */
  lemma SameSlot(p: nat, q: nat, n: nat)
    requires p <= q < p + n
    ensures p % n == q % n <==> p == q
  {
    ShiftedResidue(p, q - p, n);
  }

  /** The macros count free and used slots of a window shorter than a lap, wrapped or not. */
  lemma MacrosExact(h: nat, t: nat, n: nat)
    requires h <= t < h + n
    ensures RingSpace(h % n, t % n, n) == n - 1 - (t - h)
    ensures RingCount(h % n, t % n, n) == t - h
  {
    ShiftedResidue(h, t - h, n);
    var a, b := h % n, t % n;
    if a <= b {
      assert n + a - b - 1 < n;
      Remainder(n + a - b - 1, n, 0, n + a - b - 1);
      Remainder(n + b - a, n, 1, b - a);
    } else {
      Remainder(n + a - b - 1, n, 1, a - b - 1);
      Remainder(n + b - a, n, 0, n + b - a);
    }
  }

  /** The position of the lap from `h` on that lives in the slot of `p`. */
  lemma SlotFrom(h: nat, p: nat, n: nat) returns (q: nat)
    requires 0 < n
    ensures h <= q < h + n && q % n == p % n && q - h == RingCount(h % n, p % n, n)
  {
    var a, b := h % n, p % n;
    q := h + if a <= b then b - a else n + b - a;
    ShiftedResidue(h, q - h, n);
    MacrosExact(h, q, n);
  }

  /** Residues agree exactly if the distance is a number of laps. */
  lemma Congruent(p: nat, q: nat, n: nat)
    requires p <= q && 0 < n
    ensures p % n == q % n <==> (q - p) % n == 0
  {
    var d := (q - p) % n;
    var k := (q - p) / n;
    ShiftedResidue(p, d, n);
    Laps(p + d, k, n);
    assert q == p + d + n * k;
  }

  lemma {:induction false} Laps(p: nat, k: nat, n: nat)
    requires 0 < n
    ensures (p + n * k) % n == p % n
  {
    assert p == n * (p / n) + p % n && n * (p / n + k) == n * (p / n) + n * k;
    Remainder(p + n * k, n, p / n + k, p % n);
  }

  /** The macro finds no space exactly if the slot after the tail is that of head. */
  lemma SpaceFails(h: nat, t: nat, n: nat)
    requires 0 < n
    ensures RingSpace(h % n, t % n, n) < 1 <==> (t + 1) % n == h % n
  {
    var a, b := h % n, t % n;
    if n == 1 {
      assert RingSpace(a, b, n) == 0;
    } else {
      ShiftedResidue(t, 1, n);
      if a <= b {
        Remainder(n + a - b - 1, n, 0, n + a - b - 1);
      } else {
        Remainder(n + a - b - 1, n, 1, a - b - 1);
      }
    }
  }

  /** A lap further on the residue is the same, and the macro takes a full ring for an empty one. */
  lemma FullLooksEmpty(h: nat, n: nat)
    requires 0 < n
    ensures (h + n) % n == h % n && RingSpace(h % n, (h + n) % n, n) == n - 1
  {
    assert h == n * (h / n) + h % n && n * (h / n + 1) == n * (h / n) + n;
    Remainder(h + n, n, h / n + 1, h % n);
    MacrosExact(h, h, n);
  }

  /** There is always another producer. */
  lemma {:induction false} FreshId(used: set<nat>) returns (id: nat)
    ensures id !in used
  {
    id := 0;
    var seen: set<nat> := {};
    while id in used
      invariant seen <= used && forall j: nat :: j in seen <==> j < id
      decreases used - seen
    {
      seen := seen + {id};
      id := id + 1;
    }
  }
}
