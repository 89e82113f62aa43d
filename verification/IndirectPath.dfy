/**
 Block numbers as paths of offsets through a file's pointer blocks (mqfs/indirect.c, ext4_block_to_path).
 */
module IndirectPath {
  import opened Arithmetic

  /** EXT4_NDIR_BLOCKS and the slots of the three pointer trees. */
  const NDIR: nat := 12
  const IND: nat := 12
  const DIND: nat := 13
  const TIND: nat := 14

  /** Blocks below a pointer of height `h`, `p` pointers to a block. */
  function Width(p: nat, h: nat): nat { if h == 0 then 1 else p * Width(p, h - 1) }

  /** The number the digits spell in base `p`. */
  function Value(p: nat, ds: seq<nat>): nat {
    if ds == [] then 0 else ds[0] * Width(p, |ds| - 1) + Value(p, ds[1..])
  }

  predicate Digits(p: nat, ds: seq<nat>) {
    forall i | 0 <= i < |ds| :: ds[i] < p
  }

  function SlotHeight(slot: nat): nat { if slot < NDIR then 0 else slot - NDIR + 1 }

  /** The first block below a slot of the inode. */
  function SlotStart(p: nat, slot: nat): nat {
    if slot < NDIR then slot
    else if slot == IND then NDIR
    else if slot == DIND then NDIR + p
    else NDIR + p + p * p
  }

  /** The first block beyond the triple tree. */
  function Limit(p: nat): nat { NDIR + p + p * p + p * (p * p) }

  /** A slot of the inode and one offset for every pointer block on the way. */
  ghost predicate IsOffsets(p: nat, path: seq<nat>) {
    path != [] && path[0] <= TIND && |path| == SlotHeight(path[0]) + 1 && Digits(p, path[1..])
  }

  /** The block at the end of a path. */
  ghost function BlockOf(p: nat, path: seq<nat>): nat
    requires path != []
  {
    SlotStart(p, path[0]) + Value(p, path[1..])
  }

  /** The order of paths: by the first offset in which they differ. */
  ghost predicate Lex(x: seq<nat>, y: seq<nat>)
    decreases |x|
  {
    x != [] && y != [] && (x[0] < y[0] || (x[0] == y[0] && Lex(x[1..], y[1..])))
  }

  lemma {:induction false} ValueBounded(p: nat, ds: seq<nat>)
    requires Digits(p, ds)
    ensures Value(p, ds) < Width(p, |ds|)
  {
    if ds != [] {
      ValueBounded(p, ds[1..]);
      Scaled(ds[0], p, Width(p, |ds| - 1));
    }
  }

  /** Digits of equal number are ordered like the values they spell. */
  lemma {:induction false} ValueLex(p: nat, x: seq<nat>, y: seq<nat>)
    requires |x| == |y| && Digits(p, x) && Digits(p, y)
    ensures Lex(x, y) <==> Value(p, x) < Value(p, y)
    ensures x == y <==> Value(p, x) == Value(p, y)
  {
    if x != [] {
      var w := Width(p, |x| - 1);
      ValueLex(p, x[1..], y[1..]);
      ValueBounded(p, x[1..]);
      ValueBounded(p, y[1..]);
      assert x == [x[0]] + x[1..] && y == [y[0]] + y[1..];
      if x[0] < y[0] {
        Scaled(x[0], y[0], w);
      } else if y[0] < x[0] {
        Scaled(y[0], x[0], w);
      }
    }
  }

  lemma Widths(p: nat)
    ensures Width(p, 0) == 1 && Width(p, 1) == p && Width(p, 2) == p * p && Width(p, 3) == p * (p * p)
  {
    assert Width(p, 1) == p * Width(p, 0);
    assert Width(p, 2) == p * Width(p, 1);
    assert Width(p, 3) == p * Width(p, 2);
  }

  /** A slot's blocks end where the next slot's begin. */
  lemma SlotEnds(p: nat, slot: nat)
    requires slot <= TIND
    ensures SlotStart(p, slot) + Width(p, SlotHeight(slot)) == if slot == TIND then Limit(p) else SlotStart(p, slot + 1)
  {
    Widths(p);
  }

  lemma {:induction false} SlotsGrow(p: nat, a: nat, b: nat)
    requires a < b <= TIND
    ensures SlotStart(p, a) + Width(p, SlotHeight(a)) <= SlotStart(p, b)
    decreases b - a
  {
    SlotEnds(p, a);
    if a + 1 < b {
      SlotsGrow(p, a + 1, b);
    }
  }

  /** Every path leads below the limit, and those of a smaller slot lead below those of a greater one. */
  lemma SlotOrder(p: nat, x: seq<nat>, y: seq<nat>)
    requires IsOffsets(p, x) && IsOffsets(p, y) && x[0] < y[0]
    ensures BlockOf(p, x) < BlockOf(p, y)
  {
    ValueBounded(p, x[1..]);
    SlotsGrow(p, x[0], y[0]);
  }

  lemma InLimit(p: nat, x: seq<nat>)
    requires IsOffsets(p, x)
    ensures BlockOf(p, x) < Limit(p)
  {
    ValueBounded(p, x[1..]);
    SlotEnds(p, x[0]);
    if x[0] < TIND {
      SlotsGrow(p, x[0], TIND);
    }
  }

  /** Paths are ordered like the blocks they lead to; so no two lead to one block. */
  lemma PathOrder(p: nat, x: seq<nat>, y: seq<nat>)
    requires IsOffsets(p, x) && IsOffsets(p, y)
    ensures Lex(x, y) <==> BlockOf(p, x) < BlockOf(p, y)
    ensures x == y <==> BlockOf(p, x) == BlockOf(p, y)
  {
    assert x == [x[0]] + x[1..] && y == [y[0]] + y[1..];
    if x[0] < y[0] {
      SlotOrder(p, x, y);
    } else if y[0] < x[0] {
      SlotOrder(p, y, x);
    } else {
      ValueLex(p, x[1..], y[1..]);
    }
  }

  /** How far the last offset can grow. */
  ghost predicate GrowsBy(p: nat, path: seq<nat>, m: nat)
    requires path != []
  {
    IsOffsets(p, path[|path| - 1 := path[|path| - 1] + m])
  }

  lemma Spell1(p: nat, a: nat)
    ensures Value(p, [a]) == a
  {
    assert [a][1..] == [];
  }

  lemma Spell2(p: nat, b: nat)
    requires 0 < p
    ensures Value(p, [b / p, b % p]) == b
  {
    Widths(p);
    assert [b / p, b % p][1..] == [b % p];
    Spell1(p, b % p);
  }

  lemma Spell3(p: nat, b: nat)
    requires 0 < p
    ensures Value(p, [b / (p * p), (b / p) % p, b % p]) == b
    ensures b / (p * p) < p <==> b < p * (p * p)
  {
    var q, r := b / p, b % p;
    TwoSteps(p, b, q, r, q / p, q % p);
    Cubed(p, b);
    SpellOut(p, q / p, q % p, r);
  }

  lemma SpellOut(p: nat, x: nat, y: nat, z: nat)
    ensures Value(p, [x, y, z]) == x * (p * p) + y * p + z
  {
    Widths(p);
    assert [x, y, z][1..] == [y, z] && [y, z][1..] == [z];
    Spell1(p, z);
  }

  /** Dividing twice. */
  lemma TwoSteps(p: nat, b: nat, q: nat, r: nat, q': nat, r': nat)
    requires 0 < p && b == p * q + r && q == p * q' + r' && r < p && r' < p
    ensures b == q' * (p * p) + r' * p + r && b / (p * p) == q'
  {
    Distribute(p, q', r');
    Scaled(r', p, p);
    Quotient(b, p * p, q', r' * p + r);
  }

  lemma Distribute(p: nat, a: nat, c: nat)
    ensures p * (p * a + c) == (p * p) * a + c * p
  {
  }

  lemma Cubed(p: nat, b: nat)
    requires 0 < p
    ensures b / (p * p) < p <==> b < p * (p * p)
  {
    var n := p * p;
    var q := b / n;
    assert b == n * q + b % n;
    if q < p {
      Scaled(q, p, n);
    } else {
      AtLeast(n, p, q);
    }
  }

  /** How many blocks after this one share its pointer block. */
  function Room(p: nat, path: seq<nat>): int
    requires path != []
  {
    (if |path| == 1 then NDIR else p) - 1 - path[|path| - 1]
  }

  lemma GrowsExactly(p: nat, path: seq<nat>)
    requires IsOffsets(p, path)
    ensures forall m: nat :: GrowsBy(p, path, m) <==> m <= Room(p, path)
  {
    forall m: nat
      ensures GrowsBy(p, path, m) <==> m <= Room(p, path)
    {
      var n := |path| - 1;
      var q := path[n := path[n] + m];
      if n > 0 {
        assert q[1..][n - 1] == path[n] + m;
        assert forall i | 0 <= i < n - 1 :: q[1..][i] == path[1..][i];
      }
    }
  }

  /** The offsets lead to the block, and `n` more blocks share its pointer block. */
  ghost predicate Parsed(p: nat, block: nat, path: seq<nat>, n: int) {
    && block < Limit(p) && IsOffsets(p, path) && BlockOf(p, path) == block
    && forall m: nat :: GrowsBy(p, path, m) <==> m <= n
  }

  lemma ParsedOk(p: nat, block: nat, path: seq<nat>)
    requires IsOffsets(p, path) && BlockOf(p, path) == block
    ensures Parsed(p, block, path, Room(p, path))
  {
    InLimit(p, path);
    GrowsExactly(p, path);
  }

  method DirectPath(p: nat, b: nat) returns (offsets: seq<nat>, boundary: int)
    requires b < NDIR <= p
    ensures Parsed(p, b, offsets, boundary)
  {
    offsets := [b];
    boundary := NDIR - 1 - b % p;
    assert offsets[1..] == [];
    Quotient(b, p, 0, b);
    ParsedOk(p, b, offsets);
  }

  method SinglePath(p: nat, b: nat) returns (offsets: seq<nat>, boundary: int)
    requires b < p
    ensures Parsed(p, NDIR + b, offsets, boundary)
  {
    offsets := [IND, b];
    boundary := p - 1 - b % p;
    assert offsets[1..] == [b];
    Spell1(p, b);
    Quotient(b, p, 0, b);
    ParsedOk(p, NDIR + b, offsets);
  }

  method DoublePath(p: nat, b: nat, double: nat) returns (offsets: seq<nat>, boundary: int)
    requires 0 < p && double == p * p && b < double
    ensures Parsed(p, NDIR + p + b, offsets, boundary)
  {
    offsets := [DIND, b / p, b % p];
    boundary := p - 1 - b % p;
    Squared(p, b);
    DoubleOk(p, b / p, b % p, b);
  }

  lemma DoubleOk(p: nat, x: nat, y: nat, b: nat)
    requires x < p && y < p && Value(p, [x, y]) == b
    ensures Parsed(p, NDIR + p + b, [DIND, x, y], p - 1 - y)
  {
    assert [DIND, x, y][1..] == [x, y];
    ParsedOk(p, NDIR + p + b, [DIND, x, y]);
  }

  lemma Squared(p: nat, b: nat)
    requires 0 < p && b < p * p
    ensures b / p < p && Value(p, [b / p, b % p]) == b
  {
    Spell2(p, b);
    Divided(p, b);
    if p <= b / p {
      AtLeast(p, p, b / p);
    }
  }

  method TriplePath(p: nat, b: nat, double: nat) returns (offsets: seq<nat>, boundary: int)
    requires 0 < p && double == p * p
    ensures offsets == [] <==> Limit(p) <= NDIR + p + double + b
    ensures offsets != [] ==> Parsed(p, NDIR + p + double + b, offsets, boundary)
  {
    Spell3(p, b);
    Divided(p, b / p);
    Divided(p, b);
    offsets := [];
    boundary := 0 - 1 - b % p;
    if b / double < p {
      offsets := [TIND, b / double, (b / p) % p, b % p];
      boundary := p - 1 - b % p;
      TripleOk(p, b / double, (b / p) % p, b % p, b);
    }
  }

  lemma TripleOk(p: nat, x: nat, y: nat, z: nat, b: nat)
    requires x < p && y < p && z < p && Value(p, [x, y, z]) == b
    ensures Parsed(p, NDIR + p + p * p + b, [TIND, x, y, z], p - 1 - z)
  {
    assert [TIND, x, y, z][1..] == [x, y, z];
    ParsedOk(p, NDIR + p + p * p + b, [TIND, x, y, z]);
  }

  /** ext4_block_to_path, with the boundary count. */
  method BlockToPath(p: nat, block: nat) returns (offsets: seq<nat>, boundary: int)
    requires NDIR <= p
    ensures offsets == [] <==> Limit(p) <= block
    ensures offsets != [] ==> Parsed(p, block, offsets, boundary)
  {
    var b := block;
    var double := p * p;
    if b < NDIR {
      offsets, boundary := DirectPath(p, b);
    } else {
      b := b - NDIR;
      if b < p {
        offsets, boundary := SinglePath(p, b);
      } else {
        b := b - p;
        if b < double {
          offsets, boundary := DoublePath(p, b, double);
        } else {
          b := b - double;
          offsets, boundary := TriplePath(p, b, double);
        }
      }
    }
  }
}
