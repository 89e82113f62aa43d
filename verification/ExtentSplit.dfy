/**
 Splitting a full path of an extent tree (mqfs/extents.c, ext4_ext_split).

 Everything right of the insertion point moves into new nodes, one for every level below the first level
 with a free entry; that level receives the new index.
 */
module ExtentSplit {
  import opened ExtentLists
  import opened ExtentNodes

  /** The two halves of a node cut along the path, whose leaf holds `l` and `r` afterwards. */
  function SplitBelow(n: Node, path: seq<nat>, l: seq<Ext>, r: seq<Ext>, border: nat, addrs: seq<nat>): (Node, Node)
    requires IsPath(n, path) && |addrs| == |path|
    decreases |path|
  {
    if path == [] then (Leaf(l), Leaf(r))
    else
      var i := path[0];
      var (left, right) := SplitBelow(n.idxs[i].child, path[1..], l, r, border, addrs[1..]);
      (Index(n.idxs[..i] + [n.idxs[i].(child := left)]),
       Index([Idx(border, addrs[0], right)] + n.idxs[i + 1..]))
  }

  /** The tree after the split, with the new index at level `at`. */
  function SplitAt(n: Node, path: seq<nat>, at: nat, l: seq<Ext>, r: seq<Ext>, border: nat, addrs: seq<nat>): Node
    requires IsPath(n, path) && at < |path| && |addrs| == |path| - at
    decreases at
  {
    var i := path[0];
    if at == 0 then
      var (left, right) := SplitBelow(n.idxs[i].child, path[1..], l, r, border, addrs[1..]);
      Index(n.idxs[..i] + [n.idxs[i].(child := left), Idx(border, addrs[0], right)] + n.idxs[i + 1..])
    else
      Index(n.idxs[i := n.idxs[i].(child := SplitAt(n.idxs[i].child, path[1..], at - 1, l, r, border, addrs))])
  }

  // ----- contents -----

  lemma LastEntry(idxs: seq<Idx>, i: Idx)
    ensures FlatAll(idxs + [i]) == FlatAll(idxs) + Flat(i.child)
    ensures AddrsAll(idxs + [i]) == AddrsAll(idxs) + AddrsEntry(i)
  {
    FlatAllConcat(idxs, [i]);
    AddrsAllConcat(idxs, [i]);
    assert [i][1..] == [];
    assert FlatAll([i]) == Flat(i.child) + FlatAll([]);
    assert AddrsAll([i]) == AddrsEntry(i) + AddrsAll([]);
  }

  lemma FirstEntry(i: Idx, idxs: seq<Idx>)
    ensures FlatAll([i] + idxs) == Flat(i.child) + FlatAll(idxs)
    ensures AddrsAll([i] + idxs) == AddrsEntry(i) + AddrsAll(idxs)
  {
    assert ([i] + idxs)[1..] == idxs;
  }

  lemma {:induction false} SplitBelowFlat(n: Node, path: seq<nat>, l: seq<Ext>, r: seq<Ext>, border: nat,
                                          addrs: seq<nat>)
    requires IsPath(n, path) && |addrs| == |path|
    ensures var (left, right) := SplitBelow(n, path, l, r, border, addrs);
            Flat(left) == Before(n, path) + l && Flat(right) == r + After(n, path)
    decreases |path|
  {
    if path != [] {
      var i := path[0];
      var e := n.idxs[i];
      SplitBelowFlat(e.child, path[1..], l, r, border, addrs[1..]);
      var (left, right) := SplitBelow(e.child, path[1..], l, r, border, addrs[1..]);
      LastEntry(n.idxs[..i], e.(child := left));
      FirstEntry(Idx(border, addrs[0], right), n.idxs[i + 1..]);
    }
  }

  lemma {:induction false} SplitAtFlat(n: Node, path: seq<nat>, at: nat, l: seq<Ext>, r: seq<Ext>, border: nat,
                                       addrs: seq<nat>)
    requires IsPath(n, path) && at < |path| && |addrs| == |path| - at
    ensures Flat(SplitAt(n, path, at, l, r, border, addrs)) == Before(n, path) + (l + r) + After(n, path)
    decreases at
  {
    var i := path[0];
    var e := n.idxs[i];
    var n' := SplitAt(n, path, at, l, r, border, addrs);
    var x, z := FlatAll(n.idxs[..i]), FlatAll(n.idxs[i + 1..]);
    if at == 0 {
      SplitBelowFlat(e.child, path[1..], l, r, border, addrs[1..]);
      var (left, right) := SplitBelow(e.child, path[1..], l, r, border, addrs[1..]);
      var lower, upper := n.idxs[..i] + [e.(child := left)], [Idx(border, addrs[0], right)] + n.idxs[i + 1..];
      assert n'.idxs == lower + upper;
      FlatAllConcat(lower, upper);
      LastEntry(n.idxs[..i], e.(child := left));
      FirstEntry(Idx(border, addrs[0], right), n.idxs[i + 1..]);
      Reassociate(x, Before(e.child, path[1..]), l, r, After(e.child, path[1..]), z);
    } else {
      SplitAtFlat(e.child, path[1..], at - 1, l, r, border, addrs);
      FlatAllAt(n'.idxs, i);
      assert n'.idxs[..i] == n.idxs[..i] && n'.idxs[i + 1..] == n.idxs[i + 1..];
      Regroup(x, Before(e.child, path[1..]), l + r, After(e.child, path[1..]), z);
    }
  }

  lemma Reassociate(x: seq<Ext>, b: seq<Ext>, l: seq<Ext>, r: seq<Ext>, a: seq<Ext>, z: seq<Ext>)
    ensures (x + (b + l)) + ((r + a) + z) == (x + b) + (l + r) + (a + z)
  {
  }

  // ----- tree blocks -----

  lemma {:induction false} SplitBelowAddrs(n: Node, path: seq<nat>, l: seq<Ext>, r: seq<Ext>, border: nat,
                                           addrs: seq<nat>)
    requires IsPath(n, path) && |addrs| == |path| && NodeAt(n, path).Leaf?
    ensures var (left, right) := SplitBelow(n, path, l, r, border, addrs);
            Addrs(left) + Addrs(right) == Addrs(n) + multiset(addrs)
    decreases |path|
  {
    if path != [] {
      var i := path[0];
      var e := n.idxs[i];
      SplitBelowAddrs(e.child, path[1..], l, r, border, addrs[1..]);
      var (left, right) := SplitBelow(e.child, path[1..], l, r, border, addrs[1..]);
      LastEntry(n.idxs[..i], e.(child := left));
      FirstEntry(Idx(border, addrs[0], right), n.idxs[i + 1..]);
      AddrsAllAt(n.idxs, i);
      assert addrs == [addrs[0]] + addrs[1..];
      TwoHalves(AddrsAll(n.idxs[..i]), multiset{e.addr}, Addrs(left), Addrs(right), multiset{addrs[0]},
                AddrsAll(n.idxs[i + 1..]), Addrs(e.child), multiset(addrs[1..]));
    }
  }

  lemma TwoHalves(x: multiset<nat>, a: multiset<nat>, left: multiset<nat>, right: multiset<nat>, b: multiset<nat>,
                  z: multiset<nat>, child: multiset<nat>, more: multiset<nat>)
    requires left + right == child + more
    ensures (x + (a + left)) + ((b + right) + z) == (x + (a + child) + z) + (b + more)
  {
    assert (x + (a + left)) + ((b + right) + z) == (x + a + b + z) + (left + right);
    assert (x + (a + child) + z) + (b + more) == (x + a + b + z) + (child + more);
  }

  lemma SplitHereAddrs(n: Node, path: seq<nat>, l: seq<Ext>, r: seq<Ext>, border: nat, addrs: seq<nat>)
    requires IsPath(n, path) && 0 < |addrs| == |path| && NodeAt(n, path).Leaf?
    ensures Addrs(SplitAt(n, path, 0, l, r, border, addrs)) == Addrs(n) + multiset(addrs)
  {
    var i := path[0];
    var e := n.idxs[i];
    SplitBelowAddrs(e.child, path[1..], l, r, border, addrs[1..]);
    var (left, right) := SplitBelow(e.child, path[1..], l, r, border, addrs[1..]);
    var lower, upper := n.idxs[..i] + [e.(child := left)], [Idx(border, addrs[0], right)] + n.idxs[i + 1..];
    assert SplitAt(n, path, 0, l, r, border, addrs).idxs == lower + upper;
    AddrsAllConcat(lower, upper);
    LastEntry(n.idxs[..i], e.(child := left));
    FirstEntry(Idx(border, addrs[0], right), n.idxs[i + 1..]);
    AddrsAllAt(n.idxs, i);
    assert addrs == [addrs[0]] + addrs[1..];
    TwoHalves(AddrsAll(n.idxs[..i]), multiset{e.addr}, Addrs(left), Addrs(right), multiset{addrs[0]},
              AddrsAll(n.idxs[i + 1..]), Addrs(e.child), multiset(addrs[1..]));
  }

  lemma {:induction false} SplitAtAddrs(n: Node, path: seq<nat>, at: nat, l: seq<Ext>, r: seq<Ext>, border: nat,
                                        addrs: seq<nat>)
    requires IsPath(n, path) && at < |path| && |addrs| == |path| - at && NodeAt(n, path).Leaf?
    ensures Addrs(SplitAt(n, path, at, l, r, border, addrs)) == Addrs(n) + multiset(addrs)
    decreases at
  {
    if at == 0 {
      SplitHereAddrs(n, path, l, r, border, addrs);
    } else {
      var i := path[0];
      var e := n.idxs[i];
      SplitAtAddrs(e.child, path[1..], at - 1, l, r, border, addrs);
      var idxs' := SplitAt(n, path, at, l, r, border, addrs).idxs;
      AddrsAllAt(idxs', i);
      AddrsAllAt(n.idxs, i);
      assert idxs'[..i] == n.idxs[..i] && idxs'[i + 1..] == n.idxs[i + 1..];
      Exchange(AddrsAll(n.idxs[..i]), multiset{e.addr}, Addrs(e.child), Addrs(idxs'[i].child),
               AddrsAll(n.idxs[i + 1..]), multiset{}, multiset(addrs));
    }
  }

  // ----- shape -----

  /** What the two leaf halves have to be. */
  ghost predicate Halves(n: Node, path: seq<nat>, l: seq<Ext>, r: seq<Ext>, border: nat, addrs: seq<nat>, cap: nat)
    requires IsPath(n, path)
  {
    && 1 <= |l| <= cap && 1 <= |r| <= cap && r[0].block == border
    && Entries(NodeAt(n, path)) > 0 && l[0].block == First(NodeAt(n, path))
    && forall k | 0 <= k < |addrs| :: ROOT_CAP < addrs[k]
  }

  lemma {:induction false} SplitBelowShaped(n: Node, path: seq<nat>, l: seq<Ext>, r: seq<Ext>, border: nat,
                                            addrs: seq<nat>, d: nat, cap: nat)
    requires IsPath(n, path) && |addrs| == |path| == d && Shaped(n, d, cap, cap)
    requires Halves(n, path, l, r, border, addrs, cap)
    ensures var (left, right) := SplitBelow(n, path, l, r, border, addrs);
            && Shaped(left, d, cap, cap) && First(left) == First(n)
            && Shaped(right, d, cap, cap) && First(right) == border
    decreases |path|
  {
    if path != [] {
      var i := path[0];
      var e := n.idxs[i];
      assert EntryOk(e, d - 1, cap);
      SplitBelowShaped(e.child, path[1..], l, r, border, addrs[1..], d - 1, cap);
      var (lower, upper) := SplitBelow(n, path, l, r, border, addrs);
      forall j | 0 <= j < |lower.idxs|
        ensures EntryOk(lower.idxs[j], d - 1, cap)
      {
        assert EntryOk(n.idxs[j], d - 1, cap);
      }
      forall j | 0 <= j < |upper.idxs|
        ensures EntryOk(upper.idxs[j], d - 1, cap)
      {
        assert j > 0 ==> EntryOk(n.idxs[i + j], d - 1, cap);
      }
    }
  }

  /** The level that takes the new index has a free entry. */
  ghost predicate HasFree(n: Node, path: seq<nat>, at: nat, max: nat, cap: nat)
    requires IsPath(n, path) && at <= |path|
    decreases at
  {
    if at == 0 then Entries(n) < max else HasFree(n.idxs[path[0]].child, path[1..], at - 1, cap, cap)
  }

  lemma {:induction false} SplitAtShaped(n: Node, path: seq<nat>, at: nat, l: seq<Ext>, r: seq<Ext>, border: nat,
                                         addrs: seq<nat>, d: nat, max: nat, cap: nat)
    requires IsPath(n, path) && at < |path| == d && |addrs| == d - at && Shaped(n, d, max, cap)
    requires Halves(n, path, l, r, border, addrs, cap) && HasFree(n, path, at, max, cap)
    ensures Shaped(SplitAt(n, path, at, l, r, border, addrs), d, max, cap)
    ensures First(SplitAt(n, path, at, l, r, border, addrs)) == First(n)
    decreases at
  {
    var i := path[0];
    var e := n.idxs[i];
    var n' := SplitAt(n, path, at, l, r, border, addrs);
    assert EntryOk(e, d - 1, cap);
    if at == 0 {
      SplitBelowShaped(e.child, path[1..], l, r, border, addrs[1..], d - 1, cap);
    } else {
      SplitAtShaped(e.child, path[1..], at - 1, l, r, border, addrs, d - 1, cap, cap);
    }
    forall j | 0 <= j < |n'.idxs|
      ensures EntryOk(n'.idxs[j], d - 1, cap)
    {
      assert j < |n.idxs| ==> EntryOk(n.idxs[j], d - 1, cap);
      assert at == 0 && j > i + 1 ==> n'.idxs[j] == n.idxs[j - 1] && EntryOk(n.idxs[j - 1], d - 1, cap);
    }
  }

  // ----- where the search for the new extent leads afterwards -----

  /** The split keeps the insertion point in the left half: the path still leads to it. */
  lemma {:induction false} LeftHalfFound(n: Node, path: seq<nat>, at: nat, l: seq<Ext>, r: seq<Ext>, border: nat,
                                         addrs: seq<nat>, block: nat)
    requires IsPath(n, path) && at < |path| && |addrs| == |path| - at && Routes(n, path, block) && block < border
    ensures var n' := SplitAt(n, path, at, l, r, border, addrs);
            && IsPath(n', path) && NodeAt(n', path) == Leaf(l) && Routes(n', path, block)
            && Before(n', path) == Before(n, path) && After(n', path) == r + After(n, path)
    decreases at
  {
    if at == 0 {
      LeftHalfHere(n, path, l, r, border, addrs, block);
    } else {
      var i := path[0];
      var n' := SplitAt(n, path, at, l, r, border, addrs);
      LeftHalfFound(n.idxs[i].child, path[1..], at - 1, l, r, border, addrs, block);
      assert n'.idxs[..i] == n.idxs[..i] && n'.idxs[i + 1..] == n.idxs[i + 1..];
      assert RouteStep(n'.idxs, i, block);
    }
  }

  lemma LeftHalfHere(n: Node, path: seq<nat>, l: seq<Ext>, r: seq<Ext>, border: nat, addrs: seq<nat>, block: nat)
    requires IsPath(n, path) && 0 < |path| == |addrs| && Routes(n, path, block) && block < border
    ensures var n' := SplitAt(n, path, 0, l, r, border, addrs);
            && IsPath(n', path) && NodeAt(n', path) == Leaf(l) && Routes(n', path, block)
            && Before(n', path) == Before(n, path) && After(n', path) == r + After(n, path)
  {
    var i := path[0];
    var n' := SplitAt(n, path, 0, l, r, border, addrs);
    LeftSpine(n.idxs[i].child, path[1..], l, r, border, addrs[1..], block);
    assert n'.idxs[..i] == n.idxs[..i];
    assert RouteStep(n'.idxs, i, block);
    assert After(n', path) == [] + FlatAll(n'.idxs[i + 1..]);
    RightPart(n, path, l, r, border, addrs);
  }

  lemma RightPart(n: Node, path: seq<nat>, l: seq<Ext>, r: seq<Ext>, border: nat, addrs: seq<nat>)
    requires IsPath(n, path) && 0 < |path| == |addrs|
    ensures FlatAll(SplitAt(n, path, 0, l, r, border, addrs).idxs[path[0] + 1..]) == r + After(n, path)
  {
    var i := path[0];
    var child, idxs' := n.idxs[i].child, SplitAt(n, path, 0, l, r, border, addrs).idxs;
    SplitBelowFlat(child, path[1..], l, r, border, addrs[1..]);
    assert idxs'[i + 1..] == [idxs'[i + 1]] + n.idxs[i + 1..];
    FirstEntry(idxs'[i + 1], n.idxs[i + 1..]);
    assert (r + After(child, path[1..])) + FlatAll(n.idxs[i + 1..]) == r + After(n, path);
  }

  lemma {:induction false} LeftSpine(n: Node, path: seq<nat>, l: seq<Ext>, r: seq<Ext>, border: nat, addrs: seq<nat>,
                                     block: nat)
    requires IsPath(n, path) && |addrs| == |path| && Routes(n, path, block)
    ensures var left := SplitBelow(n, path, l, r, border, addrs).0;
            && IsPath(left, path) && NodeAt(left, path) == Leaf(l) && Routes(left, path, block)
            && Before(left, path) == Before(n, path) && After(left, path) == []
    decreases |path|
  {
    if path != [] {
      var i := path[0];
      LeftSpine(n.idxs[i].child, path[1..], l, r, border, addrs[1..], block);
      var left := SplitBelow(n, path, l, r, border, addrs).0;
      assert left.idxs[..i] == n.idxs[..i] && left.idxs[i + 1..] == [];
    }
  }

  function Zeros(n: nat): seq<nat> { seq(n, _ => 0) }

  /** The path to the new leaf. */
  function NewPath(path: seq<nat>, at: nat): seq<nat>
    requires at < |path|
  {
    if at == 0 then [path[0] + 1] + Zeros(|path| - 1) else [path[0]] + NewPath(path[1..], at - 1)
  }

  lemma {:induction false} RightSpine(n: Node, path: seq<nat>, l: seq<Ext>, r: seq<Ext>, r': seq<Ext>, border: nat,
                                      addrs: seq<nat>, block: nat)
    requires IsPath(n, path) && |addrs| == |path| && Routes(n, path, block)
    ensures var right, zeros := SplitBelow(n, path, l, r, border, addrs).1, Zeros(|path|);
            && IsPath(right, zeros) && NodeAt(right, zeros) == Leaf(r) && Routes(right, zeros, block)
            && Store(right, zeros, Leaf(r'), border) == SplitBelow(n, path, l, r', border, addrs).1
    decreases |path|
  {
    if path != [] {
      var i := path[0];
      assert Zeros(|path|)[1..] == Zeros(|path| - 1);
      RightSpine(n.idxs[i].child, path[1..], l, r, r', border, addrs[1..], block);
    }
  }

  /** The split ends after the last extent: the search for the new extent leads to the new, empty leaf, and storing it
      there completes the tree. */
  lemma {:induction false} NewLeafFound(n: Node, path: seq<nat>, at: nat, l: seq<Ext>, r': seq<Ext>, border: nat,
                                        addrs: seq<nat>)
    requires IsPath(n, path) && at < |path| && |addrs| == |path| - at && Routes(n, path, border)
    ensures var n', path' := SplitAt(n, path, at, l, [], border, addrs), NewPath(path, at);
            && IsPath(n', path') && NodeAt(n', path') == Leaf([]) && Routes(n', path', border)
            && Store(n', path', Leaf(r'), border) == SplitAt(n, path, at, l, r', border, addrs)
    decreases at
  {
    var i := path[0];
    var e := n.idxs[i];
    var n', path' := SplitAt(n, path, at, l, [], border, addrs), NewPath(path, at);
    if at == 0 {
      RightSpine(e.child, path[1..], l, [], r', border, addrs[1..], border);
      LeftEqual(e.child, path[1..], l, [], r', border, addrs[1..]);
      assert path'[1..] == Zeros(|path| - 1);
      assert Store(n', path', Leaf(r'), border).idxs == SplitAt(n, path, at, l, r', border, addrs).idxs;
    } else {
      NewLeafFound(e.child, path[1..], at - 1, l, r', border, addrs);
      assert path'[1..] == NewPath(path[1..], at - 1);
      NewPathNotZero(path[1..], at - 1);
    }
  }

  lemma {:induction false} LeftEqual(n: Node, path: seq<nat>, l: seq<Ext>, r: seq<Ext>, r': seq<Ext>, border: nat,
                                     addrs: seq<nat>)
    requires IsPath(n, path) && |addrs| == |path|
    ensures SplitBelow(n, path, l, r, border, addrs).0 == SplitBelow(n, path, l, r', border, addrs).0
    decreases |path|
  {
    if path != [] {
      LeftEqual(n.idxs[path[0]].child, path[1..], l, r, r', border, addrs[1..]);
    }
  }

  lemma {:induction false} NewPathNotZero(path: seq<nat>, at: nat)
    requires at < |path|
    ensures !AllZero(NewPath(path, at))
    decreases at
  {
    if at == 0 {
      assert NewPath(path, at)[0] != 0;
    } else {
      NewPathNotZero(path[1..], at - 1);
      assert NewPath(path, at)[1..] == NewPath(path[1..], at - 1);
      if AllZero(NewPath(path, at)) {
        assert AllZero(NewPath(path, at)[1..]);
      }
    }
  }
}
