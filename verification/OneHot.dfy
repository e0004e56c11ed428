/** prim_onehot_check.sv: three binary trees over a vector, whose roots say whether at most one bit is
    set, whether any is, and whether it is the one at an address. */
module OneHot {
  import opened Bits
  import opened IntBits

  /** The parameters AddrCheck, EnableCheck and StrictCheck. */
  datatype Checks = Checks(addr: bool, enable: bool, strict: bool)

  /** Bit offset of the input, or zero past its width. */
  predicate Leaf(oh: BitVec, offset: nat) {
    offset < |oh| && oh[offset]
  }

  // ---------------------------------------------------------------- the trees

  /** The node of the or tree at a level and offset; level is counted from the root. */
  predicate OrTree(oh: BitVec, levels: nat, level: nat, offset: nat)
    requires level <= levels
    decreases levels - level
  {
    if level == levels then Leaf(oh, offset)
    else OrTree(oh, levels, level + 1, 2 * offset) || OrTree(oh, levels, level + 1, 2 * offset + 1)
  }

  /** The and tree follows the address bits from the top. */
  predicate AndTree(oh: BitVec, addr: BitVec, level: nat, offset: nat)
    requires level <= |addr|
    decreases |addr| - level
  {
    if level == |addr| then Leaf(oh, offset)
    else
      var bit := addr[|addr| - 1 - level];
      || (!bit && AndTree(oh, addr, level + 1, 2 * offset))
      || (bit && AndTree(oh, addr, level + 1, 2 * offset + 1))
  }

  predicate ErrTree(oh: BitVec, levels: nat, level: nat, offset: nat)
    requires level <= levels
    decreases levels - level
  {
    if level == levels then false
    else
      || (OrTree(oh, levels, level + 1, 2 * offset) && OrTree(oh, levels, level + 1, 2 * offset + 1))
      || ErrTree(oh, levels, level + 1, 2 * offset)
      || ErrTree(oh, levels, level + 1, 2 * offset + 1)
  }

  /** err_o */
  predicate Err(c: Checks, oh: BitVec, addr: BitVec, en: bool) {
    var any := OrTree(oh, |addr|, 0, 0);
    var enableErr := c.enable && if c.strict then any != en else !en && any;
    var addrErr := c.addr && any != AndTree(oh, addr, 0, 0);
    ErrTree(oh, |addr|, 0, 0) || enableErr || addrErr
  }

  // ---------------------------------------------------------------- what the nodes mean

  /** The number of leaves under a node of a level. */
  function Span(levels: nat, level: nat): nat
    requires level <= levels
  {
    Pow2(levels - level)
  }

  /** A node covers the leaves of its two children. */
  predicate Covers(levels: nat, level: nat, offset: nat, i: nat)
    requires level <= levels
  {
    offset * Span(levels, level) <= i < offset * Span(levels, level) + Span(levels, level)
  }

  lemma CoversSplit(levels: nat, level: nat, offset: nat, i: nat)
    requires level < levels
    ensures Covers(levels, level, offset, i) <==>
            Covers(levels, level + 1, 2 * offset, i) || Covers(levels, level + 1, 2 * offset + 1, i)
    ensures !(Covers(levels, level + 1, 2 * offset, i) && Covers(levels, level + 1, 2 * offset + 1, i))
  {
    var s := Span(levels, level + 1);
    assert Span(levels, level) == 2 * s;
    assert offset * (2 * s) == 2 * offset * s;
    assert (2 * offset + 1) * s == 2 * offset * s + s;
  }

  lemma CoversLeaf(levels: nat, offset: nat, i: nat)
    ensures Covers(levels, levels, offset, i) <==> i == offset
  {
  }

  /** A node of the or tree is set exactly when a leaf under it is. */
  lemma {:induction false} OrTreeMeans(oh: BitVec, levels: nat, level: nat, offset: nat)
    requires level <= levels
    ensures OrTree(oh, levels, level, offset) <==>
            exists i: nat :: Leaf(oh, i) && Covers(levels, level, offset, i)
    decreases levels - level
  {
    if level == levels {
      CoversLeaf(levels, offset, offset);
      if i: nat :| Leaf(oh, i) && Covers(levels, level, offset, i) { CoversLeaf(levels, offset, i); }
    } else {
      OrTreeMeans(oh, levels, level + 1, 2 * offset);
      OrTreeMeans(oh, levels, level + 1, 2 * offset + 1);
      if i: nat :| Leaf(oh, i) && Covers(levels, level, offset, i) { CoversSplit(levels, level, offset, i); }
      if i: nat :| Leaf(oh, i) && Covers(levels, level + 1, 2 * offset, i) { CoversSplit(levels, level, offset, i); }
      if i: nat :| Leaf(oh, i) && Covers(levels, level + 1, 2 * offset + 1, i) {
        CoversSplit(levels, level, offset, i);
      }
    }
  }

  /** Two different leaves under a node are set. */
  predicate Clash(oh: BitVec, levels: nat, level: nat, offset: nat, i: nat, j: nat)
    requires level <= levels
  {
    && i != j && Leaf(oh, i) && Leaf(oh, j)
    && Covers(levels, level, offset, i) && Covers(levels, level, offset, j)
  }

  ghost predicate HasClash(oh: BitVec, levels: nat, level: nat, offset: nat)
    requires level <= levels
  {
    exists i: nat, j: nat :: Clash(oh, levels, level, offset, i, j)
  }

  /** Two leaves under a child are under its parent. */
  lemma ClashUp(oh: BitVec, levels: nat, level: nat, offset: nat, below: nat, child: nat)
    requires level < levels && below == level + 1 && (child == 2 * offset || child == 2 * offset + 1)
    requires HasClash(oh, levels, below, child)
    ensures HasClash(oh, levels, level, offset)
  {
    var i: nat, j: nat :| Clash(oh, levels, below, child, i, j);
    CoversSplit(levels, level, offset, i);
    CoversSplit(levels, level, offset, j);
    assert Clash(oh, levels, level, offset, i, j);
  }

  /** A leaf under each child makes two under the parent. */
  lemma ClashAcross(oh: BitVec, levels: nat, level: nat, offset: nat)
    requires level < levels
    requires OrTree(oh, levels, level + 1, 2 * offset) && OrTree(oh, levels, level + 1, 2 * offset + 1)
    ensures HasClash(oh, levels, level, offset)
  {
    OrTreeMeans(oh, levels, level + 1, 2 * offset);
    OrTreeMeans(oh, levels, level + 1, 2 * offset + 1);
    var i: nat :| Leaf(oh, i) && Covers(levels, level + 1, 2 * offset, i);
    var j: nat :| Leaf(oh, j) && Covers(levels, level + 1, 2 * offset + 1, j);
    CoversSplit(levels, level, offset, i);
    CoversSplit(levels, level, offset, j);
    assert Clash(oh, levels, level, offset, i, j);
  }

  /** Two leaves under a node are under one child or under both. */
  lemma ClashDown(oh: BitVec, levels: nat, level: nat, offset: nat)
    requires level < levels && HasClash(oh, levels, level, offset)
    ensures || HasClash(oh, levels, level + 1, 2 * offset) || HasClash(oh, levels, level + 1, 2 * offset + 1)
            || (OrTree(oh, levels, level + 1, 2 * offset) && OrTree(oh, levels, level + 1, 2 * offset + 1))
  {
    var i: nat, j: nat :| Clash(oh, levels, level, offset, i, j);
    CoversSplit(levels, level, offset, i);
    CoversSplit(levels, level, offset, j);
    OrTreeMeans(oh, levels, level + 1, 2 * offset);
    OrTreeMeans(oh, levels, level + 1, 2 * offset + 1);
    if Covers(levels, level + 1, 2 * offset, i) && Covers(levels, level + 1, 2 * offset, j) {
      assert Clash(oh, levels, level + 1, 2 * offset, i, j);
    }
    if Covers(levels, level + 1, 2 * offset + 1, i) && Covers(levels, level + 1, 2 * offset + 1, j) {
      assert Clash(oh, levels, level + 1, 2 * offset + 1, i, j);
    }
  }

  /** A node of the error tree is set exactly when two leaves under it are. */
  lemma {:induction false} ErrTreeMeans(oh: BitVec, levels: nat, level: nat, offset: nat)
    requires level <= levels
    ensures ErrTree(oh, levels, level, offset) <==> HasClash(oh, levels, level, offset)
    decreases levels - level
  {
    if level == levels {
      forall i: nat, j: nat ensures !Clash(oh, levels, level, offset, i, j) {
        CoversLeaf(levels, offset, i);
        CoversLeaf(levels, offset, j);
      }
    } else {
      ErrTreeMeans(oh, levels, level + 1, 2 * offset);
      ErrTreeMeans(oh, levels, level + 1, 2 * offset + 1);
      if HasClash(oh, levels, level, offset) { ClashDown(oh, levels, level, offset); }
      if HasClash(oh, levels, level + 1, 2 * offset) { ClashUp(oh, levels, level, offset, level + 1, 2 * offset); }
      if HasClash(oh, levels, level + 1, 2 * offset + 1) {
        ClashUp(oh, levels, level, offset, level + 1, 2 * offset + 1);
      }
      if OrTree(oh, levels, level + 1, 2 * offset) && OrTree(oh, levels, level + 1, 2 * offset + 1) {
        ClashAcross(oh, levels, level, offset);
      }
    }
  }

  // ---------------------------------------------------------------- the address

  /** The and tree's node reached through the top bits is the leaf at the address below it. */
  lemma {:induction false} AndTreeMeans(oh: BitVec, addr: BitVec, level: nat, offset: nat)
    requires level <= |addr|
    ensures AndTree(oh, addr, level, offset) <==>
            Leaf(oh, offset * Pow2(|addr| - level) + ToInt(addr[..|addr| - level]))
    decreases |addr| - level
  {
    if level < |addr| {
      var n := |addr| - level;
      var bit := addr[n - 1];
      AndTreeMeans(oh, addr, level + 1, 2 * offset);
      AndTreeMeans(oh, addr, level + 1, 2 * offset + 1);
      TopBit(addr[..n]);
      assert addr[..n][..n - 1] == addr[..n - 1];
      Shift(offset, Pow2(n - 1));
    }
  }

  lemma Shift(offset: nat, p: nat)
    ensures 2 * offset * p == offset * (2 * p) && (2 * offset + 1) * p == offset * (2 * p) + p
  {
  }

  lemma {:induction false} TopBit(addr: BitVec)
    requires addr != []
    ensures ToInt(addr) == ToInt(addr[..|addr| - 1]) + if addr[|addr| - 1] then Pow2(|addr| - 1) else 0
    decreases |addr|
  {
    if |addr| > 1 {
      TopBit(addr[1..]);
      assert addr[1..][..|addr| - 2] == addr[..|addr| - 1][1..];
    }
  }

  // ---------------------------------------------------------------- what the checker promises

  predicate AtMostOne(oh: BitVec) {
    forall i, j | 0 <= i < j < |oh| :: !(oh[i] && oh[j])
  }

  predicate AnySet(oh: BitVec) {
    exists i | 0 <= i < |oh| :: oh[i]
  }

  /** The roots of the trees. */
  lemma Roots(oh: BitVec, addr: BitVec)
    requires |oh| <= Pow2(|addr|)
    ensures OrTree(oh, |addr|, 0, 0) <==> AnySet(oh)
    ensures ErrTree(oh, |addr|, 0, 0) <==> !AtMostOne(oh)
    ensures AndTree(oh, addr, 0, 0) <==> Leaf(oh, ToInt(addr))
  {
    OrTreeMeans(oh, |addr|, 0, 0);
    ErrTreeMeans(oh, |addr|, 0, 0);
    AndTreeMeans(oh, addr, 0, 0);
    assert addr[..|addr|] == addr;
    if i :| 0 <= i < |oh| && oh[i] { assert Leaf(oh, i) && Covers(|addr|, 0, 0, i); }
    if i, j :| 0 <= i < j < |oh| && oh[i] && oh[j] { assert Clash(oh, |addr|, 0, 0, i, j); }
  }

  /** For every height and every width up to two to the height, what each configuration accepts. */
  lemma ErrMeans(c: Checks, oh: BitVec, addr: BitVec, en: bool)
    requires |oh| <= Pow2(|addr|)
    ensures !Err(c, oh, addr, en) <==>
            && AtMostOne(oh)
            && (c.enable ==> if c.strict then AnySet(oh) == en else AnySet(oh) ==> en)
            && (c.addr ==> AnySet(oh) == Leaf(oh, ToInt(addr)))
  {
    Roots(oh, addr);
  }

  /** The fully checked tree reports no error exactly when the enable is low and the vector is zero, or
      the enable is high and the bit at the address is set and no other. */
  lemma FullCheck(oh: BitVec, addr: BitVec, en: bool)
    requires |oh| <= Pow2(|addr|)
    ensures !Err(Checks(true, true, true), oh, addr, en) <==>
            if en then ToInt(addr) < |oh| && forall i | 0 <= i < |oh| :: oh[i] == (i == ToInt(addr))
            else forall i | 0 <= i < |oh| :: !oh[i]
  {
    var a := ToInt(addr);
    ErrMeans(Checks(true, true, true), oh, addr, en);
    if AtMostOne(oh) && Leaf(oh, a) {
      forall i | 0 <= i < |oh| ensures oh[i] == (i == a) {
        OnlyOne(oh, a, i);
      }
    }
  }

  lemma OnlyOne(oh: BitVec, a: nat, i: nat)
    requires AtMostOne(oh) && a < |oh| && oh[a] && i < |oh|
    ensures oh[i] == (i == a)
  {
  }
}
