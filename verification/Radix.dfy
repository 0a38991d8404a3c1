/** Base-128 arithmetic on 32-bit block offsets: the digits of an offset are the
    slots that a walk down an indirect-block tree goes through. */
module Radix {
  import opened Base

  const REFS_PER_BLOCK := 128

  function Pow128(n: nat): (p: nat)
    ensures p > 0
  {
    if n == 0 then 1 else 128 * Pow128(n - 1)
  }

  /** The logical right shift, one bit at a time. */
  function ShiftR(x: nat, nbits: nat): (r: nat)
    ensures r <= x
  {
    if nbits == 0 then x else ShiftR(x, nbits - 1) / 2
  }

  /** `x >> nbits`, with shifts of the whole word width or more giving 0. */
  function LogShiftR(x: Word, nbits: nat): (r: Word)
  {
    if nbits >= 32 then 0 else ShiftR(x, nbits)
  }

  /** The offset with its lowest `level` base-128 digits dropped: the index, among
      all nodes of that level, of the node on the path to the offset. */
  function Prefix(off: nat, level: nat): (p: nat)
    ensures p <= off
  {
    if level == 0 then off else Prefix(off, level - 1) / 128
  }

  /** The number of tree levels needed to reach offset `x`. */
  function LevelsFor(x: nat): (l: nat)
  {
    if x == 0 then 0 else 1 + LevelsFor(x / 128)
  }

  /** The height of the tree of a file with `nblocks` blocks. */
  function Height(nblocks: nat): (h: nat)
  {
    if nblocks == 0 then 0 else LevelsFor(nblocks - 1)
  }

  /** Shifting by whole digits drops whole digits, for every shift amount. */
  lemma {:induction false} ShiftIsPrefix(x: Word, level: nat)
    ensures LogShiftR(x, level * 7) == Prefix(x, level)
  {
    if level < 5 {
      ShiftDigits(x, level);
    } else {
      FiveDigits(x);
      PrefixZeroUp(x, 5, level);
    }
  }

  lemma {:induction false} ShiftDigits(x: nat, level: nat)
    ensures ShiftR(x, level * 7) == Prefix(x, level)
  {
    if level > 0 {
      ShiftDigits(x, level - 1);
      ShiftSeven(x, (level - 1) * 7);
    }
  }

  lemma {:induction false} ShiftSeven(x: nat, n: nat)
    ensures ShiftR(x, n + 7) == ShiftR(x, n) / 128
  {
    assert ShiftR(x, n + 2) == ShiftR(x, n) / 4;
    assert ShiftR(x, n + 4) == ShiftR(x, n) / 16;
    assert ShiftR(x, n + 6) == ShiftR(x, n) / 64;
  }

  lemma {:induction false} FiveDigits(x: Word)
    ensures Prefix(x, 5) == 0
  {
    assert Prefix(x, 2) < 0x4_0000;
    assert Prefix(x, 4) < 16;
  }

  lemma {:induction false} PrefixZeroUp(x: nat, l: nat, m: nat)
    requires l <= m && Prefix(x, l) == 0
    ensures Prefix(x, m) == 0
  {
    if l < m {
      PrefixZeroUp(x, l, m - 1);
    }
  }

  lemma {:induction false} PrefixFromTop(x: nat, level: nat)
    requires level > 0
    ensures Prefix(x, level) == Prefix(x / 128, level - 1)
  {
    if level > 1 {
      PrefixFromTop(x, level - 1);
    }
  }

  /** `LevelsFor(x)` drops every digit of `x`, and dropping fewer never does. */
  lemma {:induction false} LevelsDropAll(x: nat)
    ensures Prefix(x, LevelsFor(x)) == 0
    ensures forall l: nat :: l < LevelsFor(x) ==> Prefix(x, l) != 0
  {
    if x != 0 {
      LevelsDropAll(x / 128);
      PrefixFromTop(x, LevelsFor(x));
      forall l: nat | l < LevelsFor(x)
        ensures Prefix(x, l) != 0
      {
        if l > 0 {
          PrefixFromTop(x, l);
        }
      }
    }
  }

  /** The level count is the least `l` with `x < 128^l`. */
  lemma {:induction false} LevelsLeast(x: nat)
    ensures x < Pow128(LevelsFor(x))
    ensures forall l: nat :: x < Pow128(l) ==> LevelsFor(x) <= l
  {
    if x != 0 {
      LevelsLeast(x / 128);
      forall l: nat | x < Pow128(l)
        ensures LevelsFor(x) <= l
      {
        if l > 0 {
          assert x / 128 < Pow128(l - 1);
        }
      }
    }
  }

  lemma {:induction false} LevelsMonotone(x: nat, y: nat)
    requires x <= y
    ensures LevelsFor(x) <= LevelsFor(y)
  {
    if x != 0 {
      LevelsMonotone(x / 128, y / 128);
    }
  }

  /** A 32-bit offset never needs more than five levels. */
  lemma {:induction false} LevelsAtMostFive(x: Word)
    ensures LevelsFor(x) <= 5
  {
    LevelsDropAll(x);
    FiveDigits(x);
  }

  /** Growing a tree puts the old root at slot 0, which is where every offset of
      the old file looks: all its higher digits are 0. */
  lemma {:induction false} HigherDigitsZero(off: nat, nblocks: nat, level: nat)
    requires off < nblocks && Height(nblocks) <= level
    ensures Prefix(off, level) == 0
  {
    LevelsMonotone(off, nblocks - 1);
    LevelsDropAll(off);
    PrefixZeroUp(off, LevelsFor(off), level);
  }
}
