/** Bytes, and bitwise operations on naturals and on 64-bit words, defined bit by bit. */
module Bits {
  type Byte = b: nat | b < 0x100
  type Bytes = seq<Byte>

  const WORD: nat := 0x1_0000_0000_0000_0000

  type Word = x: nat | x < 0x1_0000_0000_0000_0000

  function Xor(x: nat, y: nat): nat
    decreases x + y
  {
    if x == 0 && y == 0 then 0 else (x + y) % 2 + 2 * Xor(x / 2, y / 2)
  }

  function Shr(x: nat, k: nat): nat
    decreases k
  {
    if k == 0 then x else Shr(x / 2, k - 1)
  }

  function Pow2(k: nat): (p: nat)
    ensures 0 < p
  {
    if k == 0 then 1 else 2 * Pow2(k - 1)
  }

  lemma {:induction false} XorComm(x: nat, y: nat)
    ensures Xor(x, y) == Xor(y, x)
    decreases x + y
  {
    if x != 0 || y != 0 {
      XorComm(x / 2, y / 2);
    }
  }

  lemma XorHalves(x: nat, y: nat)
    ensures Xor(x, y) / 2 == Xor(x / 2, y / 2) && Xor(x, y) % 2 == (x + y) % 2
  {}

  lemma SameParity(a: nat, b: nat, c: nat)
    requires a % 2 == b % 2
    ensures (a + c) % 2 == (b + c) % 2
  {}

  lemma XorAssocBit(x: nat, y: nat, z: nat)
    ensures Xor(Xor(x, y), z) % 2 == Xor(x, Xor(y, z)) % 2
  {
    hide Xor;
    XorThreeBit(x, y, z);
    XorThreeBit(y, z, x);
    XorComm(x, Xor(y, z));
    assert x + y + z == y + z + x;
  }

  lemma XorThreeBit(x: nat, y: nat, z: nat)
    ensures Xor(Xor(x, y), z) % 2 == (x + y + z) % 2
  {
    hide Xor;
    XorHalves(x, y);
    XorHalves(Xor(x, y), z);
    SameParity(Xor(x, y), x + y, z);
  }

  lemma {:induction false} XorAssoc(x: nat, y: nat, z: nat)
    ensures Xor(Xor(x, y), z) == Xor(x, Xor(y, z))
    decreases x + y + z
  {
    if x != 0 || y != 0 || z != 0 {
      hide Xor;
      XorHalves(x, y);
      XorHalves(y, z);
      XorHalves(Xor(x, y), z);
      XorHalves(x, Xor(y, z));
      XorAssocBit(x, y, z);
      XorAssoc(x / 2, y / 2, z / 2);
    }
  }

  lemma {:induction false} XorSelf(x: nat)
    ensures Xor(x, x) == 0 && Xor(x, 0) == x
  {
    if x != 0 {
      XorSelf(x / 2);
    }
  }

  lemma {:induction false} ShrXor(x: nat, y: nat, k: nat)
    ensures Shr(Xor(x, y), k) == Xor(Shr(x, k), Shr(y, k))
    decreases k
  {
    if k != 0 {
      XorHalves(x, y);
      ShrXor(x / 2, y / 2, k - 1);
    }
  }

  lemma {:induction false} ShrShr(x: nat, j: nat, k: nat)
    ensures Shr(Shr(x, j), k) == Shr(x, j + k)
    decreases j
  {
    if j != 0 {
      ShrShr(x / 2, j - 1, k);
    }
  }

  lemma {:induction false} ShrNoLarger(x: nat, k: nat)
    ensures Shr(x, k) <= x && Shr(0, k) == 0
    decreases k
  {
    if k != 0 {
      ShrNoLarger(x / 2, k - 1);
    }
  }

  lemma {:induction false} ShrVanishes(x: nat, k: nat)
    ensures Shr(x, k) == 0 <==> x < Pow2(k)
    decreases k
  {
    if k != 0 {
      ShrVanishes(x / 2, k - 1);
    }
  }

  lemma Pow2Byte(k: nat)
    ensures Pow2(k + 8) == 256 * Pow2(k) && Pow2(0) == 1
  {
    assert Pow2(k + 2) == 4 * Pow2(k);
    assert Pow2(k + 4) == 16 * Pow2(k);
    assert Pow2(k + 6) == 64 * Pow2(k);
  }

  /** A natural is a word exactly when bit 64 and all above are clear. */
  lemma WordHas64Bits(x: nat)
    ensures x < WORD <==> Shr(x, 64) == 0
  {
    hide Pow2, Shr;
    ShrVanishes(x, 64);
    Pow2Byte(0);
    Pow2Byte(8);
    Pow2Byte(16);
    Pow2Byte(24);
    Pow2Byte(32);
    Pow2Byte(40);
    Pow2Byte(48);
    Pow2Byte(56);
  }

  lemma WordXor(x: Word, y: Word)
    ensures Xor(x, y) < WORD
  {
    WordHas64Bits(x);
    WordHas64Bits(y);
    ShrXor(x, y, 64);
    WordHas64Bits(Xor(x, y));
  }

  function XorWord(x: Word, y: Word): Word {
    WordXor(x, y);
    Xor(x, y)
  }

  function ShrWord(x: Word, k: nat): Word {
    ShrNoLarger(x, k);
    Shr(x, k)
  }

  /** x ^ (x >> k) */
  function XorShift(x: Word, k: nat): Word {
    XorWord(x, ShrWord(x, k))
  }

  /** x ^ (x >> k) ^ (x >> 2k) */
  function UnXorShift(x: Word, k: nat): Word {
    XorWord(XorWord(x, ShrWord(x, k)), ShrWord(x, 2 * k))
  }

  lemma XorTwice(x: nat, y: nat)
    ensures Xor(Xor(x, y), y) == x
  {
    XorAssoc(x, y, y);
    XorSelf(y);
    XorSelf(x);
  }

  /** (x ^ a) ^ (a ^ b) ^ b == x */
  lemma Telescope(x: nat, a: nat, b: nat)
    ensures Xor(Xor(Xor(x, a), Xor(a, b)), b) == x
  {
    XorAssoc(Xor(x, a), Xor(a, b), b);
    XorTwice(a, b);
    XorTwice(x, a);
  }

  /** (x ^ a ^ b) ^ (a ^ b) == x */
  lemma Cancel(x: nat, a: nat, b: nat)
    ensures Xor(Xor(Xor(x, a), b), Xor(a, b)) == x
  {
    XorAssoc(x, a, b);
    XorTwice(x, Xor(a, b));
  }

  lemma ShiftedOut(x: Word, k: nat)
    requires 64 <= k
    ensures Shr(x, k) == 0
  {
    WordHas64Bits(x);
    ShrShr(x, 64, k - 64);
    ShrNoLarger(0, k - 64);
  }

  /** A xorshift by more than a third of the word is undone by one more term. */
  lemma XorShiftUndone(x: Word, k: nat)
    requires 64 <= 3 * k
    ensures UnXorShift(XorShift(x, k), k) == x && XorShift(UnXorShift(x, k), k) == x
  {
    hide Xor, Shr;
    var a, b := Shr(x, k), Shr(x, 2 * k);
    ShiftedOut(x, 3 * k);
    ShrShr(x, k, k);
    ShrShr(x, k, 2 * k);
    ShrShr(x, 2 * k, k);
    XorSelf(b);
    ShrXor(x, a, k);
    ShrXor(x, a, 2 * k);
    Telescope(x, a, b);
    XorSelf(Xor(a, b));
    ShrXor(Xor(x, a), b, k);
    Cancel(x, a, b);
  }

  function Or(x: nat, y: nat): nat
    decreases x + y
  {
    if x == 0 && y == 0 then 0 else (if x % 2 == 1 || y % 2 == 1 then 1 else 0) + 2 * Or(x / 2, y / 2)
  }

  lemma {:induction false} OrIsZero(x: nat, y: nat)
    ensures Or(x, y) == 0 <==> x == 0 && y == 0
    decreases x + y
  {
    if x != 0 || y != 0 {
      OrIsZero(x / 2, y / 2);
    }
  }

  lemma {:induction false} XorIsZero(x: nat, y: nat)
    ensures Xor(x, y) == 0 <==> x == y
    decreases x + y
  {
    if x != 0 || y != 0 {
      XorIsZero(x / 2, y / 2);
    }
  }
}
