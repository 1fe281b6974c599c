/** The hash and the generator behind a host sigil (src/security/HostSigil.cpp).
  *
  * Both are 64-bit machine arithmetic: words are naturals below 2^64, products and sums are taken modulo 2^64, and
  * exclusive-or and right shift are defined bit by bit. Text is its bytes.
  */
module SigilHash {
  import opened Arithmetic
  import opened Bits

  type Text = Bytes

  // ---- products modulo 2^64 -------------------------------------------------------------------------------------

  function MulPrime(x: Word): Word { x * 1099511628211 % WORD }

  function MulGamma(x: Word): Word { x * 0x9E37_79B9_7F4A_7C15 % WORD }

  function Mul1(x: Word): Word { x * 0xBF58_476D_1CE4_E5B9 % WORD }

  function Mul2(x: Word): Word { x * 0x94D0_49BB_1331_11EB % WORD }

  // Each constant is odd, so it has an inverse modulo 2^64.

  function DivPrime(x: Word): Word { x * 0xCE96_5057_AFF6_957B % WORD }

  function DivGamma(x: Word): Word { x * 0xF1DE_83E1_9937_733D % WORD }

  function Div1(x: Word): Word { x * 0x96DE_1B17_3F11_9089 % WORD }

  function Div2(x: Word): Word { x * 0x3196_42B2_D24D_8EC3 % WORD }

  /** Multiplying by c and then by its inverse gives the word back. */
  lemma Undone(x: Word, c: nat, inverse: nat, k: nat)
    requires c * inverse == 1 + k * WORD
    ensures x * c % WORD * inverse % WORD == x
  {
    var q, r := x * c / WORD, x * c % WORD;
    assert r == x * c - q * WORD;
    Distribute(x * c, q * WORD, inverse);
    TimesInverse(x, c, inverse, k);
    Regroup(q, WORD, inverse);
    Distribute(x * k, q * inverse, WORD);
    QuotientIs(r * inverse, WORD, x * k - q * inverse, x);
  }

  lemma TimesInverse(x: Word, c: nat, inverse: nat, k: nat)
    requires c * inverse == 1 + k * WORD
    ensures x * c * inverse == x + x * k * WORD
  {
    Regroup(x, c, inverse);
    Distribute(1, k * WORD, x);
    Regroup(k, WORD, x);
  }

  lemma MulPrimeUndone(x: Word)
    ensures DivPrime(MulPrime(x)) == x
  {
    Undone(x, 1099511628211, 0xCE96_5057_AFF6_957B, 0xCE_9650_590F);
  }

  lemma MulGammaUndone(x: Word)
    ensures DivGamma(MulGamma(x)) == x && MulGamma(DivGamma(x)) == x
  {
    Undone(x, 0x9E37_79B9_7F4A_7C15, 0xF1DE_83E1_9937_733D, 0x957B_BF35_006E_D677);
    Undone(x, 0xF1DE_83E1_9937_733D, 0x9E37_79B9_7F4A_7C15, 0x957B_BF35_006E_D677);
  }

  lemma Mul1Undone(x: Word)
    ensures Div1(Mul1(x)) == x && Mul1(Div1(x)) == x
  {
    Undone(x, 0xBF58_476D_1CE4_E5B9, 0x96DE_1B17_3F11_9089, 0x70C3_BCA7_8F27_F46C);
    Undone(x, 0x96DE_1B17_3F11_9089, 0xBF58_476D_1CE4_E5B9, 0x70C3_BCA7_8F27_F46C);
  }

  lemma Mul2Undone(x: Word)
    ensures Div2(Mul2(x)) == x && Mul2(Div2(x)) == x
  {
    Undone(x, 0x94D0_49BB_1331_11EB, 0x3196_42B2_D24D_8EC3, 0x1CD3_36ED_A85F_1453);
    Undone(x, 0x3196_42B2_D24D_8EC3, 0x94D0_49BB_1331_11EB, 0x1CD3_36ED_A85F_1453);
  }

  // ---- FNV-1a ---------------------------------------------------------------------------------------------------

  const FNV_OFFSET: Word := 1469598103934665603

  function FnvStep(h: Word, c: Byte): Word {
    MulPrime(XorWord(h, c))
  }

  function FnvFrom(h: Word, s: Text): Word
    decreases |s|
  {
    if s == [] then h else FnvFrom(FnvStep(h, s[0]), s[1..])
  }

  function Fnv(s: Text): Word {
    FnvFrom(FNV_OFFSET, s)
  }

  method Fnv1a64(s: Text) returns (h: Word)
    ensures h == Fnv(s)
  {
    hide MulPrime, XorWord;
    h := FNV_OFFSET;
    for i := 0 to |s|
      invariant FnvFrom(h, s[i..]) == Fnv(s)
    {
      assert s[i..][0] == s[i] && s[i..][1..] == s[i + 1..];
      h := XorWord(h, s[i]);
      h := MulPrime(h);
    }
    assert s[|s|..] == [];
  }

  /** A step of the hash loses nothing: it separates states and it separates bytes. */
  lemma StepInjective(g: Word, h: Word, c: Byte, d: Byte)
    ensures FnvStep(g, c) == FnvStep(h, c) ==> g == h
    ensures FnvStep(h, c) == FnvStep(h, d) ==> c == d
  {
    hide MulPrime, DivPrime, Xor;
    MulPrimeUndone(XorWord(g, c));
    MulPrimeUndone(XorWord(h, c));
    MulPrimeUndone(XorWord(h, d));
    XorTwice(g, c);
    XorTwice(h, c);
    XorComm(h, c);
    XorComm(h, d);
    XorTwice(c, h);
    XorTwice(d, h);
  }

  /** Two states that differ still differ after the same text. */
  lemma {:induction false} TailKeepsApart(g: Word, h: Word, s: Text)
    ensures FnvFrom(g, s) == FnvFrom(h, s) <==> g == h
    decreases |s|
  {
    hide FnvStep;
    if s != [] {
      TailKeepsApart(FnvStep(g, s[0]), FnvStep(h, s[0]), s[1..]);
      StepInjective(g, h, s[0], s[0]);
    }
  }

  lemma {:induction false} FnvConcat(h: Word, s: Text, t: Text)
    ensures FnvFrom(h, s + t) == FnvFrom(FnvFrom(h, s), t)
    decreases |s|
  {
    hide FnvStep;
    if s == [] {
      assert s + t == t;
    } else {
      assert (s + t)[1..] == s[1..] + t;
      FnvConcat(FnvStep(h, s[0]), s[1..], t);
    }
  }

  lemma FnvAround(before: Text, c: Byte, after: Text)
    ensures Fnv(before + [c] + after) == FnvFrom(FnvStep(Fnv(before), c), after)
  {
    hide FnvStep;
    FnvConcat(FNV_OFFSET, before + [c], after);
    FnvConcat(FNV_OFFSET, before, [c]);
    assert [c][1..] == [];
  }

  /** Fingerprint bodies of one length that differ in exactly one byte have different hashes. */
  lemma OneByteChangesTheHash(before: Text, c: Byte, d: Byte, after: Text)
    requires c != d
    ensures Fnv(before + [c] + after) != Fnv(before + [d] + after)
  {
    hide FnvStep, Fnv, FnvFrom;
    var h := Fnv(before);
    FnvAround(before, c, after);
    FnvAround(before, d, after);
    StepInjective(h, h, c, d);
    TailKeepsApart(FnvStep(h, c), FnvStep(h, d), after);
  }

  // ---- splitmix64 -----------------------------------------------------------------------------------------------

  function Mix(z: Word): Word {
    XorShift(Mul2(XorShift(Mul1(XorShift(z, 30)), 27)), 31)
  }

  function Unmix(x: Word): Word {
    UnXorShift(Div1(UnXorShift(Div2(UnXorShift(x, 31)), 27)), 30)
  }

  /** The output function is a bijection of the 64-bit words. */
  lemma MixIsBijective(z: Word)
    ensures Unmix(Mix(z)) == z && Mix(Unmix(z)) == z
  {
    hide XorShift, UnXorShift, Mul1, Mul2, Div1, Div2;
    var a := XorShift(z, 30);
    var b := XorShift(Mul1(a), 27);
    XorShiftUndone(z, 30);
    Mul1Undone(a);
    XorShiftUndone(Mul1(a), 27);
    Mul2Undone(b);
    XorShiftUndone(Mul2(b), 31);
    var c := UnXorShift(z, 31);
    var d := UnXorShift(Div2(c), 27);
    XorShiftUndone(z, 31);
    Mul2Undone(c);
    XorShiftUndone(Div2(c), 27);
    Mul1Undone(d);
    XorShiftUndone(Div1(d), 30);
  }

  /** The generator's state after `k` draws. */
  function StateAt(seed: Word, k: nat): Word
    decreases k
  {
    if k == 0 then seed else (StateAt(seed, k - 1) + 0x9E37_79B9_7F4A_7C15) % WORD
  }

  /** Draw number `k` of a stream; the first is number 1. */
  function Draw(seed: Word, k: nat): Word {
    Mix(StateAt(seed, k))
  }

  /** Undoing the multiplication turns the state into a counter. */
  lemma {:induction false} StateCounts(seed: Word, k: nat)
    ensures (DivGamma(seed) + k) % WORD == DivGamma(StateAt(seed, k))
    decreases k
  {
    hide DivGamma;
    if k != 0 {
      StateCounts(seed, k - 1);
      CountOne(StateAt(seed, k - 1));
      var d := DivGamma(seed) + k - 1;
      ModPlus(d % WORD + 1, d / WORD);
    }
  }

  lemma CountOne(z: Word)
    ensures DivGamma((z + 0x9E37_79B9_7F4A_7C15) % WORD) == (DivGamma(z) + 1) % WORD
  {
    var n := z + 0x9E37_79B9_7F4A_7C15;
    var m, q := n / WORD, z * 0xF1DE_83E1_9937_733D / WORD;
    assert n % WORD * 0xF1DE_83E1_9937_733D ==
           DivGamma(z) + 1 + (q + 0x957B_BF35_006E_D677 - m * 0xF1DE_83E1_9937_733D) * WORD;
    ModPlus(DivGamma(z) + 1, q + 0x957B_BF35_006E_D677 - m * 0xF1DE_83E1_9937_733D);
  }

  lemma ModPlus(n: int, t: int)
    ensures (n + t * WORD) % WORD == n % WORD
  {
    QuotientIs(n + t * WORD, WORD, t + n / WORD, n % WORD);
  }

  lemma SameOffset(d: Word, j: nat, k: nat)
    ensures (d + j) % WORD == (d + k) % WORD <==> j % WORD == k % WORD
  {
    ModPlus(d + j % WORD, j / WORD);
    ModPlus(d + k % WORD, k / WORD);
  }

  /** Draws of one stream agree exactly when their numbers agree modulo 2^64, so no value comes twice in 2^64 successive
    * draws; and in those every 64-bit word comes. */
  lemma StreamIsFullPeriod(seed: Word, j: nat, k: nat, word: Word)
    ensures Draw(seed, j) == Draw(seed, k) <==> j % WORD == k % WORD
    ensures exists n: nat :: n < WORD && Draw(seed, n) == word
  {
    hide Mix, Unmix, StateAt, DivGamma, MulGamma;
    MixIsBijective(StateAt(seed, j));
    MixIsBijective(StateAt(seed, k));
    MulGammaUndone(StateAt(seed, j));
    MulGammaUndone(StateAt(seed, k));
    StateCounts(seed, j);
    StateCounts(seed, k);
    SameOffset(DivGamma(seed), j, k);
    var n := FindDraw(seed, word);
  }

  lemma FindDraw(seed: Word, word: Word) returns (n: nat)
    ensures n < WORD && Draw(seed, n) == word
  {
    hide Mix, Unmix, StateAt, DivGamma, MulGamma;
    var d, target := DivGamma(seed), DivGamma(Unmix(word));
    n := (target - d) % WORD;
    StateCounts(seed, n);
    ModPlus(target, -((target - d) / WORD));
    MulGammaUndone(StateAt(seed, n));
    MulGammaUndone(Unmix(word));
    MixIsBijective(word);
  }

  class Stream {
    ghost const seed: Word
    ghost var drawn: nat
    var state: Word

    ghost predicate Valid()
      reads this
    {
      state == StateAt(seed, drawn)
    }

    constructor (from: Word)
      ensures Valid() && seed == from && drawn == 0
    {
      seed, drawn, state := from, 0, from;
    }

    method Next() returns (x: Word)
      requires Valid()
      modifies this
      ensures Valid() && drawn == old(drawn) + 1 && x == Draw(seed, drawn)
    {
      hide XorShift, Mul1, Mul2;
      state := (state + 0x9E37_79B9_7F4A_7C15) % WORD;
      drawn := drawn + 1;
      var z := state;
      z := Mul1(XorShift(z, 30));
      z := Mul2(XorShift(z, 27));
      x := XorShift(z, 31);
    }
  }
}
