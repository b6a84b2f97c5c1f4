/** Which CRC this is: the generator by its exponents, and the published check values. */
module CrcVectors {
  import opened Bytes
  import opened Crc
  import Text

  /** The exponents of the IEEE 802.3 generator (section 3.2.9 of IEEE 802.3) below its leading 32. */
  function Exponents(): set<nat> {
    {26, 23, 22, 16, 12, 11, 10, 8, 7, 5, 4, 2, 1, 0}
  }

  // ----- registers as machine words -----

  /** The `n` low bits of a machine word. */
  function Low(w: bv32, n: nat): (b: seq<bool>)
    ensures |b| == n
    decreases n
  {
    if n == 0 then [] else [w & 1 == 1] + Low(w >> 1, n - 1)
  }

  lemma LowCons(w: bv32, n: nat)
    ensures Low(w, n) == if n == 0 then [] else [w & 1 == 1] + Low(w >> 1, n - 1)
  {}

  lemma XorCons(x: bool, s: seq<bool>, y: bool, t: seq<bool>)
    requires |s| == |t|
    ensures Xor([x] + s, [y] + t) == [x != y] + Xor(s, t)
  {}

  lemma HalvesXor(a: bv32, b: bv32)
    ensures (a ^ b) >> 1 == (a >> 1) ^ (b >> 1)
    ensures (a ^ b) & 1 == 1 <==> (a & 1 == 1) != (b & 1 == 1)
  {}

  lemma {:induction false} LowXor(a: bv32, b: bv32, n: nat)
    ensures Xor(Low(a, n), Low(b, n)) == Low(a ^ b, n)
    decreases n
  {
    hide Xor, Low;
    LowCons(a, n);
    LowCons(b, n);
    LowCons(a ^ b, n);
    HalvesXor(a, b);
    if n == 0 {
      assert Xor([], []) == [];
    } else {
      LowXor(a >> 1, b >> 1, n - 1);
      XorCons(a & 1 == 1, Low(a >> 1, n - 1), b & 1 == 1, Low(b >> 1, n - 1));
    }
  }

  function Drop(w: bv32, n: nat): bv32
    decreases n
  {
    if n == 0 then w else Drop(w >> 1, n - 1)
  }

  lemma DropFour(w: bv32, n: nat)
    ensures Drop(w, n + 4) == Drop(w >> 4, n)
  {
    assert Drop(w, n + 4) == Drop(w >> 1, n + 3) == Drop(w >> 1 >> 1, n + 2);
    assert Drop(w >> 1 >> 1, n + 2) == Drop(w >> 1 >> 1 >> 1, n + 1) == Drop(w >> 1 >> 1 >> 1 >> 1, n);
    assert w >> 1 >> 1 >> 1 >> 1 == w >> 4;
  }

  lemma DropAll(w: bv32)
    ensures Drop(w, 32) == 0
  {
    DropFour(w, 28);
    DropFour(w >> 4, 24);
    DropFour(w >> 4 >> 4, 20);
    DropFour(w >> 4 >> 4 >> 4, 16);
    DropFour(w >> 4 >> 4 >> 4 >> 4, 12);
    DropFour(w >> 4 >> 4 >> 4 >> 4 >> 4, 8);
    DropFour(w >> 4 >> 4 >> 4 >> 4 >> 4 >> 4, 4);
    DropFour(w >> 4 >> 4 >> 4 >> 4 >> 4 >> 4 >> 4, 0);
  }

  lemma {:induction false} LowTop(w: bv32, n: nat)
    requires Drop(w, n) == 0
    ensures Low(w, n + 1) == Low(w, n) + [false]
    decreases n
  {
    if n == 0 {
      assert Low(w, 1) == [w & 1 == 1] + Low(w >> 1, 0);
    } else {
      LowTop(w >> 1, n - 1);
      assert Low(w, n + 1) == [w & 1 == 1] + Low(w >> 1, n);
    }
  }

  lemma LowShift(w: bv32)
    ensures ShiftRight(Low(w, 32), 1) == Low(w >> 1, 32) && Low(w, 32)[0] == (w & 1 == 1)
  {
    DropAll(w);
    LowTop(w >> 1, 31);
    assert Low(w, 32) == [w & 1 == 1] + Low(w >> 1, 31);
  }

  function Shift(w: bv32): bv32 {
    if w & 1 == 1 then (w >> 1) ^ 0xEDB8_8320 else w >> 1
  }

  lemma ShiftIsStep(w: bv32)
    ensures BitStep(Low(0xEDB8_8320, 32), Low(w, 32)) == Low(Shift(w), 32)
  {
    hide ShiftRight, Xor, Low;
    LowShift(w);
    LowXor(w >> 1, 0xEDB8_8320, 32);
  }

  // ----- the same word as a number -----

  lemma {:induction false} BitAt(w: nat, n: nat, i: nat)
    requires i < n
    ensures Bits(w, n)[i] <==> w / Pow2(i) % 2 == 1
    decreases n
  {
    if i == 0 {
    } else {
      BitAt(w / 2, n - 1, i - 1);
      DivTwice(w, Pow2(i - 1));
    }
  }

  lemma {:induction false} LowJoins(w: bv32, m: nat, n: nat)
    ensures Low(w, m + n) == Low(w, m) + Low(Drop(w, m), n)
    decreases m
  {
    hide Low;
    LowCons(w, m + n);
    LowCons(w, m);
    if m == 0 {
      assert [] + Low(w, n) == Low(w, n);
    } else {
      LowJoins(w >> 1, m - 1, n);
    }
  }

  lemma LowBytes(w: bv32)
    ensures var w1 := Drop(w, 8); var w2 := Drop(w1, 8); var w3 := Drop(w2, 8);
            Low(w, 32) == Low(w, 8) + (Low(w1, 8) + (Low(w2, 8) + Low(w3, 8)))
  {
    hide Low, Drop;
    var w1 := Drop(w, 8);
    LowJoins(w, 8, 24);
    LowJoins(w1, 8, 16);
    LowJoins(Drop(w1, 8), 8, 8);
  }

  lemma DropEight(w: bv32)
    ensures Drop(w, 8) == w >> 8
  {
    hide Drop;
    DropFour(w, 4);
    DropFour(w >> 4, 0);
    DropNone(w >> 4 >> 4);
  }

  lemma DropNone(w: bv32)
    ensures Drop(w, 0) == w
  {}

  predicate SameBits(b: nat, w: bv32, n: nat)
    decreases n
  {
    n == 0 || ((b % 2 == 1 <==> w & 1 == 1) && SameBits(b / 2, w >> 1, n - 1))
  }

  lemma {:induction false} SameLow(b: nat, w: bv32, n: nat)
    requires SameBits(b, w, n)
    ensures Bits(b, n) == Low(w, n)
    decreases n
  {
    if n != 0 {
      SameLow(b / 2, w >> 1, n - 1);
    }
  }

  /** A number and a machine word with the same four bytes are the same register. */
  lemma SameWord(b: seq<byte>, w: bv32, w1: bv32, w2: bv32, w3: bv32)
    requires w1 == Drop(w, 8) && w2 == Drop(w1, 8) && w3 == Drop(w2, 8)
    requires |b| == 4 && SameBits(b[0], w, 8) && SameBits(b[1], w1, 8) && SameBits(b[2], w2, 8) && SameBits(b[3], w3, 8)
    ensures Bits(FromLe(b), 32) == Low(w, 32)
  {
    hide Bits, Low, FromLe, SameBits, Drop, Pow2;
    Pow2Word();
    WordBits(b, 8);
    LowBytes(w);
    SameLow(b[0], w, 8);
    SameLow(b[1], w1, 8);
    SameLow(b[2], w2, 8);
    SameLow(b[3], w3, 8);
  }

  lemma PolyBits()
    ensures Poly() == Bits(0xEDB8_8320, 32)
  {
    hide Bits;
    forall i | 0 <= i < 32
      ensures Poly()[i] == Bits(0xEDB8_8320, 32)[i]
    {
      BitAt(0xEDB8_8320, 32, i);
    }
  }

  lemma PolyWord()
    ensures Poly() == Low(0xEDB8_8320, 32)
  {
    hide Bits, Low, Poly, Drop;
    PolyBits();
    DropEight(0xEDB8_8320);
    DropEight(0xED_B883);
    DropEight(0xEDB8);
    SameWord([0x20, 0x83, 0xB8, 0xED], 0xEDB8_8320, 0xED_B883, 0xEDB8, 0xED);
  }

  lemma Powers(i: nat)
    ensures Pow2(i + 1) == 2 * Pow2(i) && Pow2(i + 2) == 4 * Pow2(i) && Pow2(i + 3) == 8 * Pow2(i)
    ensures Pow2(i + 4) == 16 * Pow2(i)
  {}

  lemma GeneratorLow(i: nat)
    requires i < 16
    ensures Poly()[i] <==> 31 - i in Exponents()
  {
    hide Pow2;
    FirstPowers();
    Powers(4);
    Powers(8);
    Powers(12);
  }

  lemma GeneratorMiddle(i: nat)
    requires 16 <= i < 24 && Pow2(16) == 0x1_0000
    ensures Poly()[i] <==> 31 - i in Exponents()
  {
    hide Pow2;
    Powers(16);
    Powers(20);
  }

  lemma GeneratorHigh(i: nat)
    requires 24 <= i < 32 && Pow2(24) == 0x100_0000
    ensures Poly()[i] <==> 31 - i in Exponents()
  {
    hide Pow2;
    Powers(24);
    Powers(28);
  }

  lemma FirstPowers()
    ensures Pow2(0) == 1 && Pow2(1) == 2 && Pow2(2) == 4 && Pow2(3) == 8 && Pow2(4) == 16
  {}

  /** Bit `i` of the reflected polynomial is the coefficient of x to the power 31 - i. */
  lemma Generator(i: nat)
    requires i < 32
    ensures Poly()[i] <==> 31 - i in Exponents()
  {
    hide Poly, Exponents;
    assert Pow2(8) == 0x100 && Pow2(16) == 0x1_0000 && Pow2(24) == 0x100_0000;
    if i < 16 {
      GeneratorLow(i);
    } else if i < 24 {
      GeneratorMiddle(i);
    } else {
      GeneratorHigh(i);
    }
  }

  // ----- shifts and messages over machine words -----

  function Shift8(w: bv32): bv32 {
    Shift(Shift(Shift(Shift(Shift(Shift(Shift(Shift(w))))))))
  }

  lemma FourShifts(w: bv32, n: nat)
    ensures Steps(Poly(), Low(w, 32), n + 4) == Steps(Poly(), Low(Shift(Shift(Shift(Shift(w)))), 32), n)
  {
    hide Low, Poly, BitStep, Shift;
    PolyWord();
    var w1 := Shift(w);
    var w2 := Shift(w1);
    var w3 := Shift(w2);
    ShiftIsStep(w);
    ShiftIsStep(w1);
    ShiftIsStep(w2);
    ShiftIsStep(w3);
    var p := Poly();
    assert Steps(p, Low(w, 32), n + 4) == Steps(p, Low(w1, 32), n + 3) == Steps(p, Low(w2, 32), n + 2);
    assert Steps(p, Low(w2, 32), n + 2) == Steps(p, Low(w3, 32), n + 1) == Steps(p, Low(Shift(w3), 32), n);
  }

  lemma EightShifts(w: bv32, n: nat)
    ensures Steps(Poly(), Low(w, 32), n + 8) == Steps(Poly(), Low(Shift8(w), 32), n)
  {
    hide Low, Poly, BitStep, Shift, Steps;
    FourShifts(w, n + 4);
    FourShifts(Shift(Shift(Shift(Shift(w)))), n);
  }

  /** One message byte `d`, its bits those of the machine word `x`. */
  lemma FeedByte(w: bv32, d: byte, x: bv32)
    requires SameBits(d, x, 8) && x >> 8 == 0
    ensures FeedBits(Poly(), Low(w, 32), Bits(d, 8)) == Low(Shift8(w ^ x), 32)
  {
    hide Low, Poly, BitStep, Shift, Steps, FeedBits, Bits, Xor, Shift8, Drop, SameBits;
    SameLow(d, x, 8);
    DropEight(x);
    LowJoins(x, 8, 24);
    LowZero(24);
    FeedIsSteps(Poly(), Low(w, 32), Bits(d, 8));
    LowXor(w, x, 32);
    EightShifts(w ^ x, 0);
    NoSteps(Low(Shift8(w ^ x), 32));
  }

  lemma NoSteps(c: Reg)
    ensures Steps(Poly(), c, 0) == c
  {}

  lemma {:induction false} LowZero(n: nat)
    ensures Low(0, n) == Zeros(n)
    decreases n
  {
    if n == 0 {
    } else {
      LowZero(n - 1);
      assert (0 as bv32) >> 1 == 0;
    }
  }

  // ----- the published check values -----

  lemma OnesWord()
    ensures Ones() == Low(0xFFFF_FFFF, 32)
  {
    hide Bits, Low, Drop;
    Pow2Word();
    BitsOnes(32);
    DropEight(0xFFFF_FFFF);
    DropEight(0xFF_FFFF);
    DropEight(0xFFFF);
    SameWord([0xFF, 0xFF, 0xFF, 0xFF], 0xFFFF_FFFF, 0xFF_FFFF, 0xFFFF, 0xFF);
  }

  /** A register read as a number after the final inversion; `w1` to `w3` are the shifted result. */
  lemma Inverted(c: Reg, v: bv32, b: seq<byte>, w: bv32, w1: bv32, w2: bv32, w3: bv32)
    requires c == Low(v, 32) && w == v ^ 0xFFFF_FFFF && w1 == w >> 8 && w2 == w1 >> 8 && w3 == w2 >> 8
    requires |b| == 4 && SameBits(b[0], w, 8) && SameBits(b[1], w1, 8) && SameBits(b[2], w2, 8) && SameBits(b[3], w3, 8)
    ensures Word(Xor(c, Ones())) == FromLe(b)
  {
    hide Bits, Low, Drop, Xor, Word, Ones, SameBits, FromLe;
    OnesWord();
    LowXor(v, 0xFFFF_FFFF, 32);
    DropEight(w);
    DropEight(w1);
    DropEight(w2);
    SameWord(b, w, w1, w2, w3);
    WordInverse(c, FromLe(b));
  }

  /** The register after 32 shifts of a word below 256. */
  lemma WordShifted(q: byte, w: bv32, w1: bv32, w2: bv32, w3: bv32, w4: bv32)
    requires SameBits(q, w, 8) && w >> 8 == 0
    requires w1 == Shift8(w) && w2 == Shift8(w1) && w3 == Shift8(w2) && w4 == Shift8(w3)
    ensures Steps(Poly(), Bits(q, 32), 32) == Low(w4, 32)
  {
    hide Bits, Low, Drop, Poly, Steps, Shift8, SameBits;
    SameLow(q, w, 8);
    DropEight(w);
    LowJoins(w, 8, 24);
    LowZero(24);
    Pow2Word();
    BitsPad(q, 8, 24);
    EightShifts(w, 24);
    EightShifts(w1, 16);
    EightShifts(w2, 8);
    EightShifts(w3, 0);
    NoSteps(Low(w4, 32));
  }

  /** The check word of the factory entry. */
  lemma FactoryCheckWord()
    ensures SeqCrc(1) == 0x4743_989A
  {
    hide Steps, Poly, Low, Bits, Word, Xor, Ones;
    WordShifted(1, 1, 0x7707_3096, 0x191B_3141, 0x01C2_6A37, 0xB8BC_6765);
    Inverted(Steps(Poly(), Bits(1, 32), 32), 0xB8BC_6765,
             [0x9A, 0x98, 0x43, 0x47], 0x4743_989A, 0x47_4398, 0x4743, 0x47);
  }

  /** The check word of the first trial entry. */
  lemma FirstTrialCheckWord()
    ensures SeqCrc(2) == 0x55F6_3774
  {
    hide Steps, Poly, Low, Bits, Word, Xor, Ones;
    WordShifted(2, 2, 0xEE0E_612C, 0x3236_6282, 0x0384_D46E, 0xAA09_C88B);
    Inverted(Steps(Poly(), Bits(2, 32), 32), 0xAA09_C88B,
             [0x74, 0x37, 0xF6, 0x55], 0x55F6_3774, 0x55_F637, 0x55F6, 0x55);
  }

  /** The message byte `d`, as a machine word `x`, takes the register from `w` to `v`. */
  predicate Follows(d: byte, x: bv32, w: bv32, v: bv32) {
    SameBits(d, x, 8) && x >> 8 == 0 && v == Shift8(w ^ x)
  }

  lemma {:induction false} Fed(data: seq<byte>, xs: seq<bv32>, ws: seq<bv32>)
    requires |xs| == |data| && |ws| == |data| + 1
    requires forall i :: 0 <= i < |data| ==> Follows(data[i], xs[i], ws[i], ws[i + 1])
    ensures FeedBits(Poly(), Low(ws[0], 32), MessageBits(data)) == Low(ws[|data|], 32)
    decreases |data|
  {
    hide Low, Poly, Bits, Shift8, SameBits;
    if data == [] {
    } else {
      assert Follows(data[0], xs[0], ws[0], ws[1]);
      FeedByte(ws[0], data[0], xs[0]);
      FeedConcat(Poly(), Low(ws[0], 32), Bits(data[0], 8), MessageBits(data[1..]));
      forall i | 0 <= i < |data| - 1
        ensures Follows(data[1..][i], xs[1..][i], ws[1..][i], ws[1..][i + 1])
      {
        assert Follows(data[i + 1], xs[i + 1], ws[i + 1], ws[i + 2]);
      }
      Fed(data[1..], xs[1..], ws[1..]);
    }
  }

  lemma ThreeFigures()
    ensures Follows(0x31, 0x31, 0xFFFF_FFFF, 0x7C23_1048)
    ensures Follows(0x32, 0x32, 0x7C23_1048, 0xB0AC_BB32)
    ensures Follows(0x33, 0x33, 0xB0AC_BB32, 0x77B7_9C2D)
  {}

  lemma SixFigures()
    ensures Follows(0x34, 0x34, 0x77B7_9C2D, 0x641C_1F5C)
    ensures Follows(0x35, 0x35, 0x641C_1F5C, 0x340A_C5E3)
    ensures Follows(0x36, 0x36, 0x340A_C5E3, 0xF68D_2C9E)
  {}

  lemma NineFigures()
    ensures Follows(0x37, 0x37, 0xF68D_2C9E, 0xAFFC_9660)
    ensures Follows(0x38, 0x38, 0xAFFC_9660, 0x651F_2550)
    ensures Follows(0x39, 0x39, 0x651F_2550, 0x340B_C6D9)
  {}

  /** The check value of CRC-32: seed, bit order, polynomial and inversion all show in it. */
  lemma CheckValue()
    ensures Crc32(Text.Ascii("123456789")) == 0xCBF4_3926
  {
    hide Steps, Poly, Low, Bits, Word, Xor, Ones, FeedBits, MessageBits, Shift8, SameBits, Follows;
    var data: seq<byte> := [0x31, 0x32, 0x33, 0x34, 0x35, 0x36, 0x37, 0x38, 0x39];
    var ws: seq<bv32> := [0xFFFF_FFFF, 0x7C23_1048, 0xB0AC_BB32, 0x77B7_9C2D, 0x641C_1F5C,
                          0x340A_C5E3, 0xF68D_2C9E, 0xAFFC_9660, 0x651F_2550, 0x340B_C6D9];
    assert Text.Ascii("123456789") == data;
    ThreeFigures();
    SixFigures();
    NineFigures();
    Fed(data, [0x31, 0x32, 0x33, 0x34, 0x35, 0x36, 0x37, 0x38, 0x39], ws);
    OnesWord();
    CheckBytes(FeedBits(Poly(), Ones(), MessageBits(data)));
  }

  lemma CheckBytes(c: Reg)
    requires c == Low(0x340B_C6D9, 32)
    ensures Word(Xor(c, Ones())) == 0xCBF4_3926
  {
    hide Low, Word, Xor, Ones;
    Inverted(c, 0x340B_C6D9, [0x26, 0x39, 0xF4, 0xCB], 0xCBF4_3926, 0xCB_F439, 0xCBF4, 0xCB);
  }
}
