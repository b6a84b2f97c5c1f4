/** The reflected IEEE 802.3 CRC-32: the bit-serial definition, the byte table
    that replaces it, and the algebra that makes it an integrity check.

    A register is its 32 bits, least significant first. The algebra holds for
    any polynomial `p`; the check needs only that its top bit is set. */
module Crc {
  import opened Bytes

  type Reg = r: seq<bool> | |r| == 32 witness seq(32, _ => false)

  function Xor(a: seq<bool>, b: seq<bool>): (x: seq<bool>)
    requires |a| == |b|
    ensures |x| == |a|
  {
    seq(|a|, i requires 0 <= i < |a| => a[i] != b[i])
  }

  function Zeros(n: nat): (z: seq<bool>)
    ensures |z| == n
  {
    seq(n, _ => false)
  }

  function Ones(): Reg {
    seq(32, _ => true)
  }

  /** A short bit string at the low end of a register. */
  function Pad(m: seq<bool>): Reg
    requires |m| <= 32
  {
    m + Zeros(32 - |m|)
  }

  function ShiftRight(c: Reg, n: nat): Reg
    requires n <= 32
  {
    c[n..] + Zeros(n)
  }

  /** One shift of the register: the bit shifted out adds the polynomial back in. */
  function BitStep(p: Reg, c: Reg): Reg {
    if c[0] then Xor(ShiftRight(c, 1), p) else ShiftRight(c, 1)
  }

  function Steps(p: Reg, c: Reg, n: nat): Reg
    decreases n, c
  {
    if n == 0 then c else Steps(p, BitStep(p, c), n - 1)
  }

  // ----- the definition over message bits -----

  function MessageBits(data: seq<byte>): (m: seq<bool>)
    ensures |m| == 8 * |data|
  {
    if data == [] then [] else Bits(data[0], 8) + MessageBits(data[1..])
  }

  /** One message bit: the feedback is the register's low bit plus the message bit. */
  function FeedBit(p: Reg, c: Reg, bit: bool): Reg {
    if c[0] != bit then Xor(ShiftRight(c, 1), p) else ShiftRight(c, 1)
  }

  function FeedBits(p: Reg, c: Reg, m: seq<bool>): Reg
    decreases |m|
  {
    if m == [] then c else FeedBits(p, FeedBit(p, c, m[0]), m[1..])
  }

  /** The reflected polynomial 0xEDB88320. */
  function Poly(): Reg {
    seq(32, i requires 0 <= i => 0xEDB8_8320 / Pow2(i) % 2 == 1)
  }

  function Word(c: Reg): u32 {
    Pow2Word();
    Val(c)
  }

  /** CRC-32 of a message, bit by bit. */
  function Crc32(data: seq<byte>): u32 {
    Word(Xor(FeedBits(Poly(), Ones(), MessageBits(data)), Ones()))
  }

  /** Check word of an `otadata` sequence number: seed 0, 32 shifts of the whole word, inverted. */
  function SeqCrc(w: u32): u32 {
    Word(Xor(Steps(Poly(), Bits(w, 32), 32), Ones()))
  }

  // ----- each shift is invertible -----

  function BitUnstep(p: Reg, c: Reg): Reg {
    if c[31] then [true] + Xor(c, p)[..31] else [false] + c[..31]
  }

  function Unsteps(p: Reg, c: Reg, n: nat): Reg
    decreases n, c
  {
    if n == 0 then c else BitUnstep(p, Unsteps(p, c, n - 1))
  }

  /** The one sequence number that has a given check word. */
  function SeqOfCrc(crc: u32): u32 {
    Word(Unsteps(Poly(), Xor(Bits(crc, 32), Ones()), 32))
  }

  lemma StepInverse(p: Reg, c: Reg)
    requires p[31]
    ensures BitUnstep(p, BitStep(p, c)) == c
  {
    var d := BitStep(p, c);
    assert d[31] == c[0];
    if c[0] {
      assert Xor(d, p) == ShiftRight(c, 1);
    }
    assert c == [c[0]] + ShiftRight(c, 1)[..31];
  }

  lemma UnstepInverse(p: Reg, c: Reg)
    requires p[31]
    ensures BitStep(p, BitUnstep(p, c)) == c
  {
    if c[31] {
      assert Xor(ShiftRight([true] + Xor(c, p)[..31], 1), p) == c;
    } else {
      assert ShiftRight([false] + c[..31], 1) == c;
    }
  }

  lemma {:induction false} StepsInverse(p: Reg, c: Reg, n: nat)
    requires p[31]
    ensures Unsteps(p, Steps(p, c, n), n) == c
    decreases n
  {
    if n == 0 {
    } else {
      StepsInverse(p, BitStep(p, c), n - 1);
      StepInverse(p, c);
    }
  }

  lemma {:induction false} UnstepsInverse(p: Reg, c: Reg, n: nat)
    requires p[31]
    ensures Steps(p, Unsteps(p, c, n), n) == c
    decreases n
  {
    if n == 0 {
    } else {
      UnstepInverse(p, Unsteps(p, c, n - 1));
      UnstepsInverse(p, c, n - 1);
    }
  }

  lemma XorTwice(a: Reg, b: Reg)
    ensures Xor(Xor(a, b), b) == a
  {
  }

  lemma PolyTop()
    ensures Poly()[31]
  {
    Pow2Word();
    assert Pow2(31) == 0x8000_0000;
  }

  lemma WordInverse(c: Reg, w: u32)
    ensures Bits(Word(c), 32) == c
    ensures Word(Bits(w, 32)) == w
  {
    Pow2Word();
    BitsVal(c);
    ValBits(w, 32);
  }

  /** The check word is a bijection on words: distinct sequence numbers never share one. */
  lemma SeqCrcBijective(w: u32, crc: u32)
    ensures SeqOfCrc(SeqCrc(w)) == w
    ensures SeqCrc(SeqOfCrc(crc)) == crc
  {
    PolyTop();
    var s := Steps(Poly(), Bits(w, 32), 32);
    WordInverse(Xor(s, Ones()), w);
    XorTwice(s, Ones());
    StepsInverse(Poly(), Bits(w, 32), 32);

    var x := Xor(Bits(crc, 32), Ones());
    WordInverse(Unsteps(Poly(), x, 32), crc);
    UnstepsInverse(Poly(), x, 32);
    XorTwice(Bits(crc, 32), Ones());
  }

  lemma {:induction false} StepsZeros(p: Reg, n: nat)
    ensures Steps(p, Zeros(32), n) == Zeros(32)
    decreases n
  {
    if n == 0 {
    } else {
      assert BitStep(p, Zeros(32)) == Zeros(32);
      StepsZeros(p, n - 1);
    }
  }

  lemma BitsZero(n: nat)
    ensures Bits(0, n) == Zeros(n)
  {
  }

  /** Only sequence number 0 has the check word 0xFFFFFFFF that erased flash shows. */
  lemma ErasedCrc(w: u32)
    ensures SeqCrc(w) == 0xFFFF_FFFF <==> w == 0
  {
    assert SeqCrc(0) == 0xFFFF_FFFF by {
      BitsZero(32);
      StepsZeros(Poly(), 32);
      assert Xor(Zeros(32), Ones()) == Ones();
      Pow2Word();
      BitsOnes(32);
      WordInverse(Ones(), 0xFFFF_FFFF);
    }
    SeqCrcBijective(w, 0);
    SeqCrcBijective(0, 0);
  }

  // ----- each shift is linear -----

  lemma StepLinear(p: Reg, a: Reg, b: Reg)
    ensures BitStep(p, Xor(a, b)) == Xor(BitStep(p, a), BitStep(p, b))
  {
  }

  lemma {:induction false} StepsLinear(p: Reg, a: Reg, b: Reg, n: nat)
    ensures Steps(p, Xor(a, b), n) == Xor(Steps(p, a, n), Steps(p, b, n))
    decreases n
  {
    if n == 0 {
    } else {
      StepLinear(p, a, b);
      StepsLinear(p, BitStep(p, a), BitStep(p, b), n - 1);
    }
  }

  /** Up to a register's worth of message can be added to the register at once and shifted in. */
  lemma {:induction false} FeedIsSteps(p: Reg, c: Reg, m: seq<bool>)
    requires |m| <= 32
    ensures FeedBits(p, c, m) == Steps(p, Xor(c, Pad(m)), |m|)
    decreases |m|
  {
    if m == [] {
      assert Xor(c, Pad(m)) == c;
    } else {
      var first, later := Xor(c, Pad([m[0]])), [false] + Pad(m[1..])[..31];
      assert Xor(c, Pad(m)) == Xor(first, later);
      StepLinear(p, first, later);
      assert BitStep(p, first) == FeedBit(p, c, m[0]);
      assert BitStep(p, later) == Pad(m[1..]);
      FeedIsSteps(p, FeedBit(p, c, m[0]), m[1..]);
    }
  }

  /** Zeros at the low end fall off without feedback. */
  lemma {:induction false} ShiftHigh(p: Reg, c: Reg, n: nat)
    requires n <= 32 && forall i :: 0 <= i < n ==> !c[i]
    ensures Steps(p, c, n) == ShiftRight(c, n)
    decreases n
  {
    if n == 0 {
    } else {
      ShiftHigh(p, BitStep(p, c), n - 1);
    }
  }

  // ----- a byte at a time through the table -----

  ghost predicate IsTable(p: Reg, table: seq<Reg>) {
    |table| == 256 && forall i :: 0 <= i < 256 ==> table[i] == Steps(p, Bits(i, 32), 8)
  }

  lemma BitsPad(i: nat, m: nat, k: nat)
    requires i < Pow2(m)
    ensures Bits(i, m + k) == Bits(i, m) + Zeros(k)
  {
    BitsConcat(i, 0, m, k);
    BitsZero(k);
  }

  /** One table lookup replaces eight shifts. */
  lemma TableStep(p: Reg, c: Reg, b: byte)
    ensures var low := Xor(c, Bits(b, 32))[..8];
            Xor(ShiftRight(c, 8), Steps(p, Bits(Val(low), 32), 8)) == FeedBits(p, c, Bits(b, 8))
  {
    hide Steps, FeedBits, Bits, Val, BitStep, FeedBit;
    Pow2Word();
    BitsPad(b, 8, 24);
    var x := Xor(c, Bits(b, 32));
    var low, high := x[..8], Zeros(8) + c[8..];
    BitsPad(Val(low), 8, 24);
    BitsVal(low);
    LowAndHigh(x);
    FeedIsSteps(p, c, Bits(b, 8));
    StepsLinear(p, high, Pad(low), 8);
    ShiftHigh(p, high, 8);
    SameHigh(c, Bits(b, 8));
  }

  lemma LowAndHigh(x: Reg)
    ensures x == Xor(Zeros(8) + x[8..], Pad(x[..8]))
  {
  }

  lemma SameHigh(c: Reg, low: seq<bool>)
    requires |low| == 8
    ensures Xor(c, low + Zeros(24))[8..] == c[8..] && ShiftRight(Zeros(8) + c[8..], 8) == ShiftRight(c, 8)
  {
  }

  /** The inner loop of the table construction. */
  method ShiftByte(p: Reg, start: Reg) returns (crc: Reg)
    ensures crc == Steps(p, start, 8)
  {
    crc := start;
    var j := 0;
    while j < 8
      invariant 0 <= j <= 8
      invariant Steps(p, crc, 8 - j) == Steps(p, start, 8)
    {
      if crc[0] {
        crc := Xor(ShiftRight(crc, 1), p);
      } else {
        crc := ShiftRight(crc, 1);
      }
      j := j + 1;
    }
  }

  method MakeTable(p: Reg) returns (table: array<Reg>)
    ensures fresh(table) && IsTable(p, table[..])
  {
    table := new Reg[256](_ => Zeros(32));
    var i := 0;
    while i < 256
      invariant 0 <= i <= 256
      invariant forall k :: 0 <= k < i ==> table[k] == Steps(p, Bits(k, 32), 8)
    {
      var crc := ShiftByte(p, Bits(i, 32));
      table[i] := crc;
      i := i + 1;
    }
  }

  method MakeCrc32Table() returns (table: array<Reg>)
    ensures fresh(table) && IsTable(Poly(), table[..])
  {
    table := MakeTable(Poly());
  }

  method TableCrc(ghost p: Reg, table: array<Reg>, seed: Reg, data: seq<byte>) returns (crc: Reg)
    requires IsTable(p, table[..])
    ensures crc == FeedBits(p, seed, MessageBits(data))
  {
    crc := seed;
    var i := 0;
    while i < |data|
      invariant 0 <= i <= |data|
      invariant FeedBits(p, crc, MessageBits(data[i..])) == FeedBits(p, seed, MessageBits(data))
    {
      var idx := Val(Xor(crc, Bits(data[i], 32))[..8]);
      Pow2Word();
      TableStep(p, crc, data[i]);
      FeedConcat(p, crc, Bits(data[i], 8), MessageBits(data[i + 1..]));
      assert data[i..][1..] == data[i + 1..];
      assert table[..][idx] == table[idx];
      crc := Xor(ShiftRight(crc, 8), table[idx]);
      i := i + 1;
    }
  }

  method Crc32Ieee(table: array<Reg>, data: seq<byte>) returns (crc: u32)
    requires IsTable(Poly(), table[..])
    ensures crc == Crc32(data)
  {
    var c := TableCrc(Poly(), table, Ones(), data);
    crc := Word(Xor(c, Ones()));
  }

  /** `EspOtaSelectEntry::compute_crc`: four table lookups over the sequence bytes. */
  method ComputeCrc(table: array<Reg>, otaSeq: u32) returns (crc: u32)
    requires IsTable(Poly(), table[..])
    ensures crc == SeqCrc(otaSeq)
  {
    var c := TableCrc(Poly(), table, Zeros(32), ToLe(otaSeq));
    LeBytesAsWord(otaSeq);
    crc := Word(Xor(c, Ones()));
  }

  lemma LeBytesAsWord(w: u32)
    ensures FeedBits(Poly(), Zeros(32), MessageBits(ToLe(w))) == Steps(Poly(), Bits(w, 32), 32)
  {
    var b := ToLe(w);
    FromLeToLe(w);
    Pow2Word();
    WordBits(b, 8);
    FourBytes(b);
    FeedIsSteps(Poly(), Zeros(32), Bits(w, 32));
    assert Xor(Zeros(32), Pad(Bits(w, 32))) == Bits(w, 32);
  }

  lemma FourBytes(b: seq<byte>)
    requires |b| == 4
    ensures MessageBits(b) == Bits(b[0], 8) + (Bits(b[1], 8) + (Bits(b[2], 8) + Bits(b[3], 8)))
  {
    assert MessageBits(b[3..]) == Bits(b[3], 8) + MessageBits([]);
    assert MessageBits(b[2..]) == Bits(b[2], 8) + MessageBits(b[3..]) by { assert b[2..][1..] == b[3..]; }
    assert MessageBits(b[1..]) == Bits(b[1], 8) + MessageBits(b[2..]) by { assert b[1..][1..] == b[2..]; }
  }

  // ----- errors inside four consecutive bytes are always detected -----

  lemma {:induction false} FeedConcat(p: Reg, c: Reg, m: seq<bool>, n: seq<bool>)
    ensures FeedBits(p, c, m + n) == FeedBits(p, FeedBits(p, c, m), n)
    decreases |m|
  {
    if m == [] {
      assert m + n == n;
    } else {
      assert (m + n)[1..] == m[1..] + n;
      FeedConcat(p, FeedBit(p, c, m[0]), m[1..], n);
    }
  }

  lemma {:induction false} MessageConcat(d: seq<byte>, e: seq<byte>)
    ensures MessageBits(d + e) == MessageBits(d) + MessageBits(e)
  {
    if d == [] {
      assert d + e == e;
    } else {
      assert (d + e)[1..] == d[1..] + e;
      MessageConcat(d[1..], e);
    }
  }

  lemma {:induction false} MessageInjective(d: seq<byte>, e: seq<byte>)
    requires |d| == |e| && d != e
    ensures MessageBits(d) != MessageBits(e)
  {
    Pow2Word();
    ValBits(d[0], 8);
    ValBits(e[0], 8);
    assert MessageBits(d)[..8] == Bits(d[0], 8) && MessageBits(e)[..8] == Bits(e[0], 8);
    assert MessageBits(d)[8..] == MessageBits(d[1..]) && MessageBits(e)[8..] == MessageBits(e[1..]);
    if d[0] != e[0] {
    } else {
      assert d == [d[0]] + d[1..] && e == [e[0]] + e[1..];
      MessageInjective(d[1..], e[1..]);
    }
  }

  lemma {:induction false} FeedKeepsDifference(p: Reg, c: Reg, d: Reg, m: seq<bool>)
    requires p[31] && c != d
    ensures FeedBits(p, c, m) != FeedBits(p, d, m)
    decreases |m|
  {
    if m == [] {
    } else {
      var bit := Pad([m[0]]);
      assert FeedBit(p, c, m[0]) == BitStep(p, Xor(c, bit)) && FeedBit(p, d, m[0]) == BitStep(p, Xor(d, bit));
      StepInverse(p, Xor(c, bit));
      StepInverse(p, Xor(d, bit));
      XorTwice(c, bit);
      XorTwice(d, bit);
      FeedKeepsDifference(p, FeedBit(p, c, m[0]), FeedBit(p, d, m[0]), m[1..]);
    }
  }

  lemma FeedSeparates(p: Reg, c: Reg, m: seq<bool>, n: seq<bool>)
    requires p[31] && |m| == |n| <= 32 && m != n
    ensures FeedBits(p, c, m) != FeedBits(p, c, n)
  {
    FeedIsSteps(p, c, m);
    FeedIsSteps(p, c, n);
    StepsInverse(p, Xor(c, Pad(m)), |m|);
    StepsInverse(p, Xor(c, Pad(n)), |n|);
    assert Pad(m)[..|m|] == m && Pad(n)[..|n|] == n;
    XorComm(c, Pad(m));
    XorComm(c, Pad(n));
    XorTwice(Pad(m), c);
    XorTwice(Pad(n), c);
  }

  lemma XorComm(a: Reg, b: Reg)
    ensures Xor(a, b) == Xor(b, a)
  {
  }

  /** Two messages whose bit strings differ only inside one burst of at most 32
      bits, wherever it starts, never share a CRC. */
  lemma Crc32Burst(d: seq<byte>, e: seq<byte>, before: seq<bool>, u: seq<bool>, v: seq<bool>, after: seq<bool>)
    requires MessageBits(d) == before + u + after && MessageBits(e) == before + v + after
    requires |u| == |v| <= 32 && u != v
    ensures Crc32(d) != Crc32(e)
  {
    hide FeedBits, MessageBits, Steps, Poly, Xor, Word;
    PolyTop();
    var c := FeedBits(Poly(), Ones(), before);
    var cu, cv := FeedBits(Poly(), c, u), FeedBits(Poly(), c, v);
    FeedSeparates(Poly(), c, u, v);
    FeedKeepsDifference(Poly(), cu, cv, after);
    FeedParts(before, u, after);
    FeedParts(before, v, after);
    var ru, rv := FeedBits(Poly(), cu, after), FeedBits(Poly(), cv, after);
    XorTwice(ru, Ones());
    XorTwice(rv, Ones());
    WordInverse(Xor(ru, Ones()), 0);
    WordInverse(Xor(rv, Ones()), 0);
  }

  lemma FeedParts(before: seq<bool>, u: seq<bool>, after: seq<bool>)
    ensures FeedBits(Poly(), Ones(), before + u + after)
         == FeedBits(Poly(), FeedBits(Poly(), FeedBits(Poly(), Ones(), before), u), after)
  {
    FeedConcat(Poly(), Ones(), before + u, after);
    FeedConcat(Poly(), Ones(), before, u);
  }

  /** In particular no change confined to four consecutive bytes goes unnoticed. */
  lemma Crc32Window(before: seq<byte>, u: seq<byte>, v: seq<byte>, after: seq<byte>)
    requires |u| == |v| <= 4 && u != v
    ensures Crc32(before + u + after) != Crc32(before + v + after)
  {
    hide MessageBits, Crc32;
    MessageInjective(u, v);
    MessageConcat(before + u, after);
    MessageConcat(before, u);
    MessageConcat(before + v, after);
    MessageConcat(before, v);
    Crc32Burst(before + u + after, before + v + after,
               MessageBits(before), MessageBits(u), MessageBits(v), MessageBits(after));
  }
}
