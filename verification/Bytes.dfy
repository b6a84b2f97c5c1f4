/** Machine integers, bytes, little-endian words and bit strings. */
module Bytes {

  type byte = x: nat | x < 256

  type u32 = x: nat | x < 0x1_0000_0000

  type u64 = x: nat | x < 0x1_0000_0000_0000_0000

  type Digest = seq<byte>

  datatype Option<+T> = None | Some(value: T)

  datatype Result<+T, +E> = Ok(value: T) | Err(error: E)

  /** The four bytes of a word, least significant first (`u32::to_le_bytes`). */
  function ToLe(w: u32): (b: seq<byte>)
    ensures |b| == 4
  {
    [w % 256, w / 256 % 256, w / 65536 % 256, w / 16777216]
  }

  /** The word spelled by four bytes, least significant first (`u32::from_le_bytes`). */
  function FromLe(b: seq<byte>): u32
    requires |b| == 4
  {
    var (b0: int, b1: int, b2: int, b3: int) := (b[0], b[1], b[2], b[3]);
    b0 + 256 * b1 + 65536 * b2 + 16777216 * b3
  }

  lemma FromLeToLe(w: u32)
    ensures FromLe(ToLe(w)) == w
  {
    assert w / 65536 == w / 256 / 256 && w / 16777216 == w / 65536 / 256;
  }

  lemma ToLeFromLe(b: seq<byte>)
    requires |b| == 4
    ensures ToLe(FromLe(b)) == b
  {
    var w, b1, b2, b3: int := FromLe(b), b[1], b[2], b[3];
    assert w / 256 == b1 + 256 * b2 + 65536 * b3;
    assert w / 65536 == b2 + 256 * b3;
  }

  // ----- division -----

  lemma QuotientIs(a: nat, d: nat, q: nat, r: nat)
    requires d > 0 && r < d && a == q * d + r
    ensures a / d == q
  {
    var p, s := a / d, a % d;
    assert a == p * d + s;
    SmallFactor(p - q, d, r - s);
    SmallFactor(q - p, d, s - r);
  }

  lemma SmallFactor(k: int, d: nat, x: int)
    requires k * d == x < d
    ensures k <= 0
  {
  }

  lemma DivTwice(w: nat, p: nat)
    requires p >= 1
    ensures w / 2 / p == w / (2 * p)
  {
    var q, r := w / 2 / p, w / 2 % p;
    assert w == 2 * (q * p + r) + w % 2;
    assert w == q * (2 * p) + (2 * r + w % 2);
    QuotientIs(w, 2 * p, q, 2 * r + w % 2);
  }

  // ----- bit strings, least significant bit first -----

  function Pow2(n: nat): (p: nat)
    ensures p >= 1
  {
    if n == 0 then 1 else 2 * Pow2(n - 1)
  }

  /** The `n` low bits of `w`. */
  function Bits(w: nat, n: nat): (b: seq<bool>)
    ensures |b| == n
    decreases n, w
  {
    if n == 0 then [] else [w % 2 == 1] + Bits(w / 2, n - 1)
  }

  function Val(b: seq<bool>): (w: nat)
    ensures w < Pow2(|b|)
  {
    if b == [] then 0 else (if b[0] then 1 else 0) + 2 * Val(b[1..])
  }

  lemma {:induction false} BitsVal(b: seq<bool>)
    ensures Bits(Val(b), |b|) == b
  {
    if b == [] {
    } else {
      BitsVal(b[1..]);
      assert Val(b) / 2 == Val(b[1..]);
    }
  }

  lemma {:induction false} ValBits(w: nat, n: nat)
    requires w < Pow2(n)
    ensures Val(Bits(w, n)) == w
    decreases n
  {
    if n == 0 {
    } else {
      ValBits(w / 2, n - 1);
      assert Bits(w, n)[1..] == Bits(w / 2, n - 1);
    }
  }

  lemma {:induction false} BitsOnes(n: nat)
    ensures Bits(Pow2(n) - 1, n) == seq(n, _ => true)
    decreases n
  {
    if n == 0 {
    } else {
      BitsOnes(n - 1);
      assert (Pow2(n) - 1) / 2 == Pow2(n - 1) - 1;
    }
  }

  lemma {:induction false} BitsConcat(lo: nat, hi: nat, m: nat, n: nat)
    requires lo < Pow2(m)
    ensures Bits(lo + Pow2(m) * hi, m + n) == Bits(lo, m) + Bits(hi, n)
    decreases m
  {
    if m == 0 {
    } else {
      var p := Pow2(m - 1);
      assert Pow2(m) * hi == 2 * (p * hi);
      assert (lo + 2 * (p * hi)) / 2 == lo / 2 + p * hi;
      BitsConcat(lo / 2, hi, m - 1, n);
    }
  }

  /** The bit string of a word is the concatenation of its bytes'; `m` is 8. */
  lemma WordBits(b: seq<byte>, m: nat)
    requires |b| == 4 && Pow2(m) == 256
    ensures Bits(FromLe(b), m + (m + (m + m))) == Bits(b[0], m) + (Bits(b[1], m) + (Bits(b[2], m) + Bits(b[3], m)))
  {
    var h3: nat := b[3];
    var h2: nat := b[2] as int + 256 * h3;
    var h1: nat := b[1] as int + 256 * h2;
    BitsConcat(b[2], h3, m, m);
    BitsConcat(b[1], h2, m, m + m);
    BitsConcat(b[0], h1, m, m + (m + m));
  }

  lemma Pow2Word()
    ensures Pow2(8) == 256 && Pow2(32) == 0x1_0000_0000
  {
    assert Pow2(8) == 256;
    assert Pow2(16) == 65536;
    assert Pow2(24) == 16777216;
  }
}
