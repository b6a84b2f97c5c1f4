/** The base64 encoder of the update client and the Basic credentials built with it
    (section 4 of RFC 4648, section 2 of RFC 7617). */
module Base64 {
  import opened Bytes
  import opened Text

  const PAD: byte := 61
  const COLON: byte := 58

  function Upper(): (a: seq<byte>)
    ensures |a| == 26 && forall i :: 0 <= i < 26 ==> a[i] == 65 + i
  {
    Ascii("ABCDEFGHIJKLMNOPQRSTUVWXYZ")
  }

  function Lowercase(): (a: seq<byte>)
    ensures |a| == 26 && forall i :: 0 <= i < 26 ==> a[i] == 97 + i
  {
    Ascii("abcdefghijklmnopqrstuvwxyz")
  }

  function Figures(): (a: seq<byte>)
    ensures |a| == 10 && forall i :: 0 <= i < 10 ==> a[i] == 48 + i
  {
    Ascii("0123456789")
  }

  /** The 64 symbols, in the order of their values. */
  function Alphabet(): (a: seq<byte>)
    ensures |a| == 64
  {
    Upper() + Lowercase() + Figures() + Ascii("+/")
  }

  /** The value of a symbol, by character class; the encoder's table is not consulted. */
  function Digit(b: byte): (d: Option<nat>)
    ensures d.Some? ==> d.value < 64
  {
    if 65 <= b <= 90 then Some(b - 65)
    else if 97 <= b <= 122 then Some(b - 71)
    else if 48 <= b <= 57 then Some(b + 4)
    else if b == 43 then Some(62)
    else if b == 47 then Some(63)
    else None
  }

  lemma DigitOfSymbol(d: nat)
    requires d < 64
    ensures Digit(Alphabet()[d]) == Some(d)
  {
  }

  lemma SymbolOfDigit(b: byte)
    requires Digit(b).Some?
    ensures Alphabet()[Digit(b).value] == b
  {
    DigitOfSymbol(Digit(b).value);
  }

  // ----- the encoding, group by group, and a strict decoder -----

  /** The symbols of one full group of three bytes: 24 bits as four six-bit digits. */
  function Group(a: byte, b: byte, c: byte): (g: seq<byte>)
    ensures |g| == 4
  {
    [Alphabet()[a / 4],
     Alphabet()[a % 4 * 16 + b / 16],
     Alphabet()[b % 16 * 4 + c / 64],
     Alphabet()[c % 64]]
  }

  /** The encoding of a byte string. A short last group is padded with zero bits,
      and `=` stands for each byte it lacks. */
  function Encode(s: seq<byte>): (t: seq<byte>) {
    if |s| == 0 then []
    else if |s| == 1 then Group(s[0], 0, 0)[..2] + [PAD, PAD]
    else if |s| == 2 then Group(s[0], s[1], 0)[..3] + [PAD]
    else Group(s[0], s[1], s[2]) + Encode(s[3..])
  }

  /** The three bytes spelled by four symbols. */
  function Ungroup(g: seq<byte>): (s: Option<seq<byte>>)
    requires |g| == 4
    ensures s.Some? ==> |s.value| == 3
  {
    var w, x, y, z := Digit(g[0]), Digit(g[1]), Digit(g[2]), Digit(g[3]);
    if w.Some? && x.Some? && y.Some? && z.Some? then
      Some([w.value * 4 + x.value / 16, x.value % 16 * 16 + y.value / 4, y.value % 4 * 64 + z.value])
    else None
  }

  /** The last group: padding stands for missing bytes, whose bits must be zero. */
  function UngroupLast(g: seq<byte>): Option<seq<byte>>
    requires |g| == 4
  {
    if g[2] == PAD && g[3] == PAD then
      var u := Ungroup(g[..2] + [65, 65]);
      if u.Some? && u.value[1] == 0 && u.value[2] == 0 then Some(u.value[..1]) else None
    else if g[3] == PAD then
      var u := Ungroup(g[..3] + [65]);
      if u.Some? && u.value[2] == 0 then Some(u.value[..2]) else None
    else Ungroup(g)
  }

  /** The strict decoder: whole groups only, padding only at the end, no stray bits. */
  function Decode(t: seq<byte>): Option<seq<byte>> {
    if |t| == 0 then Some([])
    else if |t| < 4 then None
    else if |t| == 4 then UngroupLast(t)
    else
      var (first, rest) := (Ungroup(t[..4]), Decode(t[4..]));
      if first.Some? && rest.Some? then Some(first.value + rest.value) else None
  }

  /** The six-bit digits of three bytes, put back together. */
  lemma DigitsOfBytes(a: byte, b: byte, c: byte)
    ensures a / 4 * 4 + (a % 4 * 16 + b / 16) / 16 == a
    ensures (a % 4 * 16 + b / 16) % 16 * 16 + (b % 16 * 4 + c / 64) / 4 == b
    ensures (b % 16 * 4 + c / 64) % 4 * 64 + c % 64 == c
  {}

  lemma PadIsNoDigit()
    ensures Digit(PAD).None?
  {}

  lemma UngroupGroup(a: byte, b: byte, c: byte)
    ensures Ungroup(Group(a, b, c)) == Some([a, b, c])
    ensures Group(a, b, c)[2] != PAD && Group(a, b, c)[3] != PAD
  {
    hide Alphabet, Digit;
    DigitOfSymbol(a / 4);
    DigitOfSymbol(a % 4 * 16 + b / 16);
    DigitOfSymbol(b % 16 * 4 + c / 64);
    DigitOfSymbol(c % 64);
    DigitsOfBytes(a, b, c);
    PadIsNoDigit();
  }

  lemma {:induction false} EncodeLength(s: seq<byte>)
    ensures |Encode(s)| == (|s| + 2) / 3 * 4
  {
    hide Alphabet, Group;
    if |s| <= 2 {
    } else {
      EncodeLength(s[3..]);
    }
  }

  /** The padded groups are the full group with its last symbols replaced. */
  lemma PaddedGroup(a: byte, b: byte)
    ensures Group(a, 0, 0)[..2] + [65, 65] == Group(a, 0, 0)
    ensures Group(a, b, 0)[..3] + [65] == Group(a, b, 0)
  {}

  lemma {:induction false} DecodeEncode(s: seq<byte>)
    ensures Decode(Encode(s)) == Some(s)
  {
    hide Ungroup, Group;
    if |s| == 0 {
    } else if |s| == 1 {
      UngroupGroup(s[0], 0, 0);
      PaddedGroup(s[0], 0);
      var g := Group(s[0], 0, 0)[..2] + [PAD, PAD];
      assert g[..2] == Group(s[0], 0, 0)[..2];
      assert [s[0], 0, 0][..1] == s;
    } else if |s| == 2 {
      UngroupGroup(s[0], s[1], 0);
      PaddedGroup(s[0], s[1]);
      var g := Group(s[0], s[1], 0)[..3] + [PAD];
      assert g[..3] == Group(s[0], s[1], 0)[..3] && g[2] == Group(s[0], s[1], 0)[2];
      assert [s[0], s[1], 0][..2] == s;
    } else {
      UngroupGroup(s[0], s[1], s[2]);
      DecodeEncode(s[3..]);
      EncodeLength(s[3..]);
      var g := Group(s[0], s[1], s[2]);
      assert (g + Encode(s[3..]))[..4] == g && (g + Encode(s[3..]))[4..] == Encode(s[3..]);
      assert [s[0], s[1], s[2]] + s[3..] == s;
      if |s| == 3 {
        assert g + Encode(s[3..]) == g && [s[0], s[1], s[2]] == s;
      }
    }
  }

  lemma GroupUngroup(g: seq<byte>)
    requires |g| == 4 && Ungroup(g).Some?
    ensures var u := Ungroup(g).value; Group(u[0], u[1], u[2]) == g
  {
    hide Alphabet, Digit;
    SymbolOfDigit(g[0]);
    SymbolOfDigit(g[1]);
    SymbolOfDigit(g[2]);
    SymbolOfDigit(g[3]);
    var (w: int, x: int) := (Digit(g[0]).value, Digit(g[1]).value);
    var (y: int, z: int) := (Digit(g[2]).value, Digit(g[3]).value);
    var a, b, c := w * 4 + x / 16, x % 16 * 16 + y / 4, y % 4 * 64 + z;
    assert a / 4 == w && a % 4 * 16 + b / 16 == x && b % 16 * 4 + c / 64 == y && c % 64 == z;
  }

  /** The decoder accepts canonical text only: what it reads is encoded back to the same text. */
  lemma {:induction false} EncodeDecode(t: seq<byte>)
    requires Decode(t).Some?
    ensures Encode(Decode(t).value) == t
  {
    hide Ungroup, Group;
    if |t| == 0 {
    } else if |t| == 4 {
      if t[2] == PAD && t[3] == PAD {
        GroupUngroup(t[..2] + [65, 65]);
        var u := Ungroup(t[..2] + [65, 65]).value;
        assert Group(u[0], 0, 0)[..2] == t[..2];
        assert t == t[..2] + [PAD, PAD];
      } else if t[3] == PAD {
        GroupUngroup(t[..3] + [65]);
        var u := Ungroup(t[..3] + [65]).value;
        assert Group(u[0], u[1], 0)[..3] == t[..3];
        assert t == t[..3] + [PAD];
      } else {
        GroupUngroup(t);
        assert Encode(Ungroup(t).value[3..]) == [];
      }
    } else if |t| > 4 {
      GroupUngroup(t[..4]);
      EncodeDecode(t[4..]);
      var u, rest := Ungroup(t[..4]).value, Decode(t[4..]).value;
      assert (u + rest)[3..] == rest;
      assert t == t[..4] + t[4..];
    }
  }

  /** The symbols by their classes: capitals, small letters, figures, plus and slash. */
  lemma SymbolsInOrder(d: nat)
    requires d < 64
    ensures Alphabet()[d] == if d < 26 then 65 + d else if d < 52 then 97 + (d - 26)
                             else if d < 62 then 48 + (d - 52) else if d == 62 then 43 else 47
  {}

  /** The first symbol holds the six high bits of the first byte, and so on to the low bits of the last. */
  lemma GroupDigits(a: byte, b: byte, c: byte)
    ensures var g := Group(a, b, c); var n := a as int * 65536 + b as int * 256 + c;
            exists w, x, y, z :: 0 <= w < 64 && 0 <= x < 64 && 0 <= y < 64 && 0 <= z < 64
              && g == [Alphabet()[w], Alphabet()[x], Alphabet()[y], Alphabet()[z]]
              && n == w * 262144 + x * 4096 + y * 64 + z
  {
    hide Alphabet;
    var (w, x, y, z) := (a / 4, a % 4 * 16 + b / 16, b % 16 * 4 + c / 64, c % 64);
    assert a as int * 65536 + b as int * 256 + c == w * 262144 + x * 4096 + y * 64 + z;
    assert Group(a, b, c) == [Alphabet()[w], Alphabet()[x], Alphabet()[y], Alphabet()[z]];
  }

  // ----- the encoder over a caller's buffer -----

  function Overwritten(before: seq<byte>, start: nat, written: seq<byte>): (after: seq<byte>)
    requires start + |written| <= |before|
    ensures |after| == |before|
  {
    before[..start] + written + before[start + |written|..]
  }

  /** A buffer after the groups of `e` that fit whole have been written from `start` on. */
  function Filled(before: seq<byte>, start: nat, e: seq<byte>): (after: seq<byte>)
    requires start <= |before|
    ensures |after| == |before|
    ensures |e| % 4 == 0 && |e| <= |before| - start ==> after == Overwritten(before, start, e)
  {
    var fit := (|before| - start) / 4 * 4;
    Overwritten(before, start, if |e| <= fit then e else e[..fit])
  }

  /** The three bytes that make the next group of `input`, as the word the encoder shifts. */
  lemma GroupOfWord(a: byte, b: byte, c: byte)
    ensures var n := a as int * 65536 + b as int * 256 + c;
            Group(a, b, c) == [Alphabet()[n / 262144 % 64], Alphabet()[n / 4096 % 64],
                               Alphabet()[n / 64 % 64], Alphabet()[n % 64]]
  {
    hide Alphabet;
    WordDigits(a, b, c);
  }

  lemma WordDigits(a: nat, b: nat, c: nat)
    requires a < 256 && b < 256 && c < 256
    ensures var n := a * 65536 + b * 256 + c;
            && n / 262144 % 64 == a / 4 && n / 4096 % 64 == a % 4 * 16 + b / 16
            && n / 64 % 64 == b % 16 * 4 + c / 64 && n % 64 == c % 64
  {
    var (a1, a0, b1, b0, c1, c0) := (a / 4, a % 4, b / 16, b % 16, c / 64, c % 64);
    FourDigits(a1, a0 * 16 + b1, b0 * 4 + c1, c0);
    assert a * 65536 + b * 256 + c == a1 * 262144 + (a0 * 16 + b1) * 4096 + (b0 * 4 + c1) * 64 + c0;
  }

  lemma FourDigits(w: nat, x: nat, y: nat, z: nat)
    requires w < 64 && x < 64 && y < 64 && z < 64
    ensures var n := w * 262144 + x * 4096 + y * 64 + z;
            n / 262144 % 64 == w && n / 4096 % 64 == x && n / 64 % 64 == y && n % 64 == z
  {
    var n := w * 262144 + x * 4096 + y * 64 + z;
    assert n / 64 == w * 4096 + x * 64 + y;
    assert n / 4096 == w * 64 + x;
    assert n / 262144 == w;
  }

  /** The first four symbols of an encoding, a last partial group included. */
  function FirstGroup(s: seq<byte>): (g: seq<byte>)
    requires s != []
    ensures |g| == 4
  {
    var full := Group(s[0], if |s| > 1 then s[1] else 0, if |s| > 2 then s[2] else 0);
    [full[0], full[1], if |s| > 1 then full[2] else PAD, if |s| > 2 then full[3] else PAD]
  }

  lemma EncodeStep(s: seq<byte>)
    requires s != []
    ensures Encode(s) == FirstGroup(s) + Encode(if |s| < 3 then [] else s[3..])
  {
    hide Group, Alphabet;
    if |s| == 1 {
      assert FirstGroup(s) == Group(s[0], 0, 0)[..2] + [PAD, PAD];
      assert FirstGroup(s) + [] == FirstGroup(s);
    } else if |s| == 2 {
      assert FirstGroup(s) == Group(s[0], s[1], 0)[..3] + [PAD];
      assert FirstGroup(s) + [] == FirstGroup(s);
    } else {
      assert FirstGroup(s) == Group(s[0], s[1], s[2]);
    }
  }

  /** `done` symbols are written, and those of `left` are still to come. */
  predicate Progress(before: seq<byte>, start: nat, e: seq<byte>, done: seq<byte>, left: seq<byte>, cells: seq<byte>) {
    && start + |done| <= |before| && |done| % 4 == 0
    && e == done + Encode(left)
    && cells == Overwritten(before, start, done)
  }

  lemma ProgressStart(before: seq<byte>, start: nat, input: seq<byte>)
    requires start <= |before|
    ensures Progress(before, start, Encode(input), [], input, before)
  {
    hide Encode;
    assert [] + Encode(input) == Encode(input);
  }

  lemma ProgressNext(before: seq<byte>, start: nat, e: seq<byte>, done: seq<byte>, left: seq<byte>, cells: seq<byte>)
    requires Progress(before, start, e, done, left, cells) && left != [] && start + |done| + 4 <= |before|
    ensures Progress(before, start, e, done + FirstGroup(left), if |left| < 3 then [] else left[3..],
                     Overwritten(cells, start + |done|, FirstGroup(left)))
  {
    hide Encode, FirstGroup, Overwritten;
    EncodeStep(left);
    FilledStep(before, start, done, FirstGroup(left));
    var rest := Encode(if |left| < 3 then [] else left[3..]);
    assert done + (FirstGroup(left) + rest) == (done + FirstGroup(left)) + rest;
  }

  /** The loop may stop here: the text is finished, or the next group does not fit. */
  lemma ProgressEnd(before: seq<byte>, start: nat, e: seq<byte>, done: seq<byte>, left: seq<byte>, cells: seq<byte>)
    requires Progress(before, start, e, done, left, cells)
    requires left == [] || |before| < start + |done| + 4
    ensures cells == Filled(before, start, e)
    ensures (|e| <= |before| - start <==> left == []) && (left == [] ==> |e| == |done|)
  {
    hide Encode, Overwritten;
    EncodeLength(left);
    var fit := (|before| - start) / 4 * 4;
    if left == [] {
      assert e == done && |done| <= fit;
    } else {
      assert fit == |done| && e[..fit] == done;
    }
  }

  lemma FilledStep(before: seq<byte>, start: nat, done: seq<byte>, g: seq<byte>)
    requires start + |done| + |g| <= |before|
    ensures Overwritten(Overwritten(before, start, done), start + |done|, g) == Overwritten(before, start, done + g)
  {}

  /** One group of the loop: `b1` and `b2` are missing at the end of the input. */
  method WriteGroup(b0: byte, b1: Option<byte>, b2: Option<byte>, out: array<byte>, at: nat, ghost s: seq<byte>)
    requires at + 4 <= out.Length
    requires s != [] && b0 == s[0]
    requires b1 == if |s| > 1 then Some(s[1]) else None
    requires b2 == if |s| > 2 then Some(s[2]) else None
    modifies out
    ensures out[..] == Overwritten(old(out[..]), at, FirstGroup(s))
  {
    hide Group, Alphabet;
    var x1: byte, x2: byte := if b1.Some? then b1.value else 0, if b2.Some? then b2.value else 0;
    var word: nat := b0 as int * 65536 + x1 as int * 256 + x2;
    GroupOfWord(b0, x1, x2);
    out[at] := Alphabet()[word / 262144 % 64];
    out[at + 1] := Alphabet()[word / 4096 % 64];
    out[at + 2] := if b1.Some? then Alphabet()[word / 64 % 64] else PAD;
    out[at + 3] := if b2.Some? then Alphabet()[word % 64] else PAD;
  }

  method Base64Fill(input: seq<byte>, out: array<byte>, start: nat) returns (n: Option<nat>)
    requires start <= out.Length
    modifies out
    ensures out[..] == Filled(old(out[..]), start, Encode(input))
    ensures n == if |Encode(input)| <= out.Length - start then Some(|Encode(input)|) else None
  {
    hide Encode, FirstGroup, Filled, Overwritten, Progress;
    ghost var e, before := Encode(input), out[..];
    ghost var done: seq<byte>, left := [], input;
    var i, o := 0, 0;
    ProgressStart(before, start, input);
    while true
      invariant 0 <= i <= |input| && left == input[i..] && |done| == o && start + o <= out.Length
      invariant Progress(before, start, e, done, left, out[..])
      decreases |input| - i
    {
      if i == |input| {
        ProgressEnd(before, start, e, done, left, out[..]);
        return Some(o);
      }
      var b0 := input[i];
      var b1 := if i + 1 < |input| then Some(input[i + 1]) else None;
      var b2 := if i + 2 < |input| then Some(input[i + 2]) else None;
      if out.Length - start < o + 4 {
        ProgressEnd(before, start, e, done, left, out[..]);
        return None;
      }
      ProgressNext(before, start, e, done, left, out[..]);
      WriteGroup(b0, b1, b2, out, start + o, left);
      done := done + FirstGroup(left);
      left := if |left| < 3 then [] else left[3..];
      o := o + 4;
      if b2.None? {
        ProgressEnd(before, start, e, done, left, out[..]);
        return Some(o);
      }
      i := i + 3;
    }
  }

  lemma FilledFits(before: seq<byte>, start: nat, e: seq<byte>)
    requires start + |e| <= |before| && |e| % 4 == 0
    ensures var after := Filled(before, start, e);
            after[..start] == before[..start] && after[start..start + |e|] == e
            && after[start + |e|..] == before[start + |e|..]
  {
    hide Filled;
  }

  /** Writes the encoding at the front of `out`, or reports that it does not fit. */
  method EncodeInto(input: seq<byte>, out: array<byte>) returns (n: Option<nat>)
    modifies out
    ensures n.Some? <==> (|input| + 2) / 3 * 4 <= out.Length
    ensures n.Some? ==> n.value <= out.Length && Decode(out[..n.value]) == Some(input)
    ensures n.Some? ==> out[n.value..] == old(out[n.value..])
  {
    hide Encode, Decode, Filled;
    EncodeLength(input);
    DecodeEncode(input);
    n := Base64Fill(input, out, 0);
    if n.Some? {
      FilledFits(old(out[..]), 0, Encode(input));
      Slices(out, 0, n.value);
      assert old(out[..])[n.value..] == old(out[n.value..]);
    }
  }

  lemma Slices(a: array<byte>, i: nat, j: nat)
    requires i <= j <= a.Length
    ensures a[..][..i] == a[..i] && a[..][i..j] == a[i..j] && a[..][j..] == a[j..]
  {}

  // ----- Basic credentials -----

  function Prefix(): (p: seq<byte>)
    ensures |p| == 6
  {
    Ascii("Basic ")
  }

  /** `user:pass`. */
  function Credentials(user: seq<byte>, pass: seq<byte>): seq<byte> {
    user + [COLON] + pass
  }

  /** How a server reads the pair back: the user ends at the first colon. */
  function SplitCredentials(s: seq<byte>): Option<(seq<byte>, seq<byte>)> {
    if s == [] then None
    else if s[0] == COLON then Some(([], s[1..]))
    else
      var rest := SplitCredentials(s[1..]);
      if rest.Some? then Some(([s[0]] + rest.value.0, rest.value.1)) else None
  }

  lemma {:induction false} SplitAtColon(user: seq<byte>, pass: seq<byte>)
    requires COLON !in user
    ensures SplitCredentials(Credentials(user, pass)) == Some((user, pass))
  {
    var s := Credentials(user, pass);
    if user == [] {
      assert s == [COLON] + pass;
    } else {
      SplitAtColon(user[1..], pass);
      assert s[1..] == Credentials(user[1..], pass);
      assert [user[0]] + user[1..] == user && COLON !in user[1..];
    }
  }

  lemma {:induction false} SplitUserHasNoColon(s: seq<byte>)
    ensures SplitCredentials(s).Some? ==> COLON !in SplitCredentials(s).value.0
  {
    if s == [] || s[0] == COLON {
    } else {
      SplitUserHasNoColon(s[1..]);
    }
  }

  /** The pair survives the trip exactly when the user holds no colon. */
  lemma CredentialsRecovered(user: seq<byte>, pass: seq<byte>)
    ensures SplitCredentials(Credentials(user, pass)) == Some((user, pass)) <==> COLON !in user
  {
    if COLON !in user {
      SplitAtColon(user, pass);
    }
    SplitUserHasNoColon(Credentials(user, pass));
  }

  method BasicAuthorization(user: seq<byte>, pass: seq<byte>, out: array<byte>) returns (n: Option<nat>)
    modifies out
    ensures n.None? <==> (user == [] && pass == []) || out.Length < 6 + (|user| + |pass| + 3) / 3 * 4
    ensures n.Some? ==> n.value == 6 + (|user| + |pass| + 3) / 3 * 4
    ensures n.Some? ==> out[..6] == Prefix() && Decode(out[6..n.value]) == Some(Credentials(user, pass))
    ensures n.Some? ==> out[n.value..] == old(out[n.value..])
    ensures (user == [] && pass == []) || out.Length < 6 ==> out[..] == old(out[..])
  {
    hide Encode, Decode, Prefix, Filled;
    if user == [] && pass == [] {
      return None;
    }
    if out.Length < |Prefix()| {
      return None;
    }
    ghost var before := out[..];
    forall i | 0 <= i < |Prefix()| {
      out[i] := Prefix()[i];
    }
    var bytes := Credentials(user, pass);
    EncodeLength(bytes);
    DecodeEncode(bytes);
    ghost var started := out[..];
    assert started[..6] == Prefix() && started[6..] == before[6..];
    var m := Base64Fill(bytes, out, 6);
    if m.None? {
      return None;
    }
    n := Some(6 + m.value);
    FilledFits(started, 6, Encode(bytes));
    Slices(out, 6, n.value);
    assert started[..6] == Prefix() && started[n.value..] == before[n.value..];
  }

  /** The texts "f", "fo" and "foo" of section 10 of RFC 4648, and one that uses the last two symbols. */
  lemma KnownTexts()
    ensures Encode([0x66]) == [0x5A, 0x67, 0x3D, 0x3D]
    ensures Encode([0x66, 0x6F]) == [0x5A, 0x6D, 0x38, 0x3D]
    ensures Encode([0x66, 0x6F, 0x6F]) == [0x5A, 0x6D, 0x39, 0x76]
    ensures Encode([0xFB, 0xFF]) == [0x2B, 0x2F, 0x38, 0x3D]
  {
    hide Alphabet;
    SymbolsInOrder(25);
    SymbolsInOrder(32);
    SymbolsInOrder(38);
    SymbolsInOrder(60);
    SymbolsInOrder(61);
    SymbolsInOrder(47);
    SymbolsInOrder(62);
    SymbolsInOrder(63);
    var three: seq<byte> := [0x66, 0x6F, 0x6F];
    assert Encode(three[3..]) == [];
  }

  lemma KnownCredentials()
    ensures Credentials(Ascii("user"), Ascii("pass")) == Ascii("user:pass") && Prefix() == Ascii("Basic ")
  {}
}
