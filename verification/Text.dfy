/** The ASCII text helpers of the update client: trimming, decimal numbers,
    case-insensitive names, and the hex digest. */
module Text {
  import opened Bytes

  /** The bytes of an ASCII literal. */
  function Ascii(s: string): seq<byte>
    requires forall i :: 0 <= i < |s| ==> s[i] < 128 as char
  {
    seq(|s|, i requires 0 <= i < |s| => s[i] as int)
  }

  predicate IsSpace(b: byte) {
    b == 9 || b == 10 || b == 12 || b == 13 || b == 32
  }

  predicate IsDigit(b: byte) {
    48 <= b <= 57
  }

  function Lower(b: byte): byte {
    if 65 <= b <= 90 then b + 32 else b
  }

  predicate EqIgnoreCase(a: seq<byte>, b: seq<byte>) {
    |a| == |b| && forall i :: 0 <= i < |a| ==> Lower(a[i]) == Lower(b[i])
  }

  /** `a` is the lower-case name `b` in some mixture of cases. */
  predicate Recased(a: seq<byte>, b: seq<byte>) {
    |a| == |b| && forall i :: 0 <= i < |a| ==> a[i] == b[i] || (97 <= b[i] <= 122 && a[i] == b[i] - 32)
  }

  /** Against a name without capitals, ignoring case accepts exactly the spellings of
      its letters in either case. */
  lemma FoldsCase(a: seq<byte>, b: seq<byte>)
    requires forall i :: 0 <= i < |b| ==> !(65 <= b[i] <= 90)
    ensures EqIgnoreCase(a, b) <==> Recased(a, b)
  {
    if |a| == |b| {
      forall i | 0 <= i < |a|
        ensures Lower(a[i]) == Lower(b[i]) <==> a[i] == b[i] || (97 <= b[i] <= 122 && a[i] == b[i] - 32)
      {
      }
    }
  }

  // ----- trimming -----

  /** `t` is what remains of `s` when exactly the outer white space is gone. */
  ghost predicate IsTrimmed(s: seq<byte>, t: seq<byte>) {
    && (t != [] ==> !IsSpace(t[0]) && !IsSpace(t[|t| - 1]))
    && (exists left: nat, right: nat {:trigger s[left..right]} ::
          left <= right <= |s| && t == s[left..right]
          && (forall i :: 0 <= i < left ==> IsSpace(s[i]))
          && (forall i :: right <= i < |s| ==> IsSpace(s[i])))
  }

  function TrimStart(s: seq<byte>): seq<byte> {
    if s != [] && IsSpace(s[0]) then TrimStart(s[1..]) else s
  }

  function TrimEnd(s: seq<byte>): seq<byte> {
    if s != [] && IsSpace(s[|s| - 1]) then TrimEnd(s[..|s| - 1]) else s
  }

  function Trim(s: seq<byte>): seq<byte> {
    TrimEnd(TrimStart(s))
  }

  lemma {:induction false} TrimStartAt(s: seq<byte>, n: nat)
    requires n <= |s| && (forall i :: 0 <= i < n ==> IsSpace(s[i])) && (n < |s| ==> !IsSpace(s[n]))
    ensures TrimStart(s) == s[n..]
  {
    if n == 0 {
    } else {
      TrimStartAt(s[1..], n - 1);
      assert s[1..][n - 1..] == s[n..];
    }
  }

  lemma {:induction false} TrimEndAt(s: seq<byte>, n: nat)
    requires n <= |s| && (forall i :: n <= i < |s| ==> IsSpace(s[i])) && (n > 0 ==> !IsSpace(s[n - 1]))
    ensures TrimEnd(s) == s[..n]
    decreases |s|
  {
    if n < |s| {
      TrimEndAt(s[..|s| - 1], n);
      assert s[..|s| - 1][..n] == s[..n];
    } else {
      assert s[..n] == s;
    }
  }

  method TrimAscii(input: seq<byte>) returns (t: seq<byte>)
    ensures t == Trim(input) && IsTrimmed(input, t)
  {
    var start, end := 0, |input|;
    while start < end && IsSpace(input[start])
      invariant 0 <= start <= end == |input|
      invariant forall i :: 0 <= i < start ==> IsSpace(input[i])
    {
      start := start + 1;
    }
    TrimStartAt(input, start);
    while end > start && IsSpace(input[end - 1])
      invariant start <= end <= |input|
      invariant forall i :: end <= i < |input| ==> IsSpace(input[i])
    {
      end := end - 1;
    }
    TrimEndAt(input[start..], end - start);
    t := input[start..end];
    assert t == input[start..][..end - start];
    assert t != [] ==> t[0] == input[start] && t[|t| - 1] == input[end - 1];
  }

  /** ASCII white space: tab, line feed, form feed, carriage return and space. */
  predicate AllSpace(s: seq<byte>) {
    forall i :: 0 <= i < |s| ==> s[i] in {9, 10, 12, 13, 32}
  }

  predicate NoSpace(s: seq<byte>) {
    forall i :: 0 <= i < |s| ==> s[i] !in {9, 10, 12, 13, 32}
  }

  /** White space around a text that neither starts nor ends with any is trimmed, and nothing else. */
  lemma TrimPadded(before: seq<byte>, text: seq<byte>, after: seq<byte>)
    requires AllSpace(before) && AllSpace(after)
    requires text != [] ==> NoSpace([text[0], text[|text| - 1]])
    ensures Trim(before + text + after) == text
  {
    var s := before + text + after;
    if text == [] {
      TrimStartAt(s, |s|);
    } else {
      assert NoSpace([text[0], text[|text| - 1]]);
      assert [text[0], text[|text| - 1]][0] == text[0] && [text[0], text[|text| - 1]][1] == text[|text| - 1];
      TrimStartAt(s, |before|);
      var t := s[|before|..];
      assert t == text + after;
      TrimEndAt(t, |text|);
    }
  }

  lemma {:induction false} TrimStartParts(s: seq<byte>) returns (before: seq<byte>)
    ensures AllSpace(before) && s == before + TrimStart(s)
    ensures TrimStart(s) != [] ==> NoSpace(TrimStart(s)[..1])
    decreases |s|
  {
    if s != [] && IsSpace(s[0]) {
      before := TrimStartParts(s[1..]);
      assert s == [s[0]] + s[1..];
      before := [s[0]] + before;
    } else {
      before := [];
    }
  }

  lemma {:induction false} TrimEndParts(s: seq<byte>) returns (after: seq<byte>)
    ensures AllSpace(after) && s == TrimEnd(s) + after
    ensures TrimEnd(s) != [] ==> NoSpace(TrimEnd(s)[|TrimEnd(s)| - 1..])
    decreases |s|
  {
    if s != [] && IsSpace(s[|s| - 1]) {
      after := TrimEndParts(s[..|s| - 1]);
      assert s == s[..|s| - 1] + [s[|s| - 1]];
      after := after + [s[|s| - 1]];
    } else {
      after := [];
    }
  }

  /** What trimming takes away, and that nothing more could go. */
  lemma TrimParts(s: seq<byte>) returns (before: seq<byte>, after: seq<byte>)
    ensures AllSpace(before) && AllSpace(after) && s == before + Trim(s) + after
    ensures Trim(s) != [] ==> NoSpace([Trim(s)[0], Trim(s)[|Trim(s)| - 1]])
  {
    hide TrimStart, TrimEnd;
    before := TrimStartParts(s);
    var t := TrimStart(s);
    after := TrimEndParts(t);
    var u := TrimEnd(t);
    assert s == before + u + after;
    if u != [] {
      assert t[..1][0] == u[0] && u[|u| - 1..][0] == u[|u| - 1];
    }
  }

  // ----- decimal numbers -----

  predicate IsNumber(s: seq<byte>) {
    s != [] && forall i :: 0 <= i < |s| ==> IsDigit(s[i])
  }

  /** The value of a string of digits, most significant first. */
  function Decimal(s: seq<byte>): nat
    requires forall i :: 0 <= i < |s| ==> IsDigit(s[i])
  {
    if s == [] then 0
    else
      assert IsDigit(s[|s| - 1]);
      10 * Decimal(s[..|s| - 1]) + (s[|s| - 1] as int - 48)
  }

  lemma {:induction false} DecimalPrefix(s: seq<byte>, n: nat)
    requires n <= |s| && forall i :: 0 <= i < |s| ==> IsDigit(s[i])
    ensures Decimal(s[..n]) <= Decimal(s)
    decreases |s| - n
  {
    if n < |s| {
      DecimalPrefix(s, n + 1);
      assert s[..n + 1][..n] == s[..n];
    } else {
      assert s[..n] == s;
    }
  }

  /** The decimal spelling of a number, without leading zeros. */
  function Digits(n: nat): (s: seq<byte>)
    ensures s != []
  {
    if n < 10 then [Ascii("0123456789")[n]] else Digits(n / 10) + [Ascii("0123456789")[n % 10]]
  }

  /** Spelled numbers are read back. */
  lemma {:induction false} DigitsRead(n: nat)
    ensures IsNumber(Digits(n)) && Decimal(Digits(n)) == n
  {
    hide Ascii;
    Figure(n % 10);
    if n < 10 {
      assert Digits(n)[..0] == [];
    } else {
      DigitsRead(n / 10);
      assert Digits(n)[..|Digits(n / 10)|] == Digits(n / 10);
    }
  }

  function LeadingZeros(n: nat): (s: seq<byte>)
    ensures |s| == n && forall i :: 0 <= i < n ==> s[i] == 48
  {
    seq(n, _ => 48)
  }

  /** A text that is read as a number spells it, with any zeros before it. */
  lemma {:induction false} NumberSpells(s: seq<byte>) returns (zeros: nat)
    requires IsNumber(s)
    ensures s == LeadingZeros(zeros) + Digits(Decimal(s))
  {
    hide Ascii;
    var last := |s| - 1;
    var front := s[..last];
    assert IsDigit(s[last]);
    var d: nat := s[last] - 48;
    Figure(d);
    if front == [] {
      zeros := 0;
      assert s == [s[last]] && Decimal(s) == d;
      assert LeadingZeros(0) + Digits(d) == Digits(d);
    } else {
      zeros := NumberSpells(front);
      NextDigit(Decimal(front), d);
      assert s == front + [s[last]];
      if Decimal(front) == 0 {
        assert LeadingZeros(zeros) + [48] + [s[last]] == LeadingZeros(zeros + 1) + [s[last]];
        zeros := zeros + 1;
      } else {
        assert LeadingZeros(zeros) + Digits(Decimal(front)) + [s[last]]
            == LeadingZeros(zeros) + (Digits(Decimal(front)) + [s[last]]);
      }
    }
  }

  lemma Figure(d: nat)
    requires d < 10
    ensures Ascii("0123456789")[d] == 48 + d && Digits(d) == [48 + d]
  {}

  lemma NextDigit(n: nat, d: nat)
    requires d < 10
    ensures Digits(10 * n + d) == if n == 0 then [48 + d] else Digits(n) + [48 + d]
    ensures n == 0 ==> Digits(n) == [48]
  {
    hide Ascii;
    Figure(d);
    Figure(0);
    assert (10 * n + d) / 10 == n && (10 * n + d) % 10 == d;
  }

  /** A text that spells `n`: white space, zeros, its digits, white space. */
  ghost predicate SpellsNumber(s: seq<byte>, n: nat, before: seq<byte>, zeros: nat, after: seq<byte>) {
    AllSpace(before) && AllSpace(after) && s == before + (LeadingZeros(zeros) + Digits(n)) + after
  }

  ghost predicate NumberText(s: seq<byte>, n: nat) {
    exists before, zeros: nat, after :: SpellsNumber(s, n, before, zeros, after)
  }

  lemma ZerosRead(zeros: nat, n: nat)
    ensures var s := LeadingZeros(zeros) + Digits(n); IsNumber(s) && Decimal(s) == n
  {
    hide Digits, Decimal;
    DigitsRead(n);
    ZerosAreZero(zeros);
    DecimalJoins(LeadingZeros(zeros), Digits(n));
  }

  lemma {:induction false} ZerosAreZero(zeros: nat)
    ensures Decimal(LeadingZeros(zeros)) == 0
  {
    if zeros > 0 {
      assert LeadingZeros(zeros)[..zeros - 1] == LeadingZeros(zeros - 1);
      ZerosAreZero(zeros - 1);
    }
  }

  lemma {:induction false} DecimalJoins(s: seq<byte>, t: seq<byte>)
    requires (forall i :: 0 <= i < |s| ==> IsDigit(s[i])) && (forall i :: 0 <= i < |t| ==> IsDigit(t[i]))
    requires Decimal(s) == 0
    ensures Decimal(s + t) == Decimal(t)
    decreases |t|
  {
    if t == [] {
      assert s + t == s;
    } else {
      assert (s + t)[..|s + t| - 1] == s + t[..|t| - 1];
      DecimalJoins(s, t[..|t| - 1]);
    }
  }

  /** Exactly the texts that spell it are read as a number. */
  lemma NumberTexts(s: seq<byte>, n: nat)
    ensures IsNumber(Trim(s)) && Decimal(Trim(s)) == n <==> NumberText(s, n)
  {
    hide Trim, Digits, Decimal;
    if IsNumber(Trim(s)) && Decimal(Trim(s)) == n {
      var before, after := TrimParts(s);
      var zeros := NumberSpells(Trim(s));
      assert SpellsNumber(s, n, before, zeros, after);
    }
    if NumberText(s, n) {
      var before, zeros: nat, after :| SpellsNumber(s, n, before, zeros, after);
      var t := LeadingZeros(zeros) + Digits(n);
      ZerosRead(zeros, n);
      assert IsDigit(t[0]) && IsDigit(t[|t| - 1]);
      TrimPadded(before, t, after);
    }
  }

  /** Digits accumulated with overflow checks: the value, exactly when it is a
      number within `limit`. */
  method ParseChecked(s: seq<byte>, limit: nat) returns (r: Option<nat>)
    ensures r == if IsNumber(s) && Decimal(s) <= limit then Some(Decimal(s)) else None
  {
    if |s| == 0 {
      return None;
    }
    var parsed := 0;
    var i := 0;
    while i < |s|
      invariant 0 <= i <= |s| && parsed <= limit
      invariant forall k :: 0 <= k < i ==> IsDigit(s[k])
      invariant parsed == Decimal(s[..i])
    {
      if !IsDigit(s[i]) {
        return None;
      }
      assert s[..i + 1][..i] == s[..i];
      parsed := parsed * 10 + (s[i] - 48);
      if parsed > limit {
        if IsNumber(s) {
          DecimalPrefix(s, i + 1);
        }
        return None;
      }
      i := i + 1;
    }
    assert s[..|s|] == s;
    r := Some(parsed);
  }

  /** `parse_version`: a decimal u32 with optional surrounding white space. */
  method ParseVersion(body: seq<byte>) returns (r: Option<nat>)
    ensures var s := Trim(body); r == if IsNumber(s) && Decimal(s) <= 0xFFFF_FFFF then Some(Decimal(s)) else None
    ensures forall n: nat :: r == Some(n) <==> n <= 0xFFFF_FFFF && NumberText(body, n)
  {
    hide Trim, Decimal, NumberText;
    var s := TrimAscii(body);
    r := ParseChecked(s, 0xFFFF_FFFF);
    forall n: nat
      ensures IsNumber(s) && Decimal(s) == n <==> NumberText(body, n)
    {
      NumberTexts(body, n);
    }
  }

  // ----- the hex digest -----

  function HexNibble(b: byte): (n: Option<nat>)
    ensures n.Some? ==> n.value < 16
  {
    if 48 <= b <= 57 then Some(b - 48)
    else if 97 <= b <= 102 then Some(b - 97 + 10)
    else None
  }

  function NibbleHex(n: nat): byte
    requires n < 16
  {
    if n < 10 then n + 48 else n - 10 + 97
  }

  /** The lower-case hex spelling of a byte string. */
  function ToHex(d: seq<byte>): seq<byte> {
    if d == [] then [] else ToHex(d[..|d| - 1]) + [NibbleHex(d[|d| - 1] / 16), NibbleHex(d[|d| - 1] % 16)]
  }

  lemma {:induction false} ToHexAt(d: seq<byte>, i: nat)
    requires i < |d|
    ensures |ToHex(d)| == 2 * |d|
    ensures ToHex(d)[2 * i] == NibbleHex(d[i] / 16) && ToHex(d)[2 * i + 1] == NibbleHex(d[i] % 16)
  {
    var front := d[..|d| - 1];
    if front == [] {
    } else {
      ToHexAt(front, if i < |front| then i else 0);
    }
  }

  /** Each byte is spelled by its high digit and then its low one. */
  lemma HexSpelling(d: seq<byte>, i: nat)
    requires i < |d|
    ensures |ToHex(d)| == 2 * |d|
    ensures ToHex(d)[2 * i] == Ascii("0123456789abcdef")[d[i] / 16]
    ensures ToHex(d)[2 * i + 1] == Ascii("0123456789abcdef")[d[i] % 16]
  {
    hide ToHex;
    ToHexAt(d, i);
    Nibbles(d[i] / 16);
    Nibbles(d[i] % 16);
  }

  lemma Nibbles(n: nat)
    requires n < 16
    ensures NibbleHex(n) == Ascii("0123456789abcdef")[n]
  {}

  /** `parse_sha256_hex`: accepts exactly the lower-case spellings of 32 bytes. */
  method ParseSha256Hex(body: seq<byte>) returns (r: Option<seq<byte>>)
    ensures r.Some? ==> |r.value| == 32 && Trim(body) == ToHex(r.value)
    ensures r.None? ==> forall d: seq<byte> :: |d| == 32 ==> Trim(body) != ToHex(d)
  {
    hide Trim, HexNibble, ToHex;
    var s := TrimAscii(body);
    if |s| != 64 {
      NotHexLength(s);
      return None;
    }
    var out: seq<byte> := [];
    HexStart(s);
    while |out| < 32
      invariant |out| <= 32 && ToHex(out) == s[..2 * |out|]
      decreases 32 - |out|
    {
      var i := |out|;
      var hi, lo := HexNibble(s[2 * i]), HexNibble(s[2 * i + 1]);
      if hi.None? || lo.None? {
        NotHexDigit(s, i);
        return None;
      }
      HexNext(s, out, hi.value, lo.value);
      out := out + [hi.value * 16 + lo.value];
    }
    assert s[..64] == s;
    r := Some(out);
  }

  lemma HexStart(s: seq<byte>)
    ensures ToHex([]) == s[..0]
  {}

  lemma HexNext(s: seq<byte>, out: seq<byte>, hi: nat, lo: nat)
    requires 2 * |out| + 2 <= |s| && ToHex(out) == s[..2 * |out|]
    requires HexNibble(s[2 * |out|]) == Some(hi) && HexNibble(s[2 * |out| + 1]) == Some(lo)
    ensures hi < 16 && lo < 16 && ToHex(out + [hi * 16 + lo]) == s[..2 * |out + [hi * 16 + lo]|]
  {
    hide ToHex, HexNibble, NibbleHex;
    ToHexSnoc(out, hi * 16 + lo);
    NibbleInverts(s[2 * |out|], hi);
    NibbleInverts(s[2 * |out| + 1], lo);
    TakeTwo(s, 2 * |out|);
    assert (hi * 16 + lo) / 16 == hi && (hi * 16 + lo) % 16 == lo;
  }

  lemma ToHexSnoc(d: seq<byte>, b: byte)
    ensures ToHex(d + [b]) == ToHex(d) + [NibbleHex(b / 16), NibbleHex(b % 16)]
  {
    hide NibbleHex;
    assert (d + [b])[..|d|] == d;
  }

  lemma NibbleInverts(b: byte, n: nat)
    requires HexNibble(b) == Some(n)
    ensures n < 16 && NibbleHex(n) == b
  {}

  lemma TakeTwo(s: seq<byte>, k: nat)
    requires k + 2 <= |s|
    ensures s[..k + 2] == s[..k] + [s[k], s[k + 1]]
  {}

  lemma NotHexLength(s: seq<byte>)
    requires |s| != 64
    ensures forall d: seq<byte> :: |d| == 32 ==> s != ToHex(d)
  {
    forall d: seq<byte> | |d| == 32
      ensures s != ToHex(d)
    {
      ToHexAt(d, 0);
    }
  }

  lemma NotHexDigit(s: seq<byte>, i: nat)
    requires |s| == 64 && i < 32 && (HexNibble(s[2 * i]).None? || HexNibble(s[2 * i + 1]).None?)
    ensures forall d: seq<byte> :: |d| == 32 ==> s != ToHex(d)
  {
    hide ToHex;
    forall d: seq<byte> | |d| == 32
      ensures s != ToHex(d)
    {
      ToHexAt(d, i);
    }
  }

  lemma ToHexInjective(d: seq<byte>, e: seq<byte>)
    requires |d| == |e| && ToHex(d) == ToHex(e)
    ensures d == e
  {
    forall i | 0 <= i < |d|
      ensures d[i] == e[i]
    {
      ToHexAt(d, i);
      ToHexAt(e, i);
    }
  }
}
