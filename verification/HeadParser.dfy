/** The byte-fed head parser, proved against the whole-string grammar. */
module HeadParsing {
  import opened Bytes
  import opened Text
  import opened HeadGrammar

  datatype State = InStatus | InHeaders | Finished

  // ----- the line helpers -----

  /** The number of tokens between spaces. */
  function TokenCount(line: seq<byte>): nat {
    if line == [] then 0
    else if line[0] == SP then TokenCount(line[1..])
    else 1 + TokenCount(line[|UpTo(line, SP)|..])
  }

  predicate OnlySpaces(s: seq<byte>) {
    forall i :: 0 <= i < |s| ==> s[i] == SP
  }

  lemma {:induction false} NoTokens(line: seq<byte>)
    ensures TokenCount(line) == 0 <==> OnlySpaces(line)
  {
    if line == [] || line[0] != SP {
    } else {
      NoTokens(line[1..]);
    }
  }

  /** Both accepted versions are eight bytes without a space, and then one. */
  lemma VersionThenSpace(line: seq<byte>)
    requires Ascii("HTTP/1.0 ") <= line || Ascii("HTTP/1.1 ") <= line
    ensures |line| >= 9 && SP !in line[..8] && line[8] == SP
  {
  }

  lemma TokenThenSpace(line: seq<byte>, n: nat)
    requires 0 < n < |line| && SP !in line[..n] && line[n] == SP
    ensures TokenCount(line) == 1 + TokenCount(line[n + 1..])
  {
    UpToAt(line, SP, n);
    assert line[0] == line[..n][0];
    assert line[n..][0] == SP && line[n..][1..] == line[n + 1..];
  }

  /** After the version and its space there is a second token unless only spaces follow. */
  lemma StatusTokens(line: seq<byte>)
    requires Ascii("HTTP/1.0 ") <= line || Ascii("HTTP/1.1 ") <= line
    ensures |line| >= 9 && (TokenCount(line) < 2 <==> OnlySpaces(line[9..]))
  {
    hide Ascii, TokenCount;
    VersionThenSpace(line);
    TokenThenSpace(line, 8);
    NoTokens(line[9..]);
  }

  lemma SpacesFromNine(line: seq<byte>)
    requires |line| >= 9
    ensures OnlySpaces(line[9..]) <==> forall i :: 9 <= i < |line| ==> line[i] == SP
  {
    assert forall i :: 9 <= i < |line| ==> line[i] == line[9..][i - 9];
  }

  method CountTokens(line: seq<byte>) returns (n: nat)
    ensures n == TokenCount(line)
  {
    n := 0;
    var rest := line;
    while rest != []
      invariant n + TokenCount(rest) == TokenCount(line)
      decreases |rest|
    {
      if rest[0] == SP {
        rest := rest[1..];
      } else {
        n := n + 1;
        rest := rest[|UpTo(rest, SP)|..];
      }
    }
  }

  method ParseStatus(line: seq<byte>) returns (r: Result<nat, HeadError>)
    ensures r == StatusLine(line)
  {
    if !(Ascii("HTTP/1.0 ") <= line || Ascii("HTTP/1.1 ") <= line) {
      return Err(MalformedStatusLine);
    }
    StatusTokens(line);
    SpacesFromNine(line);
    var tokens := CountTokens(line);
    if tokens < 2 {
      return Err(TooFewStatusTokens);
    }
    var value := ParseChecked(UpTo(line[9..], SP), 0xFFFF);
    r := if value.Some? then Ok(value.value) else Err(NonNumericStatus);
  }

  method ParseHeader(line: seq<byte>) returns (r: Result<Field, HeadError>)
    ensures r == HeaderLine(line)
  {
    hide Trim, EqIgnoreCase, IsNumber, Decimal, Ascii;
    var raw := UpTo(line, COLON);
    if |raw| == |line| {
      return Err(MalformedHeader);
    }
    var name := TrimAscii(raw);
    var value := TrimAscii(line[|raw| + 1..]);
    if EqIgnoreCase(name, Ascii("transfer-encoding")) {
      return Ok(Encoding);
    }
    if !EqIgnoreCase(name, Ascii("content-length")) {
      return Ok(Other);
    }
    var parsed := ParseChecked(value, 0xFFFF_FFFF_FFFF_FFFF);
    r := if parsed.Some? then Ok(Length(parsed.value)) else Err(MalformedHeader);
  }

  // ----- the parser -----

  class HeadParser {
    var state: State
    var terminal: Option<HeadEvent>
    const line: array<byte>
    var lineLen: nat
    var total: nat
    var status: nat
    var contentLength: Option<nat>
    var transferEncoding: bool
    /** Every byte ever pushed. */
    ghost var fed: seq<byte>

    /** What the fields say about the head so far while no verdict is reached. */
    ghost predicate Tracks()
      reads this, line
    {
      var ls := Split(fed);
      && lineLen <= line.Length == MAX_HEAD_BYTES && total == |fed| <= MAX_HEAD_BYTES
      && line[..lineLen] == ls.rest
      && NothingSettled(ls.complete, |ls.complete|)
      && state == (if ls.complete == [] then InStatus else InHeaders)
      && (ls.complete != [] ==> StatusLine(Strip(ls.complete[0])) == Ok(status))
      && transferEncoding == HasEncoding(ls.complete, |ls.complete|)
      && contentLength == LengthBefore(ls.complete, |ls.complete|)
    }

    function Event(): HeadEvent
      reads this
    {
      if terminal.Some? then terminal.value else NeedMore
    }

    /** The parser's answer and byte count are the verdict on everything fed so far. */
    ghost predicate Valid()
      reads this, line
    {
      && line.Length == MAX_HEAD_BYTES
      && (terminal.Some? ==> terminal.value != NeedMore)
      && IsVerdict(fed, Event(), total)
      && (terminal.None? ==> Tracks())
    }

    constructor ()
      ensures Valid() && fed == [] && fresh(line) && terminal == None
    {
      state, terminal := InStatus, None;
      line := new byte[MAX_HEAD_BYTES](_ => 0);
      lineLen, total, status := 0, 0, 0;
      contentLength, transferEncoding := None, false;
      fed := [];
    }

    method Push(b: byte) returns (r: HeadEvent)
      requires Valid()
      modifies this, line
      ensures Valid() && fed == old(fed) + [b] && r == Event()
      ensures old(terminal).None? ==> total == |fed|
    {
      hide NothingSettled, LineVerdict, HasEncoding, LengthBefore, StatusLine, FieldAt, Joined, Split;
      if terminal.Some? {
        VerdictStands(fed, b, terminal.value, total);
        fed := fed + [b];
        return terminal.value;
      }
      ghost var lines, rest := Split(fed).complete, Split(fed).rest;
      SplitSnoc(fed, b);
      SplitJoins(fed);
      fed := fed + [b];
      total := total + 1;
      if total > MAX_HEAD_BYTES {
        OversizedAt(fed);
        r := RejectWith(OversizedHeader);
        return;
      }
      if b != LF {
        // Fewer than 2048 bytes came before this one, so the line has room and
        // its overflow rejection (http.rs:100-102) cannot be reached.
        assert lineLen < line.Length;
        line[lineLen] := b;
        assert line[..lineLen + 1] == rest + [b];
        lineLen := lineLen + 1;
        return NeedMore;
      }
      var end := lineLen;
      if end > 0 && line[end - 1] == CR {
        end := end - 1;
      }
      assert line[..end] == Strip(rest);
      NextLine(lines, rest);
      r := EndOfLine(line[..end], lines, rest);
    }

    /** The effect of one complete line, after the bytes were counted. */
    method EndOfLine(text: seq<byte>, ghost lines: seq<seq<byte>>, ghost rest: seq<byte>) returns (r: HeadEvent)
      requires line.Length == MAX_HEAD_BYTES && terminal.None? && text == Strip(rest)
      requires Split(fed) == Lines(lines + [rest], []) && total == |fed| <= MAX_HEAD_BYTES
      requires total == |Joined(lines + [rest])|
      requires NothingSettled(lines, |lines|) && state == (if lines == [] then InStatus else InHeaders)
      requires lines != [] ==> StatusLine(Strip(lines[0])) == Ok(status)
      requires transferEncoding == HasEncoding(lines, |lines|) && contentLength == LengthBefore(lines, |lines|)
      modifies this
      ensures Valid() && fed == old(fed) && total == old(total) && r == Event()
    {
      hide NothingSettled, HasEncoding, LengthBefore, StatusLine, HeaderLine, Joined, Split, BlankLine;
      NextLine(lines, rest);
      lineLen := 0;
      if state == InStatus {
        var code := ParseStatus(text);
        if code.Err? {
          Settles(fed, lines, rest, Reject(code.error));
          r := RejectWith(code.error);
          return;
        }
        status := code.value;
        state := InHeaders;
        return NeedMore;
      }
      if |text| == 0 {
        Settles(fed, lines, rest, BlankLine(status, transferEncoding, contentLength));
        r := Finish();
        return;
      }
      var field := ParseHeader(text);
      if field.Err? {
        Settles(fed, lines, rest, Reject(field.error));
        r := RejectWith(field.error);
        return;
      }
      if field.value.Encoding? {
        transferEncoding := true;
      }
      if field.value.Length? {
        if contentLength.Some? {
          Settles(fed, lines, rest, Reject(DuplicateContentLength));
          r := RejectWith(DuplicateContentLength);
          return;
        }
        contentLength := Some(field.value.value);
      }
      r := NeedMore;
    }

    method Finish() returns (r: HeadEvent)
      requires line.Length == MAX_HEAD_BYTES
      requires IsVerdict(fed, BlankLine(status, transferEncoding, contentLength), total)
      modifies this
      ensures Valid() && fed == old(fed) && total == old(total) && r == Event()
    {
      if transferEncoding {
        r := RejectWith(TransferEncodingError);
      } else if !(200 <= status <= 299) && status != 404 {
        r := RejectWith(UnexpectedStatus);
      } else if contentLength.None? && status != 404 {
        r := RejectWith(MissingContentLength);
      } else {
        r := Complete(ResponseHead(status, contentLength));
        state, terminal := Finished, Some(r);
      }
    }

    method RejectWith(error: HeadError) returns (r: HeadEvent)
      requires line.Length == MAX_HEAD_BYTES && IsVerdict(fed, Reject(error), total)
      modifies this
      ensures Valid() && fed == old(fed) && total == old(total) && r == Event() == Reject(error)
    {
      r := Reject(error);
      state, terminal := Finished, Some(r);
    }
  }

  lemma OversizedAt(s: seq<byte>)
    requires |s| == MAX_HEAD_BYTES + 1 && IsVerdict(s[..MAX_HEAD_BYTES], NeedMore, MAX_HEAD_BYTES)
    ensures IsVerdict(s, Reject(OversizedHeader), MAX_HEAD_BYTES + 1)
  {
    assert HeadBytes(s) == HeadBytes(s[..MAX_HEAD_BYTES]);
  }

  lemma NextEncoding(lines: seq<seq<byte>>, x: seq<byte>)
    ensures var all := lines + [x]; var n := |lines|;
            && HasEncoding(all, n) == HasEncoding(lines, n)
            && HasEncoding(all, n + 1) == (HasEncoding(lines, n) || (n > 0 && FieldAt(all, n) == Ok(Encoding)))
  {
    hide HeaderLine, Strip;
    var all := lines + [x];
    assert forall j :: 1 <= j < |lines| ==> FieldAt(all, j) == FieldAt(lines, j);
  }

  /** What one more line adds to the facts about the lines so far. */
  lemma NextLine(lines: seq<seq<byte>>, x: seq<byte>)
    ensures var all := lines + [x]; var n := |lines|;
            && (NothingSettled(all, n) <==> NothingSettled(lines, n))
            && HasEncoding(all, n) == HasEncoding(lines, n) && LengthBefore(all, n) == LengthBefore(lines, n)
            && (NothingSettled(all, n + 1) <==> NothingSettled(all, n) && LineVerdict(all, n) == NeedMore)
            && HasEncoding(all, n + 1) == (HasEncoding(lines, n) || (n > 0 && FieldAt(all, n) == Ok(Encoding)))
            && LengthBefore(all, n + 1) == (if n > 0 && FieldAt(all, n).Ok? && FieldAt(all, n).value.Length?
                                            then Some(FieldAt(all, n).value.value) else LengthBefore(lines, n))
            && |Joined(all)| == |Joined(lines)| + |x| + 1
  {
    hide HasEncoding, FieldAt, LineVerdict;
    NothingSettledPrefix(lines, [x], |lines|);
    LengthBeforePrefix(lines, [x], |lines|);
    NextEncoding(lines, x);
    assert (lines + [x])[..|lines|] == lines;
  }

  /** The line just completed settles its own verdict. */
  lemma Settles(s: seq<byte>, lines: seq<seq<byte>>, x: seq<byte>, e: HeadEvent)
    requires |s| <= MAX_HEAD_BYTES && Split(s).complete == lines + [x] && |s| == |Joined(lines + [x])|
    requires NothingSettled(lines + [x], |lines|) && e == LineVerdict(lines + [x], |lines|) && e != NeedMore
    ensures IsVerdict(s, e, |s|)
  {
    var all := lines + [x];
    assert all[..|lines| + 1] == all;
    assert SettledBy(all, |lines|, e, |s|);
  }
}
