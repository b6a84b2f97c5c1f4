/** Response heads as a server writes them (RFC 7230, sections 3.1.2 and 3.2), and what
    the grammar makes of every one of them. */
module ResponseHeads {
  import opened Bytes
  import opened Text
  import opened HeadGrammar

  /** One header field. A length stands between optional white space. */
  datatype HeaderField =
    | ContentLength(name: seq<byte>, before: seq<byte>, length: nat, after: seq<byte>)
    | TransferEncoding(name: seq<byte>, value: seq<byte>)
    | Unrelated(name: seq<byte>, value: seq<byte>)

  /** A response head; `reason` is what follows the status code, `bare` ends its lines without a CR. */
  datatype Response = Response(minor: nat, status: nat, reason: seq<byte>, fields: seq<HeaderField>, bare: bool)

  predicate OneLine(s: seq<byte>) {
    LF !in s && CR !in s
  }

  predicate IsField(f: HeaderField) {
    match f
    case ContentLength(name, before, length, after) =>
      && Recased(name, Ascii("content-length")) && length <= 0xFFFF_FFFF_FFFF_FFFF
      && AllSpace(before) && AllSpace(after) && OneLine(before) && OneLine(after)
    case TransferEncoding(name, value) => Recased(name, Ascii("transfer-encoding")) && OneLine(value)
    case Unrelated(name, value) =>
      && name != [] && OneLine(name) && COLON !in name && NoSpace(name)
      && !Recased(name, Ascii("content-length")) && !Recased(name, Ascii("transfer-encoding")) && OneLine(value)
  }

  predicate IsResponse(r: Response) {
    && r.minor <= 1 && r.status <= 0xFFFF
    && OneLine(r.reason) && (r.reason != [] ==> r.reason[0] == SP)
    && forall i :: 0 <= i < |r.fields| ==> IsField(r.fields[i])
  }

  // ----- what the server writes -----

  function StatusText(r: Response): seq<byte> {
    (if r.minor == 0 then Ascii("HTTP/1.0 ") else Ascii("HTTP/1.1 ")) + Digits(r.status) + r.reason
  }

  function FieldText(f: HeaderField): seq<byte> {
    f.name + Ascii(":") +
      match f
      case ContentLength(_, before, length, after) => before + Digits(length) + after
      case TransferEncoding(_, value) => value
      case Unrelated(_, value) => value
  }

  function LineText(text: seq<byte>, bare: bool): seq<byte> {
    if bare then text else text + [CR]
  }

  /** The lines without their LF: the status line, the fields and the blank line. */
  function HeadLines(r: Response): (lines: seq<seq<byte>>)
    ensures |lines| == |r.fields| + 2
  {
    [LineText(StatusText(r), r.bare)]
    + seq(|r.fields|, i requires 0 <= i < |r.fields| => LineText(FieldText(r.fields[i]), r.bare))
    + [LineText([], r.bare)]
  }

  function HeadText(r: Response): seq<byte> {
    Joined(HeadLines(r))
  }

  // ----- what it means by it -----

  predicate SingleLength(fields: seq<HeaderField>) {
    forall i, j :: 0 <= i < j < |fields| ==> !(fields[i].ContentLength? && fields[j].ContentLength?)
  }

  /** The last length among the fields. */
  function LengthOf(fields: seq<HeaderField>): Option<nat> {
    if fields == [] then None
    else if fields[|fields| - 1].ContentLength? then Some(fields[|fields| - 1].length)
    else LengthOf(fields[..|fields| - 1])
  }

  predicate Chunked(fields: seq<HeaderField>) {
    exists i :: 0 <= i < |fields| && fields[i].TransferEncoding?
  }

  /** A transfer encoding is refused, then an unexpected status, then a missing length. */
  function Meaning(r: Response): HeadEvent {
    if Chunked(r.fields) then Reject(TransferEncodingError)
    else if r.status < 200 || (r.status >= 300 && r.status != 404) then Reject(UnexpectedStatus)
    else if r.status != 404 && LengthOf(r.fields).None? then Reject(MissingContentLength)
    else Complete(ResponseHead(r.status, LengthOf(r.fields)))
  }

  // ----- one line read back -----

  /** One CR before the LF belongs to the line's end, and no more than one. */
  lemma OneCrStripped(text: seq<byte>)
    ensures Strip(text + [CR]) == text
    ensures text == [] || text[|text| - 1] != CR ==> Strip(text) == text
  {}

  lemma DigitsPlain(n: nat)
    ensures forall i :: 0 <= i < |Digits(n)| ==> 48 <= Digits(n)[i] <= 57
    ensures OneLine(Digits(n)) && SP !in Digits(n) && COLON !in Digits(n)
  {
    DigitsRead(n);
  }

  lemma VersionRead(line: seq<byte>, minor: nat, tail: seq<byte>)
    requires line == (if minor == 0 then Ascii("HTTP/1.0 ") else Ascii("HTTP/1.1 ")) + tail
    requires tail != [] && tail[0] != SP
    ensures StatusLine(line) ==
              var code := UpTo(tail, SP);
              if IsNumber(code) && Decimal(code) <= 0xFFFF then Ok(Decimal(code)) else Err(NonNumericStatus)
    ensures OneLine(tail) ==> OneLine(line)
  {
    hide IsNumber, Decimal, UpTo;
    assert line[9..] == tail && line[9] == tail[0];
  }

  lemma StatusRead(r: Response)
    requires IsResponse(r)
    ensures StatusLine(StatusText(r)) == Ok(r.status) && OneLine(StatusText(r))
  {
    hide IsNumber, Decimal, Digits, Ascii, StatusLine;
    DigitsPlain(r.status);
    DigitsRead(r.status);
    var code := Digits(r.status);
    var tail := code + r.reason;
    assert tail[..|code|] == code && tail[0] == code[0];
    UpToAt(tail, SP, |code|);
    var version := if r.minor == 0 then Ascii("HTTP/1.0 ") else Ascii("HTTP/1.1 ");
    assert StatusText(r) == version + tail;
    VersionRead(StatusText(r), r.minor, tail);
  }

  function KindOf(f: HeaderField): Field {
    match f
    case ContentLength(_, _, length, _) => Length(length)
    case TransferEncoding(_, _) => Encoding
    case Unrelated(_, _) => Other
  }

  /** The two names that matter are of letters and a hyphen, and differ in length. */
  lemma NamesPlain(name: seq<byte>)
    requires Recased(name, Ascii("content-length")) || Recased(name, Ascii("transfer-encoding"))
    ensures OneLine(name) && COLON !in name && |name| >= 14
    ensures NoSpace(name)
    ensures Recased(name, Ascii("content-length")) <==> !Recased(name, Ascii("transfer-encoding"))
  {
    if Recased(name, Ascii("content-length")) {
      LettersPlain(name, Ascii("content-length"));
    } else {
      LettersPlain(name, Ascii("transfer-encoding"));
    }
  }

  lemma LettersPlain(name: seq<byte>, lower: seq<byte>)
    requires Recased(name, lower) && forall i :: 0 <= i < |lower| ==> 97 <= lower[i] <= 122 || lower[i] == 45
    ensures forall i :: 0 <= i < |name| ==> name[i] == 45 || 65 <= name[i] <= 90 || 97 <= name[i] <= 122
  {}

  lemma NameMatches(name: seq<byte>)
    ensures EqIgnoreCase(name, Ascii("content-length")) <==> Recased(name, Ascii("content-length"))
    ensures EqIgnoreCase(name, Ascii("transfer-encoding")) <==> Recased(name, Ascii("transfer-encoding"))
  {
    FoldsCase(name, Ascii("content-length"));
    FoldsCase(name, Ascii("transfer-encoding"));
  }

  lemma NameTrimmed(name: seq<byte>)
    requires NoSpace(name)
    ensures Trim(name) == name
  {
    TrimPadded([], name, []);
    assert [] + name + [] == name;
  }

  lemma DigitsTrimmed(before: seq<byte>, n: nat, after: seq<byte>)
    requires AllSpace(before) && AllSpace(after)
    ensures Trim(before + Digits(n) + after) == Digits(n)
  {
    hide Digits;
    DigitsPlain(n);
    var s := Digits(n);
    TrimPadded(before, s, after);
  }

  lemma FieldRead(f: HeaderField)
    requires IsField(f)
    ensures HeaderLine(FieldText(f)) == Ok(KindOf(f)) && OneLine(FieldText(f)) && FieldText(f) != []
  {
    hide Trim, EqIgnoreCase, Recased, IsNumber, Decimal, Digits, AllSpace, Ascii;
    var name := f.name;
    NameMatches(name);
    if !f.Unrelated? {
      NamesPlain(name);
    }
    NameTrimmed(name);
    assert Ascii(":") == [COLON] by { Colon(); }
    var value := match f
      case ContentLength(_, before, length, after) => before + Digits(length) + after
      case TransferEncoding(_, value) => value
      case Unrelated(_, value) => value;
    var line := FieldText(f);
    assert line == name + [COLON] + value;
    assert line[..|name|] == name && line[|name|] == COLON && line[|name| + 1..] == value;
    UpToAt(line, COLON, |name|);
    if f.ContentLength? {
      DigitsPlain(f.length);
      DigitsRead(f.length);
      DigitsTrimmed(f.before, f.length, f.after);
    }
  }

  lemma Colon()
    ensures Ascii(":") == [COLON]
  {}

  // ----- exactly which lines mean what -----

  /** A status line for code `n`: a version, any zeros, the digits, and then nothing or a space and anything. */
  ghost predicate IsStatusText(line: seq<byte>, n: nat, minor: nat, zeros: nat, reason: seq<byte>) {
    && minor <= 1 && (reason != [] ==> reason[0] == SP)
    && line == (if minor == 0 then Ascii("HTTP/1.0 ") else Ascii("HTTP/1.1 "))
               + (LeadingZeros(zeros) + Digits(n) + reason)
  }

  lemma StatusExactly(line: seq<byte>, n: nat)
    ensures StatusLine(line) == Ok(n) <==>
            n <= 0xFFFF && exists minor: nat, zeros: nat, reason :: IsStatusText(line, n, minor, zeros, reason)
  {
    hide StatusLine, IsStatusText;
    if StatusLine(line) == Ok(n) {
      var minor, zeros, reason := StatusParts(line);
    }
    if n <= 0xFFFF && exists minor: nat, zeros: nat, reason :: IsStatusText(line, n, minor, zeros, reason) {
      var minor: nat, zeros: nat, reason :| IsStatusText(line, n, minor, zeros, reason);
      StatusAccepted(line, n, minor, zeros, reason);
    }
  }

  lemma StatusParts(line: seq<byte>) returns (minor: nat, zeros: nat, reason: seq<byte>)
    requires StatusLine(line).Ok?
    ensures StatusLine(line).value <= 0xFFFF && IsStatusText(line, StatusLine(line).value, minor, zeros, reason)
  {
    hide IsNumber, Decimal, Digits;
    minor := if Ascii("HTTP/1.0 ") <= line then 0 else 1;
    var version := if minor == 0 then Ascii("HTTP/1.0 ") else Ascii("HTTP/1.1 ");
    assert |version| == 9 && version <= line;
    var code := UpTo(line[9..], SP);
    zeros := NumberSpells(code);
    reason := line[9..][|code|..];
    assert line[9..] == code + reason;
    assert line == version + line[9..];
  }

  lemma StatusAccepted(line: seq<byte>, n: nat, minor: nat, zeros: nat, reason: seq<byte>)
    requires n <= 0xFFFF && IsStatusText(line, n, minor, zeros, reason)
    ensures StatusLine(line) == Ok(n)
  {
    hide IsNumber, Decimal, Digits, Ascii, StatusLine, UpTo;
    var code := LeadingZeros(zeros) + Digits(n);
    var tail := code + reason;
    ZerosRead(zeros, n);
    NumberPlain(code);
    assert tail[..|code|] == code && tail[0] == code[0];
    UpToAt(tail, SP, |code|);
    VersionRead(line, minor, tail);
  }

  lemma NumberPlain(s: seq<byte>)
    requires IsNumber(s)
    ensures SP !in s && s[0] != SP
  {}

  /** The lower-case name with its letters in either case, between white space. */
  ghost predicate Named(s: seq<byte>, lower: seq<byte>) {
    exists before, name, after :: NamedAs(s, lower, before, name, after)
  }

  ghost predicate NamedAs(s: seq<byte>, lower: seq<byte>, before: seq<byte>, name: seq<byte>, after: seq<byte>) {
    s == before + name + after && AllSpace(before) && AllSpace(after) && Recased(name, lower)
  }

  lemma NamedExactly(s: seq<byte>, lower: seq<byte>)
    requires lower != [] && forall i :: 0 <= i < |lower| ==> 97 <= lower[i] <= 122 || lower[i] == 45
    ensures EqIgnoreCase(Trim(s), lower) <==> Named(s, lower)
  {
    hide Trim, EqIgnoreCase;
    FoldsCase(Trim(s), lower);
    if Recased(Trim(s), lower) {
      var before, after := TrimParts(s);
      assert NamedAs(s, lower, before, Trim(s), after);
    }
    if Named(s, lower) {
      var before, name, after :| NamedAs(s, lower, before, name, after);
      LettersPlain(name, lower);
      TrimPadded(before, name, after);
    }
  }

  /** A field is a length exactly if its name says so and its value is a number of 64 bits,
      any other value of that name is refused, and every other field is let through. */
  lemma FieldExactly(left: seq<byte>, value: seq<byte>, n: nat)
    requires COLON !in left
    ensures var r := HeaderLine(left + [COLON] + value);
            && (r == Ok(Encoding) <==> Named(left, Ascii("transfer-encoding")))
            && (r == Ok(Length(n)) <==>
                  Named(left, Ascii("content-length")) && n <= 0xFFFF_FFFF_FFFF_FFFF && NumberText(value, n))
            && (r == Ok(Other) <==>
                  !Named(left, Ascii("transfer-encoding")) && !Named(left, Ascii("content-length")))
            && (r.Err? ==> r == Err(MalformedHeader))
  {
    hide Trim, EqIgnoreCase, IsNumber, Decimal, Ascii, Named, NumberText;
    var line := left + [COLON] + value;
    assert line[..|left|] == left && line[|left|] == COLON && line[|left| + 1..] == value;
    UpToAt(line, COLON, |left|);
    BothNames(left);
    NumberTexts(value, n);
  }

  lemma BothNames(s: seq<byte>)
    ensures EqIgnoreCase(Trim(s), Ascii("content-length")) <==> Named(s, Ascii("content-length"))
    ensures EqIgnoreCase(Trim(s), Ascii("transfer-encoding")) <==> Named(s, Ascii("transfer-encoding"))
    ensures Named(s, Ascii("content-length")) ==> !Named(s, Ascii("transfer-encoding"))
  {
    hide Trim, Named;
    NamedExactly(s, Ascii("content-length"));
    NamedExactly(s, Ascii("transfer-encoding"));
  }

  /** A line without a colon is no field. */
  lemma FieldNeedsColon(line: seq<byte>)
    requires COLON !in line
    ensures HeaderLine(line) == Err(MalformedHeader)
  {
    UpToAt(line, COLON, |line|);
  }

  // ----- the whole head read back -----

  /** Lines without an LF, written out, are split again. */
  lemma {:induction false} SplitJoined(lines: seq<seq<byte>>, w: seq<byte>)
    requires forall i :: 0 <= i < |lines| ==> LF !in lines[i]
    ensures Split(Joined(lines) + w) == Lines(lines + Split(w).complete, Split(w).rest)
    decreases |lines|, |w|
  {
    hide Split, Joined;
    if w != [] {
      var v, b := w[..|w| - 1], w[|w| - 1];
      SplitJoined(lines, v);
      assert w == v + [b] && Joined(lines) + w == (Joined(lines) + v) + [b];
      SplitSnoc(Joined(lines) + v, b);
      SplitSnoc(v, b);
    } else if lines != [] {
      var front, x := lines[..|lines| - 1], lines[|lines| - 1];
      SplitJoined(front, x);
      SplitRest(x);
      JoinedLast(lines);
      SplitRest([]);
      assert Joined(lines) + w == Joined(lines);
      SplitSnoc(Joined(front) + x, LF);
    } else {
      NoLines();
      SplitRest([]);
      assert [] + w == w;
    }
  }

  lemma JoinedLast(lines: seq<seq<byte>>)
    requires lines != []
    ensures Joined(lines) == Joined(lines[..|lines| - 1]) + lines[|lines| - 1] + [LF]
  {}

  lemma NoLines()
    ensures Joined([]) == []
  {}

  lemma {:induction false} SplitRest(x: seq<byte>)
    requires LF !in x
    ensures Split(x) == Lines([], x)
    decreases |x|
  {
    if x != [] {
      SplitRest(x[..|x| - 1]);
    }
  }

  /** The lines, one by one. */
  lemma LinesRead(r: Response)
    requires IsResponse(r)
    ensures var lines := HeadLines(r); var n := |r.fields|;
            && (forall i :: 0 <= i < |lines| ==> LF !in lines[i])
            && StatusLine(Strip(lines[0])) == Ok(r.status)
            && Strip(lines[n + 1]) == []
            && (forall i :: 0 <= i < n ==>
                  Strip(lines[i + 1]) != [] && FieldAt(lines, i + 1) == Ok(KindOf(r.fields[i])))
  {
    hide StatusText, FieldText, StatusLine, HeaderLine, Strip, IsField, LineText;
    var lines := HeadLines(r);
    StatusRead(r);
    LineRead(StatusText(r), r.bare);
    LineRead([], r.bare);
    forall i | 0 <= i < |r.fields|
      ensures LF !in lines[i + 1] && Strip(lines[i + 1]) != [] && FieldAt(lines, i + 1) == Ok(KindOf(r.fields[i]))
    {
      assert IsField(r.fields[i]);
      FieldRead(r.fields[i]);
      LineRead(FieldText(r.fields[i]), r.bare);
    }
    forall i | 0 <= i < |lines|
      ensures LF !in lines[i]
    {
      if 0 < i <= |r.fields| {
        assert LF !in lines[(i - 1) + 1];
      }
    }
  }

  lemma LineRead(text: seq<byte>, bare: bool)
    requires OneLine(text)
    ensures LF !in LineText(text, bare) && Strip(LineText(text, bare)) == text
  {
    hide Strip;
    OneCrStripped(text);
  }

  /** The fields of a head's lines are those it was written with. */
  ghost predicate Reads(lines: seq<seq<byte>>, fields: seq<HeaderField>) {
    && |fields| < |lines|
    && forall i :: 0 <= i < |fields| ==> FieldAt(lines, i + 1) == Ok(KindOf(fields[i]))
  }

  lemma {:induction false} LengthsAgree(lines: seq<seq<byte>>, fields: seq<HeaderField>, n: nat)
    requires Reads(lines, fields) && n <= |fields|
    ensures LengthBefore(lines, n + 1) == LengthOf(fields[..n])
    decreases n
  {
    hide HeaderLine, Strip, FieldAt;
    if n == 0 {
    } else {
      LengthsAgree(lines, fields, n - 1);
      assert FieldAt(lines, (n - 1) + 1) == Ok(KindOf(fields[n - 1]));
      assert fields[..n][..n - 1] == fields[..n - 1];
    }
  }

  lemma EncodingAgrees(lines: seq<seq<byte>>, fields: seq<HeaderField>)
    requires Reads(lines, fields)
    ensures HasEncoding(lines, |fields| + 1) <==> Chunked(fields)
  {
    hide HeaderLine, Strip, FieldAt;
    if HasEncoding(lines, |fields| + 1) {
      var j :| 1 <= j < |fields| + 1 && FieldAt(lines, j) == Ok(Encoding);
      assert FieldAt(lines, (j - 1) + 1) == Ok(KindOf(fields[j - 1]));
    }
    if Chunked(fields) {
      var i :| 0 <= i < |fields| && fields[i].TransferEncoding?;
      assert FieldAt(lines, i + 1) == Ok(Encoding);
    }
  }

  lemma {:induction false} NoLengthYet(fields: seq<HeaderField>, n: nat)
    requires n <= |fields|
    ensures LengthOf(fields[..n]).None? <==> forall i :: 0 <= i < n ==> !fields[i].ContentLength?
    decreases n
  {
    if n != 0 {
      NoLengthYet(fields, n - 1);
      assert fields[..n][..n - 1] == fields[..n - 1];
    }
  }

  /** No line before the blank one settles anything, unless it is a second length. */
  lemma OrdinaryLine(r: Response, i: nat)
    requires IsResponse(r) && i <= |r.fields| && SingleLength(r.fields[..i])
    ensures LineVerdict(HeadLines(r), i) == NeedMore
  {
    hide HeadLines, StatusLine, HeaderLine, Strip, LengthBefore, FieldAt, IsField, HasEncoding;
    var lines := HeadLines(r);
    LinesRead(r);
    if i > 0 {
      LengthsAgree(lines, r.fields, i - 1);
      NoLengthYet(r.fields, i - 1);
      assert FieldAt(lines, (i - 1) + 1) == Ok(KindOf(r.fields[i - 1]));
      assert forall k :: 0 <= k < i ==> r.fields[..i][k] == r.fields[k];
    }
  }

  lemma LastLine(r: Response)
    requires IsResponse(r)
    ensures LineVerdict(HeadLines(r), |r.fields| + 1) == Meaning(r)
  {
    hide HeadLines, StatusLine, HeaderLine, Strip, LengthBefore, FieldAt, IsField, HasEncoding, Chunked, LengthOf;
    LinesRead(r);
    LengthsAgree(HeadLines(r), r.fields, |r.fields|);
    EncodingAgrees(HeadLines(r), r.fields);
    assert r.fields[..|r.fields|] == r.fields;
  }

  /** Lines whose last one settles the head, at the front of a stream. */
  lemma SettledInFront(lines: seq<seq<byte>>, w: seq<byte>, e: HeadEvent)
    requires lines != [] && SettledBy(lines, |lines| - 1, e, |Joined(lines)|) && |Joined(lines)| <= 2048
    requires forall i :: 0 <= i < |lines| ==> LF !in lines[i]
    ensures IsVerdict(Joined(lines) + w, e, |Joined(lines)|)
  {
    hide LineVerdict, Joined, NothingSettled, SettledBy, Split;
    var s, n := Joined(lines) + w, |Joined(lines)|;
    var cut := if |s| <= 2048 then w else w[..2048 - n];
    assert HeadBytes(s) == Joined(lines) + cut;
    SplitJoined(lines, cut);
    SettledByPrefix(lines, Split(cut).complete, |lines| - 1, e, n);
  }

  /** Every head with at most one length is understood as it was meant, whatever
      follows it and up to its last byte. */
  lemma HeadReadBack(r: Response, rest: seq<byte>)
    requires IsResponse(r) && SingleLength(r.fields) && |HeadText(r)| <= 2048
    ensures IsVerdict(HeadText(r) + rest, Meaning(r), |HeadText(r)|)
  {
    hide LineVerdict, Joined, IsVerdict, HeadLines, IsField, Meaning;
    var lines, n := HeadLines(r), |r.fields|;
    LinesRead(r);
    AllOrdinary(r, n);
    LastLine(r);
    MeansSomething(r);
    assert lines[..n + 2] == lines;
    SettledInFront(lines, rest, Meaning(r));
  }

  lemma MeansSomething(r: Response)
    ensures Meaning(r) != NeedMore
  {}

  lemma AllOrdinary(r: Response, n: nat)
    requires IsResponse(r) && n <= |r.fields| && SingleLength(r.fields[..n])
    ensures NothingSettled(HeadLines(r), n + 1)
  {
    hide LineVerdict, HeadLines, IsField;
    forall i | 0 <= i <= n
      ensures LineVerdict(HeadLines(r), i) == NeedMore
    {
      assert forall k :: 0 <= k < i ==> r.fields[..i][k] == r.fields[..n][k];
      OrdinaryLine(r, i);
    }
  }

  /** The same for a line with others after it. */
  lemma SettledInside(all: seq<seq<byte>>, i: nat, w: seq<byte>, e: HeadEvent)
    requires i < |all| && NothingSettled(all, i) && LineVerdict(all, i) == e && e != NeedMore
    requires |Joined(all[..i + 1])| <= 2048 && forall k :: 0 <= k < |all| ==> LF !in all[k]
    ensures IsVerdict(Joined(all) + w, e, |Joined(all[..i + 1])|)
  {
    hide LineVerdict, Joined, NothingSettled, IsVerdict;
    var lines, more := all[..i + 1], all[i + 1..];
    assert all == lines + more && lines[..i + 1] == lines;
    NothingSettledPrefix(lines, more, i);
    LineVerdictPrefix(lines, more, i);
    SettledInFront(lines, Joined(more) + w, e);
    JoinedParts(lines, more);
    Associate(Joined(lines), Joined(more), w);
  }

  lemma Associate(a: seq<byte>, b: seq<byte>, c: seq<byte>)
    ensures a + b + c == a + (b + c)
  {}

  /** A second length is refused at the end of its own line. */
  lemma SecondLength(r: Response, i: nat, j: nat, rest: seq<byte>)
    requires IsResponse(r) && i < j < |r.fields| && SingleLength(r.fields[..j])
    requires r.fields[i].ContentLength? && r.fields[j].ContentLength?
    requires |Joined(HeadLines(r)[..j + 2])| <= 2048
    ensures IsVerdict(HeadText(r) + rest, Reject(DuplicateContentLength), |Joined(HeadLines(r)[..j + 2])|)
  {
    hide LineVerdict, Joined, IsVerdict, HeadLines, IsField, NothingSettled;
    hide SingleLength, FieldAt, Strip, StatusLine;
    LinesRead(r);
    AllOrdinary(r, j);
    SecondLine(r, i, j);
    SettledInside(HeadLines(r), j + 1, rest, Reject(DuplicateContentLength));
  }

  lemma SecondLine(r: Response, i: nat, j: nat)
    requires IsResponse(r) && i < j < |r.fields| && r.fields[i].ContentLength? && r.fields[j].ContentLength?
    ensures LineVerdict(HeadLines(r), j + 1) == Reject(DuplicateContentLength)
  {
    hide HeadLines, StatusLine, HeaderLine, Strip, LengthBefore, FieldAt, IsField, HasEncoding;
    LinesRead(r);
    LengthsAgree(HeadLines(r), r.fields, j);
    NoLengthYet(r.fields, j);
    assert FieldAt(HeadLines(r), j + 1) == Ok(KindOf(r.fields[j]));
  }

  lemma {:induction false} JoinedParts(lines: seq<seq<byte>>, more: seq<seq<byte>>)
    ensures Joined(lines + more) == Joined(lines) + Joined(more)
    decreases |more|
  {
    if more == [] {
      assert lines + more == lines;
    } else {
      var front, x := more[..|more| - 1], more[|more| - 1];
      JoinedParts(lines, front);
      assert (lines + more)[..|lines + more| - 1] == lines + front;
    }
  }

  /** A text cut inside its lines has only earlier lines complete. */
  lemma {:induction false} CutLines(lines: seq<seq<byte>>, n: nat) returns (k: nat)
    requires n < |Joined(lines)| && forall i :: 0 <= i < |lines| ==> LF !in lines[i]
    ensures k < |lines| && Split(Joined(lines)[..n]).complete == lines[..k]
  {
    hide Split;
    var front, x := lines[..|lines| - 1], lines[|lines| - 1];
    if n < |Joined(front)| {
      k := CutLines(front, n);
      assert Joined(lines)[..n] == Joined(front)[..n] && front[..k] == lines[..k];
    } else {
      k := |front|;
      var part := x[..n - |Joined(front)|];
      assert Joined(lines)[..n] == Joined(front) + part;
      SplitJoined(front, part);
      SplitRest(part);
    }
  }

  /** A head of more than 2048 bytes is refused at the next one. */
  lemma HeadTooLong(r: Response, rest: seq<byte>)
    requires IsResponse(r) && SingleLength(r.fields) && |HeadText(r)| > 2048
    ensures IsVerdict(HeadText(r) + rest, Reject(OversizedHeader), 2049)
  {
    hide LineVerdict, Joined, HeadLines, IsField, Split, NothingSettled;
    var lines := HeadLines(r);
    LinesRead(r);
    assert r.fields[..|r.fields|] == r.fields;
    AllOrdinary(r, |r.fields|);
    var k := CutLines(lines, 2048);
    assert HeadBytes(HeadText(r) + rest) == HeadText(r)[..2048];
    NothingFewer(lines, |r.fields| + 1, k);
    assert lines == lines[..k] + lines[k..];
    NothingSettledPrefix(lines[..k], lines[k..], k);
  }

  lemma NothingFewer(lines: seq<seq<byte>>, n: nat, k: nat)
    requires k <= n <= |lines| && NothingSettled(lines, n)
    ensures NothingSettled(lines, k)
  {
    hide LineVerdict;
  }

  lemma {:induction false} DigitsShort(n: nat, k: nat)
    requires n < Pow2(k) && k > 0
    ensures |Digits(n)| <= k
    decreases k
  {
    hide Ascii;
    if n >= 10 {
      assert k > 1;
      assert n / 10 < Pow2(k - 1);
      DigitsShort(n / 10, k - 1);
    }
  }

  lemma PlainParts(r: Response)
    requires |r.fields| == 1 && !r.bare
    ensures HeadText(r) == StatusText(r) + Ascii("\r\n") + FieldText(r.fields[0]) + Ascii("\r\n") + Ascii("\r\n")
  {
    hide StatusText, FieldText, Joined;
    var lines := HeadLines(r);
    assert lines[0] == StatusText(r) + [CR] && lines[1] == FieldText(r.fields[0]) + [CR] && lines[2] == [CR];
    assert lines == [StatusText(r) + [CR], FieldText(r.fields[0]) + [CR], [CR]];
    JoinedThree(lines[0], lines[1], lines[2]);
    assert Ascii("\r\n") == [CR, LF];
    assert StatusText(r) + [CR] + [LF] == StatusText(r) + [CR, LF];
  }

  lemma JoinedThree(a: seq<byte>, b: seq<byte>, c: seq<byte>)
    ensures Joined([a, b, c]) == a + [LF] + (b + [LF]) + (c + [LF])
  {
    assert [a, b, c][..2] == [a, b] && [a, b][..1] == [a];
    assert Joined([a, b, c]) == Joined([a, b]) + c + [LF] && Joined([a, b]) == Joined([a]) + b + [LF];
    assert Joined([a]) == a + [LF];
  }

  /** For instance the plainest response: any accepted status, any length of 64 bits
      and any capitals in the name of its field. */
  lemma PlainResponse(status: nat, name: seq<byte>, n: nat, rest: seq<byte>)
    requires (200 <= status <= 299 || status == 404) && n <= 0xFFFF_FFFF_FFFF_FFFF
    requires Recased(name, Ascii("content-length"))
    ensures var head := Ascii("HTTP/1.1 ") + Digits(status) + Ascii(" OK") + Ascii("\r\n")
                        + (name + Ascii(":") + (Ascii(" ") + Digits(n) + [])) + Ascii("\r\n") + Ascii("\r\n");
            IsVerdict(head + rest, Complete(ResponseHead(status, Some(n))), |head|)
  {
    hide Digits, IsVerdict, Pow2, HeadText, Ascii;
    Literals();
    var f := ContentLength(name, Ascii(" "), n, []);
    var r := Response(1, status, Ascii(" OK"), [f], false);
    PlainParts(r);
    Bounds();
    DigitsShort(status, 10);
    DigitsShort(n, 64);
    HeadReadBack(r, rest);
  }

  lemma Literals()
    ensures |Ascii(" OK")| == 3 && OneLine(Ascii(" OK")) && Ascii(" OK")[0] == SP
    ensures |Ascii(" ")| == 1 && OneLine(Ascii(" ")) && AllSpace(Ascii(" "))
    ensures |Ascii("HTTP/1.1 ")| == 9 && |Ascii("\r\n")| == 2 && |Ascii(":")| == 1
    ensures |Ascii("content-length")| == 14
  {}

  lemma Bounds()
    ensures Pow2(10) == 1024 && Pow2(64) == 0x1_0000_0000_0000_0000
  {
    Pow2Word();
    Doubled(32, 8);
    Doubled(40, 8);
    Doubled(48, 8);
    Doubled(56, 8);
    Doubled(8, 2);
  }

  lemma {:induction false} Doubled(n: nat, k: nat)
    ensures Pow2(n + k) == Pow2(n) * Pow2(k)
  {
    if k > 0 {
      Doubled(n, k - 1);
      assert Pow2(n + k) == 2 * Pow2(n + (k - 1));
    }
  }
}
