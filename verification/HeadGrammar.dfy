/** What an HTTP response head says, read as a whole: lines, fields and the
    first verdict among them (RFC 7230, sections 3.1.2, 3.3.2 and 3.5). */
module HeadGrammar {
  import opened Bytes
  import opened Text

  const MAX_HEAD_BYTES: nat := 2048
  const LF: byte := 10
  const CR: byte := 13
  const SP: byte := 32
  const COLON: byte := 58

  datatype ResponseHead = ResponseHead(status: nat, contentLength: Option<nat>)

  datatype HeadError =
    | MalformedStatusLine
    | TooFewStatusTokens
    | NonNumericStatus
    | UnexpectedStatus
    | TransferEncodingError
    | MissingContentLength
    | DuplicateContentLength
    | MalformedHeader
    | OversizedHeader

  datatype HeadEvent = NeedMore | Complete(head: ResponseHead) | Reject(error: HeadError)

  // ----- lines -----

  datatype Lines = Lines(complete: seq<seq<byte>>, rest: seq<byte>)

  /** The LF-terminated lines of a byte string and the unterminated rest. */
  function Split(w: seq<byte>): Lines {
    if w == [] then Lines([], [])
    else
      var before := Split(w[..|w| - 1]);
      var b := w[|w| - 1];
      if b == LF then Lines(before.complete + [before.rest], [])
      else Lines(before.complete, before.rest + [b])
  }

  /** Lines put back together, each with its LF. */
  function Joined(lines: seq<seq<byte>>): seq<byte> {
    if lines == [] then [] else Joined(lines[..|lines| - 1]) + lines[|lines| - 1] + [LF]
  }

  /** Splitting loses nothing, and no LF is left inside a line. */
  lemma {:induction false} SplitJoins(w: seq<byte>)
    ensures var ls := Split(w);
            && Joined(ls.complete) + ls.rest == w
            && LF !in ls.rest
            && (forall i :: 0 <= i < |ls.complete| ==> LF !in ls.complete[i])
  {
    if w == [] {
    } else {
      var before := Split(w[..|w| - 1]);
      SplitJoins(w[..|w| - 1]);
      assert w == w[..|w| - 1] + [w[|w| - 1]];
      if w[|w| - 1] == LF {
        assert (before.complete + [before.rest])[..|before.complete|] == before.complete;
      }
    }
  }

  lemma SplitSnoc(w: seq<byte>, b: byte)
    ensures Split(w + [b]) == if b == LF then Lines(Split(w).complete + [Split(w).rest], [])
                              else Lines(Split(w).complete, Split(w).rest + [b])
  {
    assert (w + [b])[..|w|] == w;
  }

  /** A line without its optional CR. */
  function Strip(line: seq<byte>): seq<byte> {
    if line != [] && line[|line| - 1] == CR then line[..|line| - 1] else line
  }

  // ----- one line -----

  function UpTo(s: seq<byte>, b: byte): (t: seq<byte>)
    ensures t <= s && b !in t && (|t| < |s| ==> s[|t|] == b)
  {
    if s == [] || s[0] == b then [] else [s[0]] + UpTo(s[1..], b)
  }

  lemma UpToAt(s: seq<byte>, b: byte, n: nat)
    requires n <= |s| && b !in s[..n] && (n < |s| ==> s[n] == b)
    ensures UpTo(s, b) == s[..n]
  {
  }

  /** Version, one space, a decimal code of at most 16 bits up to the next space. */
  function StatusLine(line: seq<byte>): Result<nat, HeadError> {
    if !(Ascii("HTTP/1.0 ") <= line || Ascii("HTTP/1.1 ") <= line) then Err(MalformedStatusLine)
    else if forall i :: 9 <= i < |line| ==> line[i] == SP then Err(TooFewStatusTokens)
    else
      var code := UpTo(line[9..], SP);
      if IsNumber(code) && Decimal(code) <= 0xFFFF then Ok(Decimal(code)) else Err(NonNumericStatus)
  }

  datatype Field = Encoding | Length(value: nat) | Other

  function HeaderLine(line: seq<byte>): Result<Field, HeadError> {
    var raw := UpTo(line, COLON);
    if |raw| == |line| then Err(MalformedHeader)
    else
      var name, value := Trim(raw), Trim(line[|raw| + 1..]);
      if EqIgnoreCase(name, Ascii("transfer-encoding")) then Ok(Encoding)
      else if !EqIgnoreCase(name, Ascii("content-length")) then Ok(Other)
      else if IsNumber(value) && Decimal(value) <= 0xFFFF_FFFF_FFFF_FFFF then Ok(Length(Decimal(value)))
      else Err(MalformedHeader)
  }

  // ----- the whole head -----

  /** The field of the `i`-th line. */
  function FieldAt(lines: seq<seq<byte>>, i: nat): Result<Field, HeadError>
    requires i < |lines|
  {
    HeaderLine(Strip(lines[i]))
  }

  /** A Transfer-Encoding field among the header lines before line `i`. */
  predicate HasEncoding(lines: seq<seq<byte>>, i: nat)
    requires i <= |lines|
  {
    exists j :: 1 <= j < i && FieldAt(lines, j) == Ok(Encoding)
  }

  /** The content length among the header lines before line `i`. */
  function LengthBefore(lines: seq<seq<byte>>, i: nat): Option<nat>
    requires i <= |lines|
  {
    if i <= 1 then None
    else
      var f := FieldAt(lines, i - 1);
      if f.Ok? && f.value.Length? then Some(f.value.value) else LengthBefore(lines, i - 1)
  }

  /** The blank line: encoding, then status, then length are judged. */
  function BlankLine(status: nat, encoded: bool, length: Option<nat>): (e: HeadEvent)
    ensures e != NeedMore
  {
    if encoded then Reject(TransferEncodingError)
    else if !(200 <= status <= 299) && status != 404 then Reject(UnexpectedStatus)
    else if length.None? && status != 404 then Reject(MissingContentLength)
    else Complete(ResponseHead(status, length))
  }

  /** What line `i` settles, given the lines before it; nothing for an ordinary line. */
  function LineVerdict(lines: seq<seq<byte>>, i: nat): HeadEvent
    requires i < |lines|
  {
    var status := StatusLine(Strip(lines[0]));
    if i == 0 then if status.Err? then Reject(status.error) else NeedMore
    else if Strip(lines[i]) == [] then
      BlankLine(if status.Ok? then status.value else 0, HasEncoding(lines, i), LengthBefore(lines, i))
    else
      var f := FieldAt(lines, i);
      if f.Err? then Reject(f.error)
      else if f.value.Length? && LengthBefore(lines, i).Some? then Reject(DuplicateContentLength)
      else NeedMore
  }

  ghost predicate NothingSettled(lines: seq<seq<byte>>, n: nat)
    requires n <= |lines|
  {
    forall k :: 0 <= k < n ==> LineVerdict(lines, k) == NeedMore
  }

  function HeadBytes(s: seq<byte>): seq<byte> {
    if |s| <= MAX_HEAD_BYTES then s else s[..MAX_HEAD_BYTES]
  }

  /** Line `i` is the first to settle anything, and settles `e`. */
  ghost predicate SettledBy(lines: seq<seq<byte>>, i: nat, e: HeadEvent, consumed: nat) {
    && i < |lines| && NothingSettled(lines, i)
    && e == LineVerdict(lines, i) && e != NeedMore
    && consumed == |Joined(lines[..i + 1])|
  }

  /** The verdict on the bytes `s`: the first line of the 2048-byte window that
      settles anything does, through its LF; failing that the head is oversized
      at its next byte, or incomplete. */
  ghost predicate IsVerdict(s: seq<byte>, e: HeadEvent, consumed: nat) {
    var lines := Split(HeadBytes(s)).complete;
    if NothingSettled(lines, |lines|) then
      if |s| <= MAX_HEAD_BYTES then e == NeedMore && consumed == |s|
      else e == Reject(OversizedHeader) && consumed == MAX_HEAD_BYTES + 1
    else exists i :: SettledBy(lines, i, e, consumed)
  }

  lemma SettledByUnique(lines: seq<seq<byte>>, i: nat, e: HeadEvent, n: nat, j: nat, f: HeadEvent, m: nat)
    requires SettledBy(lines, i, e, n) && SettledBy(lines, j, f, m)
    ensures e == f && n == m
  {
    hide LineVerdict, Joined;
    assert i == j;
  }

  lemma {:induction false} FirstSettled(lines: seq<seq<byte>>, n: nat) returns (i: nat)
    requires n <= |lines| && !NothingSettled(lines, n)
    ensures i < n && NothingSettled(lines, i) && LineVerdict(lines, i) != NeedMore
  {
    hide LineVerdict;
    if NothingSettled(lines, n - 1) {
      i := n - 1;
    } else {
      i := FirstSettled(lines, n - 1);
    }
  }

  /** Every byte string has a verdict. */
  lemma VerdictExists(s: seq<byte>)
    ensures exists e, n :: IsVerdict(s, e, n)
  {
    hide LineVerdict, Joined;
    var lines := Split(HeadBytes(s)).complete;
    if NothingSettled(lines, |lines|) {
      var (e, n) := if |s| <= MAX_HEAD_BYTES then (NeedMore, |s|) else (Reject(OversizedHeader), MAX_HEAD_BYTES + 1);
      assert IsVerdict(s, e, n);
    } else {
      var i := FirstSettled(lines, |lines|);
      var n := |Joined(lines[..i + 1])|;
      assert SettledBy(lines, i, LineVerdict(lines, i), n);
      assert IsVerdict(s, LineVerdict(lines, i), n);
    }
  }

  /** And no more than one. */
  lemma VerdictUnique(s: seq<byte>, e: HeadEvent, n: nat, f: HeadEvent, m: nat)
    requires IsVerdict(s, e, n) && IsVerdict(s, f, m)
    ensures e == f && n == m
  {
    hide LineVerdict, Joined;
    var lines := Split(HeadBytes(s)).complete;
    if !NothingSettled(lines, |lines|) {
      var i :| SettledBy(lines, i, e, n);
      var j :| SettledBy(lines, j, f, m);
      SettledByUnique(lines, i, e, n, j, f, m);
    }
  }

  /** Only a 404 response is accepted without a content length. */
  lemma LengthUnlessMissing(s: seq<byte>, head: ResponseHead, n: nat)
    requires IsVerdict(s, Complete(head), n)
    ensures head.contentLength.Some? || head.status == 404
  {
    hide Split, Joined;
    var lines := Split(HeadBytes(s)).complete;
    if !NothingSettled(lines, |lines|) {
      var i :| SettledBy(lines, i, Complete(head), n);
      assert LineVerdict(lines, i) == Complete(head);
    }
  }

  // ----- verdicts look only backwards -----

  lemma {:induction false} LengthBeforePrefix(lines: seq<seq<byte>>, more: seq<seq<byte>>, i: nat)
    requires i <= |lines|
    ensures LengthBefore(lines + more, i) == LengthBefore(lines, i)
    decreases i
  {
    hide HeaderLine, Strip;
    if i <= 1 {
    } else {
      assert (lines + more)[i - 1] == lines[i - 1];
      LengthBeforePrefix(lines, more, i - 1);
    }
  }

  lemma LineVerdictPrefix(lines: seq<seq<byte>>, more: seq<seq<byte>>, i: nat)
    requires i < |lines|
    ensures LineVerdict(lines + more, i) == LineVerdict(lines, i)
  {
    hide HeaderLine, StatusLine, Strip, LengthBefore, BlankLine;
    LengthBeforePrefix(lines, more, i);
    var all := lines + more;
    assert forall j :: 0 <= j < i ==> all[j] == lines[j];
    assert forall j :: 1 <= j < i ==> FieldAt(all, j) == FieldAt(lines, j);
    assert HasEncoding(all, i) == HasEncoding(lines, i);
  }

  lemma NothingSettledPrefix(lines: seq<seq<byte>>, more: seq<seq<byte>>, n: nat)
    requires n <= |lines|
    ensures NothingSettled(lines + more, n) <==> NothingSettled(lines, n)
  {
    forall k | 0 <= k < n
      ensures LineVerdict(lines + more, k) == LineVerdict(lines, k)
    {
      LineVerdictPrefix(lines, more, k);
    }
  }

  lemma SettledByPrefix(lines: seq<seq<byte>>, more: seq<seq<byte>>, i: nat, e: HeadEvent, consumed: nat)
    requires SettledBy(lines, i, e, consumed)
    ensures SettledBy(lines + more, i, e, consumed) && !NothingSettled(lines + more, |lines + more|)
  {
    NothingSettledPrefix(lines, more, i);
    LineVerdictPrefix(lines, more, i);
    assert (lines + more)[..i + 1] == lines[..i + 1];
    assert LineVerdict(lines + more, i) != NeedMore;
  }

  /** Once settled, a verdict stands however the stream goes on. */
  lemma VerdictStands(s: seq<byte>, b: byte, e: HeadEvent, consumed: nat)
    requires IsVerdict(s, e, consumed) && e != NeedMore
    ensures IsVerdict(s + [b], e, consumed)
  {
    var lines := Split(HeadBytes(s)).complete;
    if |s| >= MAX_HEAD_BYTES {
      assert HeadBytes(s + [b]) == HeadBytes(s);
    } else {
      SplitSnoc(s, b);
      var i :| SettledBy(lines, i, e, consumed);
      if b == LF {
        SettledByPrefix(lines, [Split(s).rest], i, e, consumed);
      }
    }
  }
}
