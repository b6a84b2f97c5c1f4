/** The head and the body taken from a connection that delivers its bytes in
    arbitrary pieces. */
module Transport {
  import opened Bytes
  import opened HeadGrammar
  import opened HeadParsing

  const READ_CHUNK: nat := 256

  datatype FetchError = ReadFailed | Closed | Head(error: HeadError)

  /** What becomes of one read: about `size` bytes, or an error or a timeout. */
  datatype ReadFate = Delivers(size: nat) | Breaks

  /** An open connection. `incoming` is what the peer still has to say; a read takes
      some of its first bytes, none only at the end of the stream, or fails. */
  class Link {
    var incoming: seq<byte>
    /** What every read delivers, and how many there were. */
    const plan: nat -> ReadFate
    var tick: nat

    constructor (stream: seq<byte>, plan: nat -> ReadFate)
      ensures incoming == stream && this.plan == plan && tick == 0
    {
      incoming, this.plan, tick := stream, plan, 0;
    }

    /** Every read from the `from`th up to the `to`th works. */
    ghost predicate NoFault(from: nat, to: nat) {
      forall t :: from <= t < to ==> plan(t).Delivers?
    }

    lemma NoFaultJoins(a: nat, b: nat, c: nat)
      requires a <= b <= c
      ensures NoFault(a, c) <==> NoFault(a, b) && NoFault(b, c)
      ensures NoFault(a, a)
    {}

    method Read(max: nat) returns (r: Option<seq<byte>>)
      modifies this
      ensures tick == old(tick) + 1 && (r.Some? <==> NoFault(old(tick), tick))
      ensures r.Some? ==> |r.value| <= max && r.value + incoming == old(incoming)
      ensures r.Some? && r.value == [] && max > 0 ==> incoming == []
      ensures r.None? ==> incoming == old(incoming)
    {
      var d := plan(tick);
      tick := tick + 1;
      if d.Breaks? {
        return None;
      }
      var most := if max <= |incoming| then max else |incoming|;
      var n := if d.size > most then most else if d.size == 0 && most > 0 then 1 else d.size;
      r := Some(incoming[..n]);
      incoming := incoming[n..];
    }
  }

  lemma {:induction false} VerdictStandsLong(s: seq<byte>, more: seq<byte>, e: HeadEvent, consumed: nat)
    requires IsVerdict(s, e, consumed) && e != NeedMore
    ensures IsVerdict(s + more, e, consumed)
    decreases |more|
  {
    hide IsVerdict;
    if more == [] {
      assert s + more == s;
    } else {
      VerdictStands(s, more[0], e, consumed);
      assert s + more == s + [more[0]] + more[1..];
      VerdictStandsLong(s + [more[0]], more[1..], e, consumed);
    }
  }

  lemma AnswersVerdict(parser: HeadParser)
    requires parser.Valid()
    ensures IsVerdict(parser.fed, parser.Event(), parser.total)
  {}

  /** Pushes the bytes of one read until the parser decides. */
  method FeedChunk(parser: HeadParser, buf: seq<byte>) returns (i: nat, event: HeadEvent)
    requires parser.Valid() && parser.terminal.None? && buf != []
    modifies parser, parser.line
    ensures parser.Valid() && event == parser.Event() && i < |buf| && parser.fed == old(parser.fed) + buf[..i + 1]
    ensures event == NeedMore ==> i + 1 == |buf|
    ensures parser.total == |parser.fed| && IsVerdict(parser.fed, event, parser.total)
    ensures event == NeedMore ==> parser.terminal.None?
  {
    hide IsVerdict, HeadParser.Tracks;
    i := 0;
    while true
      invariant 0 <= i < |buf| && parser.Valid() && parser.terminal.None?
      invariant parser.fed == old(parser.fed) + buf[..i]
      decreases |buf| - i
    {
      event := parser.Push(buf[i]);
      assert buf[..i + 1] == buf[..i] + [buf[i]];
      if event != NeedMore || i + 1 == |buf| {
        return;
      }
      i := i + 1;
    }
  }

  /** Feeds every byte read to the head parser until it decides. Whatever the
      pieces, the outcome is the verdict on the peer's whole stream, and what was
      read past the head goes to `leftover`: together with what is still to come
      it is exactly the stream after the head. */
  method Get(link: Link, leftover: array<byte>)
    returns (r: Result<(ResponseHead, nat), FetchError>, ghost consumed: nat)
    requires leftover.Length == READ_CHUNK
    modifies link, leftover
    ensures old(link.tick) <= link.tick && (r == Err(ReadFailed) <==> !link.NoFault(old(link.tick), link.tick))
    ensures r.Ok? ==>
              && consumed <= |old(link.incoming)| && r.value.1 <= READ_CHUNK
              && IsVerdict(old(link.incoming), Complete(r.value.0), consumed)
              && leftover[..r.value.1] + link.incoming == old(link.incoming)[consumed..]
    ensures r.Err? && r.error.Head? ==> IsVerdict(old(link.incoming), Reject(r.error.error), consumed)
    ensures r == Err(Closed) ==> IsVerdict(old(link.incoming), NeedMore, consumed)
  {
    hide IsVerdict, HeadParser.Tracks, HeadParser.Valid, Link.NoFault;
    var parser := new HeadParser();
    consumed := 0;
    AnswersVerdict(parser);
    ghost var stream, start := link.incoming, link.tick;
    link.NoFaultJoins(start, start, start);
    while true
      invariant parser.Valid() && parser.terminal.None? && fresh(parser) && fresh(parser.line)
      invariant IsVerdict(parser.fed, NeedMore, parser.total)
      invariant parser.fed + link.incoming == stream
      invariant start <= link.tick && link.NoFault(start, link.tick)
      decreases |link.incoming|
    {
      var read := link.Read(READ_CHUNK);
      link.NoFaultJoins(start, link.tick - 1, link.tick);
      if read.None? {
        return Err(ReadFailed), consumed;
      }
      var buf := read.value;
      if |buf| == 0 {
        assert parser.fed == stream;
        return Err(Closed), parser.total;
      }
      ghost var before := parser.fed;
      var i, event := FeedChunk(parser, buf);
      ChunkFed(before, buf, i + 1, link.incoming, stream, event);
      if event != NeedMore {
        consumed := parser.total;
        if event.Reject? {
          return Err(Head(event.error)), consumed;
        }
        // Fewer bytes follow the head's last one than a read can return, so the
        // leftover-overflow error (transport.rs:384-386) cannot occur.
        assert |buf| - i - 1 < leftover.Length;
        Keep(leftover, buf[i + 1..]);
        return Ok((event.head, |buf| - i - 1)), consumed;
      }
    }
  }

  method Keep(leftover: array<byte>, extra: seq<byte>)
    requires |extra| <= leftover.Length
    modifies leftover
    ensures leftover[..|extra|] == extra && leftover[|extra|..] == old(leftover[|extra|..])
  {
    forall k | 0 <= k < |extra| {
      leftover[k] := extra[k];
    }
  }

  /** The first `n` bytes of a read, fed after `before`: the stream goes on with the others,
      and a verdict on the bytes fed is one on the whole stream. */
  lemma ChunkFed(before: seq<byte>, buf: seq<byte>, n: nat, incoming: seq<byte>, stream: seq<byte>, event: HeadEvent)
    requires n <= |buf| && stream == before + (buf + incoming)
    requires IsVerdict(before + buf[..n], event, |before + buf[..n]|)
    ensures var fed := before + buf[..n];
            && stream == fed + (buf[n..] + incoming) && stream[|fed|..] == buf[n..] + incoming
            && (event != NeedMore ==> IsVerdict(stream, event, |fed|))
            && (n == |buf| ==> stream == fed + incoming)
  {
    hide IsVerdict;
    var fed := before + buf[..n];
    assert buf == buf[..n] + buf[n..];
    assert stream == fed + (buf[n..] + incoming);
    if event != NeedMore {
      VerdictStandsLong(fed, buf[n..] + incoming, event, |fed|);
    }
  }

  /** The body: what was read past the head first, then the connection. */
  class HttpBody {
    const link: Link
    var leftover: seq<byte>

    constructor (link: Link, leftover: seq<byte>)
      ensures this.link == link && this.leftover == leftover
    {
      this.link, this.leftover := link, leftover;
    }

    function Remaining(): seq<byte>
      reads this, link
    {
      leftover + link.incoming
    }

    method Read(max: nat) returns (r: Option<seq<byte>>)
      modifies this, link
      ensures old(link.tick) <= link.tick && (r.Some? <==> link.NoFault(old(link.tick), link.tick))
      ensures r.Some? ==> |r.value| <= max && r.value + Remaining() == old(Remaining())
      ensures r.Some? && r.value == [] && max > 0 ==> Remaining() == []
      ensures r.None? ==> Remaining() == old(Remaining())
    {
      if |leftover| > 0 {
        var n := if max <= |leftover| then max else |leftover|;
        r := Some(leftover[..n]);
        assert leftover == leftover[..n] + leftover[n..];
        leftover := leftover[n..];
        return;
      }
      r := link.Read(max);
    }
  }
}
