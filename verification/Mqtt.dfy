/** The framing of the MQTT client: what `_publish` writes and `wait_msg` reads
    (sections 2.2.3, 3.3, 3.4, 3.9, 3.11 and 3.13 of MQTT 3.1.1). */
module Mqtt {
  import opened Bytes

  const LENGTH_LIMIT: nat := 2097152

  // ----- bitwise or -----

  function Or(a: nat, b: nat): nat
    decreases a + b
  {
    if a == 0 && b == 0 then 0
    else (if a % 2 == 1 || b % 2 == 1 then 1 else 0) + 2 * Or(a / 2, b / 2)
  }

  lemma {:induction false} OrZero(b: nat)
    ensures Or(0, b) == b
  {
    if b == 0 {
    } else {
      OrZero(b / 2);
    }
  }

  lemma {:induction false} OrCommutes(a: nat, b: nat)
    ensures Or(a, b) == Or(b, a)
    decreases a + b
  {
    if a + b == 0 {
    } else {
      OrCommutes(a / 2, b / 2);
    }
  }

  /** Or is addition while the new bits lie above the old ones. */
  lemma {:induction false} OrAbove(a: nat, b: nat, shift: nat)
    requires a < Pow2(shift)
    ensures Or(a, b * Pow2(shift)) == a + b * Pow2(shift)
    decreases shift
  {
    if shift == 0 {
      OrZero(b);
    } else {
      var half := b * Pow2(shift - 1);
      assert b * Pow2(shift) == 2 * half;
      OrAbove(a / 2, b, shift - 1);
      assert (2 * half) / 2 == half;
    }
  }

  lemma SevenBits(shift: nat)
    ensures Pow2(shift + 7) == 128 * Pow2(shift)
  {
    assert Pow2(shift + 2) == 4 * Pow2(shift);
    assert Pow2(shift + 4) == 4 * Pow2(shift + 2);
    assert Pow2(shift + 6) == 4 * Pow2(shift + 4);
  }

  /** One step of the length loop, the remaining digits standing for `more`. */
  lemma SevenMore(value: nat, shift: nat, digit: nat, more: nat)
    requires value < Pow2(shift) && digit < 128
    ensures Or(value, digit * Pow2(shift)) < Pow2(shift + 7)
    ensures Or(value, digit * Pow2(shift)) + Pow2(shift + 7) * more == value + Pow2(shift) * (digit + 128 * more)
  {
    hide Or, Pow2;
    OrAbove(value, digit, shift);
    SevenBits(shift);
    var p := Pow2(shift);
    assert digit * p <= 127 * p;
    assert (128 * p) * more == p * (128 * more);
    assert p * (digit + 128 * more) == p * digit + p * (128 * more);
  }

  // ----- the variable-length Remaining Length -----

  function Varint(n: nat): (s: seq<byte>)
    ensures s != []
  {
    if n > 127 then [n % 128 + 128] + Varint(n / 128) else [n]
  }

  lemma VarintCases(n: nat)
    ensures Varint(n) == if n > 127 then [n % 128 + 128] + Varint(n / 128) else [n]
  {}

  lemma VarintNext(digits: seq<byte>, n: nat)
    requires n > 127
    ensures digits + Varint(n) == (digits + [n % 128 + 128]) + Varint(n / 128)
    ensures |Varint(n)| == 1 + |Varint(n / 128)|
  {}

  lemma Snoc(first: byte, digits: seq<byte>, last: byte)
    ensures ([first] + digits) + [last] == [first] + (digits + [last])
  {}

  /** The value of a length field and the bytes after it: seven bits a byte, least
      significant first, up to the first byte below 128. */
  function ReadVarint(s: seq<byte>): (r: Option<(nat, seq<byte>)>)
    ensures r.Some? ==> |r.value.1| < |s|
  {
    if s == [] then None
    else if s[0] < 128 then Some((s[0], s[1..]))
    else
      var more := ReadVarint(s[1..]);
      if more.Some? then Some((s[0] % 128 + 128 * more.value.0, more.value.1)) else None
  }

  lemma {:induction false} ReadVarintInverts(n: nat, rest: seq<byte>)
    ensures ReadVarint(Varint(n) + rest) == Some((n, rest))
    decreases n
  {
    var s := Varint(n) + rest;
    if n > 127 {
      ReadVarintInverts(n / 128, rest);
      assert s[1..] == Varint(n / 128) + rest;
    } else {
      assert s[1..] == rest;
    }
  }

  /** What bytes of seven bits each stand for, least significant first (section 2.2.3). */
  function Septets(s: seq<byte>): nat {
    if s == [] then 0 else s[0] % 128 + 128 * Septets(s[1..])
  }

  /** The length field is the number in base 128; all of its bytes but the last have bit 7 set. */
  lemma {:induction false} VarintSpells(n: nat)
    ensures var s := Varint(n);
            && Septets(s) == n && s[|s| - 1] < 128
            && forall i :: 0 <= i < |s| - 1 ==> s[i] >= 128
    decreases n
  {
    if n > 127 {
      var more := Varint(n / 128);
      VarintSpells(n / 128);
      assert Varint(n)[1..] == more;
      assert forall i :: 1 <= i < |Varint(n)| ==> Varint(n)[i] == more[i - 1];
    } else {
      assert [n as byte][1..] == [];
    }
  }

  /** The ends of the ranges of one, two and three bytes. */
  lemma VarintRanges()
    ensures Varint(0x7F) == [0x7F] && Varint(0x80) == [0x80, 0x01]
    ensures Varint(0x3FFF) == [0xFF, 0x7F] && Varint(0x4000) == [0x80, 0x80, 0x01]
    ensures Varint(0x1F_FFFF) == [0xFF, 0xFF, 0x7F]
  {}

  /** Part-way through a length field: what is still to come extends `value` from bit `shift` on. */
  predicate Resumes(all: Option<(nat, seq<byte>)>, value: nat, shift: nat, s: seq<byte>) {
    var here := ReadVarint(s);
    && value < Pow2(shift)
    && all == if here.Some? then Some((value + Pow2(shift) * here.value.0, here.value.1)) else None
  }

  lemma ResumesFirst(s: seq<byte>)
    ensures Resumes(ReadVarint(s), 0, 0, s)
  {}

  lemma ResumesEmpty(all: Option<(nat, seq<byte>)>, value: nat, shift: nat)
    requires Resumes(all, value, shift, [])
    ensures all == None
  {}

  lemma ResumesNext(all: Option<(nat, seq<byte>)>, value: nat, shift: nat, s: seq<byte>)
    requires s != [] && Resumes(all, value, shift, s)
    ensures var next := Or(value, s[0] % 128 * Pow2(shift));
            if s[0] < 128 then all == Some((next, s[1..])) else Resumes(all, next, shift + 7, s[1..])
  {
    hide Or, Pow2;
    var more := ReadVarint(s[1..]);
    SevenMore(value, shift, s[0] % 128, if s[0] >= 128 && more.Some? then more.value.0 else 0);
  }

  /** Up to `_publish`'s limit the field takes at most three of the header's four bytes. */
  lemma VarintLength(n: nat)
    ensures |Varint(n)| <= 3 <==> n < LENGTH_LIMIT
  {
    var n1, n2, n3 := n / 128, n / 128 / 128, n / 128 / 128 / 128;
    assert n < LENGTH_LIMIT <==> n2 <= 127;
    if n > 127 && n1 > 127 {
      assert |Varint(n)| == 2 + |Varint(n2)|;
    }
  }

  // ----- packets -----

  datatype Publication =
    Publication(topic: seq<byte>, payload: seq<byte>, retain: bool, qos: nat, dup: bool, pid: nat)
  {
    /** What the two bits of the service level and the identifier field can carry. */
    predicate Fits() {
      qos <= 3 && pid < 65536
    }

    function Remaining(): nat {
      2 + |topic| + |payload| + if qos > 0 then 2 else 0
    }

    function Flags(): (f: byte)
      requires qos <= 3
    {
      48 + (if dup then 8 else 0) + 2 * qos + if retain then 1 else 0
    }
  }

  datatype Delivery = Delivery(topic: seq<byte>, payload: seq<byte>, retained: bool)

  /** A big-endian two-byte field. */
  function U16(n: nat): (s: seq<byte>)
    requires n < 65536
    ensures |s| == 2
  {
    [n / 256, n % 256]
  }

  function ReadU16(s: seq<byte>): (n: nat)
    requires |s| >= 2
    ensures n < 65536
  {
    s[0] as int * 256 + s[1]
  }

  /** The first byte and the Remaining Length. */
  function Header(p: Publication): seq<byte>
    requires p.Fits()
  {
    [p.Flags()] + Varint(p.Remaining())
  }

  /** A whole PUBLISH packet. The topic's length goes into its field modulo 65536. */
  function Wire(p: Publication): seq<byte>
    requires p.Fits()
  {
    Header(p) + U16(|p.topic| % 65536) + p.topic + (if p.qos > 0 then U16(p.pid) else []) + p.payload
  }

  function Puback(pid: nat): seq<byte>
    requires pid < 65536
  {
    [0x40, 2] + U16(pid)
  }

  // ----- one incoming packet -----

  /** What handling a packet does. `ok` is false where the client raises an error,
      and `rest` is what it has not read by then. */
  datatype Reaction = Reaction(ok: bool, rest: seq<byte>, delivered: seq<Delivery>, reply: seq<byte>, pids: set<nat>)

  function GiveUp(rest: seq<byte>, pids: set<nat>): Reaction {
    Reaction(false, rest, [], [], pids)
  }

  /** Only a pending identifier can be acknowledged. */
  function Settle(pid: nat, rest: seq<byte>, pids: set<nat>): Reaction {
    if pid in pids then Reaction(true, rest, [], [], pids - {pid}) else GiveUp(rest, pids)
  }

  function HandlePuback(s: seq<byte>, pids: set<nat>): Reaction {
    if s == [] then GiveUp([], pids)
    else if s[0] != 2 then GiveUp(s[1..], pids)
    else if |s| < 3 then GiveUp([], pids)
    else Settle(ReadU16(s[1..]), s[3..], pids)
  }

  function HandleSuback(s: seq<byte>, pids: set<nat>): Reaction {
    if |s| < 4 then GiveUp([], pids)
    else if s[3] == 0x80 then GiveUp(s[4..], pids)
    else Settle(ReadU16(s[1..]), s[4..], pids)
  }

  function HandleUnsuback(s: seq<byte>, pids: set<nat>): Reaction {
    if |s| < 3 then GiveUp([], pids) else Settle(ReadU16(s[1..]), s[3..], pids)
  }

  function HandlePublish(op: byte, s: seq<byte>, pids: set<nat>): Reaction {
    var length := ReadVarint(s);
    if length.None? || |length.value.1| < 2 then GiveUp([], pids)
    else
      var (topicLength, s1) := (ReadU16(length.value.1), length.value.1[2..]);
      if |s1| < topicLength then GiveUp([], pids)
      else HandleMessage(op, s1[..topicLength], length.value.0 - (topicLength + 2), s1[topicLength..], pids)
  }

  /** The rest of a publication after its topic: an identifier unless its level is 0, and the payload. */
  function HandleMessage(op: byte, topic: seq<byte>, left: int, s: seq<byte>, pids: set<nat>): Reaction {
    if op / 2 % 4 == 0 then HandlePayload(op, topic, left, 0, s, pids)
    else if |s| < 2 then GiveUp([], pids)
    else HandlePayload(op, topic, left - 2, ReadU16(s), s[2..], pids)
  }

  function HandlePayload(op: byte, topic: seq<byte>, left: int, pid: nat, s: seq<byte>, pids: set<nat>): Reaction
    requires pid < 65536
  {
    if left < 0 then GiveUp(s, pids)
    else if |s| < left then GiveUp([], pids)
    else
      var level := op / 2 % 4;
      Reaction(level != 2, s[left..], [Delivery(topic, s[..left], op % 2 == 1)],
               if level == 1 then Puback(pid) else [], pids)
  }

  /** `closed` says whether the peer has closed the connection after these bytes. */
  function Handle(s: seq<byte>, closed: bool, pids: set<nat>): Reaction {
    if s == [] then Reaction(!closed, s, [], [], pids)
    else
      var (op, more) := (s[0], s[1..]);
      if op == 0xD0 then if more == [] then GiveUp([], pids) else Reaction(true, more[1..], [], [], pids)
      else if op == 0x40 then HandlePuback(more, pids)
      else if op == 0x90 then HandleSuback(more, pids)
      else if op == 0xB0 then HandleUnsuback(more, pids)
      else if op / 16 != 3 then Reaction(true, more, [], [], pids)
      else HandlePublish(op, more, pids)
  }

  /** What a publication is to its receiver. */
  function Received(p: Publication): Delivery {
    Delivery(p.topic, p.payload, p.retain)
  }

  lemma ReadU16Prefix(s: seq<byte>)
    requires |s| >= 2
    ensures ReadU16(s) == ReadU16(s[..2])
  {}

  lemma U16Inverts(n: nat, rest: seq<byte>)
    requires n < 65536
    ensures ReadU16(U16(n) + rest) == n && (U16(n) + rest)[2..] == rest
  {}

  lemma FlagsRead(p: Publication)
    requires p.Fits()
    ensures p.Flags() / 2 % 4 == p.qos && p.Flags() / 16 == 3 && (p.Flags() % 2 == 1 <==> p.retain)
  {}

  function AfterTopic(p: Publication, rest: seq<byte>): seq<byte>
    requires p.Fits()
  {
    (if p.qos > 0 then U16(p.pid) else []) + (p.payload + rest)
  }

  /** The part of a packet after its Remaining Length, and what follows it. */
  function Body(p: Publication, rest: seq<byte>): seq<byte>
    requires p.Fits()
  {
    U16(|p.topic| % 65536) + (p.topic + AfterTopic(p, rest))
  }

  lemma WireParts(p: Publication, rest: seq<byte>, closed: bool, pids: set<nat>)
    requires p.Fits()
    ensures Handle(Wire(p) + rest, closed, pids)
         == HandlePublish(p.Flags(), Varint(p.Remaining()) + Body(p, rest), pids)
  {
    hide Varint, U16, HandlePublish, Publication.Flags;
    var s := Wire(p) + rest;
    assert s == [p.Flags()] + (Varint(p.Remaining()) + Body(p, rest));
    assert s[1..] == Varint(p.Remaining()) + Body(p, rest);
    FlagsRead(p);
  }

  lemma MessageReceived(p: Publication, rest: seq<byte>, pids: set<nat>)
    requires p.Fits()
    ensures HandleMessage(p.Flags(), p.topic, p.Remaining() - (|p.topic| + 2), AfterTopic(p, rest), pids)
         == Reaction(p.qos != 2, rest, [Received(p)], if p.qos == 1 then Puback(p.pid) else [], pids)
  {
    hide U16, ReadU16, Puback, Publication.Flags;
    FlagsRead(p);
    var s := p.payload + rest;
    assert s[..|p.payload|] == p.payload && s[|p.payload|..] == rest;
    if p.qos > 0 {
      U16Inverts(p.pid, s);
    } else {
      assert AfterTopic(p, rest) == s;
    }
  }

  lemma BodyReceived(p: Publication, rest: seq<byte>, pids: set<nat>)
    requires p.Fits() && |p.topic| < 65536
    ensures HandlePublish(p.Flags(), Varint(p.Remaining()) + Body(p, rest), pids)
         == Reaction(p.qos != 2, rest, [Received(p)], if p.qos == 1 then Puback(p.pid) else [], pids)
  {
    hide Varint, ReadVarint, U16, ReadU16, Puback, HandleMessage, AfterTopic, Publication.Flags;
    var s1 := p.topic + AfterTopic(p, rest);
    ReadVarintInverts(p.Remaining(), Body(p, rest));
    U16Inverts(|p.topic|, s1);
    assert s1[..|p.topic|] == p.topic && s1[|p.topic|..] == AfterTopic(p, rest);
    MessageReceived(p, rest, pids);
  }

  /** Handling the first packet of a stream gives back what was published and leaves
      exactly the bytes after it. Level 1 is acknowledged; level 2 is delivered and
      then refused. */
  lemma PublicationReceived(p: Publication, rest: seq<byte>, closed: bool, pids: set<nat>)
    requires p.Fits() && |p.topic| < 65536
    ensures Handle(Wire(p) + rest, closed, pids)
         == Reaction(p.qos != 2, rest, [Received(p)], if p.qos == 1 then Puback(p.pid) else [], pids)
  {
    hide Handle, Wire, HandlePublish, Varint, U16, Puback, Publication.Flags;
    WireParts(p, rest, closed, pids);
    BodyReceived(p, rest, pids);
  }

  lemma LongTopicMisread(p: Publication, rest: seq<byte>, pids: set<nat>)
    requires p.Fits() && |p.topic| >= 65536
    ensures HandlePublish(p.Flags(), Varint(p.Remaining()) + Body(p, rest), pids).delivered != [Received(p)]
  {
    hide Varint, ReadVarint, U16, ReadU16, Puback, Publication.Flags;
    var body := Body(p, rest);
    ReadVarintInverts(p.Remaining(), body);
    U16Inverts(|p.topic| % 65536, body[2..]);
  }

  /** A publication survives the trip exactly when its topic's length fits its field. */
  lemma PublicationReceivedExactly(p: Publication, rest: seq<byte>, closed: bool, pids: set<nat>)
    requires p.Fits()
    ensures Handle(Wire(p) + rest, closed, pids).delivered == [Received(p)] <==> |p.topic| < 65536
  {
    hide Handle, Wire, HandlePublish, Varint, U16, Body, Publication.Flags;
    if |p.topic| < 65536 {
      PublicationReceived(p, rest, closed, pids);
    } else {
      WireParts(p, rest, closed, pids);
      LongTopicMisread(p, rest, pids);
    }
  }

  /** The acknowledgement (section 3.4) settles the sender's identifier, and only a pending one. */
  lemma HandshakeCompletes(p: Publication, rest: seq<byte>, closed: bool, pids: set<nat>)
    requires p.Fits()
    ensures Puback(p.pid) == [0x40, 2, p.pid / 256, p.pid % 256]
    ensures Handle(Puback(p.pid) + rest, closed, pids) == Reaction(p.pid in pids, rest, [], [], pids - {p.pid})
  {
    var s := Puback(p.pid) + rest;
    assert s[1..][1..] == U16(p.pid) + rest;
    assert s[1..][3..] == rest;
  }

  // ----- the other packets of the receiver, as the standard lays them out -----

  /** Section 3.9: the identifier and one return code. */
  function Suback(pid: nat, code: byte): seq<byte>
    requires pid < 65536
  {
    [0x90, 3, pid / 256, pid % 256, code]
  }

  /** Section 3.11. */
  function Unsuback(pid: nat): seq<byte>
    requires pid < 65536
  {
    [0xB0, 2, pid / 256, pid % 256]
  }

  /** A subscription is settled by its own acknowledgement unless the server refused it (code 0x80). */
  lemma SubackSettles(pid: nat, code: byte, rest: seq<byte>, closed: bool, pids: set<nat>)
    requires pid < 65536
    ensures Handle(Suback(pid, code) + rest, closed, pids)
         == if code == 0x80 then Reaction(false, rest, [], [], pids)
            else Reaction(pid in pids, rest, [], [], pids - {pid})
  {
    var s := Suback(pid, code) + rest;
    assert s[0] == 0x90 && s[1..][3] == code && s[1..][4..] == rest;
    assert s[1..][1..][0] == pid / 256 && s[1..][1..][1] == pid % 256;
  }

  lemma UnsubackSettles(pid: nat, rest: seq<byte>, closed: bool, pids: set<nat>)
    requires pid < 65536
    ensures Handle(Unsuback(pid) + rest, closed, pids) == Reaction(pid in pids, rest, [], [], pids - {pid})
  {
    var s := Unsuback(pid) + rest;
    assert s[0] == 0xB0 && s[1..][3..] == rest;
    assert s[1..][1..][0] == pid / 256 && s[1..][1..][1] == pid % 256;
  }

  /** Section 3.13: two bytes that change nothing. */
  lemma PingIsSkipped(rest: seq<byte>, closed: bool, pids: set<nat>)
    ensures Handle([0xD0, 0] + rest, closed, pids) == Reaction(true, rest, [], [], pids)
  {
    var s := [0xD0, 0] + rest;
    assert s[1..][1..] == rest;
  }

  /** Without a byte nothing happens, unless the peer has closed the connection. */
  lemma NothingToRead(closed: bool, pids: set<nat>)
    ensures Handle([], closed, pids) == Reaction(!closed, [], [], [], pids)
  {}

  /** Of any other packet only the first byte is taken. */
  lemma OthersIgnored(op: byte, rest: seq<byte>, closed: bool, pids: set<nat>)
    requires op !in {0x40, 0x90, 0xB0, 0xD0} && !(0x30 <= op <= 0x3F)
    ensures Handle([op] + rest, closed, pids) == Reaction(true, rest, [], [], pids)
  {
    assert ([op] + rest)[1..] == rest;
  }

  /** An acknowledgement that the connection cuts short fails with nothing left and nothing settled. */
  lemma CutAcknowledgement(packet: seq<byte>, n: nat, pid: nat, code: byte, closed: bool, pids: set<nat>)
    requires pid < 65536 && packet in {[0x40, 2, pid / 256, pid % 256], Suback(pid, code), Unsuback(pid), [0xD0, 0]}
    requires 0 < n < |packet|
    ensures Handle(packet[..n], closed, pids) == Reaction(false, [], [], [], pids)
  {
  }

  /** A PUBACK of any other length fails at its length byte. */
  lemma WrongPuback(size: byte, rest: seq<byte>, closed: bool, pids: set<nat>)
    requires size != 2
    ensures Handle([0x40, size] + rest, closed, pids) == Reaction(false, rest, [], [], pids)
  {
    var s := [0x40, size] + rest;
    assert s[1..][0] == size && s[1..][1..] == rest;
  }

  lemma {:induction false} CutVarint(n: nat, k: nat)
    requires k < |Varint(n)|
    ensures ReadVarint(Varint(n)[..k]).None?
    decreases n
  {
    if n > 127 && k > 0 {
      CutVarint(n / 128, k - 1);
      assert Varint(n)[..k][1..] == Varint(n / 128)[..k - 1];
    }
  }

  /** What follows the length of a cut publication is too short for it. */
  lemma CutBody(p: Publication, body: seq<byte>, pids: set<nat>)
    requires p.Fits() && |p.topic| < 65536 && body <= Body(p, []) && body != Body(p, [])
    ensures HandlePublish(p.Flags(), Varint(p.Remaining()) + body, pids) == Reaction(false, [], [], [], pids)
  {
    hide Varint, ReadVarint, ReadU16, Puback, Publication.Flags;
    ReadVarintInverts(p.Remaining(), body);
    FlagsRead(p);
    if |body| >= 2 {
      assert body[..2] == U16(|p.topic|);
      U16Inverts(|p.topic|, body[2..]);
      assert body == U16(|p.topic|) + body[2..];
    }
  }

  /** A publication that the connection cuts short fails: nothing is left of it, and nothing
      is delivered, acknowledged or settled. */
  lemma CutPublication(p: Publication, n: nat, closed: bool, pids: set<nat>)
    requires p.Fits() && |p.topic| < 65536 && 0 < n < |Wire(p)|
    ensures Handle(Wire(p)[..n], closed, pids) == Reaction(false, [], [], [], pids)
  {
    hide Varint, ReadVarint, HandlePublish, Publication.Flags, Body;
    FlagsRead(p);
    WireBody(p);
    var length, s := Varint(p.Remaining()), Wire(p)[..n];
    assert s[0] == p.Flags() && s[1..] == (length + Body(p, []))[..n - 1];
    if n - 1 < |length| {
      CutVarint(p.Remaining(), n - 1);
      assert s[1..] == length[..n - 1];
      NoLength(p.Flags(), s[1..], pids);
    } else {
      assert s[1..] == length + Body(p, [])[..n - 1 - |length|];
      CutBody(p, Body(p, [])[..n - 1 - |length|], pids);
    }
  }

  lemma MessageTooSmall(p: Publication, left: int, rest: seq<byte>, pids: set<nat>)
    requires p.Fits() && left < if p.qos > 0 then 2 else 0
    ensures HandleMessage(p.Flags(), p.topic, left, AfterTopic(p, rest), pids)
         == Reaction(false, p.payload + rest, [], [], pids)
  {
    hide U16, ReadU16, Publication.Flags;
    FlagsRead(p);
    if p.qos > 0 {
      U16Inverts(p.pid, p.payload + rest);
    } else {
      assert AfterTopic(p, rest) == p.payload + rest;
    }
  }

  /** A length that does not even cover the topic and the identifier is an error, found once they are read. */
  lemma LengthTooSmall(p: Publication, size: nat, rest: seq<byte>, closed: bool, pids: set<nat>)
    requires p.Fits() && |p.topic| < 65536 && size < p.Remaining() - |p.payload|
    ensures Handle([p.Flags()] + (Varint(size) + Body(p, rest)), closed, pids)
         == Reaction(false, p.payload + rest, [], [], pids)
  {
    hide Varint, ReadVarint, U16, ReadU16, HandleMessage, AfterTopic, Publication.Flags;
    var s := [p.Flags()] + (Varint(size) + Body(p, rest));
    assert s[1..] == Varint(size) + Body(p, rest);
    FlagsRead(p);
    ReadVarintInverts(size, Body(p, rest));
    var s1 := p.topic + AfterTopic(p, rest);
    U16Inverts(|p.topic|, s1);
    assert s1[..|p.topic|] == p.topic && s1[|p.topic|..] == AfterTopic(p, rest);
    MessageTooSmall(p, size - (|p.topic| + 2), rest, pids);
  }

  lemma WireBody(p: Publication)
    requires p.Fits()
    ensures Wire(p) == [p.Flags()] + (Varint(p.Remaining()) + Body(p, []))
  {
    hide Varint, U16, Publication.Flags;
  }

  lemma NoLength(op: byte, s: seq<byte>, pids: set<nat>)
    requires ReadVarint(s).None?
    ensures HandlePublish(op, s, pids) == Reaction(false, [], [], [], pids)
  {}

  // ----- a publication, as the standard lays it out -----

  /** Section 3.3.1: retain in bit 0, the level in bits 1 and 2, dup in bit 3, type 3 above. */
  lemma FirstByte(p: Publication)
    requires p.Fits()
    ensures Bits(p.Flags(), 8) == [p.retain, p.qos % 2 == 1, p.qos / 2 == 1, p.dup, true, true, false, false]
  {
    var f: nat := p.Flags();
    var d, r := if p.dup then 1 else 0, if p.retain then 1 else 0;
    assert f == 48 + 8 * d + 2 * p.qos + r;
    assert f / 2 == 24 + 4 * d + p.qos && f / 2 / 2 == 12 + 2 * d + p.qos / 2 && f / 2 / 2 / 2 == 6 + d;
    assert Bits(f / 2 / 2, 6) == [f / 2 / 2 % 2 == 1] + Bits(6 + d, 5);
    assert Bits(f / 2, 7) == [f / 2 % 2 == 1] + Bits(f / 2 / 2, 6);
    assert Bits(6 + d, 5) == [d == 1] + Bits(3, 4);
    assert Bits(3, 4) == [true, true, false, false];
  }

  /** Sections 2.2.3 and 3.3.2: the length field counts what follows it: the topic after its
      length, then the identifier except at level 0, both numbers most significant byte first,
      then the payload. */
  lemma PublicationLayout(p: Publication)
    requires p.Fits() && |p.topic| < 65536
    ensures var s := Wire(p); var h := 1 + |Varint(p.Remaining())|; var t := h + 2 + |p.topic|;
            var m := if p.qos == 0 then t else t + 2;
            && |s| == m + |p.payload| && s[0] == p.Flags()
            && Septets(s[1..h]) == |s| - h
            && s[h] as int * 256 + s[h + 1] == |p.topic| && s[h + 2..t] == p.topic
            && (p.qos > 0 ==> s[t] as int * 256 + s[t + 1] == p.pid)
            && s[m..] == p.payload
  {
    hide Varint, Septets, Publication.Flags;
    VarintSpells(p.Remaining());
    var s, v := Wire(p), Varint(p.Remaining());
    assert s[1..1 + |v|] == v;
  }

  /** The four parts of the first byte do not overlap. */
  lemma FlagBits(p: Publication)
    requires p.Fits()
    ensures Or(48, Or(Or(p.qos * 2, if p.retain then 1 else 0), if p.dup then 8 else 0)) == p.Flags()
  {
    hide Or;
    var (q, r, d) := (p.qos, if p.retain then 1 else 0, if p.dup then 1 else 0);
    assert Pow2(1) == 2 && Pow2(3) == 8 && Pow2(4) == 16 by {
      assert Pow2(2) == 4;
    }
    OrCommutes(q * 2, r);
    OrAbove(r, q, 1);
    OrAbove(2 * q + r, d, 3);
    OrCommutes(48, 8 * d + 2 * q + r);
    OrAbove(8 * d + 2 * q + r, 3, 4);
    assert p.Flags() == 48 + 8 * d + 2 * q + r;
  }

  // ----- a stream of packets -----

  /** What `publish` lets through and the receiver can take apart again. */
  predicate Plain(ps: seq<Publication>) {
    forall i :: 0 <= i < |ps| ==> ps[i].Fits() && ps[i].qos <= 1 && |ps[i].topic| < 65536
  }

  function Stream(ps: seq<Publication>): seq<byte>
    requires Plain(ps)
  {
    if ps == [] then []
    else
      assert ps[0].Fits();
      Wire(ps[0]) + Stream(ps[1..])
  }

  function After(delivered: seq<Delivery>, reply: seq<byte>, r: Reaction): Reaction {
    r.(delivered := delivered + r.delivered, reply := reply + r.reply)
  }

  /** `count` packets handled one after the other; the first that fails ends the run. */
  function HandleAll(s: seq<byte>, closed: bool, count: nat, pids: set<nat>): Reaction
    decreases count
  {
    if count == 0 then Reaction(true, s, [], [], pids)
    else
      var first := Handle(s, closed, pids);
      if !first.ok then first
      else After(first.delivered, first.reply, HandleAll(first.rest, closed, count - 1, first.pids))
  }

  function Deliveries(ps: seq<Publication>): seq<Delivery> {
    seq(|ps|, i requires 0 <= i < |ps| => Received(ps[i]))
  }

  function Pubacks(ps: seq<Publication>): seq<byte>
    requires Plain(ps)
  {
    if ps == [] then []
    else
      assert ps[0].Fits();
      (if ps[0].qos == 1 then Puback(ps[0].pid) else []) + Pubacks(ps[1..])
  }

  /** Any run of publications comes out as it went in, packet by packet, and the
      bytes after it are untouched. */
  lemma {:induction false} StreamReceived(ps: seq<Publication>, rest: seq<byte>, closed: bool, pids: set<nat>)
    requires Plain(ps)
    ensures HandleAll(Stream(ps) + rest, closed, |ps|, pids)
         == Reaction(true, rest, Deliveries(ps), Pubacks(ps), pids)
  {
    hide Wire, Handle, Puback, Received, Publication.Fits;
    if ps == [] {
      assert Stream(ps) + rest == rest;
    } else {
      PublicationReceived(ps[0], Stream(ps[1..]) + rest, closed, pids);
      assert Stream(ps) + rest == Wire(ps[0]) + (Stream(ps[1..]) + rest);
      StreamReceived(ps[1..], rest, closed, pids);
      assert Deliveries(ps) == [Received(ps[0])] + Deliveries(ps[1..]);
    }
  }

  /** The first packet that fails ends the run, here one of level 2, which is still delivered;
      whatever comes after it is not read. */
  lemma {:induction false} StreamEnds(ps: seq<Publication>, p: Publication, rest: seq<byte>, closed: bool, more: nat,
                                      pids: set<nat>)
    requires Plain(ps) && p.Fits() && p.qos == 2 && |p.topic| < 65536
    ensures HandleAll(Stream(ps) + (Wire(p) + rest), closed, |ps| + 1 + more, pids)
         == Reaction(false, rest, Deliveries(ps) + [Received(p)], Pubacks(ps), pids)
  {
    hide Wire, Handle, Puback, Received, Publication.Fits;
    if ps == [] {
      assert Stream(ps) + (Wire(p) + rest) == Wire(p) + rest;
      assert Deliveries(ps) + [Received(p)] == [Received(p)];
      PublicationReceived(p, rest, closed, pids);
    } else {
      PublicationReceived(ps[0], Stream(ps[1..]) + (Wire(p) + rest), closed, pids);
      assert Stream(ps) + (Wire(p) + rest) == Wire(ps[0]) + (Stream(ps[1..]) + (Wire(p) + rest));
      StreamEnds(ps[1..], p, rest, closed, more, pids);
      assert Deliveries(ps) == [Received(ps[0])] + Deliveries(ps[1..]);
      assert [Received(ps[0])] + (Deliveries(ps[1..]) + [Received(p)]) == Deliveries(ps) + [Received(p)];
    }
  }

  function Identifiers(ps: seq<Publication>): set<nat> {
    if ps == [] then {} else {ps[0].pid} + Identifiers(ps[1..])
  }

  /** Every one is of level 1 with an identifier of its own. */
  predicate Distinct(ps: seq<Publication>) {
    ps != [] ==> ps[0].qos == 1 && ps[0].pid !in Identifiers(ps[1..]) && Distinct(ps[1..])
  }

  /** The sender settles exactly its level-1 identifiers when the receiver's replies come back. */
  lemma {:induction false} RepliesSettle(ps: seq<Publication>, closed: bool, pids: set<nat>)
    requires Plain(ps) && Distinct(ps) && Identifiers(ps) <= pids
    ensures HandleAll(Pubacks(ps), closed, |ps|, pids) == Reaction(true, [], [], [], pids - Identifiers(ps))
  {
    hide Handle, Puback, Publication.Fits;
    if ps == [] {
      assert pids - {} == pids;
    } else {
      HandshakeCompletes(ps[0], Pubacks(ps[1..]), closed, pids);
      RepliesSettle(ps[1..], closed, pids - {ps[0].pid});
      assert pids - Identifiers(ps) == pids - {ps[0].pid} - Identifiers(ps[1..]);
    }
  }

  lemma Regroup(a: seq<byte>, b: seq<byte>, c: seq<byte>)
    ensures (a + b) + c == a + (b + c)
    ensures c == [] ==> a + b == a + (b + c)
  {}

  // ----- the client -----

  class MqttClient {
    var input: seq<byte>
    var output: seq<byte>
    var received: seq<Delivery>
    var pids: set<nat>

    constructor (input: seq<byte>)
      ensures this.input == input && output == [] && received == [] && pids == {}
    {
      this.input := input;
      output, received, pids := [], [], {};
    }

    /** `_as_read`: exactly `n` bytes; too few are used up before the read fails. */
    method Read(n: int) returns (data: Option<seq<byte>>)
      modifies `input
      ensures data.None? <==> n < 0 || |old(input)| < n
      ensures data.None? ==> input == if n < 0 then old(input) else []
      ensures data.Some? ==> |data.value| == n && old(input) == data.value + input
    {
      if n < 0 {
        return None;
      }
      if |input| < n {
        input := [];
        return None;
      }
      data := Some(input[..n]);
      input := input[n..];
    }

    /** `_recv_len`. */
    method ReceiveLength() returns (n: Option<nat>)
      modifies `input
      ensures n.None? <==> ReadVarint(old(input)).None?
      ensures n.None? ==> input == []
      ensures n.Some? ==> ReadVarint(old(input)) == Some((n.value, input))
    {
      hide Or, Pow2, ReadVarint, Resumes;
      var value: nat, shift: nat := 0, 0;
      ResumesFirst(input);
      while true
        invariant Resumes(ReadVarint(old(input)), value, shift, input)
        decreases |input|
      {
        ghost var here := input;
        var res := Read(1);
        if res.None? {
          ResumesEmpty(ReadVarint(old(input)), value, shift);
          return None;
        }
        assert here[0] == res.value[0] && here[1..] == input;
        ResumesNext(ReadVarint(old(input)), value, shift, here);
        var b := res.value[0];
        value := Or(value, b % 128 * Pow2(shift));
        if b < 128 {
          return Some(value);
        }
        shift := shift + 7;
      }
    }

    /** `_as_write`. */
    method Write(data: seq<byte>)
      modifies `output
      ensures output == old(output) + data
    {
      output := output + data;
    }

    /** The first byte is in place; the length goes after it. */
    method PutLength(pkt: array<byte>, total: nat) returns (i: nat)
      requires pkt.Length == 4 && total < LENGTH_LIMIT
      modifies pkt
      ensures 1 <= i < 4 && pkt[..i + 1] == [old(pkt[0])] + Varint(total)
    {
      hide Varint;
      VarintLength(total);
      var sz := total;
      i := 1;
      ghost var digits: seq<byte> := [];
      assert [] + Varint(sz) == Varint(sz);
      while sz > 0x7F
        invariant i == 1 + |digits| && i + |Varint(sz)| <= 4
        invariant pkt[..i] == [old(pkt[0])] + digits && Varint(total) == digits + Varint(sz)
        decreases sz
      {
        VarintNext(digits, sz);
        pkt[i] := sz % 128 + 128;
        Snoc(old(pkt[0]), digits, pkt[i]);
        assert pkt[..i + 1] == pkt[..i] + [pkt[i]];
        digits := digits + [pkt[i]];
        sz := sz / 128;
        i := i + 1;
      }
      VarintCases(sz);
      pkt[i] := sz;
      Snoc(old(pkt[0]), digits, pkt[i]);
      assert pkt[..i + 1] == pkt[..i] + [pkt[i]];
    }

    /** `_publish`: refuses what the header cannot count, and otherwise writes one
        packet. `checked` says whether packing a number into two bytes rejects one
        that is too large, which then happens after the header, or keeps its low bytes. */
    method Publish(p: Publication, checked: bool) returns (ok: bool)
      requires p.Fits()
      modifies `output
      ensures ok <==> p.Remaining() < LENGTH_LIMIT && (checked ==> |p.topic| < 65536)
      ensures output == old(output) + if ok then Wire(p) else if p.Remaining() < LENGTH_LIMIT then Header(p) else []
    {
      hide Or, Varint, Publication.Flags;
      var pkt := new byte[4](_ => 0);
      FlagBits(p);
      pkt[0] := Or(48, Or(Or(p.qos * 2, if p.retain then 1 else 0), if p.dup then 8 else 0));
      var sz := 2 + |p.topic| + |p.payload|;
      if p.qos > 0 {
        sz := sz + 2;
      }
      if sz >= LENGTH_LIMIT {
        return false;
      }
      var i := PutLength(pkt, sz);
      ghost var base, sent := output, pkt[..i + 1];
      Write(pkt[..i + 1]);
      if checked && |p.topic| >= 65536 {
        return false;
      }
      var field := U16(|p.topic| % 65536);
      Regroup(base, sent, field);
      Write(field);
      sent := sent + field;
      Regroup(base, sent, p.topic);
      Write(p.topic);
      sent := sent + p.topic;
      ghost var id: seq<byte> := [];
      if p.qos > 0 {
        pkt[0], pkt[1] := p.pid / 256, p.pid % 256;
        assert pkt[..2] == U16(p.pid);
        id := U16(p.pid);
        Write(pkt[..2]);
      }
      Regroup(base, sent, id);
      sent := sent + id;
      Regroup(base, sent, p.payload);
      Write(p.payload);
      ok := true;
    }

    method Acknowledge(pid: nat) returns (ok: bool)
      modifies `pids
      ensures ok == (pid in old(pids)) && pids == old(pids) - {pid}
    {
      ok := pid in pids;
      pids := pids - {pid};
    }

    /** The bytes of a PUBACK after its first. */
    method ReceivePuback() returns (ok: bool)
      modifies `input, `pids
      ensures var r := HandlePuback(old(input), old(pids)); ok == r.ok && pids == r.pids && input == r.rest
    {
      hide ReadU16;
      ghost var s := input;
      var size := Read(1);
      if size.None? || size.value[0] != 2 {
        return false;
      }
      assert input == s[1..];
      var id := Read(2);
      if id.None? {
        return false;
      }
      ReadU16Prefix(s[1..]);
      assert id.value == s[1..][..2] && input == s[3..];
      ok := Acknowledge(ReadU16(id.value));
    }

    /** The bytes of a SUBACK or UNSUBACK after its first. */
    method ReceiveSuback(op: byte) returns (ok: bool)
      requires op == 0x90 || op == 0xB0
      modifies `input, `pids
      ensures var (s, known) := (old(input), old(pids));
              var r := if op == 0x90 then HandleSuback(s, known) else HandleUnsuback(s, known);
              ok == r.ok && pids == r.pids && input == r.rest
    {
      ghost var s := input;
      var n := if op == 0x90 then 4 else 3;
      var data := Read(n);
      if data.None? {
        return false;
      }
      var resp := data.value;
      assert resp == s[..n] && input == s[n..];
      if op == 0x90 && resp[3] == 0x80 {
        return false;
      }
      ok := Acknowledge(resp[1] as int * 256 + resp[2]);
    }

    /** The bytes of a publication after its first. */
    method ReceivePublish(op: byte) returns (ok: bool)
      modifies `input, `output, `received
      ensures var r := HandlePublish(op, old(input), pids);
              && ok == r.ok && received == old(received) + r.delivered && output == old(output) + r.reply
              && pids == r.pids && input == r.rest
    {
      hide ReadVarint, ReadU16, HandleMessage;
      NothingAppended(received, output);
      var length := ReceiveLength();
      if length.None? {
        return false;
      }
      ghost var s0 := input;
      var field := Read(2);
      if field.None? {
        return false;
      }
      ReadU16Prefix(s0);
      assert field.value == s0[..2] && input == s0[2..];
      ghost var s1 := input;
      var topic := Read(ReadU16(field.value));
      if topic.None? {
        return false;
      }
      assert topic.value == s1[..|topic.value|] && input == s1[|topic.value|..];
      ok := ReceiveMessage(op, topic.value, length.value as int - (|topic.value| + 2));
    }

    method ReceiveMessage(op: byte, topic: seq<byte>, left: int) returns (ok: bool)
      modifies `input, `output, `received
      ensures var r := HandleMessage(op, topic, left, old(input), pids);
              && ok == r.ok && received == old(received) + r.delivered && output == old(output) + r.reply
              && pids == r.pids && input == r.rest
    {
      hide ReadU16, HandlePayload;
      NothingAppended(received, output);
      var sz, pid: nat := left, 0;
      if op / 2 % 4 != 0 {
        ghost var s := input;
        var id := Read(2);
        if id.None? {
          return false;
        }
        ReadU16Prefix(s);
        assert id.value == s[..2] && input == s[2..];
        pid := ReadU16(id.value);
        sz := left - 2;
      }
      ok := ReceivePayload(op, topic, sz, pid);
    }

    method ReceivePayload(op: byte, topic: seq<byte>, left: int, pid: nat) returns (ok: bool)
      requires pid < 65536
      modifies `input, `output, `received
      ensures var r := HandlePayload(op, topic, left, pid, old(input), pids);
              && ok == r.ok && received == old(received) + r.delivered && output == old(output) + r.reply
              && pids == r.pids && input == r.rest
    {
      NothingAppended(received, output);
      ghost var s := input;
      var msg := Read(left);
      if msg.None? {
        return false;
      }
      assert msg.value == s[..left] && input == s[left..];
      received := received + [Delivery(topic, msg.value, op % 2 == 1)];
      var level := op / 2 % 4;
      if level == 1 {
        Write([0x40, 2, pid / 256, pid % 256]);
      }
      ok := level != 2;
    }

    /** `wait_msg`: one incoming packet, or nothing when no byte is there yet. */
    method WaitMsg(closed: bool) returns (ok: bool)
      modifies this
      ensures var r := Handle(old(input), closed, old(pids));
              && ok == r.ok && received == old(received) + r.delivered && output == old(output) + r.reply
              && pids == r.pids && input == r.rest
    {
      hide HandlePublish, HandlePuback, HandleSuback, HandleUnsuback;
      NothingAppended(received, output);
      if input == [] {
        return !closed;
      }
      var op := input[0];
      input := input[1..];
      if op == 0xD0 {
        var skipped := Read(1);
        return skipped.Some?;
      }
      if op == 0x40 {
        AcknowledgementsAreSilent(input, pids);
        ok := ReceivePuback();
        return ok;
      }
      if op == 0x90 || op == 0xB0 {
        AcknowledgementsAreSilent(input, pids);
        ok := ReceiveSuback(op);
        return ok;
      }
      if op / 16 != 3 {
        return true;
      }
      ok := ReceivePublish(op);
    }

    /** `_handle_msg`: packet after packet until one fails. */
    method HandleMessages(count: nat, closed: bool) returns (ok: bool)
      modifies this
      ensures var r := HandleAll(old(input), closed, count, old(pids));
              && ok == r.ok && received == old(received) + r.delivered && output == old(output) + r.reply
              && pids == r.pids && input == r.rest
    {
      hide Handle;
      ok := true;
      ghost var delivered: seq<Delivery>, reply: seq<byte> := [], [];
      ghost var all := HandleAll(input, closed, count, pids);
      NothingAppended(all.delivered, all.reply);
      NothingAppended(received, output);
      var left := count;
      while left > 0 && ok
        invariant received == old(received) + delivered && output == old(output) + reply
        invariant all == After(delivered, reply, if ok then HandleAll(input, closed, left, pids)
                                                 else Reaction(false, input, [], [], pids))
      {
        ghost var first := Handle(input, closed, pids);
        ghost var more := HandleAll(first.rest, closed, left - 1, first.pids);
        AfterAfter(delivered, reply, first, if first.ok then more else Reaction(false, first.rest, [], [], first.pids));
        ok := WaitMsg(closed);
        Extended(old(received), delivered, first.delivered, old(output), reply, first.reply);
        delivered, reply := delivered + first.delivered, reply + first.reply;
        left := left - 1;
      }
      NothingAppended(delivered, reply);
    }

    /** A whole stream of publications, received. */
    method ReceiveStream(count: nat, closed: bool, ghost ps: seq<Publication>, ghost rest: seq<byte>) returns (ok: bool)
      requires Plain(ps) && count == |ps| && input == Stream(ps) + rest
      modifies this
      ensures ok && received == old(received) + Deliveries(ps) && output == old(output) + Pubacks(ps)
      ensures input == rest && pids == old(pids)
    {
      hide Stream, HandleAll, Deliveries, Pubacks;
      StreamReceived(ps, rest, closed, pids);
      ok := HandleMessages(count, closed);
    }
  }

  lemma NothingAppended(a: seq<Delivery>, b: seq<byte>)
    ensures [] + a == a + [] == a && [] + b == b + [] == b
  {}

  lemma AcknowledgementsAreSilent(s: seq<byte>, pids: set<nat>)
    ensures HandlePuback(s, pids).delivered == [] && HandlePuback(s, pids).reply == []
    ensures HandleSuback(s, pids).delivered == [] && HandleSuback(s, pids).reply == []
    ensures HandleUnsuback(s, pids).delivered == [] && HandleUnsuback(s, pids).reply == []
  {}

  lemma AfterAfter(d: seq<Delivery>, r: seq<byte>, first: Reaction, more: Reaction)
    ensures After(d, r, After(first.delivered, first.reply, more))
         == After(d + first.delivered, r + first.reply, more)
    ensures !first.ok && more == Reaction(false, first.rest, [], [], first.pids) ==>
              After(d, r, first) == After(d + first.delivered, r + first.reply, more)
  {}

  lemma Extended(a: seq<Delivery>, b: seq<Delivery>, c: seq<Delivery>, x: seq<byte>, y: seq<byte>, z: seq<byte>)
    ensures a + b + c == a + (b + c) && x + y + z == x + (y + z)
  {}
}
