/**
 The receive side of a connection: bytes arrive in arbitrary pieces and leave as messages.
 `Parse` is the reference meaning of a byte stream; `Connection` is the buffer that grows, shifts and dispatches.
 */
module Framer {
  import opened MachineInts
  import opened Buffers
  import opened Protocol

  const INITIAL_CAPACITY: nat := HEADER_SIZE + 4096
  const GROWTH_LIMIT: nat := MAX_PAYLOAD + HEADER_SIZE + 4096

  /** The largest capacity doubling can reach below the growth limit: 4120 * 2^11. */
  const LARGEST_BUFFER: nat := 8_437_760

  // ---------------------------------------------------------------- reference meaning of a stream

  /** Messages completed so far, the bytes waiting for more, and whether the framer has given up. */
  datatype Parsed = Parsed(messages: seq<Message>, rest: seq<byte>, closed: bool) {
    /** The same outcome with earlier messages put in front. */
    function After(earlier: seq<Message>): Parsed {
      this.(messages := earlier + messages)
    }
  }

  /** What the front of a stream amounts to. */
  datatype Front = Wait | GiveUp | Take(message: Message, behind: seq<byte>)

  function Look(s: seq<byte>): (f: Front)
    ensures f.Take? ==> |f.behind| < |s|
  {
    if |s| < HEADER_SIZE then
      Wait
    else
      match DecodeHeader(s[..HEADER_SIZE])
      case None => GiveUp
      case Some(h) =>
        var body := s[HEADER_SIZE..];
        if h.payloadLength > LARGEST_BUFFER then
          if |body| >= LARGEST_BUFFER then GiveUp else Wait
        else if |body| < h.payloadLength then
          Wait
        else
          Take(Message(h, body[..h.payloadLength]), body[h.payloadLength..])
  }

  function Parse(s: seq<byte>): Parsed
    decreases |s|
  {
    match Look(s)
    case Wait => Parsed([], s, false)
    case GiveUp => Parsed([], [], true)
    case Take(m, behind) => Parse(behind).After([m])
  }

  /** A message laid out for the wire. */
  function Encode(m: Message): seq<byte> {
    HeaderBytes(m.header) + m.payload
  }

  function EncodeAll(ms: seq<Message>): seq<byte> {
    if ms == [] then [] else Encode(ms[0]) + EncodeAll(ms[1..])
  }

  /** A header that names its own payload's length, with the right magic. */
  predicate WellFramed(m: Message) {
    Acceptable(m.header) && m.header.payloadLength == |m.payload|
  }

  lemma LookAppend(a: seq<byte>, b: seq<byte>)
    ensures Look(a).GiveUp? ==> Look(a + b).GiveUp?
    ensures Look(a).Take? ==> Look(a + b) == Take(Look(a).message, Look(a).behind + b)
  {
    hide DecodeHeader;
    if |a| >= HEADER_SIZE {
      var body := a[HEADER_SIZE..];
      assert (a + b)[..HEADER_SIZE] == a[..HEADER_SIZE];
      assert (a + b)[HEADER_SIZE..] == body + b;
      var d := DecodeHeader(a[..HEADER_SIZE]);
      if d.Some? && d.value.payloadLength <= |body| {
        assert (body + b)[..d.value.payloadLength] == body[..d.value.payloadLength];
        assert (body + b)[d.value.payloadLength..] == body[d.value.payloadLength..] + b;
      }
    }
  }

  /** More bytes only ever continue a parse: what was delivered stays, a closed stream stays closed. */
  lemma {:induction false} ParseAppend(a: seq<byte>, b: seq<byte>)
    ensures Parse(a + b) == if Parse(a).closed then Parse(a) else Parse(Parse(a).rest + b).After(Parse(a).messages)
    decreases |a|
  {
    hide Look;
    LookAppend(a, b);
    if Look(a).Take? {
      ParseAppend(Look(a).behind, b);
    }
  }

  /** The front of a stream is one whole message. */
  lemma ParseOne(m: Message, s: seq<byte>)
    requires WellFramed(m) && |m.payload| <= LARGEST_BUFFER
    ensures Parse(Encode(m) + s) == Parse(s).After([m])
  {
    HeaderRoundTrip(m.header);
    var t := Encode(m) + s;
    assert t[..HEADER_SIZE] == HeaderBytes(m.header);
    assert t[HEADER_SIZE..] == m.payload + s;
    assert (m.payload + s)[..|m.payload|] == m.payload;
    assert (m.payload + s)[|m.payload|..] == s;
  }

  /** A stream of whole messages, none larger than the buffer can get, parses to exactly those messages. */
  lemma {:induction false} ParseEncodeAll(ms: seq<Message>)
    requires forall m <- ms :: WellFramed(m) && |m.payload| <= LARGEST_BUFFER
    ensures Parse(EncodeAll(ms)) == Parsed(ms, [], false)
  {
    if ms != [] {
      ParseOne(ms[0], EncodeAll(ms[1..]));
      ParseEncodeAll(ms[1..]);
    }
  }

  /** A whole message between two other stretches of the stream is delivered between theirs. */
  lemma ParseBetween(a: seq<byte>, m: Message, b: seq<byte>)
    requires !Parse(a).closed && Parse(a).rest == []
    requires WellFramed(m) && |m.payload| <= LARGEST_BUFFER
    ensures Parse(a + Encode(m) + b).messages == Parse(a).messages + [m] + Parse(b).messages
  {
    hide Look, Encode;
    assert a + Encode(m) + b == a + (Encode(m) + b);
    ParseAppend(a, Encode(m) + b);
    assert [] + (Encode(m) + b) == Encode(m) + b;
    ParseOne(m, b);
  }

  /**
   The protocol allows 16 MiB of payload; the framer delivers a legal message exactly when its payload
   fits in the largest buffer. A longer one closes the connection with nothing delivered.
   */
  lemma DeliveredExactlyWhenItFits(m: Message)
    requires WellFramed(m)
    ensures |m.payload| <= LARGEST_BUFFER ==> Parse(Encode(m)) == Parsed([m], [], false)
    ensures |m.payload| > LARGEST_BUFFER ==> Parse(Encode(m)) == Parsed([], [], true)
  {
    if |m.payload| <= LARGEST_BUFFER {
      ParseOne(m, []);
      assert Encode(m) + [] == Encode(m);
    } else {
      HeaderRoundTrip(m.header);
      assert Encode(m)[..HEADER_SIZE] == HeaderBytes(m.header);
    }
  }

  /** Bytes that do not make a whole message yet, but still can: a part of a header, or a legal header and a part. */
  predicate Unfinished(s: seq<byte>) {
    || |s| < HEADER_SIZE
    || (var h := HeaderFields(s[..HEADER_SIZE]);
        Acceptable(h) && |s| - HEADER_SIZE < h.payloadLength && |s| - HEADER_SIZE < LARGEST_BUFFER)
  }

  /** Bytes that can never make a message: an illegal header, or a full buffer of a payload that is longer still. */
  predicate Hopeless(s: seq<byte>) {
    && |s| >= HEADER_SIZE
    && var h := HeaderFields(s[..HEADER_SIZE]);
    !Acceptable(h) || (|s| - HEADER_SIZE >= LARGEST_BUFFER && h.payloadLength > LARGEST_BUFFER)
  }

  ghost predicate Deliverable(ms: seq<Message>) {
    forall i :: 0 <= i < |ms| ==> WellFramed(ms[i]) && |ms[i].payload| <= LARGEST_BUFFER
  }

  /** The stream begins with these messages, and what follows them is unfinished, or hopeless when the framer gives up. */
  ghost predicate Reads(s: seq<byte>, p: Parsed) {
    && Deliverable(p.messages)
    && exists tail :: s == EncodeAll(p.messages) + tail && Ends(tail, p)
  }

  ghost predicate Ends(tail: seq<byte>, p: Parsed) {
    if p.closed then p.rest == [] && Hopeless(tail) else p.rest == tail && Unfinished(tail)
  }

  /** What a stream says. */
  lemma {:induction false} ParseMeaning(s: seq<byte>)
    ensures Reads(s, Parse(s))
    decreases |s|
  {
    hide Reads, Look;
    if Look(s).Take? {
      var m, behind := Look(s).message, Look(s).behind;
      ParseMeaning(behind);
      TakeMeaning(s);
      ReadsOneMore(m, behind, Parse(behind));
    } else {
      EndMeaning(s);
    }
  }

  lemma ReadsOneMore(m: Message, behind: seq<byte>, p: Parsed)
    requires WellFramed(m) && |m.payload| <= LARGEST_BUFFER && Reads(behind, p)
    ensures Reads(Encode(m) + behind, p.After([m]))
  {
    hide Encode, WellFramed, Hopeless, Unfinished;
    var tail :| behind == EncodeAll(p.messages) + tail && Ends(tail, p);
    Regroup(m, p.messages, tail);
    assert Ends(tail, p.After([m]));
  }

  lemma EndMeaning(s: seq<byte>)
    requires !Look(s).Take?
    ensures Reads(s, Parse(s))
  {
    hide HeaderFields;
    assert s == EncodeAll([]) + s;
    assert Ends(s, Parse(s));
  }

  lemma TakeMeaning(s: seq<byte>)
    requires Look(s).Take?
    ensures var m := Look(s).message;
      WellFramed(m) && |m.payload| <= LARGEST_BUFFER && s == Encode(m) + Look(s).behind
  {
  }

  /** There is only one such reading, so the parse is determined: the other direction. */
  lemma {:induction false} ParseUnique(ms: seq<Message>, tail: seq<byte>)
    requires Deliverable(ms) && (Unfinished(tail) || Hopeless(tail))
    ensures Parse(EncodeAll(ms) + tail) == if Hopeless(tail) then Parsed(ms, [], true) else Parsed(ms, tail, false)
  {
    hide Unfinished, Hopeless, Parse, Encode, WellFramed;
    if ms == [] {
      ParseEnd(tail);
      assert EncodeAll(ms) + tail == tail;
    } else {
      var first, rest := ms[0], ms[1..];
      ParseUnique(rest, tail);
      ParseOne(first, EncodeAll(rest) + tail);
      Regroup(first, rest, tail);
      assert [first] + rest == ms;
    }
  }

  lemma Regroup(m: Message, ms: seq<Message>, tail: seq<byte>)
    ensures EncodeAll([m] + ms) + tail == Encode(m) + (EncodeAll(ms) + tail)
  {
    hide Encode;
    assert ([m] + ms)[1..] == ms;
  }

  lemma ParseEnd(tail: seq<byte>)
    requires Unfinished(tail) || Hopeless(tail)
    ensures Parse(tail) == if Hopeless(tail) then Parsed([], [], true) else Parsed([], tail, false)
  {
    hide HeaderFields;
  }

  // ---------------------------------------------------------------- the connection

  datatype RecvResult = Data(bytes: seq<byte>) | WouldBlock | PeerClosed | Failed

  /** The kernel's side: bytes still to come, handed out in pieces of any size. */
  class Socket {
    var incoming: seq<byte>

    constructor (bytes: seq<byte>)
      ensures incoming == bytes
    {
      incoming := bytes;
    }

    /** `spdk_sock_recv`: up to `room` bytes, at the socket's pleasure. */
    method Recv(room: nat) returns (r: RecvResult)
      requires room > 0
      modifies this
      ensures r.Data? ==> 0 < |r.bytes| <= room && old(incoming) == r.bytes + incoming
      ensures !r.Data? ==> incoming == old(incoming)
    {
      if * {
        return WouldBlock;
      } else if * {
        return PeerClosed;
      } else if * {
        return Failed;
      } else if incoming == [] {
        return WouldBlock;
      }
      var n :| 1 <= n <= room && n <= |incoming|;
      r := Data(incoming[..n]);
      incoming := incoming[n..];
    }
  }

  datatype ConnStatus = Open | ClosedByFramer | ClosedBySocket | ClosedForMemory

  function Pow2(n: nat): (p: nat)
    ensures p > 0
  {
    if n == 0 then 1 else 2 * Pow2(n - 1)
  }

  lemma {:induction false} Pow2Monotone(m: nat, n: nat)
    requires m <= n
    ensures Pow2(m) <= Pow2(n)
  {
    if m < n {
      Pow2Monotone(m, n - 1);
    }
  }

  lemma Pow2At11()
    ensures Pow2(11) == 2048
  {
    assert Pow2(3) == 8;
    assert Pow2(6) == 8 * Pow2(3);
    assert Pow2(9) == 8 * Pow2(6);
    assert Pow2(11) == 4 * Pow2(9);
  }

  class Connection {
    var recvBuf: array<byte>
    var recvBufLen: nat
    var partialHeader: Header
    var headerFullyReceived: bool
    var status: ConnStatus
    var delivered: seq<Message>

    ghost var received: seq<byte>
    ghost var doublings: nat

    /** Bytes received and not yet part of a delivered message. */
    ghost function Unconsumed(): seq<byte>
      reads this, recvBuf
      requires recvBufLen <= recvBuf.Length
    {
      (if headerFullyReceived then HeaderBytes(partialHeader) else []) + recvBuf[..recvBufLen]
    }

    /** Buffer bookkeeping; the capacity is the initial one doubled at most eleven times. */
    ghost predicate Sized()
      reads this, recvBuf
    {
      && recvBufLen <= recvBuf.Length
      && doublings <= 11
      && recvBuf.Length == INITIAL_CAPACITY * Pow2(doublings)
      && (headerFullyReceived ==> Acceptable(partialHeader))
    }

    /** No whole header and no whole message is left in the buffer. */
    ghost predicate Stalled()
      reads this
    {
      if headerFullyReceived then recvBufLen < partialHeader.payloadLength else recvBufLen < HEADER_SIZE
    }

    /** What has been delivered, followed by what the buffer still stands for, is what the stream stands for. */
    ghost predicate Faithful()
      reads this, recvBuf
      requires Sized()
    {
      Parse(received) == Parse(Unconsumed()).After(delivered)
    }

    /**
     The state between two calls: a function of the bytes received, however they were cut. Running out of memory
     closes early; what has been delivered by then is what the stream begins with.
     */
    ghost predicate Valid()
      reads this, recvBuf
    {
      && Sized()
      && delivered <= Parse(received).messages
      && (status != ClosedForMemory ==> delivered == Parse(received).messages && (status == ClosedByFramer <==> Parse(received).closed))
      && (status == Open ==> Stalled() && Unconsumed() == Parse(received).rest)
    }

    constructor ()
      ensures Valid() && status == Open && received == [] && delivered == [] && fresh(recvBuf)
    {
      recvBuf := new byte[INITIAL_CAPACITY];
      recvBufLen := 0;
      partialHeader := InitHeader(0, 0, 0);
      headerFullyReceived := false;
      status := Open;
      delivered := [];
      received := [];
      doublings := 0;
    }

    lemma CapacityBound()
      requires Sized()
      ensures recvBuf.Length <= LARGEST_BUFFER
      ensures recvBuf.Length == LARGEST_BUFFER <==> 2 * recvBuf.Length > GROWTH_LIMIT
      ensures recvBuf.Length < LARGEST_BUFFER ==> doublings < 11
      ensures INITIAL_CAPACITY * Pow2(doublings + 1) == 2 * recvBuf.Length
    {
      Pow2At11();
      if doublings < 11 {
        Pow2Monotone(doublings, 10);
        assert Pow2(11) == 2 * Pow2(10);
      }
    }

    /** A stalled buffer stands for an unfinished message, or, once full, for one that can never be finished. */
    lemma StalledMeaning()
      requires Sized() && Stalled()
      ensures recvBufLen < LARGEST_BUFFER ==> Parse(Unconsumed()) == Parsed([], Unconsumed(), false)
      ensures recvBufLen == LARGEST_BUFFER ==> Parse(Unconsumed()) == Parsed([], [], true)
    {
      if headerFullyReceived {
        var s := Unconsumed();
        HeaderRoundTrip(partialHeader);
        assert s[..HEADER_SIZE] == HeaderBytes(partialHeader);
        assert s[HEADER_SIZE..] == recvBuf[..recvBufLen];
      }
    }

    /** `realloc` to twice the capacity, unless that passes the limit. */
    method Grow()
      requires Sized() && Faithful() && Stalled() && status == Open && recvBufLen == recvBuf.Length
      modifies this
      ensures unchanged(`received, `delivered, `recvBufLen, `partialHeader, `headerFullyReceived)
      ensures recvBuf == old(recvBuf) || fresh(recvBuf)
      ensures status != Open ==> Valid()
      ensures status == ClosedByFramer ==> old(recvBuf.Length) == LARGEST_BUFFER
      ensures status == Open ==> Sized() && Faithful() && Stalled() && recvBufLen < recvBuf.Length
    {
      hide Parse, HeaderBytes, Pow2;
      CapacityBound();
      StalledMeaning();
      var newCapacity := recvBuf.Length * 2;
      if newCapacity > GROWTH_LIMIT {
        status := ClosedByFramer;
        return;
      } else if * {
        status := ClosedForMemory;
        return;
      }
      Reallocate(newCapacity);
      doublings := doublings + 1;
      assert Unconsumed() == old(Unconsumed());
    }

    method Reallocate(newCapacity: nat)
      requires recvBufLen <= recvBuf.Length <= newCapacity
      modifies this`recvBuf
      ensures fresh(recvBuf) && recvBuf.Length == newCapacity && recvBuf[..recvBufLen] == old(recvBuf[..recvBufLen])
    {
      var newBuf := new byte[newCapacity];
      forall i | 0 <= i < recvBufLen {
        newBuf[i] := recvBuf[i];
      }
      recvBuf := newBuf;
    }

    /** Moves what follows the first `n` bytes to the front of the buffer. */
    method Shift(n: nat)
      requires n <= recvBufLen <= recvBuf.Length
      modifies this`recvBufLen, recvBuf
      ensures recvBufLen == old(recvBufLen) - n
      ensures recvBuf[..recvBufLen] == old(recvBuf[n..recvBufLen])
    {
      forall i | 0 <= i < recvBufLen - n {
        recvBuf[i] := recvBuf[i + n];
      }
      recvBufLen := recvBufLen - n;
    }

    /** Parses a header off the front of the buffer; closes on a bad one. */
    method TakeHeader()
      requires Sized() && Faithful() && status == Open && !headerFullyReceived && recvBufLen >= HEADER_SIZE
      modifies this, recvBuf
      ensures unchanged(`received, `delivered, `recvBuf, `doublings)
      ensures status != Open ==> Valid()
      ensures status == Open || status == ClosedByFramer
      ensures status == Open ==> Sized() && Faithful() && headerFullyReceived && recvBufLen == old(recvBufLen) - HEADER_SIZE
    {
      hide HeaderBytes, HeaderFields;
      ghost var s := Unconsumed();
      assert s == recvBuf[..recvBufLen];
      assert s[..HEADER_SIZE] == recvBuf[..HEADER_SIZE];
      var r := HeaderDeserialize(recvBuf);
      if r.None? {
        status := ClosedByFramer;
        return;
      }
      partialHeader := r.value;
      headerFullyReceived := true;
      assert HeaderBytes(partialHeader) == s[..HEADER_SIZE];
      Shift(HEADER_SIZE);
      assert recvBuf[..recvBufLen] == s[HEADER_SIZE..];
      assert Unconsumed() == s;
    }

    /** Hands the message at the front of the buffer to its handler. */
    method Dispatch()
      requires Sized() && Faithful() && status == Open && headerFullyReceived
      requires recvBufLen >= partialHeader.payloadLength
      modifies this, recvBuf
      ensures unchanged(`received, `recvBuf, `doublings)
      ensures status == Open || (status == ClosedForMemory && Valid() && delivered == old(delivered))
      ensures status == Open ==> Sized() && Faithful() && !headerFullyReceived && recvBufLen <= old(recvBufLen)
      ensures status == Open ==> exists m :: delivered == old(delivered) + [m]
    {
      hide Parse, HeaderBytes;
      CapacityBound();
      if * {
        status := ClosedForMemory;
        return;
      }
      var n := partialHeader.payloadLength;
      var msg := Message(partialHeader, recvBuf[..n]);
      ghost var s := recvBuf[n..recvBufLen];
      assert Unconsumed() == Encode(msg) + s;
      ParseOne(msg, s);
      delivered := delivered + [msg];
      Shift(n);
      headerFullyReceived := false;
      assert Unconsumed() == s;
    }

    /** The inner loop: headers and messages come off the buffer until neither is whole. */
    method Drain()
      requires Sized() && Faithful() && status == Open && recvBufLen > 0
      modifies this, recvBuf
      ensures unchanged(`received, `recvBuf, `doublings)
      ensures status != Open ==> Valid()
      ensures status == Open ==> Sized() && Faithful() && Stalled()
    {
      hide Parse, HeaderBytes;
      while recvBufLen > 0
        invariant unchanged(`received, `recvBuf, `doublings)
        invariant status == Open && Sized() && Faithful()
        invariant recvBufLen == 0 ==> !headerFullyReceived || Stalled()
        decreases recvBufLen, headerFullyReceived
      {
        if !headerFullyReceived {
          if recvBufLen < HEADER_SIZE {
            break;
          }
          TakeHeader();
          if status != Open {
            return;
          }
        }
        if recvBufLen < partialHeader.payloadLength {
          break;
        }
        Dispatch();
        if status != Open {
          return;
        }
      }
    }

    /** Appends freshly received bytes at the end of the buffer. */
    method Append(bytes: seq<byte>)
      requires Sized() && Faithful() && Stalled() && status == Open
      requires recvBufLen + |bytes| <= recvBuf.Length && recvBufLen < recvBuf.Length
      modifies this, recvBuf
      ensures unchanged(`recvBuf, `doublings, `status, `delivered)
      ensures received == old(received) + bytes
      ensures Sized() && Faithful() && recvBufLen == old(recvBufLen) + |bytes|
    {
      hide Parse, HeaderBytes;
      CapacityBound();
      StalledMeaning();
      ghost var s := Unconsumed();
      ParseAppend(received, bytes);
      CopyInto(recvBuf, recvBufLen, bytes);
      recvBufLen := recvBufLen + |bytes|;
      received := received + bytes;
      assert Unconsumed() == s + bytes;
    }

    /** One successful receive: the bytes go into the buffer and whatever is whole comes out of it. */
    method Accept(bytes: seq<byte>)
      requires Sized() && Faithful() && Stalled() && status == Open
      requires bytes != [] && recvBufLen + |bytes| <= recvBuf.Length
      modifies this, recvBuf
      ensures unchanged(`recvBuf, `doublings)
      ensures received == old(received) + bytes
      ensures status != Open ==> Valid()
      ensures status == Open ==> Sized() && Faithful() && Stalled()
    {
      hide Parse, HeaderBytes;
      Append(bytes);
      Drain();
    }

    /** With room left in the buffer, the state is the one the stream calls for. */
    lemma Settled()
      requires Sized() && Faithful() && Stalled() && recvBufLen < recvBuf.Length
      ensures Parse(received) == Parsed(delivered, Unconsumed(), false)
    {
      hide Parse, HeaderBytes;
      CapacityBound();
      StalledMeaning();
    }

    /**
     `_process_received_data_for_connection`: takes what the socket gives until it gives no more.
     Whatever the cut, delivered messages, waiting bytes and closing are those of `Parse` on the stream.
     */
    method ProcessReceivedData(sock: Socket)
      requires Valid() && status == Open
      modifies this, recvBuf, sock
      ensures Valid()
      ensures recvBuf == old(recvBuf) || fresh(recvBuf)
      ensures old(received) <= received
      ensures received + sock.incoming == old(received) + old(sock.incoming)
    {
      hide Parse, HeaderBytes;
      Resume();
      while true
        invariant Sized() && Faithful() && Stalled() && status == Open
        invariant recvBuf == old(recvBuf) || fresh(recvBuf)
        invariant old(received) <= received
        invariant received + sock.incoming == old(received) + old(sock.incoming)
        decreases |sock.incoming|
      {
        if recvBufLen == recvBuf.Length {
          Grow();
          if status != Open {
            return;
          }
        }
        var r := sock.Recv(recvBuf.Length - recvBufLen);
        if !r.Data? {
          Settled();
          status := if r.WouldBlock? then Open else ClosedBySocket;
          return;
        }
        assert received + (r.bytes + sock.incoming) == received + r.bytes + sock.incoming;
        Accept(r.bytes);
        if status != Open {
          return;
        }
      }
    }

    lemma Resume()
      requires Valid() && status == Open
      ensures Faithful()
    {
      hide Parse, HeaderBytes;
      ParseAppend(received, []);
      assert received + [] == received && Parse(received).rest + [] == Unconsumed();
    }
  }

  /** Deliveries are never taken back. */
  lemma Extends(a: seq<byte>, b: seq<byte>)
    requires a <= b
    ensures Parse(a).messages <= Parse(b).messages
  {
    ParseAppend(a, b[|a|..]);
    assert b == a + b[|a|..];
  }
}
