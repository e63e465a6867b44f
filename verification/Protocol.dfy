/** The message format of node-to-node traffic: header codec, checksum, message construction. */
module Protocol {
  import opened MachineInts
  import opened Outcomes
  import opened Endian
  import opened Buffers

  const MAGIC: uint32 := 0x5853414E
  const VERSION: uint16 := 1
  const MAX_PAYLOAD: uint32 := 16 * 1024 * 1024
  const HEADER_SIZE: nat := 24

  const REPLICA_WRITE_BLOCK_REQ: uint16 := 600

  datatype Header = Header(
    magic: uint32,
    kind: uint16,
    version: uint16,
    payloadLength: uint32,
    transactionId: uint64,
    checksum: uint32)

  /** A message as the sender builds it and as the receiver hands it to a handler. */
  datatype Message = Message(header: Header, payload: seq<byte>)

  // ---------------------------------------------------------------- header codec

  /** The wire image: every field big-endian, in declaration order, no padding. */
  function HeaderBytes(h: Header): (b: seq<byte>)
    ensures |b| == HEADER_SIZE
  {
    Big(h.magic, 4) + Big(h.kind, 2) + Big(h.version, 2) + Big(h.payloadLength, 4)
    + Big(h.transactionId, 8) + Big(h.checksum, 4)
  }

  /** The header a wire image stands for, read field by field. */
  function HeaderFields(b: seq<byte>): (h: Header)
    requires |b| == HEADER_SIZE
    ensures HeaderBytes(h) == b
  {
    Powers();
    BigOfFromBig(b[0..4]);
    BigOfFromBig(b[4..6]);
    BigOfFromBig(b[6..8]);
    BigOfFromBig(b[8..12]);
    BigOfFromBig(b[12..20]);
    BigOfFromBig(b[20..24]);
    Header(FromBig(b[0..4]), FromBig(b[4..6]), FromBig(b[6..8]), FromBig(b[8..12]), FromBig(b[12..20]), FromBig(b[20..24]))
  }

  predicate Acceptable(h: Header) {
    h.magic == MAGIC && h.payloadLength <= MAX_PAYLOAD
  }

  /** What a receiver makes of 24 bytes: a header with the right magic and a legal length, or nothing. */
  function DecodeHeader(b: seq<byte>): Option<Header>
    requires |b| == HEADER_SIZE
  {
    var h := HeaderFields(b);
    if Acceptable(h) then Some(h) else None
  }

  /** Two headers with the same wire image are the same header. */
  lemma HeaderBytesInjective(h: Header, h': Header)
    requires HeaderBytes(h) == HeaderBytes(h')
    ensures h == h'
  {
    var b, b' := HeaderBytes(h), HeaderBytes(h');
    FieldSlices(h);
    FieldSlices(h');
    Powers();
    FromBigOfBig(h.magic, 4); FromBigOfBig(h'.magic, 4);
    FromBigOfBig(h.kind, 2); FromBigOfBig(h'.kind, 2);
    FromBigOfBig(h.version, 2); FromBigOfBig(h'.version, 2);
    FromBigOfBig(h.payloadLength, 4); FromBigOfBig(h'.payloadLength, 4);
    FromBigOfBig(h.transactionId, 8); FromBigOfBig(h'.transactionId, 8);
    FromBigOfBig(h.checksum, 4); FromBigOfBig(h'.checksum, 4);
  }

  lemma FieldSlices(h: Header)
    ensures var b := HeaderBytes(h);
      && b[0..4] == Big(h.magic, 4) && b[4..6] == Big(h.kind, 2) && b[6..8] == Big(h.version, 2)
      && b[8..12] == Big(h.payloadLength, 4) && b[12..20] == Big(h.transactionId, 8) && b[20..24] == Big(h.checksum, 4)
  {
  }

  /** Decoding inverts encoding, and accepts exactly the headers with the right magic and a legal length. */
  lemma HeaderRoundTrip(h: Header)
    ensures DecodeHeader(HeaderBytes(h)) == if Acceptable(h) then Some(h) else None
  {
    HeaderBytesInjective(h, HeaderFields(HeaderBytes(h)));
  }

  /** The bytes that decide: the magic and the length. */
  lemma DecodedIff(b: seq<byte>)
    requires |b| == HEADER_SIZE
    ensures DecodeHeader(b).Some? <==> b[0..4] == [0x58, 0x53, 0x41, 0x4E] && FromBig(b[8..12]) <= 0x100_0000
    ensures DecodeHeader(b).Some? ==> HeaderBytes(DecodeHeader(b).value) == b
  {
    hide HeaderBytes;
    MagicBytes();
    Powers();
    FromBigOfBig(MAGIC, 4);
    BigOfFromBig(b[0..4]);
  }

  lemma MagicBytes()
    ensures Big(MAGIC, 4) == [0x58, 0x53, 0x41, 0x4E]
  {
    assert Big(0x5853414E, 4) == Big(0x585341, 3) + [0x4E];
    assert Big(0x585341, 3) == Big(0x5853, 2) + [0x41];
    assert Big(0x5853, 2) == Big(0x58, 1) + [0x53];
    assert Big(0x58, 1) == Big(0, 0) + [0x58];
  }

  method HeaderSerialize(header: Header, buffer: array<byte>)
    requires buffer.Length >= HEADER_SIZE
    modifies buffer
    ensures buffer[..HEADER_SIZE] == HeaderBytes(header)
    ensures buffer[HEADER_SIZE..] == old(buffer[HEADER_SIZE..])
  {
    // Each field is swapped into a local of its own width, and the local's memory image is copied.
    HtonllIsBigEndian(header.transactionId);
    var ptr := 0;
    CopyInto(buffer, ptr, Little(Htonl(header.magic), 4));
    ptr := ptr + 4;
    ghost var image: seq<byte> := Big(header.magic, 4);
    CopyInto(buffer, ptr, Little(Htons(header.kind), 2));
    ptr := ptr + 2;
    image := image + Big(header.kind, 2);
    assert buffer[..ptr] == image;
    CopyInto(buffer, ptr, Little(Htons(header.version), 2));
    ptr := ptr + 2;
    image := image + Big(header.version, 2);
    assert buffer[..ptr] == image;
    CopyInto(buffer, ptr, Little(Htonl(header.payloadLength), 4));
    ptr := ptr + 4;
    image := image + Big(header.payloadLength, 4);
    assert buffer[..ptr] == image;
    CopyInto(buffer, ptr, Little(Htonll(header.transactionId), 8));
    ptr := ptr + 8;
    image := image + Big(header.transactionId, 8);
    assert buffer[..ptr] == image;
    CopyInto(buffer, ptr, Little(Htonl(header.checksum), 4));
  }

  method HeaderDeserialize(buffer: array<byte>) returns (r: Option<Header>)
    requires buffer.Length >= HEADER_SIZE
    ensures r == DecodeHeader(buffer[..HEADER_SIZE])
    ensures r.Some? <==> buffer[0..4] == [0x58, 0x53, 0x41, 0x4E] && FromBig(buffer[8..12]) <= 0x100_0000
    ensures r.Some? ==> HeaderBytes(r.value) == buffer[..HEADER_SIZE]
  {
    ghost var b := buffer[..HEADER_SIZE];
    DecodedIff(b);
    PrefixSlices(buffer);
    hide HeaderBytes, FromBig, FromLittle;
    NtohlReadsBig(buffer[0..4]);
    var magic: uint32 := Htonl(FromLittle(buffer[0..4]));
    if magic != MAGIC {
      return None;
    }
    NtohsReadsBig(buffer[4..6]);
    var kind: uint16 := Htons(FromLittle(buffer[4..6]));
    NtohsReadsBig(buffer[6..8]);
    var version: uint16 := Htons(FromLittle(buffer[6..8]));
    NtohlReadsBig(buffer[8..12]);
    var payloadLength: uint32 := Htonl(FromLittle(buffer[8..12]));
    if payloadLength > MAX_PAYLOAD {
      return None;
    }
    NtohllReadsBig(buffer[12..20]);
    var transactionId: uint64 := Htonll(FromLittle(buffer[12..20]));
    NtohlReadsBig(buffer[20..24]);
    var checksum: uint32 := Htonl(FromLittle(buffer[20..24]));
    return Some(Header(magic, kind, version, payloadLength, transactionId, checksum));
  }

  /** The fields of the first 24 bytes are the fields of the buffer. */
  lemma PrefixSlices(buffer: array<byte>)
    requires buffer.Length >= HEADER_SIZE
    ensures var b := buffer[..HEADER_SIZE];
      && b[0..4] == buffer[0..4] && b[4..6] == buffer[4..6] && b[6..8] == buffer[6..8]
      && b[8..12] == buffer[8..12] && b[12..20] == buffer[12..20] && b[20..24] == buffer[20..24]
  {
  }

  // ---------------------------------------------------------------- checksum

  function ByteSum(s: seq<byte>): nat {
    if s == [] then 0 else ByteSum(s[..|s| - 1]) + s[|s| - 1]
  }

  lemma {:induction false} ByteSumConcat(a: seq<byte>, b: seq<byte>)
    ensures ByteSum(a + b) == ByteSum(a) + ByteSum(b)
  {
    if b == [] {
      assert a + b == a;
    } else {
      ByteSumConcat(a, b[..|b| - 1]);
      assert (a + b)[..|a + b| - 1] == a + b[..|b| - 1];
    }
  }

  lemma {:induction false} ByteSumBound(s: seq<byte>)
    ensures ByteSum(s) <= 255 * |s|
  {
    if s != [] {
      ByteSumBound(s[..|s| - 1]);
    }
  }

  lemma {:induction false} ByteSumUpdate(s: seq<byte>, i: nat, x: byte)
    requires i < |s|
    ensures ByteSum(s[i := x]) == ByteSum(s) - s[i] + x
  {
    var n := |s| - 1;
    if i < n {
      ByteSumUpdate(s[..n], i, x);
      assert s[i := x][..n] == s[..n][i := x];
    } else {
      assert s[i := x][..n] == s[..n];
    }
  }

  method CalculateChecksum(data: seq<byte>) returns (checksum: uint32)
    ensures checksum == Wrap32(ByteSum(data))
  {
    if |data| == 0 {
      return 0;
    }
    checksum := 0;
    for i := 0 to |data|
      invariant checksum == Wrap32(ByteSum(data[..i]))
    {
      assert data[..i + 1][..i] == data[..i];
      checksum := Wrap32(checksum + data[i]);
    }
    assert data[..|data|] == data;
  }

  /** What the checksum covers: the header image with a zero checksum field, then the payload. */
  function Covered(h: Header, payload: seq<byte>): seq<byte> {
    HeaderBytes(h.(checksum := 0)) + payload
  }

  /** For a legal payload the 32-bit sum cannot wrap. */
  lemma ChecksumNeverWraps(h: Header, payload: seq<byte>)
    requires |payload| <= MAX_PAYLOAD
    ensures ByteSum(Covered(h, payload)) < TWO32
  {
    ByteSumBound(Covered(h, payload));
  }

  lemma CoveredSum(h: Header, payload: seq<byte>)
    ensures ByteSum(Covered(h, payload)) == ByteSum(HeaderBytes(h.(checksum := 0))) + ByteSum(payload)
  {
    ByteSumConcat(HeaderBytes(h.(checksum := 0)), payload);
  }

  /** The predicate `xsan_protocol_verify_checksum` computes. */
  predicate Verifies(h: Header, payload: seq<byte>) {
    h.checksum == 0 || h.checksum == Wrap32(ByteSum(Covered(h, payload)))
  }

  method VerifyChecksum(header: Header, payload: seq<byte>, memory: bool) returns (ok: bool)
    requires |payload| == header.payloadLength
    ensures ok == (Verifies(header, payload) && (memory || header.checksum == 0))
  {
    if header.checksum == 0 {
      return true;
    }
    if !memory {
      return false;
    }
    var serialized := new byte[HEADER_SIZE];
    HeaderSerialize(header.(checksum := 0), serialized);
    assert serialized[..] == serialized[..HEADER_SIZE];
    var calculated := CalculateChecksum(serialized[..] + payload);
    return calculated == header.checksum;
  }

  // ---------------------------------------------------------------- message construction

  function InitHeader(kind: uint16, payloadLength: uint32, transactionId: uint64): Header {
    Header(MAGIC, kind, VERSION, payloadLength, transactionId, 0)
  }

  /** The message a sender means: the given payload under a header carrying its exact byte sum. */
  function Sealed(kind: uint16, transactionId: uint64, payload: seq<byte>): Message
    requires |payload| <= MAX_PAYLOAD
  {
    var h := InitHeader(kind, |payload|, transactionId);
    ChecksumNeverWraps(h, payload);
    Message(h.(checksum := ByteSum(Covered(h, payload))), payload)
  }

  /** The header names the protocol, the kind, the transaction and the length, and has a checksum. */
  predicate Carries(h: Header, kind: uint16, transactionId: uint64, length: int) {
    h.magic == MAGIC && h.version == 1 && h.kind == kind && h.transactionId == transactionId && h.payloadLength == length
  }

  lemma SealedCarries(kind: uint16, transactionId: uint64, payload: seq<byte>)
    requires |payload| <= MAX_PAYLOAD
    ensures var m := Sealed(kind, transactionId, payload);
      m.payload == payload && Carries(m.header, kind, transactionId, |payload|)
  {
  }

  method Seal(kind: uint16, transactionId: uint64, payload: seq<byte>) returns (msg: Message)
    requires |payload| <= MAX_PAYLOAD
    ensures msg == Sealed(kind, transactionId, payload)
  {
    var header := InitHeader(kind, |payload|, transactionId);
    var serialized := new byte[HEADER_SIZE];
    HeaderSerialize(header, serialized);
    assert serialized[..] == serialized[..HEADER_SIZE];
    var checksum := CalculateChecksum(serialized[..] + payload);
    ChecksumNeverWraps(header, payload);
    assert header.(checksum := 0) == header;
    msg := Message(header.(checksum := checksum), payload);
  }

  /**
   `xsan_protocol_message_create`; a null payload pointer with a positive length means zeros. `memory` says whether
   all allocations of the call succeed; when one fails the others are undone and there is no message.
   */
  method MessageCreate(kind: uint16, transactionId: uint64, payloadData: Option<seq<byte>>, payloadLength: uint32, memory: bool)
    returns (r: Option<Message>)
    requires payloadData.Some? ==> |payloadData.value| == payloadLength
    ensures payloadLength > MAX_PAYLOAD || !memory ==> r.None?
    ensures r.Some? ==> Carries(r.value.header, kind, transactionId, payloadLength) && |r.value.payload| == payloadLength
    ensures r.Some? && payloadData.Some? ==> r.value.payload == payloadData.value
    ensures payloadLength <= MAX_PAYLOAD && memory ==>
              r == Some(Sealed(kind, transactionId,
                               if payloadData.Some? then payloadData.value else seq(payloadLength, _ => 0)))
  {
    if payloadLength > MAX_PAYLOAD || !memory {
      return None;
    }
    var payload: seq<byte> := [];
    if payloadLength > 0 {
      match payloadData {
        case Some(data) => payload := data;
        case None => payload := seq(payloadLength, _ => 0);
      }
    }
    var msg := Seal(kind, transactionId, payload);
    return Some(msg);
  }

  /** `xsan_protocol_message_create_with_data`: a structured part and raw data behind it. */
  method MessageCreateWithData(kind: uint16, transactionId: uint64, structured: seq<byte>, additional: seq<byte>, memory: bool)
    returns (r: Option<Message>)
    requires |structured| < TWO32 && |additional| < TWO32
    ensures |structured| + |additional| > MAX_PAYLOAD || !memory ==> r.None?
    ensures r.Some? ==> Carries(r.value.header, kind, transactionId, |structured| + |additional|)
    ensures r.Some? ==> r.value.payload == structured + additional
    ensures |structured| + |additional| <= MAX_PAYLOAD && memory ==>
              r == Some(Sealed(kind, transactionId, structured + additional))
  {
    var total: uint64 := |structured| + |additional|;
    if total > MAX_PAYLOAD || !memory {
      return None;
    }
    var payload := [];
    if total > 0 {
      payload := structured + additional;
    }
    var msg := Seal(kind, transactionId, payload);
    return Some(msg);
  }

  lemma {:induction false} FirstByteCounts(s: seq<byte>)
    requires s != []
    ensures ByteSum(s) >= s[0]
  {
    if |s| > 1 {
      FirstByteCounts(s[..|s| - 1]);
    }
  }

  lemma MagicFirstByte()
    ensures Big(MAGIC, 4)[0] == 0x58
  {
    assert Big(MAGIC, 4) == Big(0x585341, 3) + [0x4E];
    assert Big(0x585341, 3) == Big(0x5853, 2) + [0x41];
    assert Big(0x5853, 2) == Big(0x58, 1) + [0x53];
  }

  /** Every message a sender can build carries a non-zero checksum, is well framed, and verifies. */
  lemma SealedVerifies(kind: uint16, transactionId: uint64, payload: seq<byte>)
    requires |payload| <= MAX_PAYLOAD
    ensures var m := Sealed(kind, transactionId, payload);
      && m.payload == payload && Carries(m.header, kind, transactionId, |payload|)
      && m.header.checksum != 0
      && m.header.payloadLength == |m.payload|
      && Acceptable(m.header)
      && Verifies(m.header, m.payload)
  {
    var h := InitHeader(kind, |payload|, transactionId);
    var m := Sealed(kind, transactionId, payload);
    assert m.header.(checksum := 0) == h;
    ChecksumNeverWraps(h, payload);
    FirstByteCounts(Covered(h, payload));
    MagicFirstByte();
  }

  lemma SameSumVerifies(h: Header, payload: seq<byte>, payload': seq<byte>)
    requires |payload| <= MAX_PAYLOAD && |payload'| <= MAX_PAYLOAD
    requires h.checksum != 0 && Verifies(h, payload)
    ensures Verifies(h, payload') <==> ByteSum(payload') == ByteSum(payload)
  {
    var c, c' := ByteSum(Covered(h, payload)), ByteSum(Covered(h, payload'));
    assert c < TWO32 by { ChecksumNeverWraps(h, payload); }
    assert c' < TWO32 by { ChecksumNeverWraps(h, payload'); }
    assert c' - c == ByteSum(payload') - ByteSum(payload) by {
      CoveredSum(h, payload);
      CoveredSum(h, payload');
    }
  }

  /**
   Of a built message, the receiver accepts a replaced payload of the same length exactly when
   its byte sum is that of the original: the check sees sums, and nothing else.
   */
  lemma TamperedPayloadVerifies(kind: uint16, transactionId: uint64, payload: seq<byte>, payload': seq<byte>)
    requires |payload'| == |payload| <= MAX_PAYLOAD
    ensures Verifies(Sealed(kind, transactionId, payload).header, payload') <==> ByteSum(payload') == ByteSum(payload)
  {
    SealedVerifies(kind, transactionId, payload);
    SameSumVerifies(Sealed(kind, transactionId, payload).header, payload, payload');
  }

  /** Changing one payload byte is always detected. */
  lemma OneByteChangeIsRejected(kind: uint16, transactionId: uint64, payload: seq<byte>, i: nat, x: byte)
    requires i < |payload| <= MAX_PAYLOAD
    requires x != payload[i]
    ensures !Verifies(Sealed(kind, transactionId, payload).header, payload[i := x])
  {
    var payload' := payload[i := x];
    TamperedPayloadVerifies(kind, transactionId, payload, payload');
    ByteSumUpdate(payload, i, x);
  }

  /** Exchanging two payload bytes is never detected. */
  lemma ByteSwapIsAccepted(kind: uint16, transactionId: uint64, prefix: seq<byte>, x: byte, y: byte, suffix: seq<byte>)
    requires |prefix| + 2 + |suffix| <= MAX_PAYLOAD
    ensures Verifies(Sealed(kind, transactionId, prefix + [x, y] + suffix).header, prefix + [y, x] + suffix)
  {
    TamperedPayloadVerifies(kind, transactionId, prefix + [x, y] + suffix, prefix + [y, x] + suffix);
    ByteSumConcat(prefix + [x, y], suffix);
    ByteSumConcat(prefix + [y, x], suffix);
    ByteSumConcat(prefix, [x, y]);
    ByteSumConcat(prefix, [y, x]);
    ByteSumConcat([x], [y]);
    ByteSumConcat([y], [x]);
    assert [x] + [y] == [x, y] && [y] + [x] == [y, x];
  }
}
