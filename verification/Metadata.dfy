/** What the volume manager keeps in its key-value store: keys, records, and the conversions both ways. */
module Metadata {
  import opened MachineInts
  import opened Storage

  // ---------------------------------------------------------------- identifiers as text

  function HexDigit(n: int): char
    requires 0 <= n < 16
  {
    "0123456789abcdef"[n]
  }

  function DigitValue(c: char): (n: nat)
    ensures n < 16
  {
    if '0' <= c <= '9' then c as int - '0' as int
    else if 'a' <= c <= 'f' then c as int - 'a' as int + 10
    else if 'A' <= c <= 'F' then c as int - 'A' as int + 10
    else 0
  }

  lemma DigitValueOfHexDigit(n: int)
    requires 0 <= n < 16
    ensures DigitValue(HexDigit(n)) == n
  {
  }

  function Hex(s: seq<byte>): (t: string)
    ensures |t| == 2 * |s|
  {
    if s == [] then [] else [HexDigit(s[0] / 16), HexDigit(s[0] % 16)] + Hex(s[1..])
  }

  function UnHex(t: string): (s: seq<byte>)
    ensures |s| == |t| / 2
  {
    if |t| < 2 then [] else [DigitValue(t[0]) * 16 + DigitValue(t[1])] + UnHex(t[2..])
  }

  lemma {:induction false} UnHexOfHex(s: seq<byte>)
    ensures UnHex(Hex(s)) == s
  {
    hide HexDigit, DigitValue;
    if s != [] {
      UnHexOfHex(s[1..]);
      assert Hex(s)[2..] == Hex(s[1..]);
      DigitValueOfHexDigit(s[0] / 16);
      DigitValueOfHexDigit(s[0] % 16);
    }
  }

  /** The usual 8-4-4-4-12 form. */
  function Text(id: Uuid): (t: string)
    ensures |t| == 36
  {
    Hex(id[0..4]) + "-" + Hex(id[4..6]) + "-" + Hex(id[6..8]) + "-" + Hex(id[8..10]) + "-" + Hex(id[10..16])
  }

  function ParseText(t: string): Uuid {
    if |t| != 36 then NULL_UUID
    else UnHex(t[0..8]) + UnHex(t[9..13]) + UnHex(t[14..18]) + UnHex(t[19..23]) + UnHex(t[24..36])
  }

  lemma ParseTextOfText(id: Uuid)
    ensures ParseText(Text(id)) == id
  {
    hide Hex, UnHex;
    var t := Text(id);
    assert t[0..8] == Hex(id[0..4]);
    assert t[9..13] == Hex(id[4..6]);
    assert t[14..18] == Hex(id[6..8]);
    assert t[19..23] == Hex(id[8..10]);
    assert t[24..36] == Hex(id[10..16]);
    UnHexOfHex(id[0..4]);
    UnHexOfHex(id[4..6]);
    UnHexOfHex(id[6..8]);
    UnHexOfHex(id[8..10]);
    UnHexOfHex(id[10..16]);
    assert id == id[0..4] + id[4..6] + id[6..8] + id[8..10] + id[10..16];
  }

  const VOLUME_PREFIX: string := "v:"
  const ALLOC_PREFIX: string := "volalloc:"

  function VolumeKey(id: Uuid): string {
    VOLUME_PREFIX + Text(id)
  }

  function AllocKey(id: Uuid): string {
    ALLOC_PREFIX + Text(id)
  }

  /** Keys name their volume and their kind. */
  lemma KeysDistinct(a: Uuid, b: Uuid)
    ensures VolumeKey(a) == VolumeKey(b) ==> a == b
    ensures AllocKey(a) == AllocKey(b) ==> a == b
    ensures VolumeKey(a) != AllocKey(b)
  {
    hide Text, ParseText;
    ParseTextOfText(a);
    ParseTextOfText(b);
    assert VolumeKey(a)[2..] == Text(a) && VolumeKey(b)[2..] == Text(b);
    assert AllocKey(a)[9..] == Text(a) && AllocKey(b)[9..] == Text(b);
    assert VolumeKey(a)[1] == ':' && AllocKey(b)[1] == 'o';
  }

  // ---------------------------------------------------------------- records

  /** JSON numbers are signed; the fields they carry are not. */
  function Signed64(u: uint64): int {
    if u < 0x8000_0000_0000_0000 then u else u - TWO64
  }

  function Signed32(u: uint32): int {
    if u < 0x8000_0000 then u else u - TWO32
  }

  lemma SignedRoundTrip(u: uint64, w: uint32)
    ensures Wrap64(Signed64(u)) == u && Wrap32(Signed32(w)) == w
  {
    assert (u - TWO64) % TWO64 == u;
    assert (w - TWO32) % TWO32 == w;
  }

  function Code(s: State): int {
    match s
    case Unknown => 0
    case Initializing => 1
    case Online => 2
    case Offline => 3
    case Degraded => 4
    case Failed => 5
    case Missing => 6
    case Rebuilding => 7
    case Maintenance => 8
  }

  function StateOf(code: int): State {
    if code == 1 then Initializing
    else if code == 2 then Online
    else if code == 3 then Offline
    else if code == 4 then Degraded
    else if code == 5 then Failed
    else if code == 6 then Missing
    else if code == 7 then Rebuilding
    else if code == 8 then Maintenance
    else Unknown
  }

  datatype ReplicaJson = ReplicaJson(node: string, ip: string, port: int, state: int, lastContact: int)

  datatype VolumeJson = VolumeJson(
    id: string,
    name: string,
    sizeBytes: int,
    blockSize: int,
    numBlocks: int,
    state: int,
    group: string,
    thin: bool,
    allocatedBytes: int,
    ftt: int,
    replicaCount: int,
    replicas: seq<ReplicaJson>)

  datatype ExtentJson = ExtentJson(disk: string, startBlock: int, numBlocks: int, volumeStartLba: int)

  datatype AllocJson = AllocJson(volumeId: string, group: string, numExtents: int, totalBlocks: int, blockSize: int, extents: seq<ExtentJson>)

  datatype Record = VolumeRecord(volume: VolumeJson) | AllocRecord(alloc: AllocJson)

  const MAX_IP_LEN: nat := 46

  /** `xsan_strcpy_safe`: what a buffer of `size` bytes keeps of a string. */
  function Clip(s: string, size: nat): (r: string)
    requires size > 0
    ensures r <= s && |r| == if |s| < size then |s| else size - 1
  {
    if |s| < size then s else s[..size - 1]
  }

  function EncodeReplica(r: Replica): ReplicaJson {
    ReplicaJson(Text(r.node), r.ip, r.port, Code(r.state), Signed64(r.lastContact))
  }

  function DecodeReplica(j: ReplicaJson): (r: Replica)
    ensures |r.ip| < MAX_IP_LEN
  {
    Replica(ParseText(j.node), Clip(j.ip, MAX_IP_LEN), j.port % 0x1_0000, StateOf(j.state), Wrap64(j.lastContact))
  }

  function Min(a: nat, b: nat): nat {
    if a <= b then a else b
  }

  /** `_xsan_volume_to_json_string`: only the slots in use are written. */
  function EncodeVolume(v: Volume): VolumeJson
    requires |v.replicas| == MAX_REPLICAS
  {
    var n := Min(v.replicaCount, MAX_REPLICAS);
    VolumeJson(Text(v.id), v.name, Signed64(v.sizeBytes), Signed32(v.blockSize), Signed64(v.numBlocks), Code(v.state),
               Text(v.group), v.thin, Signed64(v.allocatedBytes), Signed32(v.ftt), Signed32(v.replicaCount),
               seq(n, i requires 0 <= i < n => EncodeReplica(v.replicas[i])))
  }

  /** `_xsan_json_string_to_volume`: the length of the stored array overrides the stored count. */
  function DecodeVolume(j: VolumeJson): (v: Volume)
    ensures |v.replicas| == MAX_REPLICAS
  {
    var n := Min(|j.replicas|, MAX_REPLICAS);
    Volume(ParseText(j.id), Clip(j.name, MAX_NAME_LEN), Wrap64(j.sizeBytes), Wrap32(j.blockSize), Wrap64(j.numBlocks),
           StateOf(j.state), ParseText(j.group), j.thin, Wrap64(j.allocatedBytes), Wrap32(j.ftt), n,
           seq(MAX_REPLICAS, i requires 0 <= i < MAX_REPLICAS => if i < n then DecodeReplica(j.replicas[i]) else EMPTY_SLOT))
  }

  /** Strings fit their buffers and slots beyond the replica count are blank. */
  ghost predicate Storable(v: Volume) {
    && |v.name| < MAX_NAME_LEN
    && |v.replicas| == MAX_REPLICAS
    && v.replicaCount <= MAX_REPLICAS
    && (forall i :: 0 <= i < v.replicaCount ==> |v.replicas[i].ip| < MAX_IP_LEN)
    && (forall i :: v.replicaCount <= i < MAX_REPLICAS ==> v.replicas[i] == EMPTY_SLOT)
  }

  lemma ReplicaRoundTrip(r: Replica)
    requires |r.ip| < MAX_IP_LEN
    ensures DecodeReplica(EncodeReplica(r)) == r
  {
    hide Text, ParseText, Signed64, Wrap64;
    ParseTextOfText(r.node);
    SignedRoundTrip(r.lastContact, 0);
  }

  /** A saved volume is read back as it was, exactly when it is storable. */
  lemma VolumeRoundTrip(v: Volume)
    requires |v.replicas| == MAX_REPLICAS
    ensures DecodeVolume(EncodeVolume(v)) == v <==> Storable(v)
  {
    hide Text, ParseText, Signed64, Wrap64, Signed32, Wrap32, EncodeReplica, DecodeReplica;
    var v' := DecodeVolume(EncodeVolume(v));
    if v' == v {
      assert forall i :: 0 <= i < v.replicaCount ==> v.replicas[i] == v'.replicas[i];
    }
    if Storable(v) {
      ParseTextOfText(v.id);
      ParseTextOfText(v.group);
      SignedRoundTrip(v.sizeBytes, v.blockSize);
      SignedRoundTrip(v.numBlocks, v.ftt);
      SignedRoundTrip(v.allocatedBytes, v.replicaCount);
      forall i | 0 <= i < v.replicaCount
        ensures v'.replicas[i] == v.replicas[i]
      {
        ReplicaRoundTrip(v.replicas[i]);
      }
      assert v'.replicas == v.replicas;
    }
  }

  function EncodeExtent(e: Extent): ExtentJson {
    ExtentJson(Text(e.disk), Signed64(e.startBlock), Signed64(e.numBlocks), Signed64(e.volumeStartLba))
  }

  function DecodeExtent(j: ExtentJson): Extent {
    Extent(ParseText(j.disk), Wrap64(j.startBlock), Wrap64(j.numBlocks), Wrap64(j.volumeStartLba))
  }

  function EncodeAlloc(m: AllocMeta): AllocJson {
    AllocJson(Text(m.volumeId), Text(m.group), |m.extents|, Signed64(m.totalBlocks), Signed32(m.blockSize),
              seq(|m.extents|, i requires 0 <= i < |m.extents| => EncodeExtent(m.extents[i])))
  }

  /** The array's length overrides the stored count, and at most eight extents are kept. */
  function DecodeAlloc(j: AllocJson): AllocMeta {
    var n := Min(|j.extents|, MAX_EXTENTS_PER_VOLUME);
    AllocMeta(ParseText(j.volumeId), ParseText(j.group),
              seq(n, i requires 0 <= i < n => DecodeExtent(j.extents[i])), Wrap64(j.totalBlocks), Wrap32(j.blockSize))
  }

  /** An allocation record is read back as it was saved, exactly when it has at most eight extents. */
  lemma AllocRoundTrip(m: AllocMeta)
    ensures DecodeAlloc(EncodeAlloc(m)) == m <==> |m.extents| <= MAX_EXTENTS_PER_VOLUME
  {
    hide Text, ParseText, Signed64, Wrap64, Signed32, Wrap32;
    var m' := DecodeAlloc(EncodeAlloc(m));
    if |m.extents| <= MAX_EXTENTS_PER_VOLUME {
      ParseTextOfText(m.volumeId);
      ParseTextOfText(m.group);
      SignedRoundTrip(m.totalBlocks, m.blockSize);
      forall i | 0 <= i < |m.extents|
        ensures m'.extents[i] == m.extents[i]
      {
        var e := m.extents[i];
        ParseTextOfText(e.disk);
        SignedRoundTrip(e.startBlock, 0);
        SignedRoundTrip(e.numBlocks, 0);
        SignedRoundTrip(e.volumeStartLba, 0);
      }
      assert m'.extents == m.extents;
    }
  }
}
