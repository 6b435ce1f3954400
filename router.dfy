/**
 * routeur.h: the packet record, the packet types, the destination bands that pick
 * an output interface and the source bands whose packets are rejected.
 */
module Router {
  import opened Machine

  // ---------------------------------------------------------------------------
  // Address bands
  // ---------------------------------------------------------------------------

  /** An inclusive range of 32-bit addresses, `low..high`. */
  datatype Band = Band(low: U32, high: U32) {
    predicate Contains(x: int) {
      low <= x <= high
    }
  }

  const INT1: Band := Band(0x0000_0000, 0x3FFF_FFFF)
  const INT2: Band := Band(0x4000_0000, 0x7FFF_FFFF)
  const INT3: Band := Band(0x8000_0000, 0xBFFF_FFFF)
  const INT_BC: Band := Band(0xC000_0000, 0xFFFF_FFFF)

  /** The destination bands, in address order: interfaces 1, 2, 3 and broadcast. */
  const DestinationBands: seq<Band> := [INT1, INT2, INT3, INT_BC]

  const REJECT1: Band := Band(0x1000_0000, 0x17FF_FFFF)
  const REJECT2: Band := Band(0x5000_0000, 0x57FF_FFFF)
  const REJECT3: Band := Band(0x6000_0000, 0x67FF_FFFF)
  const REJECT4: Band := Band(0xD000_0000, 0xD7FF_FFFF)

  /** The source bands whose packets are rejected, in address order. */
  const RejectBands: seq<Band> := [REJECT1, REJECT2, REJECT3, REJECT4]

  /** Every band is non-empty and ends before the next one starts. */
  predicate Ascending(bands: seq<Band>) {
    (forall i :: 0 <= i < |bands| ==> bands[i].low <= bands[i].high) &&
    (forall i :: 0 <= i < |bands| - 1 ==> bands[i].high < bands[i + 1].low)
  }

  /** Each band starts right after the previous one ends. */
  predicate Contiguous(bands: seq<Band>) {
    (forall i :: 0 <= i < |bands| ==> bands[i].low <= bands[i].high) &&
    (forall i :: 0 <= i < |bands| - 1 ==> bands[i].high + 1 == bands[i + 1].low)
  }

  /** No address lies in two bands. */
  ghost predicate PairwiseDisjoint(bands: seq<Band>) {
    forall i, j, x :: 0 <= i < j < |bands| && bands[i].Contains(x) ==> !bands[j].Contains(x)
  }

  /** Some band of the table holds `x`. */
  ghost predicate Covered(bands: seq<Band>, x: int) {
    exists i :: 0 <= i < |bands| && bands[i].Contains(x)
  }

  /** The bands together cover every 32-bit address. */
  ghost predicate CoversAll(bands: seq<Band>) {
    forall x: U32 :: Covered(bands, x)
  }

  /** In an ascending table every band lies wholly below every later band. */
  lemma {:induction false} AscendingOrdered(bands: seq<Band>, i: nat, j: nat)
    requires Ascending(bands) && i < j < |bands|
    ensures bands[i].high < bands[j].low
    decreases j - i
  {
    if i + 1 < j {
      AscendingOrdered(bands, i + 1, j);
    }
  }

  lemma AscendingDisjoint(bands: seq<Band>)
    requires Ascending(bands)
    ensures PairwiseDisjoint(bands)
  {
    forall i, j | 0 <= i < j < |bands|
      ensures bands[i].high < bands[j].low
    {
      AscendingOrdered(bands, i, j);
    }
  }

  /** A contiguous table covers everything from its first low to its last high. */
  lemma {:induction false} ContiguousCovers(bands: seq<Band>, x: int)
    requires Contiguous(bands) && bands != []
    requires bands[0].low <= x <= bands[|bands| - 1].high
    ensures Covered(bands, x)
    decreases |bands|
  {
    if !bands[0].Contains(x) {
      var rest := bands[1..];
      assert Contiguous(rest) by {
        forall i | 0 <= i < |rest| - 1
          ensures rest[i].high + 1 == rest[i + 1].low
        {
          assert rest[i] == bands[i + 1] && rest[i + 1] == bands[i + 2];
        }
      }
      ContiguousCovers(rest, x);
      var i :| 0 <= i < |rest| && rest[i].Contains(x);
      assert bands[i + 1].Contains(x);
    }
  }

  /** The destination bands are non-empty, contiguous, pairwise disjoint and
      cover all of 0..0xFFFFFFFF. */
  lemma DestinationBandsPartition()
    ensures Contiguous(DestinationBands) && Ascending(DestinationBands)
    ensures PairwiseDisjoint(DestinationBands)
    ensures CoversAll(DestinationBands)
  {
    AscendingDisjoint(DestinationBands);
    forall x: U32
      ensures Covered(DestinationBands, x)
    {
      assert DestinationBands[0].low == 0 && DestinationBands[|DestinationBands| - 1].high == 0xFFFF_FFFF;
      ContiguousCovers(DestinationBands, x);
    }
  }

  /** The reject bands are non-empty and pairwise disjoint. */
  lemma RejectBandsDisjoint()
    ensures Ascending(RejectBands) && PairwiseDisjoint(RejectBands)
  {
    AscendingDisjoint(RejectBands);
  }

  // ---------------------------------------------------------------------------
  // Routing and source rejection
  // ---------------------------------------------------------------------------

  /** The egress a destination address selects. */
  datatype Route = Interface1 | Interface2 | Interface3 | Broadcast

  /** The band of the destination table that belongs to a route. */
  function BandOf(r: Route): Band {
    match r
    case Interface1 => INT1
    case Interface2 => INT2
    case Interface3 => INT3
    case Broadcast => INT_BC
  }

  /** The route for `dst`: the one whose band holds it. */
  function RouteOf(dst: U32): (r: Route)
    ensures BandOf(r).Contains(dst)
    ensures forall r' :: BandOf(r').Contains(dst) ==> r' == r
  {
    if INT1.Contains(dst) then Interface1
    else if INT2.Contains(dst) then Interface2
    else if INT3.Contains(dst) then Interface3
    else Broadcast
  }

  /** True when `src` lies in one of the four reject bands, that is, between one
      of the REJECT_LOWn/REJECT_HIGHn pairs. */
  ghost predicate InRejectBand(src: U32)
    ensures InRejectBand(src) <==>
      REJECT1.Contains(src) || REJECT2.Contains(src) || REJECT3.Contains(src) || REJECT4.Contains(src)
  {
    assert RejectBands[0] == REJECT1 && RejectBands[1] == REJECT2;
    assert RejectBands[2] == REJECT3 && RejectBands[3] == REJECT4;
    exists i :: 0 <= i < |RejectBands| && RejectBands[i].Contains(src)
  }

  /** The reject band that holds `src`, if any, as an index into RejectBands:
      `Some(0)` is the band REJECT_LOW1..REJECT_HIGH1, `Some(3)` the band
      REJECT_LOW4..REJECT_HIGH4. */
  function RejectBandOf(src: U32): (r: Option<nat>)
    ensures r.Some? <==> InRejectBand(src)
    ensures r.Some? ==> r.value < |RejectBands| && RejectBands[r.value].Contains(src)
    ensures r.Some? ==> forall i :: 0 <= i < |RejectBands| && RejectBands[i].Contains(src) ==> i == r.value
  {
    RejectBandsDisjoint();
    if REJECT1.Contains(src) then assert RejectBands[0].Contains(src); Some(0)
    else if REJECT2.Contains(src) then assert RejectBands[1].Contains(src); Some(1)
    else if REJECT3.Contains(src) then assert RejectBands[2].Contains(src); Some(2)
    else if REJECT4.Contains(src) then assert RejectBands[3].Contains(src); Some(3)
    else
      assert forall i :: 0 <= i < |RejectBands| ==> RejectBands[i] in {REJECT1, REJECT2, REJECT3, REJECT4};
      None
  }

  /** 0x15000000 is in reject band 1 (REJECT_LOW1..REJECT_HIGH1, index 0) and in
      no other. */
  lemma Reject1Member()
    ensures InRejectBand(0x1500_0000) && RejectBandOf(0x1500_0000) == Some(0)
    ensures forall i :: 1 <= i < |RejectBands| ==> !RejectBands[i].Contains(0x1500_0000)
  {
    assert RejectBands[0].Contains(0x1500_0000);
  }

  /** 0xD0000000 is a broadcast destination. */
  lemma BroadcastMember()
    ensures RouteOf(0xD000_0000) == Broadcast
  {
  }

  // ---------------------------------------------------------------------------
  // Packet counters
  // ---------------------------------------------------------------------------

  /** The router's global packet counters, `nbPacketCrees`, `nbPacketTraites`,
      `nbPacketSourceRejete` and `nbPacketCRCRejete`. */
  class Counters {
    var created: int
    var processed: int
    var sourceRejected: int
    var crcRejected: int

    /** All four counters start at zero. */
    constructor()
      ensures created == 0 && processed == 0 && sourceRejected == 0 && crcRejected == 0
    {
      created, processed, sourceRejected, crcRejected := 0, 0, 0, 0;
    }
  }

  // ---------------------------------------------------------------------------
  // Packet types
  // ---------------------------------------------------------------------------

  /** PACKET_TYPE without its NB_PACKET_TYPE sentinel. */
  datatype PacketType = Video | Audio | Autre

  /** The number of packet types, and the enum value that follows the last one. */
  const NB_PACKET_TYPE: int := 3

  /** The enum value of a packet type as C numbers it. */
  function Code(t: PacketType): nat {
    match t
    case Video => 0
    case Audio => 1
    case Autre => 2
  }

  /** The packet type with enum value `c`, if there is one. */
  function TypeOfCode(c: int): (r: Option<PacketType>)
    ensures r.Some? <==> 0 <= c < NB_PACKET_TYPE
    ensures r.Some? ==> Code(r.value) == c
  {
    if c == 0 then Some(Video)
    else if c == 1 then Some(Audio)
    else if c == 2 then Some(Autre)
    else None
  }

  /** The three types have the distinct values 0, 1 and 2, and NB_PACKET_TYPE is
      not a packet type. */
  lemma PacketTypeCodes()
    ensures forall t :: Code(t) < NB_PACKET_TYPE && TypeOfCode(Code(t)) == Some(t)
    ensures forall t, t' :: Code(t) == Code(t') ==> t == t'
    ensures TypeOfCode(NB_PACKET_TYPE) == None
  {
    forall t ensures TypeOfCode(Code(t)) == Some(t) {
      match t
      case Video =>
      case Audio =>
      case Autre =>
    }
  }

  // ---------------------------------------------------------------------------
  // The packet record and its layout in memory
  // ---------------------------------------------------------------------------

  const DATA_WORDS: nat := 12

  /** `unsigned int data[12]` */
  type Payload = s: seq<U32> | |s| == 12
    witness [0, 0, 0, 0, 0, 0, 0, 0, 0, 0, 0, 0]

  /** The Packet struct. */
  datatype Packet = Packet(src: U32, dst: U32, ptype: PacketType, crc: U32, data: Payload)

  /** The 32-bit words of the record in declaration order, the enum stored as one word. */
  function Fields(p: Packet): (ws: seq<U32>)
    ensures |ws| == PACKET_WORDS
    ensures ws[0] == p.src && ws[1] == p.dst && ws[2] == Code(p.ptype) && ws[CRC_WORD] == p.crc
    ensures ws[4..] == p.data
  {
    [p.src, p.dst, Code(p.ptype), p.crc] + p.data
  }

  const PACKET_WORDS: nat := 16

  /** sizeof(Packet) */
  const PACKET_SIZE: nat := 64

  /** Index of `crc` among the record's words, and its byte offset. */
  const CRC_WORD: nat := 3
  const CRC_OFFSET: nat := 12

  /** A 32-bit word as four little-endian bytes. */
  function LittleEndian(x: U32): (b: seq<Byte>)
    ensures |b| == 4
    ensures b[0] as int + 0x100 * (b[1] as int) + 0x1_0000 * (b[2] as int) + 0x100_0000 * (b[3] as int) == x
  {
    [x % 0x100, x / 0x100 % 0x100, x / 0x1_0000 % 0x100, x / 0x100_0000]
  }

  /** Words laid out one after the other, as in memory. */
  function Encode(ws: seq<U32>): (b: seq<Byte>)
    ensures |b| == 4 * |ws|
  {
    if ws == [] then [] else Encode(ws[..|ws| - 1]) + LittleEndian(ws[|ws| - 1])
  }

  /** The bytes of word `k` are bytes 4k..4k+4 of the encoding. */
  lemma {:induction false} EncodeAt(ws: seq<U32>, k: nat)
    requires k < |ws|
    ensures Encode(ws)[4 * k..4 * k + 4] == LittleEndian(ws[k])
  {
    var n := |ws|;
    var front := ws[..n - 1];
    assert Encode(ws) == Encode(front) + LittleEndian(ws[n - 1]);
    if k < n - 1 {
      EncodeAt(front, k);
      assert Encode(ws)[4 * k..4 * k + 4] == Encode(front)[4 * k..4 * k + 4];
    } else {
      assert Encode(ws)[4 * k..4 * k + 4] == LittleEndian(ws[n - 1]);
    }
  }

  /** The packet as it lies in memory. */
  function PacketBytes(p: Packet): seq<Byte> {
    Encode(Fields(p))
  }

  /** A packet is sixteen 32-bit words, i.e. 64 bytes, and its `crc` field is the
      fourth word, at a byte offset that is 16-bit aligned. */
  lemma PacketLayout(p: Packet)
    ensures |PacketBytes(p)| == PACKET_SIZE == 4 * PACKET_WORDS
    ensures CRC_OFFSET == 4 * CRC_WORD && CRC_OFFSET % 2 == 0
    ensures PacketBytes(p)[CRC_OFFSET..CRC_OFFSET + 4] == LittleEndian(p.crc)
  {
    EncodeAt(Fields(p), CRC_WORD);
  }
}
