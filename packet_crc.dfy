/**
 * computePacketCRC: the Internet checksum of a whole Packet record, and what it
 * means for the `crc` field to hold a correct checksum.
 */
module PacketCheck {
  import opened Machine
  import opened InternetChecksum
  import opened Router

  /** The checksum over the 64 bytes of the record, `crc` field included. */
  function PacketCrc(p: Packet): U16 {
    Checksum(PacketBytes(p))
  }

  /** The value the `crc` field must hold: the checksum of the record with the
      field zeroed. */
  function CorrectCrc(p: Packet): U16 {
    PacketCrc(p.(crc := 0))
  }

  /** computePacketCRC: runs computeCRC over the record seen as 64 bytes. */
  method ComputePacketCrc(p: Packet) returns (r: U16)
    ensures r == PacketCrc(p)
    ensures r == 0 <==> Sum(Words(PacketBytes(p))) > 0 && Sum(Words(PacketBytes(p))) % 0xFFFF == 0
  {
    var bytes := PacketBytes(p);
    var buf := new Byte[PACKET_SIZE](i requires 0 <= i < PACKET_SIZE => bytes[i]);
    assert buf[..PACKET_SIZE] == bytes;
    var crc := ComputeCrc(buf, PACKET_SIZE);
    ChecksumZeroIff(bytes);
    r := crc;
  }

  // ---------------------------------------------------------------------------
  // The 16-bit words of a record of 32-bit words
  // ---------------------------------------------------------------------------

  /** The two 16-bit halves of each 32-bit word, low half first. */
  function Halves(ws: seq<U32>): (hs: seq<U16>)
    ensures |hs| == 2 * |ws|
  {
    if ws == [] then []
    else Halves(ws[..|ws| - 1]) + [ws[|ws| - 1] % 0x1_0000, ws[|ws| - 1] / 0x1_0000]
  }

  /** What a 32-bit word contributes to the 16-bit sum. */
  function HalfSum(x: U32): nat {
    x % 0x1_0000 + x / 0x1_0000
  }

  /** Splitting an even-length prefix off the bytes splits their words the same way. */
  lemma {:induction false} WordsConcat(b: seq<Byte>, c: seq<Byte>)
    requires |b| % 2 == 0
    ensures Words(b + c) == Words(b) + Words(c)
    decreases |c|, 1
  {
    if c == [] {
      assert b + c == b;
    } else if |c| % 2 == 1 {
      WordsConcatOdd(b, c);
    } else {
      WordsConcatEven(b, c);
    }
  }

  lemma {:induction false} WordsConcatOdd(b: seq<Byte>, c: seq<Byte>)
    requires |b| % 2 == 0 && |c| % 2 == 1
    ensures Words(b + c) == Words(b) + Words(c)
    decreases |c|, 0
  {
    var front := c[..|c| - 1];
    var x := b + c;
    assert |x| % 2 == 1;
    assert x[..|x| - 1] == b + front && x[|x| - 1] == c[|c| - 1];
    assert Words(x) == Words(b + front) + [c[|c| - 1]];
    assert Words(c) == Words(front) + [c[|c| - 1]];
    WordsConcat(b, front);
  }

  lemma {:induction false} WordsConcatEven(b: seq<Byte>, c: seq<Byte>)
    requires |b| % 2 == 0 && |c| % 2 == 0 && c != []
    ensures Words(b + c) == Words(b) + Words(c)
    decreases |c|, 0
  {
    var front := c[..|c| - 2];
    var x := b + c;
    var w := Word(c[|c| - 2], c[|c| - 1]);
    assert |x| % 2 == 0;
    assert x[..|x| - 2] == b + front && x[|x| - 2] == c[|c| - 2] && x[|x| - 1] == c[|c| - 1];
    assert Words(x) == Words(b + front) + [w];
    assert Words(c) == Words(front) + [w];
    WordsConcat(b, front);
  }

  /** The two 16-bit words of a little-endian 32-bit word are its low and high halves. */
  lemma LittleEndianWords(x: U32)
    ensures Words(LittleEndian(x)) == [x % 0x1_0000, x / 0x1_0000]
  {
    var b := LittleEndian(x);
    assert b[..2][..0] == [];
    assert Words(b[..2]) == [Word(b[0], b[1])];
    LowHalf(x);
    HighHalf(x);
  }

  /** The two low bytes of `x` make up its low 16 bits. */
  lemma LowHalf(x: nat)
    ensures x % 0x100 + 0x100 * (x / 0x100 % 0x100) == x % 0x1_0000
  {
    var q, r := x / 0x1_0000, x % 0x1_0000;
    assert x == 0x1_0000 * q + r;
    assert x / 0x100 == 0x100 * q + r / 0x100;
    assert x / 0x100 % 0x100 == r / 0x100;
    assert x % 0x100 == r % 0x100;
  }

  /** The two high bytes of a 32-bit `x` make up its high 16 bits. */
  lemma HighHalf(x: U32)
    ensures x / 0x1_0000 % 0x100 + 0x100 * (x / 0x100_0000) == x / 0x1_0000
  {
    var y := x / 0x1_0000;
    assert y / 0x100 == x / 0x100_0000;
    assert y % 0x100 + 0x100 * (y / 0x100) == y;
  }

  /** In memory, a record's 16-bit words are the halves of its 32-bit words. */
  lemma {:induction false} WordsOfEncode(ws: seq<U32>)
    ensures Words(Encode(ws)) == Halves(ws)
  {
    if ws != [] {
      var front := ws[..|ws| - 1];
      var x := ws[|ws| - 1];
      WordsOfEncode(front);
      WordsConcat(Encode(front), LittleEndian(x));
      LittleEndianWords(x);
    }
  }

  /** A word below 0x10000 is its own share. */
  lemma HalfSumSmall(x: U32)
    requires x < 0x1_0000
    ensures HalfSum(x) == x
  {
  }

  /** Adding one to an even word adds one to its share of the 16-bit sum. */
  lemma HalfSumNext(x: U32)
    requires x % 2 == 0 && x < 0xFFFF_FFFF
    ensures HalfSum(x + 1) == HalfSum(x) + 1
  {
    var hi := x / 0x1_0000;
    var lo := x % 0x1_0000;
    assert lo % 2 == 0;
    assert x + 1 == hi * 0x1_0000 + (lo + 1) && lo + 1 < 0x1_0000;
  }

  /** The 16-bit sum of a sequence of 32-bit words. */
  function WordSum(ws: seq<U32>): nat {
    if ws == [] then 0 else WordSum(ws[..|ws| - 1]) + HalfSum(ws[|ws| - 1])
  }

  lemma {:induction false} SumHalves(ws: seq<U32>)
    ensures Sum(Halves(ws)) == WordSum(ws)
  {
    if ws != [] {
      var front := ws[..|ws| - 1];
      var x := ws[|ws| - 1];
      SumHalves(front);
      SumConcat(Halves(front), [x % 0x1_0000, x / 0x1_0000]);
    }
  }

  /** Replacing one word changes the 16-bit sum by the difference of the two words' shares. */
  lemma {:induction false} WordSumUpdate(ws: seq<U32>, i: nat, x: U32)
    requires i < |ws|
    ensures WordSum(ws[i := x]) + HalfSum(ws[i]) == WordSum(ws) + HalfSum(x)
  {
    var n := |ws|;
    var vs := ws[i := x];
    if i < n - 1 {
      assert vs[..n - 1] == ws[..n - 1][i := x];
      WordSumUpdate(ws[..n - 1], i, x);
    } else {
      assert vs[..n - 1] == ws[..n - 1];
    }
  }

  /** The 16-bit sum of a record in memory is the 16-bit sum of its fields. */
  lemma PacketWordSum(p: Packet)
    ensures Sum(Words(PacketBytes(p))) == WordSum(Fields(p))
  {
    WordsOfEncode(Fields(p));
    SumHalves(Fields(p));
  }

  /** Replacing payload word i changes the record's 16-bit sum by the difference of
      the two words' shares. */
  lemma PayloadWordSum(p: Packet, i: nat, x: U32)
    requires i < DATA_WORDS
    ensures Sum(Words(PacketBytes(p.(data := p.data[i := x])))) + HalfSum(p.data[i])
         == Sum(Words(PacketBytes(p))) + HalfSum(x)
  {
    var q := p.(data := p.data[i := x]);
    assert Fields(q) == Fields(p)[4 + i := x];
    PacketWordSum(p);
    PacketWordSum(q);
    WordSumUpdate(Fields(p), 4 + i, x);
  }

  /** The 16-bit sum of a record splits into the `crc` field's share and the share
      of everything else, which is the sum with the field zeroed. */
  lemma PacketSum(p: Packet)
    ensures Sum(Words(PacketBytes(p))) == Sum(Words(PacketBytes(p.(crc := 0)))) + HalfSum(p.crc)
  {
    var q := p.(crc := 0);
    assert Fields(q) == Fields(p)[CRC_WORD := 0];
    PacketWordSum(p);
    PacketWordSum(q);
    WordSumUpdate(Fields(p), CRC_WORD, 0);
  }

  /** A 64-byte record cannot overflow the 32-bit accumulator, so computePacketCRC
      returns the complement of the one's-complement sum of its 16-bit words. */
  lemma PacketCrcIsOnesComplement(p: Packet)
    ensures Sum(Words(PacketBytes(p))) < 0x1_0000_0000
    ensures PacketCrc(p) == 0xFFFF - OnesSum(Words(PacketBytes(p)))
  {
    PacketLayout(p);
    SumBound(PacketBytes(p));
    ChecksumIsComplementedOnesSum(PacketBytes(p));
  }

  // ---------------------------------------------------------------------------
  // Storing and checking the checksum
  // ---------------------------------------------------------------------------

  /** With the rest of the record summing to `rest`, a 16-bit `crc` makes the whole
      record check to zero exactly when it is the computed checksum, or when the
      computed checksum `c` is 0 and `crc` is its other one's-complement spelling 0xFFFF. */
  lemma CheckIff(rest: nat, crc: U16, c: U16)
    requires c == 0xFFFF - Residue(rest)
    ensures (rest + crc > 0 && (rest + crc) % 0xFFFF == 0) <==> (crc == c || (c == 0 && crc == 0xFFFF))
  {
    if rest == 0 {
      assert c == 0xFFFF;
    } else {
      var q := (rest - 1) / 0xFFFF;
      assert rest - 1 == q * 0xFFFF + (rest - 1) % 0xFFFF;
      assert rest + c == (q + 1) * 0xFFFF;
      ModShift(0, q + 1);
      if crc < c {
        ShiftOffMultiple(rest + c, crc - c);
      } else if c < crc && !(c == 0 && crc == 0xFFFF) {
        ShiftOffMultiple(rest + c, crc - c);
      } else if c == 0 && crc == 0xFFFF {
        ModShift(0, q + 2);
      }
    }
  }

  /** The checksum to store is the complement of the end-around-carry residue of
      the rest of the record's 16-bit sum. */
  lemma CorrectCrcResidue(p: Packet)
    ensures CorrectCrc(p) == 0xFFFF - Residue(Sum(Words(PacketBytes(p.(crc := 0)))))
  {
    var q := p.(crc := 0);
    PacketCrcIsOnesComplement(q);
    OnesSumIsResidue(Words(PacketBytes(q)));
  }

  /** A record checks to zero exactly when its 16-bit sum is a non-zero multiple
      of 0xFFFF. */
  lemma PacketZeroIff(p: Packet)
    ensures PacketCrc(p) == 0 <==> Sum(Words(PacketBytes(p))) > 0 && Sum(Words(PacketBytes(p))) % 0xFFFF == 0
  {
    PacketLayout(p);
    ChecksumZeroIff(PacketBytes(p));
  }

  /** With a 16-bit value in its `crc` field, a record checks to zero exactly when
      the field holds the checksum computed with the field zeroed (or 0xFFFF where
      that checksum is 0). */
  lemma CheckZeroIff(p: Packet)
    requires p.crc < 0x1_0000
    ensures PacketCrc(p) == 0 <==> p.crc == CorrectCrc(p) || (CorrectCrc(p) == 0 && p.crc == 0xFFFF)
  {
    PacketSum(p);
    HalfSumSmall(p.crc);
    PacketZeroIff(p);
    CorrectCrcResidue(p);
    CheckValues(PacketCrc(p), Sum(Words(PacketBytes(p))), Sum(Words(PacketBytes(p.(crc := 0)))),
                p.crc, CorrectCrc(p));
  }

  /** CheckIff, with the packet's check value and sums as plain numbers. */
  lemma CheckValues(check: U16, total: nat, rest: nat, crc: U16, c: U16)
    requires total == rest + crc
    requires check == 0 <==> total > 0 && total % 0xFFFF == 0
    requires c == 0xFFFF - Residue(rest)
    ensures check == 0 <==> crc == c || (c == 0 && crc == 0xFFFF)
  {
    CheckIff(rest, crc, c);
  }

  /** Round trip: storing the computed checksum in the zeroed field makes the
      checksum over the whole record 0. */
  lemma StoredCrcChecks(p: Packet)
    ensures PacketCrc(p.(crc := CorrectCrc(p))) == 0
  {
    var s := p.(crc := CorrectCrc(p));
    assert s.(crc := 0) == p.(crc := 0);
    CheckZeroIff(s);
  }

  /** One fixed 16-bit `crc` value cannot make two records check when the rest of
      their 16-bit sums differ by one. */
  lemma NotBothCheck(p1: Packet, p2: Packet)
    requires p1.crc == p2.crc < 0x1_0000
    requires Sum(Words(PacketBytes(p2.(crc := 0)))) == Sum(Words(PacketBytes(p1.(crc := 0)))) + 1
    ensures PacketCrc(p1) != 0 || PacketCrc(p2) != 0
  {
    var rest1 := Sum(Words(PacketBytes(p1.(crc := 0))));
    var r1 := Residue(rest1);
    assert CorrectCrc(p1) == 0xFFFF - r1 by {
      CorrectCrcResidue(p1);
    }
    assert CorrectCrc(p2) == 0xFFFF - OnesAdd(r1, 1) by {
      CorrectCrcResidue(p2);
      ResidueAdd(rest1, 1);
    }
    var c1, c2 := CorrectCrc(p1), CorrectCrc(p2);
    assert c1 != c2 && c2 != 0xFFFF;
    assert c1 == 0xFFFF ==> c2 == 0xFFFE;
    CheckZeroIff(p1);
    CheckZeroIff(p2);
  }
}
