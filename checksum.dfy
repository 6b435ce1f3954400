/**
 * computeCRC (routeur.c): the Internet checksum of section 4.1 of RFC 1071.
 *
 * A buffer is read as little-endian 16-bit words (an odd trailing byte becomes the
 * low half of a zero-padded last word); the words are added into a 32-bit
 * accumulator, the carries are folded back twice and the one's complement of the
 * low 16 bits is returned.  Checksum is the specification, ComputeCrc the loop.
 */
module InternetChecksum {
  import opened Machine

  // ---------------------------------------------------------------------------
  // Specification
  // ---------------------------------------------------------------------------

  /** A `uint16_t` read from two consecutive bytes of a little-endian memory. */
  function Word(lo: Byte, hi: Byte): U16 {
    lo + 0x100 * hi
  }

  /** The 16-bit words `*w++` reads from the buffer, the last one zero-padded when
      the length is odd. */
  function Words(b: seq<Byte>): (ws: seq<U16>)
    decreases |b|
  {
    if |b| == 0 then []
    else if |b| % 2 == 1 then Words(b[..|b| - 1]) + [b[|b| - 1]]
    else Words(b[..|b| - 2]) + [Word(b[|b| - 2], b[|b| - 1])]
  }

  /** The plain (unbounded) sum of a sequence of words. */
  function Sum(ws: seq<U16>): (s: nat)
    ensures s <= |ws| * 0xFFFF
  {
    if ws == [] then 0 else Sum(ws[..|ws| - 1]) + ws[|ws| - 1]
  }

  /** The two carry folds applied to the 32-bit accumulator: the low 16 bits of
      the result are the end-around-carry residue of the accumulator. */
  function Fold(sum: U32): (r: nat)
    ensures r % 0x1_0000 == Residue(sum)
  {
    CarryFolds(sum);
    var once := sum % 0x1_0000 + sum / 0x1_0000;
    once + once / 0x1_0000
  }

  /** `answer = ~sum` stored in a `uint16_t`: every one of the low 16 bits of
      `sum` inverted, which is the value that adds to those bits to give 0xFFFF. */
  function Complement(sum: nat): (c: U16)
    ensures sum % 0x1_0000 + c == 0xFFFF
  {
    InvertSixteen(sum % 0x1_0000);
    Invert(sum % 0x1_0000, 16)
  }

  function Pow2(k: nat): nat {
    if k == 0 then 1 else 2 * Pow2(k - 1)
  }

  /** The bitwise `~` on the low `width` bits of `x`, one bit at a time from the
      least significant. */
  function Invert(x: nat, width: nat): nat {
    if width == 0 then 0 else (1 - x % 2) + 2 * Invert(x / 2, width - 1)
  }

  /** Inverting every bit of a `width`-bit value subtracts it from the all-ones
      value of that width. */
  lemma {:induction false} InvertIsSubtraction(x: nat, width: nat)
    requires x < Pow2(width)
    ensures Invert(x, width) == Pow2(width) - 1 - x
  {
    if width > 0 {
      InvertIsSubtraction(x / 2, width - 1);
    }
  }

  /** The 16-bit case, as `~` on a `uint16_t` uses it. */
  lemma InvertSixteen(x: nat)
    requires x < 0x1_0000
    ensures Invert(x, 16) == 0xFFFF - x
  {
    assert Pow2(8) == 0x100;
    InvertIsSubtraction(x, 16);
  }

  /** The value computeCRC returns for exactly the bytes `b`: for any buffer too
      short to wrap the accumulator, the complement of the end-around-carry
      residue of the plain sum of its words. */
  function Checksum(b: seq<Byte>): (c: U16)
    ensures |b| <= 0x2_0000 ==> c == 0xFFFF - Residue(Sum(Words(b)))
  {
    var total := Sum(Words(b));
    var acc := total % 0x1_0000_0000;
    assert |b| <= 0x2_0000 ==> Complement(Fold(acc)) == 0xFFFF - Residue(total) by {
      if |b| <= 0x2_0000 {
        SumBound(b);
        ComplementOfFold(acc, total);
      }
    }
    Complement(Fold(acc))
  }

  /** Without wrap-around, the complemented fold is the complement of the residue. */
  lemma ComplementOfFold(acc: U32, total: nat)
    requires total < 0x1_0000_0000 && acc == total % 0x1_0000_0000
    ensures Complement(Fold(acc)) == 0xFFFF - Residue(total)
  {
    var folded := Fold(acc);
    assert folded % 0x1_0000 == Residue(total) by {
      assert acc == total;
    }
    assert folded % 0x1_0000 + Complement(folded) == 0xFFFF;
  }

  // ---------------------------------------------------------------------------
  // Reference definition: one's-complement (end-around-carry) addition
  // ---------------------------------------------------------------------------

  /** Adds two 16-bit words in one's complement: a carry out of bit 15 is added
      back in at bit 0. */
  function OnesAdd(a: U16, w: U16): (r: U16)
    ensures r == 0 <==> a == 0 && w == 0
  {
    if a + w > 0xFFFF then a + w - 0xFFFF else a + w
  }

  /** The one's-complement sum of a sequence of words, added left to right. */
  function OnesSum(ws: seq<U16>): U16 {
    if ws == [] then 0 else OnesAdd(OnesSum(ws[..|ws| - 1]), ws[|ws| - 1])
  }

  /** What an end-around-carry sum of words whose plain sum is `s` comes to:
      0 for the empty sum, otherwise the representative of `s` modulo 0xFFFF
      taken in 1..0xFFFF. */
  ghost function Residue(s: nat): U16 {
    if s == 0 then 0 else (s - 1) % 0xFFFF + 1
  }

  // ---------------------------------------------------------------------------
  // The implementation
  // ---------------------------------------------------------------------------

  /** computeCRC(w, nleft): reads the first `nleft` bytes of `w` (none when
      `nleft` is not positive) and never writes to it. */
  method ComputeCrc(w: array<Byte>, nleft: int) returns (r: nat)
    requires nleft <= w.Length
    ensures r <= 0xFFFF
    ensures r == Checksum(w[..if nleft < 0 then 0 else nleft])
  {
    var sum, i, left := AddWords(w, nleft);
    if left == 1 {
      var answer: U16 := w[i];  // the low byte of `answer`, its high byte staying 0
      AccumulateLastByte(w, i, i / 2, sum);
      sum := AddU32(sum, answer);
      i := i + 1;
    }
    r := FoldComplement(sum);
  }

  /** computeCRC's loop: adds the 16-bit words of `w`, two bytes at a time, into
      a 32-bit accumulator until fewer than two of the `nleft` bytes are left. */
  method AddWords(w: array<Byte>, nleft: int) returns (sum: U32, i: nat, left: int)
    requires nleft <= w.Length
    ensures i % 2 == 0 && left == nleft - i
    ensures if nleft < 0 then i == 0 else 0 <= left <= 1
    ensures sum == Sum(Words(w[..i])) % 0x1_0000_0000
  {
    ghost var words := 0;  // words read so far
    ghost var total: nat := 0;  // the accumulator without wrap-around
    sum, i, left := 0, 0, nleft;
    while left > 1
      invariant i == 2 * words && left == nleft - i && i <= w.Length
      invariant nleft < 0 ==> i == 0
      invariant nleft >= 0 ==> left >= 0
      invariant Accumulated(w, i, sum, total)
    {
      var word := Word(w[i], w[i + 1]);
      AccumulateWord(w, i, words, sum, total);
      sum, total := AddU32(sum, word), total + word;
      i, words := i + 2, words + 1;
      left := left - 2;
    }
  }

  /** `sum` is the 32-bit accumulator of the first `i` bytes, and `total` the
      same sum without wrap-around. */
  ghost predicate Accumulated(w: array<Byte>, i: nat, sum: U32, total: nat)
    requires i <= w.Length
    reads w
  {
    total == Sum(Words(w[..i])) && sum == total % 0x1_0000_0000
  }

  /** computeCRC's tail: fold the carries back twice, then complement. */
  method FoldComplement(sum: U32) returns (answer: U16)
    ensures answer == Complement(Fold(sum))
  {
    var acc := sum;
    acc := acc % 0x1_0000 + acc / 0x1_0000;
    acc := acc + acc / 0x1_0000;
    assert acc == Fold(sum);
    answer := 0xFFFF - acc % 0x1_0000;
    assert acc % 0x1_0000 + Complement(acc) == 0xFFFF;
  }

  /** computeCRC has no effect on the buffer: two calls on the same unmodified
      buffer return the same value. */
  method ComputeCrcTwice(w: array<Byte>, nleft: int) returns (first: nat, second: nat)
    requires nleft <= w.Length
    ensures first == second
  {
    first := ComputeCrc(w, nleft);
    second := ComputeCrc(w, nleft);
  }

  // ---------------------------------------------------------------------------
  // Helper facts about Words and Sum
  // ---------------------------------------------------------------------------

  /** One iteration of computeCRC's loop: the plain sum of the words read so far,
      plus the next word, is the plain sum of one word more, and adding that word
      to the wrapped accumulator gives the wrapped accumulator of one word more. */
  lemma AccumulateWord(w: array<Byte>, i: nat, k: nat, sum: U32, total: nat)
    requires i == 2 * k && i + 2 <= w.Length
    requires Accumulated(w, i, sum, total)
    ensures Accumulated(w, i + 2, AddU32(sum, Word(w[i], w[i + 1])), total + Word(w[i], w[i + 1]))
  {
    var b := w[..];
    assert b[..i] == w[..i] && b[..i + 2] == w[..i + 2];
    SumNextWord(b, i, k);
    AddMod(sum, total, Word(w[i], w[i + 1]), total + Word(w[i], w[i + 1]));
  }

  /** Reading two more bytes adds one whole word to the plain sum. */
  lemma SumNextWord(b: seq<Byte>, i: nat, k: nat)
    requires i == 2 * k && i + 2 <= |b|
    ensures Sum(Words(b[..i + 2])) == Sum(Words(b[..i])) + Word(b[i], b[i + 1])
  {
    var c := b[..i + 2];
    assert |c| % 2 == 0 && c[..|c| - 2] == b[..i];
    assert c[|c| - 2] == b[i] && c[|c| - 1] == b[i + 1];
    assert Words(c) == Words(b[..i]) + [Word(b[i], b[i + 1])];
    SumAppend(Words(b[..i]), Word(b[i], b[i + 1]));
  }

  /** The trailing odd byte is added as the low byte of a zero-padded word. */
  lemma AccumulateLastByte(w: array<Byte>, i: nat, k: nat, sum: U32)
    requires i == 2 * k && i + 1 <= w.Length
    requires sum == Sum(Words(w[..i])) % 0x1_0000_0000
    ensures AddU32(sum, w[i]) == Sum(Words(w[..i + 1])) % 0x1_0000_0000
  {
    var b := w[..];
    assert b[..i] == w[..i] && b[..i + 1] == w[..i + 1];
    SumLastByte(b, i, k);
    AddMod(sum, Sum(Words(w[..i])), w[i], Sum(Words(w[..i + 1])));
  }

  /** Reading one trailing byte adds it, zero-padded, to the plain sum. */
  lemma SumLastByte(b: seq<Byte>, i: nat, k: nat)
    requires i == 2 * k && i + 1 <= |b|
    ensures Sum(Words(b[..i + 1])) == Sum(Words(b[..i])) + b[i]
  {
    var c := b[..i + 1];
    assert |c| % 2 == 1 && c[..|c| - 1] == b[..i] && c[|c| - 1] == b[i];
    assert Words(c) == Words(b[..i]) + [b[i]];
    SumAppend(Words(b[..i]), b[i]);
  }

  /** Adding to a 32-bit accumulator that wraps. */
  lemma AddMod(sum: U32, before: nat, x: U32, after: nat)
    requires sum == before % 0x1_0000_0000 && after == before + x
    ensures AddU32(sum, x) == after % 0x1_0000_0000
  {
    var q := before / 0x1_0000_0000;
    assert after == (before % 0x1_0000_0000 + x) + q * 0x1_0000_0000;
  }

  lemma ModShift(x: nat, k: nat)
    ensures (x + k * 0xFFFF) % 0xFFFF == x % 0xFFFF
  {
  }

  /** A buffer of n bytes is read as ceil(n / 2) words. */
  lemma {:induction false} WordsLength(b: seq<Byte>)
    ensures |Words(b)| == (|b| + 1) / 2
    decreases |b|
  {
    if |b| % 2 == 1 {
      WordsLength(b[..|b| - 1]);
    } else if |b| > 0 {
      WordsLength(b[..|b| - 2]);
    }
  }

  /** The words of a buffer of up to 128 KiB add up to less than 2^32, so the
      32-bit accumulator never wraps on it. */
  lemma SumBound(b: seq<Byte>)
    requires |b| <= 0x2_0000
    ensures Sum(Words(b)) < 0x1_0000_0000
  {
    var ws := Words(b);
    WordsLength(b);
    assert |ws| <= 0x1_0000;
    assert Sum(ws) <= |ws| * 0xFFFF;
  }

  lemma SumAppend(ws: seq<U16>, w: U16)
    ensures Sum(ws + [w]) == Sum(ws) + w
  {
    assert (ws + [w])[..|ws|] == ws;
  }

  lemma {:induction false} SumConcat(a: seq<U16>, b: seq<U16>)
    ensures Sum(a + b) == Sum(a) + Sum(b)
    decreases |b|
  {
    if b == [] {
      assert a + b == a;
    } else {
      var b' := b[..|b| - 1];
      assert a + b == (a + b') + [b[|b| - 1]];
      SumAppend(a + b', b[|b| - 1]);
      SumConcat(a, b');
      SumAppend(b', b[|b| - 1]);
      assert b == b' + [b[|b| - 1]];
    }
  }

  /** Replacing one word changes the sum by the difference of the two words. */
  lemma {:induction false} SumUpdate(ws: seq<U16>, j: nat, v: U16)
    requires j < |ws|
    ensures Sum(ws[j := v]) + ws[j] == Sum(ws) + v
    decreases |ws|
  {
    var n := |ws|;
    var ws' := ws[j := v];
    if j == n - 1 {
      assert ws'[..n - 1] == ws[..n - 1];
    } else {
      assert ws'[..n - 1] == ws[..n - 1][j := v];
      SumUpdate(ws[..n - 1], j, v);
    }
  }

  // ---------------------------------------------------------------------------
  // Properties
  // ---------------------------------------------------------------------------

  /** The double fold yields, in its low 16 bits, the residue of the
      accumulator. */
  lemma CarryFolds(s: U32)
    ensures var once := s % 0x1_0000 + s / 0x1_0000; (once + once / 0x1_0000) % 0x1_0000 == Residue(s)
  {
    var h, l := s / 0x1_0000, s % 0x1_0000;
    var once := l + h;
    assert s == once + h * 0xFFFF;
    if s != 0 {
      assert once >= 1;
      assert (s - 1) % 0xFFFF == (once - 1) % 0xFFFF by {
        ModShift(once - 1, h);
      }
      if once < 0x1_0000 {
        assert once + once / 0x1_0000 == once;
      } else {
        assert once + once / 0x1_0000 == once + 1;
        assert (once - 1) % 0xFFFF == once - 1 - 0xFFFF;
      }
    }
  }

  /** The residue is 0xFFFF ("negative zero") exactly for positive multiples of 0xFFFF. */
  lemma ResidueFullIff(s: nat)
    ensures Residue(s) == 0xFFFF <==> s > 0 && s % 0xFFFF == 0
  {
    if s > 0 {
      var q, r := (s - 1) / 0xFFFF, (s - 1) % 0xFFFF;
      assert s == q * 0xFFFF + r + 1;
      if r == 0xFFFE {
        assert s == (q + 1) * 0xFFFF;
        ModShift(0, q + 1);
      } else {
        ModShift(r + 1, q);
      }
    }
  }

  /** Adding one word to a plain sum is one end-around-carry addition on its residue. */
  lemma ResidueAdd(s: nat, w: U16)
    ensures Residue(s + w) == OnesAdd(Residue(s), w)
  {
    if s != 0 && w != 0 {
      var e := Residue(s);
      var q := (s - 1) / 0xFFFF;
      assert s - 1 == q * 0xFFFF + (e - 1);
      assert s + w - 1 == q * 0xFFFF + (e + w - 1);
      if e + w - 1 < 0xFFFF {
        assert (s + w - 1) % 0xFFFF == e + w - 1;
      } else {
        assert s + w - 1 == (q + 1) * 0xFFFF + (e + w - 1 - 0xFFFF);
        assert (s + w - 1) % 0xFFFF == e + w - 1 - 0xFFFF;
      }
    }
  }

  /** The end-around-carry sum of the words is the residue of their plain sum. */
  lemma {:induction false} OnesSumIsResidue(ws: seq<U16>)
    ensures OnesSum(ws) == Residue(Sum(ws))
  {
    if ws != [] {
      OnesSumIsResidue(ws[..|ws| - 1]);
      ResidueAdd(Sum(ws[..|ws| - 1]), ws[|ws| - 1]);
    }
  }

  /** The folds at routeur.c:61-62 compute the one's-complement sum of all the
      words, provided the 32-bit accumulator did not wrap. */
  lemma FoldIsOnesSum(ws: seq<U16>)
    requires Sum(ws) < 0x1_0000_0000
    ensures Fold(Sum(ws)) % 0x1_0000 == OnesSum(ws)
  {
    OnesSumIsResidue(ws);
  }

  /** For any buffer of up to 128 KiB the accumulator cannot wrap, so computeCRC
      returns the one's complement of the one's-complement sum of the words. */
  lemma ChecksumIsComplementedOnesSum(b: seq<Byte>)
    requires |b| <= 0x2_0000
    ensures Checksum(b) == 0xFFFF - OnesSum(Words(b))
  {
    OnesSumIsResidue(Words(b));
  }

  /** The verification rule: a buffer checks to 0 exactly when the plain sum of
      its words is a positive multiple of 0xFFFF ("negative zero"). */
  lemma ChecksumZeroIff(b: seq<Byte>)
    requires |b| <= 0x2_0000
    ensures Checksum(b) == 0 <==> Sum(Words(b)) > 0 && Sum(Words(b)) % 0xFFFF == 0
  {
    ResidueFullIff(Sum(Words(b)));
  }

  /** Appending a zero byte to an odd-length buffer does not change the checksum. */
  lemma ZeroPadding(b: seq<Byte>)
    requires |b| % 2 == 1
    ensures Checksum(b + [0]) == Checksum(b)
  {
    var b' := b + [0];
    assert b'[..|b'| - 2] == b[..|b| - 1];
    assert Words(b') == Words(b);
  }

  /** Equal multisets of words have equal sums. */
  lemma {:induction false} SumPermutation(a: seq<U16>, b: seq<U16>)
    requires multiset(a) == multiset(b)
    ensures Sum(a) == Sum(b)
    decreases |a|
  {
    if a == [] {
      assert |b| == |multiset(b)| == 0;
    } else {
      var x := a[|a| - 1];
      var a' := a[..|a| - 1];
      assert a == a' + [x];
      assert x in multiset(b);
      var i :| 0 <= i < |b| && b[i] == x;
      var b' := RemoveAt(b, i);
      assert multiset(a') == multiset(b') by {
        assert multiset(a) == multiset(a') + multiset{x};
      }
      SumPermutation(a', b');
      SumAppend(a', x);
    }
  }

  /** `b` without its element at `i`, which leaves the multiset and the sum of `b`
      short of exactly that element. */
  function RemoveAt(b: seq<U16>, i: nat): (r: seq<U16>)
    requires i < |b|
    ensures multiset(r) == multiset(b) - multiset{b[i]}
    ensures Sum(r) + b[i] == Sum(b)
  {
    var r := b[..i] + b[i + 1..];
    assert b == b[..i] + [b[i]] + b[i + 1..];
    SumConcat(b[..i] + [b[i]], b[i + 1..]);
    SumAppend(b[..i], b[i]);
    SumConcat(b[..i], b[i + 1..]);
    r
  }

  /** The checksum does not depend on the order of the 16-bit words. */
  lemma WordOrderIndependent(b1: seq<Byte>, b2: seq<Byte>)
    requires multiset(Words(b1)) == multiset(Words(b2))
    ensures Checksum(b1) == Checksum(b2)
  {
    SumPermutation(Words(b1), Words(b2));
  }

  /** How much the word holding byte `k` moves when that byte changes from `was`
      to `now`: the low byte of a word weighs 1, the high byte 0x100. */
  function ByteDelta(k: nat, was: Byte, now: Byte): int {
    if k % 2 == 0 then now - was else 0x100 * (now - was)
  }

  /** Changing byte `k` changes only the word that holds it, by ByteDelta. */
  lemma {:induction false} WordsUpdate(b: seq<Byte>, k: nat, v: Byte)
    requires k < |b|
    ensures |Words(b[k := v])| == |Words(b)| && k / 2 < |Words(b)|
    ensures Words(b[k := v])[k / 2] == Words(b)[k / 2] + ByteDelta(k, b[k], v)
    ensures Words(b[k := v]) == Words(b)[k / 2 := Words(b[k := v])[k / 2]]
    decreases |b|, 1
  {
    if |b| % 2 == 1 {
      WordsUpdateOdd(b, k, v);
    } else {
      WordsUpdateEven(b, k, v);
    }
  }

  lemma {:induction false} WordsUpdateOdd(b: seq<Byte>, k: nat, v: Byte)
    requires k < |b| && |b| % 2 == 1
    ensures |Words(b[k := v])| == |Words(b)| && k / 2 < |Words(b)|
    ensures Words(b[k := v])[k / 2] == Words(b)[k / 2] + ByteDelta(k, b[k], v)
    ensures Words(b[k := v]) == Words(b)[k / 2 := Words(b[k := v])[k / 2]]
    decreases |b|, 0
  {
    var n := |b|;
    var b' := b[k := v];
    var front, front' := b[..n - 1], b'[..n - 1];
    WordsLength(front);
    assert Words(b) == Words(front) + [b[n - 1]];
    assert Words(b') == Words(front') + [b'[n - 1]];
    if k == n - 1 {
      assert front' == front;
    } else {
      assert front' == front[k := v];
      WordsUpdate(front, k, v);
    }
  }

  lemma {:induction false} WordsUpdateEven(b: seq<Byte>, k: nat, v: Byte)
    requires k < |b| && |b| % 2 == 0
    ensures |Words(b[k := v])| == |Words(b)| && k / 2 < |Words(b)|
    ensures Words(b[k := v])[k / 2] == Words(b)[k / 2] + ByteDelta(k, b[k], v)
    ensures Words(b[k := v]) == Words(b)[k / 2 := Words(b[k := v])[k / 2]]
    decreases |b|, 0
  {
    var n := |b|;
    var b' := b[k := v];
    var front, front' := b[..n - 2], b'[..n - 2];
    WordsLength(front);
    assert Words(b) == Words(front) + [Word(b[n - 2], b[n - 1])];
    assert Words(b') == Words(front') + [Word(b'[n - 2], b'[n - 1])];
    if k >= n - 2 {
      assert front' == front;
    } else {
      assert front' == front[k := v];
      WordsUpdate(front, k, v);
    }
  }

  /** A buffer that checks to 0 no longer does once any single byte is changed. */
  lemma SingleByteErrorDetected(b: seq<Byte>, k: nat, v: Byte)
    requires |b| <= 0x2_0000 && k < |b| && v != b[k]
    requires Checksum(b) == 0
    ensures Checksum(b[k := v]) != 0
  {
    var b' := b[k := v];
    var ws, ws' := Words(b), Words(b[k := v]);
    var delta := ByteDelta(k, b[k], v);
    WordsUpdate(b, k, v);
    assert ws' == ws[k / 2 := ws'[k / 2]];
    SumUpdate(ws, k / 2, ws'[k / 2]);
    assert Sum(ws') == Sum(ws) + delta;
    ChecksumZeroIff(b);
    ChecksumZeroIff(b');
    assert 0 < delta < 0xFFFF || -0xFFFF < delta < 0;
    ShiftOffMultiple(Sum(ws), delta);
  }

  /** Moving a multiple of 0xFFFF by less than 0xFFFF (but not by 0) leaves the multiples. */
  lemma ShiftOffMultiple(m: nat, d: int)
    requires m % 0xFFFF == 0 && m + d >= 0
    requires 0 < d < 0xFFFF || -0xFFFF < d < 0
    ensures (m + d) % 0xFFFF != 0
  {
    var q := m / 0xFFFF;
    if d > 0 {
      assert m + d == q * 0xFFFF + d;
    } else {
      assert m + d == (q - 1) * 0xFFFF + (0xFFFF + d);
    }
  }
}
