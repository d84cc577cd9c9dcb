/**
 The checksums of the download protocol: the Spreadtrum sum of every BSL frame, the two
 table-driven reflected CRCs, the classic BootROM CRC-16 and the additive NV sum.
 */
module Checksum {
  import opened Bytes

  // ---------------------------------------------------------------- Spreadtrum sum

  /** Sum of the little-endian words, a trailing odd byte counting as a low byte. */
  function LeTotal(d: Data): nat
  {
    if d == [] then 0
    else if |d| == 1 then d[0]
    else Word16(d[1], d[0]) + LeTotal(d[2..])
  }

  /** Ones-complement addition of RFC 1071: a carry out of bit 15 is added back in. */
  function OnesAdd(a: U16, b: U16): U16
  {
    if a + b < 0x1_0000 then a + b else a + b - 0xFFFF
  }

  function Swap(x: U16): U16 { Word16(x % 0x100, x / 0x100) }

  /** Both halves of the accumulator added with end-around carry, complemented and swapped. */
  function SprdFold(total: U32): U16
  {
    Swap(0xFFFF - OnesAdd(total / 0x1_0000, total % 0x1_0000))
  }

  function SprdSumOf(d: Data): U16 { SprdFold(Wrap32(LeTotal(d))) }

  method SprdSum(data: Data) returns (r: U16)
    ensures r == SprdSumOf(data)
  {
    var total: U32 := 0;
    assert data[0..] == data;
    var i := 0;
    ghost var wraps := 0;
    while |data| - i >= 2
      invariant 0 <= i <= |data|
      invariant total + 0x1_0000_0000 * wraps + LeTotal(data[i..]) == LeTotal(data)
    {
      assert data[i..][2..] == data[i + 2..];
      var sum := total + Word16(data[i + 1], data[i]);
      wraps := wraps + sum / 0x1_0000_0000;
      total := Wrap32(sum);
      i := i + 2;
    }
    if i < |data| {
      var sum := total + data[i] as int;
      wraps := wraps + sum / 0x1_0000_0000;
      total := Wrap32(sum);
    }
    FoldTwice(LeTotal(data), total, wraps);
    var once := total / 0x1_0000 + total % 0x1_0000;
    var folded := 0xFFFF - (once + once / 0x1_0000) % 0x1_0000;
    r := folded / 0x100 + folded % 0x100 * 0x100;
  }

  /** Undoing the wrap-around, and adding the carry and masking, is what the fold says. */
  lemma FoldTwice(sum: nat, total: U32, wraps: nat)
    requires sum == total + 0x1_0000_0000 * wraps
    ensures Wrap32(sum) == total
    ensures var once := total / 0x1_0000 + total % 0x1_0000;
            (once + once / 0x1_0000) % 0x1_0000 == OnesAdd(total / 0x1_0000, total % 0x1_0000)
  {
  }

  /** Ones-complement sum of the big-endian words, an odd byte padded with a zero low byte. */
  function OnesSum(d: Data): U16
  {
    if d == [] then 0
    else if |d| == 1 then Word16(d[0], 0)
    else OnesAdd(Word16(d[0], d[1]), OnesSum(d[2..]))
  }

  /** The Internet checksum, section 1 of RFC 1071. */
  function InternetChecksum(d: Data): U16 { 0xFFFF - OnesSum(d) }

  /** A 131074-byte input is the longest for which the 32-bit accumulator cannot wrap. */
  lemma {:induction false} TotalBound(d: Data)
    ensures 2 * LeTotal(d) <= |d| * 0xFFFF
    ensures |d| <= 131074 ==> LeTotal(d) < 0x1_0000_0000 && Wrap32(LeTotal(d)) == LeTotal(d)
  {
    if |d| <= 1 {
    } else {
      TotalBound(d[2..]);
    }
  }

  /** Byte order costs only multiples of 65535 (section 2(B) of RFC 1071). */
  lemma {:induction false} ByteOrder(d: Data) returns (k: int)
    ensures 0x100 * LeTotal(d) == OnesSum(d) + 0xFFFF * k
    ensures OnesSum(d) == 0 <==> LeTotal(d) == 0
  {
    if |d| <= 1 {
      k := 0;
    } else {
      var rest := ByteOrder(d[2..]);
      var word := Word16(d[0], d[1]);
      k := rest + d[1] + if word + OnesSum(d[2..]) < 0x1_0000 then 0 else 1;
    }
  }

  /** The complemented fold is 256 times the accumulator modulo 65535, and 0 only for 0. */
  lemma FoldResidue(total: U32) returns (k: int)
    ensures 0x100 * (total as int) == (0xFFFF - SprdFold(total)) + 0xFFFF * k
    ensures SprdFold(total) == 0xFFFF <==> total == 0
  {
    var high, low := total / 0x1_0000, total % 0x1_0000;
    var folded := OnesAdd(high, low);
    var carries := if high + low < 0x1_0000 then high else high + 1;
    assert total == folded + 0xFFFF * carries;
    var top, bottom := folded / 0x100, folded % 0x100;
    SwapComplement(top, bottom);
    k := 0x100 * carries + top;
  }

  lemma SwapComplement(top: Byte, bottom: Byte)
    ensures Swap(0xFFFF - Word16(top, bottom)) == 0xFFFF - Word16(bottom, top)
  {
    assert 0xFFFF - Word16(top, bottom) == Word16(0xFF - top, 0xFF - bottom);
  }

  lemma SprdSumIsInternetChecksum(d: Data)
    requires |d| <= 131074
    ensures SprdSumOf(d) == InternetChecksum(d)
  {
    hide LeTotal, OnesSum, SprdFold;
    TotalBound(d);
    var order := ByteOrder(d);
    var k := FoldResidue(LeTotal(d));
    var folded, ones := 0xFFFF - SprdFold(LeTotal(d)), OnesSum(d);
    assert folded - ones == 0xFFFF * (order - k);
    assert folded == ones;
  }

  lemma {:induction false} TotalOfChange(d: Data, i: nat, b: Byte)
    requires i < |d|
    ensures LeTotal(d[i := b]) - LeTotal(d) == (b - d[i]) * if i % 2 == 0 then 1 else 0x100
  {
    if i < 2 {
      assert |d| >= 2 ==> d[i := b][2..] == d[2..];
    } else {
      assert d[i := b][2..] == d[2..][i - 2 := b];
      TotalOfChange(d[2..], i - 2, b);
    }
  }

  lemma SprdSumDetectsByteChange(d: Data, i: nat, b: Byte)
    requires i < |d| <= 131074 && b != d[i]
    ensures SprdSumOf(d[i := b]) != SprdSumOf(d)
  {
    hide LeTotal, SprdFold, Wrap32;
    TotalBound(d);
    TotalBound(d[i := b]);
    TotalOfChange(d, i, b);
    var t, t' := LeTotal(d), LeTotal(d[i := b]);
    var k := FoldResidue(t);
    var k' := FoldResidue(t');
    var step: int := t as int - t' as int;
    var turns := 0x100 * (k - k') - step;
    assert 0x100 * step == SprdFold(t') as int - SprdFold(t) as int + 0xFFFF * (k - k');
    assert step == 0x100 * (SprdFold(t') as int - SprdFold(t) as int) + 0xFFFF * turns;
    assert -0xFF00 <= step <= 0xFF00 && step != 0;
    assert step != 0xFFFF * turns;
  }

  lemma LeStep(lo: Byte, hi: Byte, rest: Data)
    ensures LeTotal([]) == 0 && LeTotal([lo, hi] + rest) == lo + 0x100 * hi as int + LeTotal(rest)
  {
    assert ([lo, hi] + rest)[2..] == rest;
  }

  lemma CapturedTotals()
    ensures LeTotal([0, 0, 0, 0]) == 0
    ensures LeTotal([0x00, 0x09, 0x00, 0x04, 0x00, 0x01, 0xC2, 0x00]) == 0xEC2
  {
    hide LeTotal;
    LeStep(0, 0, []);
    LeStep(0, 0, [0, 0]);
    assert [0, 0] == [0, 0] + [] && [0, 0, 0, 0] == [0, 0] + [0, 0];
    var two, four, six: Data := [0xC2, 0x00], [0x00, 0x01, 0xC2, 0x00], [0x00, 0x04, 0x00, 0x01, 0xC2, 0x00];
    LeStep(0xC2, 0x00, []);
    LeStep(0x00, 0x01, two);
    LeStep(0x00, 0x04, four);
    LeStep(0x00, 0x09, six);
    assert two == two + [] && four == [0x00, 0x01] + two && six == [0x00, 0x04] + four;
    assert [0x00, 0x09, 0x00, 0x04, 0x00, 0x01, 0xC2, 0x00] == [0x00, 0x09] + six;
  }

  lemma CapturedFolds()
    ensures SprdFold(0) == 0xFFFF && SprdFold(0xEC2) == 0x3DF1
  {
  }

  /** The sums of two messages that a vendor tool sends. */
  lemma CapturedSums()
    ensures SprdSumOf([0, 0, 0, 0]) == 0xFFFF
    ensures SprdSumOf([0x00, 0x09, 0x00, 0x04, 0x00, 0x01, 0xC2, 0x00]) == 0x3DF1
  {
    hide LeTotal, SprdFold;
    CapturedTotals();
    CapturedFolds();
  }

  // ---------------------------------------------------------------- reflected CRCs

  const ARC_POLY: nat := 0xA001
  const IEEE_POLY: nat := 0xEDB8_8320

  /**
   The three polynomials without their leading terms: x^16 + x^15 + x^2 + 1, the one of clause 3.2.9
   of IEEE Std 802.3-2018, and x^16 + x^12 + x^5 + 1. In a reflected register of `n` bits the power
   `e` is bit `n - 1 - e`.
   */
  lemma PolynomialsAre()
    ensures ARC_POLY == Pow2(15 - 15) + Pow2(15 - 2) + Pow2(15 - 0)
    ensures IEEE_POLY
         == Pow2(31 - 26) + Pow2(31 - 23) + Pow2(31 - 22) + Pow2(31 - 16) + Pow2(31 - 12) + Pow2(31 - 11)
            + Pow2(31 - 10) + Pow2(31 - 8) + Pow2(31 - 7) + Pow2(31 - 5) + Pow2(31 - 4) + Pow2(31 - 2)
            + Pow2(31 - 1) + Pow2(31 - 0)
    ensures CCITT_POLY == Pow2(12) + Pow2(5) + Pow2(0)
  {
    assert Pow2(5) == 0x20 && Pow2(8) == 0x100 && Pow2(9) == 0x200 && Pow2(12) == 0x1000;
    assert Pow2(13) == 0x2000 && Pow2(15) == 0x8000 && Pow2(19) == 0x8_0000 && Pow2(20) == 0x10_0000;
    assert Pow2(21) == 0x20_0000 && Pow2(23) == 0x80_0000 && Pow2(24) == 0x100_0000 && Pow2(26) == 0x400_0000;
    assert Pow2(27) == 0x800_0000 && Pow2(29) == 0x2000_0000 && Pow2(30) == 0x4000_0000 && Pow2(31) == 0x8000_0000;
  }

  /** One step of the table builders: shift out a bit, add the polynomial if it was set. */
  function Reduce(poly: nat, crc: nat): nat
  {
    if crc % 2 == 1 then Xor(crc / 2, poly) else crc / 2
  }

  function Steps(poly: nat, crc: nat, n: nat): nat
    decreases n, crc
  {
    if n == 0 then crc else Steps(poly, Reduce(poly, crc), n - 1)
  }

  function Table(poly: nat): seq<nat>
  {
    seq(256, i requires 0 <= i < 256 => Steps(poly, i, 8))
  }

  method BuildTable(poly: nat) returns (table: array<nat>)
    ensures fresh(table) && table[..] == Table(poly)
  {
    table := new nat[256];
    var i := 0;
    while i < 256
      invariant 0 <= i <= 256
      invariant forall k | 0 <= k < i :: table[k] == Steps(poly, k, 8)
    {
      var crc := i;
      var bit := 0;
      while bit < 8
        invariant 0 <= bit <= 8
        invariant Steps(poly, crc, 8 - bit) == Steps(poly, i, 8)
      {
        crc := Reduce(poly, crc);
        bit := bit + 1;
      }
      table[i] := crc;
      i := i + 1;
    }
  }

  /** The table-driven update with one byte. */
  function ByTable(poly: nat, crc: nat, b: Byte): nat
  {
    Xor(crc / 0x100, Table(poly)[Xor(crc, b) % 0x100])
  }

  function CrcOf(poly: nat, crc: nat, d: Data): nat
    decreases |d|
  {
    if d == [] then crc else CrcOf(poly, ByTable(poly, crc, d[0]), d[1..])
  }

  method Crc(poly: nat, start: nat, data: Data) returns (crc: nat)
    ensures crc == CrcOf(poly, start, data)
  {
    var table := BuildTable(poly);
    crc := start;
    for i := 0 to |data|
      invariant CrcOf(poly, crc, data[i..]) == CrcOf(poly, start, data)
    {
      assert data[i..][1..] == data[i + 1..];
      var index := Xor(crc, data[i]) % 0x100;
      assert table[index] == table[..][index];
      crc := Xor(crc / 0x100, table[index]);
    }
  }

  /** The `n` low bits of `b` as polynomial coefficients, least significant first. */
  function Bits(b: nat, n: nat): seq<bool>
  {
    if n == 0 then [] else [b % 2 == 1] + Bits(b / 2, n - 1)
  }

  function MessageBits(d: Data): seq<bool>
  {
    if d == [] then [] else Bits(d[0], 8) + MessageBits(d[1..])
  }

  /** Division of the message by the polynomial, one coefficient at a time. */
  function Divide(poly: nat, crc: nat, bits: seq<bool>): nat
    decreases |bits|
  {
    if bits == [] then crc
    else
      var half := crc / 2;
      Divide(poly, if (crc % 2 == 1) != bits[0] then Xor(half, poly) else half, bits[1..])
  }

  /** Bits above the ones shifted out come through unchanged. */
  lemma {:induction false} StepsOfHigh(poly: nat, high: nat, low: nat, n: nat)
    ensures Steps(poly, Xor(Shl(high, n), low), n) == Xor(high, Steps(poly, low, n))
    decreases n
  {
    hide Xor;
    if n == 0 {
    } else {
      var above := Shl(high, n - 1);
      XorHalf(2 * above, low);
      XorLaws(above, low / 2, poly);
      assert Reduce(poly, Xor(2 * above, low)) == Xor(above, Reduce(poly, low));
      StepsOfHigh(poly, high, Reduce(poly, low), n - 1);
    }
  }

  /** One table lookup is eight steps on the register combined with the byte. */
  lemma ByTableIsSteps(poly: nat, crc: nat, b: Byte)
    ensures ByTable(poly, crc, b) == Steps(poly, Xor(crc, b), 8)
  {
    hide Xor, Steps, Shl, Shr, Pow2;
    var x := Xor(crc, b);
    var low := x % 0x100;
    ShiftByte(x);
    ShiftByte(crc);
    ShiftByte(crc / 0x100);
    XorShr(crc, b, 8);
    XorFields(crc / 0x100, low, 8);
    assert x == Xor(Shl(crc / 0x100, 8), low);
    StepsOfHigh(poly, crc / 0x100, low, 8);
  }

  lemma {:induction false} DivideByte(poly: nat, crc: nat, b: nat, n: nat, rest: seq<bool>)
    requires b < Pow2(n)
    ensures Divide(poly, crc, Bits(b, n) + rest) == Divide(poly, Steps(poly, Xor(crc, b), n), rest)
    decreases n
  {
    hide Xor;
    if n == 0 {
      assert Bits(b, n) + rest == rest;
    } else {
      var bits, half := Bits(b, n) + rest, crc / 2;
      assert bits[1..] == Bits(b / 2, n - 1) + rest;
      var next := if (crc % 2 == 1) != bits[0] then Xor(half, poly) else half;
      assert Reduce(poly, Xor(crc, b)) == Xor(next, b / 2) by {
        XorHalf(crc, b);
        XorLaws(half, b / 2, poly);
        XorLaws(half, poly, b / 2);
        XorLaws(b / 2, poly, 0);
      }
      DivideByte(poly, next, b / 2, n - 1, rest);
    }
  }

  /** The table-driven CRC is the remainder of the bitwise polynomial division. */
  lemma {:induction false} CrcIsPolynomialDivision(poly: nat, crc: nat, d: Data)
    ensures CrcOf(poly, crc, d) == Divide(poly, crc, MessageBits(d))
    decreases |d|
  {
    if d == [] {
    } else {
      ShiftByte(0);
      DivideByte(poly, crc, d[0], 8, MessageBits(d[1..]));
      ByTableIsSteps(poly, crc, d[0]);
      CrcIsPolynomialDivision(poly, ByTable(poly, crc, d[0]), d[1..]);
    }
  }

  /** A CRC can be continued from any split of its input. */
  lemma {:induction false} CrcComposes(poly: nat, crc: nat, a: Data, b: Data)
    ensures CrcOf(poly, crc, a + b) == CrcOf(poly, CrcOf(poly, crc, a), b)
    decreases |a|
  {
    if a == [] {
      assert a + b == b;
    } else {
      assert (a + b)[1..] == a[1..] + b;
      CrcComposes(poly, ByTable(poly, crc, a[0]), a[1..], b);
    }
  }

  /** The register is `n + 1` bits wide, at least a byte, and the polynomial has its top bit set. */
  ghost predicate FitsWidth(poly: nat, crc: nat, n: nat)
  {
    Pow2(n) <= poly < Pow2(n + 1) && crc < Pow2(n + 1) && 0x100 <= Pow2(n + 1)
  }

  lemma {:induction false} StepsKeep(poly: nat, a: nat, b: nat, n: nat, k: nat)
    requires FitsWidth(poly, a, n) && FitsWidth(poly, b, n)
    ensures FitsWidth(poly, Steps(poly, a, k), n)
    ensures Steps(poly, a, k) == Steps(poly, b, k) ==> a == b
    decreases k
  {
    hide Xor;
    if k == 0 {
    } else {
      XorRange(a / 2, poly, n + 1);
      XorRange(b / 2, poly, n + 1);
      XorRange(a / 2, poly, n);
      XorRange(b / 2, poly, n);
      XorCancel(a / 2, b / 2, poly);
      StepsKeep(poly, Reduce(poly, a), Reduce(poly, b), n, k - 1);
    }
  }

  /** The byte step stays in range and is injective in the register and in the byte. */
  lemma ByTableInjective(poly: nat, a: nat, x: Byte, b: nat, y: Byte, n: nat)
    requires FitsWidth(poly, a, n) && FitsWidth(poly, b, n)
    ensures FitsWidth(poly, ByTable(poly, a, x), n)
    ensures ByTable(poly, a, x) == ByTable(poly, b, y) ==> (a == b <==> x == y)
  {
    hide Xor, ByTable;
    XorRange(a, x, n + 1);
    XorRange(b, y, n + 1);
    ByTableIsSteps(poly, a, x);
    ByTableIsSteps(poly, b, y);
    StepsKeep(poly, Xor(a, x), Xor(b, y), n, 8);
    XorCancel(x, y, a);
    XorCancel(a, b, x);
  }

  lemma {:induction false} CrcSeparates(poly: nat, a: nat, b: nat, d: Data, n: nat)
    requires FitsWidth(poly, a, n) && FitsWidth(poly, b, n)
    ensures FitsWidth(poly, CrcOf(poly, a, d), n)
    ensures CrcOf(poly, a, d) == CrcOf(poly, b, d) ==> a == b
    decreases |d|
  {
    hide ByTable, FitsWidth;
    if d == [] {
    } else {
      ByTableInjective(poly, a, d[0], b, d[0], n);
      ByTableInjective(poly, b, d[0], a, d[0], n);
      CrcSeparates(poly, ByTable(poly, a, d[0]), ByTable(poly, b, d[0]), d[1..], n);
    }
  }

  /** Changing one byte anywhere changes the CRC. */
  lemma CrcDetectsByteChange(poly: nat, crc: nat, d: Data, i: nat, x: Byte, n: nat)
    requires FitsWidth(poly, crc, n)
    requires i < |d| && x != d[i]
    ensures CrcOf(poly, crc, d[i := x]) != CrcOf(poly, crc, d)
  {
    hide ByTable, FitsWidth;
    var front, back := d[..i], d[i + 1..];
    assert d == front + ([d[i]] + back) && d[i := x] == front + ([x] + back);
    CrcComposes(poly, crc, front, [d[i]] + back);
    CrcComposes(poly, crc, front, [x] + back);
    var at := CrcOf(poly, crc, front);
    CrcSeparates(poly, crc, crc, front, n);
    ByTableInjective(poly, at, d[i], at, x, n);
    ByTableInjective(poly, at, x, at, d[i], n);
    CrcSeparates(poly, ByTable(poly, at, d[i]), ByTable(poly, at, x), back, n);
    assert ([d[i]] + back)[1..] == back && ([x] + back)[1..] == back;
  }

  lemma Widths(crc: nat)
    ensures crc < 0x1_0000 ==> FitsWidth(ARC_POLY, crc, 15)
    ensures crc < 0x1_0000_0000 ==> FitsWidth(IEEE_POLY, crc, 31)
    ensures Pow2(0) == 1 && Pow2(8) == 0x100 && Pow2(15) == 0x8000 && Pow2(16) == 0x1_0000 && Pow2(32) == 0x1_0000_0000
  {
    assert Pow2(15) == 0x8000;
    assert Pow2(23) == 0x80_0000;
    assert Pow2(31) == 0x8000_0000;
  }

  /** CRC-16-ARC continued from a running value. */
  function ArcFrom(crc: U16, d: Data): U16
  {
    Widths(crc);
    CrcSeparates(ARC_POLY, crc, crc, d, 15);
    CrcOf(ARC_POLY, crc, d)
  }

  function Arc(d: Data): U16 { ArcFrom(0, d) }

  method Crc16ArcFrom(crc: U16, data: Data) returns (r: U16)
    ensures r == ArcFrom(crc, data)
  {
    ghost var spec := ArcFrom(crc, data);
    var value := Crc(ARC_POLY, crc, data);
    r := value;
  }

  /** CRC-32 of clause 3.2.9 of IEEE Std 802.3-2018. */
  function Ieee(d: Data): U32
  {
    Widths(0xFFFF_FFFF);
    CrcSeparates(IEEE_POLY, 0xFFFF_FFFF, 0xFFFF_FFFF, d, 31);
    0xFFFF_FFFF - CrcOf(IEEE_POLY, 0xFFFF_FFFF, d)
  }

  method Crc32(data: Data) returns (r: U32)
    ensures r == Ieee(data)
  {
    ghost var spec := Ieee(data);
    var value := Crc(IEEE_POLY, 0xFFFF_FFFF, data);
    r := 0xFFFF_FFFF - value;
  }

  lemma ArcComposes(crc: U16, a: Data, b: Data)
    ensures ArcFrom(crc, a + b) == ArcFrom(ArcFrom(crc, a), b)
    ensures ArcFrom(crc, []) == crc
  {
    CrcComposes(ARC_POLY, crc, a, b);
  }

  lemma ByteChangeDetected(d: Data, i: nat, x: Byte)
    requires i < |d| && x != d[i]
    ensures Arc(d[i := x]) != Arc(d)
    ensures Ieee(d[i := x]) != Ieee(d)
  {
    Widths(0);
    Widths(0xFFFF_FFFF);
    CrcDetectsByteChange(ARC_POLY, 0, d, i, x, 15);
    CrcDetectsByteChange(IEEE_POLY, 0xFFFF_FFFF, d, i, x, 31);
  }

  // ---------------------------------------------------------------- the NV sum

  /** The 32-bit additive byte sum of the NV `START_DATA` trailer. */
  function Sum32(d: Data): U32
  {
    if d == [] then 0 else Wrap32(Sum32(d[..|d| - 1]) + d[|d| - 1])
  }

  function ByteSum(d: Data): nat
  {
    if d == [] then 0 else ByteSum(d[..|d| - 1]) + d[|d| - 1]
  }

  /** Wrapping at every step is wrapping once at the end. */
  lemma {:induction false} Sum32IsByteSum(d: Data)
    ensures Sum32(d) == Wrap32(ByteSum(d))
  {
    if d == [] {
    } else {
      var front := d[..|d| - 1];
      Sum32IsByteSum(front);
      WrapAgain(ByteSum(front), d[|d| - 1]);
    }
  }

  lemma WrapAgain(x: nat, y: nat)
    ensures Wrap32(Wrap32(x) + y) == Wrap32(x + y)
  {
  }

  // ---------------------------------------------------------------- CRC-16 of the BootROM

  const CCITT_POLY: nat := 0x1021

  /** One step of the loop: `crc << 1`, less the polynomial 0x11021 if bit 15 was set, masked. */
  function CcittBit(crc: nat): nat
  {
    if crc / 0x8000 % 2 == 1 then Xor(2 * crc, 0x1_1021) % 0x1_0000 else 2 * crc % 0x1_0000
  }

  function CcittSteps(crc: nat, n: nat): nat
    decreases n, crc
  {
    if n == 0 then crc else CcittSteps(CcittBit(crc), n - 1)
  }

  function CcittFrom(crc: nat, d: Data): nat
    decreases |d|
  {
    if d == [] then crc else CcittFrom(CcittSteps(Xor(crc, 0x100 * d[0] as int), 8), d[1..])
  }

  /** Polynomial 0x1021, most significant bit first, initial value 0. */
  function Ccitt(d: Data): U16 { Wrap16(CcittFrom(0, d)) }

  method Crc16Ccitt(data: Data) returns (r: U16)
    ensures r == Ccitt(data)
  {
    hide CcittBit;
    var crc := 0;
    for i := 0 to |data|
      invariant CcittFrom(crc, data[i..]) == CcittFrom(0, data)
    {
      assert data[i..][1..] == data[i + 1..];
      crc := Xor(crc, 0x100 * data[i] as int);
      ghost var start := crc;
      for bit := 0 to 8
        invariant CcittSteps(crc, 8 - bit) == CcittSteps(start, 8)
      {
        crc := CcittBit(crc);
      }
    }
    r := Wrap16(crc);
  }

  /** The `n` low bits of `b` as polynomial coefficients, most significant first. */
  function HighBits(b: nat, n: nat): seq<bool>
    requires b < Pow2(n)
  {
    if n == 0 then []
    else if b >= Pow2(n - 1) then [true] + HighBits(b - Pow2(n - 1), n - 1)
    else [false] + HighBits(b, n - 1)
  }

  function HighMessageBits(d: Data): seq<bool>
  {
    if d == [] then []
    else
      ShiftByte(0);
      HighBits(d[0], 8) + HighMessageBits(d[1..])
  }

  /** One coefficient of the division in a 16-bit register. */
  function DivideHighBit(crc: U16, bit: bool): U16
  {
    var shifted := if crc >= 0x8000 then 2 * crc - 0x1_0000 else 2 * crc;
    Widths(0);
    XorRange(shifted, CCITT_POLY, 16);
    if (crc >= 0x8000) != bit then Xor(shifted, CCITT_POLY) else shifted
  }

  /** Division of the message by the polynomial, most significant coefficient first. */
  function DivideHigh(crc: U16, bits: seq<bool>): U16
    decreases |bits|
  {
    if bits == [] then crc else DivideHigh(DivideHighBit(crc, bits[0]), bits[1..])
  }

  /** A bit of its own adds to what lies below it, and cancels against itself. */
  lemma XorTop(x: nat, y: nat, n: nat)
    requires x < Pow2(n) && y < Pow2(n)
    ensures Xor(Pow2(n) + x, y) == Pow2(n) + Xor(x, y)
    ensures Xor(x, Pow2(n) + y) == Pow2(n) + Xor(x, y)
    ensures Xor(Pow2(n) + x, Pow2(n) + y) == Xor(x, y)
  {
    hide Xor, Pow2;
    var top := Pow2(n);
    ShlOne(n);
    XorFields(1, x, n);
    XorFields(1, y, n);
    XorRange(x, y, n);
    XorFields(1, Xor(x, y), n);
    XorLaws(top, x, y);
    XorLaws(x, top, y);
    XorLaws(x, top, Xor(top, y));
    XorLaws(top, top, y);
  }

  lemma {:induction false} ShlOne(n: nat)
    ensures Shl(1, n) == Pow2(n)
    decreases n
  {
    if n == 0 {
    } else {
      ShlOne(n - 1);
    }
  }

  lemma CcittBitOf(x: nat, top: bool)
    requires x < 0x8000
    ensures CcittBit((if top then 0x8000 else 0) + x) == if top then Xor(2 * x, CCITT_POLY) else 2 * x
  {
    hide Xor, Pow2;
    Widths(0);
    XorTop(2 * x, CCITT_POLY, 16);
    XorRange(2 * x, CCITT_POLY, 16);
  }

  /** The masked step, once the top bit of what is still to come has met the register. */
  lemma CcittBitMeets(crc: U16, bit: bool, low: nat)
    requires low < 0x8000
    ensures CcittBit(Xor(crc, (if bit then 0x8000 else 0) + low)) == Xor(DivideHighBit(crc, bit), 2 * low)
  {
    hide Xor, Pow2, CcittBit;
    var rest: nat := if crc >= 0x8000 then crc - 0x8000 else crc;
    var x, top := Xor(rest, low), (crc >= 0x8000) != bit;
    assert x < 0x8000 && Xor(crc, (if bit then 0x8000 else 0) + low) == (if top then 0x8000 else 0) + x by {
      Widths(0);
      XorTop(rest, low, 15);
      XorRange(rest, low, 15);
    }
    CcittBitOf(x, top);
    assert Xor(2 * rest, 2 * low) == 2 * x by { XorHalf(2 * rest, 2 * low); }
    assert Xor(2 * x, CCITT_POLY) == Xor(Xor(2 * rest, CCITT_POLY), 2 * low) by {
      XorLaws(2 * rest, 2 * low, CCITT_POLY);
      XorLaws(2 * rest, CCITT_POLY, 2 * low);
      XorLaws(2 * low, CCITT_POLY, 0);
    }
  }

  lemma PlaceBits(v: nat, n: nat, weight: nat) returns (below: nat, low: nat)
    requires n > 0 && v < Pow2(n) && Pow2(n) * weight == 0x1_0000
    ensures below == (if v >= Pow2(n - 1) then v - Pow2(n - 1) else v) < Pow2(n - 1)
    ensures v * weight == (if v >= Pow2(n - 1) then 0x8000 else 0) + low && low < 0x8000
    ensures 2 * low == below * (2 * weight) && Pow2(n - 1) * (2 * weight) == 0x1_0000
  {
    var half := Pow2(n - 1);
    below := if v >= half then v - half else v;
    low := below * weight;
    assert half * weight == 0x8000 && weight > 0;
    assert low < half * weight;
  }

  /** The division takes the top bit first. */
  lemma DivideTop(crc: U16, v: nat, n: nat, below: nat, rest: seq<bool>)
    requires n > 0 && v < Pow2(n)
    requires below == (if v >= Pow2(n - 1) then v - Pow2(n - 1) else v) < Pow2(n - 1)
    ensures DivideHigh(crc, HighBits(v, n) + rest)
         == DivideHigh(DivideHighBit(crc, v >= Pow2(n - 1)), HighBits(below, n - 1) + rest)
  {
    hide DivideHighBit, Pow2;
    var all := HighBits(v, n) + rest;
    assert all[0] == (v >= Pow2(n - 1)) && all[1..] == HighBits(below, n - 1) + rest;
  }

  lemma NoBits(rest: seq<bool>)
    ensures Pow2(0) == 1 && HighBits(0, 0) + rest == rest
  {
  }

  /** `weight` places the `n` bits still to come at the top of the register. */
  lemma {:induction false} CcittByte(crc: U16, v: nat, n: nat, weight: nat, placed: nat, rest: seq<bool>)
    requires v < Pow2(n) && Pow2(n) * weight == 0x1_0000 && placed == v * weight
    ensures var r := CcittSteps(Xor(crc, placed), n);
            r < 0x1_0000 && DivideHigh(crc, HighBits(v, n) + rest) == DivideHigh(r, rest)
    decreases n
  {
    hide Xor, CcittBit, DivideHighBit, DivideHigh, HighBits, Pow2;
    Widths(0);
    if n == 0 {
      assert v == 0 && placed == 0;
      NoBits(rest);
    } else {
      var bit := v >= Pow2(n - 1);
      var below, low := PlaceBits(v, n, weight);
      CcittBitMeets(crc, bit, low);
      DivideTop(crc, v, n, below, rest);
      CcittByte(DivideHighBit(crc, bit), below, n - 1, 2 * weight, 2 * low, rest);
    }
  }

  /** The BootROM CRC is the remainder of the division, most significant bit first. */
  lemma {:induction false} CcittIsPolynomialDivision(crc: U16, d: Data)
    ensures CcittFrom(crc, d) == DivideHigh(crc, HighMessageBits(d))
    decreases |d|
  {
    hide Xor, CcittSteps, HighBits;
    if d == [] {
    } else {
      ShiftByte(0);
      CcittByte(crc, d[0], 8, 0x100, 0x100 * d[0] as int, HighMessageBits(d[1..]));
      CcittIsPolynomialDivision(CcittSteps(Xor(crc, 0x100 * d[0] as int), 8), d[1..]);
    }
  }

  /** Each CRC of a message is the remainder of its polynomial division. */
  lemma CrcsArePolynomialDivisions(crc: U16, d: Data)
    ensures ArcFrom(crc, d) == Divide(ARC_POLY, crc, MessageBits(d))
    ensures Ieee(d) == 0xFFFF_FFFF - Divide(IEEE_POLY, 0xFFFF_FFFF, MessageBits(d))
    ensures Ccitt(d) == DivideHigh(0, HighMessageBits(d))
    ensures Arc(d) == ArcFrom(0, d)
  {
    hide CrcOf, Divide, DivideHigh, CcittFrom;
    CrcIsPolynomialDivision(ARC_POLY, crc, d);
    CrcIsPolynomialDivision(IEEE_POLY, 0xFFFF_FFFF, d);
    CcittIsPolynomialDivision(0, d);
  }
}
