/**
 Bytes, fixed-width words and the few sequence helpers that every layer uses.
 */
module Bytes {

  type Byte = x: int | 0 <= x < 0x100
  type U16 = x: int | 0 <= x < 0x1_0000
  type U32 = x: int | 0 <= x < 0x1_0000_0000

  type Data = seq<Byte>

  datatype Option<+T> = None | Some(value: T)
  datatype Result<+T, +E> = Ok(value: T) | Err(error: E)

  /** The `as u16` and `as u32` casts, and `wrapping_add`. */
  function Wrap16(x: int): U16 { x % 0x1_0000 }

  function Wrap32(x: int): (r: U32)
    ensures 0 <= x < 0x1_0000_0000 ==> r == x
  {
    x % 0x1_0000_0000
  }

  function Min(a: int, b: int): int { if a <= b then a else b }

  function Max(a: int, b: int): int { if a <= b then b else a }

  function Be16(x: U16): Data { [x / 0x100, x % 0x100] }

  function Le16(x: U16): Data { [x % 0x100, x / 0x100] }

  /** `x` in `n` bytes, most significant first. */
  function BeBytes(x: nat, n: nat): (r: Data)
    ensures |r| == n
    decreases n, x
  {
    if n == 0 then [] else BeBytes(x / 0x100, n - 1) + [x % 0x100]
  }

  /** `x` in `n` bytes, least significant first. */
  function LeBytes(x: nat, n: nat): (r: Data)
    ensures |r| == n
    decreases n, x
  {
    if n == 0 then [] else [x % 0x100] + LeBytes(x / 0x100, n - 1)
  }

  function Be32(x: U32): Data { BeBytes(x, 4) }

  function Le32(x: U32): Data { LeBytes(x, 4) }

  function Range(n: nat): nat { if n == 0 then 1 else 0x100 * Range(n - 1) }

  function BeWord(d: Data): (r: nat)
    ensures r < Range(|d|)
  {
    if d == [] then 0 else 0x100 * BeWord(d[..|d| - 1]) + d[|d| - 1]
  }

  function LeWord(d: Data): (r: nat)
    ensures r < Range(|d|)
  {
    if d == [] then 0 else 0x100 * LeWord(d[1..]) + d[0]
  }

  lemma {:induction false} WordOfBytes(x: nat, n: nat)
    requires x < Range(n)
    ensures BeWord(BeBytes(x, n)) == x && LeWord(LeBytes(x, n)) == x
  {
    if n == 0 {
    } else {
      WordOfBytes(x / 0x100, n - 1);
      var be, le := BeBytes(x, n), LeBytes(x, n);
      assert be[..n - 1] == BeBytes(x / 0x100, n - 1) && le[1..] == LeBytes(x / 0x100, n - 1);
    }
  }

  function Word16(hi: int, lo: int): int { hi * 0x100 + lo }

  function GetBe16(s: Data, i: nat): U16
    requires i + 2 <= |s|
  {
    Word16(s[i], s[i + 1])
  }

  function GetLe16(s: Data, i: nat): U16
    requires i + 2 <= |s|
  {
    Word16(s[i + 1], s[i])
  }

  function GetBe32(s: Data, i: nat): U32
    requires i + 4 <= |s|
  {
    assert Range(4) == 0x1_0000_0000;
    BeWord(s[i..i + 4])
  }

  function GetLe32(s: Data, i: nat): U32
    requires i + 4 <= |s|
  {
    assert Range(4) == 0x1_0000_0000;
    LeWord(s[i..i + 4])
  }

  lemma Words16(s: Data, i: nat, x: U16)
    requires i + 2 <= |s|
    ensures s[i..i + 2] == Be16(x) <==> GetBe16(s, i) == x
    ensures s[i..i + 2] == Le16(x) <==> GetLe16(s, i) == x
  {
    assert s[i..i + 2] == [s[i], s[i + 1]];
  }

  lemma Words32(s: Data, i: nat, x: U32)
    requires i + 4 <= |s|
    ensures s[i..i + 4] == Be32(x) ==> GetBe32(s, i) == x
    ensures s[i..i + 4] == Le32(x) ==> GetLe32(s, i) == x
  {
    WordOfBytes(x, 4);
  }

  /** The words by the place value of each byte. */
  lemma PlaceValues(s: Data, i: nat)
    requires i + 4 <= |s|
    ensures GetBe32(s, i) == 0x100_0000 * s[i] as int + 0x1_0000 * s[i + 1] as int + 0x100 * s[i + 2] as int + s[i + 3]
    ensures GetLe32(s, i)
         == s[i] as int + 0x100 * s[i + 1] as int + 0x1_0000 * s[i + 2] as int + 0x100_0000 * s[i + 3] as int
    ensures GetBe16(s, i) == 0x100 * s[i] as int + s[i + 1]
    ensures GetLe16(s, i) == s[i] as int + 0x100 * s[i + 1] as int
  {
    var w := s[i..i + 4];
    assert w[..3][..2][..1][..0] == [] && w[1..][1..][1..][1..] == [];
    assert BeWord(w[..1]) == w[0] && LeWord(w[3..]) == w[3] by {
      assert w[..1][..0] == [] && w[3..][1..] == [];
    }
    assert w[..2][..1] == w[..1] && w[2..][1..] == w[3..];
    assert BeWord(w[..2]) == 0x100 * w[0] as int + w[1] && LeWord(w[2..]) == w[2] as int + 0x100 * w[3] as int;
    assert w[..3][..2] == w[..2] && w[1..][1..] == w[2..];
    assert BeWord(w[..3]) == 0x1_0000 * w[0] as int + 0x100 * w[1] as int + w[2];
    assert LeWord(w[1..]) == w[1] as int + 0x100 * w[2] as int + 0x1_0000 * w[3] as int;
  }

  /** Index of the first `b` in `s` from `i` on, or `|s|` when there is none. */
  function FindFrom(s: Data, b: Byte, i: nat): (r: nat)
    requires i <= |s|
    ensures i <= r <= |s|
    ensures forall j | i <= j < r :: s[j] != b
    ensures r < |s| ==> s[r] == b
    decreases |s| - i
  {
    if i == |s| || s[i] == b then i else FindFrom(s, b, i + 1)
  }

  /** `iter().position`, with `|s|` for `None`. */
  function Find(s: Data, b: Byte): nat { FindFrom(s, b, 0) }

  lemma FindIs(s: Data, b: Byte, i: nat, r: nat)
    requires i <= r <= |s|
    requires forall j | i <= j < r :: s[j] != b
    requires r < |s| ==> s[r] == b
    ensures FindFrom(s, b, i) == r
  {
  }

  function Repeat(b: Byte, n: nat): Data { seq(n, _ => b) }

  /** `data.chunks(size)`: consecutive pieces of `size` bytes, the last one possibly shorter. */
  function Pieces(data: Data, size: nat): seq<Data>
    requires size > 0
    decreases |data|
  {
    if |data| <= size then (if data == [] then [] else [data])
    else [data[..size]] + Pieces(data[size..], size)
  }

  /** Pieces of 2048 bytes: as many as needed. */
  lemma {:induction false} PieceCount(data: Data)
    ensures |Pieces(data, 2048)| == (|data| + 2047) / 2048
    decreases |data|
  {
    if |data| > 2048 {
      PieceCount(data[2048..]);
    }
  }

  function Flatten<T>(ss: seq<seq<T>>): seq<T>
  {
    if ss == [] then [] else ss[0] + Flatten(ss[1..])
  }

  lemma {:induction false} FlattenAppend<T>(a: seq<seq<T>>, b: seq<seq<T>>)
    ensures Flatten(a + b) == Flatten(a) + Flatten(b)
    ensures |b| == 1 ==> Flatten(a + b) == Flatten(a) + b[0]
  {
    if a == [] {
      assert a + b == b;
      assert |b| == 1 ==> b[0] + [] == b[0];
    } else {
      assert (a + b)[0] == a[0] && (a + b)[1..] == a[1..] + b;
      FlattenAppend(a[1..], b);
    }
  }

  lemma {:induction false} FlattenIn<T>(ss: seq<seq<T>>)
    ensures forall x | x in Flatten(ss) :: exists s | s in ss :: x in s
  {
    if ss == [] {
    } else {
      FlattenIn(ss[1..]);
    }
  }

  // ---------------------------------------------------------------- exclusive or

  function XorBit(a: nat, b: nat): nat { if a % 2 == b % 2 then 0 else 1 }

  /** Bitwise exclusive or of two naturals, one bit at a time. */
  function Xor(a: nat, b: nat): (r: nat)
    ensures a == 0 ==> r == b
    ensures b == 0 ==> r == a
  {
    if a == 0 then b else if b == 0 then a
    else XorBit(a, b) + 2 * Xor(a / 2, b / 2)
  }

  function Pow2(n: nat): (r: nat)
    ensures r > 0
  {
    if n == 0 then 1 else 2 * Pow2(n - 1)
  }

  lemma XorHalf(a: nat, b: nat)
    ensures Xor(a, b) / 2 == Xor(a / 2, b / 2) && Xor(a, b) % 2 == XorBit(a, b)
  {
    if a == 0 || b == 0 {
    } else {
      var half, bit := Xor(a / 2, b / 2), XorBit(a, b);
      assert (bit + 2 * half) / 2 == half && (bit + 2 * half) % 2 == bit;
    }
  }

  lemma {:induction false} XorLaws(a: nat, b: nat, c: nat)
    ensures Xor(a, b) == Xor(b, a)
    ensures Xor(Xor(a, b), c) == Xor(a, Xor(b, c))
    ensures Xor(a, a) == 0
  {
    if a == 0 {
    } else {
      XorLaws(a / 2, b / 2, c / 2);
      XorHalf(a, b);
      XorHalf(b, c);
      XorHalf(Xor(a, b), c);
      XorHalf(a, Xor(b, c));
      var left, right := Xor(Xor(a, b), c), Xor(a, Xor(b, c));
      assert left == 2 * (left / 2) + left % 2 && right == 2 * (right / 2) + right % 2;
    }
  }

  lemma XorCancel(a: nat, b: nat, c: nat)
    ensures Xor(Xor(a, c), c) == a
    ensures Xor(a, c) == Xor(b, c) ==> a == b
    ensures Xor(c, a) == Xor(c, b) ==> a == b
  {
    XorLaws(c, a, c);
    XorLaws(a, c, c);
    XorLaws(b, c, c);
    XorLaws(c, b, c);
  }

  /** Against a value of `n` bits, another value keeps or lacks its higher bits. */
  lemma {:induction false} XorRange(a: nat, b: nat, n: nat)
    requires a < Pow2(n)
    ensures Xor(a, b) < Pow2(n) <==> b < Pow2(n)
  {
    if n == 0 {
    } else {
      XorRange(a / 2, b / 2, n - 1);
      XorHalf(a, b);
    }
  }

  /** Bit `n` of `a`. */
  function HasBit(a: nat, n: nat): bool
    decreases n
  {
    if n == 0 then a % 2 == 1 else HasBit(a / 2, n - 1)
  }

  /** Against a power of two, exclusive or complements that bit. */
  lemma {:induction false} XorPower(a: nat, n: nat)
    ensures Xor(a, Pow2(n)) == if HasBit(a, n) then a - Pow2(n) else a + Pow2(n)
    ensures HasBit(a, n) ==> Pow2(n) <= a
    decreases n
  {
    hide Xor;
    var power := Pow2(n);
    var r := Xor(a, power);
    XorHalf(a, power);
    assert r == 2 * (r / 2) + r % 2 && a == 2 * (a / 2) + a % 2;
    if n == 0 {
      assert power == 1 && r / 2 == Xor(a / 2, 0) == a / 2;
    } else {
      var half := Pow2(n - 1);
      assert power == 2 * half && power / 2 == half && power % 2 == 0;
      XorPower(a / 2, n - 1);
    }
  }

  function Shl(x: nat, n: nat): nat
    decreases n
  {
    if n == 0 then x else 2 * Shl(x, n - 1)
  }

  function Shr(x: nat, n: nat): nat
    decreases n
  {
    if n == 0 then x else Shr(x / 2, n - 1)
  }

  lemma ShiftByte(x: nat)
    ensures Shl(x, 8) == 0x100 * x && Shr(x, 8) == x / 0x100 && Pow2(8) == 0x100
  {
    assert Shl(x, 4) == 2 * (2 * Shl(x, 2));
    assert Shr(x, 4) == Shr(x / 2 / 2, 2);
    assert Shr(x, 8) == Shr(x / 2 / 2 / 2 / 2, 4);
  }

  /** Exclusive or of disjoint bit fields is their sum. */
  lemma {:induction false} XorFields(high: nat, low: nat, n: nat)
    requires low < Pow2(n)
    ensures Xor(Shl(high, n), low) == Shl(high, n) + low
  {
    if n == 0 {
    } else {
      var half := Shl(high, n - 1);
      XorFields(high, low / 2, n - 1);
      XorHalf(2 * half, low);
      assert (2 * half) / 2 == half && (2 * half) % 2 == 0;
      assert Xor(2 * half, low) == 2 * (half + low / 2) + low % 2;
    }
  }

  lemma {:induction false} XorShr(x: nat, low: nat, n: nat)
    requires low < Pow2(n)
    ensures Shr(Xor(x, low), n) == Shr(x, n)
    decreases n
  {
    if n == 0 {
    } else {
      XorHalf(x, low);
      XorShr(x / 2, low / 2, n - 1);
    }
  }
}
