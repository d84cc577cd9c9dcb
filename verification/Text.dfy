/**
 Text from bytes: UTF-8 with every malformed sequence replaced, and white space trimmed.
 */
module Text {
  import opened Bytes

  const REPLACEMENT: char := '\U{FFFD}'

  /** Length of the sequence that `b` leads, 0 if it cannot lead one. */
  function Width(b: Byte): nat
  {
    if b < 0x80 then 1
    else if 0xC2 <= b < 0xE0 then 2
    else if 0xE0 <= b < 0xF0 then 3
    else if 0xF0 <= b < 0xF5 then 4
    else 0
  }

  predicate Continues(b: Byte) { 0x80 <= b < 0xC0 }

  /** The second byte also rules out overlong forms, surrogates, and what lies beyond U+10FFFF. */
  predicate Follows(lead: Byte, b: Byte)
  {
    && Continues(b)
    && (lead == 0xE0 ==> b >= 0xA0)
    && (lead == 0xED ==> b < 0xA0)
    && (lead == 0xF0 ==> b >= 0x90)
    && (lead == 0xF4 ==> b < 0x90)
  }

  /** Six more bits of a code point. */
  function More(high: int, b: Byte): int { 0x40 * high + (b as int - 0x80) }

  /** The first character and the number of bytes it takes; a malformed sequence ends where it breaks. */
  datatype First = First(c: char, len: nat)

  function FirstOf(d: Data): (f: First)
    requires d != []
    ensures 1 <= f.len <= |d|
  {
    var w := Width(d[0]);
    if w == 0 then First(REPLACEMENT, 1)
    else if w == 1 then First(d[0] as char, 1)
    else if |d| < 2 || !Follows(d[0], d[1]) then First(REPLACEMENT, 1)
    else if w == 2 then First(More(d[0] as int - 0xC0, d[1]) as char, 2)
    else if |d| < 3 || !Continues(d[2]) then First(REPLACEMENT, 2)
    else if w == 3 then First(More(More(d[0] as int - 0xE0, d[1]), d[2]) as char, 3)
    else if |d| < 4 || !Continues(d[3]) then First(REPLACEMENT, 3)
    else First(More(More(More(d[0] as int - 0xF0, d[1]), d[2]), d[3]) as char, 4)
  }

  function Lossy(d: Data): string
    decreases |d|
  {
    if d == [] then "" else [FirstOf(d).c] + Lossy(d[FirstOf(d).len..])
  }

  /** White space as the Unicode standard lists it. */
  predicate White(c: char)
  {
    || '\U{9}' <= c <= '\U{D}' || c == ' ' || c == '\U{85}' || c == '\U{A0}' || c == '\U{1680}'
    || '\U{2000}' <= c <= '\U{200A}' || c == '\U{2028}' || c == '\U{2029}' || c == '\U{202F}'
    || c == '\U{205F}' || c == '\U{3000}'
  }

  function TrimStart(s: string): string
  {
    if s != "" && White(s[0]) then TrimStart(s[1..]) else s
  }

  function TrimEnd(s: string): string
  {
    if s != "" && White(s[|s| - 1]) then TrimEnd(s[..|s| - 1]) else s
  }

  function Trim(s: string): string { TrimEnd(TrimStart(s)) }

  // ---------------------------------------------------------------- reading back what was written

  /** One character in UTF-8, as section 3 of RFC 3629 has it. */
  function Encoded(c: char): Data
  {
    var x := c as int;
    var y := x / 0x40;
    var z := y / 0x40;
    if x < 0x80 then [x]
    else if x < 0x800 then [0xC0 + y, 0x80 + x % 0x40]
    else if x < 0x1_0000 then [0xE0 + z, 0x80 + y % 0x40, 0x80 + x % 0x40]
    else [0xF0 + z / 0x40, 0x80 + z % 0x40, 0x80 + y % 0x40, 0x80 + x % 0x40]
  }

  function Utf8(s: string): Data
  {
    if s == "" then [] else Encoded(s[0]) + Utf8(s[1..])
  }

  lemma EncodedIsFirst(c: char, rest: Data)
    ensures FirstOf(Encoded(c) + rest) == First(c, |Encoded(c)|)
  {
    var x := c as int;
    var y := x / 0x40;
    var z := y / 0x40;
    assert x == 0x40 * y + x % 0x40 && y == 0x40 * z + y % 0x40 && z == 0x40 * (z / 0x40) + z % 0x40;
    var d := Encoded(c) + rest;
    assert forall k | 0 <= k < |Encoded(c)| :: d[k] == Encoded(c)[k];
  }

  /** Well-formed text is read back unchanged. */
  lemma {:induction false} TextIsKept(s: string)
    ensures Lossy(Utf8(s)) == s
  {
    hide FirstOf, Encoded;
    if s == "" {
    } else {
      EncodedIsFirst(s[0], Utf8(s[1..]));
      TextIsKept(s[1..]);
      assert Utf8(s)[|Encoded(s[0])|..] == Utf8(s[1..]);
    }
  }

  /** Bytes below 0x80 are their own characters. */
  lemma {:induction false} AsciiIsUtf8(s: string)
    requires forall i | 0 <= i < |s| :: s[i] as int < 0x80
    ensures Utf8(s) == seq(|s|, i requires 0 <= i < |s| => s[i] as int)
  {
    if s == "" {
    } else {
      AsciiIsUtf8(s[1..]);
    }
  }

  /** ASCII text without white space at its ends is read and trimmed to itself. */
  lemma PlainText(s: string, d: Data)
    requires s != "" && !White(s[0]) && !White(s[|s| - 1])
    requires |d| == |s| && forall i | 0 <= i < |s| :: s[i] as int == d[i] < 0x80
    ensures Trim(Lossy(d)) == s
  {
    hide White, Lossy, Utf8;
    AsciiIsUtf8(s);
    assert d == Utf8(s);
    TextIsKept(s);
    assert TrimStart(s) == s && TrimEnd(s) == s;
  }

  /** Trimming takes off all white space at both ends and nothing else. */
  lemma TrimIs(s: string) returns (i: nat, j: nat)
    ensures i <= j <= |s| && Trim(s) == s[i..j]
    ensures forall k | 0 <= k < i || j <= k < |s| :: White(s[k])
    ensures i < j ==> !White(s[i]) && !White(s[j - 1])
  {
    hide White;
    i := StartIs(s);
    j := EndIs(s[i..]);
    j := i + j;
  }

  lemma {:induction false} StartIs(s: string) returns (i: nat)
    ensures i <= |s| && TrimStart(s) == s[i..]
    ensures (forall k | 0 <= k < i :: White(s[k])) && (i < |s| ==> !White(s[i]))
  {
    hide White;
    if s == "" || !White(s[0]) {
      i := 0;
    } else {
      i := StartIs(s[1..]);
      i := i + 1;
    }
  }

  lemma {:induction false} EndIs(s: string) returns (j: nat)
    ensures j <= |s| && TrimEnd(s) == s[..j]
    ensures (forall k | j <= k < |s| :: White(s[k])) && (j > 0 ==> !White(s[j - 1]))
  {
    hide White;
    if s == "" || !White(s[|s| - 1]) {
      j := |s|;
    } else {
      j := EndIs(s[..|s| - 1]);
    }
  }
}
