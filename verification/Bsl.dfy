/**
 BSL: HDLC-style framing (section 4.2 of RFC 1662) of typed, checksummed messages.
 */
module Bsl {
  import opened Bytes
  import Checksum

  const FLAG: Byte := 0x7E
  const ESCAPE: Byte := 0x7D

  // Host to device.
  const CONNECT: U16 := 0x00
  const START_DATA: U16 := 0x01
  const MIDST_DATA: U16 := 0x02
  const END_DATA: U16 := 0x03
  const EXEC_DATA: U16 := 0x04
  const NORMAL_RESET: U16 := 0x05
  const READ_FLASH: U16 := 0x06
  const CHANGE_BAUD: U16 := 0x09
  const ERASE_FLASH: U16 := 0x0A

  // Device to host.
  const REP_ACK: U16 := 0x80
  const REP_VER: U16 := 0x81
  const REP_INVALID_CMD: U16 := 0x82
  const REP_READ_FLASH: U16 := 0x93

  datatype Kind = Sprd | Crc
  {
    function Compute(body: Data): U16
    {
      match this
      case Sprd => Checksum.SprdSumOf(body)
      case Crc => Checksum.Ccitt(body)
    }
  }

  // ---------------------------------------------------------------- escaping

  function Flip(b: Byte): Byte
  {
    ShiftByte(0);
    XorRange(b, 0x20, 8);
    Xor(b, 0x20)
  }

  function Escaped(frame: Data): Data
  {
    if frame == [] then []
    else EscapedByte(frame[0]) + Escaped(frame[1..])
  }

  function EscapedByte(b: Byte): Data
  {
    if b == FLAG || b == ESCAPE then [ESCAPE, Flip(b)] else [b]
  }

  method Escape(frame: Data) returns (out: Data)
    ensures out == Escaped(frame)
  {
    hide EscapedByte;
    out := [];
    for i := 0 to |frame|
      invariant out + Escaped(frame[i..]) == Escaped(frame)
    {
      assert frame[i..][1..] == frame[i + 1..];
      ghost var rest := Escaped(frame[i + 1..]);
      var piece := EscapedByte(frame[i]);
      assert (out + piece) + rest == out + (piece + rest);
      out := out + piece;
    }
  }

  /** A dangling escape at the end is dropped. */
  function Unescaped(frame: Data): Data
  {
    if frame == [] then []
    else if frame[0] != ESCAPE then [frame[0]] + Unescaped(frame[1..])
    else if |frame| == 1 then []
    else [Flip(frame[1])] + Unescaped(frame[2..])
  }

  lemma UnescapedFrom(frame: Data, i: nat)
    requires i <= |frame|
    ensures Unescaped(frame[i..])
         == if i == |frame| then []
            else if frame[i] != ESCAPE then [frame[i]] + Unescaped(frame[i + 1..])
            else if i + 1 == |frame| then []
            else [Flip(frame[i + 1])] + Unescaped(frame[i + 2..])
  {
    hide Flip;
    if i < |frame| {
      assert frame[i..][1..] == frame[i + 1..];
    }
    if i + 1 < |frame| {
      assert frame[i..][2..] == frame[i + 2..];
    }
  }

  method Unescape(frame: Data) returns (out: Data)
    ensures out == Unescaped(frame)
  {
    hide Flip, Unescaped;
    out := [];
    var i := 0;
    assert frame[0..] == frame && [] + Unescaped(frame) == Unescaped(frame);
    while i < |frame|
      invariant 0 <= i <= |frame|
      invariant out + Unescaped(frame[i..]) == Unescaped(frame)
    {
      UnescapedFrom(frame, i);
      var b := frame[i];
      i := i + 1;
      if b == ESCAPE {
        if i < |frame| {
          Appended(out, Flip(frame[i]), Unescaped(frame[i + 1..]));
          out := out + [Flip(frame[i])];
          i := i + 1;
        } else {
          UnescapedFrom(frame, i);
        }
      } else {
        Appended(out, b, Unescaped(frame[i..]));
        out := out + [b];
      }
    }
    UnescapedFrom(frame, i);
    assert out + [] == out;
  }

  lemma Appended(out: Data, b: Byte, rest: Data)
    ensures out + ([b] + rest) == (out + [b]) + rest
  {
  }

  /** Exclusive or with 0x20 complements bit 5. */
  lemma FlipsBitFive(c: Byte)
    ensures Flip(c) == if c / 0x20 % 2 == 0 then c + 0x20 else c - 0x20
  {
    hide Xor;
    XorPower(c, 5);
    assert Pow2(5) == 0x20;
    assert HasBit(c, 5) == HasBit(c / 2 / 2 / 2, 2) == HasBit(c / 0x20, 0);
  }

  /** Escaping, byte by byte: 7E becomes 7D 5E, 7D becomes 7D 5D, and any other byte stays. */
  lemma EscapesAs(b: Byte, rest: Data)
    ensures Escaped([]) == []
    ensures Escaped([b] + rest)
         == (if b == 0x7E then [0x7D, 0x5E] else if b == 0x7D then [0x7D, 0x5D] else [b]) + Escaped(rest)
  {
    hide Flip;
    FlipsBitFive(0x7E);
    FlipsBitFive(0x7D);
    assert ([b] + rest)[1..] == rest;
  }

  /** Unescaping: the byte behind 7D with bit 5 complemented, any other byte as it is, a last 7D dropped. */
  lemma UnescapesAs(b: Byte, c: Byte, rest: Data)
    ensures Unescaped([]) == [] && Unescaped([0x7D]) == []
    ensures Unescaped([0x7D, c] + rest) == [if c / 0x20 % 2 == 0 then c + 0x20 else c - 0x20] + Unescaped(rest)
    ensures b != 0x7D ==> Unescaped([b] + rest) == [b] + Unescaped(rest)
  {
    hide Flip;
    FlipsBitFive(c);
    assert ([0x7D, c] + rest)[2..] == rest && ([b] + rest)[1..] == rest;
  }

  lemma ByteRoundTrip(b: Byte, rest: Data)
    ensures Unescaped(EscapedByte(b) + rest) == [b] + Unescaped(rest)
    ensures FLAG !in EscapedByte(b) && 1 <= |EscapedByte(b)| <= 2
  {
    hide Xor;
    XorCancel(b, b, 0x20);
    XorCancel(0x20, 0, b);
    XorHalf(b, 0x20);
    var all := EscapedByte(b) + rest;
    assert all[|EscapedByte(b)|..] == rest;
  }

  /** Escaping is undone by unescaping, never shows a flag and at most doubles the length. */
  lemma {:induction false} EscapeRoundTrip(frame: Data)
    ensures Unescaped(Escaped(frame)) == frame
    ensures FLAG !in Escaped(frame)
    ensures |frame| <= |Escaped(frame)| <= 2 * |frame|
  {
    hide EscapedByte;
    if frame == [] {
    } else {
      EscapeRoundTrip(frame[1..]);
      ByteRoundTrip(frame[0], Escaped(frame[1..]));
    }
  }

  // ---------------------------------------------------------------- messages

  /** What a 16-bit length field leaves of `data`. */
  function Sized(data: Data): (r: Data)
    ensures |data| < 0x1_0000 ==> r == data
  {
    data[..|data| % 0x1_0000]
  }

  function Body(cmd: U16, data: Data): Data
  {
    Be16(cmd) + Be16(Wrap16(|data|)) + data
  }

  /** A body and its checksum. */
  function Sealed(body: Data, sum: U16): Data { body + Be16(sum) }

  function Frame(cmd: U16, data: Data, kind: Kind): Data
  {
    Sealed(Body(cmd, data), kind.Compute(Body(cmd, data)))
  }

  /** The escaped frame between its outer flags. */
  function Wire(frame: Data): Data { [FLAG] + Escaped(frame) + [FLAG] }

  function Message(cmd: U16, data: Data, kind: Kind): Data { Wire(Frame(cmd, data, kind)) }

  method BuildMessage(cmd: U16, data: Data, kind: Kind) returns (msg: Data)
    ensures msg == Message(cmd, data, kind)
  {
    var body := Be16(cmd);
    body := body + Be16(Wrap16(|data|));
    body := body + data;
    var sum;
    match kind {
      case Sprd => sum := Checksum.SprdSum(body);
      case Crc => sum := Checksum.Crc16Ccitt(body);
    }
    body := body + Be16(sum);
    var escaped := Escape(body);
    msg := [FLAG] + escaped;
    msg := msg + [FLAG];
  }

  datatype FrameError = TooShort(len: nat) | Truncated(declared: nat, got: nat)

  datatype Parsed = Parsed(cmd: U16, data: Data)

  /** Decode an unescaped body; the checksum is not looked at. */
  function ParseMessage(body: Data): Result<Parsed, FrameError>
  {
    if |body| < 6 then Err(TooShort(|body|))
    else
      var size := GetBe16(body, 2);
      if |body| - 4 < size + 2 then Err(Truncated(size, Max(0, |body| - 4 - 2)))
      else Ok(Parsed(GetBe16(body, 0), body[4..][..size]))
  }

  /** A body is refused when it has no room for type, size and checksum, or not for what its size says. */
  lemma RefusedBody(body: Data)
    ensures |body| < 6 ==> ParseMessage(body) == Err(TooShort(|body|))
    ensures |body| >= 6 && |body| < 6 + GetBe16(body, 2) ==>
              ParseMessage(body) == Err(Truncated(GetBe16(body, 2), |body| - 6))
    ensures |body| >= 6 && |body| >= 6 + GetBe16(body, 2) ==>
              ParseMessage(body) == Ok(Parsed(GetBe16(body, 0), body[4..4 + GetBe16(body, 2)]))
  {
    if |body| >= 6 && |body| >= 6 + GetBe16(body, 2) {
      assert body[4..][..GetBe16(body, 2)] == body[4..4 + GetBe16(body, 2)];
    }
  }

  lemma FrameFields(cmd: U16, data: Data, sum: U16)
    ensures var f := Sealed(Body(cmd, data), sum);
            && |f| == |data| + 6
            && GetBe16(f, 0) == cmd
            && GetBe16(f, 2) == |data| % 0x1_0000
            && f[4..4 + |data|] == data
            && GetBe16(f, 4 + |data|) == sum
  {
    var f := Sealed(Body(cmd, data), sum);
    Words16(f, 0, cmd);
    Words16(f, 2, Wrap16(|data|));
    Words16(f, 4 + |data|, sum);
    assert f[0..2] == Be16(cmd) && f[2..4] == Be16(Wrap16(|data|));
    assert f[4 + |data|..4 + |data| + 2] == Be16(sum);
  }

  /** A frame without bytes to escape lies on the wire as it is. */
  lemma {:induction false} PlainBytes(frame: Data)
    requires FLAG !in frame && ESCAPE !in frame
    ensures Escaped(frame) == frame
  {
    if frame != [] {
      assert frame[0] in frame && forall b | b in frame[1..] :: b in frame;
      PlainBytes(frame[1..]);
    }
  }

  /** Two messages as a vendor tool puts them on the wire: CONNECT, and CHANGE_BAUD to 115200. */
  lemma CapturedMessages()
    ensures Message(CONNECT, [], Sprd) == [0x7E, 0x00, 0x00, 0x00, 0x00, 0xFF, 0xFF, 0x7E]
    ensures Message(CHANGE_BAUD, [0x00, 0x01, 0xC2, 0x00], Sprd)
         == [0x7E, 0x00, 0x09, 0x00, 0x04, 0x00, 0x01, 0xC2, 0x00, 0x3D, 0xF1, 0x7E]
  {
    hide Escaped, Checksum.SprdSumOf;
    var connect, baud: Data := [0, 0, 0, 0], [0x00, 0x09, 0x00, 0x04, 0x00, 0x01, 0xC2, 0x00];
    assert Body(CONNECT, []) == connect && Body(CHANGE_BAUD, [0x00, 0x01, 0xC2, 0x00]) == baud;
    Checksum.CapturedSums();
    PlainBytes(connect + [0xFF, 0xFF]);
    PlainBytes(baud + [0x3D, 0xF1]);
  }

  /** Parsing gives back what was framed, whatever the checksum. */
  lemma ParseOfFrame(cmd: U16, data: Data, sum: U16)
    ensures ParseMessage(Sealed(Body(cmd, data), sum)) == Ok(Parsed(cmd, Sized(data)))
  {
    hide Sealed, Body, GetBe16;
    FrameFields(cmd, data, sum);
    var f, n := Sealed(Body(cmd, data), sum), |data| % 0x1_0000;
    assert f[4..][..n] == f[4..4 + |data|][..n];
  }

  /** Which checksum validates an unescaped body, if any. */
  function DetectChecksum(body: Data): Option<Kind>
  {
    if |body| < 6 then None
    else
      var payload, sum := body[..|body| - 2], GetBe16(body, |body| - 2);
      if Checksum.SprdSumOf(payload) == sum then Some(Sprd)
      else if Checksum.Ccitt(payload) == sum then Some(Crc)
      else None
  }

  /** A sealed body is recognised under its own checksum, unless a CRC happens to equal the sum. */
  lemma DetectOfFrame(body: Data, kind: Kind)
    requires |body| >= 4
    ensures var found := DetectChecksum(Sealed(body, kind.Compute(body)));
            && found.Some?
            && (found == Some(kind) || (kind == Crc && Checksum.Ccitt(body) == Checksum.SprdSumOf(body)))
  {
    hide Checksum.SprdSumOf, Checksum.Ccitt;
    var sum := kind.Compute(body);
    var frame := Sealed(body, sum);
    assert frame[..|frame| - 2] == body;
    assert frame[|frame| - 2..|frame|] == Be16(sum);
    Words16(frame, |frame| - 2, sum);
  }

  /** A frame that passes the Spreadtrum sum no longer does with any one body byte changed. */
  lemma DetectsByteChange(frame: Data, i: nat, b: Byte)
    requires DetectChecksum(frame) == Some(Sprd)
    requires i < |frame| - 2 <= 131074 && b != frame[i]
    ensures DetectChecksum(frame[i := b]) != Some(Sprd)
  {
    hide Checksum.SprdSumOf, Checksum.Ccitt;
    var n := |frame| - 2;
    assert frame[i := b][..n] == frame[..n][i := b];
    assert GetBe16(frame[i := b], n) == GetBe16(frame, n);
    Checksum.SprdSumDetectsByteChange(frame[..n], i, b);
  }

  // ---------------------------------------------------------------- host-side decoding

  function SkipFlags(buf: Data, i: nat): (r: nat)
    requires i <= |buf|
    ensures i <= r <= |buf|
    ensures forall j | i <= j < r :: buf[j] == FLAG
    ensures r < |buf| ==> buf[r] != FLAG
    decreases |buf| - i
  {
    if i < |buf| && buf[i] == FLAG then SkipFlags(buf, i + 1) else i
  }

  /** The unescaped body of the first complete frame in `buf`. */
  function FrameBody(buf: Data): Option<Data>
  {
    var i := SkipFlags(buf, Find(buf, FLAG));
    var close := FindFrom(buf, FLAG, i);
    if close == |buf| then None else Some(Unescaped(buf[i..close]))
  }

  method FindFrameBody(buf: Data) returns (r: Option<Data>)
    ensures r == FrameBody(buf)
  {
    var i := Find(buf, FLAG);
    if i == |buf| {
      return None;
    }
    while i < |buf| && buf[i] == FLAG
      invariant i <= |buf|
      invariant SkipFlags(buf, i) == SkipFlags(buf, Find(buf, FLAG))
    {
      i := i + 1;
    }
    if i >= |buf| {
      return None;
    }
    var close := FindFrom(buf, FLAG, i);
    if close == |buf| {
      return None;
    }
    var body := Unescape(buf[i..close]);
    return Some(body);
  }

  /** `buf` is noise up to `open`, then flags up to `start`, then flag-free up to `close`. */
  ghost predicate Layout(buf: Data, open: nat, start: nat, close: nat)
  {
    && open <= start <= close <= |buf|
    && (forall j | 0 <= j < open :: buf[j] != FLAG)
    && (forall j | open <= j < start :: buf[j] == FLAG)
    && (forall j | start <= j < close :: buf[j] != FLAG)
  }

  /** The frame of such a buffer is the flag-free stretch, once it is closed. */
  lemma FrameBodyOfLayout(buf: Data, open: nat, start: nat, close: nat)
    requires Layout(buf, open, start, close)
    requires open == start ==> start == |buf|
    requires close < |buf| ==> start < close && buf[close] == FLAG
    ensures FrameBody(buf) == if close == |buf| then None else Some(Unescaped(buf[start..close]))
  {
    hide FindFrom, Unescaped;
    FindIs(buf, FLAG, 0, open);
    assert start < |buf| ==> buf[start] != FLAG;
    assert SkipFlags(buf, open) == start;
    FindIs(buf, FLAG, start, close);
  }

  /**
   Host-side decoding does not depend on fragmentation: after noise without a flag and any run
   of flags, a frame is found whatever follows it, and in no proper prefix.
   */
  lemma FrameBodyOfMessage(noise: Data, flags: nat, frame: Data, after: Data)
    requires FLAG !in noise && frame != []
    ensures var wire := noise + Repeat(FLAG, flags) + Wire(frame);
            && FrameBody(wire + after) == Some(frame)
            && forall n | 0 <= n < |wire| :: FrameBody(wire[..n]) == None
  {
    hide FrameBody, Escaped, Unescaped;
    EscapeRoundTrip(frame);
    var esc, wire := Escaped(frame), noise + Repeat(FLAG, flags) + Wire(frame);
    var open, start, close := |noise|, |noise| + flags + 1, |wire| - 1;
    assert forall j | start <= j < close :: wire[j] == esc[j - start];
    assert forall j | open <= j < start :: wire[j] == FLAG;
    assert Layout(wire, open, start, close);
    assert (wire + after)[start..close] == esc;
    FrameBodyOfLayout(wire + after, open, start, close);
    forall n | 0 <= n < |wire|
      ensures FrameBody(wire[..n]) == None
    {
      FrameBodyOfLayout(wire[..n], Min(n, open), Min(n, start), n);
    }
  }

  /** `read_until` over a port that delivers `fragments`, starting from `acc`. */
  function Poll<R>(pred: Data -> Option<R>, acc: Data, fragments: seq<Data>): Option<R>
    decreases |fragments|
  {
    var found := pred(acc);
    if found.Some? || fragments == [] then found
    else Poll(pred, acc + fragments[0], fragments[1..])
  }

  /** A decoder that fires on `wire` and its extensions only is immune to fragmentation. */
  lemma {:induction false} PollFragments<R>(
      pred: Data -> Option<R>, wire: Data, value: R, acc: Data, fragments: seq<Data>)
    requires wire <= acc + Flatten(fragments)
    requires forall n | 0 <= n < |wire| :: pred(wire[..n]) == None
    requires forall after :: pred(wire + after) == Some(value)
    ensures Poll(pred, acc, fragments) == Some(value)
    decreases |fragments|
  {
    var all := acc + Flatten(fragments);
    if |acc| < |wire| {
      assert acc == all[..|acc|] == wire[..|acc|];
      assert fragments != [];
      assert all == (acc + fragments[0]) + Flatten(fragments[1..]);
      PollFragments(pred, wire, value, acc + fragments[0], fragments[1..]);
    } else {
      assert acc == all[..|acc|];
      assert acc == wire + acc[|wire|..];
    }
  }

  /** End to end: any fragmentation of noise, flags, a message and more yields that message. */
  lemma ReceiveFragments(noise: Data, flags: nat, cmd: U16, data: Data, sum: U16, after: Data, fragments: seq<Data>)
    requires FLAG !in noise
    requires Flatten(fragments) == noise + Repeat(FLAG, flags) + Wire(Sealed(Body(cmd, data), sum)) + after
    ensures var body := Poll(FrameBody, [], fragments);
            && body.Some?
            && ParseMessage(body.value) == Ok(Parsed(cmd, Sized(data)))
  {
    hide FrameBody, Wire, Sealed, Body, ParseMessage, Poll, Flatten;
    FrameFields(cmd, data, sum);
    var frame := Sealed(Body(cmd, data), sum);
    var wire := noise + Repeat(FLAG, flags) + Wire(frame);
    forall more: Data
      ensures FrameBody(wire + more) == Some(frame)
    {
      FrameBodyOfMessage(noise, flags, frame, more);
    }
    FrameBodyOfMessage(noise, flags, frame, []);
    assert [] + Flatten(fragments) == wire + after;
    PollFragments(FrameBody, wire, frame, [], fragments);
    ParseOfFrame(cmd, data, sum);
  }

  // ---------------------------------------------------------------- device-side decoding

  datatype Split = Split(raw: seq<Data>, rest: Data)

  /**
   The device cuts its buffer at pairs of flags, without skipping runs of them, into still
   escaped bodies; what is left holds at most one flag.
   */
  function SplitFrames(buf: Data): Split
    decreases |buf|
  {
    var i0 := Find(buf, FLAG);
    if i0 == |buf| then Split([], buf)
    else
      var i1 := FindFrom(buf, FLAG, i0 + 1);
      if i1 == |buf| then Split([], buf)
      else
        var later := SplitFrames(buf[i1 + 1..]);
        Split([buf[i0 + 1..i1]] + later.raw, later.rest)
  }

  ghost predicate FirstPair(buf: Data, i0: nat, i1: nat)
  {
    && i0 < i1 < |buf| && buf[i0] == FLAG && buf[i1] == FLAG
    && (forall j | 0 <= j < i0 :: buf[j] != FLAG)
    && (forall j | i0 < j < i1 :: buf[j] != FLAG)
  }

  lemma SplitFirst(buf: Data, i0: nat, i1: nat)
    requires FirstPair(buf, i0, i1)
    ensures var later := SplitFrames(buf[i1 + 1..]);
            SplitFrames(buf) == Split([buf[i0 + 1..i1]] + later.raw, later.rest)
  {
    hide FindFrom;
    FindIs(buf, FLAG, 0, i0);
    FindIs(buf, FLAG, i0 + 1, i1);
  }

  lemma HasPair(a: Data) returns (i0: nat, i1: nat)
    ensures i1 == |a| ==> SplitFrames(a) == Split([], a)
    ensures i1 != |a| ==> FirstPair(a, i0, i1)
  {
    i0 := Find(a, FLAG);
    i1 := if i0 == |a| then |a| else FindFrom(a, FLAG, i0 + 1);
  }

  function Then(first: Split, second: Split): Split
  {
    Split(first.raw + second.raw, second.rest)
  }

  /** Decoding can be resumed: the undecoded suffix is all the state it needs. */
  lemma {:induction false} SplitResumes(a: Data, b: Data)
    ensures SplitFrames(a + b) == Then(SplitFrames(a), SplitFrames(SplitFrames(a).rest + b))
    decreases |a|
  {
    hide SplitFrames, FindFrom;
    var i0, i1 := HasPair(a);
    if i1 == |a| {
      assert [] + SplitFrames(a + b).raw == SplitFrames(a + b).raw;
    } else {
      assert FirstPair(a + b, i0, i1);
      SplitFirst(a, i0, i1);
      SplitFirst(a + b, i0, i1);
      assert (a + b)[i1 + 1..] == a[i1 + 1..] + b && (a + b)[i0 + 1..i1] == a[i0 + 1..i1];
      SplitResumes(a[i1 + 1..], b);
      var body, first := [a[i0 + 1..i1]], SplitFrames(a[i1 + 1..]).raw;
      var second := SplitFrames(SplitFrames(a).rest + b).raw;
      assert (body + first) + second == body + (first + second);
    }
  }

  /** A frame at the head of the stream is cut off as exactly one still escaped body. */
  lemma SplitOfMessage(frame: Data, after: Data)
    ensures var later := SplitFrames(after);
            SplitFrames(Wire(frame) + after) == Split([Escaped(frame)] + later.raw, later.rest)
  {
    hide Escaped, Unescaped, SplitFrames;
    var esc := Escaped(frame);
    EscapeRoundTrip(frame);
    var buf := Wire(frame) + after;
    assert forall j | 0 < j < 1 + |esc| :: buf[j] == esc[j - 1];
    assert buf[1 + |esc| + 1..] == after;
    SplitFirst(buf, 0, 1 + |esc|);
    assert buf[1..1 + |esc|] == esc;
  }
}
