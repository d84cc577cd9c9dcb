/**
 PDL, the first-stage link layer that loads and executes FDL1 before any BSL.
 */
module Pdl {
  import opened Bytes

  const MAGIC: Byte := 0xAE
  const HEADER_LEN: nat := 8
  const CHUNK: nat := 2048

  const CONNECT: U32 := 0
  const START_DATA: U32 := 4
  const MIDST_DATA: U32 := 5
  const END_DATA: U32 := 6
  const EXEC: U32 := 7

  function Header(len: U16): (r: Data)
    ensures |r| == HEADER_LEN && r[0] == MAGIC && GetLe16(r, 1) == len
  {
    Words16([MAGIC] + Le16(len), 1, len);
    [MAGIC] + Le16(len) + [0x00, 0x00, 0xFF, 0x00, 0x00]
  }

  /** The header byte by byte. */
  lemma HeaderIs(len: U16)
    ensures Header(len) == [0xAE, len % 0x100, len / 0x100, 0x00, 0x00, 0xFF, 0x00, 0x00]
  {
  }

  function Params(cmd: U32, arg1: U32, arg2: U32, extra: Data): Data
  {
    Le32(cmd) + Le32(arg1) + Le32(arg2) + extra
  }

  lemma ParamsFields(cmd: U32, arg1: U32, arg2: U32, extra: Data)
    ensures |Params(cmd, arg1, arg2, extra)| == 12 + |extra|
    ensures GetLe32(Params(cmd, arg1, arg2, extra), 0) == cmd
    ensures GetLe32(Params(cmd, arg1, arg2, extra), 4) == arg1
    ensures GetLe32(Params(cmd, arg1, arg2, extra), 8) == arg2
    ensures Params(cmd, arg1, arg2, extra)[12..] == extra
  {
    hide LeBytes, GetLe32;
    var p := Params(cmd, arg1, arg2, extra);
    assert p[0..4] == Le32(cmd) && p[4..8] == Le32(arg1) && p[8..12] == Le32(arg2);
    Words32(p, 0, cmd);
    Words32(p, 4, arg1);
    Words32(p, 8, arg2);
  }

  datatype Response = Response(status: U32, payload: Data)

  /** Decode a reply, resynchronising to the magic byte; `None` asks for more bytes. */
  function TryParseResponse(buf: Data): Option<Response>
  {
    var start := Find(buf, MAGIC);
    if |buf| - start < HEADER_LEN then None
    else
      var rlen := GetLe16(buf, start + 1);
      var end := start + HEADER_LEN + rlen;
      if |buf| < end then None
      else
        var payload := buf[start + HEADER_LEN..end];
        Some(Response(if |payload| >= 4 then GetLe32(payload, 0) else 0, payload))
  }

  /**
   A reply is decoded once it is complete, whatever leads it without a magic byte and whatever
   follows it, and never earlier.
   */
  lemma ResponseIsStable(noise: Data, payload: Data, after: Data)
    requires MAGIC !in noise && |payload| < 0x1_0000
    ensures var wire := noise + Header(|payload|) + payload;
            && TryParseResponse(wire + after)
               == Some(Response(if |payload| >= 4 then GetLe32(payload, 0) else 0, payload))
            && forall n | 0 <= n < |wire| :: TryParseResponse(wire[..n]) == None
  {
    var wire := noise + Header(|payload|) + payload;
    var full := wire + after;
    FindIs(full, MAGIC, 0, |noise|);
    assert full[|noise| + 1] == Header(|payload|)[1] && full[|noise| + 2] == Header(|payload|)[2];
    assert full[|noise| + HEADER_LEN..|wire|] == payload;
    forall n | 0 <= n < |wire|
      ensures TryParseResponse(wire[..n]) == None
    {
      FindIs(wire[..n], MAGIC, 0, Min(n, |noise|));
    }
  }
}
