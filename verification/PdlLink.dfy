/**
 The host's PDL session: load FDL1, execute it, and kick the device until its version frame
 arrives.
 */
module PdlLink {
  import opened Bytes
  import Bsl
  import opened Device
  import opened Link
  import opened Pdl

  datatype PdlError = PdlTimeout | NoVersion

  /** The header alone is not taken for a message; with its payload it is exactly one. */
  lemma OneMessage(payload: Data)
    requires 12 <= |payload| < 0x1_0000
    ensures var header := Header(|payload|);
            && SplitPdl(header) == PdlSplit([], false, header)
            && SplitPdl(header + payload) == PdlSplit([payload], IsExec(payload), [])
  {
    hide PdlTotal, Header, IsExec;
    var header := Header(|payload|);
    var msg := header + payload;
    TotalOf(payload);
    assert msg[HEADER_LEN..|msg|] == payload && msg[|msg|..] == [];
    assert SplitPdl([]) == PdlSplit([], false, []);
    assert [payload] + [] == [payload];
  }

  lemma TotalOf(payload: Data)
    requires 12 <= |payload| < 0x1_0000
    ensures PdlTotal(Header(|payload|)) == None && PdlTotal([]) == None
    ensures PdlTotal(Header(|payload|) + payload) == Some(HEADER_LEN + |payload|)
  {
    hide Header;
    assert GetLe16(Header(|payload|) + payload, 1) == GetLe16(Header(|payload|), 1);
  }

  /** Header and payload are separate writes. */
  method Send(dev: MockTransport, payload: Data)
    requires dev.PdlIdle() && 12 <= |payload| < 0x1_0000
    modifies dev
    ensures dev.Valid() && dev.mode == PdlMode && dev.inBuf == []
    ensures dev.log == old(dev.log) && dev.pdlLog == old(dev.pdlLog) + [payload]
    ensures dev.flash == old(dev.flash) && dev.cur == old(dev.cur)
    ensures dev.execSeen == (GetLe32(payload, 0) == EXEC)
    ensures dev.out == if dev.execSeen then [] else PDL_OK
  {
    hide SplitPdl, Header, LeWord, Bsl.SplitFrames, Bsl.Message, Replay, Replied;
    var header := Header(|payload|);
    OneMessage(payload);
    assert [] + header == header;
    dev.WriteAll(header);
    dev.WriteAll(payload);
    assert PdlAnswers(1) == PDL_OK;
  }

  /** The answer to a message is read as such once it is complete. */
  lemma AnswerIsRead()
    ensures TryParseResponse(PDL_OK) == Some(Response(0, [0, 0, 0, 0]))
    ensures forall n | 0 <= n < |PDL_OK| :: TryParseResponse(PDL_OK[..n]) == None
  {
    hide TryParseResponse, Header;
    ResponseIsStable([], [0, 0, 0, 0], []);
    assert [] + Header(4) + [0, 0, 0, 0] == PDL_OK == PDL_OK + [];
    assert LeWord([0, 0, 0, 0][0..4]) == 0 by {
      assert [0, 0, 0, 0][0..4] == LeBytes(0, 4);
      WordOfBytes(0, 4);
    }
  }

  method Command(dev: MockTransport, payload: Data) returns (r: Result<Response, PdlError>)
    requires dev.PdlIdle() && 12 <= |payload| < 0x1_0000 && GetLe32(payload, 0) != EXEC
    modifies dev
    ensures dev.PdlIdle()
    ensures dev.log == old(dev.log) && dev.pdlLog == old(dev.pdlLog) + [payload]
    ensures dev.flash == old(dev.flash) && dev.cur == old(dev.cur)
    ensures r == Ok(Response(0, [0, 0, 0, 0]))
  {
    hide Replay, Replied, TryParseResponse, Header, GetLe32;
    Send(dev, payload);
    AnswerIsRead();
    var got := TakeReply(dev, TryParseResponse, READ_BUFFER, PDL_OK);
    match got {
      case None => r := Err(PdlTimeout);
      case Some(resp) => r := Ok(resp);
    }
  }

  /** `PDL1` and a NUL. */
  const IMAGE_NAME: Data := [80, 68, 76, 49, 0]

  function Block(index: nat, piece: Data): Data
  {
    Params(MIDST_DATA, Wrap32(index), Wrap32(|piece|), piece)
  }

  function Blocks(pieces: seq<Data>): seq<Data>
  {
    seq(|pieces|, i requires 0 <= i < |pieces| => Block(i, pieces[i]))
  }

  /** The messages that load `data` at `addr`. */
  function ImageMessages(addr: U32, data: Data): seq<Data>
  {
    [Params(START_DATA, addr, Wrap32(|data|), IMAGE_NAME)]
    + Blocks(Pieces(data, CHUNK))
    + [Params(END_DATA, 0, 0, Le32(0))]
  }

  lemma {:induction false} PiecesJoin(data: Data, size: nat)
    requires size > 0
    ensures Flatten(Pieces(data, size)) == data
    ensures forall p | p in Pieces(data, size) :: 0 < |p| <= size
    decreases |data|
  {
    if |data| <= size {
      if data != [] {
        assert Flatten([data]) == data + Flatten([data][1..]);
      }
    } else {
      PiecesJoin(data[size..], size);
      assert Pieces(data, size)[1..] == Pieces(data[size..], size);
      assert data == data[..size] + data[size..];
    }
  }

  /** A message that says `cmd` with two arguments, and carries `extra`. */
  ghost predicate Says(m: Data, cmd: U32, arg1: U32, arg2: U32, extra: Data)
  {
    && |m| == 12 + |extra| && m[12..] == extra
    && GetLe32(m, 0) == cmd && GetLe32(m, 4) == arg1 && GetLe32(m, 8) == arg2
  }

  /**
   A start that announces address and size under the name `PDL1`, numbered blocks of at most 2048
   bytes that are, in order, the image, and an end with a checksum of zero.
   */
  ghost predicate Delivers(m: seq<Data>, addr: U32, data: Data)
  {
    && |m| >= 2
    && Says(m[0], 4, addr, Wrap32(|data|), [0x50, 0x44, 0x4C, 0x31, 0x00])
    && Says(m[|m| - 1], 6, 0, 0, [0, 0, 0, 0])
    && var blocks := m[1..|m| - 1];
    && |blocks| == (|data| + 2047) / 2048
    && (forall i | 0 <= i < |blocks| :: IsBlock(blocks[i], i))
    && Flatten(seq(|blocks|, i requires 0 <= i < |blocks| => DropHead(blocks[i]))) == data
  }

  /** A numbered block of an image and what it says about itself. */
  ghost predicate IsBlock(b: Data, index: nat)
  {
    12 < |b| <= 12 + 2048 && Says(b, 5, Wrap32(index), Wrap32(|b| - 12), b[12..])
  }

  lemma ParamsSay(cmd: U32, arg1: U32, arg2: U32, extra: Data)
    ensures Says(Params(cmd, arg1, arg2, extra), cmd, arg1, arg2, extra)
  {
    ParamsFields(cmd, arg1, arg2, extra);
  }

  /** The messages that load an image deliver it, field by field. */
  lemma ImageIsDelivered(addr: U32, data: Data)
    ensures Delivers(ImageMessages(addr, data), addr, data)
  {
    hide Params, Pieces, Flatten, LeBytes, Wrap32, IsBlock, Says;
    var pieces := Pieces(data, CHUNK);
    PiecesJoin(data, CHUNK);
    PieceCount(data);
    var m := ImageMessages(addr, data);
    var blocks := m[1..|m| - 1];
    assert blocks == Blocks(pieces);
    forall i | 0 <= i < |blocks|
      ensures IsBlock(blocks[i], i) && DropHead(blocks[i]) == pieces[i]
    {
      assert pieces[i] in pieces;
      BlockCarries(i, pieces[i]);
    }
    assert seq(|blocks|, i requires 0 <= i < |blocks| => DropHead(blocks[i])) == pieces;
    ParamsSay(START_DATA, addr, Wrap32(|data|), IMAGE_NAME);
    ParamsSay(END_DATA, 0, 0, [0, 0, 0, 0]);
    FourZeros();
  }

  lemma FourZeros()
    ensures Le32(0) == [0, 0, 0, 0]
  {
    assert LeBytes(0, 1) == [0] && LeBytes(0, 2) == [0, 0] && LeBytes(0, 3) == [0, 0, 0];
  }

  lemma BlockCarries(index: nat, piece: Data)
    requires 0 < |piece| <= CHUNK
    ensures IsBlock(Block(index, piece), index) && DropHead(Block(index, piece)) == piece
  {
    hide LeBytes, Wrap32, Says, Params;
    ParamsFields(MIDST_DATA, Wrap32(index), Wrap32(|piece|), piece);
    ParamsSay(MIDST_DATA, Wrap32(index), Wrap32(|piece|), piece);
  }

  function DropHead(b: Data): Data { if |b| < 12 then [] else b[12..] }

  method Connect(dev: MockTransport) returns (r: Result<(), PdlError>)
    requires dev.PdlIdle()
    modifies dev
    ensures dev.PdlIdle() && r.Ok?
    ensures dev.log == old(dev.log) && dev.pdlLog == old(dev.pdlLog) + [Params(CONNECT, 0, 0, [])]
    ensures dev.flash == old(dev.flash) && dev.cur == old(dev.cur)
  {
    hide Replay, Replied;
    ParamsFields(CONNECT, 0, 0, []);
    var got := Command(dev, Params(CONNECT, 0, 0, []));
    if got.Err? {
      return Err(PdlTimeout);
    }
    r := Ok(());
  }

  method SendImage(dev: MockTransport, addr: U32, data: Data) returns (r: Result<(), PdlError>)
    requires dev.PdlIdle()
    modifies dev
    ensures dev.PdlIdle() && r.Ok?
    ensures dev.log == old(dev.log) && dev.pdlLog == old(dev.pdlLog) + ImageMessages(addr, data)
    ensures dev.flash == old(dev.flash) && dev.cur == old(dev.cur)
  {
    hide Params, GetLe32, Pieces, Flatten, Replay, Wrap32, LeBytes, Replied;
    ghost var log0 := dev.pdlLog;
    ghost var first := [Params(START_DATA, addr, Wrap32(|data|), IMAGE_NAME)];
    ParamsFields(START_DATA, addr, Wrap32(|data|), IMAGE_NAME);
    var got := Command(dev, Params(START_DATA, addr, Wrap32(|data|), IMAGE_NAME));
    if got.Err? {
      return Err(PdlTimeout);
    }
    PiecesJoin(data, CHUNK);
    var pieces := Pieces(data, CHUNK);
    assert dev.pdlLog == (log0 + first) + Blocks(pieces[..0]);
    for i := 0 to |pieces|
      invariant dev.PdlIdle() && dev.log == old(dev.log)
      invariant dev.flash == old(dev.flash) && dev.cur == old(dev.cur)
      invariant dev.pdlLog == (log0 + first) + Blocks(pieces[..i])
    {
      var block := Block(i, pieces[i]);
      assert pieces[i] in pieces;
      ParamsFields(MIDST_DATA, Wrap32(i), Wrap32(|pieces[i]|), pieces[i]);
      assert Blocks(pieces[..i + 1]) == Blocks(pieces[..i]) + [block];
      got := Command(dev, block);
      if got.Err? {
        return Err(PdlTimeout);
      }
    }
    assert pieces[..|pieces|] == pieces;
    ParamsFields(END_DATA, 0, 0, Le32(0));
    got := Command(dev, Params(END_DATA, 0, 0, Le32(0)));
    if got.Err? {
      return Err(PdlTimeout);
    }
    assert dev.pdlLog == log0 + ImageMessages(addr, data);
    r := Ok(());
  }

  /** The first `7E ... 7E` stretch, flags included. */
  function ExtractFlagFrame(buf: Data): Option<Data>
  {
    var first := Find(buf, Bsl.FLAG);
    if first == |buf| then None
    else
      var end := FindFrom(buf, Bsl.FLAG, first + 1);
      if end == |buf| then None else Some(buf[first..end + 1])
  }

  /** A message is extracted whole, whatever follows it, and from no proper prefix. */
  lemma ExtractMessage(frame: Data, after: Data)
    ensures var msg := Bsl.Wire(frame);
            && ExtractFlagFrame(msg + after) == Some(msg)
            && forall n | 0 <= n < |msg| :: ExtractFlagFrame(msg[..n]) == None
  {
    hide FindFrom, Bsl.Escaped, Bsl.Unescaped;
    Bsl.EscapeRoundTrip(frame);
    var esc, msg := Bsl.Escaped(frame), Bsl.Wire(frame);
    assert forall j | 1 <= j < 1 + |esc| :: msg[j] == esc[j - 1];
    FindIs(msg + after, Bsl.FLAG, 0, 0);
    FindIs(msg + after, Bsl.FLAG, 1, 1 + |esc|);
    assert (msg + after)[0..|msg|] == msg;
    forall n | 0 <= n < |msg|
      ensures ExtractFlagFrame(msg[..n]) == None
    {
      FindIs(msg[..n], Bsl.FLAG, 0, 0);
      if n > 0 {
        FindIs(msg[..n], Bsl.FLAG, 1, n);
      }
    }
  }

  const VER_READ: nat := 256

  /** One check-baud flag to a device that has executed FDL1. */
  method Kick(dev: MockTransport)
    requires dev.Valid() && dev.mode == PdlMode && dev.execSeen && dev.inBuf == [] && dev.out == []
    modifies dev
    ensures dev.Valid() && dev.mode == BslMode && dev.inBuf == []
    ensures dev.out == Bsl.Message(Bsl.REP_VER, dev.banner, Bsl.Sprd)
    ensures dev.log == old(dev.log) && dev.pdlLog == old(dev.pdlLog)
    ensures dev.flash == old(dev.flash) && dev.cur == old(dev.cur)
  {
    hide Bsl.Message, Bsl.SplitFrames, PdlTotal, Replay, Replied;
    assert [] + [Bsl.FLAG] == [Bsl.FLAG];
    dev.WriteAll([Bsl.FLAG]);
    ghost var wire := Bsl.Message(Bsl.REP_VER, dev.banner, Bsl.Sprd);
    assert [] + wire == wire;
  }

  /** No further kick falls due while the version frame is being read, `VER_READ` bytes a round. */
  ghost predicate Timely(banner: Data, due: nat -> bool)
  {
    forall i: nat | 0 < i && i * VER_READ < |Bsl.Message(Bsl.REP_VER, banner, Bsl.Sprd)| :: !due(i)
  }

  /** No kick but the first falls due before round `i`. */
  ghost predicate NoneBefore(due: nat -> bool, i: nat)
  {
    forall k: nat | 0 < k < i :: !due(k)
  }

  /** The condition, when the last read is in round `i`. */
  lemma TimelyIs(banner: Data, due: nat -> bool, i: nat)
    requires i * VER_READ < |Bsl.Message(Bsl.REP_VER, banner, Bsl.Sprd)| <= (i + 1) * VER_READ
    ensures Timely(banner, due) <==> NoneBefore(due, i + 1)
  {
    hide Bsl.Message;
    forall k: nat | 0 < k
      ensures k * VER_READ < |Bsl.Message(Bsl.REP_VER, banner, Bsl.Sprd)| <==> k <= i
    {
    }
  }

  /** The device's own banner is read in one go, so that nothing can fall due. */
  lemma BannerIsTimely(due: nat -> bool)
    ensures Timely(VER_BANNER, due)
  {
    hide Bsl.Escaped;
    Bsl.EscapeRoundTrip(Bsl.Frame(Bsl.REP_VER, VER_BANNER, Bsl.Sprd));
  }

  /** A banner of 249 bytes or more needs a second read, and a kick may fall due before it. */
  lemma LongBannerIsLate(banner: Data, due: nat -> bool)
    requires |banner| >= 249 && due(1)
    ensures !Timely(banner, due)
  {
    hide Bsl.Escaped;
    Bsl.EscapeRoundTrip(Bsl.Frame(Bsl.REP_VER, banner, Bsl.Sprd));
    assert 1 * VER_READ < |Bsl.Message(Bsl.REP_VER, banner, Bsl.Sprd)|;
  }

  lemma NextRound(due: nat -> bool, i: nat)
    ensures NoneBefore(due, 0) && (NoneBefore(due, i + 1) <==> NoneBefore(due, i) && (i == 0 || !due(i)))
  {
  }

  /** What a kick too many does: the next message is not executed, an empty frame is in its place. */
  lemma HalfFrameSwallows(frame: Data)
    ensures Bsl.SplitFrames([Bsl.FLAG] + Bsl.Wire(frame)) == Bsl.Split([[]], Bsl.Escaped(frame) + [Bsl.FLAG])
    ensures Commands([[]]) == [Cmd(0, [])]
  {
    hide Bsl.Escaped, FindFrom;
    Bsl.EscapeRoundTrip(frame);
    var esc := Bsl.Escaped(frame);
    var all, rest := [Bsl.FLAG] + Bsl.Wire(frame), esc + [Bsl.FLAG];
    assert all[2..] == rest && all[1..1] == [];
    Bsl.SplitFirst(all, 0, 1);
    FindIs(rest, Bsl.FLAG, 0, |esc|);
    FindIs(rest, Bsl.FLAG, |esc| + 1, |rest|);
  }

  /** What a device in BSL mode makes of lone flags: every second one closes an empty frame. */
  ghost predicate AfterKicks(dev: MockTransport, log0: seq<Cmd>, extra: nat)
    reads dev`mode, dev`inBuf, dev`log
  {
    && dev.mode == BslMode && dev.inBuf == (if extra % 2 == 0 then [] else [Bsl.FLAG])
    && dev.log == log0 + seq(extra / 2, _ => Cmd(0, []))
  }

  lemma NoFlags(dev: MockTransport)
    ensures dev.mode == BslMode && dev.inBuf == [] ==> AfterKicks(dev, dev.log, 0)
    ensures forall log0: seq<Cmd>, extra: nat :: AfterKicks(dev, log0, extra) ==>
              dev.mode == BslMode && (extra == 0 <==> dev.inBuf == [] && dev.log == log0)
  {
    assert dev.log + [] == dev.log;
  }

  lemma LoneFlags()
    ensures Bsl.SplitFrames([Bsl.FLAG]) == Bsl.Split([], [Bsl.FLAG])
    ensures Bsl.SplitFrames([Bsl.FLAG] + [Bsl.FLAG]) == Bsl.Split([[]], [])
    ensures Commands([]) == [] && Commands([[]]) == [Cmd(0, [])]
  {
    NothingToSplit();
  }

  /** One more flag to a device that is in BSL mode already. */
  method KickAgain(dev: MockTransport, ghost log0: seq<Cmd>, ghost extra: nat) returns (ghost junk: Data)
    requires dev.Valid() && AfterKicks(dev, log0, extra)
    modifies dev
    ensures dev.Valid() && AfterKicks(dev, log0, extra + 1)
    ensures dev.out == old(dev.out) + junk
    ensures dev.pdlLog == old(dev.pdlLog) && dev.flash == old(dev.flash) && dev.cur == old(dev.cur)
  {
    hide Bsl.SplitFrames, Commands, IsReply, Answers, Replay, Replied;
    LoneFlags();
    ghost var before := dev.replies;
    ReplayOne(Store(None, dev.seed), dev.log, Cmd(0, []));
    assert [] + [Bsl.FLAG] == [Bsl.FLAG];
    dev.WriteAll([Bsl.FLAG]);
    junk := Answers(dev.replies[|before|..]);
  }

  /**
   EXEC, then check-baud kicks whenever one falls due, and reads until the version frame is there;
   `due(i)` says whether 50 ms have passed at the `i`-th round. Whatever the timing, the frame is
   returned. A further kick leaves a device in BSL mode with half a frame, and every second one with
   an empty frame executed; the link is quiet exactly when none falls due before the last read.
   */
  method ExecAndGetVer(dev: MockTransport, due: nat -> bool) returns (r: Result<Data, PdlError>, ghost extra: nat)
    requires dev.PdlIdle()
    modifies dev
    ensures r == Ok(Bsl.Message(Bsl.REP_VER, dev.banner, Bsl.Sprd))
    ensures dev.Valid() && AfterKicks(dev, old(dev.log), extra)
    ensures dev.pdlLog == old(dev.pdlLog) + [Params(EXEC, 0, 0, [])]
    ensures dev.flash == old(dev.flash) && dev.cur == old(dev.cur)
    ensures extra == 0 <==> Timely(dev.banner, due)
    ensures extra == 0 <==> dev.Idle() && dev.log == old(dev.log)
  {
    hide Bsl.Wire, Bsl.Frame, Bsl.SplitFrames, ExtractFlagFrame, GetLe32, Replay, Replied, Params, AfterKicks,
      Timely, NoneBefore;
    ParamsFields(EXEC, 0, 0, []);
    Send(dev, Params(EXEC, 0, 0, []));
    ghost var frame := Bsl.Frame(Bsl.REP_VER, dev.banner, Bsl.Sprd);
    ghost var log0, wire, junk: Data := dev.log, Bsl.Wire(frame), [];
    assert [] + wire == wire + [];
    FrameOrNothing(frame, [], wire, []);
    NoFlags(dev);
    NextRound(due, 0);
    var acc: Data, i := [], 0;
    extra := 0;
    while true
      invariant dev.Valid() && dev.pdlLog == old(dev.pdlLog) + [Params(EXEC, 0, 0, [])]
      invariant dev.flash == old(dev.flash) && dev.cur == old(dev.cur)
      invariant i == 0 ==> dev.mode == PdlMode && dev.execSeen && dev.inBuf == [] && dev.out == [] && dev.log == log0
      invariant i > 0 ==> AfterKicks(dev, log0, extra) && acc + dev.out == wire + junk
      invariant |acc| < |wire| && (i == 0 ==> acc == []) && (extra == 0 ==> junk == [])
      invariant |acc| == i * VER_READ
      invariant extra == 0 <==> NoneBefore(due, i)
      decreases |wire| - |acc|
    {
      NextRound(due, i);
      if i == 0 {
        Kick(dev);
        NoFlags(dev);
      } else if due(i) {
        ghost var before := dev.out;
        ghost var more := KickAgain(dev, log0, extra);
        assert acc + (before + more) == (acc + before) + more == wire + (junk + more);
        junk, extra := junk + more, extra + 1;
      }
      assert acc + dev.out == wire + junk;
      ghost var pending := dev.out;
      var bytes := dev.ReadSome(VER_READ);
      assert acc + pending == (acc + bytes) + dev.out;
      acc := acc + bytes;
      FrameOrNothing(frame, acc, dev.out, junk);
      NoFlags(dev);
      if |acc| >= |wire| {
        TimelyIs(dev.banner, due, i);
      }
      var found := ExtractFlagFrame(acc);
      match found {
        case Some(f) => return Ok(f), extra;
        case None => i := i + 1;
      }
    }
  }

  /** Of what has been read, either the whole frame is extracted or it is not there yet. */
  lemma FrameOrNothing(frame: Data, acc: Data, left: Data, junk: Data)
    requires acc + left == Bsl.Wire(frame) + junk
    ensures |Bsl.Wire(frame)| > 0
    ensures |acc| < |Bsl.Wire(frame)| ==> ExtractFlagFrame(acc) == None
    ensures |acc| >= |Bsl.Wire(frame)| ==> ExtractFlagFrame(acc) == Some(Bsl.Wire(frame))
    ensures |acc| >= |Bsl.Wire(frame)| && junk == [] ==> left == []
  {
    hide Bsl.Escaped, ExtractFlagFrame;
    var wire := Bsl.Wire(frame);
    if |acc| < |wire| {
      assert acc == (wire + junk)[..|acc|] == wire[..|acc|];
      ExtractMessage(frame, []);
    } else {
      assert acc == (wire + junk)[..|acc|] == wire + junk[..|acc| - |wire|];
      ExtractMessage(frame, junk[..|acc| - |wire|]);
    }
  }
}
