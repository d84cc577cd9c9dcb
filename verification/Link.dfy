/**
 The host's link layer: one command, one reply. A receive that finds nothing pending times out;
 the device answers before `WriteAll` returns, so nothing else can ever arrive.
 */
module Link {
  import opened Bytes
  import opened Bsl
  import opened Device
  import opened Session
  import Checksum

  datatype LinkError =
    | Timeout
    | BadFrame(error: FrameError)
    | Unexpected(expected: U16, got: U16)

  const READ_BUFFER: nat := 4096

  /**
   Reads at most `capacity` bytes at a time behind `acc`, which may hold part of a reply, until
   `pred` accepts what there is; `all` is that, and everything if nothing was accepted.
   */
  method ReadUntil<R>(dev: MockTransport, acc: Data, pred: Data -> Option<R>, capacity: nat)
    returns (r: Option<R>, all: Data)
    requires capacity > 0
    modifies dev`out
    ensures acc <= all && all + dev.out == acc + old(dev.out)
    ensures r == pred(all)
    ensures r.None? ==> dev.out == []
    ensures pred(acc).Some? ==> all == acc
  {
    all := acc;
    r := pred(all);
    while r.None? && dev.out != []
      invariant acc <= all && all + dev.out == acc + old(dev.out)
      invariant r == pred(all)
      invariant pred(acc).Some? ==> all == acc
      decreases |dev.out|
    {
      ghost var before := dev.out;
      var bytes := dev.ReadSome(capacity);
      assert all + before == (all + bytes) + dev.out;
      all := all + bytes;
      r := pred(all);
    }
  }

  /** A decoder that accepts a pending reply only when it is complete takes exactly that reply. */
  method TakeReply<R>(dev: MockTransport, pred: Data -> Option<R>, capacity: nat, ghost wire: Data)
    returns (r: Option<R>)
    requires dev.out == wire && capacity > 0
    requires forall n | 0 <= n < |wire| :: pred(wire[..n]) == None
    modifies dev`out
    ensures dev.out == [] && r == pred(wire)
  {
    hide Replay, Replied;
    var all;
    r, all := ReadUntil(dev, [], pred, capacity);
    assert [] + wire == wire;
    assert all == wire[..|all|];
    if |all| == |wire| {
      assert all == wire;
    }
    assert all + [] == all;
  }

  method Send(dev: MockTransport, ty: U16, data: Data)
    requires dev.Idle()
    modifies dev
    ensures dev.Valid() && dev.mode == BslMode && dev.inBuf == []
    ensures dev.pdlLog == old(dev.pdlLog)
    ensures dev.log == old(dev.log) + [Sent(ty, data)]
    ensures dev.out == WireOf(dev.Reply())
    ensures IsReply(dev.flash, dev.corrupt, |dev.log| in dev.drops, Sent(ty, data), dev.Reply())
  {
    hide Wire, WireOf, Sealed, Body, Checksum.SprdSumOf, IsReply, SplitFrames, Decoded, Unescaped, Replay, Replied,
      Answers;
    var msg := BuildMessage(ty, data, Sprd);
    ghost var cmds, sums := [Cmd(ty, data)], [Checksum.SprdSumOf(Body(ty, data))];
    StreamOfMessages(cmds, sums);
    assert [] + msg == msg == Wires(cmds, sums);
    dev.WriteAll(msg);
    OneAnswer([], dev.Reply());
    assert dev.replies[|old(dev.replies)|..] == [dev.Reply()] == [] + [dev.Reply()];
    RepliedLast(dev.seed, dev.corrupt, dev.drops, dev.log, dev.replies);
  }

  method Recv(dev: MockTransport, ghost reply: Option<Parsed>) returns (r: Result<Parsed, LinkError>)
    requires dev.out == WireOf(reply)
    modifies dev`out
    ensures dev.out == []
    ensures r == match reply
                 case None => Err(Timeout)
                 case Some(p) => Ok(Parsed(p.cmd, Sized(p.data)))
  {
    hide Replay, Replied;
    ghost var wire := dev.out;
    if reply.Some? {
      FrameBodyOfMessage([], 0, Frame(reply.value.cmd, reply.value.data, Sprd), []);
      assert [] + Repeat(FLAG, 0) + wire == wire == wire + [];
      ParseOfFrame(reply.value.cmd, reply.value.data,
                   Checksum.SprdSumOf(Body(reply.value.cmd, reply.value.data)));
    }
    var body := TakeReply(dev, FrameBody, READ_BUFFER, wire);
    match body {
      case None => r := Err(Timeout);
      case Some(b) =>
        match ParseMessage(b) {
          case Ok(p) => r := Ok(p);
          case Err(e) => r := Err(BadFrame(e));
        }
    }
  }

  /** What a host that wants `wanted` makes of a reply. */
  function Outcome(reply: Option<Parsed>, wanted: U16): Result<Data, LinkError>
  {
    match reply
    case None => Err(Timeout)
    case Some(p) => if p.cmd != wanted then Err(Unexpected(wanted, p.cmd)) else Ok(Sized(p.data))
  }

  /** One command, one reply: the link is quiet again afterwards, whatever happened. */
  method Command(dev: MockTransport, ty: U16, data: Data, wanted: U16) returns (r: Result<Data, LinkError>)
    requires dev.Idle()
    modifies dev
    ensures dev.Idle()
    ensures dev.pdlLog == old(dev.pdlLog)
    ensures dev.log == old(dev.log) + [Sent(ty, data)]
    ensures IsReply(dev.flash, dev.corrupt, |dev.log| in dev.drops, Sent(ty, data), dev.Reply())
    ensures r == Outcome(dev.Reply(), wanted)
  {
    hide Replay, Replied, IsReply, WireOf, Sized, Sent;
    Send(dev, ty, data);
    var got := Recv(dev, dev.Reply());
    match got {
      case Err(e) => r := Err(e);
      case Ok(p) =>
        if p.cmd != wanted {
          r := Err(Unexpected(wanted, p.cmd));
        } else {
          r := Ok(p.data);
        }
    }
  }

  /** A command that the device acknowledges fails only by timing out on a withheld reply. */
  method CommandAck(dev: MockTransport, ty: U16, data: Data) returns (r: Result<(), LinkError>)
    requires dev.Idle() && ty != NORMAL_RESET && ty != READ_FLASH
    modifies dev
    ensures dev.Idle()
    ensures dev.pdlLog == old(dev.pdlLog)
    ensures dev.log == old(dev.log) + [Sent(ty, data)]
    ensures r == if |dev.log| in dev.drops then Err(Timeout) else Ok(())
  {
    hide Replay, Replied;
    var got := Command(dev, ty, data, REP_ACK);
    match got {
      case Ok(_) => r := Ok(());
      case Err(e) => r := Err(e);
    }
  }

  // ---------------------------------------------------------------- following a trace

  /** Since `log0` the device has executed a beginning of the trace `t`; `todo` is still to ask. */
  ghost predicate Underway(drops: set<nat>, log0: seq<Cmd>, log: seq<Cmd>, t: Trace, todo: seq<Cmd>)
  {
    log0 <= log && t == Prepend(log[|log0|..], Ask(drops, |log|, todo))
  }

  ghost predicate Followed(log0: seq<Cmd>, log: seq<Cmd>, t: Trace)
  {
    log == log0 + t.cmds
  }

  lemma UnderwayStart(drops: set<nat>, log: seq<Cmd>, todo: seq<Cmd>)
    ensures Underway(drops, log, log, Ask(drops, |log|, todo), todo)
  {
    PrependTwice([], [], Ask(drops, |log|, todo));
    assert log[|log|..] == [];
  }

  lemma UnderwayNext(drops: set<nat>, log0: seq<Cmd>, log: seq<Cmd>, t: Trace, c: Cmd, todo: seq<Cmd>)
    requires Underway(drops, log0, log, t, [c] + todo)
    ensures |log| + 1 !in drops ==> Underway(drops, log0, log + [c], t, todo)
    ensures |log| + 1 in drops ==> t.end == TimedOut && Followed(log0, log + [c], t)
  {
    var all, done := [c] + todo, log[|log0|..];
    assert all[1..] == todo && all[0] == c;
    assert (log + [c])[|log0|..] == done + [c];
    PrependTwice(done, [c], Ask(drops, |log| + 1, todo));
  }

  lemma UnderwayEnd(drops: set<nat>, log0: seq<Cmd>, log: seq<Cmd>, t: Trace)
    requires Underway(drops, log0, log, t, [])
    ensures t.end == Done && Followed(log0, log, t)
  {
  }

  method AskNext(dev: MockTransport, ty: U16, data: Data, ghost log0: seq<Cmd>, ghost t: Trace, ghost todo: seq<Cmd>)
    returns (r: Result<(), LinkError>)
    requires dev.Idle() && ty != NORMAL_RESET && ty != READ_FLASH
    requires Underway(dev.drops, log0, dev.log, t, [Sent(ty, data)] + todo)
    modifies dev
    ensures dev.Idle() && dev.pdlLog == old(dev.pdlLog)
    ensures r.Ok? ==> Underway(dev.drops, log0, dev.log, t, todo)
    ensures r.Err? ==> Ended(r, t.end) && Followed(log0, dev.log, t)
  {
    hide Replay, Replied;
    UnderwayNext(dev.drops, log0, dev.log, t, Sent(ty, data), todo);
    r := CommandAck(dev, ty, data);
  }

  /** How a trace shows at the end of a stage: only a withheld reply makes it fail. */
  ghost predicate Ended(r: Result<(), LinkError>, end: End)
  {
    if r.Ok? then end == Done else r.error == Timeout && end == TimedOut
  }

  method SendPieces(dev: MockTransport, pieces: seq<Data>, ghost log0: seq<Cmd>, ghost t: Trace, ghost close: seq<Cmd>)
    returns (r: Result<(), LinkError>)
    requires dev.Idle()
    requires Underway(dev.drops, log0, dev.log, t, Midst(pieces) + close)
    modifies dev
    ensures dev.Idle() && dev.pdlLog == old(dev.pdlLog)
    ensures r.Ok? ==> Underway(dev.drops, log0, dev.log, t, close)
    ensures r.Err? ==> Ended(r, t.end) && Followed(log0, dev.log, t)
  {
    hide Replay, Replied;
    for i := 0 to |pieces|
      invariant dev.Idle() && dev.pdlLog == old(dev.pdlLog)
      invariant Underway(dev.drops, log0, dev.log, t, Midst(pieces[i..]) + close)
    {
      ghost var todo := Midst(pieces[i + 1..]) + close;
      assert pieces[i..][1..] == pieces[i + 1..];
      assert Midst(pieces[i..]) + close == [Sent(MIDST_DATA, pieces[i])] + todo;
      r := AskNext(dev, MIDST_DATA, pieces[i], log0, t, todo);
      if r.Err? {
        return;
      }
    }
    assert [] + close == close;
    r := Ok(());
  }

  /**
   `START_DATA`, one `MIDST_DATA` per piece, `END_DATA`: the common body of `send_stage` and
   `write_nv_once`, whose start payloads differ.
   */
  method Transfer(dev: MockTransport, start: Data, data: Data, chunk: nat) returns (r: Result<(), LinkError>)
    requires dev.Idle()
    modifies dev
    ensures dev.Idle() && dev.pdlLog == old(dev.pdlLog)
    ensures var t := Ask(dev.drops, |old(dev.log)|, Stage(start, data, Max(chunk, 1)));
            Followed(old(dev.log), dev.log, t) && Ended(r, t.end)
  {
    hide IsReply, Sent, Midst, Pieces, Ask, Replay, Replied;
    var pieces := Pieces(data, Max(chunk, 1));
    ghost var all := Stage(start, data, Max(chunk, 1));
    ghost var log0, t := dev.log, Ask(dev.drops, |dev.log|, all);
    AskFacts(dev.drops, |log0|, all);
    ghost var close := [Sent(END_DATA, [])];
    UnderwayStart(dev.drops, log0, all);
    assert all == [Sent(START_DATA, start)] + (Midst(pieces) + close);
    r := AskNext(dev, START_DATA, start, log0, t, Midst(pieces) + close);
    if r.Ok? {
      r := SendPieces(dev, pieces, log0, t, close);
      if r.Ok? {
        assert close == close + [];
        r := AskNext(dev, END_DATA, [], log0, t, []);
        if r.Ok? {
          UnderwayEnd(dev.drops, log0, dev.log, t);
        }
      }
    }
  }

  function StagePayload(addr: U32, len: nat): Data { Be32(addr) + Be32(Wrap32(len)) }

  /** The start of an ordinary stage carries the address and the size. */
  lemma StageStartFields(addr: U32, len: nat)
    ensures Announces(Sent(START_DATA, StagePayload(addr, len)), addr, len)
  {
    hide BeBytes, GetBe32;
    var p := StagePayload(addr, len);
    assert p[0..4] == Be32(addr) && p[4..8] == Be32(Wrap32(len));
    Words32(p, 0, addr);
    Words32(p, 4, Wrap32(len));
  }

  lemma AddressFirst(addr: U32, rest: Data)
    requires |rest| < 0x1000
    ensures StartFor(Be32(addr) + rest, addr)
  {
    assert (Be32(addr) + rest)[0..4] == Be32(addr);
    Words32(Be32(addr) + rest, 0, addr);
  }

  method SendStage(dev: MockTransport, addr: U32, data: Data, chunk: nat) returns (r: Result<(), LinkError>)
    requires dev.Idle()
    modifies dev
    ensures dev.Idle() && dev.pdlLog == old(dev.pdlLog)
    ensures var t := Ask(dev.drops, |old(dev.log)|, Stage(StagePayload(addr, |data|), data, Max(chunk, 1)));
            Followed(old(dev.log), dev.log, t) && Ended(r, t.end)
    // The first command announces address and size; no other is a start.
    ensures old(dev.log) < dev.log && OneAttempt(dev.log[|old(dev.log)|..], dev.log[|old(dev.log)|])
    ensures Announces(dev.log[|old(dev.log)|], addr, |data|)
    // A stage that ends well has stored its image, intact exactly when its pieces fit.
    ensures r.Ok? ==> dev.cur == None && dev.flash == old(dev.flash)[addr := Stored(data, Max(chunk, 1))]
    ensures r.Ok? ==> (dev.flash[addr] == data <==> Fits(data, Max(chunk, 1)))
  {
    hide Replay, Replied;
    var start := Be32(addr);
    start := start + Be32(Wrap32(|data|));
    ghost var log0, st, all := dev.log, Store(dev.cur, dev.flash), Stage(start, data, Max(chunk, 1));
    StageIsAttempt(start, data, Max(chunk, 1));
    StageStartFields(addr, |data|);
    AskFacts(dev.drops, |log0|, all);
    r := Transfer(dev, start, data, chunk);
    if r.Ok? {
      AddressFirst(addr, Be32(Wrap32(|data|)));
      StageEffect(st, start, addr, data, Max(chunk, 1));
      ReplayAppend(Store(None, dev.seed), log0, all);
      StoredIntact(data, Max(chunk, 1));
    }
  }

  // ---------------------------------------------------------------- reading back

  /** The bytes `want` are there to be read, in replies that fit their length field. */
  ghost predicate Readable(flash: Flash, addr: U32, want: Data, total: nat, chunk: nat)
  {
    Shows(flash, addr, want) && |want| == total && Min(total, Max(chunk, 1)) < 0x1_0000
  }

  /** What one request returns where the device shows `want`. */
  ghost predicate SliceOf(flash: Flash, corrupt: bool, addr: U32, want: Data, off: nat, n: nat,
                          r: Result<Data, LinkError>)
    requires off < |want|
  {
    && r.Ok? && 0 < |r.value| <= n
    && (Solid(flash, addr, |want|) ==> |r.value| == n)
    && (!corrupt ==> off + |r.value| <= |want| && r.value == want[off..off + |r.value|])
    && (corrupt ==> r.value[0] == 0xFF - want[off])
  }

  ghost predicate ReadSoFar(corrupt: bool, want: Data, out: Data)
  {
    if corrupt then out != [] ==> want != [] && out[0] == 0xFF - want[0] else out <= want
  }

  lemma ReadMore(corrupt: bool, want: Data, out: Data, got: Data)
    requires ReadSoFar(corrupt, want, out) && got != [] && |out| < |want|
    requires !corrupt ==> |out| + |got| <= |want| && got == want[|out|..|out| + |got|]
    requires corrupt ==> got[0] == 0xFF - want[|out|]
    ensures ReadSoFar(corrupt, want, out + got)
  {
  }

  /** One request of the read loop. */
  method ReadSlice(dev: MockTransport, addr: U32, off: nat, n: nat, ghost want: Data)
    returns (r: Result<Data, LinkError>)
    requires dev.Idle()
    modifies dev
    ensures dev.Idle() && dev.pdlLog == old(dev.pdlLog)
    ensures dev.flash == old(dev.flash) && dev.cur == old(dev.cur)
    ensures var c := ReadCmd(Wrap32(addr + off), Wrap32(n));
            c.ty == READ_FLASH && dev.log == old(dev.log) + [c]
    ensures |dev.log| in dev.drops ==> r == Err(Timeout)
    ensures r.Ok? && 0 < n < 0x1_0000 && addr + off + n <= 0x1_0000_0000 ==>
              0 < |r.value| <= n && AllServed(dev.flash, addr + off, |r.value|)
    ensures Shows(dev.flash, addr, want) && off < |want| && 0 < n <= |want| - off && n < 0x1_0000 ==>
              |dev.log| in dev.drops || SliceOf(dev.flash, dev.corrupt, addr, want, off, n, r)
  {
    hide BeBytes, GetBe32, AllServed, Replay, Replied, ServedBy;
    var a, len := Wrap32(addr + off), Wrap32(n);
    var p := Be32(a);
    p := p + Be32(len);
    p := p + Be32(0);
    ReplayOne(Store(None, dev.seed), dev.log, ReadCmd(a, len));
    r := Command(dev, READ_FLASH, p, REP_READ_FLASH);
    if r.Ok? && 0 < n < 0x1_0000 && addr + off + n <= 0x1_0000_0000 {
      ReadCmdFields(a, len);
      ReadIsServed(dev.flash, dev.corrupt, ReadCmd(a, len), a, len, dev.Reply());
    }
    if Shows(dev.flash, addr, want) && off < |want| && 0 < n <= |want| - off && n < 0x1_0000 {
      if |dev.log| !in dev.drops {
        ReadCmdFields(a, len);
        ReadAnswer(dev.flash, dev.corrupt, ReadCmd(a, len), addr, want, off, n, dev.Reply());
      }
    }
  }

  /**
   Reads `total` bytes from `addr` in requests of at most `chunk`, tolerating short replies.
   `want` names the bytes the device shows there, if it does; a device that serves fewer than
   `total` makes the read fail, never fall short.
   */
  method ReadFlash(dev: MockTransport, addr: U32, total: nat, chunk: nat, ghost want: Data)
    returns (r: Result<Data, LinkError>)
    requires dev.Idle()
    modifies dev
    ensures dev.Idle() && dev.pdlLog == old(dev.pdlLog)
    ensures dev.flash == old(dev.flash) && dev.cur == old(dev.cur)
    ensures old(dev.log) <= dev.log && Only(dev.log[|old(dev.log)|..], {READ_FLASH})
    ensures Readable(dev.flash, addr, want, total, chunk) ==>
              && (r.Err? ==> r.error == Timeout && |dev.log| in dev.drops)
              && (r.Ok? && !dev.corrupt ==> r.value == want)
              && (r.Ok? && dev.corrupt && total > 0 ==> r.value != want)
    ensures Readable(dev.flash, addr, want, total, chunk) && Solid(dev.flash, addr, total) ==>
              var t := Ask(dev.drops, |old(dev.log)|, ReadCmds(addr, 0, total, Max(chunk, 1)));
              Followed(old(dev.log), dev.log, t) && (r.Ok? <==> t.end == Done)
    ensures EndsAt(dev.flash, addr, |want|, total) && |want| < total && Max(chunk, 1) < 0x1_0000 ==> r.Err?
  {
    hide ReadCmd, Outcome, Ask, Shows, Solid, IsReply, Message, Underway, Followed, Holds, Slice, GetBe32, Wrap32,
      EndsAt, AllServed, Replay, Served, Replied;
    var out: Data := [];
    ghost var step := Max(chunk, 1);
    ghost var shown := Readable(dev.flash, addr, want, total, chunk);
    ghost var ends := EndsAt(dev.flash, addr, |want|, total) && |want| < total && step < 0x1_0000;
    ghost var solid := shown && Solid(dev.flash, addr, total);
    ghost var log0, t := dev.log, Ask(dev.drops, |dev.log|, ReadCmds(addr, 0, total, step));
    UnderwayStart(dev.drops, log0, ReadCmds(addr, 0, total, step));
    assert log0[|log0|..] == [];
    while |out| < total
      invariant dev.Idle() && dev.pdlLog == old(dev.pdlLog)
      invariant dev.flash == old(dev.flash) && dev.cur == old(dev.cur)
      invariant log0 <= dev.log && Only(dev.log[|log0|..], {READ_FLASH})
      invariant shown ==> |out| <= total && ReadSoFar(dev.corrupt, want, out)
      invariant ends ==> |out| <= |want|
      invariant solid ==> Underway(dev.drops, log0, dev.log, t, ReadCmds(addr, |out|, total, step))
      decreases total - |out|
    {
      var off := |out|;
      var n := Min(total - off, Max(chunk, 1));
      ghost var log1 := dev.log;
      ghost var c := ReadCmd(Wrap32(addr + off), Wrap32(n));
      var got := ReadSlice(dev, addr, off, n, want);
      assert dev.log[|log0|..] == log1[|log0|..] + [c];
      if solid {
        UnderwayNext(dev.drops, log0, log1, t, c, ReadCmds(addr, off + n, total, step));
      }
      if got.Err? {
        return got;
      }
      if ends {
        WithinEnd(dev.flash, addr, |want|, total, off, |got.value|);
      }
      if got.value == [] {
        break;
      }
      if shown {
        ReadMore(dev.corrupt, want, out, got.value);
      }
      out := out + got.value;
    }
    if solid {
      UnderwayEnd(dev.drops, log0, dev.log, t);
    }
    r := Ok(out);
  }
}
