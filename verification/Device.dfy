/**
 The device end of the wire: the protocol-simulating transport, its flash, and its fault model
 (commands that are executed but whose reply is withheld).
 */
module Device {
  import opened Bytes
  import opened Bsl
  import Pdl

  // ---------------------------------------------------------------- commands and their effect

  datatype Cmd = Cmd(ty: U16, data: Data)

  /** The command the device reads from an unescaped frame body. */
  function Decoded(body: Data): Cmd
  {
    if |body| < 4 then Cmd(0, [])
    else
      var size := GetBe16(body, 2);
      Cmd(GetBe16(body, 0), if 4 + size <= |body| then body[4..4 + size] else [])
  }

  /** The command the device executes when the host sends `(ty, data)`. */
  function Sent(ty: U16, data: Data): Cmd { Cmd(ty, Sized(data)) }

  /** The device executes what was framed, whatever the checksum: it does not look at it. */
  lemma DecodedFrame(ty: U16, data: Data, sum: U16)
    ensures Decoded(Unescaped(Escaped(Sealed(Body(ty, data), sum)))) == Sent(ty, data)
  {
    hide Sealed, Body, Escaped, Unescaped, GetBe16;
    var frame, n := Sealed(Body(ty, data), sum), |data| % 0x1_0000;
    EscapeRoundTrip(frame);
    FrameFields(ty, data, sum);
    assert frame[4..4 + n] == frame[4..4 + |data|][..n];
  }

  function Commands(raw: seq<Data>): seq<Cmd>
  {
    seq(|raw|, i requires 0 <= i < |raw| => Decoded(Unescaped(raw[i])))
  }

  lemma CommandsAppend(log: seq<Cmd>, a: seq<Data>, b: seq<Data>)
    ensures (log + Commands(a)) + Commands(b) == log + Commands(a + b)
  {
    hide Decoded, Unescaped;
    assert Commands(a + b) == Commands(a) + Commands(b);
  }

  datatype Write = Write(addr: U32, bytes: Data)

  type Flash = map<U32, Data>

  /** The write in progress and the finished regions, by base address. */
  datatype Store = Store(cur: Option<Write>, flash: Flash)

  function Apply(st: Store, c: Cmd): Store
  {
    if c.ty == START_DATA then
      (if |c.data| >= 4 then st.(cur := Some(Write(GetBe32(c.data, 0), []))) else st)
    else if c.ty == MIDST_DATA then
      (match st.cur
       case None => st
       case Some(w) => st.(cur := Some(Write(w.addr, w.bytes + c.data))))
    else if c.ty == END_DATA then
      (match st.cur
       case None => st
       case Some(w) => Store(None, st.flash[w.addr := w.bytes]))
    else st
  }

  function Replay(st: Store, cmds: seq<Cmd>): Store
  {
    if cmds == [] then st else Apply(Replay(st, cmds[..|cmds| - 1]), cmds[|cmds| - 1])
  }

  lemma ReplayOne(st: Store, cmds: seq<Cmd>, c: Cmd)
    ensures Replay(st, cmds + [c]) == Apply(Replay(st, cmds), c)
  {
    assert (cmds + [c])[..|cmds|] == cmds;
  }

  lemma {:induction false} ReplayAppend(st: Store, a: seq<Cmd>, b: seq<Cmd>)
    ensures Replay(st, a + b) == Replay(Replay(st, a), b)
    decreases |b|
  {
    if b == [] {
      assert a + b == a;
    } else {
      var front := b[..|b| - 1];
      assert (a + b)[..|a + b| - 1] == a + front;
      ReplayAppend(st, a, front);
    }
  }

  // ---------------------------------------------------------------- reads

  /** The region at `base` contains `addr`. */
  predicate Holds(flash: Flash, base: U32, addr: U32)
  {
    base in flash && base <= addr && addr - base < |flash[base]|
  }

  function Slice(region: Data, start: nat, size: nat, corrupt: bool): Data
  {
    var s := if start <= |region| then region[start..Min(start + size, |region|)] else [];
    if corrupt && s != [] then s[0 := 0xFF - s[0]] else s
  }

  ghost predicate IsReadCmd(c: Cmd) { c.ty == READ_FLASH && |c.data| >= 12 }

  /**
   What the device may answer to `c`, `None` being silence. A read is served from some region
   that contains the address; which one, when several do, is up to the hash map.
   */
  ghost predicate IsReply(flash: Flash, corrupt: bool, dropped: bool, c: Cmd, reply: Option<Parsed>)
  {
    if dropped || c.ty == NORMAL_RESET then reply == None
    else if !IsReadCmd(c) then reply == Some(Parsed(REP_ACK, []))
    else
      var addr := GetBe32(c.data, 0);
      || (reply == Some(Parsed(REP_INVALID_CMD, [])) && forall base :: !Holds(flash, base, addr))
      || (exists base :: Holds(flash, base, addr)
                      && reply == Some(Parsed(REP_READ_FLASH, ServedBy(flash[base], base, c, corrupt))))
  }

  function WireOf(reply: Option<Parsed>): Data
  {
    match reply
    case None => []
    case Some(r) => Message(r.cmd, r.data, Sprd)
  }

  /** The answers to several commands, one after the other. */
  function Answers(replies: seq<Option<Parsed>>): Data
  {
    Flatten(seq(|replies|, i requires 0 <= i < |replies| => WireOf(replies[i])))
  }

  lemma AnswersAppend(out: Data, a: seq<Option<Parsed>>, b: seq<Option<Parsed>>)
    ensures (out + Answers(a)) + Answers(b) == out + Answers(a + b)
  {
    hide WireOf;
    var first := seq(|a|, i requires 0 <= i < |a| => WireOf(a[i]));
    var second := seq(|b|, i requires 0 <= i < |b| => WireOf(b[i]));
    assert seq(|a + b|, i requires 0 <= i < |a + b| => WireOf((a + b)[i])) == first + second;
    FlattenAppend(first, second);
  }

  lemma NoAnswers(out: Data)
    ensures out + Answers([]) == out
  {
  }

  lemma OneAnswer(out: Data, reply: Option<Parsed>)
    ensures out + Answers([reply]) == out + WireOf(reply)
  {
    hide WireOf;
    var one := [reply];
    assert seq(|one|, i requires 0 <= i < |one| => WireOf(one[i])) == [WireOf(reply)];
    FlattenAppend([], [WireOf(reply)]);
    assert [] + [WireOf(reply)] == [WireOf(reply)];
    assert Answers(one) == WireOf(reply);
  }

  /** Every executed command was answered from the flash as it was then, or not at all. */
  ghost predicate Replied(
    seed: Flash, corrupt: bool, drops: set<nat>, log: seq<Cmd>, replies: seq<Option<Parsed>>)
    requires |replies| == |log|
  {
    forall k | 0 <= k < |log| ::
      IsReply(Replay(Store(None, seed), log[..k + 1]).flash, corrupt, k + 1 in drops, log[k], replies[k])
  }

  lemma RepliedOne(seed: Flash, corrupt: bool, drops: set<nat>, log: seq<Cmd>, replies: seq<Option<Parsed>>,
                   c: Cmd, reply: Option<Parsed>)
    requires |replies| == |log| && Replied(seed, corrupt, drops, log, replies)
    requires IsReply(Replay(Store(None, seed), log + [c]).flash, corrupt, |log| + 1 in drops, c, reply)
    ensures Replied(seed, corrupt, drops, log + [c], replies + [reply])
  {
    hide IsReply, Replay;
    var all, answers := log + [c], replies + [reply];
    forall k | 0 <= k < |all|
      ensures IsReply(Replay(Store(None, seed), all[..k + 1]).flash, corrupt, k + 1 in drops, all[k], answers[k])
    {
      assert all[..k + 1] == if k < |log| then log[..k + 1] else all;
    }
  }

  lemma RepliedLast(seed: Flash, corrupt: bool, drops: set<nat>, log: seq<Cmd>, replies: seq<Option<Parsed>>)
    requires |replies| == |log| > 0 && Replied(seed, corrupt, drops, log, replies)
    ensures IsReply(Replay(Store(None, seed), log).flash, corrupt, |log| in drops, log[|log| - 1], replies[|log| - 1])
  {
    hide IsReply, Replay;
    assert log[..(|log| - 1) + 1] == log;
  }

  function ServedBy(region: Data, base: U32, c: Cmd, corrupt: bool): Data
    requires |c.data| >= 12 && base <= GetBe32(c.data, 0)
  {
    Slice(region, GetBe32(c.data, 0) - base + GetBe32(c.data, 8), GetBe32(c.data, 4), corrupt)
  }

  // ---------------------------------------------------------------- the PDL side

  /** `Spreadtrum Boot Block version 1.2` and a NUL. */
  const VER_BANNER: Data :=
    [83, 112, 114, 101, 97, 100, 116, 114, 117, 109, 32, 66, 111, 111, 116, 32, 66,
     108, 111, 99, 107, 32, 118, 101, 114, 115, 105, 111, 110, 32, 49, 46, 50, 0]

  const PDL_OK: Data := Pdl.Header(4) + [0, 0, 0, 0]

  /** Length of the first whole PDL message in `buf`, header included. */
  function PdlTotal(buf: Data): Option<nat>
  {
    if |buf| < Pdl.HEADER_LEN || buf[0] != Pdl.MAGIC then None
    else
      var len := GetLe16(buf, 1);
      if |buf| < Pdl.HEADER_LEN + len || len < 4 then None else Some(Pdl.HEADER_LEN + len)
  }

  predicate IsExec(payload: Data) { |payload| >= 4 && GetLe32(payload, 0) == Pdl.EXEC }

  /** The payloads of the whole messages up to and including the first EXEC, and what is left. */
  datatype PdlSplit = PdlSplit(payloads: seq<Data>, exec: bool, rest: Data)

  function SplitPdl(buf: Data): PdlSplit
    decreases |buf|
  {
    match PdlTotal(buf)
    case None => PdlSplit([], false, buf)
    case Some(total) =>
      var payload := buf[Pdl.HEADER_LEN..total];
      if IsExec(payload) then PdlSplit([payload], true, buf[total..])
      else AfterPdl([payload], SplitPdl(buf[total..]))
  }

  function AfterPdl(first: seq<Data>, later: PdlSplit): PdlSplit
  {
    PdlSplit(first + later.payloads, later.exec, later.rest)
  }

  /** The answers to `n` messages. */
  function PdlAnswers(n: nat): Data { if n == 0 then [] else PdlAnswers(n - 1) + PDL_OK }

  lemma AfterPdlTwice(done: seq<Data>, payload: Data, later: PdlSplit)
    ensures AfterPdl(done, AfterPdl([payload], later)) == AfterPdl(done + [payload], later)
    ensures AfterPdl([], later) == later
    ensures AfterPdl(done, PdlSplit([], later.exec, later.rest)) == PdlSplit(done, later.exec, later.rest)
  {
    assert done + ([payload] + later.payloads) == (done + [payload]) + later.payloads;
  }

  lemma MoreAnswers(out: Data, n: nat)
    ensures out == out + PdlAnswers(0)
    ensures (out + PdlAnswers(n)) + PDL_OK == out + PdlAnswers(n + 1)
  {
  }

  datatype Mode = PdlMode | BslMode

  class MockTransport {
    var mode: Mode
    var execSeen: bool
    var inBuf: Data
    var out: Data
    var frames: nat
    var cur: Option<Write>
    var flash: Flash
    const drops: set<nat>
    const corrupt: bool
    const banner: Data
    ghost var replies: seq<Option<Parsed>>
    ghost const seed: Flash
    ghost var log: seq<Cmd>
    ghost var pdlLog: seq<Data>

    /** The reply to the last command. */
    ghost function Reply(): Option<Parsed>
      reads this
    {
      if replies == [] then None else replies[|replies| - 1]
    }

    /** The store and the replies are what the executed commands make of the initial flash. */
    ghost predicate Valid()
      reads this
    {
      && frames == |log| == |replies|
      && Replied(seed, corrupt, drops, log, replies)
      && |banner| < 0x1_0000
      && Store(cur, flash) == Replay(Store(None, seed), log)
    }

    /** A quiet link in BSL mode: nothing half-received, nothing left to read. */
    ghost predicate Idle()
      reads this
    {
      Valid() && mode == BslMode && inBuf == [] && out == []
    }

    ghost predicate PdlIdle()
      reads this
    {
      Valid() && mode == PdlMode && !execSeen && inBuf == [] && out == []
    }

    constructor (regions: Flash, withheld: set<nat>, corruptReadback: bool)
      ensures PdlIdle() && log == [] && pdlLog == []
      ensures flash == seed == regions && drops == withheld && corrupt == corruptReadback
      ensures banner == VER_BANNER
    {
      mode, execSeen, inBuf, out, frames, cur := PdlMode, false, [], [], 0, None;
      flash, seed, drops, corrupt := regions, regions, withheld, corruptReadback;
      log, pdlLog, replies, banner := [], [], [], VER_BANNER;
    }

    /** Everything but the input buffer is as before. */
    twostate predicate Untouched()
      reads this
    {
      && mode == old(mode) && execSeen == old(execSeen) && out == old(out) && frames == old(frames)
      && cur == old(cur) && flash == old(flash) && log == old(log) && pdlLog == old(pdlLog)
      && replies == old(replies)
    }

    /** `raw` frames were executed in order, and their replies left in the output. */
    twostate predicate Executed(raw: seq<Data>)
      reads this
    {
      && mode == BslMode && execSeen == old(execSeen) && pdlLog == old(pdlLog)
      && log == old(log) + Commands(raw) && old(replies) <= replies
      && out == old(out) + Answers(replies[|old(replies)|..])
    }

    /** Nothing happened on the BSL side. */
    twostate predicate NoFrames()
      reads this
    {
      && frames == old(frames) && cur == old(cur) && flash == old(flash) && log == old(log)
      && replies == old(replies)
    }

    /**
     The PDL messages of a split were taken and answered, EXEC silently; a flag behind EXEC was
     answered with the version banner and cleared the input.
     */
    twostate predicate PdlTaken(split: PdlSplit)
      reads this
    {
      var n := |split.payloads|;
      && NoFrames()
      && pdlLog == old(pdlLog) + split.payloads && execSeen == split.exec
      && (if split.exec && FLAG in split.rest
          then mode == BslMode && inBuf == []
               && out == old(out) + PdlAnswers(Max(n - 1, 0)) + WireOf(Some(Parsed(REP_VER, banner)))
          else mode == PdlMode && inBuf == split.rest
               && out == old(out) + PdlAnswers(if split.exec then Max(n - 1, 0) else n))
    }

    /** The check-baud flag was answered with the version banner. */
    twostate predicate Kicked()
      reads this
    {
      && mode == BslMode && execSeen == old(execSeen) && NoFrames() && pdlLog == old(pdlLog)
      && out == old(out) + WireOf(Some(Parsed(REP_VER, banner)))
    }

    /** What processing the bytes `buf` does, in each mode. */
    twostate predicate Processed(buf: Data)
      reads this
    {
      if old(mode) == BslMode then
        var split := SplitFrames(buf);
        inBuf == split.rest && Executed(split.raw)
      else if !old(execSeen) then PdlTaken(SplitPdl(buf))
      else if FLAG in buf then inBuf == [] && Kicked()
      else inBuf == buf && Untouched()
    }

    method StepPdl() returns (more: bool, ghost payload: Data)
      requires Valid() && mode == PdlMode && !execSeen
      modifies this
      ensures Valid() && mode == PdlMode && NoFrames()
      ensures !more ==> inBuf == old(inBuf) && Untouched() && SplitPdl(inBuf) == PdlSplit([], false, inBuf)
      ensures more ==>
                && |inBuf| < |old(inBuf)| && pdlLog == old(pdlLog) + [payload] && execSeen == IsExec(payload)
                && out == (if execSeen then old(out) else old(out) + PDL_OK)
                && SplitPdl(old(inBuf))
                   == AfterPdl([payload], if execSeen then PdlSplit([], true, inBuf) else SplitPdl(inBuf))
    {
      hide LeWord, Pdl.Header, Replay, Replied;
      payload := [];
      if |inBuf| < Pdl.HEADER_LEN || inBuf[0] != Pdl.MAGIC {
        return false, payload;
      }
      var len := GetLe16(inBuf, 1);
      var total := Pdl.HEADER_LEN + len;
      if |inBuf| < total || len < 4 {
        return false, payload;
      }
      var cmd := GetLe32(inBuf, 8);
      payload := inBuf[Pdl.HEADER_LEN..total];
      assert payload[0..4] == inBuf[8..12];
      pdlLog := pdlLog + [payload];
      inBuf := inBuf[total..];
      if cmd == Pdl.EXEC {
        execSeen := true;
      } else {
        out := out + PDL_OK;
      }
      more := true;
    }

    method StepKick() returns (more: bool)
      requires Valid() && mode == PdlMode && execSeen
      modifies this
      ensures Valid()
      ensures more == (FLAG in old(inBuf))
      ensures !more ==> inBuf == old(inBuf) && Untouched()
      ensures more ==> inBuf == [] && SplitFrames(inBuf) == Split([], []) && Kicked()
    {
      if FLAG in inBuf {
        inBuf := [];
        var msg := BuildMessage(REP_VER, banner, Sprd);
        out := out + msg;
        mode := BslMode;
        return true;
      }
      return false;
    }

    method FindRegion(addr: U32) returns (r: Option<U32>)
      ensures r.Some? ==> Holds(flash, r.value, addr)
      ensures r.None? ==> forall base :: !Holds(flash, base, addr)
    {
      var left := flash.Keys;
      while left != {}
        invariant left <= flash.Keys
        invariant forall base | base in flash.Keys - left :: !Holds(flash, base, addr)
        decreases left
      {
        var base :| base in left;
        if Holds(flash, base, addr) {
          return Some(base);
        }
        left := left - {base};
      }
      return None;
    }

    method ReplyTo(c: Cmd, dropped: bool) returns (wire: Data, ghost answer: Option<Parsed>)
      ensures IsReply(flash, corrupt, dropped, c, answer)
      ensures wire == WireOf(answer)
    {
      var ty, data := REP_ACK, [];
      if dropped || c.ty == NORMAL_RESET {
        return [], None;
      } else if c.ty == READ_FLASH && |c.data| >= 12 {
        var region := FindRegion(GetBe32(c.data, 0));
        match region {
          case Some(base) => ty, data := REP_READ_FLASH, ServedBy(flash[base], base, c, corrupt);
          case None => ty := REP_INVALID_CMD;
        }
      }
      wire := BuildMessage(ty, data, Sprd);
      answer := Some(Parsed(ty, data));
    }

    method Track(c: Cmd)
      modifies this`cur, this`flash
      ensures Store(cur, flash) == Apply(old(Store(cur, flash)), c)
    {
      if c.ty == START_DATA {
        if |c.data| >= 4 {
          cur := Some(Write(GetBe32(c.data, 0), []));
        }
      } else if c.ty == MIDST_DATA {
        match cur {
          case Some(w) => cur := Some(Write(w.addr, w.bytes + c.data));
          case None =>
        }
      } else if c.ty == END_DATA {
        match cur {
          case Some(w) =>
            cur := None;
            flash := flash[w.addr := w.bytes];
          case None =>
        }
      }
    }

    method ExecuteCmd(c: Cmd)
      requires Valid() && mode == BslMode
      modifies this
      ensures Valid() && inBuf == old(inBuf)
      ensures mode == BslMode && execSeen == old(execSeen) && pdlLog == old(pdlLog)
      ensures log == old(log) + [c] && replies == old(replies) + [Reply()]
      ensures out == old(out) + WireOf(Reply())
      ensures IsReply(flash, corrupt, |log| in drops, c, Reply())
    {
      hide IsReply, WireOf, Replied, Replay, Apply;
      frames := frames + 1;
      ReplayOne(Store(None, seed), log, c);
      log := log + [c];
      Track(c);
      var wire;
      ghost var reply;
      wire, reply := ReplyTo(c, frames in drops);
      out := out + wire;
      RepliedOne(seed, corrupt, drops, old(log), replies, c, reply);
      replies := replies + [reply];
    }

    method StepBsl() returns (more: bool, ghost raw: Data)
      requires Valid() && mode == BslMode
      modifies this
      ensures Valid()
      ensures !more ==> inBuf == old(inBuf) && Untouched() && SplitFrames(inBuf) == Split([], inBuf)
      ensures more ==> Executed([raw]) && |inBuf| < |old(inBuf)|
      ensures more ==> SplitFrames(old(inBuf)) == Then(Split([raw], []), SplitFrames(inBuf))
    {
      hide Unescaped, IsReply, WireOf, Replied, Replay, Answers;
      raw := [];
      NoAnswers(out);
      var i0 := Find(inBuf, FLAG);
      if i0 == |inBuf| {
        return false, raw;
      }
      var i1 := FindFrom(inBuf, FLAG, i0 + 1);
      if i1 == |inBuf| {
        return false, raw;
      }
      raw := inBuf[i0 + 1..i1];
      SplitFirst(inBuf, i0, i1);
      var body := Unescape(inBuf[i0 + 1..i1]);
      inBuf := inBuf[i1 + 1..];
      ExecuteCmd(Decoded(body));
      assert Commands([raw]) == [Decoded(body)];
      OneAnswer(old(out), Reply());
      assert [] + [Reply()] == [Reply()] == replies[|old(replies)|..];
      more := true;
    }

    /** The device only ever moves forward: PDL messages, then the check-baud kick, then frames. */
    method Process()
      requires Valid()
      modifies this
      ensures Valid() && Processed(old(inBuf))
    {
      hide SplitPdl, SplitFrames, PdlAnswers, Message, Decoded, Unescaped, IsReply, Replay, Replied, Answers;
      if mode == BslMode {
        ProcessFrames();
      } else {
        if !execSeen {
          ProcessPdl();
        }
        if execSeen {
          var kicked := StepKick();
          if kicked {
            NoAnswers(out);
            assert log + Commands([]) == log;
            ghost var before := replies;
            ProcessFrames();
            assert replies == before && replies[|before|..] == [];
          }
        }
      }
    }

    method ProcessPdl()
      requires Valid() && mode == PdlMode && !execSeen
      modifies this
      ensures Valid() && mode == PdlMode && NoFrames()
      ensures var split := SplitPdl(old(inBuf));
              && inBuf == split.rest && execSeen == split.exec && pdlLog == old(pdlLog) + split.payloads
              && (split.exec ==> |split.payloads| > 0)
              && out == old(out) + PdlAnswers(|split.payloads| - if split.exec then 1 else 0)
    {
      hide SplitPdl, AfterPdl, IsExec, PdlAnswers, Pdl.Header, Replay, Replied;
      MoreAnswers(out, 0);
      ghost var split := SplitPdl(inBuf);
      ghost var done: seq<Data> := [];
      AfterPdlTwice([], [], split);
      var more := true;
      while more && !execSeen
        invariant Valid() && mode == PdlMode && NoFrames()
        invariant execSeen ==> done != []
        invariant pdlLog == old(pdlLog) + done
        invariant out == old(out) + PdlAnswers(|done| - if execSeen then 1 else 0)
        invariant split == AfterPdl(done, if execSeen then PdlSplit([], true, inBuf) else SplitPdl(inBuf))
        invariant !more ==> SplitPdl(inBuf) == PdlSplit([], false, inBuf)
        decreases |inBuf|, more
      {
        ghost var payload;
        more, payload := StepPdl();
        if more {
          MoreAnswers(old(out), |done|);
          AfterPdlTwice(done, payload, if execSeen then PdlSplit([], true, inBuf) else SplitPdl(inBuf));
          done := done + [payload];
        }
      }
      AfterPdlTwice(done, [], PdlSplit([], execSeen, inBuf));
    }

    method ProcessFrames()
      requires Valid() && mode == BslMode
      modifies this
      ensures Valid()
      ensures inBuf == SplitFrames(old(inBuf)).rest && Executed(SplitFrames(old(inBuf)).raw)
    {
      hide SplitFrames, Decoded, Unescaped, IsReply, Message, Replied, Replay, Answers;
      ghost var all := SplitFrames(inBuf);
      ghost var done: seq<Data> := [];
      assert all == Then(Split([], []), all);
      assert log + Commands([]) == log;
      NoAnswers(out);
      assert replies[|replies|..] == [];
      var more := true;
      while more
        invariant Valid()
        invariant Executed(done)
        invariant all == Then(Split(done, []), SplitFrames(inBuf))
        invariant !more ==> SplitFrames(inBuf) == Split([], inBuf)
        decreases |inBuf|, more
      {
        ghost var raw, before := [], replies;
        more, raw := StepBsl();
        if more {
          AnswersAppend(old(out), before[|old(replies)|..], replies[|before|..]);
          assert before[|old(replies)|..] + replies[|before|..] == replies[|old(replies)|..];
          CommandsAppend(old(log), done, [raw]);
          ghost var later := SplitFrames(inBuf).raw;
          assert done + ([raw] + later) == (done + [raw]) + later;
          done := done + [raw];
        }
      }
      assert all == Split(done, inBuf);
    }

    // -------------------------------------------------------------- the transport interface

    method WriteAll(data: Data)
      requires Valid()
      modifies this
      ensures Valid() && Processed(old(inBuf) + data)
    {
      inBuf := inBuf + data;
      Process();
    }

    method ReadSome(capacity: nat) returns (data: Data)
      modifies this`out
      ensures |data| == Min(capacity, |old(out)|) && data + out == old(out)
    {
      var n := Min(capacity, |out|);
      data := out[..n];
      out := out[n..];
    }

    method PurgeInput()
      modifies this`inBuf
      ensures inBuf == []
    {
      inBuf := [];
    }

    /**
     Arbitrary fragments reach a device in BSL mode: it executes exactly the frames of their
     concatenation, in order, answers each, and its buffer is exactly the undecoded suffix.
     */
    method Deliver(fragments: seq<Data>)
      requires Valid() && mode == BslMode && SplitFrames(inBuf) == Split([], inBuf)
      modifies this
      ensures Valid() && mode == BslMode
      ensures var split := SplitFrames(old(inBuf) + Flatten(fragments));
              log == old(log) + Commands(split.raw) && inBuf == split.rest
      ensures old(replies) <= replies && out == old(out) + Answers(replies[|old(replies)|..])
    {
      hide SplitFrames, Decoded, Unescaped, IsReply, Replied, Replay, Answers;
      ghost var stream := inBuf;
      ghost var raw: seq<Data> := [];
      assert log + Commands([]) == log;
      NoAnswers(out);
      assert replies[|replies|..] == [];
      for i := 0 to |fragments|
        invariant Valid() && mode == BslMode
        invariant stream + Flatten(fragments[i..]) == old(inBuf) + Flatten(fragments)
        invariant SplitFrames(stream) == Split(raw, inBuf)
        invariant log == old(log) + Commands(raw)
        invariant old(replies) <= replies && out == old(out) + Answers(replies[|old(replies)|..])
      {
        ghost var before := replies;
        assert fragments[i..][1..] == fragments[i + 1..];
        assert stream + Flatten(fragments[i..]) == (stream + fragments[i]) + Flatten(fragments[i + 1..]);
        SplitResumes(stream, fragments[i]);
        ghost var more := SplitFrames(inBuf + fragments[i]).raw;
        CommandsAppend(old(log), raw, more);
        WriteAll(fragments[i]);
        AnswersAppend(old(out), before[|old(replies)|..], replies[|before|..]);
        assert before[|old(replies)|..] + replies[|before|..] == replies[|old(replies)|..];
        stream, raw := stream + fragments[i], raw + more;
      }
      assert stream + [] == stream;
    }
  }

  // ---------------------------------------------------------------- streams of messages

  /** Messages one after the other, with whatever checksums: the device does not look at them. */
  function Wires(cmds: seq<Cmd>, sums: seq<U16>): Data
    requires |sums| == |cmds|
  {
    if cmds == [] then []
    else Wire(Sealed(Body(cmds[0].ty, cmds[0].data), sums[0])) + Wires(cmds[1..], sums[1..])
  }

  function SentAll(cmds: seq<Cmd>): seq<Cmd>
  {
    seq(|cmds|, i requires 0 <= i < |cmds| => Sent(cmds[i].ty, cmds[i].data))
  }

  lemma NothingToSplit()
    ensures SplitFrames([]) == Split([], []) && Commands([]) == []
  {
  }

  /** One message at the head of the stream is one command. */
  lemma StreamStep(ty: U16, data: Data, sum: U16, rest: Data)
    ensures var split := SplitFrames(Wire(Sealed(Body(ty, data), sum)) + rest);
            && split.rest == SplitFrames(rest).rest
            && Commands(split.raw) == [Sent(ty, data)] + Commands(SplitFrames(rest).raw)
  {
    hide SplitFrames, Wire, Escaped, Unescaped, Decoded, Sent, Sealed, Body;
    var frame := Sealed(Body(ty, data), sum);
    SplitOfMessage(frame, rest);
    DecodedFrame(ty, data, sum);
    CommandsAppend([], [Escaped(frame)], SplitFrames(rest).raw);
    assert [] + Commands([Escaped(frame)]) == [Decoded(Unescaped(Escaped(frame)))];
  }

  /** A concatenation of messages is decoded into exactly those messages, in order. */
  lemma {:induction false} StreamOfMessages(cmds: seq<Cmd>, sums: seq<U16>)
    requires |sums| == |cmds|
    ensures SplitFrames(Wires(cmds, sums)).rest == []
    ensures Commands(SplitFrames(Wires(cmds, sums)).raw) == SentAll(cmds)
    decreases |cmds|
  {
    hide Wire, Sealed, Sent, SplitFrames, Decoded, Unescaped;
    if cmds == [] {
      NothingToSplit();
    } else {
      StreamOfMessages(cmds[1..], sums[1..]);
      StreamStep(cmds[0].ty, cmds[0].data, sums[0], Wires(cmds[1..], sums[1..]));
      assert SentAll(cmds) == [Sent(cmds[0].ty, cmds[0].data)] + SentAll(cmds[1..]);
    }
  }

  /** Messages in any fragmentation are executed as exactly that list, each one answered in turn. */
  method DeliverMessages(dev: MockTransport, cmds: seq<Cmd>, ghost sums: seq<U16>, fragments: seq<Data>)
    requires dev.Valid() && dev.mode == BslMode && dev.inBuf == []
    requires |sums| == |cmds| && Flatten(fragments) == Wires(cmds, sums)
    modifies dev
    ensures dev.Valid() && dev.mode == BslMode && dev.inBuf == []
    ensures dev.log == old(dev.log) + SentAll(cmds)
    ensures old(dev.replies) <= dev.replies && dev.out == old(dev.out) + Answers(dev.replies[|old(dev.replies)|..])
  {
    hide Wires, Answers, Replied, Replay;
    StreamOfMessages(cmds, sums);
    assert [] + Flatten(fragments) == Wires(cmds, sums);
    dev.Deliver(fragments);
  }
}
