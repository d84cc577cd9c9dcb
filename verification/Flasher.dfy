/**
 The driver: PDL, FDL1, BSL, FDL2, partitions, format, reset. Each method is proved to leave on
 the device exactly the trace that `Session` computes from the withheld replies.
 */
module Flasher {
  import opened Bytes
  import opened Bsl
  import opened Device
  import opened Session
  import opened Link
  import opened Pac
  import opened Plan
  import Checksum
  import Pdl
  import PdlLink
  import Text

  const FDL_LOAD_CHUNK: nat := 2048
  const READBACK_CHUNK: nat := 1024

  datatype Options = Options(format: bool, chunk: nat, baud: Option<U32>, verifyReadback: bool, reset: bool)

  datatype FlashError =
    | InPdl(pdl: PdlLink.PdlError)
    | InBsl(link: LinkError)
    | NoPlan
    | NoPayloadFor(fileId: string)
    | Version
    | VerifyMismatch(fileId: string)
    | FlashSize

  const TIMED_OUT: FlashError := InBsl(Timeout)

  // ---------------------------------------------------------------- adaptive transfers

  /** A stage with adaptive retry; `send_stage_adaptive` and `write_nv` differ in their start. */
  method RetryTransfer(dev: MockTransport, start: Data, data: Data, chunk: nat) returns (r: Result<(), LinkError>)
    requires dev.Idle()
    modifies dev
    ensures dev.Idle() && dev.pdlLog == old(dev.pdlLog)
    ensures var t := Adaptive(dev.drops, |old(dev.log)|, start, data, Max(chunk, 1));
            Followed(old(dev.log), dev.log, t) && Ended(r, t.end)
  {
    hide Stage, Ask, Adaptive, IsReply, Replay, Replied;
    var size := Max(chunk, 1);
    ghost var log0, t := dev.log, Adaptive(dev.drops, |dev.log|, start, data, size);
    PrependTwice([], [], t);
    assert log0[|log0|..] == [];
    while true
      invariant dev.Idle() && dev.pdlLog == old(dev.pdlLog)
      invariant size > 0 && Retrying(dev.drops, log0, dev.log, t, start, data, size)
      decreases size
    {
      ghost var log1 := dev.log;
      RetryStep(dev.drops, log0, log1, t, start, data, size);
      r := Transfer(dev, start, data, size);
      if r.Ok? || r.error != Timeout || size <= MIN_ADAPTIVE_CHUNK {
        return;
      }
      size := Halve(size);
      dev.PurgeInput();
      r := CommandAck(dev, CONNECT, []);
      if r.Err? {
        return;
      }
    }
  }

  ghost predicate Retrying(drops: set<nat>, log0: seq<Cmd>, log: seq<Cmd>, t: Trace, start: Data, data: Data, size: nat)
    requires size > 0
  {
    log0 <= log && t == Prepend(log[|log0|..], Adaptive(drops, |log|, start, data, size))
  }

  /** One attempt: it ends the transfer, or a reconnect follows at half the chunk. */
  lemma RetryStep(drops: set<nat>, log0: seq<Cmd>, log: seq<Cmd>, t: Trace, start: Data, data: Data, size: nat)
    requires size > 0 && Retrying(drops, log0, log, t, start, data, size)
    ensures var u := Ask(drops, |log|, Stage(start, data, size));
            var next := (log + u.cmds) + [RECONNECT];
            if u.end == Done || size <= MIN_ADAPTIVE_CHUNK then Followed(log0, log + u.cmds, t) && t.end == u.end
            else if |next| in drops then Followed(log0, next, t) && t.end == TimedOut
            else Retrying(drops, log0, next, t, start, data, Halve(size))
  {
    hide Stage, Ask;
    var u := Ask(drops, |log|, Stage(start, data, size));
    var again := u.cmds + [RECONNECT];
    assert (log + u.cmds) + [RECONNECT] == log + again;
    LogTail(log0, log, u.cmds);
    LogTail(log0, log, again);
    PrependTwice(log[|log0|..], again, Adaptive(drops, |log + again|, start, data, Halve(size)));
  }

  lemma LogTail(log0: seq<Cmd>, log: seq<Cmd>, more: seq<Cmd>)
    requires log0 <= log
    ensures log0 <= log + more && (log + more)[|log0|..] == log[|log0|..] + more
    ensures log + more == log0 + (log[|log0|..] + more)
  {
  }

  /**
   What a stage that ended well has left: the region at its address, no longer than the image, and
   the image itself if its pieces fit or if it is just as long.
   */
  ghost predicate Landed(before: Flash, after: Flash, addr: U32, data: Data, chunk: nat)
  {
    && addr in after && after == before[addr := after[addr]] && |after[addr]| <= |data|
    && (Fits(data, chunk) || |after[addr]| == |data| ==> after[addr] == data)
  }

  /** What an adaptive transfer that started at `log0` has made of the flash. */
  lemma AdaptiveLands(dev: MockTransport, log0: seq<Cmd>, st: Store, start: Data, addr: U32, data: Data, chunk: nat)
    requires dev.Valid() && chunk > 0 && StartFor(start, addr)
    requires st == Replay(Store(None, dev.seed), log0)
    requires Followed(log0, dev.log, Adaptive(dev.drops, |log0|, start, data, chunk))
    ensures AgreeExcept(dev.flash, st.flash, addr)
    ensures Adaptive(dev.drops, |log0|, start, data, chunk).end == Done ==>
              Landed(st.flash, dev.flash, addr, data, chunk)
  {
    hide Adaptive, AgreeExcept, Stored, Replay, Replied;
    var t := Adaptive(dev.drops, |log0|, start, data, chunk);
    ReplayAppend(Store(None, dev.seed), log0, t.cmds);
    var last := AdaptiveEffect(st, dev.drops, |log0|, start, addr, data, chunk);
    StoredIntact(data, last);
  }

  /** What the device has been sent to start a stage: the last attempt's start, and nothing but its like. */
  ghost predicate Opened(log0: seq<Cmd>, log: seq<Cmd>)
  {
    log0 < log && AttemptsOpen(log[|log0|..], log[|log0|])
  }

  lemma FollowedOpens(drops: set<nat>, log0: seq<Cmd>, log: seq<Cmd>, start: Data, data: Data, chunk: nat)
    requires chunk > 0 && Followed(log0, log, Adaptive(drops, |log0|, start, data, chunk))
    ensures Opened(log0, log) && log[|log0|] == Sent(START_DATA, start)
  {
    hide Adaptive;
    AdaptiveOpens(drops, |log0|, start, data, chunk);
    assert log[|log0|..] == Adaptive(drops, |log0|, start, data, chunk).cmds;
  }

  method SendStageAdaptive(dev: MockTransport, addr: U32, data: Data, chunk: nat) returns (r: Result<(), LinkError>)
    requires dev.Idle()
    modifies dev
    ensures dev.Idle() && dev.pdlLog == old(dev.pdlLog)
    ensures var t := Adaptive(dev.drops, |old(dev.log)|, StagePayload(addr, |data|), data, Max(chunk, 1));
            Followed(old(dev.log), dev.log, t) && Ended(r, t.end)
    // Every attempt opens with the address and the size.
    ensures Opened(old(dev.log), dev.log) && Announces(dev.log[|old(dev.log)|], addr, |data|)
    ensures r.Ok? ==> Landed(old(dev.flash), dev.flash, addr, data, Max(chunk, 1))
    ensures AgreeExcept(dev.flash, old(dev.flash), addr)
  {
    hide Adaptive, Landed, AgreeExcept, Replay, Replied, Opened, Announces, Sent;
    ghost var log0, st := dev.log, Store(dev.cur, dev.flash);
    r := RetryTransfer(dev, StagePayload(addr, |data|), data, chunk);
    FollowedOpens(dev.drops, log0, dev.log, StagePayload(addr, |data|), data, Max(chunk, 1));
    StageStartFields(addr, |data|);
    AddressFirst(addr, Be32(Wrap32(|data|)));
    AdaptiveLands(dev, log0, st, StagePayload(addr, |data|), addr, data, Max(chunk, 1));
  }

  /** A start that carries the sum of the image's bytes as well. */
  ghost predicate AnnouncesNv(c: Cmd, addr: U32, image: Data)
  {
    && c.ty == START_DATA && |c.data| == 12
    && GetBe32(c.data, 0) == addr && GetBe32(c.data, 4) == Wrap32(|image|)
    && GetBe32(c.data, 8) == Wrap32(Checksum.ByteSum(image))
  }

  method WriteNv(dev: MockTransport, addr: U32, data: Data, chunk: nat) returns (r: Result<nat, LinkError>)
    requires dev.Idle()
    modifies dev
    ensures dev.Idle() && dev.pdlLog == old(dev.pdlLog)
    ensures var fixed := NvFixed(data);
            var t := Adaptive(dev.drops, |old(dev.log)|, NvStartPayload(addr, fixed), fixed, Max(chunk, 1));
            && Followed(old(dev.log), dev.log, t)
            && (if r.Ok? then t.end == Done && r.value == |data| else r.error == Timeout && t.end == TimedOut)
    ensures Opened(old(dev.log), dev.log) && AnnouncesNv(dev.log[|old(dev.log)|], addr, NvFixed(data))
    ensures r.Ok? ==> Landed(old(dev.flash), dev.flash, addr, NvFixed(data), Max(chunk, 1))
    ensures AgreeExcept(dev.flash, old(dev.flash), addr)
  {
    hide Adaptive, Landed, AgreeExcept, Replay, Replied, Opened, Checksum.ByteSum, Checksum.Sum32, BeBytes, GetBe32;
    var fixed := NvFixCrc(data);
    ghost var log0, st, rest := dev.log, Store(dev.cur, dev.flash), Be32(Wrap32(|fixed|)) + Be32(Checksum.Sum32(fixed));
    var sent := RetryTransfer(dev, NvStartPayload(addr, fixed), fixed, chunk);
    FollowedOpens(dev.drops, log0, dev.log, NvStartPayload(addr, fixed), fixed, Max(chunk, 1));
    NvStartFields(addr, fixed);
    AddressFirst(addr, rest);
    assert NvStartPayload(addr, fixed) == Be32(addr) + rest;
    AdaptiveLands(dev, log0, st, NvStartPayload(addr, fixed), addr, fixed, Max(chunk, 1));
    match sent {
      case Ok(_) => r := Ok(|fixed|);
      case Err(e) => r := Err(e);
    }
  }

  // ---------------------------------------------------------------- a run as steps

  function Single(ty: U16, data: Data): Step { Exchange([Sent(ty, data)]) }

  /** What is stored for an entry: an NV marker with its CRC refreshed, anything else as it is. */
  function ImageOf(e: Entry, pac: Data, marker: bool): Option<Data>
  {
    match Payload(e, pac)
    case None => None
    case Some(d) => Some(if marker && IsNv(e.fileId) then NvFixed(d) else d)
  }

  function WriteStep(e: Entry, pac: Data, marker: bool): Step
  {
    match ImageOf(e, pac, marker)
    case None => Missing
    case Some(d) =>
      Image(if marker && IsNv(e.fileId) then NvStartPayload(e.address, d) else StagePayload(e.address, |d|), d)
  }

  function ReadbackStep(e: Entry, data: Data): Step { Exchange(ReadCmds(e.address, 0, |data|, READBACK_CHUNK)) }

  function Fdl2Steps(fdl2: Option<Entry>, pac: Data): seq<seq<Step>>
  {
    match fdl2
    case None => []
    case Some(e) =>
      match Payload(e, pac)
      case None => [[Missing]]
      case Some(d) =>
        [[Exchange(Stage(StagePayload(e.address, |d|), d, FDL_LOAD_CHUNK))], [Single(EXEC_DATA, [])],
         [Single(CONNECT, [])]]
  }

  function BaudSteps(baud: Option<U32>): seq<seq<Step>>
  {
    match baud
    case None => []
    case Some(b) => [[Single(CHANGE_BAUD, Be32(b))], [Single(CONNECT, [])]]
  }

  function BringUpSteps(plan: FlashPlan, pac: Data, opts: Options): seq<Step>
  {
    Flatten([[Single(CONNECT, [])], Flatten(Fdl2Steps(plan.fdl2, pac)), Flatten(BaudSteps(opts.baud))])
  }

  function PartitionSteps(parts: seq<Entry>, pac: Data, verify: bool): seq<seq<Step>>
  {
    seq(|parts|, i requires 0 <= i < |parts| => OneWrite(parts[i], pac, verify))
  }

  /** One partition: its image, and the read-back if asked for. */
  function OneWrite(e: Entry, pac: Data, verify: bool): seq<Step>
  {
    match Payload(e, pac)
    case None => [Missing]
    case Some(d) => Flatten([[WriteStep(e, pac, false)], if verify then [ReadbackStep(e, d)] else []])
  }

  function EraseCmds(erases: seq<EraseOp>): seq<Cmd>
  {
    seq(|erases|, i requires 0 <= i < |erases| => Sent(ERASE_FLASH, Be32(erases[i].address) + erases[i].param))
  }

  function EraseSteps(erases: seq<EraseOp>): seq<seq<Step>>
  {
    seq(|erases|, i requires 0 <= i < |erases| => [Exchange([EraseCmds(erases)[i]])])
  }

  function MarkerSteps(markers: seq<Entry>, pac: Data): seq<seq<Step>>
  {
    seq(|markers|, i requires 0 <= i < |markers| => [WriteStep(markers[i], pac, true)])
  }

  function ResetSteps(reset: bool): seq<Step>
  {
    if reset then [Fire(Sent(NORMAL_RESET, []))] else []
  }

  function FormatSteps(plan: FlashPlan, pac: Data, opts: Options): seq<Step>
  {
    if opts.format then Flatten([Flatten(EraseSteps(plan.erases)), Flatten(MarkerSteps(plan.dataMarkers, pac))])
    else []
  }

  /** The phases of a run: loaders, partitions, format, reset. */
  function Phases(plan: FlashPlan, pac: Data, opts: Options): seq<seq<Step>>
  {
    [BringUpSteps(plan, pac, opts), Flatten(PartitionSteps(plan.partitions, pac, opts.verifyReadback)),
     FormatSteps(plan, pac, opts), ResetSteps(opts.reset)]
  }

  function RunSteps(plan: FlashPlan, pac: Data, opts: Options): seq<Step> { Flatten(Phases(plan, pac, opts)) }

  // ---------------------------------------------------------------- following a run

  /** How a trace shows to the caller: only a withheld reply or a payload that is not in the file stops it. */
  ghost predicate EndsAs(end: End, failed: Option<FlashError>)
  {
    match failed
    case None => end == Done
    case Some(e) => if e == TIMED_OUT then end == TimedOut else e.NoPayloadFor? && end == NoPayload
  }

  /** Since `log0` the device has executed exactly the run of `steps`, which ended like this. */
  ghost predicate Ran(drops: set<nat>, chunk: nat, log0: seq<Cmd>, log: seq<Cmd>, steps: seq<Step>,
                      failed: Option<FlashError>)
  {
    && chunk > 0
    && Followed(log0, log, Run(drops, |log0|, chunk, steps))
    && EndsAs(Run(drops, |log0|, chunk, steps).end, failed)
  }

  function Why<T>(r: Result<T, FlashError>): Option<FlashError> { if r.Ok? then None else Some(r.error) }

  /** The `?` on a link-layer result. */
  function Raise<T>(r: Result<T, LinkError>): Result<T, FlashError>
  {
    match r
    case Ok(v) => Ok(v)
    case Err(e) => Err(InBsl(e))
  }

  lemma RanStep(drops: set<nat>, chunk: nat, log0: seq<Cmd>, step: Step, failed: Option<FlashError>)
    requires chunk > 0 && EndsAs(RunStep(drops, |log0|, chunk, step).end, failed)
    ensures Ran(drops, chunk, log0, log0 + RunStep(drops, |log0|, chunk, step).cmds, [step], failed)
  {
    hide RunStep;
    var t := RunStep(drops, |log0|, chunk, step);
    assert [step][1..] == [] && t.cmds + [] == t.cmds;
    assert Run(drops, |log0| + |t.cmds|, chunk, []) == Trace(Done, []);
    assert Run(drops, |log0|, chunk, [step]) == t;
  }

  lemma RanMore(drops: set<nat>, chunk: nat, log0: seq<Cmd>, log1: seq<Cmd>, log2: seq<Cmd>,
                a: seq<Step>, b: seq<Step>, later: seq<Step>, failed: Option<FlashError>)
    requires Ran(drops, chunk, log0, log1, a, None) && Ran(drops, chunk, log1, log2, b, failed)
    ensures Ran(drops, chunk, log0, log2, a + b, failed)
    ensures failed.Some? ==> Ran(drops, chunk, log0, log2, (a + b) + later, failed)
  {
    hide Run;
    RunAppend(drops, |log0|, chunk, a, b);
    RunAppend(drops, |log0|, chunk, a + b, later);
    assert (log0 + Run(drops, |log0|, chunk, a).cmds) + Run(drops, |log1|, chunk, b).cmds
        == log0 + (Run(drops, |log0|, chunk, a).cmds + Run(drops, |log1|, chunk, b).cmds);
  }

  /** One group of steps further, or the whole run over. */
  lemma RanNext(drops: set<nat>, chunk: nat, log0: seq<Cmd>, log1: seq<Cmd>, log2: seq<Cmd>,
                all: seq<seq<Step>>, i: nat, failed: Option<FlashError>)
    requires i < |all| && Ran(drops, chunk, log0, log1, Flatten(all[..i]), None)
    requires Ran(drops, chunk, log1, log2, all[i], failed)
    ensures failed == None ==> Ran(drops, chunk, log0, log2, Flatten(all[..i + 1]), None)
    ensures failed == None && i + 1 == |all| ==> Ran(drops, chunk, log0, log2, Flatten(all), None)
    ensures failed.Some? ==> Ran(drops, chunk, log0, log2, Flatten(all), failed)
  {
    hide Ran, Flatten;
    assert all[..i + 1] == all[..i] + [all[i]];
    FlattenAppend(all[..i], [all[i]]);
    assert all == all[..i + 1] + all[i + 1..];
    FlattenAppend(all[..i + 1], all[i + 1..]);
    RanMore(drops, chunk, log0, log1, log2, Flatten(all[..i]), all[i], Flatten(all[i + 1..]), failed);
    assert i + 1 == |all| ==> all[..i + 1] == all;
  }

  /** Nothing has been done yet. */
  lemma RanNothing(drops: set<nat>, chunk: nat, log: seq<Cmd>, all: seq<seq<Step>>)
    requires chunk > 0
    ensures Ran(drops, chunk, log, log, Flatten(all[..0]), None) && Ran(drops, chunk, log, log, [], None)
    ensures all == [] ==> Ran(drops, chunk, log, log, Flatten(all), None)
  {
    assert all[..0] == [] && log + [] == log;
  }

  /** A command that is acknowledged and does not touch the store. */
  method StepCommand(dev: MockTransport, ty: U16, data: Data, ghost chunk: nat) returns (r: Result<(), FlashError>)
    requires dev.Idle() && chunk > 0
    requires ty !in {NORMAL_RESET, READ_FLASH, START_DATA, MIDST_DATA, END_DATA}
    modifies dev
    ensures dev.Idle() && dev.pdlLog == old(dev.pdlLog) && dev.flash == old(dev.flash)
    ensures dev.log == old(dev.log) + [Sent(ty, data)]
    ensures Ran(dev.drops, chunk, old(dev.log), dev.log, [Single(ty, data)], Why(r))
    ensures r.Err? ==> r.error == TIMED_OUT
  {
    hide Ran, Run, Replay, Replied;
    ghost var log0, c := dev.log, Sent(ty, data);
    ReplayOne(Store(None, dev.seed), log0, c);
    var got := CommandAck(dev, ty, data);
    r := Raise(got);
    assert [c][1..] == [] && [c] + [] == [c];
    assert Ask(dev.drops, |log0| + 1, []) == Trace(Done, []);
    RanStep(dev.drops, chunk, log0, Single(ty, data), Why(r));
  }

  /** Why an operation on `entries` fails: the link, a payload that is not in the file, or a read-back. */
  ghost predicate Cause(error: FlashError, entries: seq<Entry>, pac: Data, verify: bool)
  {
    match error
    case InBsl(_) => true
    case NoPayloadFor(id) => exists e | e in entries :: e.fileId == id && Payload(e, pac) == None
    case VerifyMismatch(id) => verify && exists e | e in entries :: e.fileId == id
    case _ => false
  }

  lemma CauseMore(error: FlashError, some: seq<Entry>, all: seq<Entry>, pac: Data, verify: bool)
    requires forall e | e in some :: e in all
    ensures Cause(error, some, pac, verify) ==> Cause(error, all, pac, verify)
    ensures Cause(error, some, pac, false) ==> Cause(error, all, pac, verify)
  {
  }

  /** The start of the stage that writes `e`; an NV marker's carries the sum of the refreshed image. */
  ghost predicate StartOf(c: Cmd, e: Entry, pac: Data, marker: bool)
  {
    && Payload(e, pac).Some?
    && if marker && IsWord(e.fileId, "NV") then AnnouncesNv(c, e.address, NvFixed(Payload(e, pac).value))
       else Announces(c, e.address, e.size)
  }

  /** Every start among the commands is the start of one of the entries. */
  ghost predicate StartsAre(cmds: seq<Cmd>, entries: seq<Entry>, pac: Data, marker: bool)
  {
    forall c | c in cmds && c.ty == START_DATA :: exists e | e in entries :: StartOf(c, e, pac, marker)
  }

  lemma NoStarts(cmds: seq<Cmd>, entries: seq<Entry>, pac: Data, marker: bool)
    requires Only(cmds, {READ_FLASH})
    ensures StartsAre(cmds, entries, pac, marker)
  {
  }

  /** One entry after another. */
  lemma MoreStarts(
      log0: seq<Cmd>, log1: seq<Cmd>, log: seq<Cmd>, entries: seq<Entry>, e: Entry, pac: Data, marker: bool)
    requires log0 <= log1 <= log && e in entries
    requires StartsAre(log1[|log0|..], entries, pac, marker) && StartsAre(log[|log1|..], [e], pac, marker)
    ensures StartsAre(log[|log0|..], entries, pac, marker)
  {
    hide StartOf;
    assert log[|log0|..] == log1[|log0|..] + log[|log1|..];
  }

  lemma OpenedBy(log0: seq<Cmd>, log: seq<Cmd>, e: Entry, pac: Data, marker: bool)
    requires Opened(log0, log) && StartOf(log[|log0|], e, pac, marker)
    ensures StartsAre(log[|log0|..], [e], pac, marker)
  {
    hide StartOf;
    var cmds := log[|log0|..];
    forall c | c in cmds && c.ty == START_DATA
      ensures exists x | x in [e] :: StartOf(c, x, pac, marker)
    {
      var i :| 0 <= i < |cmds| && cmds[i] == c;
      assert cmds[i] == cmds[0] && e in [e];
    }
  }

  /** The common body of the two write loops; only a marker is looked at for being the NV image. */
  method WriteEntry(dev: MockTransport, e: Entry, pac: Data, marker: bool, chunk: nat)
    returns (r: Result<nat, FlashError>)
    requires dev.Idle()
    modifies dev
    ensures dev.Idle() && dev.pdlLog == old(dev.pdlLog)
    ensures Ran(dev.drops, Max(chunk, 1), old(dev.log), dev.log, [WriteStep(e, pac, marker)], Why(r))
    ensures old(dev.log) <= dev.log && Only(dev.log[|old(dev.log)|..], STAGE_TYPES)
    ensures StartsAre(dev.log[|old(dev.log)|..], [e], pac, marker)
    ensures Payload(e, pac) == None ==> r == Err(NoPayloadFor(e.fileId))
    ensures Payload(e, pac).Some? && r.Err? ==> r.error == TIMED_OUT
    ensures r.Ok? ==>
              && ImageOf(e, pac, marker).Some? && r.value == e.size == |ImageOf(e, pac, marker).value|
              && Landed(old(dev.flash), dev.flash, e.address, ImageOf(e, pac, marker).value, Max(chunk, 1))
    ensures AgreeExcept(dev.flash, old(dev.flash), e.address)
  {
    hide Ran, Adaptive, Replay, Landed, NvFixed, IsNv, NvStartPayload, StagePayload, Replied, Opened, Announces,
      AnnouncesNv, IsWord, StartsAre;
    ghost var log0, step := dev.log, WriteStep(e, pac, marker);
    NvIs(e.fileId);
    var payload := Payload(e, pac);
    match payload {
      case None => r := Err(NoPayloadFor(e.fileId));
      case Some(data) =>
        if marker && IsNv(e.fileId) {
          var sent := WriteNv(dev, e.address, data, chunk);
          r := Raise(sent);
        } else {
          var sent := SendStageAdaptive(dev, e.address, data, chunk);
          r := if sent.Ok? then Ok(|data|) else Err(InBsl(sent.error));
        }
        OpenedBy(log0, dev.log, e, pac, marker);
    }
    assert log0 + [] == log0;
    NoStarts([], [e], pac, marker);
    RanStep(dev.drops, Max(chunk, 1), log0, step, Why(r));
    if step.Image? {
      AdaptiveOnly(dev.drops, |log0|, step.start, step.data, Max(chunk, 1));
    }
    assert dev.log[|log0|..] == RunStep(dev.drops, |log0|, Max(chunk, 1), step).cmds;
  }

  // ---------------------------------------------------------------- bring-up

  /** What the PDL agent is sent to load and execute FDL1. */
  function PdlMessages(addr: U32, fdl1: Data): seq<Data>
  {
    [Pdl.Params(Pdl.CONNECT, 0, 0, [])] + PdlLink.ImageMessages(addr, fdl1) + [Pdl.Params(Pdl.EXEC, 0, 0, [])]
  }

  /** The first loader: a connection, its image loaded at `addr`, and its execution. */
  lemma FirstLoaderRuns(addr: U32, fdl1: Data)
    ensures var m := PdlMessages(addr, fdl1);
            && |m| >= 2
            && PdlLink.Says(m[0], 0, 0, 0, []) && PdlLink.Says(m[|m| - 1], 7, 0, 0, [])
            && PdlLink.Delivers(m[1..|m| - 1], addr, fdl1)
  {
    hide PdlLink.Delivers, PdlLink.ImageMessages, PdlLink.Says, Pdl.Params;
    PdlLink.ImageIsDelivered(addr, fdl1);
    PdlLink.ParamsSay(Pdl.CONNECT, 0, 0, []);
    PdlLink.ParamsSay(Pdl.EXEC, 0, 0, []);
    var m := PdlMessages(addr, fdl1);
    assert m[1..|m| - 1] == PdlLink.ImageMessages(addr, fdl1);
  }

  /** Load and execute FDL1; `due` is the timing of the check-baud kicks. */
  method LoadFdl1(dev: MockTransport, addr: U32, fdl1: Data, due: nat -> bool) returns (r: Result<string, FlashError>)
    requires dev.PdlIdle() && PdlLink.Timely(dev.banner, due)
    modifies dev
    ensures dev.Idle() && dev.log == old(dev.log) && dev.flash == old(dev.flash)
    ensures dev.pdlLog == old(dev.pdlLog) + PdlMessages(addr, fdl1)
    ensures r == Ok(VersionText(dev.banner))
  {
    hide Sealed, Body, Wire, Unescaped, ParseMessage, VersionText, Checksum.SprdSumOf, Pdl.Params,
      PdlLink.ImageMessages, Replay, Replied;
    ghost var log0 := dev.pdlLog;
    var did := PdlLink.Connect(dev);
    match did {
      case Err(e) => return Err(InPdl(e));
      case Ok(_) =>
    }
    did := PdlLink.SendImage(dev, addr, fdl1);
    match did {
      case Err(e) => return Err(InPdl(e));
      case Ok(_) =>
    }
    ParseOfFrame(REP_VER, dev.banner, Checksum.SprdSumOf(Body(REP_VER, dev.banner)));
    Stripped(Frame(REP_VER, dev.banner, Sprd));
    var raw;
    ghost var extra;
    raw, extra := PdlLink.ExecAndGetVer(dev, due);
    assert dev.pdlLog == log0 + PdlMessages(addr, fdl1);
    match raw {
      case Err(e) => r := Err(InPdl(e));
      case Ok(frame) => r := VersionOf(frame);
    }
  }

  /** Strip the flags, unescape, and take the data of the VER message. */
  method VersionOf(raw: Data) returns (r: Result<string, FlashError>)
    requires |raw| >= 2
    ensures r == VersionIn(raw)
  {
    var body := Unescape(raw[1..|raw| - 1]);
    match ParseMessage(body) {
      case Err(_) => r := Err(Version);
      case Ok(p) => r := if p.cmd != REP_VER then Err(Version) else Ok(VersionText(p.data));
    }
  }

  /** The banner as text, white space at its ends trimmed. */
  function VersionText(banner: Data): string { Text.Trim(Text.Lossy(banner)) }

  /** The version that a run of the device's own FDL1 reports. */
  lemma BannerIsReported()
    ensures VersionText(VER_BANNER) == "Spreadtrum Boot Block version 1.2\0"
  {
    hide Text.Lossy, Text.Trim;
    Text.PlainText("Spreadtrum Boot Block version 1.2\0", VER_BANNER);
  }

  function VersionIn(raw: Data): Result<string, FlashError>
    requires |raw| >= 2
  {
    match ParseMessage(Unescaped(raw[1..|raw| - 1]))
    case Err(_) => Err(Version)
    case Ok(p) => if p.cmd != REP_VER then Err(Version) else Ok(VersionText(p.data))
  }

  lemma Stripped(frame: Data)
    ensures var raw := Wire(frame); |raw| >= 2 && Unescaped(raw[1..|raw| - 1]) == frame
  {
    hide Escaped, Unescaped;
    EscapeRoundTrip(frame);
    assert Wire(frame)[1..|Wire(frame)| - 1] == Escaped(frame);
  }

  function Loaders(plan: FlashPlan): seq<Entry>
  {
    [plan.fdl1] + if plan.fdl2 == None then [] else [plan.fdl2.value]
  }

  method BringUp(dev: MockTransport, pac: Data, plan: FlashPlan, opts: Options, due: nat -> bool)
    returns (r: Result<string, FlashError>)
    requires dev.PdlIdle() && PdlLink.Timely(dev.banner, due)
    modifies dev
    ensures Payload(plan.fdl1, pac) == None ==> r == Err(NoPayloadFor(plan.fdl1.fileId)) && dev.log == old(dev.log)
    ensures Payload(plan.fdl1, pac).Some? ==>
              && dev.Idle()
              && dev.pdlLog == old(dev.pdlLog) + PdlMessages(plan.fdl1.address, Payload(plan.fdl1, pac).value)
              && Ran(dev.drops, Max(opts.chunk, 1), old(dev.log), dev.log, BringUpSteps(plan, pac, opts), Why(r))
    ensures r.Err? ==> Cause(r.error, Loaders(plan), pac, false)
    ensures r.Ok? ==>
              && r.value == VersionText(dev.banner) && Loadable(plan, pac)
              && dev.flash == AfterBringUp(old(dev.flash), plan, pac)
  {
    hide Ran, Payload, PdlMessages, Flatten, Fdl2Steps, BaudSteps, Single, Run, PdlLink.Timely, Replay, Replied;
    var fdl1 := Payload(plan.fdl1, pac);
    assert plan.fdl1 in Loaders(plan) && (plan.fdl2.Some? ==> plan.fdl2.value in Loaders(plan));
    if fdl1 == None {
      return Err(NoPayloadFor(plan.fdl1.fileId));
    }
    var version := LoadFdl1(dev, plan.fdl1.address, fdl1.value, due);
    if version.Err? {
      return version;
    }
    ghost var chunk, log0 := Max(opts.chunk, 1), dev.log;
    ghost var all := [[Single(CONNECT, [])], Flatten(Fdl2Steps(plan.fdl2, pac)), Flatten(BaudSteps(opts.baud))];
    RanNothing(dev.drops, chunk, log0, all);
    var did := StepCommand(dev, CONNECT, [], chunk);
    RanNext(dev.drops, chunk, log0, log0, dev.log, all, 0, Why(did));
    if did.Err? {
      return Err(did.error);
    }
    ghost var log1 := dev.log;
    did := BringUpFdl2(dev, pac, plan.fdl2, chunk);
    if did.Err? && plan.fdl2.Some? {
      CauseMore(did.error, [plan.fdl2.value], Loaders(plan), pac, false);
    }
    RanNext(dev.drops, chunk, log0, log1, dev.log, all, 1, Why(did));
    if did.Err? {
      return Err(did.error);
    }
    ghost var log2 := dev.log;
    did := BringUpBaud(dev, opts.baud, chunk);
    RanNext(dev.drops, chunk, log0, log2, dev.log, all, 2, Why(did));
    if did.Err? {
      return Err(did.error);
    }
    r := version;
  }

  /** The loaders are in the package. */
  ghost predicate Loadable(plan: FlashPlan, pac: Data)
  {
    Payload(plan.fdl1, pac).Some? && (plan.fdl2.Some? ==> Payload(plan.fdl2.value, pac).Some?)
  }

  method BringUpFdl2(dev: MockTransport, pac: Data, fdl2: Option<Entry>, ghost chunk: nat)
    returns (r: Result<(), FlashError>)
    requires dev.Idle() && chunk > 0
    modifies dev
    ensures dev.Idle() && dev.pdlLog == old(dev.pdlLog)
    ensures Ran(dev.drops, chunk, old(dev.log), dev.log, Flatten(Fdl2Steps(fdl2, pac)), Why(r))
    ensures r.Err? ==> r.error == TIMED_OUT || (fdl2.Some? && Cause(r.error, [fdl2.value], pac, false))
    ensures r.Ok? ==> match fdl2
                      case None => dev.flash == old(dev.flash)
                      case Some(e) =>
                        && Payload(e, pac).Some?
                        && dev.flash == old(dev.flash)[e.address := Payload(e, pac).value]
  {
    hide Ran, Payload, Stage, Flatten, Ask, Run, Replay, Replied;
    ghost var log0, all := dev.log, Fdl2Steps(fdl2, pac);
    RanNothing(dev.drops, chunk, log0, all);
    if fdl2 == None {
      return Ok(());
    }
    var e := fdl2.value;
    var payload := Payload(e, pac);
    if payload == None {
      assert log0 + [] == log0;
      RanStep(dev.drops, chunk, log0, Missing, Some(NoPayloadFor(e.fileId)));
      RanNext(dev.drops, chunk, log0, log0, log0, all, 0, Some(NoPayloadFor(e.fileId)));
      return Err(NoPayloadFor(e.fileId));
    }
    var data := payload.value;
    StoredIntact(data, FDL_LOAD_CHUNK);
    var got := SendStage(dev, e.address, data, FDL_LOAD_CHUNK);
    r := Raise(got);
    RanStep(dev.drops, chunk, log0, all[0][0], Why(r));
    RanNext(dev.drops, chunk, log0, log0, dev.log, all, 0, Why(r));
    if r.Err? {
      return;
    }
    ghost var log1 := dev.log;
    r := StepCommand(dev, EXEC_DATA, [], chunk);
    RanNext(dev.drops, chunk, log0, log1, dev.log, all, 1, Why(r));
    if r.Err? {
      return;
    }
    ghost var log2 := dev.log;
    r := StepCommand(dev, CONNECT, [], chunk);
    RanNext(dev.drops, chunk, log0, log2, dev.log, all, 2, Why(r));
  }

  method BringUpBaud(dev: MockTransport, baud: Option<U32>, ghost chunk: nat) returns (r: Result<(), FlashError>)
    requires dev.Idle() && chunk > 0
    modifies dev
    ensures dev.Idle() && dev.pdlLog == old(dev.pdlLog) && dev.flash == old(dev.flash)
    ensures Ran(dev.drops, chunk, old(dev.log), dev.log, Flatten(BaudSteps(baud)), Why(r))
    ensures r.Err? ==> r.error == TIMED_OUT
  {
    hide Ran, Flatten, Run, Replay, Replied;
    ghost var log0, all := dev.log, BaudSteps(baud);
    RanNothing(dev.drops, chunk, log0, all);
    if baud == None {
      return Ok(());
    }
    r := StepCommand(dev, CHANGE_BAUD, Be32(baud.value), chunk);
    RanNext(dev.drops, chunk, log0, log0, dev.log, all, 0, Why(r));
    if r.Err? {
      return;
    }
    ghost var log1 := dev.log;
    r := StepCommand(dev, CONNECT, [], chunk);
    RanNext(dev.drops, chunk, log0, log1, dev.log, all, 1, Why(r));
  }

  // ---------------------------------------------------------------- what the phases store

  function Put(flash: Flash, addr: U32, image: Option<Data>): Flash
  {
    match image
    case None => flash
    case Some(d) => flash[addr := d]
  }

  function AfterBringUp(flash: Flash, plan: FlashPlan, pac: Data): Flash
  {
    match plan.fdl2
    case None => flash
    case Some(e) => Put(flash, e.address, Payload(e, pac))
  }

  /** The flash after `entries` have been written in order. */
  function After(flash: Flash, entries: seq<Entry>, pac: Data, marker: bool): Flash
  {
    if entries == [] then flash
    else
      var last := entries[|entries| - 1];
      Put(After(flash, entries[..|entries| - 1], pac, marker), last.address, ImageOf(last, pac, marker))
  }

  function TotalSize(entries: seq<Entry>): nat
  {
    if entries == [] then 0 else TotalSize(entries[..|entries| - 1]) + entries[|entries| - 1].size
  }

  /** Every image to be written has pieces that fit their 16-bit length field. */
  ghost predicate AllFit(entries: seq<Entry>, chunk: nat)
  {
    chunk < 0x1_0000 || forall e | e in entries :: e.size < 0x1_0000
  }

  ghost predicate AllPresent(entries: seq<Entry>, pac: Data)
  {
    forall e | e in entries :: Payload(e, pac).Some?
  }

  /** None of the entries lies at `addr`. */
  ghost predicate Beyond(entries: seq<Entry>, addr: U32)
  {
    forall e | e in entries :: e.address != addr
  }

  // ---------------------------------------------------------------- partitions

  /** The ranges of the partitions are disjoint, and clear of everything else the device holds. */
  ghost predicate Separable(flash: Flash, parts: seq<Entry>)
  {
    && (forall e | e in parts :: Clear(flash, e.address, e.size))
    && forall i, j | 0 <= i < j < |parts| ::
         parts[i].address + parts[i].size <= parts[j].address || parts[j].address + parts[j].size <= parts[i].address
  }

  /** Each partition can be read back undisturbed right after it is written. */
  ghost predicate Consistent(flash: Flash, parts: seq<Entry>, pac: Data)
  {
    forall i | 0 <= i < |parts| && Payload(parts[i], pac).Some? ::
      Visible(After(flash, parts[..i + 1], pac, false), parts[i].address, Payload(parts[i], pac).value)
  }

  /** Writing other partitions leaves the range of this one clear. */
  lemma {:induction false} StaysClear(flash: Flash, parts: seq<Entry>, pac: Data, i: nat, k: nat)
    requires Separable(flash, parts) && k <= i < |parts|
    ensures Clear(After(flash, parts[..k], pac, false), parts[i].address, parts[i].size)
    decreases k
  {
    hide After;
    if k == 0 {
      assert Clear(flash, parts[i].address, parts[i].size);
      NothingWritten(flash, parts, pac, false);
    } else {
      StaysClear(flash, parts, pac, i, k - 1);
      assert parts[..k] == parts[..k - 1] + [parts[k - 1]];
      AfterOne(flash, parts[..k - 1], pac, false, parts[k - 1]);
    }
  }

  lemma AfterOne(flash: Flash, entries: seq<Entry>, pac: Data, marker: bool, e: Entry)
    ensures After(flash, entries + [e], pac, marker)
         == Put(After(flash, entries, pac, marker), e.address, ImageOf(e, pac, marker))
  {
    assert (entries + [e])[..|entries|] == entries;
  }

  /** With disjoint, clear ranges every partition can be read back undisturbed. */
  lemma DisjointIsConsistent(flash: Flash, parts: seq<Entry>, pac: Data)
    requires Separable(flash, parts)
    ensures Consistent(flash, parts, pac)
  {
    hide Separable, Clear, Visible, After, Payload;
    forall i | 0 <= i < |parts| && Payload(parts[i], pac).Some?
      ensures Visible(After(flash, parts[..i + 1], pac, false), parts[i].address, Payload(parts[i], pac).value)
    {
      StaysClear(flash, parts, pac, i, i);
      assert parts[..i + 1] == parts[..i] + [parts[i]];
      AfterOne(flash, parts[..i], pac, false, parts[i]);
      ReadsBack(After(flash, parts[..i], pac, false), parts[i], pac);
    }
  }

  lemma ReadsBack(flash: Flash, e: Entry, pac: Data)
    requires Clear(flash, e.address, e.size) && Payload(e, pac).Some?
    ensures Visible(flash[e.address := Payload(e, pac).value], e.address, Payload(e, pac).value)
  {
    hide Visible;
    var d := Payload(e, pac).value;
    ClearRegion(flash[e.address := d], e.address, d, e.size);
  }

  /** What a successful loop stores is certain: pieces fit, or each image is read back from a range of its own. */
  ghost predicate Certain(flash: Flash, parts: seq<Entry>, opts: Options)
  {
    AllFit(parts, Max(opts.chunk, 1)) || (opts.verifyReadback && Separable(flash, parts))
  }

  /** Every read-back tells whether its image is there. */
  ghost predicate Telling(flash: Flash, parts: seq<Entry>, pac: Data, opts: Options)
  {
    Separable(flash, parts) || (AllFit(parts, Max(opts.chunk, 1)) && Consistent(flash, parts, pac))
  }

  /** Partitions can be told apart when read back, and the device does not corrupt them. */
  ghost predicate Checkable(corrupt: bool, flash: Flash, parts: seq<Entry>, pac: Data, opts: Options)
  {
    opts.verifyReadback ==> !corrupt && AllFit(parts, Max(opts.chunk, 1)) && Consistent(flash, parts, pac)
  }

  /**
   Read a partition back and compare. Where only one region lies, a check that passes on a device
   that does not corrupt means that the region begins with the data; a shorter one never passes.
   */
  method CheckPartition(dev: MockTransport, e: Entry, data: Data, ghost chunk: nat) returns (r: Result<(), FlashError>)
    requires dev.Idle() && chunk > 0
    modifies dev
    ensures dev.Idle() && dev.pdlLog == old(dev.pdlLog) && dev.flash == old(dev.flash)
    ensures old(dev.log) <= dev.log && Only(dev.log[|old(dev.log)|..], {READ_FLASH})
    ensures r.Err? ==> r.error.InBsl? || r.error == VerifyMismatch(e.fileId)
    ensures Visible(dev.flash, e.address, data) && !dev.corrupt ==>
              Ran(dev.drops, chunk, old(dev.log), dev.log, [ReadbackStep(e, data)], Why(r))
    ensures Visible(dev.flash, e.address, data) && dev.corrupt && data != [] ==> r.Err?
    ensures r.Ok? && e.address in dev.flash && Clear(dev.flash, e.address, |data|) ==>
              |data| <= |dev.flash[e.address]| && (dev.corrupt || data <= dev.flash[e.address])
  {
    hide Ran, Run, ReadCmds, Shows, Solid, Ask, Clear, EndsAt, Only, Replay, Replied;
    ghost var log0, want := dev.log, data;
    if e.address in dev.flash && Clear(dev.flash, e.address, |data|) {
      ghost var held := dev.flash[e.address];
      want := held[..Min(|held|, |data|)];
      ClearRegion(dev.flash, e.address, data, |data|);
      ClearRegion(dev.flash, e.address, want, |data|);
    }
    var back := ReadFlash(dev, e.address, |data|, READBACK_CHUNK, want);
    match back {
      case Err(error) => r := Err(InBsl(error));
      case Ok(bytes) => r := if bytes != data then Err(VerifyMismatch(e.fileId)) else Ok(());
    }
    if Visible(dev.flash, e.address, data) && !dev.corrupt {
      AskFacts(dev.drops, |log0|, ReadCmds(e.address, 0, |data|, READBACK_CHUNK));
      RanStep(dev.drops, chunk, log0, ReadbackStep(e, data), Why(r));
    }
  }

  method FlashPartition(dev: MockTransport, e: Entry, pac: Data, opts: Options) returns (r: Result<nat, FlashError>)
    requires dev.Idle()
    modifies dev
    ensures dev.Idle() && dev.pdlLog == old(dev.pdlLog)
    ensures old(dev.log) <= dev.log && Only(dev.log[|old(dev.log)|..], STAGE_TYPES + {READ_FLASH})
    ensures StartsAre(dev.log[|old(dev.log)|..], [e], pac, false)
    ensures r.Ok? ==> Payload(e, pac).Some? && r.value == e.size
    ensures r.Err? ==> Cause(r.error, [e], pac, opts.verifyReadback)
    ensures r.Ok? && Certain(old(dev.flash), [e], opts) ==>
              dev.flash == old(dev.flash)[e.address := Payload(e, pac).value]
    ensures Checkable(dev.corrupt, old(dev.flash), [e], pac, opts) ==>
              Ran(dev.drops, Max(opts.chunk, 1), old(dev.log), dev.log, OneWrite(e, pac, opts.verifyReadback), Why(r))
    ensures opts.verifyReadback && dev.corrupt && e.size != 0 && Telling(old(dev.flash), [e], pac, opts) ==> r.Err?
  {
    hide Ran, Run, Flatten, Visible, AgreeExcept, ReadbackStep, StagePayload, RunStep, Consistent, Replay, Replied,
      StartsAre;
    ghost var log0, flash0, chunk := dev.log, dev.flash, Max(opts.chunk, 1);
    r := WriteEntry(dev, e, pac, false, opts.chunk);
    if Payload(e, pac) == None {
      return;
    }
    var data := Payload(e, pac).value;
    assert e in [e] && [e][0] == e;
    FirstOnly(flash0, e, pac);
    ghost var check := if opts.verifyReadback then [ReadbackStep(e, data)] else [];
    ghost var all := [[WriteStep(e, pac, false)], check];
    ghost var log1 := dev.log;
    RanNothing(dev.drops, chunk, log0, all);
    RanNext(dev.drops, chunk, log0, log0, log1, all, 0, Why(r));
    if r.Err? {
      return;
    }
    if opts.verifyReadback {
      var checked := CheckPartition(dev, e, data, chunk);
      NoStarts(dev.log[|log1|..], [e], pac, false);
      MoreStarts(log0, log1, dev.log, [e], e, pac, false);
      if checked.Err? {
        r := Err(checked.error);
      }
      if Clear(flash0, e.address, e.size) {
        ReadsBack(flash0, e, pac);
      }
    } else {
      RanNothing(dev.drops, chunk, log1, all);
    }
    if Ran(dev.drops, chunk, log1, dev.log, check, Why(r)) {
      RanNext(dev.drops, chunk, log0, log1, dev.log, all, 1, Why(r));
    }
  }

  /** What the partition loop knows before the `i`-th partition. */
  lemma NextPartition(
      corrupt: bool, flash: Flash, now: Flash, parts: seq<Entry>, pac: Data, opts: Options, i: nat)
    requires i < |parts|
    requires Certain(flash, parts, opts) ==> now == After(flash, parts[..i], pac, false)
    ensures var e := parts[i];
            && (Certain(flash, parts, opts) ==>
                  Certain(now, [e], opts)
                  && After(flash, parts[..i + 1], pac, false) == Put(now, e.address, Payload(e, pac)))
            && (opts.verifyReadback && Telling(flash, parts, pac, opts) ==> Telling(now, [e], pac, opts))
            && (Checkable(corrupt, flash, parts, pac, opts) ==> Checkable(corrupt, now, [e], pac, opts))
            && TotalSize(parts[..i + 1]) == TotalSize(parts[..i]) + e.size
  {
    hide Visible, Clear, After, Payload;
    assert parts[..i + 1] == parts[..i] + [parts[i]];
    assert parts[..i + 1][..i] == parts[..i];
    AfterOne(flash, parts[..i], pac, false, parts[i]);
    FirstOnly(now, parts[i], pac);
    if Separable(flash, parts) {
      StaysClear(flash, parts, pac, i, i);
    }
  }

  /** Of one partition alone. */
  lemma FirstOnly(flash: Flash, e: Entry, pac: Data)
    ensures Consistent(flash, [e], pac) <==>
              (Payload(e, pac).Some? ==>
                 Visible(flash[e.address := Payload(e, pac).value], e.address, Payload(e, pac).value))
  {
    hide Visible, Payload;
    assert [e][..1] == [] + [e];
    AfterOne(flash, [], pac, false, e);
    assert Consistent(flash, [e], pac) <==>
      (Payload([e][0], pac).Some? ==>
         Visible(After(flash, [e][..0 + 1], pac, false), [e][0].address, Payload([e][0], pac).value));
  }

  method FlashPartitions(dev: MockTransport, parts: seq<Entry>, pac: Data, opts: Options)
    returns (r: Result<nat, FlashError>)
    requires dev.Idle()
    modifies dev
    ensures dev.Idle() && dev.pdlLog == old(dev.pdlLog)
    ensures old(dev.log) <= dev.log && Only(dev.log[|old(dev.log)|..], STAGE_TYPES + {READ_FLASH})
    ensures StartsAre(dev.log[|old(dev.log)|..], parts, pac, false)
    ensures r.Ok? ==> AllPresent(parts, pac) && r.value == TotalSize(parts)
    ensures r.Err? ==> Cause(r.error, parts, pac, opts.verifyReadback)
    ensures r.Ok? && Certain(old(dev.flash), parts, opts) ==> dev.flash == After(old(dev.flash), parts, pac, false)
    ensures Checkable(dev.corrupt, old(dev.flash), parts, pac, opts) ==>
              Ran(dev.drops, Max(opts.chunk, 1), old(dev.log), dev.log,
                  Flatten(PartitionSteps(parts, pac, opts.verifyReadback)), Why(r))
    ensures opts.verifyReadback && dev.corrupt && Telling(old(dev.flash), parts, pac, opts) ==>
              (exists e | e in parts :: e.size != 0) ==> r.Err?
  {
    hide Ran, Run, Flatten, Payload, Certain, Telling, Checkable, After, OneWrite, TotalSize, Replay, Replied,
      StartsAre, Cause;
    ghost var flash0, log0, chunk := dev.flash, dev.log, Max(opts.chunk, 1);
    ghost var all := PartitionSteps(parts, pac, opts.verifyReadback);
    ghost var certain, live := Certain(flash0, parts, opts), Checkable(dev.corrupt, flash0, parts, pac, opts);
    ghost var spoiled := opts.verifyReadback && dev.corrupt && Telling(flash0, parts, pac, opts);
    var written := 0;
    RanNothing(dev.drops, chunk, log0, all);
    NothingWritten(flash0, parts, pac, false);
    NoStarts(dev.log[|log0|..], parts, pac, false);
    for i := 0 to |parts|
      invariant dev.Idle() && dev.pdlLog == old(dev.pdlLog)
      invariant log0 <= dev.log && Only(dev.log[|log0|..], STAGE_TYPES + {READ_FLASH})
      invariant StartsAre(dev.log[|log0|..], parts, pac, false)
      invariant AllPresent(parts[..i], pac) && written == TotalSize(parts[..i])
      invariant certain ==> dev.flash == After(flash0, parts[..i], pac, false)
      invariant live ==> Ran(dev.drops, chunk, log0, dev.log, Flatten(all[..i]), None)
      invariant spoiled ==> forall k | 0 <= k < i :: parts[k].size == 0
    {
      var e := parts[i];
      assert e in parts;
      NextPartition(dev.corrupt, flash0, dev.flash, parts, pac, opts, i);
      ghost var log1 := dev.log;
      var did := FlashPartition(dev, e, pac, opts);
      MoreStarts(log0, log1, dev.log, parts, e, pac, false);
      if did.Err? {
        CauseMore(did.error, [e], parts, pac, opts.verifyReadback);
      }
      assert dev.log[|log0|..] == log1[|log0|..] + dev.log[|log1|..];
      if live {
        RanNext(dev.drops, chunk, log0, log1, dev.log, all, i, Why(did));
      }
      if did.Err? {
        return Err(did.error);
      }
      written := written + did.value;
    }
    assert parts[..|parts|] == parts && all[..|all|] == all;
    r := Ok(written);
  }

  lemma NothingWritten(flash: Flash, entries: seq<Entry>, pac: Data, marker: bool)
    ensures After(flash, entries[..0], pac, marker) == flash && TotalSize(entries[..0]) == 0
    ensures AgreeBeyond(flash, flash, entries)
  {
  }

  // ---------------------------------------------------------------- format

  /** One erase per operation: its address, and the four bytes of its parameter. */
  ghost predicate Erases(cmds: seq<Cmd>, erases: seq<EraseOp>)
  {
    && |cmds| == |erases|
    && forall i | 0 <= i < |cmds| ::
         && cmds[i].ty == ERASE_FLASH
         && (|erases[i].param| == 4 ==>
               && |cmds[i].data| == 8
               && GetBe32(cmds[i].data, 0) == erases[i].address && cmds[i].data[4..] == erases[i].param)
  }

  lemma EraseFields(erases: seq<EraseOp>)
    ensures Erases(EraseCmds(erases), erases)
  {
    hide BeBytes, GetBe32;
    forall i | 0 <= i < |erases| && |erases[i].param| == 4
      ensures var d := EraseCmds(erases)[i].data;
              |d| == 8 && GetBe32(d, 0) == erases[i].address && d[4..] == erases[i].param
    {
      var d := Be32(erases[i].address) + erases[i].param;
      assert d[0..4] == Be32(erases[i].address);
      Words32(d, 0, erases[i].address);
    }
  }

  method EraseAll(dev: MockTransport, erases: seq<EraseOp>, ghost chunk: nat) returns (r: Result<(), FlashError>)
    requires dev.Idle() && chunk > 0
    modifies dev
    ensures dev.Idle() && dev.pdlLog == old(dev.pdlLog) && dev.flash == old(dev.flash)
    ensures r.Ok? ==> dev.log == old(dev.log) + EraseCmds(erases)
    ensures Ran(dev.drops, chunk, old(dev.log), dev.log, Flatten(EraseSteps(erases)), Why(r))
    ensures r.Err? ==> r.error == TIMED_OUT
  {
    hide Ran, Run, Flatten, BeBytes, Replay, Replied;
    ghost var log0, all, cmds := dev.log, EraseSteps(erases), EraseCmds(erases);
    RanNothing(dev.drops, chunk, log0, all);
    for i := 0 to |erases|
      invariant dev.Idle() && dev.pdlLog == old(dev.pdlLog) && dev.flash == old(dev.flash)
      invariant dev.log == log0 + cmds[..i]
      invariant Ran(dev.drops, chunk, log0, dev.log, Flatten(all[..i]), None)
    {
      ghost var log1 := dev.log;
      r := StepCommand(dev, ERASE_FLASH, Be32(erases[i].address) + erases[i].param, chunk);
      RanNext(dev.drops, chunk, log0, log1, dev.log, all, i, Why(r));
      if r.Err? {
        return;
      }
    }
    assert cmds[..|cmds|] == cmds && all[..|all|] == all;
    r := Ok(());
  }

  /** Two flashes that agree wherever none of the entries lies. */
  ghost predicate AgreeBeyond(f: Flash, g: Flash, entries: seq<Entry>)
  {
    forall a: U32 | Beyond(entries, a) :: AgreeAt(f, g, a)
  }

  lemma NextMarker(flash0: Flash, flash1: Flash, flash2: Flash, markers: seq<Entry>, pac: Data, i: nat)
    requires i < |markers|
    requires AgreeBeyond(flash1, flash0, markers) && AgreeExcept(flash2, flash1, markers[i].address)
    ensures AgreeBeyond(flash2, flash0, markers)
    ensures After(flash0, markers[..i + 1], pac, true)
         == Put(After(flash0, markers[..i], pac, true), markers[i].address, ImageOf(markers[i], pac, true))
    ensures TotalSize(markers[..i + 1]) == TotalSize(markers[..i]) + markers[i].size
  {
    hide After, ImageOf;
    assert markers[..i + 1] == markers[..i] + [markers[i]];
    AfterOne(flash0, markers[..i], pac, true, markers[i]);
    assert markers[..i + 1][..i] == markers[..i];
    forall a: U32 | Beyond(markers, a)
      ensures AgreeAt(flash2, flash0, a)
    {
      assert AgreeAt(flash1, flash0, a) && markers[i] in markers;
    }
  }

  method WriteMarkers(dev: MockTransport, markers: seq<Entry>, pac: Data, chunk: nat)
    returns (r: Result<nat, FlashError>)
    requires dev.Idle()
    modifies dev
    ensures dev.Idle() && dev.pdlLog == old(dev.pdlLog)
    ensures old(dev.log) <= dev.log && Only(dev.log[|old(dev.log)|..], STAGE_TYPES)
    ensures StartsAre(dev.log[|old(dev.log)|..], markers, pac, true)
    ensures AgreeBeyond(dev.flash, old(dev.flash), markers)
    ensures r.Ok? ==> AllPresent(markers, pac) && r.value == TotalSize(markers)
    ensures r.Err? ==> Cause(r.error, markers, pac, false)
    ensures r.Ok? && AllFit(markers, Max(chunk, 1)) ==> dev.flash == After(old(dev.flash), markers, pac, true)
    ensures Ran(dev.drops, Max(chunk, 1), old(dev.log), dev.log, Flatten(MarkerSteps(markers, pac)), Why(r))
  {
    hide Ran, Run, Flatten, Payload, After, WriteStep, TotalSize, AgreeBeyond, NvFixed, AgreeExcept, Replay,
      Replied, StartsAre;
    ghost var flash0, log0, size := dev.flash, dev.log, Max(chunk, 1);
    ghost var all, fits := MarkerSteps(markers, pac), AllFit(markers, size);
    var written := 0;
    RanNothing(dev.drops, size, log0, all);
    NothingWritten(flash0, markers, pac, true);
    NoStarts(dev.log[|log0|..], markers, pac, true);
    for i := 0 to |markers|
      invariant dev.Idle() && dev.pdlLog == old(dev.pdlLog)
      invariant log0 <= dev.log && Only(dev.log[|log0|..], STAGE_TYPES)
      invariant StartsAre(dev.log[|log0|..], markers, pac, true)
      invariant AgreeBeyond(dev.flash, flash0, markers)
      invariant AllPresent(markers[..i], pac) && written == TotalSize(markers[..i])
      invariant fits ==> dev.flash == After(flash0, markers[..i], pac, true)
      invariant Ran(dev.drops, size, log0, dev.log, Flatten(all[..i]), None)
    {
      var e := markers[i];
      assert e in markers;
      ghost var flash1, log1 := dev.flash, dev.log;
      var did := WriteEntry(dev, e, pac, true, chunk);
      NextMarker(flash0, flash1, dev.flash, markers, pac, i);
      MoreStarts(log0, log1, dev.log, markers, e, pac, true);
      assert dev.log[|log0|..] == log1[|log0|..] + dev.log[|log1|..];
      RanNext(dev.drops, size, log0, log1, dev.log, all, i, Why(did));
      if did.Err? {
        return Err(did.error);
      }
      written := written + did.value;
    }
    assert markers[..|markers|] == markers && all[..|all|] == all;
    r := Ok(written);
  }

  /** The erases and then the markers, if asked for. */
  method Format(dev: MockTransport, plan: FlashPlan, pac: Data, opts: Options)
    returns (r: Result<nat, FlashError>, ghost erases: seq<Cmd>, ghost markers: seq<Cmd>)
    requires dev.Idle()
    modifies dev
    ensures dev.Idle() && dev.pdlLog == old(dev.pdlLog)
    ensures Ran(dev.drops, Max(opts.chunk, 1), old(dev.log), dev.log, FormatSteps(plan, pac, opts), Why(r))
    ensures r.Ok? ==>
              && dev.log == (old(dev.log) + erases) + markers
              && Only(markers, STAGE_TYPES) && StartsAre(markers, plan.dataMarkers, pac, true)
              && erases == (if opts.format then EraseCmds(plan.erases) else [])
              && (!opts.format ==> markers == [])
    ensures r.Ok? ==> r.value == if opts.format then TotalSize(plan.dataMarkers) else 0
    ensures r.Err? ==> opts.format && Cause(r.error, plan.dataMarkers, pac, false)
    ensures r.Ok? ==> Formatted(old(dev.flash), dev.flash, plan, pac, opts)
  {
    hide Ran, Run, Flatten, EraseSteps, MarkerSteps, After, AgreeBeyond, Payload, EraseCmds, Replay, Replied,
      StartsAre;
    erases, markers := [], [];
    NoStarts([], plan.dataMarkers, pac, true);
    ghost var log0, chunk := dev.log, Max(opts.chunk, 1);
    ghost var all := [Flatten(EraseSteps(plan.erases)), Flatten(MarkerSteps(plan.dataMarkers, pac))];
    RanNothing(dev.drops, chunk, log0, all);
    if !opts.format {
      assert (log0 + []) + [] == log0;
      r := Ok(0);
      return;
    }
    var erased := EraseAll(dev, plan.erases, chunk);
    RanNext(dev.drops, chunk, log0, log0, dev.log, all, 0, Why(erased));
    if erased.Err? {
      r := Err(erased.error);
      return;
    }
    ghost var log1 := dev.log;
    r := WriteMarkers(dev, plan.dataMarkers, pac, opts.chunk);
    RanNext(dev.drops, chunk, log0, log1, dev.log, all, 1, Why(r));
    erases, markers := EraseCmds(plan.erases), dev.log[|log1|..];
    assert dev.log == log1 + markers;
  }

  /** What the format phase has left of a flash: the markers' images, and nothing else changed. */
  ghost predicate Formatted(before: Flash, after: Flash, plan: FlashPlan, pac: Data, opts: Options)
  {
    if !opts.format then after == before
    else
      && AllPresent(plan.dataMarkers, pac) && AgreeBeyond(after, before, plan.dataMarkers)
      && (AllFit(plan.dataMarkers, Max(opts.chunk, 1)) ==> after == After(before, plan.dataMarkers, pac, true))
  }

  // ---------------------------------------------------------------- the whole run

  datatype FlashOutcome = FlashOutcome(version: string, bytesWritten: nat)

  const RESET: seq<Cmd> := [Sent(NORMAL_RESET, [])]

  /** `NORMAL_RESET` is sent without waiting for a reply; there is none. */
  method Reset(dev: MockTransport, reset: bool, ghost chunk: nat)
    requires dev.Idle() && chunk > 0
    modifies dev
    ensures dev.Idle() && dev.pdlLog == old(dev.pdlLog) && dev.flash == old(dev.flash)
    ensures dev.log == old(dev.log) + if reset then RESET else []
    ensures Ran(dev.drops, chunk, old(dev.log), dev.log, ResetSteps(reset), None)
  {
    hide Ran, Run, Replay, Replied;
    ghost var log0 := dev.log;
    if reset {
      ReplayOne(Store(None, dev.seed), dev.log, RESET[0]);
      RanStep(dev.drops, chunk, log0, Fire(RESET[0]), None);
      Send(dev, NORMAL_RESET, []);
    } else {
      assert dev.log + [] == dev.log;
      RanNothing(dev.drops, chunk, log0, []);
    }
  }

  /** The five stretches of a successful run, in order. */
  datatype Stretches = Stretches(
    bringUp: seq<Cmd>, parts: seq<Cmd>, erases: seq<Cmd>, markers: seq<Cmd>, reset: seq<Cmd>)

  /** A log and the five stretches behind it. */
  function Extended(log: seq<Cmd>, s: Stretches): seq<Cmd>
  {
    log + s.bringUp + s.parts + s.erases + s.markers + s.reset
  }

  const BRING_UP_TYPES: set<U16> := STAGE_TYPES + {EXEC_DATA, CHANGE_BAUD}

  /**
   The loaders exactly, then only partition traffic, then exactly the erases, then only marker
   traffic, then the reset if there is one. No stretch but the third holds an erase and none but
   the last a reset.
   */
  ghost predicate InOrder(s: Stretches, plan: FlashPlan, pac: Data, opts: Options)
  {
    && s.bringUp == Plain(BringUpSteps(plan, pac, opts))
    && Only(s.bringUp, BRING_UP_TYPES)
    && Only(s.parts, STAGE_TYPES + {READ_FLASH}) && StartsAre(s.parts, plan.partitions, pac, false)
    && s.erases == (if opts.format then EraseCmds(plan.erases) else [])
    && (opts.format ==> Erases(s.erases, plan.erases))
    && Only(s.markers, STAGE_TYPES) && StartsAre(s.markers, plan.dataMarkers, pac, true)
    && (!opts.format ==> s.markers == [])
    && s.reset == (if opts.reset then RESET else [])
  }

  lemma OrderedSo(log0: seq<Cmd>, log: seq<Cmd>, parts: seq<Cmd>, erases: seq<Cmd>, markers: seq<Cmd>,
                  plan: FlashPlan, pac: Data, opts: Options) returns (s: Stretches)
    requires Only(Plain(BringUpSteps(plan, pac, opts)), BRING_UP_TYPES)
    requires Only(parts, STAGE_TYPES + {READ_FLASH}) && StartsAre(parts, plan.partitions, pac, false)
    requires erases == (if opts.format then EraseCmds(plan.erases) else [])
    requires Only(markers, STAGE_TYPES) && StartsAre(markers, plan.dataMarkers, pac, true)
    requires !opts.format ==> markers == []
    requires var boot := Plain(BringUpSteps(plan, pac, opts));
             log == log0 + boot + parts + erases + markers + if opts.reset then RESET else []
    ensures InOrder(s, plan, pac, opts) && log == Extended(log0, s) && s.bringUp == Plain(BringUpSteps(plan, pac, opts))
  {
    hide Plain, BringUpSteps, Only, StartsAre, Erases, EraseCmds;
    s := Stretches(Plain(BringUpSteps(plan, pac, opts)), parts, erases, markers, if opts.reset then RESET else []);
    EraseFields(plan.erases);
  }

  /** The bring-up has no retries: when it ends well, the device has executed exactly its commands. */
  lemma BringUpIsPlain(drops: set<nat>, chunk: nat, log0: seq<Cmd>, log: seq<Cmd>,
                       plan: FlashPlan, pac: Data, opts: Options)
    requires Ran(drops, chunk, log0, log, BringUpSteps(plan, pac, opts), None)
    ensures log == log0 + Plain(BringUpSteps(plan, pac, opts))
    ensures Only(Plain(BringUpSteps(plan, pac, opts)), BRING_UP_TYPES)
  {
    hide Run, Stage, StagePayload, BeBytes, Payload, Plain, Flatten;
    var steps, load, baud := BringUpSteps(plan, pac, opts), Fdl2Steps(plan.fdl2, pac), BaudSteps(opts.baud);
    FlattenIn([[Single(CONNECT, [])], Flatten(load), Flatten(baud)]);
    FlattenIn(load);
    FlattenIn(baud);
    if plan.fdl2.Some? && Payload(plan.fdl2.value, pac).Some? {
      var e, d := plan.fdl2.value, Payload(plan.fdl2.value, pac).value;
      StageOnly(StagePayload(e.address, |d|), d, FDL_LOAD_CHUNK);
    }
    forall step | step in steps
      ensures !step.Image? && StepOnly(step, BRING_UP_TYPES)
    {
      assert step == Single(CONNECT, []) || (exists s | s in load :: step in s) || (exists s | s in baud :: step in s);
    }
    RunPlain(drops, |log0|, chunk, steps);
    RunOnly(drops, |log0|, chunk, steps, BRING_UP_TYPES);
  }

  // ---------------------------------------------------------------- what a bring-up does

  /**
   The second loader is announced once, loaded in pieces of 2048 bytes, in its place when it is
   executed as command `k`, and connected to.
   */
  ghost predicate SecondLoaderRuns(st: Store, cmds: seq<Cmd>, e: Entry, pac: Data, k: nat)
  {
    && Payload(e, pac).Some? && k == 3 + (e.size + 2047) / 2048 && k + 1 < |cmds|
    && Announces(cmds[1], e.address, e.size)
    && Replay(st, cmds[..k]) == Store(None, st.flash[e.address := Payload(e, pac).value])
    && cmds[k] == Sent(EXEC_DATA, []) && cmds[k + 1] == Sent(CONNECT, [])
    && (forall i | 0 <= i < |cmds| && cmds[i].ty == START_DATA :: i == 1)
    && (forall i | 0 <= i < |cmds| && cmds[i].ty == EXEC_DATA :: i == k)
  }

  /** The rate is asked for, and connected at, last. */
  ghost predicate RateChanges(cmds: seq<Cmd>, baud: U32)
  {
    var n := |cmds|;
    && n >= 2 && cmds[n - 2].ty == CHANGE_BAUD && |cmds[n - 2].data| == 4 && GetBe32(cmds[n - 2].data, 0) == baud
    && cmds[n - 1] == Sent(CONNECT, [])
  }

  /** A connection, the second loader if there is one, the change of rate if asked for, and nothing else. */
  ghost predicate Booted(st: Store, cmds: seq<Cmd>, plan: FlashPlan, pac: Data, opts: Options)
  {
    var tail := if opts.baud.Some? then 2 else 0;
    && cmds != [] && cmds[0] == Sent(CONNECT, [])
    && (opts.baud.Some? ==> RateChanges(cmds, opts.baud.value))
    && match plan.fdl2
       case None => |cmds| == 1 + tail
       case Some(e) => |cmds| >= tail + 2 && SecondLoaderRuns(st, cmds, e, pac, |cmds| - tail - 2)
  }

  lemma PlainOne(step: Step, later: seq<Step>)
    requires step.Exchange?
    ensures Plain([]) == [] && Plain([step]) == step.cmds && Plain([step] + later) == step.cmds + Plain(later)
  {
    assert ([step] + later)[1..] == later && [step] + [] == [step];
  }

  lemma {:induction false} PlainAppend(a: seq<Step>, b: seq<Step>)
    ensures Plain(a + b) == Plain(a) + Plain(b)
    decreases |a|
  {
    if a == [] {
      assert a + b == b;
    } else {
      assert (a + b)[1..] == a[1..] + b;
      PlainAppend(a[1..], b);
    }
  }

  lemma FlattenThree<T>(a: seq<T>, b: seq<T>, c: seq<T>)
    ensures Flatten([a, b, c]) == a + (b + c) && Flatten([a, b]) == a + b
  {
    assert [a, b, c][1..] == [b, c] && [b, c][1..] == [c] && [c][1..] == [];
    assert [a, b][1..] == [b] && [b][1..] == [];
    var none: seq<seq<T>> := [];
    assert Flatten(none) == [];
    assert Flatten([c]) == c + [] == c && Flatten([b]) == b + [] == b;
    assert Flatten([b, c]) == b + c;
  }

  /** The commands of the second loader: a stage, its execution, a connection. */
  lemma Fdl2Cmds(e: Entry, pac: Data)
    requires Payload(e, pac).Some?
    ensures var d := Payload(e, pac).value;
            Plain(Flatten(Fdl2Steps(Some(e), pac)))
            == Stage(StagePayload(e.address, |d|), d, 2048) + [Sent(EXEC_DATA, []), Sent(CONNECT, [])]
  {
    hide Stage, StagePayload, Payload, Flatten, Plain;
    var d := Payload(e, pac).value;
    var stage := Exchange(Stage(StagePayload(e.address, |d|), d, 2048));
    var exec, connect := Single(EXEC_DATA, []), Single(CONNECT, []);
    FlattenThree([stage], [exec], [connect]);
    PlainOne(stage, [exec] + [connect]);
    PlainOne(exec, [connect]);
    PlainOne(connect, []);
  }

  lemma BaudCmds(baud: Option<U32>)
    ensures Plain(Flatten(BaudSteps(baud)))
         == if baud == None then [] else [Sent(CHANGE_BAUD, Be32(baud.value)), Sent(CONNECT, [])]
  {
    hide BeBytes, Plain;
    PlainOne(Single(CONNECT, []), []);
    if baud.Some? {
      hide Flatten;
      FlattenThree([Single(CHANGE_BAUD, Be32(baud.value))], [Single(CONNECT, [])], []);
      PlainOne(Single(CHANGE_BAUD, Be32(baud.value)), [Single(CONNECT, [])]);
    }
  }

  /** The commands of a bring-up, one loader after the other. */
  lemma BringUpCmds(plan: FlashPlan, pac: Data, opts: Options)
    ensures Plain(BringUpSteps(plan, pac, opts))
         == [Sent(CONNECT, [])]
            + (Plain(Flatten(Fdl2Steps(plan.fdl2, pac))) + Plain(Flatten(BaudSteps(opts.baud))))
  {
    hide Plain, Flatten, Fdl2Steps, BaudSteps;
    var load, baud := Flatten(Fdl2Steps(plan.fdl2, pac)), Flatten(BaudSteps(opts.baud));
    FlattenThree([Single(CONNECT, [])], load, baud);
    PlainOne(Single(CONNECT, []), load + baud);
    PlainAppend(load, baud);
  }

  /** Whatever the device holds, a bring-up that ends well has loaded and executed the second loader. */
  lemma BringUpBoots(st: Store, plan: FlashPlan, pac: Data, opts: Options)
    requires Loadable(plan, pac)
    ensures Booted(st, Plain(BringUpSteps(plan, pac, opts)), plan, pac, opts)
  {
    hide Plain, Flatten, Fdl2Steps, BaudSteps, Payload, BeBytes, GetBe32, SecondLoaderRuns, Stage;
    BringUpCmds(plan, pac, opts);
    BaudCmds(opts.baud);
    var tail := Plain(Flatten(BaudSteps(opts.baud)));
    if opts.baud.Some? {
      assert Be32(opts.baud.value)[0..4] == Be32(opts.baud.value);
      Words32(Be32(opts.baud.value), 0, opts.baud.value);
    }
    match plan.fdl2 {
      case None =>
        assert Plain(Flatten(Fdl2Steps(None, pac))) == [] by { NothingPlain(pac); }
      case Some(e) =>
        Fdl2Cmds(e, pac);
        LoaderRuns(st, e, pac, tail);
    }
  }

  lemma NothingPlain(pac: Data)
    ensures Plain(Flatten(Fdl2Steps(None, pac))) == []
  {
  }

  /** Behind a connection and in front of anything that is neither a start nor an execution. */
  lemma LoaderRuns(st: Store, e: Entry, pac: Data, tail: seq<Cmd>)
    requires Payload(e, pac).Some? && Only(tail, {CHANGE_BAUD, CONNECT})
    ensures var d := Payload(e, pac).value;
            var load := Stage(StagePayload(e.address, |d|), d, 2048) + [Sent(EXEC_DATA, []), Sent(CONNECT, [])];
            var cmds := [Sent(CONNECT, [])] + (load + tail);
            SecondLoaderRuns(st, cmds, e, pac, |cmds| - |tail| - 2)
  {
    hide Stage, StagePayload, Announces, Pieces, Apply;
    var d := Payload(e, pac).value;
    var start := StagePayload(e.address, |d|);
    var stage, connect := Stage(start, d, 2048), [Sent(CONNECT, [])];
    var load := stage + [Sent(EXEC_DATA, []), Sent(CONNECT, [])];
    var cmds := connect + (load + tail);
    var k := |cmds| - |tail| - 2;
    StageIsAttempt(start, d, 2048);
    StageLength(start, d);
    StageStartFields(e.address, |d|);
    assert cmds[..k] == connect + stage;
    LoaderStored(st, e.address, d);
    assert forall i | 0 < i < k :: cmds[i] == stage[i - 1];
    forall i | k + 1 < i < |cmds|
      ensures cmds[i].ty in {CHANGE_BAUD, CONNECT}
    {
      assert cmds[i] == tail[i - k - 2] && cmds[i] in tail;
    }
  }

  lemma StageLength(start: Data, d: Data)
    ensures |Stage(start, d, 2048)| == 2 + (|d| + 2047) / 2048
  {
    hide Pieces;
    PieceCount(d);
    MidstPrefix(Pieces(d, 2048), 0);
  }

  lemma LoaderStored(st: Store, addr: U32, d: Data)
    ensures Replay(st, [Sent(CONNECT, [])] + Stage(StagePayload(addr, |d|), d, 2048))
         == Store(None, st.flash[addr := d])
  {
    hide Stage;
    var connect, start := [Sent(CONNECT, [])], StagePayload(addr, |d|);
    assert [] + connect == connect;
    ReplayOne(st, [], Sent(CONNECT, []));
    ReplayAppend(st, connect, Stage(start, d, 2048));
    AddressFirst(addr, Be32(Wrap32(|d|)));
    StageEffect(st, start, addr, d, 2048);
    StoredIntact(d, 2048);
  }

  /** The entries whose payloads a run needs. */
  function Involved(plan: FlashPlan, opts: Options): seq<Entry>
  {
    Loaders(plan) + plan.partitions + if opts.format then plan.dataMarkers else []
  }

  lemma InvolvedCauses(error: FlashError, plan: FlashPlan, pac: Data, opts: Options)
    ensures Cause(error, Loaders(plan), pac, false) ==> Cause(error, Involved(plan, opts), pac, opts.verifyReadback)
    ensures Cause(error, plan.partitions, pac, opts.verifyReadback) ==>
              Cause(error, Involved(plan, opts), pac, opts.verifyReadback)
    ensures opts.format && Cause(error, plan.dataMarkers, pac, false) ==>
              Cause(error, Involved(plan, opts), pac, opts.verifyReadback)
  {
    hide Cause;
    CauseMore(error, Loaders(plan), Involved(plan, opts), pac, opts.verifyReadback);
    CauseMore(error, plan.partitions, Involved(plan, opts), pac, opts.verifyReadback);
    if opts.format {
      CauseMore(error, plan.dataMarkers, Involved(plan, opts), pac, opts.verifyReadback);
    }
  }

  /**
   The whole run. `written` names the flash between partitions and format, `s` the commands
   executed, stretch by stretch.
   */
  method RunPlan(dev: MockTransport, plan: FlashPlan, pac: Data, opts: Options, due: nat -> bool)
    returns (r: Result<FlashOutcome, FlashError>, ghost written: Flash, ghost s: Stretches)
    requires dev.PdlIdle() && PdlLink.Timely(dev.banner, due)
    modifies dev
    // FDL1 is delivered and executed, or missing and nothing happens.
    ensures Payload(plan.fdl1, pac) == None ==> r == Err(NoPayloadFor(plan.fdl1.fileId)) && dev.log == old(dev.log)
    ensures Payload(plan.fdl1, pac).Some? ==>
              && dev.Idle()
              && dev.pdlLog == old(dev.pdlLog) + PdlMessages(plan.fdl1.address, Payload(plan.fdl1, pac).value)
    // After success: every payload was there, and so is what the run stores, whatever was withheld.
    ensures r.Ok? ==>
              && Loadable(plan, pac) && AllPresent(plan.partitions, pac)
              && (Certain(AfterBringUp(old(dev.flash), plan, pac), plan.partitions, opts) ==>
                    written == After(AfterBringUp(old(dev.flash), plan, pac), plan.partitions, pac, false))
              && Formatted(written, dev.flash, plan, pac, opts)
    ensures r.Ok? ==>
              && r.value.version == VersionText(dev.banner)
              && r.value.bytesWritten
                 == TotalSize(plan.partitions) + if opts.format then TotalSize(plan.dataMarkers) else 0
    // The order of the commands, whatever was withheld, retried or read back.
    ensures r.Ok? ==> dev.log == Extended(old(dev.log), s) && InOrder(s, plan, pac, opts)
    ensures r.Ok? ==> Booted(old(Store(dev.cur, dev.flash)), s.bringUp, plan, pac, opts)
    // A failure names what failed.
    ensures r.Err? ==> Cause(r.error, Involved(plan, opts), pac, opts.verifyReadback)
    // The commands executed are exactly the trace, which also decides success.
    ensures Payload(plan.fdl1, pac).Some?
            && Checkable(dev.corrupt, AfterBringUp(old(dev.flash), plan, pac), plan.partitions, pac, opts) ==>
              Ran(dev.drops, Max(opts.chunk, 1), old(dev.log), dev.log, RunSteps(plan, pac, opts), Why(r))
    // A corrupted read-back never passes for a good flash.
    ensures opts.verifyReadback && dev.corrupt
            && Telling(AfterBringUp(old(dev.flash), plan, pac), plan.partitions, pac, opts) ==>
              (exists e | e in plan.partitions :: e.size != 0) ==> r.Err?
  {
    hide Ran, Run, Flatten, Payload, PartitionSteps, FormatSteps, BringUpSteps, ResetSteps, Checkable, Certain, After,
      Telling, PdlMessages, Formatted, AfterBringUp, Plain, EraseCmds, TotalSize, Loadable, AllPresent, Only,
      Replay, Replied, VersionText, PdlLink.Timely, StartsAre, Erases, Booted, Cause,
      Involved, InOrder, Extended, MockTransport.Valid, MockTransport.Idle, MockTransport.PdlIdle;
    ghost var st0, flash0, log0 := Store(dev.cur, dev.flash), dev.flash, dev.log;
    ghost var chunk, phases := Max(opts.chunk, 1), Phases(plan, pac, opts);
    ghost var live := Checkable(dev.corrupt, AfterBringUp(flash0, plan, pac), plan.partitions, pac, opts);
    s, written := Stretches([], [], [], [], []), map[];
    RanNothing(dev.drops, chunk, log0, phases);
    var version := BringUp(dev, pac, plan, opts, due);
    ghost var log1 := dev.log;
    if Payload(plan.fdl1, pac).Some? {
      RanNext(dev.drops, chunk, log0, log0, log1, phases, 0, Why(version));
    }
    if version.Err? {
      InvolvedCauses(version.error, plan, pac, opts);
      r := Err(version.error);
      return;
    }
    var parts := FlashPartitions(dev, plan.partitions, pac, opts);
    ghost var log2 := dev.log;
    written := dev.flash;
    if live {
      RanNext(dev.drops, chunk, log0, log1, log2, phases, 1, Why(parts));
    }
    if parts.Err? {
      InvolvedCauses(parts.error, plan, pac, opts);
      r := Err(parts.error);
      return;
    }
    ghost var erases, markers;
    var formatted;
    formatted, erases, markers := Format(dev, plan, pac, opts);
    ghost var log3 := dev.log;
    if live {
      RanNext(dev.drops, chunk, log0, log2, log3, phases, 2, Why(formatted));
    }
    if formatted.Err? {
      InvolvedCauses(formatted.error, plan, pac, opts);
      r := Err(formatted.error);
      return;
    }
    Reset(dev, opts.reset, chunk);
    if live {
      RanNext(dev.drops, chunk, log0, log3, dev.log, phases, 3, None);
    }
    BringUpIsPlain(dev.drops, chunk, log0, log1, plan, pac, opts);
    BringUpBoots(st0, plan, pac, opts);
    assert log2 == log1 + log2[|log1|..];
    s := OrderedSo(log0, dev.log, log2[|log1|..], erases, markers, plan, pac, opts);
    r := Ok(FlashOutcome(version.value, parts.value + formatted.value));
  }
}
