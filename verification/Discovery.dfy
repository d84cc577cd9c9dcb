/**
 Reading a device whose layout is unknown: discovering the flash size by probing, and dumping.
 */
module Discovery {
  import opened Bytes
  import opened Bsl
  import opened Device
  import opened Session
  import opened Link
  import opened Pac
  import opened Plan
  import opened Flasher
  import PdlLink

  const GRAN: nat := 0x1_0000
  const CAP: nat := 0x800_0000
  const FIRST_STEP: nat := 0x10_0000

  // ---------------------------------------------------------------- the search, for any predicate

  /** The size found, and how many probes that took. */
  datatype Search = Search(size: nat, probes: nat)

  function Probed(s: Search): Search { s.(probes := s.probes + 1) }

  /** Half way, rounded down to the granularity. */
  function Mid(lo: nat, hi: nat): nat
    requires lo <= hi
  {
    lo + ((hi - lo) / 2 - (hi - lo) / 2 % GRAN)
  }

  /** Binary search between a readable `lo` and the end `hi`. */
  function Narrow(p: nat -> bool, lo: nat, hi: nat): Search
    requires lo <= hi
    decreases hi - lo
  {
    if hi - lo <= GRAN || Mid(lo, hi) == lo then Search(hi, 0)
    else
      var mid := Mid(lo, hi);
      Probed(if p(mid) then Narrow(p, mid, hi) else Narrow(p, lo, mid))
  }

  /** Doubling from `s` until something is not readable or the cap is reached. */
  function Grow(p: nat -> bool, lo: nat, s: nat): Search
    requires lo < s <= CAP
    decreases CAP - s
  {
    if s >= CAP then Narrow(p, lo, CAP)
    else Probed(if p(s) then Grow(p, s, Min(2 * s, CAP)) else Narrow(p, lo, s))
  }

  function Discovered(p: nat -> bool): Option<Search>
  {
    if !p(0) then None else Some(Probed(Grow(p, 0, FIRST_STEP)))
  }

  /** `size` closes a readable granule and, short of the cap, is itself not readable. */
  ghost predicate IsEdge(p: nat -> bool, size: nat)
  {
    && 0x1_0000 <= size <= 0x800_0000 && size % 0x1_0000 == 0
    && p(size - 0x1_0000)
    && (size == 0x800_0000 || !p(size))
  }

  lemma MidBetween(lo: nat, hi: nat)
    requires lo % GRAN == 0 && hi % GRAN == 0 && hi - lo > GRAN
    ensures lo < Mid(lo, hi) < hi && Mid(lo, hi) % GRAN == 0
  {
    assert (hi - lo) % GRAN == 0;
    assert hi - lo >= 2 * GRAN;
  }

  lemma {:induction false} NarrowFindsEdge(p: nat -> bool, lo: nat, hi: nat)
    requires lo < hi <= CAP && lo % GRAN == 0 && hi % GRAN == 0
    requires p(lo) && (hi == CAP || !p(hi))
    ensures IsEdge(p, Narrow(p, lo, hi).size)
    decreases hi - lo
  {
    if hi - lo > GRAN {
      MidBetween(lo, hi);
      if p(Mid(lo, hi)) {
        NarrowFindsEdge(p, Mid(lo, hi), hi);
      } else {
        NarrowFindsEdge(p, lo, Mid(lo, hi));
      }
    } else {
      assert hi - lo == GRAN;
    }
  }

  lemma HalfWay(lo: nat, hi: nat, k: nat)
    requires k > 0 && lo % GRAN == 0 && hi == lo + GRAN * Pow2(k)
    ensures var half := GRAN * Pow2(k - 1);
            hi == lo + half + half && hi - lo > GRAN && half > 0 && (lo + half) % GRAN == 0 && Mid(lo, hi) == lo + half
  {
    var half := GRAN * Pow2(k - 1);
    assert hi - lo == 2 * half && half % GRAN == 0 && half >= GRAN;
  }

  lemma {:induction false} NarrowProbes(p: nat -> bool, lo: nat, hi: nat, k: nat)
    requires lo % GRAN == 0 && hi == lo + GRAN * Pow2(k)
    ensures Narrow(p, lo, hi).probes == k
    decreases k
  {
    if k == 0 {
    } else {
      var half := GRAN * Pow2(k - 1);
      HalfWay(lo, hi, k);
      hide Mid, Pow2;
      NarrowProbes(p, lo + half, hi, k - 1);
      NarrowProbes(p, lo, lo + half, k - 1);
    }
  }

  lemma StepSizes(m: nat)
    requires 4 <= m <= 11
    ensures GRAN * Pow2(m) <= CAP && (GRAN * Pow2(m) == CAP <==> m == 11)
    ensures GRAN * Pow2(m) % GRAN == 0
  {
    assert Pow2(4) == 16 && Pow2(8) == 256 && Pow2(11) == 2048;
    assert Pow2(5) == 32 && Pow2(6) == 64 && Pow2(7) == 128 && Pow2(9) == 512 && Pow2(10) == 1024;
  }

  lemma {:induction false} GrowFindsEdge(p: nat -> bool, lo: nat, m: nat)
    requires 4 <= m <= 11 && p(lo)
    requires lo == if m == 4 then 0 else GRAN * Pow2(m - 1)
    ensures lo < GRAN * Pow2(m) <= CAP
    ensures var found := Grow(p, lo, GRAN * Pow2(m)); IsEdge(p, found.size) && found.probes <= 21 - m
    decreases 11 - m
  {
    StepSizes(m);
    var s := GRAN * Pow2(m);
    assert m > 4 ==> s == 2 * lo;
    if m > 4 {
      StepSizes(m - 1);
    }
    if m == 11 {
      NarrowFindsEdge(p, lo, CAP);
      NarrowProbes(p, lo, CAP, 10);
    } else if p(s) {
      StepSizes(m + 1);
      GrowFindsEdge(p, s, m + 1);
    } else {
      NarrowFindsEdge(p, lo, s);
      NarrowProbes(p, lo, s, if m == 4 then 4 else m - 1);
    }
  }

  /** For any device whatever, discovery ends on an edge within 18 probes. */
  lemma DiscoveryFindsEdge(p: nat -> bool)
    ensures Discovered(p).Some? <==> p(0)
    ensures Discovered(p).Some? ==> IsEdge(p, Discovered(p).value.size) && Discovered(p).value.probes <= 18
  {
    if p(0) {
      assert GRAN * Pow2(4) == FIRST_STEP;
      GrowFindsEdge(p, 0, 4);
    }
  }

  function RoundUp(n: nat): nat { (n + GRAN - 1) / GRAN * GRAN }

  /** For a device readable exactly below `size`, the edge is unique. */
  lemma EdgeOfSize(p: nat -> bool, size: nat, edge: nat)
    requires forall x: nat :: x < CAP ==> (p(x) <==> x < size)
    requires IsEdge(p, edge)
    ensures edge == Min(CAP, RoundUp(size))
  {
    assert edge - GRAN < size;
    if edge < CAP {
      assert size <= edge;
    }
  }

  // ---------------------------------------------------------------- probing a device

  const PROBE_LEN: U32 := 16

  /** Which offsets from `base` the device answers. */
  ghost function Sees(flash: Flash, base: U32): nat -> bool
  {
    off => Served(flash, Wrap32(base + off))
  }

  /** Since `log0` the device has been sent nothing but reads. */
  ghost predicate ReadOn(log0: seq<Cmd>, log: seq<Cmd>)
  {
    log0 <= log && Only(log[|log0|..], {READ_FLASH})
  }

  lemma ReadMore(log0: seq<Cmd>, log1: seq<Cmd>, log: seq<Cmd>)
    ensures ReadOn(log, log)
    ensures ReadOn(log0, log1) && ReadOn(log1, log) ==> ReadOn(log0, log)
  {
    if ReadOn(log0, log1) && ReadOn(log1, log) {
      assert log[|log0|..] == log1[|log0|..] + log[|log1|..];
    }
  }

  method Probe(dev: MockTransport, addr: U32) returns (r: Result<bool, FlashError>)
    requires dev.Idle()
    modifies dev
    ensures dev.Idle() && dev.pdlLog == old(dev.pdlLog) && dev.flash == old(dev.flash)
    ensures dev.log == old(dev.log) + [ReadCmd(addr, PROBE_LEN)] && ReadOn(old(dev.log), dev.log)
    ensures r == if |dev.log| in dev.drops then Err(TIMED_OUT) else Ok(Served(dev.flash, addr))
  {
    hide GetBe32, Message, ServedBy, Replay, Replied;
    var p := Be32(addr);
    p := p + Be32(PROBE_LEN);
    p := p + Be32(0);
    ReplayOne(Store(None, dev.seed), dev.log, ReadCmd(addr, PROBE_LEN));
    ReadCmdFields(addr, PROBE_LEN);
    Send(dev, READ_FLASH, p);
    var got := Recv(dev, dev.Reply());
    match got {
      case Err(e) => r := Err(InBsl(e));
      case Ok(reply) => r := Ok(reply.cmd == REP_READ_FLASH);
    }
  }

  /** A search that has made some probes and will go on as `later`. */
  ghost predicate Towards(total: Search, made: int, later: Search)
  {
    total.size == later.size && total.probes == made + later.probes
  }

  method DiscoverFlashSize(dev: MockTransport, base: U32) returns (r: Result<nat, FlashError>)
    requires dev.Idle()
    modifies dev
    ensures dev.Idle() && dev.pdlLog == old(dev.pdlLog) && dev.flash == old(dev.flash)
    ensures ReadOn(old(dev.log), dev.log) && |dev.log| <= old(|dev.log|) + 18
    ensures r.Ok? ==> IsEdge(Sees(dev.flash, base), r.value)
    ensures r.Err? ==> || (r.error == TIMED_OUT && |dev.log| in dev.drops)
                       || (r.error == FlashSize && !Served(dev.flash, base))
  {
    hide Served, Narrow, Grow, IsEdge, Replay, Replied, ReadOn;
    ghost var p, n0, log0 := Sees(dev.flash, base), |dev.log|, dev.log;
    DiscoveryFindsEdge(p);
    var ok := Probe(dev, base);
    assert Wrap32(base + 0) == base && p(0) == Served(dev.flash, base);
    if ok.Err? {
      return Err(ok.error);
    }
    if !ok.value {
      return Err(FlashSize);
    }
    ghost var total := Discovered(p).value;
    ghost var log1 := dev.log;
    var failed, lo, hi := GrowUp(dev, base, p, n0, total);
    ReadMore(log0, log1, dev.log);
    if failed {
      return Err(TIMED_OUT);
    }
    ghost var log2 := dev.log;
    r := NarrowDown(dev, base, lo, hi, p, n0, total);
    ReadMore(log0, log2, dev.log);
  }

  /** Exponential search for the first offset that is not readable. */
  method GrowUp(dev: MockTransport, base: U32, ghost p: nat -> bool, ghost n0: nat, ghost total: Search)
    returns (failed: bool, lo: nat, hi: nat)
    requires dev.Idle() && p == Sees(dev.flash, base)
    requires n0 <= |dev.log| && Towards(total, |dev.log| - n0, Grow(p, 0, FIRST_STEP))
    modifies dev
    ensures dev.Idle() && dev.pdlLog == old(dev.pdlLog) && dev.flash == old(dev.flash)
    ensures ReadOn(old(dev.log), dev.log) && |dev.log| <= n0 + total.probes
    ensures failed ==> |dev.log| in dev.drops
    ensures lo <= hi && (!failed ==> Towards(total, |dev.log| - n0, Narrow(p, lo, hi)))
  {
    hide Served, Narrow, Grow, Replay, Replied, ReadOn;
    ghost var log0 := dev.log;
    ReadMore(log0, log0, log0);
    var s: nat := FIRST_STEP;
    lo, hi, failed := 0, CAP, false;
    ghost var m: nat := 4;
    StepSizes(4);
    while s < CAP
      invariant dev.Idle() && dev.pdlLog == old(dev.pdlLog) && dev.flash == old(dev.flash)
      invariant 4 <= m <= 11 && s == GRAN * Pow2(m) && lo < s <= CAP && hi == CAP && !failed
      invariant ReadOn(log0, dev.log) && |dev.log| >= n0 && Towards(total, |dev.log| - n0, Grow(p, lo, s))
      decreases CAP - s
    {
      GrowStep(p, lo, s, m);
      ghost var log1 := dev.log;
      var ok := Probe(dev, Wrap32(base + s));
      ReadMore(log0, log1, dev.log);
      assert p(s) == Served(dev.flash, Wrap32(base + s));
      if ok.Err? {
        failed := true;
        return;
      }
      if !ok.value {
        hi := s;
        return;
      }
      lo, s, m := s, 2 * s, m + 1;
    }
    GrowStep(p, lo, s, m);
  }

  lemma GrowStep(p: nat -> bool, lo: nat, s: nat, m: nat)
    requires 4 <= m <= 11 && s == GRAN * Pow2(m) && lo < s <= CAP
    ensures s < CAP ==> m < 11 && 2 * s == GRAN * Pow2(m + 1) <= CAP
    ensures s < CAP ==> Grow(p, lo, s) == Probed(if p(s) then Grow(p, s, 2 * s) else Narrow(p, lo, s))
    ensures s == CAP ==> Grow(p, lo, s) == Narrow(p, lo, CAP)
  {
    StepSizes(m);
    if m < 11 {
      StepSizes(m + 1);
    }
  }

  method NarrowDown(dev: MockTransport, base: U32, low: nat, high: nat,
                    ghost p: nat -> bool, ghost n0: nat, ghost total: Search)
    returns (r: Result<nat, FlashError>)
    requires dev.Idle() && low <= high && p == Sees(dev.flash, base)
    requires n0 <= |dev.log| && Towards(total, |dev.log| - n0, Narrow(p, low, high))
    modifies dev
    ensures dev.Idle() && dev.pdlLog == old(dev.pdlLog) && dev.flash == old(dev.flash)
    ensures ReadOn(old(dev.log), dev.log) && |dev.log| <= n0 + total.probes
    ensures r.Ok? ==> r.value == total.size
    ensures r.Err? ==> r.error == TIMED_OUT && |dev.log| in dev.drops
  {
    hide Served, Replay, Replied, ReadOn;
    ghost var log0 := dev.log;
    ReadMore(log0, log0, log0);
    var lo: nat, hi: nat := low, high;
    while hi - lo > GRAN
      invariant dev.Idle() && dev.pdlLog == old(dev.pdlLog) && dev.flash == old(dev.flash)
      invariant lo <= hi && ReadOn(log0, dev.log) && |dev.log| >= n0
      invariant Towards(total, |dev.log| - n0, Narrow(p, lo, hi))
      decreases hi - lo
    {
      var mid := Mid(lo, hi);
      if mid == lo {
        break;
      }
      ghost var log1 := dev.log;
      var ok := Probe(dev, Wrap32(base + mid));
      ReadMore(log0, log1, dev.log);
      assert p(mid) == Served(dev.flash, Wrap32(base + mid));
      if ok.Err? {
        return Err(ok.error);
      }
      if ok.value {
        lo := mid;
      } else {
        hi := mid;
      }
    }
    r := Ok(hi);
  }

  // ---------------------------------------------------------------- dumps

  /** Bring the device up to FDL2 before reading from it. */
  method Boot(dev: MockTransport, plan: FlashPlan, pac: Data, opts: Options, due: nat -> bool)
    returns (r: Result<string, FlashError>, ghost boot: seq<Cmd>)
    requires dev.PdlIdle() && PdlLink.Timely(dev.banner, due)
    modifies dev
    ensures r.Ok? ==> dev.Idle() && r.value == VersionText(dev.banner)
    ensures r.Ok? ==>
              && dev.log == old(dev.log) + boot && Only(boot, BRING_UP_TYPES)
              && Booted(old(Store(dev.cur, dev.flash)), boot, plan, pac, opts)
    ensures r.Ok? ==> dev.flash == AfterBringUp(old(dev.flash), plan, pac)
    ensures r.Err? ==> BootFailed(dev, plan, pac, r.error)
  {
    hide Flatten, Run, Payload, PdlMessages, AfterBringUp, Stage, StagePayload, BeBytes, Endures, Replay, Replied,
      Booted, Plain, Only;
    ghost var st0 := Store(dev.cur, dev.flash);
    ghost var chunk, log0, steps := Max(opts.chunk, 1), dev.log, BringUpSteps(plan, pac, opts);
    ghost var load, baud := Fdl2Steps(plan.fdl2, pac), BaudSteps(opts.baud);
    r := BringUp(dev, pac, plan, opts, due);
    boot := Plain(steps);
    if r.Ok? {
      BringUpIsPlain(dev.drops, chunk, log0, dev.log, plan, pac, opts);
      BringUpBoots(st0, plan, pac, opts);
    }
    RunEndsWellWhen(dev.drops, |log0|, chunk, steps);
    FlattenIn([[Single(CONNECT, [])], Flatten(load), Flatten(baud)]);
    FlattenIn(load);
    FlattenIn(baud);
  }

  /** The last reply was withheld, or a loader is not in the package. */
  ghost predicate BootFailed(dev: MockTransport, plan: FlashPlan, pac: Data, e: FlashError)
    reads dev
  {
    (e == TIMED_OUT && |dev.log| in dev.drops) || (e.NoPayloadFor? && !Loadable(plan, pac))
  }

  method Hang(dev: MockTransport, reset: bool)
    requires dev.Idle()
    modifies dev
    ensures dev.Idle() && dev.flash == old(dev.flash)
    ensures dev.log == old(dev.log) + if reset then RESET else []
  {
    hide Replay, Replied;
    if reset {
      ReplayOne(Store(None, dev.seed), dev.log, RESET[0]);
      Send(dev, NORMAL_RESET, []);
    } else {
      assert dev.log + [] == dev.log;
    }
  }

  /**
   What reading from a device makes it execute: the bring-up, then nothing but reads, then the reset
   if it was asked for.
   */
  ghost predicate OnlyRead(
    st: Store, log0: seq<Cmd>, log: seq<Cmd>, boot: seq<Cmd>, asked: seq<Cmd>,
    plan: FlashPlan, pac: Data, opts: Options)
  {
    && log == log0 + boot + asked + (if opts.reset then RESET else [])
    && Booted(st, boot, plan, pac, opts) && Only(boot, BRING_UP_TYPES) && Only(asked, {READ_FLASH})
  }

  /** Reads back each region; `wants` names what the booted device shows there. */
  method Dump(dev: MockTransport, plan: FlashPlan, pac: Data, regions: seq<(U32, U32)>, opts: Options,
              due: nat -> bool, ghost wants: seq<Data>)
    returns (r: Result<seq<Data>, FlashError>, ghost boot: seq<Cmd>, ghost asked: seq<Cmd>)
    requires dev.PdlIdle() && PdlLink.Timely(dev.banner, due) && |wants| == |regions|
    modifies dev
    ensures r.Ok? ==> |r.value| == |regions|
    // The device is left as it was booted, and reset exactly if asked for.
    ensures r.Ok? ==>
              && dev.Idle() && dev.flash == AfterBringUp(old(dev.flash), plan, pac)
              && OnlyRead(old(Store(dev.cur, dev.flash)), old(dev.log), dev.log, boot, asked, plan, pac, opts)
    ensures (forall i | 0 <= i < |regions| ::
               RegionShown(AfterBringUp(old(dev.flash), plan, pac), regions[i], wants[i])) ==>
              && (r.Ok? && !dev.corrupt ==> r.value == wants)
              && (r.Err? ==> BootFailed(dev, plan, pac, r.error))
  {
    hide AfterBringUp, Shows, Solid, Loadable, Replay, Replied, Booted;
    ghost var booted := AfterBringUp(dev.flash, plan, pac);
    asked := [];
    var version;
    version, boot := Boot(dev, plan, pac, opts, due);
    if version.Err? {
      r := Err(version.error);
      return;
    }
    ghost var log1 := dev.log;
    ReadMore(log1, log1, log1);
    var out: seq<Data> := [];
    for i := 0 to |regions|
      invariant dev.Idle() && dev.flash == booted && |out| == i
      invariant ReadOn(log1, dev.log)
      invariant !dev.corrupt && (forall k | 0 <= k < |regions| :: RegionShown(booted, regions[k], wants[k])) ==>
          out == wants[..i]
    {
      ghost var log2 := dev.log;
      var got := ReadFlash(dev, regions[i].0, regions[i].1, READBACK_CHUNK, wants[i]);
      ReadMore(log1, log2, dev.log);
      if got.Err? {
        r := Err(InBsl(got.error));
        return;
      }
      out := out + [got.value];
    }
    asked := dev.log[|log1|..];
    Hang(dev, opts.reset);
    r := Ok(out);
  }

  ghost predicate RegionShown(flash: Flash, region: (U32, U32), want: Data)
  {
    |want| == region.1 && Shows(flash, region.0, want)
  }

  /** The device shows `image` from `base` and nothing else up to the cap. */
  ghost predicate Alone(flash: Flash, base: U32, image: Data)
  {
    && image != [] && Shows(flash, base, image)
    && forall off: nat :: off < CAP ==> (Sees(flash, base)(off) <==> off < |image|)
  }

  lemma AloneWhenClear(flash: Flash, base: U32)
    requires base in flash && flash[base] != [] && Clear(flash, base, Max(|flash[base]|, CAP))
    ensures Alone(flash, base, flash[base])
  {
    hide Clear, Holds;
    var image := flash[base];
    ClearRegion(flash, base, image, Max(|image|, CAP));
    forall off: nat | off < CAP
      ensures Sees(flash, base)(off) <==> off < |image|
    {
      var a: U32 := base + off;
      assert Wrap32(a) == a && Sees(flash, base)(off) == Served(flash, a);
      if off < |image| {
        assert ByteAt(flash, base + off, image[off]);
      }
    }
  }

  datatype FullDump = FullDump(image: Data, size: nat)

  /**
   Size discovery, then the whole image in 1 KiB reads. For a device that shows one `image`, the
   size is the image's rounded up to 64 KiB and capped. When that is no more than there is to read,
   only a withheld reply can make it fail and the result is exactly those bytes; when it is more,
   the dump fails on the first byte that is not there.
   */
  method DumpFull(dev: MockTransport, plan: FlashPlan, pac: Data, base: U32, opts: Options, due: nat -> bool,
                  ghost image: Data)
    returns (r: Result<FullDump, FlashError>, ghost boot: seq<Cmd>, ghost asked: seq<Cmd>)
    requires dev.PdlIdle() && PdlLink.Timely(dev.banner, due)
    modifies dev
    // The device is left as it was booted, and reset exactly if asked for.
    ensures r.Ok? ==>
              && dev.Idle() && dev.flash == AfterBringUp(old(dev.flash), plan, pac)
              && OnlyRead(old(Store(dev.cur, dev.flash)), old(dev.log), dev.log, boot, asked, plan, pac, opts)
    ensures Alone(AfterBringUp(old(dev.flash), plan, pac), base, image) && !dev.corrupt ==>
              && (r.Ok? ==> r.value.size == Min(CAP, RoundUp(|image|)))
              && (Min(CAP, RoundUp(|image|)) <= |image| ==>
                    && (r.Ok? ==> r.value.image == image[..r.value.size])
                    && (r.Err? ==> BootFailed(dev, plan, pac, r.error)))
              && (base + Min(CAP, RoundUp(|image|)) <= 0x1_0000_0000 && r.Ok? ==> Min(CAP, RoundUp(|image|)) <= |image|)
  {
    hide AfterBringUp, Alone, Sees, IsEdge, RoundUp, Served, Loadable, Replay, Replied, Booted;
    ghost var booted := AfterBringUp(dev.flash, plan, pac);
    asked := [];
    var version;
    version, boot := Boot(dev, plan, pac, opts, due);
    if version.Err? {
      r := Err(version.error);
      return;
    }
    ghost var log1 := dev.log;
    var found := DiscoverFlashSize(dev, base);
    if Alone(booted, base, image) {
      AloneHasEdge(booted, base, image);
    }
    if found.Err? {
      r := Err(found.error);
      return;
    }
    var size := found.value;
    ghost var log2 := dev.log;
    var out := ReadWhole(dev, base, size, image);
    if out.Err? {
      r := Err(out.error);
      return;
    }
    ReadMore(log1, log2, dev.log);
    asked := dev.log[|log1|..];
    Hang(dev, opts.reset);
    r := Ok(FullDump(out.value, size));
  }

  lemma AloneHasEdge(flash: Flash, base: U32, image: Data)
    requires Alone(flash, base, image)
    ensures Served(flash, base)
    ensures forall size | IsEdge(Sees(flash, base), size) :: size == Min(CAP, RoundUp(|image|))
  {
    hide RoundUp, Shows, Served, IsEdge;
    assert Wrap32(base + 0) == base;
    assert Sees(flash, base)(0) == Served(flash, base);
    forall size | IsEdge(Sees(flash, base), size)
      ensures size == Min(CAP, RoundUp(|image|))
    {
      EdgeOfSize(Sees(flash, base), |image|, size);
    }
  }

  /** `size` bytes from `base` on, 1 KiB at a time. */
  method ReadWhole(dev: MockTransport, base: U32, size: nat, ghost image: Data) returns (r: Result<Data, FlashError>)
    requires dev.Idle()
    modifies dev
    ensures dev.Idle() && dev.flash == old(dev.flash) && ReadOn(old(dev.log), dev.log)
    ensures Alone(dev.flash, base, image) && !dev.corrupt && size <= |image| ==>
              && (r.Ok? ==> r.value == image[..size])
              && (r.Err? ==> r.error == TIMED_OUT && |dev.log| in dev.drops)
    ensures Alone(dev.flash, base, image) && !dev.corrupt && |image| < size <= CAP && base + size <= 0x1_0000_0000 ==>
              r.Err?
  {
    hide Shows, Solid, Alone, Ask, ReadCmds, Followed, Only, EndsAt, Replay, Replied;
    var out: Data := [];
    ghost var log0 := dev.log;
    ReadMore(log0, log0, log0);
    ghost var alone := Alone(dev.flash, base, image) && !dev.corrupt;
    ghost var exact := alone && size <= |image|;
    ghost var short := alone && |image| < size <= CAP && base + size <= 0x1_0000_0000;
    while |out| < size
      invariant dev.Idle() && dev.flash == old(dev.flash) && ReadOn(log0, dev.log)
      invariant exact ==> |out| <= size && out == image[..|out|]
      invariant short ==> |out| <= |image|
      decreases size - |out|
    {
      var off := |out|;
      var n := Min(size - off, READBACK_CHUNK);
      ghost var left := if exact || short then Min(n, |image| - off) else 0;
      ghost var want := if exact || short then image[off..off + left] else [];
      if alone {
        AlonePart(dev.flash, base, image, off, n);
      }
      ghost var log1 := dev.log;
      var chunk := ReadFlash(dev, Wrap32(base + off), n, READBACK_CHUNK, want);
      ReadMore(log0, log1, dev.log);
      if chunk.Err? {
        return Err(InBsl(chunk.error));
      }
      if chunk.value == [] {
        break;
      }
      out := out + chunk.value;
    }
    r := Ok(out);
  }

  /** A part of the image is shown, and what reaches beyond its end is not all served. */
  lemma AlonePart(flash: Flash, base: U32, image: Data, off: nat, n: nat)
    requires Alone(flash, base, image)
    ensures off + n <= |image| && off < |image| ==>
              Wrap32(base + off) == base + off && Shows(flash, base + off, image[off..off + n])
    ensures off <= |image| < off + n <= CAP && base + off + n <= 0x1_0000_0000 ==>
              Wrap32(base + off) == base + off && EndsAt(flash, base + off, |image| - off, n)
  {
    hide ByteAt, Served;
    if off + n <= |image| && off < |image| {
      var part := image[off..off + n];
      forall i | 0 <= i < |part|
        ensures ByteAt(flash, base + off + i, part[i])
      {
        assert ByteAt(flash, base + (off + i), image[off + i]);
      }
    } else if off <= |image| < off + n <= CAP && base + off + n <= 0x1_0000_0000 {
      forall a: U32 | base + off <= a < base + off + n
        ensures Served(flash, a) <==> a < base + |image|
      {
        assert Wrap32(base + (a - base)) == a;
        assert Sees(flash, base)(a - base) == Served(flash, a);
      }
    }
  }
}
