/**
 What whole runs guarantee: contents of the flash, and progress.
 */
module Runs {
  import opened Bytes
  import opened Bsl
  import opened Device
  import opened Session
  import opened Pac
  import opened Plan
  import opened Flasher
  import opened Link
  import PdlLink

  // ---------------------------------------------------------------- contents

  /** No later entry lies at the address of the `i`-th. */
  ghost predicate LastAt(entries: seq<Entry>, i: nat)
    requires i < |entries|
  {
    Beyond(entries[i + 1..], entries[i].address)
  }

  /** The image of `e` is in the file, and is what the flash holds at its address. */
  ghost predicate HoldsEntry(flash: Flash, e: Entry, pac: Data, marker: bool)
  {
    ImageOf(e, pac, marker).Some? && e.address in flash && flash[e.address] == ImageOf(e, pac, marker).value
  }

  /** The last entry at an address is what ends up there. */
  lemma {:induction false} LastIsStored(flash: Flash, entries: seq<Entry>, pac: Data, marker: bool, i: nat)
    requires i < |entries| && LastAt(entries, i) && ImageOf(entries[i], pac, marker).Some?
    ensures HoldsEntry(After(flash, entries, pac, marker), entries[i], pac, marker)
    decreases |entries|
  {
    hide ImageOf;
    var n := |entries| - 1;
    if i == n {
    } else {
      var later := entries[i + 1..];
      assert later[|later| - 1] == entries[n] && entries[..n][i + 1..] == later[..|later| - 1];
      LastIsStored(flash, entries[..n], pac, marker, i);
    }
  }

  /**
   What a successful run of a package's plan has left: each partition at its address, whatever the
   device held before, and with `format` each data marker, NV with its checksum refreshed. Writing
   the markers cannot disturb a partition.
   */
  lemma EverythingIsStored(booted: Flash, written: Flash, after: Flash, entries: seq<Entry>, pac: Data, opts: Options)
    requires PlanOf(entries).Some? && AllPresent(PlanOf(entries).value.partitions, pac)
    requires Formatted(written, after, PlanOf(entries).value, pac, opts)
    ensures var parts := PlanOf(entries).value.partitions;
            written == After(booted, parts, pac, false) ==>
              forall i | 0 <= i < |parts| && LastAt(parts, i) :: HoldsEntry(after, parts[i], pac, false)
    ensures var markers := PlanOf(entries).value.dataMarkers;
            opts.format && AllFit(markers, Max(opts.chunk, 1)) ==>
              forall i | 0 <= i < |markers| && LastAt(markers, i) :: HoldsEntry(after, markers[i], pac, true)
  {
    PlanIsSeparated(entries);
    hide PlanOf, After, Payload, NvFixed, IsNv, LastAt;
    var parts, markers := PlanOf(entries).value.partitions, PlanOf(entries).value.dataMarkers;
    if written == After(booted, parts, pac, false) {
      forall i | 0 <= i < |parts| && LastAt(parts, i)
        ensures HoldsEntry(after, parts[i], pac, false)
      {
        assert parts[i] in parts;
        LastIsStored(booted, parts, pac, false, i);
        assert opts.format ==> Beyond(markers, parts[i].address) && AgreeAt(after, written, parts[i].address);
      }
    }
    if opts.format && AllFit(markers, Max(opts.chunk, 1)) {
      forall i | 0 <= i < |markers| && LastAt(markers, i)
        ensures HoldsEntry(after, markers[i], pac, true)
      {
        assert markers[i] in markers;
        LastIsStored(written, markers, pac, true, i);
      }
    }
  }

  /** `Flasher::run` on a parsed package: the plan's run, or nothing at all without a plan. */
  method RunPac(dev: MockTransport, info: Info, pac: Data, opts: Options, due: nat -> bool)
    returns (r: Result<FlashOutcome, FlashError>, ghost s: Stretches)
    requires dev.PdlIdle() && PdlLink.Timely(dev.banner, due)
    modifies dev
    ensures PlanOf(info.entries) == None ==> r == Err(NoPlan) && dev.log == old(dev.log) && dev.PdlIdle()
    // Success leaves every partition and, with format, every data marker at its address.
    ensures r.Ok? ==>
              && PlanOf(info.entries).Some?
              && var plan := PlanOf(info.entries).value;
              && (Certain(AfterBringUp(old(dev.flash), plan, pac), plan.partitions, opts) ==>
                    forall i | 0 <= i < |plan.partitions| && LastAt(plan.partitions, i) ::
                      HoldsEntry(dev.flash, plan.partitions[i], pac, false))
              && (opts.format && AllFit(plan.dataMarkers, Max(opts.chunk, 1)) ==>
                    forall i | 0 <= i < |plan.dataMarkers| && LastAt(plan.dataMarkers, i) ::
                      HoldsEntry(dev.flash, plan.dataMarkers[i], pac, true))
              && r.value.version == VersionText(dev.banner)
              && r.value.bytesWritten
                 == TotalSize(plan.partitions) + (if opts.format then TotalSize(plan.dataMarkers) else 0)
              && dev.log == Extended(old(dev.log), s) && InOrder(s, plan, pac, opts)
              && Booted(old(Store(dev.cur, dev.flash)), s.bringUp, plan, pac, opts)
    ensures r.Err? ==>
              || r.error == NoPlan
              || (PlanOf(info.entries).Some?
                  && Cause(r.error, Involved(PlanOf(info.entries).value, opts), pac, opts.verifyReadback))
    ensures PlanOf(info.entries).Some? ==>
              var plan := PlanOf(info.entries).value;
              var booted := AfterBringUp(old(dev.flash), plan, pac);
              && (Payload(plan.fdl1, pac) == None ==>
                    r == Err(NoPayloadFor(plan.fdl1.fileId)) && dev.log == old(dev.log))
              // What was executed, and how it ended.
              && (Payload(plan.fdl1, pac).Some? && Checkable(dev.corrupt, booted, plan.partitions, pac, opts) ==>
                    Ran(dev.drops, Max(opts.chunk, 1), old(dev.log), dev.log, RunSteps(plan, pac, opts), Why(r)))
              // A read-back that the device corrupts never passes: no partition of a plan is empty.
              && (opts.verifyReadback && dev.corrupt && Telling(booted, plan.partitions, pac, opts) ==>
                    plan.partitions != [] ==> r.Err?)
  {
    hide PlanOf, Ran, Run, RunSteps, Certain, Checkable, Telling, AfterBringUp, Payload, TotalSize, InOrder, Extended,
      Booted, Cause, Involved,
      Formatted, After, AllPresent, LastAt, HoldsEntry, AllFit, PdlMessages, Replay, Replied, Classify, VersionText,
      PdlLink.Timely;
    s := Stretches([], [], [], [], []);
    var built := Build(info.entries);
    match built {
      case None => r := Err(NoPlan);
      case Some(plan) =>
        ghost var booted, written := AfterBringUp(dev.flash, plan, pac), dev.flash;
        PlanIsSeparated(info.entries);
        assert plan.partitions != [] ==> plan.partitions[0] in plan.partitions;
        r, written, s := RunPlan(dev, plan, pac, opts, due);
        if r.Ok? {
          EverythingIsStored(booted, written, dev.flash, info.entries, pac, opts);
        }
    }
  }

  /** A piece of exactly 65536 bytes has length field 0: the stage succeeds and stores nothing. */
  lemma OversizePieceVanishes(data: Data, chunk: nat)
    requires |data| == 0x1_0000 && chunk >= 0x1_0000
    ensures Stored(data, chunk) == []
  {
    assert Pieces(data, chunk) == [data];
    assert [data][1..] == [] && Session.Joined([]) == [];
    assert Session.Joined([data]) == Sized(data) + [];
  }

  // ---------------------------------------------------------------- progress

  lemma NothingMissing(plan: FlashPlan, pac: Data, opts: Options)
    requires Loadable(plan, pac) && AllPresent(plan.partitions, pac) && AllPresent(plan.dataMarkers, pac)
    ensures Missing !in RunSteps(plan, pac, opts)
  {
    hide Payload, Stage, NvFixed, StagePayload, NvStartPayload, EraseCmds, BeBytes, Flatten, ReadCmds, IsNv;
    var load, baud := Fdl2Steps(plan.fdl2, pac), BaudSteps(opts.baud);
    var parts := PartitionSteps(plan.partitions, pac, opts.verifyReadback);
    var erases, markers := EraseSteps(plan.erases), MarkerSteps(plan.dataMarkers, pac);
    FlattenIn(Phases(plan, pac, opts));
    FlattenIn([[Single(CONNECT, [])], Flatten(load), Flatten(baud)]);
    FlattenIn(load);
    FlattenIn(baud);
    FlattenIn(parts);
    FlattenIn([Flatten(erases), Flatten(markers)]);
    FlattenIn(erases);
    FlattenIn(markers);
    forall i | 0 <= i < |parts|
      ensures Missing !in parts[i]
    {
      var e := plan.partitions[i];
      assert e in plan.partitions;
      var d := Payload(e, pac).value;
      FlattenIn([[WriteStep(e, pac, false)], if opts.verifyReadback then [ReadbackStep(e, d)] else []]);
    }
    forall i | 0 <= i < |markers|
      ensures Missing !in markers[i]
    {
      assert plan.dataMarkers[i] in plan.dataMarkers;
    }
  }

  /**
   A package that parses has every payload its plan needs. Its run then ends well exactly when it
   endures the withheld replies, and in particular when none is withheld from here on.
   */
  lemma ParsedRunSucceeds(pac: Data, verify: bool, drops: set<nat>, n: nat, opts: Options)
    requires ParsedAs(pac, verify).Ok? && PlanOf(ParsedAs(pac, verify).value.entries).Some?
    ensures var plan := PlanOf(ParsedAs(pac, verify).value.entries).value;
            var chunk, steps := Max(opts.chunk, 1), RunSteps(plan, pac, opts);
            var end := Run(drops, n, chunk, steps).end;
            && Loadable(plan, pac)
            && (end == Done <==> Endures(drops, n, chunk, steps))
            && (end != Done ==> end == TimedOut)
            && ((forall j | j in drops :: j <= n) ==> end == Done)
  {
    hide EntriesOf, PlanOf, Classify, RunSteps, Run, Endures, Payload;
    var entries := ParsedAs(pac, verify).value.entries;
    var plan := PlanOf(entries).value;
    var steps := RunSteps(plan, pac, opts);
    EntriesAreInRange(pac, TableOf(pac), 0, CountOf(pac));
    PlanIsSeparated(entries);
    NothingMissing(plan, pac, opts);
    RunEndsWellWhen(drops, n, Max(opts.chunk, 1), steps);
    if forall j | j in drops :: j <= n {
      RunWithoutFaults(drops, n, Max(opts.chunk, 1), steps);
    }
  }
}
