/**
 Repackaging a device: splice its partitions into a copy of the reference package and refresh
 the two checksums, so that the package's own parser accepts the result.
 */
module Clone {
  import opened Bytes
  import opened Pac
  import opened Plan
  import Checksum
  import Device
  import Flasher
  import Discovery
  import PdlLink

  function Overwrite(s: Data, off: nat, d: Data): (r: Data)
    requires off + |d| <= |s|
    ensures |r| == |s|
    ensures forall k | 0 <= k < |s| :: r[k] == if off <= k < off + |d| then d[k - off] else s[k]
  {
    s[..off] + d + s[off + |d|..]
  }

  ghost predicate InRange(len: nat, parts: seq<Entry>)
  {
    forall e | e in parts :: e.offset + e.size <= len
  }

  ghost predicate FullSize(parts: seq<Entry>, dumps: seq<Data>)
  {
    |parts| == |dumps| && forall i | 0 <= i < |parts| :: |dumps[i]| == parts[i].size
  }

  /** The package with the first `n` partitions replaced. */
  ghost function Spliced(pac: Data, parts: seq<Entry>, dumps: seq<Data>, n: nat): (r: Data)
    requires InRange(|pac|, parts) && n <= |parts| && FullSize(parts, dumps)
    ensures |r| == |pac|
  {
    if n == 0 then pac
    else
      assert parts[n - 1] in parts;
      Overwrite(Spliced(pac, parts, dumps, n - 1), parts[n - 1].offset, dumps[n - 1])
  }

  /** Payload checksum first, then the header's; neither covers the checksum bytes. */
  function Refreshed(s: Data): (r: Data)
    requires |s| >= HEADER_SIZE
    ensures |r| == |s|
  {
    var t := Overwrite(s, OFF_CRC2, Le16(Checksum.Arc(s[HEADER_SIZE..])));
    Overwrite(t, OFF_CRC1, Le16(Checksum.Arc(t[..OFF_CRC1])))
  }

  // ---------------------------------------------------------------- in place

  method CopyInto(out: array<Byte>, off: nat, d: Data)
    requires off + |d| <= out.Length
    modifies out
    ensures out[..] == Overwrite(old(out[..]), off, d)
  {
    ghost var was := out[..];
    for i := 0 to |d|
      invariant forall k | 0 <= k < out.Length :: out[k] == if off <= k < off + i then d[k - off] else was[k]
    {
      out[off + i] := d[i];
    }
  }

  /** `e` is the first partition whose dump has the wrong size. */
  ghost predicate FirstShort(parts: seq<Entry>, dumps: seq<Data>, e: Entry)
    requires |parts| == |dumps|
  {
    exists k ::
      && 0 <= k < |parts| && parts[k] == e && |dumps[k]| != e.size
      && forall j | 0 <= j < k :: |dumps[j]| == parts[j].size
  }

  /** Returns the first partition whose dump has the wrong size, if any. */
  method Splice(out: array<Byte>, parts: seq<Entry>, dumps: seq<Data>) returns (short: Option<Entry>)
    requires InRange(out.Length, parts) && |parts| == |dumps|
    modifies out
    ensures short.Some? <==> !FullSize(parts, dumps)
    ensures short.Some? ==> FirstShort(parts, dumps, short.value)
    ensures short == None ==> out[..] == Spliced(old(out[..]), parts, dumps, |parts|)
  {
    ghost var was := out[..];
    ghost var full := FullSize(parts, dumps);
    for i := 0 to |parts|
      invariant forall k | 0 <= k < i :: |dumps[k]| == parts[k].size
      invariant full ==> out[..] == Spliced(was, parts, dumps, i)
    {
      if |dumps[i]| != parts[i].size {
        return Some(parts[i]);
      }
      assert parts[i] in parts;
      CopyInto(out, parts[i].offset, dumps[i]);
    }
    short := None;
  }

  method RefreshCrcs(out: array<Byte>)
    requires out.Length >= HEADER_SIZE
    modifies out
    ensures out[..] == Refreshed(old(out[..]))
  {
    assert out[HEADER_SIZE..] == out[..][HEADER_SIZE..];
    var crc2 := Checksum.Crc16ArcFrom(0, out[HEADER_SIZE..]);
    CopyInto(out, OFF_CRC2, Le16(crc2));
    assert out[..OFF_CRC1] == out[..][..OFF_CRC1];
    var crc1 := Checksum.Crc16ArcFrom(0, out[..OFF_CRC1]);
    CopyInto(out, OFF_CRC1, Le16(crc1));
  }

  // ---------------------------------------------------------------- why the result parses

  /** Both stored checksums match what they cover. */
  ghost predicate Consistent(r: Data)
    requires |r| >= HEADER_SIZE
  {
    && GetLe16(r, 2120) == Checksum.Arc(r[..2120])
    && GetLe16(r, 2122) == Checksum.Arc(r[2124..])
  }

  lemma RefreshedBytes(s: Data)
    requires |s| >= HEADER_SIZE
    ensures var r := Refreshed(s);
            && (forall k | 0 <= k < |s| && !(2120 <= k < 2124) :: r[k] == s[k])
            && Consistent(r)
  {
    var crc2 := Checksum.Arc(s[HEADER_SIZE..]);
    var t := Overwrite(s, OFF_CRC2, Le16(crc2));
    var crc1 := Checksum.Arc(t[..OFF_CRC1]);
    var r := Overwrite(t, OFF_CRC1, Le16(crc1));
    assert r[HEADER_SIZE..] == s[HEADER_SIZE..];
    assert r[..OFF_CRC1] == t[..OFF_CRC1];
    assert r[OFF_CRC2..OFF_CRC2 + 2] == Le16(crc2);
    assert r[OFF_CRC1..OFF_CRC1 + 2] == Le16(crc1);
    hide Checksum.Arc, Overwrite;
    Words16(r, OFF_CRC1, crc1);
    Words16(r, OFF_CRC2, crc2);
  }

  /** A package that parses at all passes the parser's checks exactly when it is consistent. */
  lemma PassesWhenConsistent(r: Data)
    requires |r| >= HEADER_SIZE && ParsedAs(r, true).Ok?
    ensures CrcOk(ParsedAs(r, true).value) <==> Consistent(r)
  {
  }

  /** The payloads lie past the header, off the file table and apart from each other. */
  ghost predicate Separate(pac: Data, parts: seq<Entry>)
    requires |pac| >= HEADER_SIZE
  {
    var table, end := TableOf(pac), TableOf(pac) + CountOf(pac) * FILE_HEADER_SIZE;
    && table >= HEADER_SIZE
    && (forall e | e in parts :: e.offset >= HEADER_SIZE && (e.offset + e.size <= table || end <= e.offset))
    && (forall i, j | 0 <= i < j < |parts| ::
          parts[i].offset + parts[i].size <= parts[j].offset || parts[j].offset + parts[j].size <= parts[i].offset)
  }

  ghost predicate Covered(parts: seq<Entry>, k: nat)
  {
    exists e | e in parts :: e.offset <= k < e.offset + e.size
  }

  lemma {:induction false} SplicedElsewhere(pac: Data, parts: seq<Entry>, dumps: seq<Data>, n: nat, k: nat)
    requires InRange(|pac|, parts) && n <= |parts| && FullSize(parts, dumps)
    requires k < |pac| && !Covered(parts, k)
    ensures Spliced(pac, parts, dumps, n)[k] == pac[k]
  {
    if n == 0 {
    } else {
      SplicedElsewhere(pac, parts, dumps, n - 1, k);
      assert parts[n - 1] in parts;
    }
  }

  /** Later partitions do not disturb an earlier one. */
  lemma {:induction false} SplicedPart(pac: Data, parts: seq<Entry>, dumps: seq<Data>, n: nat, i: nat, k: nat)
    requires |pac| >= HEADER_SIZE && Separate(pac, parts)
    requires InRange(|pac|, parts) && FullSize(parts, dumps)
    requires i < n <= |parts| && k < parts[i].size
    ensures parts[i] in parts && Spliced(pac, parts, dumps, n)[parts[i].offset + k] == dumps[i][k]
  {
    assert parts[i] in parts && parts[n - 1] in parts;
    if i == n - 1 {
    } else {
      SplicedPart(pac, parts, dumps, n - 1, i, k);
    }
  }

  lemma {:induction false} EntriesAgree(a: Data, b: Data, table: nat, idx: nat, count: nat)
    requires |a| == |b|
    requires forall k | table <= k < table + count * FILE_HEADER_SIZE && k < |a| :: a[k] == b[k]
    ensures EntriesOf(a, table, idx, count) == EntriesOf(b, table, idx, count)
    decreases count - idx
  {
    hide EntryOf;
    if idx >= count {
    } else {
      EntriesAgree(a, b, table, idx + 1, count);
      var base := idx * FILE_HEADER_SIZE + table;
      if base + FILE_HEADER_SIZE <= |a| {
        assert a[base..base + FILE_HEADER_SIZE] == b[base..base + FILE_HEADER_SIZE];
      }
    }
  }

  lemma HeaderAgrees(a: Data, b: Data)
    requires |a| == |b| >= HEADER_SIZE
    requires forall k | 0 <= k < OFF_CRC1 :: a[k] == b[k]
    ensures TableOf(a) == TableOf(b) && CountOf(a) == CountOf(b)
    ensures GetLe32(a, OFF_PAC_SIZE) == GetLe32(b, OFF_PAC_SIZE)
    ensures a[..OFF_CRC1] == b[..OFF_CRC1]
    ensures forall entries ::
              InfoOf(a, true, entries).(headerCrcOk := true, payloadCrcOk := None)
              == InfoOf(b, false, entries).(headerCrcOk := true, payloadCrcOk := None)
  {
    hide Checksum.Arc;
    assert a[..48] == b[..48];
    forall i | 0 <= i <= OFF_CRC1 - 4
      ensures GetLe32(a, i) == GetLe32(b, i)
    {
      assert a[i..i + 4] == b[i..i + 4];
    }
    assert a[OFF_PRD_NAME..OFF_PRD_NAME + 512] == b[OFF_PRD_NAME..OFF_PRD_NAME + 512];
    assert a[OFF_PRD_VERSION..OFF_PRD_VERSION + 512] == b[OFF_PRD_VERSION..OFF_PRD_VERSION + 512];
  }

  /** The finished package: partitions spliced in, checksums refreshed. */
  ghost function Golden(pac: Data, parts: seq<Entry>, dumps: seq<Data>): Data
    requires |pac| >= HEADER_SIZE && InRange(|pac|, parts) && FullSize(parts, dumps)
  {
    Refreshed(Spliced(pac, parts, dumps, |parts|))
  }

  lemma GoldenBytes(pac: Data, parts: seq<Entry>, dumps: seq<Data>)
    requires |pac| >= HEADER_SIZE && InRange(|pac|, parts) && FullSize(parts, dumps) && Separate(pac, parts)
    ensures var g := Golden(pac, parts, dumps);
            && (forall k | 0 <= k < |pac| && !Covered(parts, k) && !(2120 <= k < 2124) :: g[k] == pac[k])
            && (forall i | 0 <= i < |parts| :: Payload(parts[i], g) == Some(dumps[i]))
  {
    hide Refreshed, Spliced, Covered, Checksum.Arc, GetLe16;
    var spliced, g := Spliced(pac, parts, dumps, |parts|), Golden(pac, parts, dumps);
    RefreshedBytes(spliced);
    forall k | 0 <= k < |pac| && !Covered(parts, k) && !(2120 <= k < 2124)
      ensures g[k] == pac[k]
    {
      SplicedElsewhere(pac, parts, dumps, |parts|, k);
    }
    forall i | 0 <= i < |parts|
      ensures Payload(parts[i], g) == Some(dumps[i])
    {
      var e := parts[i];
      assert e in parts;
      var got := g[e.offset..][..e.size];
      forall k | 0 <= k < e.size
        ensures got[k] == dumps[i][k]
      {
        SplicedPart(pac, parts, dumps, |parts|, i, k);
      }
      assert got == dumps[i];
    }
  }

  /**
   Splicing full-size dumps into a parseable package gives a package that parses with good
   checksums, the same header fields and the same entries, even if the reference's checksums were
   stale; each dump is its partition's payload and no other byte has changed.
   */
  lemma GoldenParses(pac: Data, parts: seq<Entry>, dumps: seq<Data>)
    requires ParsedAs(pac, false).Ok?
    requires InRange(|pac|, parts) && FullSize(parts, dumps) && Separate(pac, parts)
    ensures var g := Golden(pac, parts, dumps);
            && ParsedAs(g, true).Ok?
            && CrcOk(ParsedAs(g, true).value)
            && ParsedAs(g, true).value.(headerCrcOk := true, payloadCrcOk := None)
               == ParsedAs(pac, false).value.(headerCrcOk := true, payloadCrcOk := None)
            && (forall i | 0 <= i < |parts| :: Payload(parts[i], g) == Some(dumps[i]))
            && (forall k | 0 <= k < |pac| && !Covered(parts, k) && !(2120 <= k < 2124) :: g[k] == pac[k])
  {
    hide Refreshed, Spliced, Checksum.Arc, EntriesOf, InfoOf;
    var g := Golden(pac, parts, dumps);
    GoldenBytes(pac, parts, dumps);
    HeaderAgrees(g, pac);
    EntriesAgree(g, pac, TableOf(pac), 0, CountOf(pac));
    RefreshedBytes(Spliced(pac, parts, dumps, |parts|));
    PassesWhenConsistent(g);
  }

  // ---------------------------------------------------------------- the command

  datatype CloneError =
    | Unparsed(error: Pac.Error)
    | NoPlan
    | NoPartitions
    | DumpFailed(flash: Flasher.FlashError)
    | ShortRead(fileId: string)
    | NotReparsed(error: Pac.Error)
    | CrcFailed

  /** Splice, refresh, and parse again before handing the package out. */
  method Repack(pac: Data, parts: seq<Entry>, dumps: seq<Data>) returns (r: Result<Data, CloneError>)
    requires |pac| >= HEADER_SIZE && InRange(|pac|, parts) && |parts| == |dumps|
    ensures r != Err(CrcFailed)
    ensures !FullSize(parts, dumps) ==> exists e :: FirstShort(parts, dumps, e) && r == Err(ShortRead(e.fileId))
    ensures FullSize(parts, dumps) && r.Err? ==>
              r.error.NotReparsed? && ParsedAs(Golden(pac, parts, dumps), true) == Err(r.error.error)
    ensures r.Ok? ==> FullSize(parts, dumps) && r.value == Golden(pac, parts, dumps)
    ensures r.Ok? ==> ParsedAs(r.value, true).Ok? && CrcOk(ParsedAs(r.value, true).value)
    ensures FullSize(parts, dumps) && ParsedAs(pac, false).Ok? && Separate(pac, parts) ==> r.Ok?
  {
    hide Refreshed, Spliced, ParsedAs;
    var out := new Byte[|pac|](i requires 0 <= i < |pac| => pac[i]);
    assert out[..] == pac;
    var short := Splice(out, parts, dumps);
    if short.Some? {
      return Err(ShortRead(short.value.fileId));
    }
    RefreshCrcs(out);
    var golden := out[..];
    RefreshedBytes(Spliced(pac, parts, dumps, |parts|));
    if ParsedAs(golden, true).Ok? {
      PassesWhenConsistent(golden);
    }
    if ParsedAs(pac, false).Ok? && Separate(pac, parts) {
      GoldenParses(pac, parts, dumps);
    }
    var check := Parse(golden, true);
    match check {
      case Err(e) => r := Err(NotReparsed(e));
      case Ok(info) => r := if !CrcOk(info) then Err(CrcFailed) else Ok(golden);
    }
  }

  /** The options `clone` uses. */
  const DEFAULTS: Flasher.Options := Flasher.Options(false, 2048, None, false, true)

  function Regions(parts: seq<Entry>): seq<(U32, U32)>
  {
    seq(|parts|, i requires 0 <= i < |parts| => (parts[i].address, parts[i].size))
  }

  /**
   Parse the reference, dump its partitions off the device, repackage. `wants` names what the
   booted device shows at the partitions' addresses; then only a withheld reply can make it fail.
   */
  method CloneDevice(dev: Device.MockTransport, pac: Data, due: nat -> bool, ghost wants: seq<Data>)
    returns (r: Result<Data, CloneError>, ghost boot: seq<Device.Cmd>, ghost asked: seq<Device.Cmd>)
    requires dev.PdlIdle() && PdlLink.Timely(dev.banner, due)
    modifies dev
    ensures r != Err(CrcFailed)
    ensures ParsedAs(pac, false).Err? ==> r == Err(Unparsed(ParsedAs(pac, false).error))
    ensures ParsedAs(pac, false).Ok? && PlanOf(ParsedAs(pac, false).value.entries) == None ==> r == Err(NoPlan)
    ensures r == Err(NoPartitions) <==>
              && ParsedAs(pac, false).Ok? && PlanOf(ParsedAs(pac, false).value.entries).Some?
              && PlanOf(ParsedAs(pac, false).value.entries).value.partitions == []
    ensures r.Ok? ==>
              && ParsedAs(r.value, true).Ok? && CrcOk(ParsedAs(r.value, true).value)
              && ParsedAs(pac, false).Ok? && PlanOf(ParsedAs(pac, false).value.entries).Some?
    // The device is only read from, and reset at the end.
    ensures r.Ok? ==>
              var plan := PlanOf(ParsedAs(pac, false).value.entries).value;
              && dev.flash == Flasher.AfterBringUp(old(dev.flash), plan, pac)
              && Discovery.OnlyRead(old(Device.Store(dev.cur, dev.flash)), old(dev.log), dev.log, boot, asked,
                                    plan, pac, DEFAULTS)
    ensures ParsedAs(pac, false).Ok? && PlanOf(ParsedAs(pac, false).value.entries).Some? && !dev.corrupt ==>
              var plan := PlanOf(ParsedAs(pac, false).value.entries).value;
              Cloneable(Flasher.AfterBringUp(old(dev.flash), plan, pac), pac, plan.partitions, wants) ==>
                && (r.Ok? ==> r.value == Golden(pac, plan.partitions, wants))
                && (r.Err? ==> r.error == DumpFailed(Flasher.TIMED_OUT) && |dev.log| in dev.drops)
  {
    hide PlanOf, ParsedAs, Golden, Flasher.AfterBringUp, Separate, Discovery.RegionShown, Device.Replay,
      Device.Replied;
    boot, asked := [], [];
    var info := Parse(pac, false);
    if info.Err? {
      r := Err(Unparsed(info.error));
      return;
    }
    var plan := Build(info.value.entries);
    if plan == None {
      r := Err(NoPlan);
      return;
    }
    var parts := plan.value.partitions;
    if parts == [] {
      r := Err(NoPartitions);
      return;
    }
    PlanIsSupplied(pac, info.value.entries, plan.value);
    ghost var shown := if |wants| == |parts| then wants else seq(|parts|, _ => []);
    var dumps;
    dumps, boot, asked := Discovery.Dump(dev, plan.value, pac, Regions(parts), DEFAULTS, due, shown);
    if dumps.Err? {
      r := Err(DumpFailed(dumps.error));
      return;
    }
    r := Repack(pac, parts, dumps.value);
  }

  /**
   There are partitions, their payloads lie apart, and a device with this flash shows a full-size
   dump for each.
   */
  ghost predicate Cloneable(flash: Device.Flash, pac: Data, parts: seq<Entry>, wants: seq<Data>)
  {
    && |pac| >= HEADER_SIZE && InRange(|pac|, parts) && Separate(pac, parts)
    && parts != [] && FullSize(parts, wants)
    && forall i | 0 <= i < |parts| :: Discovery.RegionShown(flash, (parts[i].address, parts[i].size), wants[i])
  }

  /** Parsing has checked that every payload of the plan lies in the file. */
  lemma PlanIsSupplied(pac: Data, entries: seq<Entry>, plan: FlashPlan)
    requires ParsedAs(pac, false).Ok? && ParsedAs(pac, false).value.entries == entries
    requires PlanOf(entries) == Some(plan)
    ensures |pac| >= HEADER_SIZE && InRange(|pac|, plan.partitions) && Flasher.Loadable(plan, pac)
  {
    hide PlanOf, Classify;
    EntriesAreInRange(pac, TableOf(pac), 0, CountOf(pac));
    PlanIsSeparated(entries);
  }
}
