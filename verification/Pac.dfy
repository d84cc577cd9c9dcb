/**
 The `.pac` firmware package: fixed header, file table, payloads, two CRC-16-ARC values.
 */
module Pac {
  import opened Bytes
  import Checksum

  const HEADER_SIZE: nat := 2124
  const FILE_HEADER_SIZE: nat := 2580

  const OFF_PAC_SIZE: nat := 48
  const OFF_PRD_NAME: nat := 52
  const OFF_PRD_VERSION: nat := 564
  const OFF_FILE_COUNT: nat := 1076
  const OFF_FILE_OFFSET: nat := 1080
  const OFF_MODE: nat := 1084
  const OFF_FLASH_TYPE: nat := 1088
  const OFF_MAGIC: nat := 2116
  const OFF_CRC1: nat := 2120
  const OFF_CRC2: nat := 2122

  const FOFF_FILE_ID: nat := 4
  const FOFF_FILE_NAME: nat := 516
  const FOFF_DATA_SIZE: nat := 1540
  const FOFF_FLAG: nat := 1544
  const FOFF_DATA_OFFSET: nat := 1552
  const FOFF_OMIT: nat := 1556
  const FOFF_ADDRESS: nat := 1564

  /** Bytes per step of the streamed payload CRC. */
  const CRC_CHUNK: nat := 0x10_0000

  datatype Entry = Entry(
    fileId: string, fileName: string, size: U32, offset: U32, address: U32, flag: U32, omit: U32)

  function Payload(e: Entry, pac: Data): Option<Data>
  {
    if e.offset + e.size <= |pac| then Some(pac[e.offset..][..e.size]) else None
  }

  datatype Info = Info(
    version: string, productName: string, productVersion: string, size: U32, mode: U32,
    flashType: U32, magic: U32, headerCrcOk: bool, payloadCrcOk: Option<bool>, entries: seq<Entry>)

  predicate CrcOk(info: Info)
  {
    info.headerCrcOk && info.payloadCrcOk != Some(false)
  }

  datatype Error =
    | TooSmall(len: nat)
    | SizeMismatch(declared: nat, actual: nat)
    | TruncatedTable(index: nat)
    | OutOfRange(fileId: string, offset: nat, size: nat)

  /** One UTF-16 unit; a lone surrogate becomes the replacement character. */
  function Unit(u: U16): char
  {
    if 0xD800 <= u < 0xE000 then '\U{FFFD}' else u as char
  }

  /** The units from byte `i` up to the first NUL or the end. */
  function Utf16zFrom(raw: Data, i: nat): string
    decreases |raw| - i
  {
    if i + 1 >= |raw| || GetLe16(raw, i) == 0 then "" else [Unit(GetLe16(raw, i))] + Utf16zFrom(raw, i + 2)
  }

  function Utf16zOf(raw: Data): string { Utf16zFrom(raw, 0) }

  method Utf16z(raw: Data) returns (s: string)
    ensures s == Utf16zOf(raw)
  {
    s := "";
    var i := 0;
    while i + 1 < |raw|
      invariant 0 <= i <= |raw|
      invariant s + Utf16zFrom(raw, i) == Utf16zOf(raw)
    {
      var u := GetLe16(raw, i);
      if u == 0 {
        break;
      }
      s := s + [Unit(u)];
      i := i + 2;
    }
  }

  /** What the two bytes at `i` stand for. */
  ghost predicate IsUnit(raw: Data, i: nat, c: char)
  {
    && i + 2 <= |raw|
    && var unit := raw[i] as int + 0x100 * raw[i + 1] as int;
       unit != 0 && c == if 0xD800 <= unit <= 0xDFFF then '\U{FFFD}' else unit as char
  }

  /** The text is the units up to the first NUL or the end, with lone surrogates replaced. */
  lemma {:induction false} UnitsAre(raw: Data, i: nat)
    requires i <= |raw|
    ensures var n := |Utf16zFrom(raw, i)|;
            && i + 2 * n <= |raw|
            && (i + 2 * n + 1 < |raw| ==> raw[i + 2 * n] == 0 && raw[i + 2 * n + 1] == 0)
            && forall k | 0 <= k < n :: IsUnit(raw, i + 2 * k, Utf16zFrom(raw, i)[k])
    decreases |raw| - i
  {
    hide IsUnit;
    if i + 1 < |raw| && GetLe16(raw, i) != 0 {
      UnitsAre(raw, i + 2);
      UnitIs(raw, i);
      var s, rest := Utf16zFrom(raw, i), Utf16zFrom(raw, i + 2);
      forall k | 0 <= k < |s|
        ensures IsUnit(raw, i + 2 * k, s[k])
      {
        assert k > 0 ==> s[k] == rest[k - 1] && IsUnit(raw, i + 2 + 2 * (k - 1), rest[k - 1]);
      }
    }
  }

  lemma UnitIs(raw: Data, i: nat)
    requires i + 2 <= |raw| && GetLe16(raw, i) != 0
    ensures IsUnit(raw, i, Unit(GetLe16(raw, i)))
  {
  }

  /** The table entry whose 2580 bytes are `fh`. */
  function EntryOf(fh: Data): Entry
    requires |fh| == FILE_HEADER_SIZE
  {
    Entry(
      Utf16zOf(fh[FOFF_FILE_ID..FOFF_FILE_ID + 512]),
      Utf16zOf(fh[FOFF_FILE_NAME..FOFF_FILE_NAME + 512]),
      GetLe32(fh, FOFF_DATA_SIZE),
      GetLe32(fh, FOFF_DATA_OFFSET),
      GetLe32(fh, FOFF_ADDRESS),
      GetLe32(fh, FOFF_FLAG),
      GetLe32(fh, FOFF_OMIT))
  }

  /** The entries `idx..count` of the table at `table`, a marker being allowed to point anywhere. */
  function EntriesOf(pac: Data, table: nat, idx: nat, count: nat): Result<seq<Entry>, Error>
    decreases count - idx
  {
    if idx >= count then Ok([])
    else
      var base := idx * FILE_HEADER_SIZE + table;
      if base + FILE_HEADER_SIZE > |pac| then Err(TruncatedTable(idx))
      else
        var e := EntryOf(pac[base..base + FILE_HEADER_SIZE]);
        if e.size != 0 && Payload(e, pac) == None then Err(OutOfRange(e.fileId, e.offset, e.size))
        else
          var rest := EntriesOf(pac, table, idx + 1, count);
          if rest.Err? then rest else Ok([e] + rest.value)
  }

  function InfoOf(pac: Data, verify: bool, entries: seq<Entry>): Info
    requires |pac| >= HEADER_SIZE
  {
    Info(
      Utf16zOf(pac[..48]),
      Utf16zOf(pac[OFF_PRD_NAME..OFF_PRD_NAME + 512]),
      Utf16zOf(pac[OFF_PRD_VERSION..OFF_PRD_VERSION + 512]),
      GetLe32(pac, OFF_PAC_SIZE),
      GetLe32(pac, OFF_MODE),
      GetLe32(pac, OFF_FLASH_TYPE),
      GetLe32(pac, OFF_MAGIC),
      Checksum.Arc(pac[..OFF_CRC1]) == GetLe16(pac, OFF_CRC1),
      if verify then Some(Checksum.Arc(pac[HEADER_SIZE..]) == GetLe16(pac, OFF_CRC2)) else None,
      entries)
  }

  function TableOf(pac: Data): nat
    requires |pac| >= HEADER_SIZE
  {
    GetLe32(pac, OFF_FILE_OFFSET)
  }

  function CountOf(pac: Data): nat
    requires |pac| >= HEADER_SIZE
  {
    GetLe32(pac, OFF_FILE_COUNT)
  }

  function ParsedAs(pac: Data, verify: bool): Result<Info, Error>
  {
    if |pac| < HEADER_SIZE then Err(TooSmall(|pac|))
    else if GetLe32(pac, OFF_PAC_SIZE) != |pac| then Err(SizeMismatch(GetLe32(pac, OFF_PAC_SIZE), |pac|))
    else
      var entries := EntriesOf(pac, TableOf(pac), 0, CountOf(pac));
      if entries.Err? then Err(entries.error) else Ok(InfoOf(pac, verify, entries.value))
  }

  method ParseEntry(fh: Data) returns (e: Entry)
    requires |fh| == FILE_HEADER_SIZE
    ensures e == EntryOf(fh)
  {
    var id := Utf16z(fh[FOFF_FILE_ID..FOFF_FILE_ID + 512]);
    var name := Utf16z(fh[FOFF_FILE_NAME..FOFF_FILE_NAME + 512]);
    e := Entry(id, name, GetLe32(fh, FOFF_DATA_SIZE), GetLe32(fh, FOFF_DATA_OFFSET),
               GetLe32(fh, FOFF_ADDRESS), GetLe32(fh, FOFF_FLAG), GetLe32(fh, FOFF_OMIT));
  }

  function Before(done: seq<Entry>, rest: Result<seq<Entry>, Error>): Result<seq<Entry>, Error>
  {
    if rest.Err? then rest else Ok(done + rest.value)
  }

  method ParseEntries(pac: Data, table: nat, count: nat) returns (r: Result<seq<Entry>, Error>)
    ensures r == EntriesOf(pac, table, 0, count)
  {
    hide EntryOf, Payload;
    var entries: seq<Entry> := [];
    assert var all := EntriesOf(pac, table, 0, count); all.Ok? ==> [] + all.value == all.value;
    for idx := 0 to count
      invariant Before(entries, EntriesOf(pac, table, idx, count)) == EntriesOf(pac, table, 0, count)
    {
      ghost var rest := EntriesOf(pac, table, idx + 1, count);
      var base := idx * FILE_HEADER_SIZE + table;
      if base + FILE_HEADER_SIZE > |pac| {
        return Err(TruncatedTable(idx));
      }
      var e := ParseEntry(pac[base..base + FILE_HEADER_SIZE]);
      if e.size != 0 && Payload(e, pac) == None {
        return Err(OutOfRange(e.fileId, e.offset, e.size));
      }
      assert rest.Ok? ==> entries + ([e] + rest.value) == (entries + [e]) + rest.value;
      entries := entries + [e];
    }
    assert entries + [] == entries;
    r := Ok(entries);
  }

  /** The payload CRC, streamed in 1 MiB chunks, is the one-shot CRC. */
  method PayloadCrc(body: Data) returns (crc: U16)
    ensures crc == Checksum.Arc(body)
  {
    hide Checksum.ArcFrom;
    crc := 0;
    var off := 0;
    assert body[0..] == body;
    while off < |body|
      invariant 0 <= off <= |body|
      invariant Checksum.ArcFrom(crc, body[off..]) == Checksum.ArcFrom(0, body)
      decreases |body| - off
    {
      var n := Min(CRC_CHUNK, |body| - off);
      var chunk := body[off..off + n];
      assert body[off..] == chunk + body[off + n..];
      Checksum.ArcComposes(crc, chunk, body[off + n..]);
      crc := Checksum.Crc16ArcFrom(crc, chunk);
      off := off + n;
    }
    assert body[off..] == [];
    Checksum.ArcComposes(crc, [], []);
  }

  method Parse(pac: Data, verify: bool) returns (r: Result<Info, Error>)
    ensures r == ParsedAs(pac, verify)
  {
    if |pac| < HEADER_SIZE {
      return Err(TooSmall(|pac|));
    }
    var size := GetLe32(pac, OFF_PAC_SIZE);
    if size != |pac| {
      return Err(SizeMismatch(size, |pac|));
    }
    var headerCrc := Checksum.Crc16ArcFrom(0, pac[..OFF_CRC1]);
    var entries := ParseEntries(pac, GetLe32(pac, OFF_FILE_OFFSET), GetLe32(pac, OFF_FILE_COUNT));
    if entries.Err? {
      return Err(entries.error);
    }
    var payloadOk: Option<bool> := None;
    if verify {
      var crc := PayloadCrc(pac[HEADER_SIZE..]);
      payloadOk := Some(crc == GetLe16(pac, OFF_CRC2));
    }
    var version := Utf16z(pac[..48]);
    var name := Utf16z(pac[OFF_PRD_NAME..OFF_PRD_NAME + 512]);
    var productVersion := Utf16z(pac[OFF_PRD_VERSION..OFF_PRD_VERSION + 512]);
    r := Ok(Info(version, name, productVersion, size, GetLe32(pac, OFF_MODE), GetLe32(pac, OFF_FLASH_TYPE),
                 GetLe32(pac, OFF_MAGIC), headerCrc == GetLe16(pac, OFF_CRC1), payloadOk, entries.value));
  }

  // ---------------------------------------------------------------- what parsing guarantees

  /** The table is read entry by entry, and every data entry lies inside the file. */
  lemma {:induction false} EntriesAreInRange(pac: Data, table: nat, idx: nat, count: nat)
    requires EntriesOf(pac, table, idx, count).Ok?
    ensures var entries := EntriesOf(pac, table, idx, count).value;
            && |entries| == Max(0, count - idx)
            && (idx < count ==> count * FILE_HEADER_SIZE + table <= |pac|)
            && (forall e | e in entries && e.size != 0 :: Payload(e, pac).Some? && |Payload(e, pac).value| == e.size)
    decreases count - idx
  {
    hide EntryOf;
    if idx >= count {
    } else {
      EntriesAreInRange(pac, table, idx + 1, count);
    }
  }

  // ---------------------------------------------------------------- what a package builder writes

  function Utf16Le(s: string): Data
    requires forall i | 0 <= i < |s| :: s[i] as int < 0x1_0000
  {
    if s == "" then [] else Le16(s[0] as int) + Utf16Le(s[1..])
  }

  ghost predicate Encodable(s: string)
  {
    forall i | 0 <= i < |s| :: 0 < s[i] as int < 0x1_0000
  }

  /** A fixed text field of `size` bytes, padded with NULs. */
  ghost predicate IsField(field: Data, s: string, size: nat)
  {
    Encodable(s) && |Utf16Le(s)| <= size && field == Utf16Le(s) + Repeat(0, size - |Utf16Le(s)|)
  }

  lemma FieldIsRecovered(field: Data, s: string, size: nat)
    requires IsField(field, s, size)
    ensures Utf16zOf(field) == s
  {
    assert field[0..] == field;
    TextIsRecovered(field, 0, s, size - |Utf16Le(s)|);
  }

  /** Padded text is read back. */
  lemma {:induction false} TextIsRecovered(raw: Data, i: nat, s: string, pad: nat)
    requires forall k | 0 <= k < |s| :: 0 < s[k] as int < 0x1_0000
    requires i <= |raw| && raw[i..] == Utf16Le(s) + Repeat(0, pad)
    ensures Utf16zFrom(raw, i) == s
    decreases |s|
  {
    if s == "" {
      if i + 1 < |raw| {
        assert raw[i] == raw[i..][0] == 0 && raw[i + 1] == raw[i..][1] == 0;
      }
    } else {
      assert raw[i..i + 2] == raw[i..][..2] == Le16(s[0] as int);
      assert raw[i + 2..] == raw[i..][2..] == Utf16Le(s[1..]) + Repeat(0, pad);
      Words16(raw, i, s[0] as int);
      TextIsRecovered(raw, i + 2, s[1..], pad);
    }
  }

  /** A 2580-byte table slot that describes `e`, field by field as the format lays them out. */
  ghost predicate Describes(slot: Data, e: Entry)
  {
    && |slot| == 2580
    && IsField(slot[4..516], e.fileId, 512)
    && IsField(slot[516..1028], e.fileName, 512)
    && slot[1540..1544] == Le32(e.size)
    && slot[1544..1548] == Le32(e.flag)
    && slot[1552..1556] == Le32(e.offset)
    && slot[1556..1560] == Le32(e.omit)
    && slot[1564..1568] == Le32(e.address)
  }

  lemma EntryIsRecovered(slot: Data, e: Entry)
    requires Describes(slot, e)
    ensures EntryOf(slot) == e
  {
    hide IsField, Utf16zOf, LeBytes, GetLe32;
    FieldIsRecovered(slot[4..516], e.fileId, 512);
    FieldIsRecovered(slot[516..1028], e.fileName, 512);
    Words32(slot, 1540, e.size);
    Words32(slot, 1544, e.flag);
    Words32(slot, 1552, e.offset);
    Words32(slot, 1556, e.omit);
    Words32(slot, 1564, e.address);
  }

  /** The slots from `idx` on describe `entries` from `idx` on, and payloads lie in the file. */
  ghost predicate Tabled(pac: Data, table: nat, entries: seq<Entry>)
  {
    && table + |entries| * FILE_HEADER_SIZE <= |pac|
    && forall i | 0 <= i < |entries| ::
         && Describes(Slot(pac, table, i, |entries|), entries[i])
         && (entries[i].size != 0 ==> entries[i].offset + entries[i].size <= |pac|)
  }

  function Slot(pac: Data, table: nat, i: nat, count: nat): Data
    requires table + count * FILE_HEADER_SIZE <= |pac| && i < count
  {
    pac[i * FILE_HEADER_SIZE + table..i * FILE_HEADER_SIZE + table + FILE_HEADER_SIZE]
  }

  lemma {:induction false} EntriesAreRecovered(pac: Data, table: nat, entries: seq<Entry>, idx: nat)
    requires Tabled(pac, table, entries) && idx <= |entries|
    ensures EntriesOf(pac, table, idx, |entries|) == Ok(entries[idx..])
    decreases |entries| - idx
  {
    hide Describes, EntryOf;
    if idx < |entries| {
      EntryIsRecovered(Slot(pac, table, idx, |entries|), entries[idx]);
      EntriesAreRecovered(pac, table, entries, idx + 1);
      assert entries[idx..] == [entries[idx]] + entries[idx + 1..];
    } else {
      assert entries[idx..] == [];
    }
  }

  /** A 2124-byte header that describes `info` and says where the table is. */
  ghost predicate Headed(pac: Data, info: Info, table: U32)
  {
    && 2124 <= |pac| && info.size == |pac| && |info.entries| < 0x1_0000_0000
    && IsField(pac[0..48], info.version, 48)
    && pac[48..52] == Le32(info.size)
    && IsField(pac[52..564], info.productName, 512)
    && IsField(pac[564..1076], info.productVersion, 512)
    && pac[1076..1080] == Le32(|info.entries|)
    && pac[1080..1084] == Le32(table)
    && pac[1084..1088] == Le32(info.mode)
    && pac[1088..1092] == Le32(info.flashType)
    && pac[2116..2120] == Le32(info.magic)
  }

  /** What the checks of the two checksums find: what each covers, and where it is kept. */
  function Checked(info: Info, pac: Data, verify: bool): Info
    requires |pac| >= 2124
  {
    info.(headerCrcOk := Checksum.Arc(pac[..2120]) == GetLe16(pac, 2120),
          payloadCrcOk := if verify then Some(Checksum.Arc(pac[2124..]) == GetLe16(pac, 2122)) else None)
  }

  lemma HeaderIsRecovered(pac: Data, verify: bool, info: Info, table: U32)
    requires Headed(pac, info, table)
    ensures GetLe32(pac, OFF_PAC_SIZE) == |pac| && TableOf(pac) == table && CountOf(pac) == |info.entries|
    ensures InfoOf(pac, verify, info.entries) == Checked(info, pac, verify)
  {
    hide IsField, Utf16zOf, LeBytes, GetLe32, GetLe16, Checksum.Arc;
    assert pac[..48] == pac[0..48];
    FieldIsRecovered(pac[0..48], info.version, 48);
    FieldIsRecovered(pac[52..564], info.productName, 512);
    FieldIsRecovered(pac[564..1076], info.productVersion, 512);
    Words32(pac, 48, info.size);
    Words32(pac, 1076, |info.entries|);
    Words32(pac, 1080, table);
    Words32(pac, 1084, info.mode);
    Words32(pac, 1088, info.flashType);
    Words32(pac, 2116, info.magic);
  }

  /** Parsing recovers any package written to the format: its header fields, and its entries in table order. */
  lemma PackageIsRecovered(pac: Data, verify: bool, info: Info, table: U32)
    requires Headed(pac, info, table) && Tabled(pac, table, info.entries)
    ensures ParsedAs(pac, verify) == Ok(Checked(info, pac, verify))
  {
    hide Tabled, Headed, LeBytes, GetLe32, Utf16zFrom, EntriesOf, InfoOf, Checked;
    HasHeader(pac, info, table);
    HeaderIsRecovered(pac, verify, info, table);
    EntriesAreRecovered(pac, table, info.entries, 0);
    assert info.entries[0..] == info.entries;
  }

  lemma HasHeader(pac: Data, info: Info, table: U32)
    requires Headed(pac, info, table)
    ensures 2124 <= |pac| < 0x1_0000_0000
  {
  }

  // ---------------------------------------------------------------- what parsing refuses

  /** What is wrong with the `i`-th slot of the table, if anything. */
  ghost predicate Refused(pac: Data, table: nat, i: nat, e: Error)
  {
    var base := i * 2580 + table;
    match e
    case TruncatedTable(index) => index == i && base + 2580 > |pac|
    case OutOfRange(id, offset, size) =>
      && base + 2580 <= |pac|
      && var x := EntryOf(pac[base..base + 2580]);
         id == x.fileId && offset == x.offset && size == x.size != 0 && offset + size > |pac|
    case _ => false
  }

  /** A table is refused for the first slot that is cut off or whose payload reaches past the end. */
  lemma {:induction false} FirstProblem(pac: Data, table: nat, idx: nat, count: nat) returns (i: nat)
    requires EntriesOf(pac, table, idx, count).Err?
    ensures idx <= i < count && Refused(pac, table, i, EntriesOf(pac, table, idx, count).error)
    ensures forall j, e | idx <= j < i :: !Refused(pac, table, j, e)
    decreases count - idx
  {
    hide EntryOf;
    var base := idx * FILE_HEADER_SIZE + table;
    if Refused(pac, table, idx, EntriesOf(pac, table, idx, count).error) {
      i := idx;
    } else {
      i := FirstProblem(pac, table, idx + 1, count);
    }
  }

  /** When a package is refused, and for what. */
  lemma RefusedFor(pac: Data, verify: bool)
    ensures match ParsedAs(pac, verify)
            case Err(TooSmall(len)) => len == |pac| < 2124
            case Err(SizeMismatch(declared, actual)) =>
              |pac| >= 2124 && actual == |pac| && declared == GetLe32(pac, 48) != actual
            case Err(e) => |pac| == GetLe32(pac, 48) && exists i :: Refused(pac, GetLe32(pac, 1080), i, e)
            case Ok(_) => |pac| >= 2124 && GetLe32(pac, 48) == |pac|
  {
    hide EntriesOf, EntryOf, InfoOf, GetLe32;
    if |pac| >= 2124 && GetLe32(pac, 48) == |pac| && EntriesOf(pac, TableOf(pac), 0, CountOf(pac)).Err? {
      var i := FirstProblem(pac, TableOf(pac), 0, CountOf(pac));
      assert Refused(pac, GetLe32(pac, 1080), i, EntriesOf(pac, TableOf(pac), 0, CountOf(pac)).error);
    }
  }
}
