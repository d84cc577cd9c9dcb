/**
 From a parsed package to an ordered flash plan.
 */
module Plan {
  import opened Bytes
  import opened Pac
  import Checksum

  const LOGICAL_ADDRESS_BASE: U32 := 0xFE00_0000

  datatype Role = Fdl1 | Fdl2 | Marker | Partition

  function Upper(c: char): char
  {
    if 'a' <= c <= 'z' then c - 'a' + 'A' else c
  }

  function UpperCase(s: string): string
  {
    seq(|s|, i requires 0 <= i < |s| => Upper(s[i]))
  }

  /** `c` is the capital letter or digit `u`, or the small form of that letter. */
  predicate Reads(c: char, u: char)
  {
    c == u || ('A' <= u <= 'Z' && c as int == u as int + 32)
  }

  /** `id` begins with `word`, in capitals or not. */
  predicate Begins(id: string, word: string)
  {
    |word| <= |id| && forall i | 0 <= i < |word| :: Reads(id[i], word[i])
  }

  predicate IsWord(id: string, word: string) { |id| == |word| && Begins(id, word) }

  predicate Capital(word: string) { forall i | 0 <= i < |word| :: !('a' <= word[i] <= 'z') }

  /** Comparing upper-case forms is comparing in any case. */
  lemma FoldedIs(id: string, word: string)
    requires Capital(word)
    ensures word <= UpperCase(id) <==> Begins(id, word)
    ensures UpperCase(id) == word <==> IsWord(id, word)
  {
    var up := UpperCase(id);
    forall i | 0 <= i < |word| && i < |id|
      ensures up[i] == word[i] <==> Reads(id[i], word[i])
    {
    }
    if Begins(id, word) {
      assert up[..|word|] == word;
    }
    if word <= up {
      assert forall i | 0 <= i < |word| :: up[i] == word[i];
    }
  }

  /** Markers first, then FDL2 before the `FDL` prefix that names FDL1. */
  function Classify(e: Entry): Role
  {
    if e.size == 0 || e.address == 0 || e.address >= LOGICAL_ADDRESS_BASE then Marker
    else
      var id := UpperCase(e.fileId);
      if "FDL2" <= id then Fdl2
      else if "HOST_FDL" <= id || "FDL" <= id then Fdl1
      else Partition
  }

  datatype EraseOp = EraseOp(fileId: string, address: U32, param: Data)

  /** `SYSF` for `FMT_FSSYS`, zero for `FLASH`. */
  function EraseParam(fileId: string): Option<Data>
  {
    var id := UpperCase(fileId);
    if id == "FMT_FSSYS" then Some([83, 89, 83, 70])
    else if id == "FLASH" then Some([0, 0, 0, 0])
    else None
  }

  /** Only two names ask for an erase, in any case; one sends `SYSF` along, the other four zeros. */
  lemma EraseParamIs(fileId: string)
    ensures EraseParam(fileId)
         == if IsWord(fileId, "FMT_FSSYS") then Some([0x53, 0x59, 0x53, 0x46])
            else if IsWord(fileId, "FLASH") then Some([0, 0, 0, 0])
            else None
  {
    FoldedIs(fileId, "FMT_FSSYS");
    FoldedIs(fileId, "FLASH");
  }

  predicate IsErase(e: Entry)
  {
    e.size == 0 && e.address >= LOGICAL_ADDRESS_BASE && EraseParam(e.fileId).Some?
  }

  /** Issue an erase for each marker that has one, the first for each address. */
  method EraseOps(entries: seq<Entry>) returns (ops: seq<EraseOp>)
    ensures ops == ErasesOf(entries)
  {
    ops := [];
    var seen: seq<U32> := [];
    assert entries[..|entries|] == entries;
    for i := 0 to |entries|
      invariant ops == ErasesOf(entries[..i])
      invariant |seen| == |ops| && forall k | 0 <= k < |ops| :: seen[k] == ops[k].address
    {
      var e := entries[i];
      assert entries[..i + 1][..i] == entries[..i];
      ghost var before := ops;
      assert (exists op :: op in before && op.address == e.address) <==> e.address in seen by {
        if e.address in seen {
          var k :| 0 <= k < |seen| && seen[k] == e.address;
          assert before[k] in before;
        }
      }
      if e.size == 0 && e.address >= LOGICAL_ADDRESS_BASE {
        var param := EraseParam(e.fileId);
        if param.Some? && e.address !in seen {
          seen := seen + [e.address];
          ops := ops + [EraseOp(e.fileId, e.address, param.value)];
        }
      }
    }
  }

  function ErasesOf(entries: seq<Entry>): seq<EraseOp>
  {
    if entries == [] then []
    else
      var before := ErasesOf(entries[..|entries| - 1]);
      var e := entries[|entries| - 1];
      if IsErase(e) && !(exists op | op in before :: op.address == e.address)
      then before + [EraseOp(e.fileId, e.address, EraseParam(e.fileId).value)]
      else before
  }

  ghost predicate DistinctAddresses(ops: seq<EraseOp>)
  {
    forall i, j | 0 <= i < j < |ops| :: ops[i].address != ops[j].address
  }

  /** Each address is erased once. */
  lemma {:induction false} ErasesAreDistinct(entries: seq<Entry>)
    ensures DistinctAddresses(ErasesOf(entries))
  {
    if entries == [] {
    } else {
      var before, ops := ErasesOf(entries[..|entries| - 1]), ErasesOf(entries);
      ErasesAreDistinct(entries[..|entries| - 1]);
      forall i, j | 0 <= i < j < |ops|
        ensures ops[i].address != ops[j].address
      {
        assert ops[i] == before[i] && before[i] in before;
      }
    }
  }

  /** A marker without payload that asks for an erase. */
  ghost predicate AsksErase(e: Entry)
  {
    && e.size == 0 && e.address >= 0xFE00_0000
    && (IsWord(e.fileId, "FMT_FSSYS") || IsWord(e.fileId, "FLASH"))
  }

  /** `op` comes from the `k`-th entry, the first that asks for an erase of its address. */
  ghost predicate FirstErase(entries: seq<Entry>, k: nat, op: EraseOp)
  {
    && k < |entries| && AsksErase(entries[k])
    && op.fileId == entries[k].fileId && op.address == entries[k].address
    && op.param == (if IsWord(op.fileId, "FMT_FSSYS") then [0x53, 0x59, 0x53, 0x46] else [0, 0, 0, 0])
    && forall j | 0 <= j < k :: !(AsksErase(entries[j]) && entries[j].address == op.address)
  }

  lemma AsksEraseIs(e: Entry)
    ensures IsErase(e) <==> AsksErase(e)
    ensures AsksErase(e) ==> IsWord(e.fileId, "FMT_FSSYS") || IsWord(e.fileId, "FLASH")
  {
    EraseParamIs(e.fileId);
  }

  /** What is first in the front of a table is first in the table. */
  lemma StaysFirst(entries: seq<Entry>, n: nat, k: nat, op: EraseOp)
    requires n <= |entries| && FirstErase(entries[..n], k, op)
    ensures k < n && FirstErase(entries, k, op)
  {
    hide AsksErase, IsWord;
    assert forall j | 0 <= j < n :: entries[..n][j] == entries[j];
  }

  /** An erase that no earlier one stands for. */
  lemma IsFirstErase(entries: seq<Entry>, n: nat)
    requires n < |entries| && IsErase(entries[n])
    requires !exists op | op in ErasesOf(entries[..n]) :: op.address == entries[n].address
    ensures var e := entries[n]; FirstErase(entries, n, EraseOp(e.fileId, e.address, EraseParam(e.fileId).value))
  {
    hide AsksErase, IsErase, IsWord;
    var e := entries[n];
    AsksEraseIs(e);
    EraseParamIs(e.fileId);
    ErasesCover(entries[..n]);
    forall j | 0 <= j < n
      ensures !(AsksErase(entries[j]) && entries[j].address == e.address)
    {
      AsksEraseIs(entries[j]);
      assert entries[..n][j] == entries[j] && entries[j] in entries[..n];
    }
  }

  /** The erases come from the first markers that ask for their addresses, in table order. */
  lemma {:induction false} ErasesAreFirst(entries: seq<Entry>) returns (at: seq<nat>)
    ensures |at| == |ErasesOf(entries)|
    ensures forall i | 0 <= i < |at| :: FirstErase(entries, at[i], ErasesOf(entries)[i])
    ensures forall i, j | 0 <= i < j < |at| :: at[i] < at[j]
  {
    hide FirstErase, EraseParam, IsErase;
    at := [];
    if entries != [] {
      var n := |entries| - 1;
      at := ErasesAreFirst(entries[..n]);
      forall i | 0 <= i < |at|
        ensures at[i] < n && FirstErase(entries, at[i], ErasesOf(entries[..n])[i])
      {
        StaysFirst(entries, n, at[i], ErasesOf(entries[..n])[i]);
      }
      if ErasesOf(entries) != ErasesOf(entries[..n]) {
        IsFirstErase(entries, n);
        at := at + [n];
      }
    }
  }

  /** No marker that asks for an erase is left without one at its address. */
  lemma {:induction false} ErasesCover(entries: seq<Entry>)
    ensures forall e | e in entries && IsErase(e) :: exists op | op in ErasesOf(entries) :: op.address == e.address
  {
    if entries == [] {
    } else {
      var front := entries[..|entries| - 1];
      var before, ops := ErasesOf(front), ErasesOf(entries);
      ErasesCover(front);
      forall x | x in entries && IsErase(x)
        ensures exists op | op in ops :: op.address == x.address
      {
        if x in front {
          var op :| op in before && op.address == x.address;
          assert op in ops;
        } else if ops != before {
          assert ops[|before|].address == x.address;
        }
      }
    }
  }

  function Select(entries: seq<Entry>, role: Role): seq<Entry>
  {
    if entries == [] then []
    else (if Classify(entries[0]) == role then [entries[0]] else []) + Select(entries[1..], role)
  }

  predicate IsDataMarker(e: Entry) { e.size != 0 && e.address >= LOGICAL_ADDRESS_BASE }

  function DataMarkers(entries: seq<Entry>): seq<Entry>
  {
    if entries == [] then []
    else (if IsDataMarker(entries[0]) then [entries[0]] else []) + DataMarkers(entries[1..])
  }

  predicate IsNv(fileId: string) { UpperCase(fileId) == "NV" }

  lemma NvIs(fileId: string)
    ensures IsNv(fileId) <==> IsWord(fileId, "NV")
  {
    FoldedIs(fileId, "NV");
  }

  // ---------------------------------------------------------------- the NV image

  function NvFixed(data: Data): (r: Data)
    ensures |r| == |data|
  {
    if |data| < 2 then data else Be16(Checksum.Arc(data[2..])) + data[2..]
  }

  /** Refresh the big-endian CRC-16-ARC in the first two bytes. */
  method NvFixCrc(data: Data) returns (out: Data)
    ensures out == NvFixed(data)
  {
    out := data;
    if |out| >= 2 {
      var crc := Checksum.Crc16ArcFrom(0, out[2..]);
      out := out[0 := crc / 0x100];
      out := out[1 := crc % 0x100];
      assert out == Be16(crc) + data[2..];
    }
  }

  /**
   A refreshed image passes the device's check, differs from the template in its checksum slot
   only, and refreshing again changes nothing; any other single change of it fails the check.
   */
  lemma NvFixedIsValid(data: Data, i: nat, b: Byte)
    requires |data| >= 2
    ensures var r := NvFixed(data);
            && GetBe16(r, 0) == Checksum.Arc(r[2..])
            && r[2..] == data[2..]
            && NvFixed(r) == r
            && (2 <= i < |r| && b != r[i] ==> GetBe16(r[i := b], 0) != Checksum.Arc(r[i := b][2..]))
  {
    var r, crc := NvFixed(data), Checksum.Arc(data[2..]);
    assert r[2..] == data[2..];
    assert r[0..2] == Be16(crc);
    Words16(r, 0, crc);
    if 2 <= i < |r| && b != r[i] {
      assert r[i := b][2..] == r[2..][i - 2 := b];
      Checksum.ByteChangeDetected(r[2..], i - 2, b);
      assert r[i := b][0..2] == Be16(crc);
      Words16(r[i := b], 0, crc);
    }
  }

  /** `addr | size | sum32`, all big-endian. */
  function NvStartPayload(addr: U32, data: Data): Data
  {
    Be32(addr) + Be32(Wrap32(|data|)) + Be32(Checksum.Sum32(data))
  }

  /** The payload carries the address, the size and the plain byte sum, each modulo 2^32. */
  lemma NvStartFields(addr: U32, data: Data)
    ensures var p := NvStartPayload(addr, data);
            && |p| == 12
            && GetBe32(p, 0) == addr
            && GetBe32(p, 4) == Wrap32(|data|)
            && GetBe32(p, 8) == Wrap32(Checksum.ByteSum(data))
  {
    hide Checksum.Sum32, Checksum.ByteSum, GetBe32, BeBytes;
    Checksum.Sum32IsByteSum(data);
    var p := NvStartPayload(addr, data);
    assert p[0..4] == Be32(addr) && p[4..8] == Be32(Wrap32(|data|)) && p[8..12] == Be32(Checksum.Sum32(data));
    Words32(p, 0, addr);
    Words32(p, 4, Wrap32(|data|));
    Words32(p, 8, Checksum.Sum32(data));
  }

  // ---------------------------------------------------------------- the plan

  datatype FlashPlan = FlashPlan(
    fdl1: Entry, fdl2: Option<Entry>, partitions: seq<Entry>, erases: seq<EraseOp>, dataMarkers: seq<Entry>)

  function First(entries: seq<Entry>): Option<Entry>
  {
    if entries == [] then None else Some(entries[0])
  }

  function PlanOf(entries: seq<Entry>): Option<FlashPlan>
  {
    match First(Select(entries, Fdl1))
    case None => None
    case Some(fdl1) =>
      Some(FlashPlan(fdl1, First(Select(entries, Fdl2)), Select(entries, Partition),
                     ErasesOf(entries), DataMarkers(entries)))
  }

  method Build(entries: seq<Entry>) returns (plan: Option<FlashPlan>)
    ensures plan == PlanOf(entries)
  {
    var fdl1 := First(Select(entries, Fdl1));
    if fdl1 == None {
      return None;
    }
    var erases := EraseOps(entries);
    plan := Some(FlashPlan(fdl1.value, First(Select(entries, Fdl2)), Select(entries, Partition),
                           erases, DataMarkers(entries)));
  }

  // ---------------------------------------------------------------- what the plan selects

  /** A payload at a physical address. */
  predicate Physical(e: Entry) { e.size != 0 && 0 < e.address < 0xFE00_0000 }

  predicate FirstLoader(e: Entry)
  {
    && Physical(e) && !Begins(e.fileId, "FDL2")
    && (Begins(e.fileId, "FDL") || Begins(e.fileId, "HOST_FDL"))
  }

  predicate SecondLoader(e: Entry) { Physical(e) && Begins(e.fileId, "FDL2") }

  predicate NoLoader(e: Entry)
  {
    Physical(e) && !Begins(e.fileId, "FDL") && !Begins(e.fileId, "HOST_FDL")
  }

  /** A payload at a logical address. */
  predicate LogicalPayload(e: Entry) { e.size != 0 && e.address >= 0xFE00_0000 }

  lemma RoleIs(e: Entry)
    ensures Classify(e) == Fdl1 <==> FirstLoader(e)
    ensures Classify(e) == Fdl2 <==> SecondLoader(e)
    ensures Classify(e) == Partition <==> NoLoader(e)
  {
    FoldedIs(e.fileId, "FDL2");
    FoldedIs(e.fileId, "FDL");
    FoldedIs(e.fileId, "HOST_FDL");
  }

  /**
   `picked` are the entries from index `from` on that satisfy `p`, each once and in table order; `at`
   says where they are.
   */
  ghost predicate Picks(entries: seq<Entry>, from: nat, p: Entry -> bool, picked: seq<Entry>, at: seq<nat>)
  {
    && |at| == |picked|
    && (forall i | 0 <= i < |at| :: from <= at[i] < |entries| && picked[i] == entries[at[i]] && p(entries[at[i]]))
    && (forall i, j | 0 <= i < j < |at| :: at[i] < at[j])
    && (forall k | from <= k < |entries| && p(entries[k]) :: k in at)
  }

  /** One entry in front of a selection. */
  lemma PicksNext(entries: seq<Entry>, from: nat, p: Entry -> bool, picked: seq<Entry>, at: seq<nat>)
    returns (all: seq<nat>)
    requires from < |entries| && Picks(entries, from + 1, p, picked, at)
    ensures Picks(entries, from, p, (if p(entries[from]) then [entries[from]] else []) + picked, all)
  {
    if p(entries[from]) {
      all := [from] + at;
      PicksTake(entries, from, p, picked, at);
    } else {
      all := at;
      assert [] + picked == picked;
    }
  }

  lemma PicksTake(entries: seq<Entry>, from: nat, p: Entry -> bool, picked: seq<Entry>, at: seq<nat>)
    requires from < |entries| && p(entries[from]) && Picks(entries, from + 1, p, picked, at)
    ensures Picks(entries, from, p, [entries[from]] + picked, [from] + at)
  {
    var all, more := [from] + at, [entries[from]] + picked;
    forall i | 0 <= i < |all|
      ensures from <= all[i] < |entries| && more[i] == entries[all[i]] && p(entries[all[i]])
    {
      assert i > 0 ==> all[i] == at[i - 1] && more[i] == picked[i - 1];
    }
    forall i, j | 0 <= i < j < |all|
      ensures all[i] < all[j]
    {
      assert all[j] == at[j - 1] && (i > 0 ==> all[i] == at[i - 1]);
    }
    forall k | from <= k < |entries| && p(entries[k])
      ensures k in all
    {
      assert k > from ==> k in at;
    }
  }

  lemma {:induction false} SelectPicks(entries: seq<Entry>, from: nat)
    returns (first: seq<nat>, second: seq<nat>, parts: seq<nat>, markers: seq<nat>)
    requires from <= |entries|
    ensures Picks(entries, from, FirstLoader, Select(entries[from..], Fdl1), first)
    ensures Picks(entries, from, SecondLoader, Select(entries[from..], Fdl2), second)
    ensures Picks(entries, from, NoLoader, Select(entries[from..], Partition), parts)
    ensures Picks(entries, from, LogicalPayload, DataMarkers(entries[from..]), markers)
    decreases |entries| - from
  {
    hide Picks, Classify, FirstLoader, SecondLoader, NoLoader;
    first, second, parts, markers := [], [], [], [];
    if from == |entries| {
      NothingPicked(entries, FirstLoader);
      NothingPicked(entries, SecondLoader);
      NothingPicked(entries, NoLoader);
      NothingPicked(entries, LogicalPayload);
    } else {
      RoleIs(entries[from]);
      var rest := entries[from + 1..];
      assert entries[from..][1..] == rest;
      first, second, parts, markers := SelectPicks(entries, from + 1);
      first := PicksNext(entries, from, FirstLoader, Select(rest, Fdl1), first);
      second := PicksNext(entries, from, SecondLoader, Select(rest, Fdl2), second);
      parts := PicksNext(entries, from, NoLoader, Select(rest, Partition), parts);
      markers := PicksNext(entries, from, LogicalPayload, DataMarkers(rest), markers);
    }
  }

  lemma NothingPicked(entries: seq<Entry>, p: Entry -> bool)
    ensures Picks(entries, |entries|, p, [], [])
  {
  }

  /** `found` is the first of the entries that satisfy `p`, if there is one. */
  ghost predicate IsFirst(entries: seq<Entry>, p: Entry -> bool, found: Option<Entry>)
  {
    match found
    case None => forall e | e in entries :: !p(e)
    case Some(e) => exists k :: 0 <= k < |entries| && entries[k] == e && p(e) && forall j | 0 <= j < k :: !p(entries[j])
  }

  lemma FirstPicked(entries: seq<Entry>, p: Entry -> bool, picked: seq<Entry>, at: seq<nat>)
    requires Picks(entries, 0, p, picked, at)
    ensures IsFirst(entries, p, First(picked))
  {
    if picked != [] {
      forall j | 0 <= j < at[0]
        ensures !p(entries[j])
      {
        assert forall i | 0 <= i < |at| :: at[0] <= at[i];
      }
      assert entries[at[0]] == picked[0] && p(picked[0]);
    } else {
      assert at == [];
    }
  }

  /**
   What a plan takes from the table, by the names and addresses of its entries: the first first-stage
   loader, without which there is no plan; the first second-stage loader; every other payload at a
   physical address, once each and in table order; and so every payload at a logical one.
   */
  lemma PlanSelects(entries: seq<Entry>) returns (parts: seq<nat>, markers: seq<nat>)
    ensures PlanOf(entries) == None <==> forall e | e in entries :: !FirstLoader(e)
    ensures PlanOf(entries).Some? ==>
              var p := PlanOf(entries).value;
              && IsFirst(entries, FirstLoader, Some(p.fdl1))
              && IsFirst(entries, SecondLoader, p.fdl2)
              && Picks(entries, 0, NoLoader, p.partitions, parts)
              && Picks(entries, 0, LogicalPayload, p.dataMarkers, markers)
  {
    hide Picks, FirstLoader, SecondLoader, NoLoader, LogicalPayload, Select, DataMarkers;
    var first, second;
    first, second, parts, markers := SelectPicks(entries, 0);
    assert entries[0..] == entries;
    FirstPicked(entries, FirstLoader, Select(entries, Fdl1), first);
    FirstPicked(entries, SecondLoader, Select(entries, Fdl2), second);
  }

  lemma {:induction false} Selected(entries: seq<Entry>, role: Role)
    ensures forall e :: e in Select(entries, role) <==> e in entries && Classify(e) == role
    ensures forall e :: e in DataMarkers(entries) <==> e in entries && IsDataMarker(e)
  {
    if entries == [] {
    } else {
      Selected(entries[1..], role);
    }
  }

  /**
   Every entry with a payload has at most one place in the plan: loaders and partitions lie at
   physical addresses, data markers at logical ones.
   */
  lemma PlanIsSeparated(entries: seq<Entry>)
    requires PlanOf(entries).Some?
    ensures var p := PlanOf(entries).value;
            && p.fdl1 in entries && Classify(p.fdl1) == Fdl1 && p.fdl1.size != 0
            && (p.fdl2.Some? ==>
                  p.fdl2.value in entries && Classify(p.fdl2.value) == Fdl2 && p.fdl2.value.size != 0)
            && (forall e | e in p.partitions ::
                  e in entries && e.size != 0 && 0 < e.address < LOGICAL_ADDRESS_BASE && e !in p.dataMarkers)
            && (forall e | e in p.dataMarkers ::
                  e in entries && e.size != 0 && e.address >= LOGICAL_ADDRESS_BASE)
            && (forall e | e in entries && e.size != 0 && e.address != 0 ::
                  e in p.partitions || e in p.dataMarkers || Classify(e) in {Fdl1, Fdl2})
  {
    Selected(entries, Fdl1);
    Selected(entries, Fdl2);
    Selected(entries, Partition);
    var p := PlanOf(entries).value;
    assert p.fdl1 in Select(entries, Fdl1);
    if p.fdl2.Some? {
      assert p.fdl2.value in Select(entries, Fdl2);
    }
  }
}
