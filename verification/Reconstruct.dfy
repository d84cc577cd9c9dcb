/**
 Proposing a partition layout from a full flash image: code images and script packs at the front,
 a wear-levelled filesystem behind them.
 */
module Reconstruct {
  import opened Bytes
  import Checksum

  const BLOCK: nat := 0x1_0000
  const UIMAGE_MAGIC: U32 := 0x2705_1956
  const UIMAGE_HDR: nat := 0x40
  const LUADB_MAGIC: Data := [0x5A, 0xA5, 0x5A, 0xA5]

  datatype Kind = Uimage | Luadb | Filesystem | Nv
  datatype Confidence = Verified | Derived | Heuristic
  datatype Anchor = Anchor(off: nat, kind: Kind, used: nat, conf: Confidence)

  /** `id` is the kind with a running index per kind. */
  datatype Id = Id(kind: Kind, index: nat)
  datatype Region = Region(id: Id, physAddr: U32, reservedSize: U32, usedSize: U32, confidence: Confidence)

  function RoundUp(v: nat): (r: nat)
    ensures r % BLOCK == 0 && v <= r < v + BLOCK
  {
    (v + BLOCK - 1) / BLOCK * BLOCK
  }

  // ---------------------------------------------------------------- detectors

  function ZeroHcrc(header: Data): Data
    requires |header| == UIMAGE_HDR
  {
    header[..4] + [0, 0, 0, 0] + header[8..]
  }

  function DetectUimage(image: Data, off: nat): (r: Option<Anchor>)
    ensures r.Some? ==>
              && r.value.off == off && r.value.kind == Uimage
              && UIMAGE_HDR <= r.value.used && off + r.value.used <= |image|
  {
    if off + UIMAGE_HDR > |image| || GetBe32(image, off) != UIMAGE_MAGIC then None
    else
      var used := UIMAGE_HDR + GetBe32(image, off + 0x0C);
      if off + used > |image| then None
      else
        var hcrcOk := Checksum.Ieee(ZeroHcrc(image[off..off + UIMAGE_HDR])) == GetBe32(image, off + 0x04);
        var dcrcOk := Checksum.Ieee(image[off + UIMAGE_HDR..off + used]) == GetBe32(image, off + 0x18);
        Some(Anchor(off, Uimage, used, if hcrcOk && dcrcOk then Verified else Derived))
  }

  function DetectLuadb(image: Data, off: nat): Option<Anchor>
  {
    if off + 6 <= |image| && image[off + 2..off + 6] == LUADB_MAGIC then Some(Anchor(off, Luadb, 0, Derived))
    else None
  }

  /** The little-endian generation counter a filesystem block starts with. */
  function FsGeneration(image: Data, off: nat): Option<U16>
  {
    if off + 4 > |image| then None
    else if image[off + 2] == 0 && image[off + 3] == 0 && GetLe16(image, off) != 0 then Some(GetLe16(image, off))
    else None
  }

  /** Bytes up to the last one in `start..end` that is not erase padding. */
  function UsedOf(image: Data, start: nat, end: nat): (r: nat)
    requires start <= end <= |image|
    ensures r <= end - start
    ensures r > 0 ==> image[start + r - 1] != 0xFF
    ensures forall k | start + r <= k < end :: image[k] == 0xFF
    decreases end - start
  {
    if end == start || image[end - 1] != 0xFF then end - start else UsedOf(image, start, end - 1)
  }

  method UsedLen(image: Data, start: nat, limit: nat) returns (r: nat)
    requires start <= Min(limit, |image|)
    ensures r == UsedOf(image, start, Min(limit, |image|))
  {
    var i := Min(limit, |image|);
    while i > start && image[i - 1] == 0xFF
      invariant start <= i <= |image|
      invariant UsedOf(image, start, i) == UsedOf(image, start, Min(limit, |image|))
    {
      i := i - 1;
    }
    r := i - start;
  }

  // ---------------------------------------------------------------- the front

  /** The anchors found from some offset on, and where the walk stopped. */
  datatype Front = Front(anchors: seq<Anchor>, off: nat)

  function Behind(segs: seq<Anchor>, f: Front): Front { Front(segs + f.anchors, f.off) }

  lemma BehindBoth(segs: seq<Anchor>, more: seq<Anchor>, f: Front)
    ensures Behind(segs, Behind(more, f)) == Behind(segs + more, f)
    ensures Behind([], f) == f && Behind(segs, Front([], f.off)) == Front(segs, f.off)
  {
    assert segs + (more + f.anchors) == (segs + more) + f.anchors;
  }

  /** Phase 1: anchor code and script packs block by block, up to the first filesystem block. */
  function Scan(image: Data, off: nat): Front
    decreases |image| - off
  {
    if off + BLOCK > |image| then Front([], off)
    else
      var code := DetectUimage(image, off);
      if code.Some? then Behind([code.value], Scan(image, RoundUp(off + code.value.used)))
      else
        var pack := DetectLuadb(image, off);
        if pack.Some? then Behind([pack.value], Scan(image, off + BLOCK))
        else if FsGeneration(image, off).Some? then Front([], off)
        else Scan(image, off + BLOCK)
  }

  method ScanFront(image: Data) returns (segs: seq<Anchor>, off: nat)
    ensures Front(segs, off) == Scan(image, 0)
  {
    hide DetectUimage, DetectLuadb, FsGeneration, RoundUp, Behind;
    segs, off := [], 0;
    BehindBoth([], [], Scan(image, 0));
    while off + BLOCK <= |image|
      invariant Behind(segs, Scan(image, off)) == Scan(image, 0)
      decreases |image| - off
    {
      var code := DetectUimage(image, off);
      if code.Some? {
        var end := RoundUp(off + code.value.used);
        BehindBoth(segs, [code.value], Scan(image, end));
        segs := segs + [code.value];
        off := end;
      } else {
        var pack := DetectLuadb(image, off);
        if pack.Some? {
          BehindBoth(segs, [pack.value], Scan(image, off + BLOCK));
          segs := segs + [pack.value];
          off := off + BLOCK;
        } else if FsGeneration(image, off).Some? {
          break;
        } else {
          off := off + BLOCK;
        }
      }
    }
    BehindBoth(segs, [], Scan(image, off));
  }

  // ---------------------------------------------------------------- the longest run

  /** Length of the run of equal generations that starts at block `i`. */
  function RunLen(gens: seq<Option<U16>>, i: nat): (r: nat)
    requires i < |gens|
    ensures i + r <= |gens| && (r > 0 <==> gens[i].Some?)
    ensures forall k | i <= k < i + r :: gens[k] == gens[i]
    ensures 0 < r && i + r < |gens| ==> gens[i + r] != gens[i]
    decreases |gens| - i
  {
    if gens[i] == None then 0
    else if i + 1 < |gens| && gens[i + 1] == gens[i] then 1 + RunLen(gens, i + 1)
    else 1
  }

  datatype Best = Best(i: nat, len: nat)

  /** The first of the longest runs that start before block `n`. */
  function BestBefore(gens: seq<Option<U16>>, n: nat): (b: Best)
    requires n <= |gens|
    ensures b.i <= n
    ensures b.len > 0 ==> b.i < n && b.len == RunLen(gens, b.i)
    ensures forall k | 0 <= k < n :: RunLen(gens, k) <= b.len
    ensures forall k | 0 <= k < b.i :: RunLen(gens, k) < b.len
    ensures b.len == 0 ==> b.i == 0
  {
    if n == 0 then Best(0, 0)
    else
      var b := BestBefore(gens, n - 1);
      if RunLen(gens, n - 1) > b.len then Best(n - 1, RunLen(gens, n - 1)) else b
  }

  lemma {:induction false} RunCovers(gens: seq<Option<U16>>, a: nat, len: nat)
    requires a + len <= |gens| && len > 0 && gens[a].Some?
    requires forall k | a <= k < a + len :: gens[k] == gens[a]
    ensures len <= RunLen(gens, a)
    decreases len
  {
    if len == 1 {
    } else {
      RunCovers(gens, a + 1, len - 1);
    }
  }

  /** Starts inside a run never beat the start of the run, so they can be skipped. */
  lemma {:induction false} SkipRun(gens: seq<Option<U16>>, i: nat, j: nat)
    requires i < j <= |gens| && gens[i].Some?
    requires j <= i + RunLen(gens, i)
    ensures BestBefore(gens, j) == BestBefore(gens, i + 1)
    decreases j
  {
    if j == i + 1 {
    } else {
      SkipRun(gens, i, j - 1);
      assert RunLen(gens, j - 1) <= RunLen(gens, i) <= BestBefore(gens, i + 1).len;
    }
  }

  method LongestRun(gens: seq<Option<U16>>) returns (bestI: nat, bestLen: nat)
    ensures Best(bestI, bestLen) == BestBefore(gens, |gens|)
  {
    bestI, bestLen := 0, 0;
    var i := 0;
    while i < |gens|
      invariant i <= |gens|
      invariant Best(bestI, bestLen) == BestBefore(gens, i)
    {
      if gens[i].Some? {
        var j := i + 1;
        while j < |gens| && gens[j] == gens[i]
          invariant i < j <= |gens|
          invariant forall k | i <= k < j :: gens[k] == gens[i]
        {
          j := j + 1;
        }
        RunCovers(gens, i, j - i);
        SkipRun(gens, i, j);
        if j - i > bestLen {
          bestI, bestLen := i, j - i;
        }
        i := j;
      } else {
        i := i + 1;
      }
    }
  }

  /** `len` blocks from block `a` on carry the same generation. */
  ghost predicate IsRun(gens: seq<Option<U16>>, a: nat, len: nat)
  {
    a + len <= |gens| && len > 0 && gens[a].Some? && forall k | a <= k < a + len :: gens[k] == gens[a]
  }

  /** No run of equal generations anywhere is longer, and none as long starts earlier. */
  lemma BestIsLongest(gens: seq<Option<U16>>, a: nat, len: nat)
    requires IsRun(gens, a, len)
    ensures var b := BestBefore(gens, |gens|);
            IsRun(gens, b.i, b.len) && len <= b.len && (len == b.len ==> b.i <= a)
  {
    RunCovers(gens, a, len);
  }

  // ---------------------------------------------------------------- the back half

  function Gens(image: Data, start: nat): (r: seq<Option<U16>>)
    requires start <= |image|
    ensures |r| == (|image| - start) / BLOCK
  {
    var n := (|image| - start) / BLOCK;
    seq(n, k requires 0 <= k < n => FsGeneration(image, start + k * BLOCK))
  }

  function Fs(off: nat): Anchor { Anchor(off, Filesystem, 0, Heuristic) }

  /** Staging before the longest run, the run itself, and the rest after it, up to `end`. */
  function Cut(start: nat, best: Best, end: nat): seq<Anchor>
  {
    if best.len == 0 then [Fs(start)]
    else
      var fsStart := start + best.i * BLOCK;
      var fsEnd := fsStart + best.len * BLOCK;
      (if start < fsStart then [Fs(start)] else []) + [Fs(fsStart)] + (if fsEnd < end then [Fs(fsEnd)] else [])
  }

  function BackhalfOf(image: Data, start: nat): seq<Anchor>
    requires start <= |image|
  {
    if start >= |image| then []
    else Cut(start, BestBefore(Gens(image, start), |Gens(image, start)|), |image|)
  }

  method SegmentBackhalf(image: Data, start: nat) returns (out: seq<Anchor>)
    requires start <= |image|
    ensures out == BackhalfOf(image, start)
  {
    if start >= |image| {
      return [];
    }
    hide Gens, BestBefore, RunLen, Cut;
    var blocks := Gens(image, start);
    var bestI, bestLen := LongestRun(blocks);
    out := CutAt(start, bestI, bestLen, |image|);
  }

  method CutAt(start: nat, bestI: nat, bestLen: nat, end: nat) returns (out: seq<Anchor>)
    ensures out == Cut(start, Best(bestI, bestLen), end)
  {
    hide Fs;
    if bestLen == 0 {
      return [Fs(start)];
    }
    var fsStart := start + bestI * BLOCK;
    var fsEnd := fsStart + bestLen * BLOCK;
    out := [];
    if start < fsStart {
      out := out + [Fs(start)];
    }
    out := out + [Fs(fsStart)];
    if fsEnd < end {
      out := out + [Fs(fsEnd)];
    }
  }

  // ---------------------------------------------------------------- regions

  function AnchorsOf(image: Data): seq<Anchor>
  {
    var front := Scan(image, 0);
    front.anchors + BackhalfOf(image, Min(front.off, |image|))
  }

  function NextOff(segs: seq<Anchor>, i: nat, n: nat): nat
    requires i < |segs|
  {
    if i + 1 < |segs| then segs[i + 1].off else n
  }

  /** The filesystem segment that reaches the top of the flash is the factory region. */
  function KindAt(segs: seq<Anchor>, i: nat): Kind
    requires i < |segs|
  {
    if segs[i].kind == Filesystem && i + 1 == |segs| then Nv else segs[i].kind
  }

  function CountBefore(segs: seq<Anchor>, kind: Kind, i: nat): nat
    requires i <= |segs|
  {
    if i == 0 then 0 else CountBefore(segs, kind, i - 1) + if KindAt(segs, i - 1) == kind then 1 else 0
  }

  /** Each anchor lies before the next and an image anchor's content ends before it, up to `end`. */
  ghost predicate Ladder(segs: seq<Anchor>, end: nat)
  {
    forall i | 0 <= i < |segs| ::
      && segs[i].off < NextOff(segs, i, end) <= end
      && (segs[i].kind == Uimage ==> segs[i].off + segs[i].used <= NextOff(segs, i, end))
  }

  function RegionAt(image: Data, segs: seq<Anchor>, i: nat, base: U32): Region
    requires i < |segs| && segs[i].off <= NextOff(segs, i, |image|) <= |image|
  {
    var a, next := segs[i], NextOff(segs, i, |image|);
    Region(
      Id(KindAt(segs, i), CountBefore(segs, KindAt(segs, i), i)),
      Wrap32(base + a.off),
      Wrap32(next - a.off),
      Wrap32(if a.kind == Uimage then a.used else UsedOf(image, a.off, next)),
      a.conf)
  }

  function RegionsFrom(image: Data, segs: seq<Anchor>, base: U32): seq<Region>
    requires Ladder(segs, |image|)
  {
    seq(|segs|, i requires 0 <= i < |segs| => RegionAt(image, segs, i, base))
  }

  method AssignRegion(image: Data, segs: seq<Anchor>, i: nat, index: nat, base: U32) returns (r: Region)
    requires Ladder(segs, |image|) && i < |segs| && index == CountBefore(segs, KindAt(segs, i), i)
    ensures r == RegionAt(image, segs, i, base)
  {
    var a := segs[i];
    var next := if i + 1 < |segs| then segs[i + 1].off else |image|;
    var used := a.used;
    if a.kind != Uimage {
      used := UsedLen(image, a.off, next);
    }
    r := Region(Id(KindAt(segs, i), index), Wrap32(base + a.off), Wrap32(next - a.off), Wrap32(used), a.conf);
  }

  method AssignRegions(image: Data, segs: seq<Anchor>, base: U32) returns (out: seq<Region>)
    requires Ladder(segs, |image|)
    ensures out == RegionsFrom(image, segs, base)
  {
    hide RegionAt;
    out := [];
    var counts: map<Kind, nat> := map[];
    for i := 0 to |segs|
      invariant |out| == i && forall k | 0 <= k < i :: out[k] == RegionAt(image, segs, k, base)
      invariant forall kind :: CountBefore(segs, kind, i) == if kind in counts then counts[kind] else 0
    {
      var kind := KindAt(segs, i);
      var index := if kind in counts then counts[kind] else 0;
      var r := AssignRegion(image, segs, i, index, base);
      counts := counts[kind := index + 1];
      out := out + [r];
    }
  }

  // ---------------------------------------------------------------- the anchors ascend

  lemma LadderCons(a: Anchor, segs: seq<Anchor>, end: nat)
    requires Ladder(segs, end) && a.off < end
    requires segs != [] ==> a.off < segs[0].off
    requires a.kind == Uimage ==> a.off + a.used <= if segs == [] then end else segs[0].off
    ensures Ladder([a] + segs, end)
  {
    var all := [a] + segs;
    forall i | 0 < i < |all|
      ensures NextOff(all, i, end) == NextOff(segs, i - 1, end)
    {
    }
  }

  lemma LadderJoin(front: seq<Anchor>, mid: nat, back: seq<Anchor>, end: nat)
    requires Ladder(front, mid) && Ladder(back, end) && mid <= end
    requires if back == [] then mid == end else back[0].off == mid
    ensures Ladder(front + back, end)
  {
    var all := front + back;
    forall i | 0 <= i < |all|
      ensures NextOff(all, i, end) == if i < |front| then NextOff(front, i, mid) else NextOff(back, i - |front|, end)
    {
    }
  }

  lemma {:induction false} ScanAscends(image: Data, off: nat)
    requires off <= |image|
    ensures var f := Scan(image, off);
            && off <= f.off
            && Ladder(f.anchors, Min(f.off, |image|))
            && (f.anchors != [] ==> f.anchors[0].off >= off)
            && forall a | a in f.anchors :: a.kind == Uimage || a.kind == Luadb
    decreases |image| - off
  {
    hide DetectUimage, FsGeneration;
    if off + BLOCK > |image| {
    } else {
      var code, pack := DetectUimage(image, off), DetectLuadb(image, off);
      var next := if code.Some? then RoundUp(off + code.value.used) else off + BLOCK;
      if next <= |image| {
        ScanAscends(image, next);
      } else {
        assert Scan(image, next) == Front([], next);
      }
      var f := Scan(image, next);
      if code.Some? {
        LadderCons(code.value, f.anchors, Min(f.off, |image|));
      } else if pack.Some? {
        LadderCons(pack.value, f.anchors, Min(f.off, |image|));
      }
    }
  }

  lemma CutAscends(start: nat, best: Best, end: nat)
    requires start < end && start + (best.i + best.len) * BLOCK <= end
    ensures var b := Cut(start, best, end);
            && Ladder(b, end)
            && b != [] && b[0].off == start && |b| <= 3
            && forall a | a in b :: a == Fs(a.off)
  {
    if best.len > 0 {
      var fsStart := start + best.i * BLOCK;
      var fsEnd := fsStart + best.len * BLOCK;
      assert start <= fsStart < fsEnd <= end;
    }
  }

  /** The back half tiles to the end in at most three pieces. */
  lemma BackhalfAscends(image: Data, start: nat)
    requires start <= |image|
    ensures var b := BackhalfOf(image, start);
            && Ladder(b, |image|)
            && (if start == |image| then b == [] else b != [] && b[0].off == start)
            && |b| <= 3
            && forall a | a in b :: a == Fs(a.off)
  {
    hide Gens, BestBefore, RunLen, Cut;
    var gens := Gens(image, start);
    var best := BestBefore(gens, |gens|);
    if start < |image| {
      CutAscends(start, best, |image|);
    }
  }

  /** No anchor claims to be the factory region; that is decided by position alone. */
  lemma AnchorsAscend(image: Data)
    ensures Ladder(AnchorsOf(image), |image|)
    ensures forall a | a in AnchorsOf(image) :: a.kind != Nv
  {
    hide Scan, BackhalfOf, Ladder;
    var front := Scan(image, 0);
    ScanAscends(image, 0);
    BackhalfAscends(image, Min(front.off, |image|));
    LadderJoin(front.anchors, Min(front.off, |image|), BackhalfOf(image, Min(front.off, |image|)), |image|);
  }

  function RegionsOf(image: Data, base: U32): seq<Region>
  {
    AnchorsAscend(image);
    RegionsFrom(image, AnchorsOf(image), base)
  }

  method Layout(image: Data, base: U32) returns (out: seq<Region>)
    ensures out == RegionsOf(image, base)
  {
    hide Scan, BackhalfOf, Ladder;
    AnchorsAscend(image);
    var segs, off := ScanFront(image);
    var back := SegmentBackhalf(image, Min(off, |image|));
    out := AssignRegions(image, segs + back, base);
  }

  // ---------------------------------------------------------------- what every layout satisfies

  ghost predicate Tiles(image: Data, base: U32, r: seq<Region>, i: nat)
    requires i < |r|
  {
    var end := if i + 1 < |r| then r[i + 1].physAddr else base + |image|;
    && base <= r[i].physAddr < end <= base + |image|
    && r[i].physAddr + r[i].reservedSize == end
    && r[i].usedSize <= r[i].reservedSize
    && (r[i].id.kind != Uimage ==>
          && (forall k | r[i].physAddr - base + r[i].usedSize <= k < end - base :: image[k] == 0xFF)
          && (r[i].usedSize > 0 ==> image[r[i].physAddr - base + r[i].usedSize - 1] != 0xFF))
  }

  lemma {:induction false} CountGrows(segs: seq<Anchor>, kind: Kind, i: nat, j: nat)
    requires i <= j <= |segs|
    ensures CountBefore(segs, kind, i) <= CountBefore(segs, kind, j)
    ensures i < j && KindAt(segs, i) == kind ==> CountBefore(segs, kind, i) < CountBefore(segs, kind, j)
    decreases j
  {
    if i == j {
    } else {
      CountGrows(segs, kind, i, j - 1);
    }
  }

  /**
   The regions of any image that fits the address space tile it from the first base to its end,
   content never exceeds the reserved window, what follows the content of anything but a code
   image is erase padding, and ids are unique. Only the topmost region can be the factory one, and
   it is never a plain filesystem.
   */
  lemma RegionsTile(image: Data, base: U32)
    requires base + |image| <= 0x1_0000_0000 && |image| < 0x1_0000_0000
    ensures var r := RegionsOf(image, base);
            && (forall i | 0 <= i < |r| :: Tiles(image, base, r, i))
            && (forall i, j | 0 <= i < j < |r| :: r[i].id != r[j].id)
            && (forall i | 0 <= i < |r| ::
                  (r[i].id.kind == Nv ==> i == |r| - 1) && (r[i].id.kind == Filesystem ==> i < |r| - 1))
  {
    hide AnchorsOf, Ladder, RegionAt, UsedOf, CountBefore;
    AnchorsAscend(image);
    var segs, r := AnchorsOf(image), RegionsOf(image, base);
    forall i | 0 <= i < |r|
      ensures Tiles(image, base, r, i)
    {
      RegionFields(image, segs, i, base);
      if i + 1 < |r| {
        RegionFields(image, segs, i + 1, base);
      }
    }
    forall i, j | 0 <= i < j < |r|
      ensures r[i].id != r[j].id
    {
      CountGrows(segs, KindAt(segs, i), i, j);
      RegionFields(image, segs, i, base);
      RegionFields(image, segs, j, base);
    }
    forall i | 0 <= i < |r|
      ensures r[i].id.kind == KindAt(segs, i) && segs[i].kind != Nv
    {
      RegionFields(image, segs, i, base);
      assert segs[i] in segs;
    }
  }

  /** A region of an image that fits the address space, without wrap-around. */
  lemma RegionFields(image: Data, segs: seq<Anchor>, i: nat, base: U32)
    requires Ladder(segs, |image|) && i < |segs|
    requires base + |image| <= 0x1_0000_0000 && |image| < 0x1_0000_0000
    ensures segs[i].off < NextOff(segs, i, |image|) <= |image|
    ensures var a, next := segs[i], NextOff(segs, i, |image|);
            var used := if a.kind == Uimage then a.used else UsedOf(image, a.off, next);
            && used <= next - a.off
            && RegionAt(image, segs, i, base)
               == Region(Id(KindAt(segs, i), CountBefore(segs, KindAt(segs, i), i)),
                         base + a.off, next - a.off, used, a.conf)
  {
    hide UsedOf, CountBefore, KindAt, Wrap32;
  }

  function ReservedSum(r: seq<Region>): nat
  {
    if r == [] then 0 else r[0].reservedSize + ReservedSum(r[1..])
  }

  lemma {:induction false} ReservedSumIs(image: Data, base: U32, r: seq<Region>, i: nat)
    requires i < |r| && forall k | 0 <= k < |r| :: Tiles(image, base, r, k)
    ensures ReservedSum(r[i..]) == base + |image| - r[i].physAddr
    decreases |r| - i
  {
    assert r[i..][1..] == r[i + 1..];
    assert Tiles(image, base, r, i);
    if i + 1 == |r| {
      assert r[i + 1..] == [];
    } else {
      ReservedSumIs(image, base, r, i + 1);
    }
  }

  /** The reserved windows account for everything past the first base. */
  lemma ReservedAccountsForAll(image: Data, base: U32)
    requires base + |image| <= 0x1_0000_0000 && |image| < 0x1_0000_0000
    requires RegionsOf(image, base) != []
    ensures ReservedSum(RegionsOf(image, base)) == base + |image| - RegionsOf(image, base)[0].physAddr
  {
    var r := RegionsOf(image, base);
    RegionsTile(image, base);
    hide RegionsOf, Tiles;
    ReservedSumIs(image, base, r, 0);
    assert r[0..] == r;
  }

  /** The front stops at the end of the whole blocks or on a filesystem block. */
  lemma {:induction false} ScanStops(image: Data, off: nat)
    ensures var f := Scan(image, off); f.off + BLOCK > |image| || FsGeneration(image, f.off).Some?
    decreases |image| - off
  {
    hide DetectUimage, DetectLuadb, FsGeneration;
    if off + BLOCK > |image| {
    } else {
      var code := DetectUimage(image, off);
      ScanStops(image, if code.Some? then RoundUp(off + code.value.used) else off + BLOCK);
      if !code.Some? && DetectLuadb(image, off) == None && FsGeneration(image, off).Some? {
        assert Scan(image, off) == Front([], off);
      }
    }
  }

  /** The back half is put down as one piece without a generation. */
  ghost predicate Unclassified(image: Data, start: nat)
    requires start <= |image|
  {
    start < |image| && BestBefore(Gens(image, start), |Gens(image, start)|).len == 0
  }

  /** The back half is left unclassified exactly when less than one whole block remains, and some of it. */
  lemma UnclassifiedIff(image: Data)
    ensures var start := Min(Scan(image, 0).off, |image|);
            && (Unclassified(image, start) <==> 0 < |image| - start < BLOCK)
            && (Unclassified(image, start) ==> BackhalfOf(image, start) == [Fs(start)])
  {
    hide Scan, FsGeneration, RunLen, BestBefore;
    ScanStops(image, 0);
    var start := Min(Scan(image, 0).off, |image|);
    var gens := Gens(image, start);
    if |image| - start >= BLOCK {
      assert |gens| > 0;
      assert start + 0 * BLOCK == start;
      assert gens[0] == FsGeneration(image, start);
      assert RunLen(gens, 0) > 0;
    } else {
      assert |gens| == 0;
    }
  }

  /** The blocks from offset `from` up to offset `to` all carry the same generation. */
  ghost predicate OneGeneration(image: Data, from: nat, to: nat)
  {
    forall k: nat | from + k * BLOCK < to ::
      FsGeneration(image, from + k * BLOCK).Some? && FsGeneration(image, from + k * BLOCK) == FsGeneration(image, from)
  }

  lemma BlocksAgree(image: Data, start: nat, best: Best)
    requires start <= |image| && IsRun(Gens(image, start), best.i, best.len)
    ensures OneGeneration(image, start + best.i * BLOCK, start + (best.i + best.len) * BLOCK)
  {
    hide FsGeneration;
    var gens := Gens(image, start);
    assert gens[best.i] == FsGeneration(image, start + best.i * BLOCK);
    forall k: nat | k < best.len
      ensures FsGeneration(image, start + best.i * BLOCK + k * BLOCK) == gens[best.i]
    {
      assert gens[best.i + k] == FsGeneration(image, start + (best.i + k) * BLOCK);
    }
  }

  /**
   The live filesystem is found: any run of `len` blocks of one generation from block `a` on is no
   longer than some piece of the back half that has a single generation throughout, and if it is
   as long it does not start earlier.
   */
  lemma LongestRunIsAPiece(image: Data, start: nat, a: nat, len: nat) returns (j: nat)
    requires start <= |image| && IsRun(Gens(image, start), a, len)
    ensures j < |BackhalfOf(image, start)|
    ensures var b := BackhalfOf(image, start);
            var from, to := b[j].off, NextOff(b, j, |image|);
            && OneGeneration(image, from, to)
            && from + len * BLOCK <= to <= |image|
            && (from + len * BLOCK == to ==> from <= start + a * BLOCK)
  {
    hide Gens, BestBefore, RunLen, OneGeneration;
    var gens := Gens(image, start);
    var best := BestBefore(gens, |gens|);
    BestIsLongest(gens, a, len);
    assert best.i + best.len <= (|image| - start) / BLOCK;
    BlocksAgree(image, start, best);
    j := if best.i > 0 then 1 else 0;
  }

  // ---------------------------------------------------------------- recovery

  /** A code image: load and entry addresses, type bytes and name, payload. */
  datatype Code = Code(time: U32, addrs: Data, tail: Data, body: Data)

  ghost predicate ValidCode(c: Code)
  {
    |c.addrs| == 8 && |c.tail| == 36 && |c.body| < 0x1_0000_0000
  }

  /** The 64-byte header, with `hcrc` in its checksum field. */
  function Header(c: Code, hcrc: Data): Data
  {
    Be32(UIMAGE_MAGIC) + hcrc + Be32(c.time) + Be32(Wrap32(|c.body|)) + c.addrs + Be32(Checksum.Ieee(c.body)) + c.tail
  }

  function BareHeader(c: Code): Data { Header(c, [0, 0, 0, 0]) }

  /** The image as it is stored, both checksums in place. */
  function Built(c: Code): Data
  {
    Header(c, Be32(Checksum.Ieee(BareHeader(c)))) + c.body
  }

  lemma HeaderParts(c: Code, hcrc: Data)
    requires ValidCode(c) && |hcrc| == 4
    ensures var h := Header(c, hcrc);
            && |h| == UIMAGE_HDR
            && h[0..4] == Be32(UIMAGE_MAGIC) && h[4..8] == hcrc && h[12..16] == Be32(|c.body|)
            && h[24..28] == Be32(Checksum.Ieee(c.body)) && ZeroHcrc(h) == BareHeader(c)
  {
    hide BeBytes, Checksum.Ieee;
    var h := Header(c, hcrc);
    assert h[8..] == BareHeader(c)[8..] && h[..4] == BareHeader(c)[..4];
    assert BareHeader(c) == BareHeader(c)[..4] + [0, 0, 0, 0] + BareHeader(c)[8..];
  }

  lemma PartOf(image: Data, off: nat, r: Data, i: nat, j: nat)
    requires off + |r| <= |image| && image[off..off + |r|] == r && i <= j <= |r|
    ensures image[off + i..off + j] == r[i..j]
  {
    forall k | 0 <= k < j - i
      ensures image[off + i..off + j][k] == r[i..j][k]
    {
      assert image[off..off + |r|][i + k] == r[i + k];
    }
  }

  /** A built image is detected and verified wherever it lies, whatever its payload contains. */
  lemma BuiltIsVerified(image: Data, off: nat, c: Code)
    requires ValidCode(c) && off + |Built(c)| <= |image|
    requires image[off..off + |Built(c)|] == Built(c)
    ensures DetectUimage(image, off) == Some(Anchor(off, Uimage, |Built(c)|, Verified))
  {
    hide Header, BareHeader, Checksum.Ieee, BeBytes, GetBe32, ZeroHcrc;
    var hcrc := Be32(Checksum.Ieee(BareHeader(c)));
    var h, r := Header(c, hcrc), Built(c);
    HeaderParts(c, hcrc);
    PartOf(image, off, r, 0, UIMAGE_HDR);
    PartOf(image, off, r, UIMAGE_HDR, |r|);
    assert r[0..UIMAGE_HDR] == h && r[UIMAGE_HDR..|r|] == c.body;
    PartOf(image, off, h, 0, 4);
    PartOf(image, off, h, 4, 8);
    PartOf(image, off, h, 12, 16);
    PartOf(image, off, h, 24, 28);
    Words32(image, off, UIMAGE_MAGIC);
    Words32(image, off + 4, Checksum.Ieee(BareHeader(c)));
    Words32(image, off + 12, |c.body|);
    Words32(image, off + 24, Checksum.Ieee(c.body));
  }

  /** A code image's 64-byte header lies at `off`, and its payload, of the size it says, in the image. */
  ghost predicate CodeAt(image: Data, off: nat)
  {
    && off + 0x40 <= |image| && GetBe32(image, off) == 0x2705_1956
    && off + 0x40 + GetBe32(image, off + 0x0C) <= |image|
  }

  /** Both checksums stored in the header match: the header's, with its own field zeroed, and the payload's. */
  ghost predicate ChecksumsMatch(image: Data, off: nat)
    requires CodeAt(image, off)
  {
    var body := off + 0x40;
    && GetBe32(image, off + 0x04) == Checksum.Ieee(image[off..off + 4] + [0, 0, 0, 0] + image[off + 8..body])
    && GetBe32(image, off + 0x18) == Checksum.Ieee(image[body..body + GetBe32(image, off + 0x0C)])
  }

  /** What is detected at a block: code, verified exactly when both checksums match; a pack; a generation. */
  lemma DetectedIs(image: Data, off: nat)
    ensures DetectUimage(image, off)
         == if !CodeAt(image, off) then None
            else Some(Anchor(off, Uimage, 0x40 + GetBe32(image, off + 0x0C),
                             if ChecksumsMatch(image, off) then Verified else Derived))
    ensures DetectLuadb(image, off)
         == if off + 6 <= |image| && image[off + 2..off + 6] == [0x5A, 0xA5, 0x5A, 0xA5]
            then Some(Anchor(off, Luadb, 0, Derived)) else None
    ensures FsGeneration(image, off)
         == if off + 4 <= |image| && image[off + 2] == 0 && image[off + 3] == 0
               && image[off] as int + 0x100 * image[off + 1] as int != 0
            then Some(image[off] as int + 0x100 * image[off + 1] as int) else None
  {
    hide GetBe32, Checksum.Ieee;
    if CodeAt(image, off) {
      var header := image[off..off + UIMAGE_HDR];
      assert header[..4] == image[off..off + 4] && header[8..] == image[off + 8..off + UIMAGE_HDR];
    }
  }

  /** What lies at the front: a code image, or a script pack up to its last byte that is not padding. */
  datatype Content = Image(code: Code) | Pack(data: Data)
  datatype Mark = Mark(off: nat, content: Content)

  ghost predicate ValidContent(c: Content)
  {
    match c
    case Image(code) => ValidCode(code)
    case Pack(d) => |d| >= 6 && d[2..6] == LUADB_MAGIC && d[|d| - 1] != 0xFF
  }

  ghost function BytesOf(c: Content): Data
  {
    match c
    case Image(code) => Built(code)
    case Pack(d) => d
  }

  ghost function EndOf(m: Mark): nat { m.off + |BytesOf(m.content)| }

  /** Nothing is detected at `off`. */
  ghost predicate Quiet(image: Data, off: nat)
  {
    DetectUimage(image, off) == None && DetectLuadb(image, off) == None && FsGeneration(image, off) == None
  }

  ghost predicate Placed(image: Data, m: Mark, fs: nat)
  {
    && ValidContent(m.content) && m.off % 0x1_0000 == 0 && m.off < EndOf(m) <= fs <= |image|
    && image[m.off..EndOf(m)] == BytesOf(m.content)
  }

  ghost predicate InSome(marks: seq<Mark>, k: nat)
  {
    exists m | m in marks :: m.off <= k < EndOf(m)
  }

  /** Contents at ascending block offsets up to `fs`, erase padding everywhere else. */
  ghost predicate LaidOut(image: Data, marks: seq<Mark>, fs: nat)
  {
    && fs % 0x1_0000 == 0 && fs <= |image|
    && (forall m | m in marks :: Placed(image, m, fs))
    && (forall i, j | 0 <= i < j < |marks| :: EndOf(marks[i]) <= marks[j].off)
    && (forall k | 0 <= k < fs && !InSome(marks, k) :: image[k] == 0xFF)
  }

  /** A further block of one of the script packs. */
  ghost predicate InsidePack(marks: seq<Mark>, o: nat)
  {
    o % BLOCK == 0 && exists m | m in marks && m.content.Pack? :: m.off < o < EndOf(m)
  }

  /** Only packs are looked into: nothing is detected at their further blocks. */
  ghost predicate PacksAreQuiet(image: Data, marks: seq<Mark>)
  {
    forall o | InsidePack(marks, o) :: Quiet(image, o)
  }

  /**
   From `fs` on: less than a block, or a filesystem, whose first longest run of one generation is
   the `n` blocks from block `s` on.
   */
  ghost predicate FilesystemAt(image: Data, fs: nat, s: nat, n: nat)
  {
    && fs <= |image|
    && if |image| - fs < 0x1_0000 then s == 0 && n == 0
       else FsGeneration(image, fs).Some? && IsLongest(Gens(image, fs), s, n)
  }

  ghost predicate IsLongest(gens: seq<Option<U16>>, s: nat, n: nat)
  {
    IsRun(gens, s, n) && forall a: nat, len: nat | IsRun(gens, a, len) :: len < n || (len == n && s <= a)
  }

  /** The pieces of such a back half: staging, the run, and what is behind it, as far as they are there. */
  function BackOf(fs: nat, s: nat, n: nat, end: nat): seq<Anchor>
  {
    if fs == end then [] else Cut(fs, Best(s, n), end)
  }

  ghost function AnchorOf(m: Mark): Anchor
  {
    match m.content
    case Image(_) => Anchor(m.off, Uimage, |BytesOf(m.content)|, Verified)
    case Pack(_) => Anchor(m.off, Luadb, 0, Derived)
  }

  ghost function MarkAnchors(marks: seq<Mark>): seq<Anchor>
  {
    seq(|marks|, i requires 0 <= i < |marks| => AnchorOf(marks[i]))
  }

  lemma PaddingIsQuiet(image: Data, off: nat)
    requires off + BLOCK <= |image|
    requires forall k | off <= k < off + 8 :: image[k] == 0xFF
    ensures Quiet(image, off)
  {
    hide Checksum.Ieee;
    assert image[off + 2..off + 6][0] == 0xFF;
    assert image[off..off + 4][3] == 0xFF;
  }

  /** A block is at most one of the three: their magics differ in the third byte. */
  lemma KindsExclude(image: Data, off: nat)
    requires off + BLOCK <= |image|
    ensures DetectLuadb(image, off).Some? ==> DetectUimage(image, off) == None
    ensures FsGeneration(image, off).Some? ==> DetectUimage(image, off) == None && DetectLuadb(image, off) == None
  {
    hide Checksum.Ieee;
    var w := image[off..off + 4];
    assert w[..3][..2] == w[..2] && w[2] == image[off + 2] == image[off + 2..off + 6][0];
    assert BeWord(w) == 0x100 * (0x100 * BeWord(w[..2]) + w[2]) + w[3];
  }

  lemma AtMark(image: Data, m: Mark, fs: nat)
    requires Placed(image, m, fs) && m.off + BLOCK <= |image|
    ensures m.content.Image? ==> DetectUimage(image, m.off) == Some(AnchorOf(m))
    ensures m.content.Pack? ==> DetectUimage(image, m.off) == None && DetectLuadb(image, m.off) == Some(AnchorOf(m))
  {
    hide Built, DetectUimage, Quiet;
    match m.content {
      case Image(code) => BuiltIsVerified(image, m.off, code);
      case Pack(d) =>
        PartOf(image, m.off, d, 2, 6);
        KindsExclude(image, m.off);
    }
  }

  lemma AtGap(image: Data, marks: seq<Mark>, fs: nat, off: nat)
    requires LaidOut(image, marks, fs) && PacksAreQuiet(image, marks) && off % BLOCK == 0 && off + BLOCK <= fs
    requires forall m | m in marks :: m.off != off && (m.content.Image? ==> off < m.off || EndOf(m) <= off)
    ensures Quiet(image, off)
  {
    hide Quiet, BytesOf;
    if InsidePack(marks, off) {
    } else {
      forall k | off <= k < off + 8
        ensures !InSome(marks, k)
      {
        forall m | m in marks
          ensures !(m.off <= k < EndOf(m))
        {
          assert Placed(image, m, fs);
          BlockGap(off, m.off);
        }
      }
      PaddingIsQuiet(image, off);
    }
  }

  lemma BlockGap(a: nat, b: nat)
    requires a % BLOCK == 0 && b % BLOCK == 0
    ensures a < b ==> a + BLOCK <= b
    ensures forall v: nat | v <= b :: RoundUp(v) <= b
  {
  }

  lemma MarkSpan(image: Data, marks: seq<Mark>, fs: nat, i: nat)
    requires LaidOut(image, marks, fs)
    ensures fs % BLOCK == 0 && fs <= |image|
    ensures i < |marks| ==>
              && Placed(image, marks[i], fs) && marks[i].off % BLOCK == 0 && marks[i].off < EndOf(marks[i]) <= fs
              && forall j | 0 <= j < |marks| && j != i ::
                   if j < i then marks[j].off < marks[i].off
                   else EndOf(marks[i]) <= marks[j].off && marks[j].off % BLOCK == 0
  {
    hide BytesOf, Quiet;
    assert forall j | 0 <= j < |marks| :: marks[j] in marks && Placed(image, marks[j], fs);
  }

  lemma MarksBehind(marks: seq<Mark>, i: nat)
    requires i <= |marks|
    ensures if i == |marks| then MarkAnchors(marks[i..]) == []
            else MarkAnchors(marks[i..]) == [AnchorOf(marks[i])] + MarkAnchors(marks[i + 1..])
  {
  }

  lemma WalkEnds(image: Data, fs: nat)
    requires fs <= |image|
    requires |image| - fs < BLOCK || FsGeneration(image, fs).Some?
    ensures Scan(image, fs) == Front([], fs)
  {
    hide DetectUimage, DetectLuadb, FsGeneration;
    if fs + BLOCK <= |image| {
      KindsExclude(image, fs);
    }
  }

  /** The walk over a content: its anchor, then what is behind it. */
  lemma WalkTakes(image: Data, m: Mark, fs: nat)
    requires Placed(image, m, fs) && m.off + BLOCK <= |image|
    ensures var next := if m.content.Image? then RoundUp(EndOf(m)) else m.off + BLOCK;
            Scan(image, m.off) == Behind([AnchorOf(m)], Scan(image, next))
  {
    hide DetectUimage, DetectLuadb, FsGeneration, BytesOf, RoundUp, Placed;
    AtMark(image, m, fs);
  }

  lemma WalkPasses(image: Data, off: nat)
    requires Quiet(image, off) && off + BLOCK <= |image|
    ensures Scan(image, off) == Scan(image, off + BLOCK)
  {
    hide DetectUimage, DetectLuadb, FsGeneration;
  }

  /** From just past the start of the contents before `i`, the walk finds exactly those from `i` on. */
  lemma {:induction false} ScanLaidOut(image: Data, marks: seq<Mark>, fs: nat, i: nat, off: nat)
    requires LaidOut(image, marks, fs) && PacksAreQuiet(image, marks)
    requires |image| - fs < BLOCK || FsGeneration(image, fs).Some?
    requires i <= |marks| && off <= fs && off % BLOCK == 0
    requires forall j | 0 <= j < i :: marks[j].off < off && (marks[j].content.Image? ==> EndOf(marks[j]) <= off)
    requires i < |marks| ==> off <= marks[i].off
    ensures Scan(image, off) == Front(MarkAnchors(marks[i..]), fs)
    decreases fs - off
  {
    hide BytesOf, Scan, Quiet, FsGeneration, LaidOut, PacksAreQuiet, Placed, RoundUp, MarkAnchors, AnchorOf;
    MarkSpan(image, marks, fs, i);
    MarksBehind(marks, i);
    if off == fs {
      WalkEnds(image, fs);
    } else {
      BlockGap(off, fs);
      if i < |marks| && off == marks[i].off {
        var m := marks[i];
        WalkTakes(image, m, fs);
        var next := if m.content.Image? then RoundUp(EndOf(m)) else off + BLOCK;
        if i + 1 < |marks| {
          BlockGap(off, marks[i + 1].off);
        }
        ScanLaidOut(image, marks, fs, i + 1, next);
      } else {
        AtGap(image, marks, fs, off);
        WalkPasses(image, off);
        if i < |marks| {
          BlockGap(off, marks[i].off);
        }
        ScanLaidOut(image, marks, fs, i, off + BLOCK);
      }
    }
  }

  lemma BackIsRecovered(image: Data, fs: nat, s: nat, n: nat)
    requires FilesystemAt(image, fs, s, n)
    ensures BackhalfOf(image, fs) == BackOf(fs, s, n, |image|)
  {
    hide FsGeneration, RunLen, BestBefore, Cut, IsRun;
    var gens := Gens(image, fs);
    if |image| - fs < BLOCK {
      assert gens == [];
    } else {
      BestIsLongest(gens, s, n);
    }
  }

  /** How many of the contents before the `i`-th are of the same kind. */
  ghost function Earlier(marks: seq<Mark>, pack: bool, i: nat): nat
    requires i <= |marks|
  {
    if i == 0 then 0 else Earlier(marks, pack, i - 1) + if marks[i - 1].content.Pack? == pack then 1 else 0
  }

  lemma {:induction false} CountsAre(segs: seq<Anchor>, marks: seq<Mark>, i: nat)
    requires i <= |marks| <= |segs| && forall k | 0 <= k < |marks| :: segs[k] == AnchorOf(marks[k])
    ensures CountBefore(segs, Uimage, i) == Earlier(marks, false, i)
    ensures CountBefore(segs, Luadb, i) == Earlier(marks, true, i)
    ensures CountBefore(segs, Filesystem, i) == 0 && CountBefore(segs, Nv, i) == 0
  {
    hide BytesOf;
    if i == 0 {
    } else {
      CountsAre(segs, marks, i - 1);
    }
  }

  lemma LastByte(image: Data, m: Mark, fs: nat)
    requires Placed(image, m, fs) && m.content.Pack?
    ensures image[EndOf(m) - 1] != 0xFF
  {
    assert image[EndOf(m) - 1] == image[m.off..EndOf(m)][|m.content.data| - 1];
  }

  /** The content of a pack ends where its padding begins. */
  lemma PackEnds(image: Data, marks: seq<Mark>, fs: nat, i: nat, next: nat)
    requires LaidOut(image, marks, fs) && i < |marks| && marks[i].content.Pack?
    requires next == if i + 1 < |marks| then marks[i + 1].off else fs
    ensures marks[i].off <= next <= |image| && UsedOf(image, marks[i].off, next) == |BytesOf(marks[i].content)|
  {
    hide Built, Placed, UsedOf;
    var m := marks[i];
    MarkSpan(image, marks, fs, i);
    if i + 1 < |marks| {
      MarkSpan(image, marks, fs, i + 1);
    }
    LastByte(image, m, fs);
    forall k | EndOf(m) <= k < next
      ensures image[k] == 0xFF
    {
      forall x | x in marks
        ensures !(x.off <= k < EndOf(x))
      {
        var j :| 0 <= j < |marks| && marks[j] == x;
        assert j < i ==> EndOf(marks[j]) <= marks[i].off;
        assert j > i + 1 ==> EndOf(marks[i + 1]) <= marks[j].off;
      }
      assert !InSome(marks, k);
    }
  }

  ghost predicate Recovered(r: Region, marks: seq<Mark>, i: nat, fs: nat, base: U32)
    requires i < |marks|
  {
    var m := marks[i];
    && r.id == Id(if m.content.Pack? then Luadb else Uimage, Earlier(marks, m.content.Pack?, i))
    && r.physAddr == base + m.off && r.usedSize == |BytesOf(m.content)|
    && r.reservedSize == (if i + 1 < |marks| then marks[i + 1].off else fs) - m.off
    && r.confidence == if m.content.Pack? then Derived else Verified
  }

  lemma FrontIsRecovered(image: Data, marks: seq<Mark>, fs: nat, s: nat, n: nat)
    requires LaidOut(image, marks, fs) && FilesystemAt(image, fs, s, n) && PacksAreQuiet(image, marks)
    ensures AnchorsOf(image) == MarkAnchors(marks) + BackOf(fs, s, n, |image|)
  {
    hide Scan, LaidOut, PacksAreQuiet, AnchorOf, IsLongest, BackOf, BackhalfOf;
    BackIsRecovered(image, fs, s, n);
    MarkSpan(image, marks, fs, |marks|);
    if marks != [] {
      MarkSpan(image, marks, fs, 0);
    }
    ScanLaidOut(image, marks, fs, 0, 0);
    assert marks[0..] == marks;
  }

  /** Where something is detected and the walk goes on, it has left an anchor. */
  lemma AnchorHere(image: Data, off: nat) returns (a: Anchor)
    requires off + BLOCK <= |image| && Scan(image, off).off > off && !Quiet(image, off)
    ensures a in Scan(image, off).anchors && a.off == off
  {
    hide DetectUimage, FsGeneration;
    a := Scan(image, off).anchors[0];
  }

  /** A block that the walk passes without an anchor there, outside every code image, is quiet. */
  lemma {:induction false} PassedIsQuiet(image: Data, off: nat, o: nat)
    requires off % BLOCK == 0 && o % BLOCK == 0 && off <= o && o + BLOCK <= |image| && o < Scan(image, off).off
    requires forall a | a in Scan(image, off).anchors ::
               a.off != o && (a.kind == Uimage ==> o < a.off || a.off + a.used <= o)
    ensures Quiet(image, o)
    decreases |image| - off
  {
    hide DetectUimage, FsGeneration;
    var code := DetectUimage(image, off);
    var next := if code.Some? then RoundUp(off + code.value.used) else off + BLOCK;
    var anchors := Scan(image, off).anchors;
    if off == o {
      if !Quiet(image, o) {
        var a := AnchorHere(image, o);
      }
    } else {
      assert code.Some? ==> anchors[0] == code.value && anchors[0] in anchors;
      assert forall a | a in Scan(image, next).anchors :: a in anchors;
      BlockGap(off, o);
      PassedIsQuiet(image, next, o);
    }
  }

  lemma SplitByKind(a: seq<Anchor>, b: seq<Anchor>, c: seq<Anchor>, d: seq<Anchor>)
    requires a + b == c + d
    requires forall x | x in a + c :: x.kind != Filesystem
    requires forall x | x in b + d :: x.kind == Filesystem
    ensures a == c && b == d
  {
    var all, i := a + b, Min(|a|, |c|);
    assert forall k | 0 <= k < |all| :: all[k] == (c + d)[k] && (k < |a| <==> all[k].kind != Filesystem);
    assert forall k | 0 <= k < |all| :: k < |c| <==> all[k].kind != Filesystem;
    assert i < |all| ==> (i < |a| <==> all[i].kind != Filesystem) && (i < |c| <==> all[i].kind != Filesystem);
    assert a == all[..i] == c && b == all[i..] == d;
  }

  /** When exactly the contents are found, the walk has ended at the filesystem. */
  lemma FoundFront(image: Data, marks: seq<Mark>, fs: nat, s: nat, n: nat)
    requires FilesystemAt(image, fs, s, n)
    requires AnchorsOf(image) == MarkAnchors(marks) + BackOf(fs, s, n, |image|)
    ensures Scan(image, 0).anchors == MarkAnchors(marks) && Min(Scan(image, 0).off, |image|) == fs
  {
    hide Scan, BackhalfOf, BackOf, Ladder, BytesOf;
    var front := Scan(image, 0);
    var start := Min(front.off, |image|);
    ScanAscends(image, 0);
    BackhalfAscends(image, start);
    BackIsRecovered(image, fs, s, n);
    BackhalfAscends(image, fs);
    SplitByKind(front.anchors, BackhalfOf(image, start), MarkAnchors(marks), BackOf(fs, s, n, |image|));
  }

  /** A further block of a pack lies apart from the other contents. */
  lemma InsideIsApart(image: Data, marks: seq<Mark>, fs: nat, o: nat)
    requires LaidOut(image, marks, fs) && InsidePack(marks, o)
    ensures o % BLOCK == 0 && o + BLOCK <= fs <= |image|
    ensures forall a | a in MarkAnchors(marks) ::
              a.off != o && (a.kind == Uimage ==> o < a.off || a.off + a.used <= o)
  {
    hide BytesOf;
    var m :| m in marks && m.content.Pack? && m.off < o < EndOf(m);
    assert Placed(image, m, fs);
    BlockGap(o, fs);
    forall a | a in MarkAnchors(marks)
      ensures a.off != o && (a.kind == Uimage ==> o < a.off || a.off + a.used <= o)
    {
      var i :| 0 <= i < |marks| && a == AnchorOf(marks[i]);
      var j :| 0 <= j < |marks| && marks[j] == m;
      assert i < j ==> EndOf(marks[i]) <= m.off;
      assert i > j ==> EndOf(m) <= marks[i].off;
    }
  }

  /**
   The contents and the back half are found exactly when nothing is detected at the further blocks
   of the script packs, whatever the payloads of code images contain.
   */
  lemma RecoveredExactlyWhen(image: Data, marks: seq<Mark>, fs: nat, s: nat, n: nat)
    requires LaidOut(image, marks, fs) && FilesystemAt(image, fs, s, n)
    ensures AnchorsOf(image) == MarkAnchors(marks) + BackOf(fs, s, n, |image|) <==> PacksAreQuiet(image, marks)
  {
    hide AnchorsOf, Scan, FilesystemAt, BackOf, MarkAnchors, LaidOut, Quiet;
    if PacksAreQuiet(image, marks) {
      FrontIsRecovered(image, marks, fs, s, n);
    } else if AnchorsOf(image) == MarkAnchors(marks) + BackOf(fs, s, n, |image|) {
      FoundFront(image, marks, fs, s, n);
      forall o: nat | InsidePack(marks, o)
        ensures Quiet(image, o)
      {
        InsideIsApart(image, marks, fs, o);
        PassedIsQuiet(image, 0, o);
      }
    }
  }

  /** A pack whose second block begins with a word that reads as a generation. */
  const LOUD_PACK: Data := [0, 0] + LUADB_MAGIC + Repeat(0x20, BLOCK - 6) + [1, 0, 0, 0, 0x20]

  const LOUD_IMAGE: Data := LOUD_PACK + Repeat(0xFF, BLOCK - 5)
  const LOUD_MARKS: seq<Mark> := [Mark(0, Pack(LOUD_PACK))]

  lemma LoudPackIsPlaced()
    ensures LaidOut(LOUD_IMAGE, LOUD_MARKS, |LOUD_IMAGE|)
    ensures |LOUD_IMAGE| == 2 * BLOCK && |LOUD_PACK| == BLOCK + 5
  {
    assert LOUD_PACK[2..6] == LUADB_MAGIC;
    assert LOUD_IMAGE[0..|LOUD_PACK|] == LOUD_PACK;
    forall k | 0 <= k < |LOUD_IMAGE| && !InSome(LOUD_MARKS, k)
      ensures LOUD_IMAGE[k] == 0xFF
    {
      assert LOUD_MARKS[0] in LOUD_MARKS;
    }
  }

  /** Such a pack is taken apart: the second block becomes a region of its own. */
  lemma LoudPackIsTakenApart()
    ensures LaidOut(LOUD_IMAGE, LOUD_MARKS, |LOUD_IMAGE|) && FilesystemAt(LOUD_IMAGE, |LOUD_IMAGE|, 0, 0)
    ensures AnchorsOf(LOUD_IMAGE) != MarkAnchors(LOUD_MARKS)
  {
    hide AnchorsOf, DetectUimage, DetectLuadb, LaidOut, MarkAnchors, Repeat;
    LoudPackIsPlaced();
    assert LOUD_MARKS[0] in LOUD_MARKS && InsidePack(LOUD_MARKS, BLOCK);
    assert FsGeneration(LOUD_IMAGE, BLOCK) == Some(1);
    RecoveredExactlyWhen(LOUD_IMAGE, LOUD_MARKS, |LOUD_IMAGE|, 0, 0);
    assert MarkAnchors(LOUD_MARKS) + [] == MarkAnchors(LOUD_MARKS);
  }

  /** The pieces of the back half are numbered, but for the topmost, which is the factory region. */
  lemma {:induction false} CountsBehind(segs: seq<Anchor>, first: nat, j: nat)
    requires first + j < |segs| && CountBefore(segs, Filesystem, first) == 0 && CountBefore(segs, Nv, first) == 0
    requires forall k | first <= k < |segs| :: segs[k].kind == Filesystem
    ensures CountBefore(segs, Filesystem, first + j) == j && CountBefore(segs, Nv, first + j) == 0
    decreases j
  {
    if j == 0 {
    } else {
      CountsBehind(segs, first, j - 1);
    }
  }

  lemma MarkIsRecovered(image: Data, segs: seq<Anchor>, marks: seq<Mark>, fs: nat, i: nat, base: U32)
    requires LaidOut(image, marks, fs) && Ladder(segs, |image|) && i < |marks| <= |segs|
    requires forall k | 0 <= k < |marks| :: segs[k] == AnchorOf(marks[k])
    requires NextOff(segs, |marks| - 1, |image|) == fs
    requires base + |image| <= 0x1_0000_0000 && |image| < 0x1_0000_0000
    ensures Recovered(RegionsFrom(image, segs, base)[i], marks, i, fs, base)
  {
    hide RegionAt, LaidOut, UsedOf, BytesOf, Ladder;
    RegionFields(image, segs, i, base);
    CountsAre(segs, marks, i);
    if marks[i].content.Pack? {
      PackEnds(image, marks, fs, i, NextOff(segs, i, |image|));
    }
  }

  /** The `j`-th piece of the back half, behind `first` other regions. */
  ghost predicate RecoveredBehind(r: seq<Region>, first: nat, image: Data, back: seq<Anchor>, j: nat, base: U32)
    requires |r| == first + |back| && j < |back| && back[j].off <= NextOff(back, j, |image|) <= |image|
  {
    var piece, off, next := r[first + j], back[j].off, NextOff(back, j, |image|);
    && piece.id == (if j + 1 == |back| then Id(Nv, 0) else Id(Filesystem, j))
    && piece.physAddr == base + off && piece.reservedSize == next - off
    && piece.usedSize == UsedOf(image, off, next) && piece.confidence == Heuristic
  }

  lemma PieceIsRecovered(image: Data, segs: seq<Anchor>, first: nat, back: seq<Anchor>, j: nat, base: U32)
    requires |segs| == first + |back| && segs[first..] == back && j < |back|
    requires forall k | 0 <= k < |back| :: back[k] == Fs(back[k].off)
    requires CountBefore(segs, Filesystem, first) == 0 && CountBefore(segs, Nv, first) == 0
    requires Ladder(segs, |image|) && Ladder(back, |image|)
    requires base + |image| <= 0x1_0000_0000 && |image| < 0x1_0000_0000
    ensures RecoveredBehind(RegionsFrom(image, segs, base), first, image, back, j, base)
  {
    hide RegionAt, UsedOf, CountBefore, Ladder;
    forall k | first <= k < |segs|
      ensures segs[k] == back[k - first]
    {
      assert segs[k] == segs[first..][k - first];
    }
    CountsBehind(segs, first, j);
    RegionFields(image, segs, first + j, base);
    assert NextOff(back, j, |image|) == NextOff(segs, first + j, |image|);
  }

  /**
   Layout recovery: an image built from code images and script packs in front of a filesystem is
   taken apart into exactly those: one region per content, with its base, its used size and a
   window up to the next; then the staging blocks, the longest run and what is behind it, as far as
   they are there, the topmost as the factory region.
   */
  lemma LayoutIsRecovered(image: Data, marks: seq<Mark>, fs: nat, s: nat, n: nat, base: U32)
    requires LaidOut(image, marks, fs) && FilesystemAt(image, fs, s, n) && PacksAreQuiet(image, marks)
    requires base + |image| <= 0x1_0000_0000 && |image| < 0x1_0000_0000
    ensures var r, back := RegionsOf(image, base), BackOf(fs, s, n, |image|);
            && |r| == |marks| + |back| && Ladder(back, |image|)
            && (forall i | 0 <= i < |marks| :: Recovered(r[i], marks, i, fs, base))
            && (forall j | 0 <= j < |back| :: RecoveredBehind(r, |marks|, image, back, j, base))
  {
    hide Scan, RegionAt, LaidOut, PacksAreQuiet, UsedOf, BytesOf, FilesystemAt, BackhalfOf, BackOf, CountBefore,
      Recovered, RecoveredBehind;
    FrontIsRecovered(image, marks, fs, s, n);
    FilesystemFits(image, fs, s, n);
    BackIsRecovered(image, fs, s, n);
    BackhalfAscends(image, fs);
    AnchorsAscend(image);
    var segs, back := AnchorsOf(image), BackOf(fs, s, n, |image|);
    forall i | 0 <= i < |marks|
      ensures Recovered(RegionsFrom(image, segs, base)[i], marks, i, fs, base)
    {
      MarkIsRecovered(image, segs, marks, fs, i, base);
    }
    CountsAre(segs, marks, |marks|);
    assert segs[|marks|..] == back;
    assert forall k | 0 <= k < |back| :: back[k] in back && back[k] == Fs(back[k].off);
    forall j | 0 <= j < |back|
      ensures RecoveredBehind(RegionsFrom(image, segs, base), |marks|, image, back, j, base)
    {
      PieceIsRecovered(image, segs, |marks|, back, j, base);
    }
  }

  lemma FilesystemFits(image: Data, fs: nat, s: nat, n: nat)
    requires FilesystemAt(image, fs, s, n)
    ensures fs <= |image|
  {
  }
}
