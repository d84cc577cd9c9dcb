/**
 What a damaged code image does to a proposed layout: its region is no longer verified, and nothing
 else changes.
 */
module Damage {
  import opened Bytes
  import opened Reconstruct
  import Checksum

  /** The anchor of a code image whose checksums do not match. */
  function Doubted(a: Anchor): Anchor { a.(conf := Derived) }

  /** `k` is a payload byte of the code image that starts at `a`. */
  ghost predicate InPayload(a: Anchor, k: nat)
  {
    a.kind == Uimage && a.off + 0x40 <= k < a.off + a.used
  }

  /** A verified code image with one payload byte changed is still found, but not verified. */
  lemma FlippedCode(image: Data, a: Anchor, k: nat, b: Byte)
    requires DetectUimage(image, a.off) == Some(a) && a.conf == Verified
    requires InPayload(a, k) && k < |image| && b != image[k]
    ensures DetectUimage(image[k := b], a.off) == Some(Doubted(a))
  {
    hide DetectUimage, CodeAt, ChecksumsMatch, GetBe32;
    DetectedIs(image, a.off);
    DetectedIs(image[k := b], a.off);
    Mismatch(image, a.off, k, b);
  }

  /** Changing a payload byte leaves the header as it is, and breaks the checksum. */
  lemma Mismatch(image: Data, off: nat, k: nat, b: Byte)
    requires CodeAt(image, off) && ChecksumsMatch(image, off)
    requires off + 0x40 <= k < off + 0x40 + GetBe32(image, off + 0x0C) && b != image[k]
    ensures var t := image[k := b];
            && CodeAt(t, off) && GetBe32(t, off + 0x0C) == GetBe32(image, off + 0x0C) && !ChecksumsMatch(t, off)
  {
    hide Checksum.Ieee, GetBe32;
    SameHeader(image, image[k := b], off);
    var body := off + 0x40;
    var end := body + GetBe32(image, off + 0x0C);
    assert image[k := b][body..end] == image[body..end][k - body := b];
    Checksum.ByteChangeDetected(image[body..end], k - body, b);
  }

  lemma SameHeader(s: Data, t: Data, off: nat)
    requires off + 0x40 <= |s| == |t| && forall j | off <= j < off + 0x40 :: s[j] == t[j]
    ensures GetBe32(s, off) == GetBe32(t, off) && GetBe32(s, off + 0x04) == GetBe32(t, off + 0x04)
    ensures GetBe32(s, off + 0x0C) == GetBe32(t, off + 0x0C) && GetBe32(s, off + 0x18) == GetBe32(t, off + 0x18)
    ensures s[off..off + 4] == t[off..off + 4] && s[off + 8..off + 0x40] == t[off + 8..off + 0x40]
    ensures CodeAt(s, off) <==> CodeAt(t, off)
  {
    hide BeWord;
    assert s[off..off + 4] == t[off..off + 4];
    assert s[off + 0x04..off + 0x04 + 4] == t[off + 0x04..off + 0x04 + 4];
    assert s[off + 0x0C..off + 0x0C + 4] == t[off + 0x0C..off + 0x0C + 4];
    assert s[off + 0x18..off + 0x18 + 4] == t[off + 0x18..off + 0x18 + 4];
  }

  /** Detection looks no further than the block and the code image that it finds there. */
  lemma DetectsAlike(s: Data, t: Data, off: nat)
    requires |s| == |t| && off + BLOCK <= |s| && forall j | off <= j < off + BLOCK :: s[j] == t[j]
    requires DetectUimage(s, off).Some? ==> forall j | off <= j < off + DetectUimage(s, off).value.used :: s[j] == t[j]
    ensures DetectUimage(t, off) == DetectUimage(s, off)
    ensures DetectLuadb(t, off) == DetectLuadb(s, off)
    ensures FsGeneration(t, off) == FsGeneration(s, off)
  {
    hide Checksum.Ieee, GetBe32;
    DetectedIs(s, off);
    DetectedIs(t, off);
    SameHeader(s, t, off);
    var body := off + 0x40;
    assert s[off + 2..off + 6] == t[off + 2..off + 6];
    if CodeAt(s, off) {
      var end := body + GetBe32(s, off + 0x0C);
      assert s[body..end] == t[body..end];
      assert ChecksumsMatch(s, off) == ChecksumsMatch(t, off);
    }
  }

  /** The walk depends only on what lies ahead. */
  lemma {:induction false} ScansAlike(s: Data, t: Data, off: nat)
    requires |s| == |t| && forall j | off <= j < |s| :: s[j] == t[j]
    ensures Scan(s, off) == Scan(t, off)
    decreases |s| - off
  {
    hide DetectUimage, DetectLuadb, FsGeneration, Behind, RoundUp;
    if off + BLOCK <= |s| {
      DetectsAlike(s, t, off);
      ScansAlike(s, t, off + BLOCK);
      var code := DetectUimage(s, off);
      if code.Some? {
        ScansAlike(s, t, RoundUp(off + code.value.used));
      }
    }
  }

  /** So does the back half. */
  lemma BacksAlike(s: Data, t: Data, start: nat)
    requires start <= |s| == |t| && forall j | start <= j < |s| :: s[j] == t[j]
    ensures BackhalfOf(s, start) == BackhalfOf(t, start)
  {
    hide FsGeneration, BestBefore, Cut;
    var a, b := Gens(s, start), Gens(t, start);
    forall i | 0 <= i < |a|
      ensures a[i] == b[i]
    {
      hide DetectUimage, DetectLuadb;
      GensAlike(s, t, start + i * BLOCK);
    }
    assert a == b;
  }

  lemma GensAlike(s: Data, t: Data, off: nat)
    requires |s| == |t| && off + BLOCK <= |s| && forall j | off <= j < off + BLOCK :: s[j] == t[j]
    ensures FsGeneration(s, off) == FsGeneration(t, off)
  {
  }

  /** The walk over a damaged image finds the same anchors, one of them not verified. */
  lemma {:induction false} ScanDoubts(image: Data, off: nat, i: nat, k: nat, b: Byte)
    requires off <= |image| && off % BLOCK == 0 && i < |Scan(image, off).anchors| && k < |image| && b != image[k]
    requires var a := Scan(image, off).anchors[i]; a.conf == Verified && InPayload(a, k)
    ensures var f := Scan(image, off);
            Scan(image[k := b], off) == Front(f.anchors[i := Doubted(f.anchors[i])], f.off)
    decreases |image| - off
  {
    hide DetectUimage, DetectLuadb, FsGeneration, InPayload, Ladder, RoundUp;
    var f, t := Scan(image, off), image[k := b];
    var code := DetectUimage(image, off);
    var found := code.Some? || DetectLuadb(image, off).Some?;
    var next := if code.Some? then RoundUp(off + code.value.used) else off + BLOCK;
    if found && i == 0 {
      Here(f.anchors[0], k);
      PackIsNoCode(image, off);
      assert code.Some? && f.anchors[0] == code.value;
      FlippedCode(image, code.value, k, b);
      ScansAlike(image, t, next);
    } else {
      var j := if found then i - 1 else i;
      assert f.anchors[i] == Scan(image, next).anchors[j];
      Ahead(image, next, j, k);
      DetectsAlike(image, t, off);
      ScanDoubts(image, next, j, k, b);
    }
  }

  lemma PackIsNoCode(image: Data, off: nat)
    ensures DetectLuadb(image, off).Some? ==> DetectLuadb(image, off).value.kind == Luadb
  {
  }

  lemma Here(a: Anchor, k: nat)
    requires InPayload(a, k)
    ensures a.kind == Uimage && a.off + 0x40 <= k < a.off + a.used
  {
  }

  /** What the walk finds from `off` on lies there. */
  lemma Ahead(image: Data, off: nat, i: nat, k: nat)
    requires i < |Scan(image, off).anchors| && InPayload(Scan(image, off).anchors[i], k)
    ensures off <= k && off <= |image|
  {
    hide DetectUimage, DetectLuadb, FsGeneration;
    if off <= |image| {
      ScanAscends(image, off);
      LadderOrder(Scan(image, off).anchors, Min(Scan(image, off).off, |image|), 0, i);
    }
  }

  lemma {:induction false} LadderOrder(segs: seq<Anchor>, end: nat, i: nat, j: nat)
    requires Ladder(segs, end) && i <= j < |segs|
    ensures segs[i].off <= segs[j].off && (i < j ==> NextOff(segs, i, end) <= segs[j].off)
    decreases j
  {
    if i < j {
      LadderOrder(segs, end, i, j - 1);
      assert segs[j - 1].off < NextOff(segs, j - 1, end);
    }
  }

  // ---------------------------------------------------------------- regions

  lemma UsedAlike(s: Data, t: Data, start: nat, end: nat)
    requires start <= end <= |s| == |t| && forall j | start <= j < end :: s[j] == t[j]
    ensures UsedOf(s, start, end) == UsedOf(t, start, end)
    decreases end
  {
  }

  lemma {:induction false} CountsAlike(a: seq<Anchor>, b: seq<Anchor>, kind: Kind, n: nat)
    requires n <= |a| == |b| && forall i | 0 <= i < |a| :: KindAt(a, i) == KindAt(b, i)
    ensures CountBefore(a, kind, n) == CountBefore(b, kind, n)
  {
    if n > 0 {
      CountsAlike(a, b, kind, n - 1);
    }
  }

  /** The `i`-th is a code image, and the images differ in its window only. */
  ghost predicate DifferIn(s: Data, t: Data, segs: seq<Anchor>, i: nat)
  {
    && |s| == |t| && i < |segs| && segs[i].kind == Uimage
    && Ladder(segs, |s|) && Ladder(segs[i := Doubted(segs[i])], |s|)
    && forall j | 0 <= j < |s| && !(segs[i].off <= j < NextOff(segs, i, |s|)) :: s[j] == t[j]
  }

  /** The kinds, bounds and counts are the same whatever the confidence. */
  lemma SameFrame(segs: seq<Anchor>, i: nat, j: nat, n: nat)
    requires i < |segs| && j < |segs|
    ensures var more := segs[i := Doubted(segs[i])];
            && NextOff(more, j, n) == NextOff(segs, j, n) && KindAt(more, j) == KindAt(segs, j)
            && CountBefore(more, KindAt(segs, j), j) == CountBefore(segs, KindAt(segs, j), j)
  {
    hide CountBefore;
    var more := segs[i := Doubted(segs[i])];
    assert forall l | 0 <= l < |segs| :: KindAt(segs, l) == KindAt(more, l);
    CountsAlike(segs, more, KindAt(segs, j), j);
  }

  lemma RegionDoubts(s: Data, t: Data, segs: seq<Anchor>, i: nat, j: nat, base: U32)
    requires DifferIn(s, t, segs, i) && j < |segs|
    ensures segs[j].off <= NextOff(segs, j, |s|) <= |s|
    ensures var more, r := segs[i := Doubted(segs[i])], RegionAt(s, segs, j, base);
            && more[j].off <= NextOff(more, j, |t|) <= |t|
            && RegionAt(t, more, j, base) == if j == i then r.(confidence := Derived) else r
  {
    hide CountBefore, UsedOf, NextOff, KindAt;
    SameFrame(segs, i, j, |s|);
    Window(segs, i, j, |s|);
    if j != i {
      UsedAlike(s, t, segs[j].off, NextOff(segs, j, |s|));
    }
  }

  /** The window of one anchor lies apart from that of another. */
  lemma Window(segs: seq<Anchor>, i: nat, j: nat, end: nat)
    requires Ladder(segs, end) && i < |segs| && j < |segs|
    ensures segs[j].off <= NextOff(segs, j, end) <= end
    ensures i != j ==> NextOff(segs, j, end) <= segs[i].off || NextOff(segs, i, end) <= segs[j].off
  {
    LadderOrder(segs, end, Min(i, j), Max(i, j));
  }

  /** Regions of anchors that differ in the confidence of one code image, whose payload differs. */
  lemma RegionsDoubt(s: Data, t: Data, segs: seq<Anchor>, i: nat, base: U32)
    requires DifferIn(s, t, segs, i)
    ensures var r := RegionsFrom(s, segs, base);
            RegionsFrom(t, segs[i := Doubted(segs[i])], base) == r[i := r[i].(confidence := Derived)]
  {
    hide RegionAt, Ladder;
    var more := segs[i := Doubted(segs[i])];
    var r, u := RegionsFrom(s, segs, base), RegionsFrom(t, more, base);
    forall j | 0 <= j < |segs|
      ensures u[j] == if j == i then r[j].(confidence := Derived) else r[j]
    {
      RegionDoubts(s, t, segs, i, j, base);
    }
  }

  /**
   Damage shows: with any one payload byte of a verified code image changed, the proposed layout is
   the same but for that image's region, which is no longer verified.
   */
  lemma FlippedByteShows(image: Data, i: nat, k: nat, b: Byte, base: U32)
    requires i < |AnchorsOf(image)| && k < |image| && b != image[k]
    requires var a := AnchorsOf(image)[i]; a.conf == Verified && InPayload(a, k)
    ensures var r := RegionsOf(image, base);
            |r| == |AnchorsOf(image)| && RegionsOf(image[k := b], base) == r[i := r[i].(confidence := Derived)]
  {
    hide Scan, BackhalfOf, RegionAt, InPayload, Ladder;
    var t, front := image[k := b], Scan(image, 0);
    var start, segs := Min(front.off, |image|), AnchorsOf(image);
    Here(segs[i], k);
    ScanAscends(image, 0);
    BackhalfAscends(image, start);
    AnchorsAscend(image);
    AnchorsAscend(t);
    assert forall j | |front.anchors| <= j < |segs| :: segs[j] == BackhalfOf(image, start)[j - |front.anchors|];
    assert i < |front.anchors|;
    Bounded(segs, i, |image|);
    Bounded(front.anchors, i, start);
    ScanDoubts(image, 0, i, k, b);
    BacksAlike(image, t, start);
    assert AnchorsOf(t) == segs[i := Doubted(segs[i])];
    RegionsDoubt(image, t, segs, i, base);
  }

  /** In an image laid out from contents, the region of the damaged code image is the only one that changes. */
  lemma DamagedContentShows(
      image: Data, marks: seq<Mark>, fs: nat, s: nat, n: nat, i: nat, k: nat, b: Byte, base: U32)
    requires LaidOut(image, marks, fs) && FilesystemAt(image, fs, s, n) && PacksAreQuiet(image, marks)
    requires i < |marks| && marks[i].content.Image? && k < |marks[i].content.code.body|
    requires b != marks[i].content.code.body[k]
    ensures var at, r := marks[i].off + 0x40 + k, RegionsOf(image, base);
            && at < |image| && i < |r| && r[i].confidence == Verified
            && RegionsOf(image[at := b], base) == r[i := r[i].(confidence := Derived)]
  {
    hide AnchorsOf, Scan, FilesystemAt, PacksAreQuiet, BackOf, Built, Quiet, Ladder, LaidOut, RegionAt;
    var m := marks[i];
    FrontIsRecovered(image, marks, fs, s, n);
    MarkSpan(image, marks, fs, i);
    ContentByte(image, m, fs, k);
    AnchorsAscend(image);
    FlippedByteShows(image, i, m.off + 0x40 + k, b, base);
    Confident(image, AnchorsOf(image), i, base);
  }

  lemma Confident(image: Data, segs: seq<Anchor>, i: nat, base: U32)
    requires Ladder(segs, |image|) && i < |segs|
    ensures RegionsFrom(image, segs, base)[i].confidence == segs[i].conf
  {
  }

  lemma ContentByte(image: Data, m: Mark, fs: nat, k: nat)
    requires Placed(image, m, fs) && m.content.Image? && k < |m.content.code.body|
    ensures AnchorOf(m).conf == Verified && InPayload(AnchorOf(m), m.off + 0x40 + k)
    ensures m.off + 0x40 + k < |image| && image[m.off + 0x40 + k] == m.content.code.body[k]
  {
    hide Built;
    BodyOf(m.content.code, k);
    assert image[m.off..EndOf(m)][0x40 + k] == image[m.off + 0x40 + k];
  }

  lemma BodyOf(c: Code, k: nat)
    requires ValidCode(c) && k < |c.body|
    ensures |Built(c)| == 0x40 + |c.body| && Built(c)[0x40 + k] == c.body[k]
  {
    hide Header, Checksum.Ieee, BeBytes;
    HeaderParts(c, Be32(Checksum.Ieee(BareHeader(c))));
  }

  lemma Bounded(segs: seq<Anchor>, i: nat, end: nat)
    requires Ladder(segs, end) && i < |segs| && segs[i].kind == Uimage
    ensures segs[i].off + segs[i].used <= NextOff(segs, i, end) <= end
  {
  }
}
