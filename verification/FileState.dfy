/** The state of an open file as a value, what it means, and how each move of the file code changes it. */
module FileState {
  import opened Bytes
  import opened Geometry
  import opened FatTable
  import opened Chains
  import opened Volume
  import opened FileData

  datatype File = File(
    g: Geometry,
    img: Image,          // logical device
    fat: seq<U32>,
    win: int,            // sector the window stands on
    chain: seq<nat>,     // clusters of the file
    floor: nat,          // number of clusters it has whatever the size
    sclust: U32,
    size: U32,
    fptr: U32,
    clust: U32,
    ci: nat,             // index of `clust` in the chain
    sect: U32,           // sector the private buffer stands for, 0 for none
    dirty: bool,
    buf: Sector,
    dirSect: int)        // sector of the directory entry

  function Secs(f: File): seq<int> { Sectors(f.g, f.chain) }

  /** The device as the file sees it: its own dirty buffer on top. */
  function View(f: File): (v: Image)
    requires f.sect < |f.img|
    ensures |v| == |f.img|
  {
    if f.dirty then f.img[f.sect := f.buf] else f.img
  }

  /** Sector `s` belongs neither to the file nor to any cluster it may still be given. */
  ghost predicate Elsewhere(f: File, s: int)
    requires |f.fat| == f.g.nFatent
  {
    s < f.g.database ||
    forall c :: InData(f.g, c) && SectorIn(f.g, c, s) ==> c !in f.chain && f.fat[c] != 0
  }

  /** Sector `s` belongs to the file or to a free cluster. */
  ghost predicate AtHome(f: File, s: int)
    requires |f.fat| == f.g.nFatent
  {
    exists c :: InData(f.g, c) && SectorIn(f.g, c, s) && (c in f.chain || f.fat[c] == 0)
  }

  ghost predicate VolumeOk(f: File) {
    WellFormed(f.g) && f.g.volend <= |f.img| && |f.fat| == f.g.nFatent && 0 <= f.win < |f.img|
  }

  ghost predicate ChainOk(f: File) {
    (f.chain == [] <==> f.sclust == 0) && (f.chain != [] ==> IsChain(f.fat, f.chain) && f.chain[0] == f.sclust)
  }

  /** The private buffer: nothing, or a sector of the file's space, equal to the device unless dirty. */
  ghost predicate BufOk(f: File)
    requires VolumeOk(f)
  {
    && f.sect < f.g.volend
    && (f.sect == 0 ==> !f.dirty)
    && (f.sect != 0 ==> AtHome(f, f.sect) && (f.dirty || f.buf == f.img[f.sect]))
    && (f.dirty ==> f.sect as int in Secs(f))
  }

  /** Chain, buffer and device are consistent, wherever the file pointer is. */
  ghost predicate Sane(f: File) {
    && VolumeOk(f) && ChainOk(f) && BufOk(f)
    && Elsewhere(f, f.win) && Elsewhere(f, f.dirSect)
    && f.g.fatbase + FatArea(f.g) <= f.dirSect < f.g.volend
    && f.size <= 512 * |Secs(f)|
  }

  ghost predicate Core(f: File) {
    Sane(f) && f.fptr <= f.size
  }

  /** `clust` is cluster number (fptr-1)/clusterbytes of the chain. */
  ghost predicate CursorOk(f: File) {
    f.fptr > 0 ==>
      f.ci < |f.chain| && f.clust == f.chain[f.ci]
      && 512 * (f.g.csize * f.ci) < f.fptr <= 512 * (f.g.csize * (f.ci + 1))
  }

  /** Inside a sector, the buffer holds that sector. */
  ghost predicate Positioned(f: File) {
    f.fptr % 512 != 0 ==> f.fptr / 512 < |Secs(f)| && f.sect as int == Secs(f)[f.fptr / 512]
  }

  ghost predicate Good(f: File) {
    Core(f) && Needs(f.g, |f.chain|, f.size, f.floor) && CursorOk(f) && Positioned(f)
  }

  lemma SecsFacts(f: File)
    requires VolumeOk(f) && ChainOk(f)
    ensures Distinct(Secs(f)) && InArea(f.g, Secs(f))
    ensures |Secs(f)| == f.g.csize * |f.chain|
  {
    SectorsDistinct(f.g, f.fat, f.chain);
    SectorsInArea(f.g, f.fat, f.chain);
  }

  lemma CoreFits(f: File)
    requires Sane(f)
    ensures f.sect < |f.img| && Fits(View(f), Secs(f), f.size)
    ensures Distinct(Secs(f)) && InArea(f.g, Secs(f))
  {
    SecsFacts(f);
  }

  /** The bytes of the file. */
  ghost function Data(f: File): (d: seq<Byte>)
    requires Sane(f)
    ensures |d| == f.size
  {
    CoreFits(f);
    Content(View(f), Secs(f), f.size)
  }

  /** A sector of the file is never where the window or the directory entry is. */
  lemma SecsNotElsewhere(f: File, k: nat, s: int)
    requires VolumeOk(f) && ChainOk(f) && k < |Secs(f)| && Elsewhere(f, s)
    ensures Secs(f)[k] != s
  {
    SecsFacts(f);
    var q, r := SectorIndex(f.g, f.chain, k);
    assert InData(f.g, f.chain[q]) && SectorIn(f.g, f.chain[q], Secs(f)[k]);
  }

  lemma HomeNotElsewhere(f: File, s: int, o: int)
    requires VolumeOk(f) && AtHome(f, s) && Elsewhere(f, o)
    ensures s != o
    ensures f.g.database <= s < f.g.volend
  {
    var c :| InData(f.g, c) && SectorIn(f.g, c, s) && (c in f.chain || f.fat[c] == 0);
    ClusterInVolume(f.g, c);
  }

  lemma SecAtHome(f: File, k: nat)
    requires VolumeOk(f) && ChainOk(f) && k < |Secs(f)|
    ensures AtHome(f, Secs(f)[k])
  {
    var q, r := SectorIndex(f.g, f.chain, k);
    assert InData(f.g, f.chain[q]) && SectorIn(f.g, f.chain[q], Secs(f)[k]) && f.chain[q] in f.chain;
  }

  // ---------------------------------------------------------------- what stays outside the file

  /** `b` comes from `a` by work on the file alone: the chain only grew, by clusters that were free;
      every sector outside the FAT and the file, and every FAT entry outside the chain, is unchanged. */
  ghost predicate OnlyFile(a: File, b: File) {
    && VolumeOk(a) && VolumeOk(b)
    && b.g == a.g && |b.img| == |a.img| && b.dirSect == a.dirSect
    && a.chain <= b.chain
    && (forall c :: InData(a.g, c) && c !in b.chain ==> b.fat[c] == a.fat[c])
    && (forall c :: c in b.chain && c !in a.chain && InData(a.g, c) ==> a.fat[c] == 0)
    && (forall s :: 0 <= s < |a.img| && !(a.g.fatbase <= s < a.g.fatbase + FatArea(a.g)) && s !in Secs(b) ==>
                      b.img[s] == a.img[s])
    && (Mirrored(a.g, a.img) ==> Mirrored(b.g, b.img))
  }

  lemma OnlyFileTransitive(a: File, b: File, c: File)
    requires OnlyFile(a, b) && OnlyFile(b, c)
    ensures OnlyFile(a, c)
  {
    SecsMonotone(b.g, b.chain, c.chain);
  }

  lemma {:induction false} SecsMonotone(g: Geometry, a: seq<nat>, b: seq<nat>)
    requires a <= b
    ensures forall s :: s in Sectors(g, a) ==> s in Sectors(g, b)
    decreases |b|
  {
    if a != b {
      SecsMonotone(g, a, b[..|b| - 1]);
    } else {
      assert a == b;
    }
  }

  // ---------------------------------------------------------------- buffer moves

  /** Write-back of a dirty buffer. */
  function Flushed(f: File): File
    requires f.sect < |f.img|
  {
    if f.dirty then f.(img := View(f), dirty := false) else f
  }

  lemma FlushCore(f: File)
    requires Sane(f)
    ensures Sane(Flushed(f))
  {
    var h := Flushed(f);
    if f.dirty {
      assert AtHome(f, f.sect) ==> AtHome(h, h.sect);
    }
  }

  lemma FlushKeeps(f: File)
    requires Sane(f)
    ensures Sane(Flushed(f)) && Data(Flushed(f)) == Data(f) && OnlyFile(f, Flushed(f))
  {
    DirtyInData(f);
    FlushCore(f);
    hide ChainOk, BufOk, Elsewhere, Sectors;
    CoreFits(f);
    assert View(Flushed(f)) == View(f);
  }

  /** The clean buffer is loaded with sector `k` of the file. */
  lemma LoadKeeps(f: File, k: nat)
    requires Sane(f) && !f.dirty && k < |Secs(f)|
    ensures 0 <= Secs(f)[k] < f.g.volend
    ensures var h := f.(sect := Secs(f)[k], buf := f.img[Secs(f)[k]]);
            Sane(h) && Data(h) == Data(f) && OnlyFile(f, h)
  {
    CoreFits(f);
    SecAtHome(f, k);
    var h := f.(sect := Secs(f)[k], buf := f.img[Secs(f)[k]]);
    assert AtHome(h, h.sect);
  }

  /** `max(size, end)` */
  function Grown(size: int, end: int): int { if end > size then end else size }

  /** From state `f`, the buffer `buf` is ready to take bytes of sector `k`: it holds what the file has there. */
  ghost predicate Ready(f: File, k: nat, buf: Sector) {
    && Core(f) && k < |Secs(f)| && (f.dirty ==> f.sect as int == Secs(f)[k])
    && 0 <= Secs(f)[k] < f.g.volend
    && forall j :: 0 <= j < 512 && 512 * k + j < f.size ==> buf[j] == View(f)[Secs(f)[k]][j]
  }

  /** In the middle of a sector the buffer is ready as it is. */
  lemma ReadyInside(f: File)
    requires Good(f) && f.fptr % 512 != 0
    ensures Ready(f, f.fptr / 512, f.buf) && f.sect as int == Secs(f)[f.fptr / 512]
  {
    CoreFits(f);
    var k := f.fptr / 512;
    assert f.g.database <= Secs(f)[k];
  }

  /** On a sector boundary a clean buffer is ready if it already holds the sector, if it has just been
      loaded from the device, or if the file has no byte there yet. */
  lemma ReadyAtBoundary(f: File, k: nat, buf: Sector)
    requires Core(f) && !f.dirty && k < |Secs(f)| && f.fptr == 512 * k
    requires 0 <= Secs(f)[k] < f.g.volend
    requires buf == if f.sect as int != Secs(f)[k] && f.fptr < f.size then f.img[Secs(f)[k]] else f.buf
    ensures Ready(f, k, buf)
  {
    CoreFits(f);
    assert f.g.database <= Secs(f)[k];
  }

  /** `w` copied into the buffer standing for sector `k` of the file, which becomes dirty. */
  lemma PartialWrite(f: File, k: nat, ready: Sector, buf: Sector, w: seq<Byte>)
    requires Ready(f, k, ready)
    requires f.fptr / 512 == k && f.fptr % 512 + |w| <= 512 && f.fptr + |w| < TWO32
    requires buf == Splice(ready, f.fptr % 512, w)
    ensures var h := f.(sect := Secs(f)[k], buf := buf, dirty := true,
                        fptr := f.fptr + |w|, size := Grown(f.size, f.fptr + |w|));
            Core(h) && Data(h) == Splice(Data(f), f.fptr, w) && OnlyFile(f, h)
  {
    hide Sane, OnlyFile, View, Content, Splice, Sectors, Fits, Distinct, Elsewhere;
    PartialCore(f, k, ready, buf, w);
    PartialReady(f, k, ready, buf, w);
    CoreFits(f);
    ContentOneSector(View(f), Secs(f), f.size, k, buf, f.fptr, w, Grown(f.size, f.fptr + |w|));
  }

  lemma PartialCore(f: File, k: nat, ready: Sector, buf: Sector, w: seq<Byte>)
    requires Ready(f, k, ready)
    requires f.fptr / 512 == k && f.fptr % 512 + |w| <= 512 && f.fptr + |w| < TWO32
    ensures var h := f.(sect := Secs(f)[k], buf := buf, dirty := true,
                        fptr := f.fptr + |w|, size := Grown(f.size, f.fptr + |w|));
            && Core(h) && OnlyFile(f, h) && View(h) == View(f)[Secs(f)[k] := buf]
            && h.size <= 512 * |Secs(f)|
  {
    hide Sectors;
    SecAtHome(f, k);
    SecsFacts(f);
    var h := f.(sect := Secs(f)[k], buf := buf, dirty := true, fptr := f.fptr + |w|,
                size := Grown(f.size, f.fptr + |w|));
    assert AtHome(h, h.sect);
    assert f.fptr == 512 * k + f.fptr % 512;
  }

  lemma PartialReady(f: File, k: nat, ready: Sector, buf: Sector, w: seq<Byte>)
    requires Ready(f, k, ready) && f.fptr % 512 + |w| <= 512
    requires buf == Splice(ready, f.fptr % 512, w)
    ensures k < |Secs(f)| && f.fptr <= f.size && f.sect < |f.img| && 0 <= Secs(f)[k] < |f.img|
    ensures forall j :: 0 <= j < |w| ==> buf[f.fptr % 512 + j] == w[j]
    ensures forall j :: 0 <= j < 512 && 512 * k + j < f.size && !(f.fptr % 512 <= j < f.fptr % 512 + |w|) ==>
                          buf[j] == View(f)[Secs(f)[k]][j]
  {
    hide ChainOk, Elsewhere, AtHome;
  }

  /** Whole sectors written straight to the device, `buf` being the buffer afterwards. */
  function Direct(f: File, s: nat, cc: nat, src: seq<Byte>, off: nat, buf: Sector): File
    requires s + cc <= |f.img| && off + 512 * cc <= |src| && f.fptr + 512 * cc < TWO32
  {
    f.(img := WriteRange(f.img, s, cc, src, off), buf := buf,
       fptr := f.fptr + 512 * cc, size := Grown(f.size, f.fptr + 512 * cc))
  }

  ghost predicate DirectOk(f: File, k: nat, cc: nat, src: seq<Byte>, off: nat, buf: Sector) {
    && Core(f) && !f.dirty && f.fptr == 512 * k && 0 < cc && k + cc <= |Secs(f)|
    && Adjacent(Secs(f), k, cc) && off + 512 * cc <= |src| && f.fptr + 512 * cc < TWO32
    && f.g.database <= Secs(f)[k] && Secs(f)[k] + cc <= f.g.volend
    && var d := f.sect - Secs(f)[k];
       buf == if 0 <= d < cc then src[off + 512 * d..off + 512 * d + 512] else f.buf
  }

  lemma DirectCore(f: File, k: nat, cc: nat, src: seq<Byte>, off: nat, buf: Sector)
    requires DirectOk(f, k, cc, src, off, buf)
    ensures Core(Direct(f, Secs(f)[k], cc, src, off, buf))
  {
    var s := Secs(f)[k];
    var h := Direct(f, s, cc, src, off, buf);
    if 0 <= f.sect - s < cc {
      WriteRangeAt(f.img, s, cc, src, off, f.sect - s);
    }
    assert AtHome(f, f.sect) ==> AtHome(h, h.sect);
    assert Elsewhere(h, h.win) && Elsewhere(h, h.dirSect);
  }

  /** The file's bytes are spliced; the clean buffer follows the device if it is among the sectors. */
  lemma DirectWrite(f: File, h: File, k: nat, cc: nat, src: seq<Byte>, off: nat)
    requires DirectOk(f, k, cc, src, off, h.buf) && h == Direct(f, Secs(f)[k], cc, src, off, h.buf)
    ensures Core(h) && Data(h) == Splice(Data(f), f.fptr, src[off..off + 512 * cc])
  {
    CoreFits(f);
    assert f.fptr <= f.size && 512 * (k + cc) <= 512 * |Secs(f)|;
    hide Sane;
    DirectCore(f, k, cc, src, off, h.buf);
    ContentManySectors(f.img, Secs(f), f.size, k, cc, src, off, Grown(f.size, f.fptr + 512 * cc));
  }

  lemma DirectOnlyFile(f: File, h: File, k: nat, cc: nat, src: seq<Byte>, off: nat)
    requires DirectOk(f, k, cc, src, off, h.buf) && h == Direct(f, Secs(f)[k], cc, src, off, h.buf)
    ensures OnlyFile(f, h)
  {
    RangeInFile(Secs(f), k, cc);
    hide ChainOk, BufOk, Elsewhere, Adjacent, Sectors;
  }

  /** A run of the file's sectors does not meet a sector elsewhere. */
  lemma RangeNotElsewhere(f: File, k: nat, cc: nat, s: int)
    requires VolumeOk(f) && ChainOk(f) && 0 < cc && k + cc <= |Secs(f)| && Adjacent(Secs(f), k, cc)
    requires Elsewhere(f, s)
    ensures !(Secs(f)[k] <= s < Secs(f)[k] + cc)
  {
    if Secs(f)[k] <= s < Secs(f)[k] + cc {
      SecsNotElsewhere(f, k + (s - Secs(f)[k]), s);
    }
  }

  /** What a direct transfer of `cc` sectors from sector `k` on relies on. */
  lemma DirectPre(f: File, k: nat, cc: nat)
    requires Core(f) && 0 < cc && k + cc <= |Secs(f)| && Adjacent(Secs(f), k, cc)
    ensures !(Secs(f)[k] <= f.win < Secs(f)[k] + cc)
    ensures f.sect < f.g.volend <= |f.img| && f.g.volend <= TWO32
  {
    RangeNotElsewhere(f, k, cc, f.win);
  }

  lemma RangeInFile(secs: seq<int>, k: nat, cc: nat)
    requires k + cc <= |secs| && 0 < cc && Adjacent(secs, k, cc)
    ensures forall s :: secs[k] <= s < secs[k] + cc ==> s in secs
  {
    forall s | secs[k] <= s < secs[k] + cc ensures s in secs {
      assert secs[k + (s - secs[k])] == s;
    }
  }

  // ---------------------------------------------------------------- chain moves

  /** Only the window, and FAT sectors without effect on the table, changed. */
  lemma MoveKeeps(f: File, img: Image, win: int)
    requires Sane(f) && OnlyFatChanged(f.g, f.img, img) && 0 <= win < |img|
    requires win == f.win || InFat1(f.g, win)
    ensures var h := f.(img := img, win := win);
            Sane(h) && Data(h) == Data(f) && OnlyFile(f, h)
  {
    var h := f.(img := img, win := win);
    MoveSane(f, img, win);
    MoveOnlyFile(f, img, win);
    CoreFits(f);
    CoreFits(h);
    MoveView(f, img, win);
    hide Sane, OnlyFile, OnlyFatChanged, Sectors, View;
    ContentFrame(View(f), View(h), Secs(f), f.size);
  }

  lemma MoveSane(f: File, img: Image, win: int)
    requires Sane(f) && OnlyFatChanged(f.g, f.img, img) && 0 <= win < |img|
    requires win == f.win || InFat1(f.g, win)
    ensures Sane(f.(img := img, win := win))
  {
    hide ChainOk, Sectors, AtHome, WellFormed, Mirrored;
    var h := f.(img := img, win := win);
    BeforeData(f);
    if f.sect != 0 { HomeNotElsewhere(f, f.sect, f.dirSect); }
    SameHome(f, h, f.sect);
    SameChain(f, h);
    assert Elsewhere(h, h.win) && Elsewhere(h, h.dirSect);
  }

  lemma SameHome(f: File, h: File, s: int)
    requires |f.fat| == f.g.nFatent && h.g == f.g && h.fat == f.fat && h.chain == f.chain
    ensures AtHome(h, s) <==> AtHome(f, s)
  {
  }

  lemma SameChain(f: File, h: File)
    requires h.fat == f.fat && h.chain == f.chain && h.sclust == f.sclust
    ensures ChainOk(h) <==> ChainOk(f)
  {
  }

  lemma BeforeData(f: File)
    requires VolumeOk(f)
    ensures f.g.fatbase + FatArea(f.g) <= f.g.database && f.g.fsize <= FatArea(f.g)
  {
  }

  lemma MoveOnlyFile(f: File, img: Image, win: int)
    requires Sane(f) && OnlyFatChanged(f.g, f.img, img) && 0 <= win < |img|
    ensures OnlyFile(f, f.(img := img, win := win))
  {
    hide ChainOk, BufOk, Elsewhere, Sectors, WellFormed;
  }

  lemma MoveView(f: File, img: Image, win: int)
    requires Sane(f) && OnlyFatChanged(f.g, f.img, img)
    ensures f.sect < |f.img| == |img|
    ensures forall k :: 0 <= k < |Secs(f)| ==>
                          0 <= Secs(f)[k] < |f.img| && View(f.(img := img))[Secs(f)[k]] == View(f)[Secs(f)[k]]
  {
    SecsFacts(f);
    BeforeData(f);
    hide ChainOk, Elsewhere, Sectors, WellFormed;
  }

  /** The state after `create_chain` gave the file the free cluster `c`. */
  function Extended(f: File, img: Image, fat: seq<U32>, win: int, c: U32): File {
    f.(img := img, fat := fat, win := win, chain := f.chain + [c as nat],
       sclust := if f.sclust == 0 then c else f.sclust, clust := c, ci := |f.chain|)
  }

  ghost predicate ExtendOk(f: File, img: Image, fat: seq<U32>, win: int, c: U32) {
    && Sane(f) && OnlyFatChanged(f.g, f.img, img) && 0 <= win < |img|
    && (win == f.win || InFat1(f.g, win))
    && InData(f.g, c) && f.fat[c] == 0
    && |fat| == |f.fat| && fat[c] >= |fat|
    && (forall d :: 0 <= d < |fat| && d != c && d != (if f.chain == [] then 0 else f.chain[|f.chain| - 1]) ==>
                      fat[d] == f.fat[d])
    && (f.chain != [] ==> fat[f.chain[|f.chain| - 1]] == c)
  }

  /** The cluster `create_chain` works on for this file: none yet, or the `q`-th of the chain. */
  function Tail(f: File, q: int): U32
    requires f.chain == [] || (0 <= q < |f.chain| && f.chain[q] < TWO32)
  {
    if f.chain == [] then 0 else f.chain[q]
  }

  lemma ChainClusters(f: File, q: nat)
    requires VolumeOk(f) && ChainOk(f) && q < |f.chain|
    ensures 2 <= f.chain[q] < |f.fat| && f.fat[f.chain[q]] >= 2
    ensures if q < |f.chain| - 1 then f.fat[f.chain[q]] == f.chain[q + 1] else f.fat[f.chain[q]] >= |f.fat|
  {
    assert q < |f.chain| - 1 ==> f.fat[f.chain[q]] == f.chain[q + 1];
  }

  /** `create_chain` at the tail either fails without effect or meets the conditions for growing. */
  lemma StretchOk(f: File, a: Alloc, b: Alloc, c: U32, img: Image, win: int)
    requires Sane(f) && a.t == f.fat && (f.chain != [] ==> f.chain[|f.chain| - 1] < TWO32)
    requires (b, c) == Create(f.g.fsType, a, Tail(f, |f.chain| - 1))
    requires OnlyFatChanged(f.g, f.img, img) && 0 <= win < |img| && (win == f.win || InFat1(f.g, win))
    ensures c >= 2 ==> ExtendOk(f, img, b.t, win, c)
    ensures c < 2 ==> b == a
    ensures FreeOk(a) ==> FreeOk(b)
    ensures c == 0 && NoOnes(a.t) && FreeOk(a) ==> NoneFree(a.t)
    ensures c == 1 ==> !NoOnes(a.t)
  {
    if f.chain != [] {
      ChainClusters(f, |f.chain| - 1);
    }
    CreateOutcome(f.g.fsType, a, Tail(f, |f.chain| - 1));
  }

  lemma ExtendChain(f: File, img: Image, fat: seq<U32>, win: int, c: U32)
    requires ExtendOk(f, img, fat, win, c)
    ensures IsChain(fat, f.chain + [c as nat]) && (c as nat) !in f.chain
  {
    var cs := f.chain + [c as nat];
    forall i | 0 <= i < |f.chain| ensures f.chain[i] != c && fat[cs[i]] == cs[i + 1] {
      if i < |f.chain| - 1 {
        ChainDistinct(f.fat, f.chain, i, |f.chain| - 1);
        assert f.fat[f.chain[i]] == f.chain[i + 1];
      }
    }
  }

  lemma ExtendElsewhere(f: File, img: Image, fat: seq<U32>, win: int, c: U32, s: int)
    requires ExtendOk(f, img, fat, win, c) && Elsewhere(f, s)
    ensures Elsewhere(Extended(f, img, fat, win, c), s)
  {
    var h := Extended(f, img, fat, win, c);
    forall d | s >= f.g.database && InData(f.g, d) && SectorIn(f.g, d, s) ensures d !in h.chain && h.fat[d] != 0 {
      assert d !in f.chain && f.fat[d] != 0;
    }
  }

  lemma ExtendBuf(f: File, img: Image, fat: seq<U32>, win: int, c: U32)
    requires ExtendOk(f, img, fat, win, c) && VolumeOk(Extended(f, img, fat, win, c))
    ensures BufOk(Extended(f, img, fat, win, c))
  {
    var h := Extended(f, img, fat, win, c);
    if f.sect != 0 {
      HomeNotElsewhere(f, f.sect, f.dirSect);
      var d :| InData(f.g, d) && SectorIn(f.g, d, f.sect) && (d in f.chain || f.fat[d] == 0);
      assert d in h.chain || h.fat[d] == 0;
      assert AtHome(h, h.sect);
    }
    SectorsGrow(f.g, f.chain, c);
  }

  lemma ExtendCore(f: File, img: Image, fat: seq<U32>, win: int, c: U32)
    requires ExtendOk(f, img, fat, win, c)
    ensures Sane(Extended(f, img, fat, win, c))
  {
    var h := Extended(f, img, fat, win, c);
    ExtendChain(f, img, fat, win, c);
    ExtendElsewhere(f, img, fat, win, c, f.win);
    ExtendElsewhere(f, img, fat, win, c, f.dirSect);
    SectorsGrow(f.g, f.chain, c);
    hide BufOk, Elsewhere, IsChain;
    assert VolumeOk(h);
    ExtendBuf(f, img, fat, win, c);
  }

  lemma ExtendOnlyFile(f: File, img: Image, fat: seq<U32>, win: int, c: U32)
    requires ExtendOk(f, img, fat, win, c)
    ensures VolumeOk(Extended(f, img, fat, win, c)) && OnlyFile(f, Extended(f, img, fat, win, c))
  {
    SectorsGrow(f.g, f.chain, c);
  }

  lemma ExtendView(f: File, img: Image, fat: seq<U32>, win: int, c: U32)
    requires ExtendOk(f, img, fat, win, c)
    ensures var h := Extended(f, img, fat, win, c);
            && h.sect < |h.img|
            && forall k :: 0 <= k < |Secs(f)| ==>
                             0 <= Secs(f)[k] < |f.img| && View(h)[Secs(f)[k]] == View(f)[Secs(f)[k]]
  {
    CoreFits(f);
  }

  lemma ExtendKeeps(f: File, img: Image, fat: seq<U32>, win: int, c: U32)
    requires ExtendOk(f, img, fat, win, c)
    ensures var h := Extended(f, img, fat, win, c);
            Sane(h) && Data(h) == Data(f) && OnlyFile(f, h)
  {
    var h := Extended(f, img, fat, win, c);
    ExtendCore(f, img, fat, win, c);
    ExtendOnlyFile(f, img, fat, win, c);
    ExtendView(f, img, fat, win, c);
    SectorsGrow(f.g, f.chain, c);
    CoreFits(f);
    CoreFits(h);
    hide Sane, ExtendOk, OnlyFile, Sectors, View;
    ContentFrame(View(f), View(h), Secs(f), f.size);
    ContentPrefix(View(h), Secs(f), Consecutive(ClusterBase(f.g, c), f.g.csize), f.size, f.size);
    assert Data(h)[..f.size] == Data(h);
  }

  /** After `create_chain` on the current cluster: failed, followed to the next cluster, or grown. */
  function NextCluster(f: File, img: Image, fat: seq<U32>, win: int, c: U32): File {
    if c < 2 then f.(img := img, win := win)
    else if f.chain != [] && f.ci + 1 < |f.chain| then f.(img := img, win := win, clust := c, ci := f.ci + 1)
    else Extended(f, img, fat, win, c)
  }

  lemma NextClusterKeeps(f: File, a: Alloc, b: Alloc, c: U32, img: Image, win: int)
    requires Sane(f) && a.t == f.fat && (f.chain != [] ==> f.ci < |f.chain| && f.chain[f.ci] < TWO32)
    requires (b, c) == Create(f.g.fsType, a, Tail(f, f.ci))
    requires OnlyFatChanged(f.g, f.img, img) && 0 <= win < |img| && (win == f.win || InFat1(f.g, win))
    ensures var h := NextCluster(f, img, b.t, win, c);
            && Sane(h) && Data(h) == Data(f) && OnlyFile(f, h) && h.fat == b.t
            && (c >= 2 ==>
                  && h.clust == c && h.ci < |h.chain| && h.chain[h.ci] == c && h.sclust != 0
                  && h.ci == (if f.chain == [] then 0 else f.ci + 1)
                  && |h.chain| == if h.ci < |f.chain| then |f.chain| else h.ci + 1)
    ensures c < 2 ==> b == a && (f.chain == [] || f.ci + 1 == |f.chain|)
    ensures |NextCluster(f, img, b.t, win, c).chain| == |f.chain| ==> b == a
    ensures FreeOk(a) ==> FreeOk(b)
    ensures c == 0 && NoOnes(a.t) && FreeOk(a) ==> NoneFree(a.t)
    ensures c == 1 ==> !NoOnes(a.t)
  {
    if f.chain != [] && f.ci + 1 < |f.chain| {
      FollowedKeeps(f, a, b, c, img, win);
    } else {
      hide Sane, Data, OnlyFile, FreeOk, NoOnes, NoneFree, OnlyFatChanged, Create;
      StretchOk(f, a, b, c, img, win);
      if c >= 2 {
        ExtendedFat(f, img, b.t, win, c);
        hide ExtendOk;
        ExtendKeeps(f, img, b.t, win, c);
      } else {
        MoveKeeps(f, img, win);
      }
    }
  }

  lemma ExtendedFat(f: File, img: Image, fat: seq<U32>, win: int, c: U32)
    requires ExtendOk(f, img, fat, win, c)
    ensures c >= 2 && Extended(f, img, fat, win, c).sclust != 0
  {
  }

  /** Inside the chain `create_chain` follows it, without effect. */
  lemma FollowedKeeps(f: File, a: Alloc, b: Alloc, c: U32, img: Image, win: int)
    requires Sane(f) && a.t == f.fat && f.ci + 1 < |f.chain| && f.chain[f.ci] < TWO32
    requires (b, c) == Create(f.g.fsType, a, f.chain[f.ci])
    requires OnlyFatChanged(f.g, f.img, img) && 0 <= win < |img| && (win == f.win || InFat1(f.g, win))
    ensures c >= 2 && b == a && c as int == f.chain[f.ci + 1] && f.sclust != 0
    ensures var h := f.(img := img, win := win, clust := c, ci := f.ci + 1);
            Sane(h) && Data(h) == Data(f) && OnlyFile(f, h)
  {
    FollowedCluster(f, a, b, c);
    hide Sane, Data, OnlyFile, OnlyFatChanged, Create;
    MoveKeeps(f, img, win);
    var h := f.(img := img, win := win);
    SameButCursor(h, h.(clust := c, ci := f.ci + 1));
    MovedOnly(f, h);
  }

  lemma MovedOnly(f: File, h: File)
    requires Sane(f) && OnlyFile(f, h)
    ensures VolumeOk(f)
  {
  }

  lemma FollowedCluster(f: File, a: Alloc, b: Alloc, c: U32)
    requires Sane(f) && a.t == f.fat && f.ci + 1 < |f.chain| && f.chain[f.ci] < TWO32
    requires (b, c) == Create(f.g.fsType, a, f.chain[f.ci])
    ensures c >= 2 && b == a && c as int == f.chain[f.ci + 1] && f.sclust != 0
  {
    hide BufOk, Elsewhere;
    ChainClusters(f, f.ci);
    ChainClusters(f, f.ci + 1);
    ChainClusters(f, 0);
    CreateOutcome(f.g.fsType, a, f.chain[f.ci]);
  }

  /** Before the end of the chain the link leads on. */
  lemma InsideChain(f: File)
    requires Sane(f) && f.ci + 1 < |f.chain| && f.chain[f.ci] < TWO32
    ensures f.chain[f.ci] != 0 && Get(f.fat, f.chain[f.ci]) < f.g.nFatent
  {
    ChainClusters(f, f.ci);
  }

  /** The cursor's cluster plays no part in the file's bytes. */
  lemma SameButCursor(a: File, b: File)
    requires Sane(a) && b == a.(clust := b.clust, ci := b.ci)
    ensures Sane(b) && Data(b) == Data(a) && OnlyFile(a, b)
    ensures forall x: File :: VolumeOk(x) && OnlyFile(x, a) ==> OnlyFile(x, b)
  {
  }

  // ---------------------------------------------------------------- where the pointer is

  /** The pointer lies in the `q`-th cluster of the chain, which is the current one. */
  ghost predicate Here(f: File, q: nat) {
    q < |f.chain| && f.clust == f.chain[q] && f.ci == q
    && 512 * (f.g.csize * q) <= f.fptr < 512 * (f.g.csize * (q + 1))
  }

  /** The chain is as long as the size needs, or one cluster ahead of a full file. */
  ghost predicate NeedsOrEdge(f: File, q: nat) {
    Needs(f.g, |f.chain|, f.size, f.floor)
    || (f.floor <= |f.chain| == q + 1 && f.size == f.fptr == 512 * (f.g.csize * q))
  }

  /** The pointer stands behind the last cluster of the chain. */
  ghost predicate ChainEnd(f: File) {
    f.fptr == 512 * (f.g.csize * |f.chain|)
  }

  /** On a cluster boundary without a cluster to go on to. */
  lemma BoundaryEnd(f: File, h: File)
    requires Good(f) && f.fptr % 512 == 0 && f.fptr / 512 % f.g.csize == 0
    requires if f.fptr == 0 then f.chain == [] else f.ci + 1 == |f.chain|
    requires h.g == f.g && h.chain == f.chain && h.fptr == f.fptr
    ensures ChainEnd(h)
  {
    if f.fptr > 0 {
      AtBoundary(f);
    }
  }

  lemma SameEnd(f: File, h: File)
    requires h.g == f.g && h.chain == f.chain && h.fptr == f.fptr
    ensures ChainEnd(h) <==> ChainEnd(f)
  {
  }

  /** A seek that finds no cluster to go on to. */
  lemma SeekEnds(f: File, h: File)
    requires Seeking(f) && f.ci + 1 == |f.chain| && h.g == f.g && h.chain == f.chain
    requires h.fptr == f.fptr + 512 * f.g.csize
    ensures ChainEnd(h)
  {
    assert f.g.csize * (f.ci + 1) == f.g.csize * f.ci + f.g.csize;
  }

  /** Strictly inside the current cluster, or in the middle of one on a sector boundary. */
  lemma StayHere(f: File)
    requires Good(f) && f.fptr > 0 && (f.fptr % 512 != 0 || f.fptr / 512 % f.g.csize != 0)
    ensures Here(f, f.ci)
  {
    var q, r := DivMod(f.fptr / 512, f.g.csize);
    var b := f.g.csize * (f.ci + 1);
    if f.fptr == 512 * b {
      DivModUnique(b, f.g.csize, f.ci + 1, 0);
    }
  }

  /** On a cluster boundary the next cluster is number `ci + 1`. */
  lemma AtBoundary(f: File)
    requires Good(f) && f.fptr > 0 && f.fptr % 512 == 0 && f.fptr / 512 % f.g.csize == 0
    ensures f.fptr == 512 * (f.g.csize * (f.ci + 1))
  {
    var c := f.g.csize;
    var q, r := DivMod(f.fptr / 512, c);
    assert f.fptr == 512 * (c * q) && c * (f.ci + 2) == c * (f.ci + 1) + c;
    if q <= f.ci {
      MulMono(c, q, f.ci);
    } else if q > f.ci + 1 {
      MulMono(c, f.ci + 2, q);
    }
  }

  /** The sector of the pointer inside the current cluster. */
  lemma HereSector(f: File, q: nat)
    requires Core(f) && Here(f, q)
    ensures f.g.csize > 0 && f.fptr / 512 % f.g.csize < f.g.csize
    ensures var k, r := f.fptr / 512, f.fptr / 512 % f.g.csize;
            && k == f.g.csize * q + r && k < |Secs(f)|
            && Secs(f)[k] == ClusterBase(f.g, f.clust) + r
            && f.g.database <= Secs(f)[k] < f.g.volend
  {
    var k := f.fptr / 512;
    assert f.g.csize * (q + 1) == f.g.csize * q + f.g.csize;
    DivModUnique(k, f.g.csize, q, k - f.g.csize * q);
    SectorsAt(f.g, f.chain, q, k - f.g.csize * q);
    SecsFacts(f);
  }

  lemma FirstCluster(f: File)
    requires Sane(f)
    ensures f.sclust == 0 <==> f.chain == []
    ensures f.sclust != 0 ==> 2 <= f.sclust as int == f.chain[0]
    ensures OnlyFile(f, f)
  {
  }

  lemma CursorInChain(f: File)
    requires Good(f) && f.fptr > 0
    ensures f.chain != [] && f.ci < |f.chain| && f.clust as int == f.chain[f.ci]
  {
  }

  lemma StillGood(f: File, h: File)
    requires Good(f) && Core(h) && h == f.(img := h.img, win := h.win)
    ensures Good(h)
  {
  }

  /** Inside a sector everything for a partial transfer is in place. */
  lemma InsideSector(f: File)
    requires Good(f) && f.fptr % 512 != 0
    ensures Core(f) && Here(f, f.ci) && NeedsOrEdge(f, f.ci)
    ensures Ready(f, f.fptr / 512, f.buf) && f.sect as int == Secs(f)[f.fptr / 512]
    ensures 512 * (f.fptr / 512) + 512 <= 512 * (f.g.csize * (f.ci + 1))
  {
    StayHere(f);
    ReadyInside(f);
  }

  /** A sector boundary in the middle of a cluster. */
  lemma MidCluster(f: File)
    requires Good(f) && f.fptr % 512 == 0 && f.fptr / 512 % f.g.csize != 0
    ensures Core(f) && Here(f, f.ci) && NeedsOrEdge(f, f.ci)
  {
    DivModUnique(0, f.g.csize, 0, 0);
    StayHere(f);
  }

  lemma GoodIsCore(f: File)
    requires Good(f)
    ensures Core(f) && VolumeOk(f) && f.fptr <= |Data(f)| == f.size && OnlyFile(f, f)
  {
  }

  /** An empty buffer has nothing to write back. */
  lemma NothingLoaded(f: File)
    requires Good(f) && f.sect == 0
    ensures !f.dirty
  {
  }

  /** From a sector boundary to the end of the cluster the sectors are consecutive. */
  lemma HereRun(f: File, q: nat, cc: nat)
    requires Core(f) && Here(f, q) && f.fptr % 512 == 0
    requires 0 < f.g.csize && f.fptr / 512 % f.g.csize + cc <= f.g.csize && 0 < cc
    ensures var k := f.fptr / 512;
            && f.fptr == 512 * k && k + cc <= |Secs(f)| && Adjacent(Secs(f), k, cc)
            && f.g.database <= Secs(f)[k] && Secs(f)[k] + cc <= f.g.volend
            && f.fptr + 512 * cc <= 512 * (f.g.csize * (q + 1))
  {
    hide Sane, Sectors, ClusterBase;
    HereSector(f, q);
    var k := f.fptr / 512;
    assert f.g.csize * (q + 1) == f.g.csize * q + f.g.csize;
    RunInCluster(f, q, k, cc);
  }

  /** Sectors of one cluster are consecutive. */
  lemma RunInCluster(f: File, q: nat, k: nat, cc: nat)
    requires Sane(f) && q < |f.chain| && f.g.csize * q <= k && k + cc <= f.g.csize * q + f.g.csize && 0 < cc
    ensures k + cc <= |Secs(f)| && Adjacent(Secs(f), k, cc)
    ensures Secs(f)[k] + cc <= f.g.volend
  {
    SecsFacts(f);
    var secs, base, first := Secs(f), ClusterBase(f.g, f.chain[q]), f.g.csize * q;
    forall i | k <= i < k + cc ensures i < |secs| && secs[i] == base + (i - first) {
      hide Sane;
      ClusterSector(f, q, i);
    }
    hide Sane, Secs, ClusterBase;
    assert secs[k + cc - 1] < f.g.volend;
  }

  lemma ClusterSector(f: File, q: nat, i: nat)
    requires q < |f.chain| && f.g.csize * q <= i < f.g.csize * q + f.g.csize
    ensures i < |Secs(f)| && Secs(f)[i] == ClusterBase(f.g, f.chain[q]) + (i - f.g.csize * q)
  {
    SectorsAt(f.g, f.chain, q, i - f.g.csize * q);
  }

  /** The raw device holds the file's clean sectors: the window is elsewhere. */
  lemma SectorNotWindow(f: File, k: nat)
    requires Sane(f) && k < |Secs(f)|
    ensures Secs(f)[k] != f.win && f.g.database <= Secs(f)[k] < f.g.volend
  {
    SecsNotElsewhere(f, k, f.win);
    SecsFacts(f);
  }

  lemma FlushedHere(f: File, q: nat)
    requires Core(f) && Here(f, q) && NeedsOrEdge(f, q)
    ensures Here(Flushed(f), q) && NeedsOrEdge(Flushed(f), q) && Secs(Flushed(f)) == Secs(f)
  {
  }

  lemma CurrentCluster(f: File, q: nat)
    requires Core(f) && Here(f, q)
    ensures WellFormed(f.g) && InData(f.g, f.clust)
  {
    ChainClusters(f, q);
  }

  /** Entering the next cluster at a cluster boundary. */
  lemma EnteredHere(f: File, h: File)
    requires Good(f) && f.fptr % 512 == 0 && f.fptr / 512 % f.g.csize == 0
    requires h.g == f.g && h.fptr == f.fptr && h.size == f.size && h.floor == f.floor
    requires h.ci == if f.fptr == 0 then 0 else f.ci + 1
    requires h.ci < |h.chain| && h.clust as int == h.chain[h.ci]
    requires |h.chain| == if h.ci < |f.chain| then |f.chain| else h.ci + 1
    ensures Here(h, h.ci) && NeedsOrEdge(h, h.ci)
  {
    hide Good, Core, AtHome;
    EnterFacts(f);
    var c := f.g.csize;
    assert c * (h.ci + 1) == c * h.ci + c;
    assert f.fptr == 512 * (c * h.ci);
    if h.ci >= |f.chain| {
      EnterEdge(c, |f.chain|, f.size, f.fptr, h.ci);
    }
  }

  lemma EnterEdge(c: nat, n: nat, size: nat, fptr: nat, q: nat)
    requires c > 0 && fptr == 512 * (c * q) <= size && q >= n && size <= 512 * (c * n)
    ensures q == n && size == fptr
  {
    MulMono(c, n, q);
    assert c * (n + 1) == c * n + c;
    if q > n {
      MulMono(c, n + 1, q);
    }
  }

  lemma EnterFacts(f: File)
    requires Good(f) && f.fptr % 512 == 0 && f.fptr / 512 % f.g.csize == 0
    ensures f.g.csize > 0 && f.fptr <= f.size && Needs(f.g, |f.chain|, f.size, f.floor)
    ensures f.size <= 512 * (f.g.csize * |f.chain|)
    ensures f.fptr > 0 ==> f.ci < |f.chain| && f.fptr == 512 * (f.g.csize * (f.ci + 1))
  {
    if f.fptr > 0 {
      AtBoundary(f);
    }
  }

  /** Moving forward inside the cluster keeps length and cursor right. */
  lemma AdvanceInCluster(f: File, h: File, q: nat, n: nat)
    requires Core(f) && Here(f, q) && NeedsOrEdge(f, q) && 0 < n
    requires f.fptr + n <= 512 * (f.g.csize * (q + 1)) && f.fptr + n < TWO32
    requires h.g == f.g && h.chain == f.chain && h.floor == f.floor && h.clust == f.clust && h.ci == f.ci
    requires h.fptr == f.fptr + n && h.size == Grown(f.size, h.fptr)
    ensures Needs(h.g, |h.chain|, h.size, h.floor) && CursorOk(h)
  {
    MulMono(f.g.csize, q + 1, |f.chain|);
  }

  // ---------------------------------------------------------------- the file as stored

  const DIR_Attr: nat := 11
  const DIR_FstClusHI: nat := 20
  const DIR_ModTime: nat := 22
  const DIR_LstAccDate: nat := 18
  const DIR_FstClusLO: nat := 26
  const DIR_FileSize: nat := 28

  /** `ld_clust`: start cluster of the directory entry at offset `o` of sector `s`. */
  function DirClust(g: Geometry, s: seq<Byte>, o: nat): (c: U32)
    requires o + 32 <= |s|
  {
    LdWord(s, o + DIR_FstClusLO) + if g.fsType == Fat32 then LdWord(s, o + DIR_FstClusHI) as int * 0x1_0000 else 0
  }

  function DirSize(s: seq<Byte>, o: nat): (n: U32)
    requires o + 32 <= |s|
  {
    LdDword(s, o + DIR_FileSize)
  }

  /** The fields of a 32-byte directory entry, byte by byte: start cluster at 26 and, on FAT32, 20; size at 28. */
  lemma EntryLayout(g: Geometry, s: seq<Byte>, o: nat)
    requires o + 32 <= |s|
    ensures DirClust(g, s, o) ==
            s[o + 26] as int + s[o + 27] as int * 0x100
            + if g.fsType == Fat32 then s[o + 20] as int * 0x1_0000 + s[o + 21] as int * 0x100_0000 else 0
    ensures DirSize(s, o) ==
            s[o + 28] as int + s[o + 29] as int * 0x100 + s[o + 30] as int * 0x1_0000 + s[o + 31] as int * 0x100_0000
  {
  }

  /** On image `img` the directory entry at `(dirSect, o)`, followed through the FAT along `cs`,
      stores exactly the bytes `d`. */
  ghost predicate Stores(g: Geometry, img: Image, dirSect: int, o: nat, cs: seq<nat>, d: seq<Byte>) {
    && WellFormed(g) && g.volend <= |img| && 0 <= dirSect < |img| && o + 32 <= 512
    && (if cs == [] then DirClust(g, img[dirSect], o) == 0
        else IsChain(Table(g, img), cs) && cs[0] == DirClust(g, img[dirSect], o))
    && |d| == DirSize(img[dirSect], o)
    && Fits(img, Sectors(g, cs), |d|)
    && d == Content(img, Sectors(g, cs), |d|)
  }

  /** An entry without clusters and of size 0 stores the empty file. */
  lemma EmptyStores(g: Geometry, img: Image, dirSect: int, o: nat)
    requires WellFormed(g) && g.volend <= |img| && 0 <= dirSect < |img| && o + 32 <= 512
    requires DirClust(g, img[dirSect], o) == 0 && DirSize(img[dirSect], o) == 0
    ensures Stores(g, img, dirSect, o, [], [])
  {
  }

  /** A freshly opened file: pointer at 0, no cluster current, nothing buffered. */
  lemma OpenedGood(f: File, o: nat, d: seq<Byte>)
    requires Stores(f.g, f.img, f.dirSect, o, f.chain, d) && f.fat == Table(f.g, f.img) && f.win == f.dirSect
    requires f.g.fatbase + FatArea(f.g) <= f.dirSect < f.g.volend
    requires |f.fat| == f.g.nFatent && Elsewhere(f, f.dirSect)
    requires f.sclust == DirClust(f.g, f.img[f.dirSect], o) && f.size == DirSize(f.img[f.dirSect], o)
    requires f.fptr == 0 && f.sect == 0 && !f.dirty && f.floor == |f.chain|
    ensures Good(f) && Data(f) == d
  {
    SecsFacts(f);
  }

  /** A transfer that ends inside the cluster it started in leaves the file in order. */
  lemma LandsGood(f: File, h: File, q: nat, n: nat, k: nat)
    requires Core(f) && Core(h) && Here(f, q) && NeedsOrEdge(f, q) && 0 < n
    requires f.fptr + n <= 512 * (f.g.csize * (q + 1)) && f.fptr + n < TWO32
    requires h.g == f.g && h.chain == f.chain && h.floor == f.floor && h.clust == f.clust && h.ci == f.ci
    requires h.fptr == f.fptr + n && h.size == Grown(f.size, h.fptr)
    requires h.fptr % 512 == 0 ||
             (k == f.fptr / 512 < |Secs(f)| && h.fptr <= 512 * k + 512 && h.sect as int == Secs(f)[k])
    ensures Good(h)
  {
    AdvanceInCluster(f, h, q, n);
    if h.fptr % 512 != 0 {
      assert h.fptr / 512 == k;
    }
  }

  lemma DirectStart(f: File, k: nat, cc: nat, src: seq<Byte>, off: nat, buf: Sector)
    requires DirectOk(f, k, cc, src, off, buf)
    ensures Core(f) && f.fptr == 512 * k && 0 < cc && f.fptr + 512 * cc < TWO32
    ensures (f.fptr + 512 * cc) % 512 == 0
  {
    hide Core, Secs, Adjacent;
    assert f.fptr + 512 * cc == 512 * (k + cc);
  }

  lemma DirectFields(f: File, h: File, k: nat, cc: nat, src: seq<Byte>, off: nat)
    requires DirectOk(f, k, cc, src, off, h.buf) && h == Direct(f, Secs(f)[k], cc, src, off, h.buf)
    ensures h.g == f.g && h.chain == f.chain && h.floor == f.floor && h.clust == f.clust && h.ci == f.ci
    ensures h.fptr == f.fptr + 512 * cc && h.size == Grown(f.size, h.fptr)
  {
  }

  lemma DirectLands(f: File, h: File, q: nat, k: nat, cc: nat, src: seq<Byte>, off: nat)
    requires DirectOk(f, k, cc, src, off, h.buf) && h == Direct(f, Secs(f)[k], cc, src, off, h.buf)
    requires Core(h) && Here(f, q) && NeedsOrEdge(f, q) && f.fptr + 512 * cc <= 512 * (f.g.csize * (q + 1))
    ensures Good(h)
  {
    hide Sane, Here, NeedsOrEdge, Good, WriteRange, Adjacent, DirectOk, Direct, Core, Secs, Grown;
    DirectStart(f, k, cc, src, off, h.buf);
    DirectFields(f, h, k, cc, src, off);
    LandsGood(f, h, q, 512 * cc, k);
  }

  /** Outcome of a direct transfer that stays in the current cluster. */
  lemma DirectDone(f: File, h: File, q: nat, k: nat, cc: nat, src: seq<Byte>, off: nat)
    requires DirectOk(f, k, cc, src, off, h.buf) && h == Direct(f, Secs(f)[k], cc, src, off, h.buf)
    requires Here(f, q) && NeedsOrEdge(f, q) && f.fptr + 512 * cc <= 512 * (f.g.csize * (q + 1))
    ensures Good(h) && OnlyFile(f, h) && Data(h) == Splice(Data(f), f.fptr, src[off..off + 512 * cc])
  {
    hide Sane, OnlyFile, View, WriteRange, Data, Good, Here, NeedsOrEdge, Splice, Secs, Direct, Adjacent;
    DirectWrite(f, h, k, cc, src, off);
    DirectOnlyFile(f, h, k, cc, src, off);
    DirectLands(f, h, q, k, cc, src, off);
  }

  // ---------------------------------------------------------------- reading

  /** Below the end of the file the next cluster exists. */
  lemma NextExists(f: File)
    requires Good(f) && f.fptr < f.size && f.fptr % 512 == 0 && f.fptr / 512 % f.g.csize == 0
    ensures f.fptr == 0 ==> f.chain != [] && f.sclust as int == f.chain[0] && f.sclust >= 2
    ensures f.fptr > 0 ==>
              f.ci + 1 < |f.chain| && f.clust as int == f.chain[f.ci] && Get(f.fat, f.clust) as int == f.chain[f.ci + 1]
    ensures forall q :: 0 <= q < |f.chain| ==> f.chain[q] >= 2
  {
    if f.fptr > 0 {
      AtBoundary(f);
      if f.ci + 1 >= |f.chain| {
        MulMono(f.g.csize, |f.chain|, f.ci + 1);
      }
      ChainClusters(f, f.ci);
    }
  }

  /** Bytes read from the device, with the dirty buffer laid over its sector, are the file's bytes. */
  lemma DirectRead(f: File, k: nat, cc: nat, bytes: seq<Byte>)
    requires Core(f) && f.fptr == 512 * k && 0 < cc && k + cc <= |Secs(f)| && Adjacent(Secs(f), k, cc)
    requires f.fptr + 512 * cc <= f.size && 0 <= Secs(f)[k] && Secs(f)[k] + cc <= |f.img|
    requires Overlaid(bytes, f.img, Secs(f)[k], cc, f.dirty, f.sect, f.buf)
    ensures bytes == Data(f)[f.fptr..f.fptr + 512 * cc]
  {
    hide Sane, Data, Sectors, Adjacent;
    var d := Data(f);
    forall j | 0 <= j < 512 * cc ensures bytes[j] == d[f.fptr..f.fptr + 512 * cc][j] {
      DirectByte(f, k, cc, j);
    }
  }

  lemma DirectByte(f: File, k: nat, cc: nat, j: nat)
    requires Core(f) && f.fptr == 512 * k && k + cc <= |Secs(f)| && 0 < cc && Adjacent(Secs(f), k, cc)
    requires f.fptr + 512 * cc <= f.size && j < 512 * cc && 0 <= Secs(f)[k] && Secs(f)[k] + cc <= |f.img|
    ensures Data(f)[f.fptr + j] == if f.dirty && f.sect as int == Secs(f)[k] + j / 512 then f.buf[j % 512]
                                   else f.img[Secs(f)[k] + j / 512][j % 512]
  {
    CoreFits(f);
    SplitIndex(k, j);
    assert Secs(f)[k + j / 512] == Secs(f)[k] + j / 512;
    assert Data(f)[f.fptr + j] == View(f)[Secs(f)[k + j / 512]][j % 512];
  }

  lemma SplitIndex(k: nat, j: nat)
    ensures (512 * k + j) / 512 == k + j / 512 && (512 * k + j) % 512 == j % 512
  {
  }

  /** Bytes taken from a buffer that is ready for sector `k` are the file's bytes. */
  lemma PartialRead(f: File, k: nat, buf: Sector, n: nat)
    requires Ready(f, k, buf) && f.fptr / 512 == k && f.fptr % 512 + n <= 512 && f.fptr + n <= f.size
    ensures buf[f.fptr % 512..f.fptr % 512 + n] == Data(f)[f.fptr..f.fptr + n]
  {
    hide Data, Ready;
    ReadyByte(f, k, buf);
    var d, o := Data(f), f.fptr % 512;
    var x, y := buf[o..o + n], d[f.fptr..f.fptr + n];
    forall j | 0 <= j < n ensures x[j] == y[j] {
      assert d[512 * k + (o + j)] == buf[o + j];
    }
  }

  lemma ReadyByte(f: File, k: nat, buf: Sector)
    requires Ready(f, k, buf)
    ensures Core(f) && forall j :: 0 <= j < 512 && 512 * k + j < f.size ==> Data(f)[512 * k + j] == buf[j]
  {
    CoreFits(f);
    hide Sane;
    forall j | 0 <= j < 512 && 512 * k + j < f.size ensures Data(f)[512 * k + j] == buf[j] {
      SplitIndex(k, j);
    }
  }

  /** Outcome of a direct read that stays in the current cluster. */
  lemma DirectReadDone(f: File, h: File, q: nat, k: nat, cc: nat, bytes: seq<Byte>)
    requires Core(f) && f.fptr == 512 * k && 0 < cc && k + cc <= |Secs(f)| && Adjacent(Secs(f), k, cc)
    requires f.fptr + 512 * cc <= f.size && 0 <= Secs(f)[k] && Secs(f)[k] + cc <= |f.img|
    requires Overlaid(bytes, f.img, Secs(f)[k], cc, f.dirty, f.sect, f.buf)
    requires Here(f, q) && NeedsOrEdge(f, q) && f.fptr + 512 * cc <= 512 * (f.g.csize * (q + 1))
    requires h == f.(fptr := f.fptr + 512 * cc)
    ensures Good(h) && Data(h) == Data(f) && OnlyFile(f, h)
    ensures bytes == Data(f)[f.fptr..h.fptr]
  {
    hide Sane, Here, NeedsOrEdge, Adjacent, Overlaid, Data, Good, OnlyFile, Secs;
    DirectRead(f, k, cc, bytes);
    ReadLands(f, h, q, 512 * cc, k);
  }

  lemma OnlyFatRefl(f: File)
    requires Sane(f)
    ensures OnlyFatChanged(f.g, f.img, f.img)
  {
  }

  lemma CoreOnlyFile(f: File)
    requires Sane(f)
    ensures OnlyFile(f, f)
  {
  }

  /** Only the pointer moved, within the cluster and not past the end. */
  lemma ReadLands(f: File, h: File, q: nat, n: nat, k: nat)
    requires Core(f) && Here(f, q) && NeedsOrEdge(f, q) && 0 < n && f.fptr + n <= f.size
    requires f.fptr + n <= 512 * (f.g.csize * (q + 1)) && h == f.(fptr := f.fptr + n)
    requires h.fptr % 512 == 0 ||
             (k == f.fptr / 512 < |Secs(f)| && h.fptr <= 512 * k + 512 && h.sect as int == Secs(f)[k])
    ensures Good(h) && Data(h) == Data(f) && OnlyFile(f, h)
  {
    assert Core(h);
    LandsGood(f, h, q, n, k);
  }

  /** A clean buffer standing for the sector, or the dirty one of that sector, is ready. */
  lemma ReadyLoaded(f: File, k: nat)
    requires Core(f) && k < |Secs(f)| && f.sect as int == Secs(f)[k]
    ensures Ready(f, k, f.buf)
  {
    CoreFits(f);
    assert f.g.database <= Secs(f)[k];
  }

  lemma SameSecs(f: File, h: File)
    requires h.g == f.g && h.chain == f.chain
    ensures Secs(h) == Secs(f)
  {
  }

  lemma MovedHere(f: File, h: File, q: nat)
    requires Here(f, q) && NeedsOrEdge(f, q)
    requires h.g == f.g && h.chain == f.chain && h.floor == f.floor && h.clust == f.clust && h.ci == f.ci
    requires h.fptr == f.fptr && h.size == f.size
    ensures Here(h, q) && NeedsOrEdge(h, q) && Secs(h) == Secs(f)
  {
  }

  // ---------------------------------------------------------------- seeking

  /** While seeking: the current cluster is number `ci` and the pointer stands on its first byte; the
      chain covers the size, or has just been stretched up to the current cluster. */
  ghost predicate Seeking(f: File) {
    && Sane(f) && f.ci < |f.chain| && f.clust as int == f.chain[f.ci]
    && f.fptr == 512 * (f.g.csize * f.ci)
    && (Needs(f.g, |f.chain|, f.size, f.floor) || f.floor <= |f.chain| == f.ci + 1)
  }

  /** Starting from the current cluster: its first byte, at or before the target. */
  lemma SeekFromHere(f: File, ofs: nat)
    requires Good(f) && f.fptr > 0 && ofs > 0
    requires var bcs := 512 * f.g.csize; (ofs - 1) / bcs >= (f.fptr - 1) / bcs
    ensures var bcs := 512 * f.g.csize;
            f.fptr - 1 - (f.fptr - 1) % bcs == 512 * (f.g.csize * f.ci) < ofs
  {
    hide Sane, Needs, Positioned;
    SizeFacts(f);
    SeekNumbers(f.g.csize, f.ci, f.fptr, ofs);
  }

  lemma SeekNumbers(c: nat, ci: nat, fptr: nat, ofs: nat)
    requires c > 0 && fptr > 0 && ofs > 0 && 512 * (c * ci) < fptr <= 512 * (c * (ci + 1))
    requires (ofs - 1) / (512 * c) >= (fptr - 1) / (512 * c)
    ensures fptr - 1 - (fptr - 1) % (512 * c) == 512 * (c * ci) < ofs
  {
    var bcs := 512 * c;
    assert bcs * ci == 512 * (c * ci) && bcs * (ci + 1) == 512 * (c * (ci + 1));
    Multiple(fptr - 1, bcs, ci, ofs - 1);
  }

  /** The same, as a state. */
  lemma SeekHere(f: File, p: U32)
    requires Good(f) && f.fptr > 0 && p == 512 * (f.g.csize * f.ci)
    ensures Seeking(f.(fptr := p))
  {
  }

  lemma Multiple(x: nat, b: nat, q: nat, y: nat)
    requires b > 0 && b * q <= x < b * (q + 1) && y / b >= x / b
    ensures x - x % b == b * q <= y
  {
    assert b * (q + 1) == b * q + b;
    DivModUnique(x, b, q, x - b * q);
    var p, r := DivMod(y, b);
    MulMono(b, q, p);
  }

  /** Starting from the first cluster. */
  lemma SeekFromStart(f: File, h: File)
    requires Good(f) && f.chain != []
    requires h == f.(fptr := 0, clust := h.clust, ci := 0) && h.clust as int == f.chain[0]
    ensures Seeking(h) && Data(h) == Data(f) && OnlyFile(f, h)
  {
    assert f.g.csize * 0 == 0;
  }

  /** One cluster further. */
  lemma SeekOn(f: File, h: File)
    requires Seeking(f) && Sane(h) && h.g == f.g && h.size == f.size
    requires h.fptr == f.fptr + 512 * f.g.csize && h.ci == f.ci + 1
    requires h.ci < |h.chain| && h.clust as int == h.chain[h.ci]
    requires |h.chain| == (if h.ci < |f.chain| then |f.chain| else h.ci + 1) && h.floor == f.floor
    ensures Seeking(h)
  {
    hide Sane;
    assert f.g.csize * (f.ci + 1) == f.g.csize * f.ci + f.g.csize;
  }

  /** Below the size the chain goes on. */
  lemma SeekNextExists(f: File, ofs: nat)
    requires Seeking(f) && Needs(f.g, |f.chain|, f.size, f.floor) && ofs > 512 * f.g.csize && f.fptr + ofs <= f.size
    ensures f.ci + 1 < |f.chain| && Get(f.fat, f.clust) as int == f.chain[f.ci + 1]
    ensures 2 <= f.chain[f.ci + 1] < |f.fat|
  {
    hide Sane, Get;
    SeekingFacts(f);
    NextNumber(f.g.csize, f.ci, |f.chain|, f.fptr, ofs, f.size);
    NextCluster1(f, f.ci);
  }

  lemma NextNumber(c: nat, q: nat, n: nat, fptr: nat, ofs: nat, size: nat)
    requires fptr == 512 * (c * q) && ofs > 512 * c && fptr + ofs <= size <= 512 * (c * n)
    ensures q + 1 < n
  {
    assert c * (q + 1) == c * q + c;
    if q + 1 >= n {
      MulMono(c, n, q + 1);
    }
  }

  lemma NextCluster1(f: File, q: nat)
    requires Sane(f) && q + 1 < |f.chain| && f.clust as int == f.chain[q]
    ensures Get(f.fat, f.clust) as int == f.chain[q + 1] && 2 <= f.chain[q + 1] < |f.fat|
  {
    hide BufOk, Elsewhere;
    ChainClusters(f, q);
    ChainClusters(f, q + 1);
  }

  /** The end of a seek: `h` is `f` with the pointer in the current cluster (or at its end) and the
      size grown to cover it; the bytes there before are kept. */
  lemma SeekDone(f: File, h: File)
    requires Seeking(f) && f.fptr < h.fptr <= f.fptr + 512 * f.g.csize
    requires h == f.(fptr := h.fptr, size := Grown(f.size, h.fptr))
    ensures Core(h) && Needs(h.g, |h.chain|, h.size, h.floor) && CursorOk(h)
    ensures Data(h)[..f.size] == Data(f) && OnlyFile(f, h)
  {
    var c := f.g.csize;
    assert c * (f.ci + 1) == c * f.ci + c;
    MulMono(c, f.ci + 1, |f.chain|);
    assert c * (|f.chain| - 1) == c * |f.chain| - c;
    CoreFits(f);
    assert Sane(h);
    ContentPrefix(View(f), Secs(f), [], f.size, h.size);
    assert Secs(f) + [] == Secs(f);
  }

  /** The sector under the pointer after a seek that ends inside a sector. */
  lemma SeekSector(f: File, fptr: nat, ofs: nat)
    requires Seeking(f) && 0 < ofs < 512 * f.g.csize && fptr == f.fptr + ofs
    ensures WellFormed(f.g) && InData(f.g, f.clust) && fptr / 512 < |Secs(f)|
    ensures Secs(f)[fptr / 512] == ClusterBase(f.g, f.clust) + ofs / 512
    ensures f.g.database <= Secs(f)[fptr / 512] < f.g.volend
  {
    ChainClusters(f, f.ci);
    SplitIndex(f.g.csize * f.ci, ofs);
    SectorsAt(f.g, f.chain, f.ci, ofs / 512);
    SecsFacts(f);
  }

  lemma SizeFacts(f: File)
    requires Good(f)
    ensures f.chain == [] ==> f.size == 0
    ensures 512 * f.g.csize > 0 && Needs(f.g, |f.chain|, f.size, f.floor)
  {
  }

  lemma ClusterAtLeast2(f: File)
    requires Good(f) && f.fptr > 0
    ensures f.clust >= 2
  {
    ChainClusters(f, f.ci);
  }

  /** Moving the pointer alone changes nothing stored. */
  lemma SinkPointer(f: File, p: U32)
    requires Sane(f)
    ensures var h := f.(fptr := p); Sane(h) && Data(h) == Data(f) && OnlyFile(f, h)
    ensures forall x: File :: OnlyFile(f.(fptr := p), x) ==> OnlyFile(f, x)
  {
  }

  /** The first cluster of an empty file has just been taken. */
  lemma SeekFirst(f: File, h: File)
    requires f.chain == [] && f.size == 0 && Sane(h) && h.size == 0 && h.fptr == 0
    requires h.floor <= |h.chain| == 1 && h.clust as int == h.chain[0] && h.ci == 0
    ensures Seeking(h)
  {
  }

  /** A failed stretch leaves the state before it in order. */
  lemma SeekFull(f: File, h: File)
    requires Seeking(f) && Sane(h) && h == f.(img := h.img, win := h.win, fptr := h.fptr)
    ensures Seeking(f.(img := h.img, win := h.win))
  {
  }

  lemma ClusterSize(f: File)
    requires Sane(f)
    ensures f.g.csize > 0 && WellFormed(f.g)
  {
  }

  lemma WholeData(f: File)
    requires Sane(f)
    ensures Data(f)[..f.size] == Data(f)
  {
  }

  /** Rewinding to the top of the file. */
  lemma AtZero(f: File, h: File)
    requires Good(f) && h == f.(fptr := 0)
    ensures Good(h) && Data(h) == Data(f) && OnlyFile(f, h)
  {
  }

  /** A file without clusters. */
  lemma EmptyGood(f: File)
    requires Sane(f) && f.chain == [] && f.floor == 0 && f.fptr == 0 && f.size == 0
    ensures Good(f) && ChainEnd(f)
  {
  }

  /** Inside a sector after a seek only when the remaining offset is not a multiple of the sector size. */
  lemma PointerParity(f: File, rest: nat)
    requires Seeking(f)
    ensures (f.fptr + rest) % 512 == rest % 512
    ensures (f.fptr + 512 * f.g.csize) % 512 == 0
  {
    SplitIndex(f.g.csize * f.ci, rest);
    SplitIndex(f.g.csize * f.ci + f.g.csize, 0);
  }

  lemma SeekGood(h: File, k: File)
    requires Core(h) && Needs(h.g, |h.chain|, h.size, h.floor) && CursorOk(h) && Sane(k)
    requires k == h.(img := k.img, dirty := k.dirty, buf := k.buf, sect := k.sect)
    requires h.fptr % 512 != 0 ==> h.fptr / 512 < |Secs(h)| && k.sect as int == Secs(h)[h.fptr / 512]
    ensures Good(k)
  {
  }

  lemma SeekingFacts(f: File)
    requires Seeking(f)
    ensures Sane(f) && f.g.csize > 0 && f.chain != [] && f.ci < |f.chain| && f.clust as int == f.chain[f.ci]
    ensures OnlyFile(f, f)
  {
  }

  // ---------------------------------------------------------------- truncating

  /** The table after the chain was cut behind its first `m` clusters and the rest freed. */
  ghost predicate CutTable(f: File, fat: seq<U32>, m: nat) {
    && m <= |f.chain| && |fat| == |f.fat|
    && (forall c :: 0 <= c < |fat| && c !in f.chain ==> fat[c] == f.fat[c])
    && (forall i :: 0 <= i < |f.chain| && 2 <= f.chain[i] < |fat| ==>
                      if i < m - 1 then fat[f.chain[i]] == f.fat[f.chain[i]]
                      else if i == m - 1 then fat[f.chain[i]] >= |fat|
                      else fat[f.chain[i]] == 0)
  }

  /** The file cut at its pointer to its first `m` clusters; a dirty buffer has been written back. */
  function Truncated(f: File, img: Image, fat: seq<U32>, win: int, m: nat): File
    requires m <= |f.chain| && f.sect < |img|
  {
    f.(img := if f.dirty then img[f.sect := f.buf] else img, fat := fat, win := win,
       chain := f.chain[..m], floor := 0, sclust := if m == 0 then 0 else f.sclust, size := f.fptr, dirty := false)
  }

  ghost predicate CutOk(f: File, img: Image, fat: seq<U32>, win: int, m: nat) {
    && Good(f) && f.fptr < f.size && m == (if f.fptr == 0 then 0 else f.ci + 1)
    && OnlyFatChanged(f.g, f.img, img) && 0 <= win < |img| && (win == f.win || InFat1(f.g, win))
    && CutTable(f, fat, m)
  }

  /** Freeing from the `m`-th cluster on gives such a table. */
  lemma RemoveCuts(f: File, a: Alloc, m: nat)
    requires Sane(f) && a.t == f.fat && m < |f.chain|
    ensures var (b, ok) := Remove(f.g.fsType, a, f.chain[m], if m == 0 then 0 else f.chain[m - 1]);
            ok && CutTable(f, b.t, m) && (FreeOk(a) ==> FreeOk(b))
  {
    assert IsChain(f.fat, f.chain) && TableOk(f.g.fsType, f.fat);
    hide Sane, Remove, FreeOk;
    RemovePart(f.g.fsType, a, f.chain, m);
    EndValueIsEnd(f.g.fsType, a.t);
    ClearedCuts(f, EndValue(f.g.fsType), m);
  }

  lemma ClearedCuts(f: File, end: U32, m: nat)
    requires IsChain(f.fat, f.chain) && m < |f.chain| && end >= |f.fat|
    ensures CutTable(f, Cleared(if m == 0 then f.fat else f.fat[f.chain[m - 1] := end], f.chain[m..]), m)
  {
    var u := Cleared(if m == 0 then f.fat else f.fat[f.chain[m - 1] := end], f.chain[m..]);
    var tail := f.chain[m..];
    forall i | 0 <= i < |f.chain|
      ensures if i < m - 1 then u[f.chain[i]] == f.fat[f.chain[i]]
              else if i == m - 1 then u[f.chain[i]] >= |u|
              else u[f.chain[i]] == 0
    {
      if i < m {
        NotLater(f.fat, f.chain, i, m);
        if i < m - 1 { ChainDistinct(f.fat, f.chain, i, m - 1); }
      } else {
        assert f.chain[i] == tail[i - m];
      }
    }
  }

  lemma NotLater(t: seq<U32>, cs: seq<nat>, i: nat, m: nat)
    requires IsChain(t, cs) && i < m <= |cs|
    ensures cs[i] !in cs[m..]
  {
    forall j | m <= j < |cs| ensures cs[j] != cs[i] { ChainDistinct(t, cs, i, j); }
  }

  lemma CutChain(f: File, fat: seq<U32>, m: nat)
    requires VolumeOk(f) && ChainOk(f) && CutTable(f, fat, m)
    ensures |fat| == |f.fat| && m <= |f.chain| && forall c :: InData(f.g, c) && c !in f.chain ==> fat[c] == f.fat[c]
    ensures m > 0 ==> IsChain(fat, f.chain[..m])
    ensures forall c :: InData(f.g, c) && c !in f.chain[..m] && c in f.chain ==> fat[c] == 0
  {
    if m > 0 {
      var cs := f.chain[..m];
      forall i | 0 <= i < m - 1 ensures fat[cs[i]] == cs[i + 1] {
        assert f.fat[f.chain[i]] == f.chain[i + 1];
      }
    }
  }

  lemma CutElsewhere(f: File, h: File, m: nat, s: int)
    requires Sane(f) && CutTable(f, h.fat, m) && Elsewhere(f, s)
    requires h.g == f.g && h.chain == f.chain[..m]
    ensures Elsewhere(h, s)
  {
    forall c | s >= f.g.database && InData(f.g, c) && SectorIn(f.g, c, s) ensures c !in h.chain && h.fat[c] != 0 {
      assert c !in f.chain && f.fat[c] != 0;
    }
  }

  lemma CutHome(f: File, h: File, m: nat, s: int)
    requires Sane(f) && CutTable(f, h.fat, m) && AtHome(f, s)
    requires h.g == f.g && h.chain == f.chain[..m]
    ensures AtHome(h, s)
  {
    CutChain(f, h.fat, m);
    var c :| InData(f.g, c) && SectorIn(f.g, c, s) && (c in f.chain || f.fat[c] == 0);
    assert c in h.chain || h.fat[c] == 0;
  }

  lemma CutBuf(f: File, img: Image, fat: seq<U32>, win: int, m: nat)
    requires CutOk(f, img, fat, win, m)
    ensures m <= |f.chain| && f.sect < |img|
    ensures var h := Truncated(f, img, fat, win, m); VolumeOk(h) && BufOk(h)
  {
    CursorInRange(f);
    var h := Truncated(f, img, fat, win, m);
    assert VolumeOk(h);
    if f.sect != 0 {
      hide Elsewhere, IsChain, CursorOk, Positioned, Needs;
      CutHome(f, h, m, f.sect);
      HomeNotElsewhere(f, f.sect, f.dirSect);
    }
  }

  lemma CutChainOk(f: File, img: Image, fat: seq<U32>, win: int, m: nat)
    requires CutOk(f, img, fat, win, m)
    ensures m <= |f.chain| && f.sect < |img|
    ensures var h := Truncated(f, img, fat, win, m);
            ChainOk(h) && h.size <= 512 * |Secs(h)| && f.g.fatbase + FatArea(f.g) <= f.dirSect < f.g.volend
  {
    CursorInRange(f);
    hide BufOk, Elsewhere, Positioned, Needs, View;
    CutChain(f, fat, m);
    HeadSectors(f.g, f.chain, m);
    assert m > 0 ==> f.chain[..m][0] == f.chain[0];
  }

  lemma CutElsewheres(f: File, img: Image, fat: seq<U32>, win: int, m: nat)
    requires CutOk(f, img, fat, win, m)
    ensures m <= |f.chain| && f.sect < |img|
    ensures var h := Truncated(f, img, fat, win, m);
            |h.fat| == h.g.nFatent && Elsewhere(h, h.win) && Elsewhere(h, h.dirSect)
  {
    CursorInRange(f);
    var h := Truncated(f, img, fat, win, m);
    CutElsewhere(f, h, m, f.win);
    CutElsewhere(f, h, m, f.dirSect);
  }

  lemma CutSane(f: File, img: Image, fat: seq<U32>, win: int, m: nat)
    requires CutOk(f, img, fat, win, m)
    ensures m <= |f.chain| && f.sect < |img|
    ensures Sane(Truncated(f, img, fat, win, m))
  {
    hide BufOk, Elsewhere, ChainOk, VolumeOk, CutOk, Secs, FatArea;
    CutBuf(f, img, fat, win, m);
    CutChainOk(f, img, fat, win, m);
    CutElsewheres(f, img, fat, win, m);
  }

  /** The truncated file is in order. */
  lemma TruncateKeeps(f: File, img: Image, fat: seq<U32>, win: int, m: nat)
    requires CutOk(f, img, fat, win, m)
    ensures m <= |f.chain| && f.sect < |img|
    ensures Good(Truncated(f, img, fat, win, m))
  {
    CutSane(f, img, fat, win, m);
    CursorInRange(f);
    hide Sane, CutTable;
    if f.fptr > 0 {
      TruncatedPointer(f, Truncated(f, img, fat, win, m), m);
    }
  }

  lemma CursorInRange(f: File)
    requires Good(f)
    ensures f.fptr > 0 ==> f.ci < |f.chain|
    ensures f.sect < |f.img|
  {
  }

  lemma {:induction false} HeadSectors(g: Geometry, cs: seq<nat>, m: nat)
    requires m <= |cs|
    ensures |Sectors(g, cs[..m])| == g.csize * m <= |Sectors(g, cs)|
    ensures Sectors(g, cs[..m]) == Sectors(g, cs)[..g.csize * m]
    decreases |cs|
  {
    if m < |cs| {
      HeadSectors(g, cs[..|cs| - 1], m);
      assert cs[..|cs| - 1][..m] == cs[..m];
    } else {
      assert cs[..m] == cs;
    }
  }

  lemma TruncatedPointer(f: File, h: File, m: nat)
    requires Good(f) && 0 < f.fptr && m == f.ci + 1
    requires h.g == f.g && h.chain == f.chain[..m] && h.fptr == f.fptr && h.size == f.fptr
    requires h.clust == f.clust && h.ci == f.ci && h.sect == f.sect && h.floor == 0
    ensures Needs(h.g, |h.chain|, h.size, h.floor) && CursorOk(h) && Positioned(h)
  {
    HeadSectors(f.g, f.chain, m);
  }

  lemma TruncateData(f: File, img: Image, fat: seq<U32>, win: int, m: nat)
    requires CutOk(f, img, fat, win, m)
    ensures m <= |f.chain| && f.sect < |img|
    ensures var h := Truncated(f, img, fat, win, m);
            Good(h) && Data(h) == Data(f)[..f.fptr]
  {
    TruncateKeeps(f, img, fat, win, m);
    var h := Truncated(f, img, fat, win, m);
    HeadSectors(f.g, f.chain, m);
    CoreFits(f);
    CoreFits(h);
    hide Sane, Sectors, View, OnlyFatChanged;
    var d, e := Data(f), Data(h);
    forall i | 0 <= i < f.fptr ensures e[i] == d[i] {
      TruncateByte(f, h, m, i / 512, img);
    }
  }

  lemma TruncateByte(f: File, h: File, m: nat, k: nat, img: Image)
    requires Sane(f) && Sane(h) && m <= |f.chain| && h.chain == f.chain[..m] && h.g == f.g
    requires OnlyFatChanged(f.g, f.img, img) && !h.dirty
    requires h.img == if f.dirty then img[f.sect := f.buf] else img
    requires k < |Secs(h)|
    ensures k < |Secs(f)| && Secs(h)[k] == Secs(f)[k]
    ensures 0 <= Secs(f)[k] < |f.img| && View(h)[Secs(f)[k]] == View(f)[Secs(f)[k]]
  {
    HeadSectors(f.g, f.chain, m);
    SecsFacts(f);
  }

  /** What truncation changes outside: the freed clusters of the file, and nothing else. */
  ghost predicate OnlyCut(a: File, b: File) {
    && VolumeOk(a) && VolumeOk(b) && b.g == a.g && |b.img| == |a.img| && b.dirSect == a.dirSect
    && b.chain <= a.chain
    && (forall c :: InData(a.g, c) && c !in a.chain ==> b.fat[c] == a.fat[c])
    && (forall c :: InData(a.g, c) && c in a.chain && c !in b.chain ==> b.fat[c] == 0)
    && (forall s :: 0 <= s < |a.img| && !(a.g.fatbase <= s < a.g.fatbase + FatArea(a.g)) && s !in Secs(a) ==>
                      b.img[s] == a.img[s])
    && (Mirrored(a.g, a.img) ==> Mirrored(b.g, b.img))
  }

  /** The device after the FAT was updated and the dirty buffer written: only FAT and file sectors differ. */
  lemma CutImage(f: File, img: Image)
    requires Sane(f) && OnlyFatChanged(f.g, f.img, img)
    ensures f.sect < |img|
    ensures var v := if f.dirty then img[f.sect := f.buf] else img;
            && (forall s :: 0 <= s < |v| && !(f.g.fatbase <= s < f.g.fatbase + FatArea(f.g)) && s !in Secs(f) ==>
                              v[s] == f.img[s])
            && |v| == |f.img| && (Mirrored(f.g, f.img) ==> Mirrored(f.g, v))
  {
    DirtyInData(f);
  }

  lemma TruncateOnlyCut(f: File, img: Image, fat: seq<U32>, win: int, m: nat)
    requires CutOk(f, img, fat, win, m)
    ensures m <= |f.chain| && f.sect < |img|
    ensures OnlyCut(f, Truncated(f, img, fat, win, m))
  {
    hide CutTable, View, Sectors, BufOk, Elsewhere, ChainOk, CursorOk, Positioned, Needs, Secs, Mirrored,
         OnlyFatChanged, WellFormed, FatFits, IsChain;
    CutImage(f, img);
    CursorInRange(f);
    CutChain(f, fat, m);
  }

  lemma DirtyInData(f: File)
    requires Sane(f)
    ensures f.dirty ==> f.sect as int in Secs(f) && f.g.database <= f.sect < f.g.volend
  {
    SecsFacts(f);
  }

  /** What `f_truncate` finds before cutting. */
  lemma TruncateStart(f: File)
    requires Good(f) && f.fptr < f.size
    ensures f.chain != [] && f.sclust as int == f.chain[0] && 2 <= f.sclust
    ensures f.fptr > 0 ==>
              && f.ci < |f.chain| && f.clust as int == f.chain[f.ci] && 2 <= f.clust < |f.fat|
              && (if f.ci + 1 < |f.chain| then f.fat[f.clust] as int == f.chain[f.ci + 1] && f.fat[f.clust] < |f.fat|
                  else f.fat[f.clust] >= |f.fat|)
    ensures forall i :: 0 <= i < |f.chain| ==> 2 <= f.chain[i] < |f.fat|
  {
    ChainClusters(f, 0);
    if f.fptr > 0 {
      ChainClusters(f, f.ci);
    }
  }

  /** When the pointer is already in the last cluster nothing is freed. */
  lemma NothingToCut(f: File)
    requires Good(f) && 0 < f.fptr < f.size && f.ci + 1 == |f.chain|
    ensures CutTable(f, f.fat, f.ci + 1)
  {
    forall i | 0 <= i < |f.chain| && i == f.ci ensures f.fat[f.chain[i]] >= |f.fat| { ChainClusters(f, i); }
  }

  lemma CutNothing(f: File)
    requires Good(f)
    ensures OnlyCut(f, f) && (f.fptr == f.size ==> Data(f)[..f.fptr] == Data(f))
  {
  }

  /** The dirty buffer's sector is not under the window, also after FAT updates. */
  lemma DirtyNotWindow(f: File, win: int)
    requires Sane(f) && f.dirty && (win == f.win || InFat1(f.g, win))
    ensures f.g.database <= f.sect < f.g.volend && f.sect as int != win
  {
    DirtyInData(f);
    HomeNotElsewhere(f, f.sect, f.win);
  }

  lemma CutWindow(f: File, img: Image, fat: seq<U32>, win: int, m: nat)
    requires CutOk(f, img, fat, win, m) && f.dirty
    ensures f.g.database <= f.sect < f.g.volend <= |img| && f.sect as int != win
  {
    DirtyNotWindow(f, win);
  }

  lemma TruncateDone(f: File, h: File, img: Image, fat: seq<U32>, win: int, m: nat)
    requires CutOk(f, img, fat, win, m) && m <= |f.chain| && f.sect < |img|
    requires h == Truncated(f, img, fat, win, m)
    ensures Good(h) && OnlyCut(f, h) && Data(h) == Data(f)[..f.fptr]
  {
    TruncateData(f, img, fat, win, m);
    TruncateOnlyCut(f, img, fat, win, m);
  }

  lemma CutFacts(f: File, img: Image, fat: seq<U32>, win: int, m: nat)
    requires CutOk(f, img, fat, win, m)
    ensures m <= |f.chain| && f.sect < |img|
    ensures m == 0 <==> f.fptr == 0
  {
    CursorInRange(f);
  }

  /** `SeekDone`, with the sector the pointer ends up in. */
  lemma SeekLands(base: File, h: File, rest: nat)
    requires Seeking(base) && rest <= 512 * base.g.csize
    requires h.fptr == base.fptr + if rest > 0 then rest else 512 * base.g.csize
    requires h == base.(fptr := h.fptr, size := Grown(base.size, h.fptr))
    ensures Core(h) && Needs(h.g, |h.chain|, h.size, h.floor) && CursorOk(h)
    ensures Data(h)[..base.size] == Data(base) && OnlyFile(base, h)
    ensures WellFormed(h.g) && h.fptr % 512 == rest % 512
    ensures rest % 512 != 0 ==>
              && h.fptr / 512 < |Secs(h)| && InData(h.g, h.clust)
              && Secs(h)[h.fptr / 512] == Clst2Sect(h.g, h.clust) + rest / 512
              && 0 <= Secs(h)[h.fptr / 512] < h.g.volend <= TWO32
  {
    hide Sane, Data, View, OnlyFile, Needs, CursorOk, Sectors, ClusterBase;
    SeekingFacts(base);
    ClusterSize(base);
    SeekDone(base, h);
    PointerParity(base, rest);
    SameSecs(base, h);
    if rest % 512 != 0 {
      SeekSector(base, h.fptr, rest);
    }
  }

  // ---------------------------------------------------------------- synchronising

  const FATTIME: U32 := 45 * 0x200_0000 + 0x20_0000 + 0x1_0000   // 1 January 2025

  /** `attr |= AM_ARC` */
  function SetArchive(a: Byte): (r: Byte)
    ensures r / 0x20 % 2 == 1 && r % 0x20 == a % 0x20
  {
    if a / 0x20 % 2 == 1 then a else a + 0x20
  }

  /** `st_clust` on the entry at offset `o`. */
  function StClust(ty: FsType, s: seq<Byte>, o: nat, cl: U32): (r: seq<Byte>)
    requires o + 32 <= |s|
    ensures |r| == |s|
  {
    var a := StWord(s, o + DIR_FstClusLO, cl % 0x1_0000);
    if ty == Fat32 then StWord(a, o + DIR_FstClusHI, cl / 0x1_0000) else a
  }

  /** The directory sector after `f_sync` filled in the entry at offset `o`. */
  function EntrySynced(ty: FsType, s: seq<Byte>, o: nat, cl: U32, size: U32): (r: seq<Byte>)
    requires o + 32 <= |s|
    ensures |r| == |s|
  {
    var a := s[o + DIR_Attr := SetArchive(s[o + DIR_Attr])];
    var b := StClust(ty, a, o, cl);
    StWord(StDword(StDword(b, o + DIR_FileSize, size), o + DIR_ModTime, FATTIME), o + DIR_LstAccDate, 0)
  }

  lemma EntrySyncedFields(g: Geometry, s: seq<Byte>, o: nat, cl: U32, size: U32)
    requires o + 32 <= |s| && (g.fsType != Fat32 ==> cl < 0x1_0000)
    ensures var r := EntrySynced(g.fsType, s, o, cl, size);
            && DirClust(g, r, o) == cl && DirSize(r, o) == size
            && r[o..o + 11] == s[o..o + 11]
            && forall j :: 0 <= j < |s| && !(o <= j < o + 32) ==> r[j] == s[j]
  {
    var a := s[o + DIR_Attr := SetArchive(s[o + DIR_Attr])];
    var b := StClust(g.fsType, a, o, cl);
    var c := StDword(b, o + DIR_FileSize, size);
    var d := StDword(c, o + DIR_ModTime, FATTIME);
    var r := StWord(d, o + DIR_LstAccDate, 0);
    assert LdWord(b, o + DIR_FstClusLO) == cl % 0x1_0000;
    assert forall j :: o + 20 <= j < o + 22 || o + 26 <= j < o + 28 ==> r[j] == b[j];
    assert forall j :: o + 28 <= j < o + 32 ==> r[j] == c[j];
  }

  /** Of entry `o` the archive bit is set, the modification time is 1 January 2025, the access date is zero; name,
      other attributes and creation time stay. */
  predicate EntryMarked(s: seq<Byte>, r: seq<Byte>, o: nat)
    requires o + 32 <= |s| == |r|
  {
    && r[o..o + 11] == s[o..o + 11] && r[o + 11] == (if s[o + 11] / 32 % 2 == 1 then s[o + 11] else s[o + 11] + 32)
    && r[o + 12..o + 18] == s[o + 12..o + 18] && r[o + 18..o + 20] == [0, 0]
    && r[o + 22..o + 26] == [0x00, 0x00, 0x21, 0x5A]
  }

  lemma EntrySyncedMarks(ty: FsType, s: seq<Byte>, o: nat, cl: U32, size: U32)
    requires o + 32 <= |s|
    ensures EntryMarked(s, EntrySynced(ty, s, o, cl, size), o)
  {
    var r := EntrySynced(ty, s, o, cl, size);
    assert forall j :: o <= j < o + 11 || o + 12 <= j < o + 18 ==> r[j] == s[j];
    assert r[o + 18] == 0 && r[o + 19] == 0;
    assert r[o + 22] == 0 && r[o + 23] == 0 && r[o + 24] == 0x21 && r[o + 25] == 0x5A;
  }

  /** The name and every other entry of the sector are kept. */
  lemma EntryFrame(g: Geometry, s: seq<Byte>, o: nat, cl: U32, size: U32)
    requires o + 32 <= |s|
    ensures forall j :: 0 <= j < |s| && !(o + 11 <= j < o + 32) ==> EntrySynced(g.fsType, s, o, cl, size)[j] == s[j]
  {
  }

  /** The device after `f_sync` (without the file's own sectors): entry and FSInfo written. */
  function SyncImage(f: File, o: nat, fsi: Byte, free: U32, last: U32): (r: Image)
    requires 0 <= f.dirSect < |f.img| && o + 32 <= 512 && f.g.volbase + 1 < |f.img|
    ensures |r| == |f.img|
  {
    SyncedImage(f.g, f.img[f.dirSect := EntrySynced(f.g.fsType, f.img[f.dirSect], o, f.sclust, f.size)],
                fsi, free, last)
  }

  /** Changes of `f_sync`: the file's sectors, its directory entry and the FSInfo sector. */
  ghost predicate OnlySynced(a: File, b: File, o: nat) {
    && VolumeOk(a) && VolumeOk(b) && b.g == a.g && |b.img| == |a.img| && b.dirSect == a.dirSect
    && b.fat == a.fat && b.chain == a.chain && 0 <= a.dirSect < |a.img| && o + 32 <= 512
    && (forall s :: 0 <= s < |a.img| && s != a.dirSect && s != a.g.volbase + 1 && s !in Secs(a) ==>
                      b.img[s] == a.img[s])
    && (forall j :: 0 <= j < 512 && !(o + 11 <= j < o + 32) ==> b.img[a.dirSect][j] == a.img[a.dirSect][j])
    && EntryMarked(a.img[a.dirSect], b.img[a.dirSect], o)
    && (Mirrored(a.g, a.img) ==> Mirrored(b.g, b.img))
  }

  /** `f_sync` touches no sector of the file's space. */
  lemma SyncOutside(f: File, o: nat, fsi: Byte, free: U32, last: U32, s: int)
    requires Good(f) && o + 32 <= 512 && AtHome(f, s)
    ensures f.dirSect < |f.img| && f.g.volbase + 1 < |f.img| && 0 <= s < |f.img|
    ensures SyncImage(f, o, fsi, free, last)[s] == f.img[s]
  {
    SyncPlace(f);
    HomeNotElsewhere(f, s, f.dirSect);
    hide EntrySynced, FsInfo;
  }

  lemma SyncSane(f: File, h: File, o: nat, fsi: Byte, free: U32, last: U32)
    requires Good(f) && !f.dirty && o + 32 <= 512 && f.g.volbase + 1 < |f.img|
    requires h == f.(img := SyncImage(f, o, fsi, free, last), win := h.win)
    requires h.win == f.dirSect || h.win == f.g.volbase + 1
    ensures Sane(h)
  {
    hide SyncImage, EntrySynced, CursorOk, Positioned, Needs;
    if f.sect != 0 {
      SyncOutside(f, o, fsi, free, last, f.sect);
      assert AtHome(h, h.sect);
    }
    assert Elsewhere(h, f.dirSect) && Elsewhere(h, h.win);
  }

  lemma SyncGood(f: File, h: File, o: nat, fsi: Byte, free: U32, last: U32)
    requires Good(f) && !f.dirty && o + 32 <= 512 && f.g.volbase + 1 < |f.img|
    requires h == f.(img := SyncImage(f, o, fsi, free, last), win := h.win)
    requires h.win == f.dirSect || h.win == f.g.volbase + 1
    ensures Good(h) && Data(h) == Data(f)
  {
    hide SyncImage, EntrySynced;
    SyncSane(f, h, o, fsi, free, last);
    CoreFits(f);
    forall k | 0 <= k < |Secs(f)| ensures h.img[Secs(f)[k]] == f.img[Secs(f)[k]] {
      SecAtHome(f, k);
      SyncOutside(f, o, fsi, free, last, Secs(f)[k]);
    }
    ContentFrame(f.img, h.img, Secs(f), f.size);
  }

  lemma SyncEntry(f: File, o: nat, fsi: Byte, free: U32, last: U32)
    requires Good(f) && o + 32 <= 512 && f.g.volbase + 1 < |f.img|
    ensures 0 <= f.dirSect < |f.img|
    ensures var s := SyncImage(f, o, fsi, free, last)[f.dirSect];
            DirClust(f.g, s, o) == f.sclust && DirSize(s, o) == f.size
  {
    ClusterWidth(f);
    hide Sane, EntrySynced;
    EntrySyncedFields(f.g, f.img[f.dirSect], o, f.sclust, f.size);
  }

  /** After `f_sync` the raw device stores the file. */
  lemma SyncStores(f: File, h: File, o: nat, fsi: Byte, free: U32, last: U32)
    requires Good(f) && !f.dirty && o + 32 <= 512 && f.g.volbase + 1 < |f.img|
    requires h == f.(img := SyncImage(f, o, fsi, free, last), win := h.win)
    requires Good(h) && h.fat == Table(h.g, h.img)
    ensures Stores(h.g, h.img, h.dirSect, o, h.chain, Data(h))
  {
    SyncEntry(f, o, fsi, free, last);
    CoreFits(h);
    hide SyncImage, DirClust, DirSize, BufOk, Elsewhere, AtHome;
  }

  lemma ClusterWidth(f: File)
    requires Sane(f)
    ensures f.g.fsType != Fat32 ==> f.sclust < 0x1_0000
  {
    if f.chain != [] {
      ChainClusters(f, 0);
    }
  }

  lemma SyncPlace(f: File)
    requires Good(f)
    ensures 0 <= f.dirSect < |f.img| && f.g.volbase + 1 < |f.img| && !InFat1(f.g, f.dirSect)
    ensures f.g.fatbase + FatArea(f.g) <= f.dirSect && f.g.fatbase + FatArea(f.g) <= f.g.database
    ensures f.g.volbase + 1 <= f.g.fatbase && f.g.volbase + 1 < f.dirSect
  {
  }

  lemma FlushGood(f: File)
    requires Good(f)
    ensures f.sect < |f.img| && Good(Flushed(f)) && Data(Flushed(f)) == Data(f) && !Flushed(f).dirty
  {
    CursorInRange(f);
    hide BufOk, Elsewhere, ChainOk, CursorOk, Positioned, Needs, View;
    FlushKeeps(f);
    SameShape(f, Flushed(f));
  }

  lemma SameShape(f: File, h: File)
    requires Good(f) && Sane(h) && h == f.(img := h.img, dirty := h.dirty)
    ensures Good(h)
  {
  }

  lemma SyncImageIs(f: File, o: nat, fsi: Byte, free: U32, last: U32)
    requires 0 <= f.dirSect < |f.img| && o + 32 <= 512 && f.g.volbase + 1 < |f.img|
    ensures SyncImage(f, o, fsi, free, last) ==
            SyncedImage(f.g, f.img[f.dirSect := EntrySynced(f.g.fsType, f.img[f.dirSect], o, f.sclust, f.size)],
                        fsi, free, last)
  {
  }

  /** The FAT is the one before when `sync_fs` spares it. */
  lemma SyncTable(f: File, o: nat, fsi: Byte, free: U32, last: U32)
    requires Good(f) && o + 32 <= 512 && SparesFat(f.g, fsi)
    ensures f.dirSect < |f.img| && f.g.volbase + 1 < |f.img|
    ensures Table(f.g, SyncImage(f, o, fsi, free, last)) == Table(f.g, f.img)
  {
    SyncPlace(f);
    hide EntrySynced, FsInfo, BufOk;
    TableFrame(f.g, f.img, SyncImage(f, o, fsi, free, last));
  }

  /** The device after write-back, entry update and FSInfo, sector by sector. */
  lemma SyncImageAt(a: File, o: nat, fsi: Byte, free: U32, last: U32)
    requires Good(a) && o + 32 <= 512 && SparesFat(a.g, fsi)
    ensures a.sect < |a.img| && a.dirSect < |a.img| && a.g.volbase + 1 < |a.img|
    ensures var r := SyncImage(Flushed(a), o, fsi, free, last);
            && |r| == |a.img| && FatFits(a.g) && a.g.volend <= |a.img|
            && r[a.dirSect] == EntrySynced(a.g.fsType, a.img[a.dirSect], o, a.sclust, a.size)
            && (forall s :: 0 <= s < |r| && s != a.dirSect && s != a.g.volbase + 1 && s !in Secs(a) ==>
                              r[s] == a.img[s])
            && (forall s :: a.g.fatbase <= s < a.g.fatbase + FatArea(a.g) ==> r[s] == a.img[s])
  {
    hide EntrySynced, SyncedImage, Good, Sane, Secs, WellFormed, FatFits, OnlyFile, Data, SparesFat;
    GoodIsCore(a);
    SyncPlace(a);
    CursorInRange(a);
    DirtyInData(a);
    if a.dirty { DirtyNotDir(a); }
    GoodVolume(a);
    var e := EntrySynced(a.g.fsType, a.img[a.dirSect], o, a.sclust, a.size);
    SyncedAt(a.g, View(a)[a.dirSect := e], fsi, free, last);
  }

  lemma GoodVolume(f: File)
    requires Good(f)
    ensures FatFits(f.g) && f.g.volend <= |f.img|
  {
  }

  /** FSInfo changes one sector, outside the FAT. */
  lemma SyncedAt(g: Geometry, img: Image, fsi: Byte, free: U32, last: U32)
    requires FatFits(g) && g.volend <= |img| && SparesFat(g, fsi)
    ensures g.volbase + 1 < |img|
    ensures var r := SyncedImage(g, img, fsi, free, last);
            && |r| == |img|
            && (forall s :: 0 <= s < |r| && s != g.volbase + 1 ==> r[s] == img[s])
            && (forall s :: g.fatbase <= s < g.fatbase + FatArea(g) ==> r[s] == img[s])
  {
    hide FsInfo;
  }

  lemma MirrorFrame(g: Geometry, a: Image, b: Image)
    requires FatFits(g) && g.volend <= |a| && |a| == |b|
    requires forall s :: g.fatbase <= s < g.fatbase + FatArea(g) ==> b[s] == a[s]
    ensures Mirrored(g, a) ==> Mirrored(g, b)
  {
  }

  /** Everything `f_sync` changes on the device. */
  lemma SyncOnly(a: File, h: File, o: nat, fsi: Byte, free: U32, last: U32)
    requires Good(a) && o + 32 <= 512 && SparesFat(a.g, fsi)
    requires a.sect < |a.img| && a.dirSect < |a.img| && a.g.volbase + 1 < |a.img|
    requires h == Flushed(a).(img := SyncImage(Flushed(a), o, fsi, free, last), win := h.win) && VolumeOk(h)
    ensures OnlySynced(a, h, o)
  {
    hide Good, Sane, SyncImage, EntrySynced, Secs, View, WellFormed, Mirrored, Core, FatFits, Data, OnlyFile;
    GoodIsCore(a);
    SyncPlace(a);
    SyncImageAt(a, o, fsi, free, last);
    EntryFrame(a.g, a.img[a.dirSect], o, a.sclust, a.size);
    EntrySyncedMarks(a.g.fsType, a.img[a.dirSect], o, a.sclust, a.size);
    hide EntryMarked;
    assert h.g == a.g && h.chain == a.chain && h.fat == a.fat && h.dirSect == a.dirSect;
    MirrorFrame(a.g, a.img, h.img);
  }

  lemma DirtyNotDir(a: File)
    requires Sane(a) && a.dirty
    ensures a.sect as int != a.dirSect
  {
    HomeNotElsewhere(a, a.sect, a.dirSect);
  }

  // ---------------------------------------------------------------- the cursor and the chain

  /** In every state between file operations the current cluster is number (fptr-1)/clusterbytes of a
      chain of ceil(size/clusterbytes) clusters, or of the larger number a stored file came with; going on
      from it is the same as walking from the start. */
  lemma CursorTheorem(f: File, j: nat)
    requires Good(f)
    ensures f.g.csize > 0 && |f.chain| == Max(f.floor, Clusters(f.size, 512 * f.g.csize))
    ensures f.fptr > 0 ==>
              && f.ci == (f.fptr - 1) / (512 * f.g.csize)
              && Walk(f.fat, f.sclust, f.ci) == f.clust
              && (f.ci + j < |f.chain| ==> Walk(f.fat, f.clust, j) == Walk(f.fat, f.sclust, f.ci + j))
  {
    SizeFacts(f);
    NeedsIsCeiling(f.g, |f.chain|, f.size, f.floor);
    if f.fptr > 0 {
      FirstCluster(f);
      CursorInChain(f);
      assert IsChain(f.fat, f.chain);
      CursorIndex(f.g.csize, f.ci, f.fptr);
      WalkChain(f.fat, f.chain, 0, f.ci);
      if f.ci + j < |f.chain| {
        WalkChain(f.fat, f.chain, f.ci, j);
        WalkChain(f.fat, f.chain, 0, f.ci + j);
      }
    }
  }

  lemma CursorIndex(c: nat, ci: nat, fptr: nat)
    requires c > 0 && 512 * (c * ci) < fptr <= 512 * (c * (ci + 1))
    ensures (fptr - 1) / (512 * c) == ci
  {
    var bcs := 512 * c;
    assert bcs * ci == 512 * (c * ci) && bcs * (ci + 1) == 512 * (c * (ci + 1));
    assert bcs * (ci + 1) == bcs * ci + bcs;
    DivModUnique(fptr - 1, bcs, ci, fptr - 1 - bcs * ci);
  }

  /** Work on the file alone introduces no entry of value 1. */
  lemma OnlyFileNoOnes(a: File, b: File)
    requires OnlyFile(a, b) && Sane(b) && NoOnes(a.fat)
    ensures NoOnes(b.fat)
  {
    forall c | 2 <= c < |b.fat| ensures b.fat[c] != 1 {
      if c in b.chain {
        var i :| 0 <= i < |b.chain| && b.chain[i] == c;
        ChainClusters(b, i);
      }
    }
  }

  /** What the chain gains the free clusters lose. */
  lemma OnlyFileCount(a: File, b: File)
    requires OnlyFile(a, b) && ChainOk(a) && ChainOk(b)
    ensures FreeCount(b.fat) + |b.chain| == FreeCount(a.fat) + |a.chain|
  {
    hide IsChain, FreeCount;
    LongerChain(a.fat, b.fat, a.chain, b.chain);
  }

  /** What the chain loses becomes free. */
  lemma OnlyCutCount(a: File, b: File)
    requires OnlyCut(a, b) && ChainOk(a) && ChainOk(b)
    ensures FreeCount(b.fat) + |b.chain| == FreeCount(a.fat) + |a.chain|
  {
    hide IsChain, FreeCount;
    LongerChain(b.fat, a.fat, b.chain, a.chain);
  }

  lemma OnlyCutNoOnes(a: File, b: File)
    requires OnlyCut(a, b) && Sane(b) && NoOnes(a.fat)
    ensures NoOnes(b.fat)
  {
    forall c | 2 <= c < |b.fat| ensures b.fat[c] != 1 {
      if c in b.chain {
        var i :| 0 <= i < |b.chain| && b.chain[i] == c;
        ChainClusters(b, i);
      }
    }
  }
}
