/** Whole runs of an open file against a byte vector with a cursor. */
module FileRuns {
  import opened Bytes
  import opened Chains
  import opened Geometry
  import opened FatTable
  import opened Volume
  import opened FileData
  import opened FileState
  import opened OpenFile
  import opened OtherFiles

  datatype Op = ReadOp(n: U32) | WriteOp(w: seq<Byte>) | SeekOp(ofs: U32) | TruncateOp | SyncOp

  /** The byte vector and its cursor; the clusters it occupies, the clusters still free on the volume, and
      the bytes of a cluster. */
  datatype Vector = Vector(data: seq<Byte>, pos: nat, clusters: nat, free: nat, unit: nat)

  ghost predicate VectorOk(v: Vector) {
    0 < v.unit && v.pos <= |v.data| < TWO32 && |v.data| <= v.unit * v.clusters
  }

  /** How long the vector can become on this volume. */
  function Room(v: Vector): nat { v.unit * (v.clusters + v.free) }

  /** The clusters a vector has once it is `n` bytes long. */
  function Stretched(v: Vector, n: nat): nat
    requires 0 < v.unit
  {
    Max(v.clusters, Clusters(n, v.unit))
  }

  function Min(a: int, b: int): int { if a < b then a else b }

  /** One operation on the vector; `out` are the bytes read, `n` the number of bytes written. How many bytes
      a write takes and how far a seek gets follows from the vector alone: up to the last cluster the volume
      has. Clusters are neither lost nor gained. Bytes that a seek exposes past the old end are unspecified. */
  ghost predicate Step(v: Vector, op: Op, out: seq<Byte>, n: nat, w: Vector) {
    && VectorOk(v) && VectorOk(w) && w.unit == v.unit && w.clusters + w.free == v.clusters + v.free
    && match op
       case ReadOp(m) =>
         var k := if m > |v.data| - v.pos then |v.data| - v.pos else m;
         out == v.data[v.pos..v.pos + k] && w.data == v.data && w.pos == v.pos + k && w.clusters == v.clusters
       case WriteOp(b) =>
         && |b| < TWO32 && n == Min(Min(|b|, 0xFFFF_FFFF - v.pos), Room(v) - v.pos)
         && w.data == Splice(v.data, v.pos, b[..n]) && w.pos == v.pos + n && w.clusters == Stretched(v, |w.data|)
       case SeekOp(ofs) =>
         && w.pos == Min(ofs, Room(v)) && |w.data| == Grown(|v.data|, w.pos) && w.data[..|v.data|] == v.data
         && w.clusters == Stretched(v, |w.data|)
       case TruncateOp =>
         && w.data == v.data[..v.pos] && w.pos == v.pos
         && w.clusters == if v.pos < |v.data| then Clusters(v.pos, v.unit) else v.clusters
       case SyncOp =>
         w == v
  }

  ghost function VectorOf(f: File): Vector
    requires Good(f)
  {
    Vector(Data(f), f.fptr, |f.chain|, FreeCount(f.fat), 512 * f.g.csize)
  }

  ghost function Abs(fp: FIL): Vector
    requires fp.Valid()
    reads fp, fp.buf, fp.fs, fp.fs.win
  {
    VectorOf(fp.S())
  }

  lemma VectorFacts(f: File)
    requires Good(f)
    ensures VectorOk(VectorOf(f)) && ChainOk(f)
    ensures 0 < f.g.csize && |f.chain| == Max(f.floor, Clusters(f.size, 512 * f.g.csize))
  {
    hide Good, Sane, Data, Needs, Clusters, FreeCount;
    GoodIsCore(f);
    SizeFacts(f);
    NeedsIsCeiling(f.g, |f.chain|, f.size, f.floor);
    ClusterBytes(f.g, |f.chain|, f.size, f.floor);
    GoodChain(f);
  }

  lemma ClusterBytes(g: Geometry, m: nat, n: nat, floor: nat)
    requires Needs(g, m, n, floor)
    ensures n <= 512 * g.csize * m && 512 * g.csize * m == 512 * (g.csize * m)
  {
  }

  lemma ClustersMono(a: nat, c: nat, b: nat)
    requires 0 < b && a <= c
    ensures Clusters(a, b) <= Clusters(c, b)
  {
    ClustersBound(a, b);
    ClustersBound(c, b);
    if Clusters(a, b) > Clusters(c, b) {
      MulMono(b, Clusters(c, b), Clusters(a, b) - 1);
    }
  }

  /** Work on the file alone that does not shrink it: what its clusters and the free ones do. */
  lemma GrowStep(f: File, h: File)
    requires Good(f) && Good(h) && OnlyFile(f, h) && h.floor == f.floor && f.size <= h.size
    ensures VectorOk(VectorOf(f)) && VectorOk(VectorOf(h)) && VectorOf(h).unit == VectorOf(f).unit
    ensures |h.chain| + FreeCount(h.fat) == |f.chain| + FreeCount(f.fat)
    ensures |h.chain| == Stretched(VectorOf(f), h.size) && Room(VectorOf(h)) == Room(VectorOf(f))
  {
    hide Good, Data, FreeCount, Clusters, ChainOk, OnlyFile, Sane;
    VectorFacts(f);
    VectorFacts(h);
    OnlyFileCount(f, h);
    SameUnit(f, h);
    ClustersMono(f.size, h.size, 512 * f.g.csize);
    assert |h.chain| == Stretched(VectorOf(f), h.size);
  }

  lemma SameUnit(f: File, h: File)
    requires OnlyFile(f, h) || OnlyCut(f, h)
    ensures h.g == f.g
  {
  }

  lemma CutStep(f: File, h: File)
    requires Good(f) && Good(h) && OnlyCut(f, h)
    ensures VectorOk(VectorOf(f)) && VectorOk(VectorOf(h)) && VectorOf(h).unit == VectorOf(f).unit
    ensures |h.chain| + FreeCount(h.fat) == |f.chain| + FreeCount(f.fat)
    ensures h.floor == 0 ==> |h.chain| == Clusters(h.size, 512 * f.g.csize)
  {
    hide Good, Data, FreeCount, Clusters, ChainOk, OnlyCut, Sane;
    SameUnit(f, h);
    VectorFacts(f);
    VectorFacts(h);
    OnlyCutCount(f, h);
  }

  /** At the end of the chain with nothing free there is no more room; before that there is. */
  lemma RoomLeft(h: File)
    requires Good(h)
    ensures h.fptr <= Room(VectorOf(h))
    ensures ChainEnd(h) && NoneFree(h.fat) ==> h.fptr == Room(VectorOf(h))
  {
    hide Good, Sane, Data, Clusters;
    VectorFacts(h);
    TableSize(h);
    FreeFromBound(h.fat, 2);
    var v := VectorOf(h);
    MulMono(v.unit, v.clusters, v.clusters + v.free);
    assert v.unit * v.clusters == 512 * (h.g.csize * |h.chain|);
  }

  lemma TableSize(f: File)
    requires Good(f)
    ensures 2 <= |f.fat|
  {
  }

  /** What `f_write` promises is a step of the vector. */
  lemma WriteIsStep(f: File, h: File, w: seq<Byte>, n: nat)
    requires Good(f) && Good(h) && OnlyFile(f, h) && h.floor == f.floor && |w| < TWO32
    requires n <= |w| && h.fptr == f.fptr + n && h.size == Grown(f.size, h.fptr)
    requires f.fptr <= |Data(f)| && Data(h) == Splice(Data(f), f.fptr, w[..n])
    requires n < |w| && h.fptr < 0xFFFF_FFFF ==> ChainEnd(h) && NoneFree(h.fat)
    ensures Step(VectorOf(f), WriteOp(w), [], n, VectorOf(h))
  {
    hide Good, Sane, OnlyFile, Data, Splice, NoneFree, FreeCount, Room, VectorOk, Stretched, ChainEnd;
    GoodIsCore(f);
    GoodIsCore(h);
    GrowStep(f, h);
    RoomLeft(h);
  }

  /** What `f_lseek` promises is a step of the vector. */
  lemma SeekIsStep(f: File, h: File, ofs: U32)
    requires Good(f) && Good(h) && OnlyFile(f, h) && h.floor == f.floor
    requires h.fptr <= ofs && h.size == Grown(f.size, h.fptr) && f.size <= |Data(h)| && Data(h)[..f.size] == Data(f)
    requires h.fptr < ofs ==> ChainEnd(h) && NoneFree(h.fat)
    ensures Step(VectorOf(f), SeekOp(ofs), [], 0, VectorOf(h))
  {
    hide Good, Sane, OnlyFile, Data, NoneFree, FreeCount, Room, VectorOk, Stretched, ChainEnd;
    GoodIsCore(f);
    GoodIsCore(h);
    GrowStep(f, h);
    RoomLeft(h);
  }

  /** No entry of value 1 and a free count that is unknown or right. */
  ghost predicate Healthy(fp: FIL)
    reads fp.fs
  {
    NoOnes(fp.fs.fat) && FreeOk(fp.fs.State())
  }

  /** A file without unsaved changes is stored on the device as it is: nothing waits in its buffer or in
      the window, and its entry, chain and sectors give its bytes. */
  ghost predicate Saved(fp: FIL)
    requires fp.Valid()
    reads fp, fp.buf, fp.fs, fp.fs.win
  {
    GoodIsCore(fp.S());
    !fp.modified ==>
      !fp.dirty && !fp.fs.wflag && Stores(fp.fs.g, fp.fs.img, fp.dirSect, fp.dirOff, fp.chain, Data(fp.S()))
  }

  /** A file without unsaved changes leaves nothing to be told to FSInfo. */
  ghost predicate Settled(fp: FIL)
    reads fp, fp.fs
  {
    !fp.modified ==> fp.fs.fsiFlag != 1
  }

  /** What every operation of a run needs and keeps. */
  ghost predicate Open(fp: FIL)
    reads fp, fp.buf, fp.fs, fp.fs.win
  {
    fp.Valid() && Healthy(fp) && fp.readable && fp.writable && fp.err == Ok
  }

  lemma GoodChain(f: File)
    requires Good(f)
    ensures ChainOk(f)
  {
  }

  /** A file of the same size has the same clusters. */
  lemma SameSizeSameChain(f: File, h: File)
    requires Good(f) && Good(h) && OnlyFile(f, h) && h.size == f.size && h.floor == f.floor
    ensures h.chain == f.chain
  {
    VectorFacts(f);
    VectorFacts(h);
  }

  method DoRead(fp: FIL, m: U32) returns (out: seq<Byte>)
    requires Open(fp)
    modifies fp, fp.buf, fp.fs, fp.fs.win
    ensures Open(fp) && Step(old(Abs(fp)), ReadOp(m), out, 0, Abs(fp))
    ensures KeepsOthers(old(fp.S()), fp.S(), fp.dirOff) && (old(Saved(fp)) ==> Saved(fp))
    ensures old(Settled(fp)) ==> Settled(fp)
  {
    hide Good, Sane, OnlyFile, Data, FreeOk, NoneFree, NoOnes, VolumeOk, Stores, KeepsOthers, FatFs.Valid, FatFs.Base,
         FreeCount, Room, VectorOk, Stretched;
    ghost var f := fp.S();
    GoodIsCore(f);
    var b := new Byte[m](_ => 0);
    var res, br := fp.Read(b, m);
    out := b[..][..br];
    GoodIsCore(fp.S());
    GoodChain(fp.S());
    fp.fs.TableFact();
    OnlyFileKeepsOthers(f, fp.S(), fp.dirOff);
    GrowStep(f, fp.S());
  }

  method DoWrite(fp: FIL, w: seq<Byte>) returns (n: nat)
    requires Open(fp) && |w| < TWO32
    modifies fp, fp.buf, fp.fs, fp.fs.win
    ensures Open(fp) && Step(old(Abs(fp)), WriteOp(w), [], n, Abs(fp))
    ensures KeepsOthers(old(fp.S()), fp.S(), fp.dirOff) && (old(Saved(fp)) ==> Saved(fp))
    ensures old(Settled(fp)) ==> Settled(fp)
  {
    hide Good, Sane, OnlyFile, Data, Splice, FreeOk, NoneFree, NoOnes, VolumeOk, Stores, KeepsOthers,
         FatFs.Valid, FatFs.Base, VectorOf, Step, Room, ChainEnd;
    ghost var f := fp.S();
    GoodIsCore(f);
    var res, bw := fp.Write(w);
    n := bw;
    GoodIsCore(fp.S());
    GoodChain(fp.S());
    OnlyFileNoOnes(f, fp.S());
    fp.fs.TableFact();
    OnlyFileKeepsOthers(f, fp.S(), fp.dirOff);
    WriteIsStep(f, fp.S(), w, n);
  }

  method DoSeek(fp: FIL, ofs: U32)
    requires Open(fp)
    modifies fp, fp.buf, fp.fs, fp.fs.win
    ensures Open(fp) && Step(old(Abs(fp)), SeekOp(ofs), [], 0, Abs(fp))
    ensures KeepsOthers(old(fp.S()), fp.S(), fp.dirOff) && (old(Saved(fp)) ==> Saved(fp))
    ensures old(Settled(fp)) ==> Settled(fp)
  {
    hide Good, Sane, OnlyFile, Data, FreeOk, NoneFree, NoOnes, VolumeOk, Stores, KeepsOthers, FatFs.Valid, FatFs.Base,
         VectorOf, Step, Room, ChainEnd;
    ghost var f := fp.S();
    GoodIsCore(f);
    var res := fp.Seek(ofs);
    OnlyFileNoOnes(f, fp.S());
    GoodIsCore(fp.S());
    GoodChain(fp.S());
    fp.fs.TableFact();
    OnlyFileKeepsOthers(f, fp.S(), fp.dirOff);
    SeekIsStep(f, fp.S(), ofs);
    if fp.objsize == old(fp.objsize) {
      SameSizeSameChain(f, fp.S());
      SameBytes(Data(fp.S()), Data(f));
    }
  }

  lemma SameBytes(a: seq<Byte>, b: seq<Byte>)
    requires |a| == |b| && a[..|b|] == b
    ensures a == b
  {
  }

  method DoTruncate(fp: FIL)
    requires Open(fp)
    modifies fp, fp.buf, fp.fs, fp.fs.win
    ensures Open(fp) && Step(old(Abs(fp)), TruncateOp, [], 0, Abs(fp))
    ensures KeepsOthers(old(fp.S()), fp.S(), fp.dirOff) && (old(Saved(fp)) ==> Saved(fp))
    ensures old(Settled(fp)) ==> Settled(fp)
  {
    hide Good, Sane, OnlyFile, OnlyCut, Data, FreeOk, NoneFree, NoOnes, VolumeOk, Stores, KeepsOthers, FatFs.Valid,
         FatFs.Base, FreeCount, Room, VectorOk, Clusters;
    ghost var f := fp.S();
    GoodIsCore(f);
    GoodChain(f);
    var res := fp.Truncate();
    GoodIsCore(fp.S());
    OnlyCutNoOnes(f, fp.S());
    fp.fs.TableFact();
    OnlyCutKeepsOthers(f, fp.S(), fp.dirOff);
    CutStep(f, fp.S());
  }

  /** Synchronising leaves the vector as it is, and afterwards there are no unsaved changes. */
  method DoSync(fp: FIL)
    requires Open(fp) && SparesFat(fp.fs.g, fp.fs.fsiFlag)
    modifies fp`modified, fp`dirty, fp.fs, fp.fs.win
    ensures Open(fp) && Abs(fp) == old(Abs(fp)) && !fp.modified
    ensures fp.fs.freeClst == old(fp.fs.freeClst) && fp.fs.lastClst == old(fp.fs.lastClst)
    ensures KeepsOthers(old(fp.S()), fp.S(), fp.dirOff) && (old(Saved(fp)) ==> Saved(fp))
    ensures old(Settled(fp)) ==> Settled(fp)
  {
    hide Good, Sane, OnlySynced, Data, FreeOk, NoneFree, NoOnes, VolumeOk, Stores, KeepsOthers, FatFs.Valid, FatFs.Base,
         FreeCount;
    ghost var f, a := fp.S(), fp.fs.State();
    GoodIsCore(f);
    GoodChain(f);
    fp.Sync();
    OnlySyncedFat(fp, f);
    SameCount(a, fp.fs.State());
    fp.fs.TableFact();
    KeepsItself(f, fp.dirOff);
    if old(fp.modified) {
      OnlySyncedKeepsOthers(f, fp.S(), fp.dirOff);
    }
  }

  lemma KeepsItself(f: File, own: nat)
    ensures KeepsOthers(f, f, own)
  {
  }

  lemma KeepsBoth(a: File, b: File, c: File, own: nat)
    requires KeepsOthers(a, b, own) && KeepsOthers(b, c, own)
    ensures KeepsOthers(a, c, own)
  {
  }

  lemma SameCount(a: Alloc, b: Alloc)
    requires a.t == b.t && a.free == b.free
    ensures FreeOk(b) <==> FreeOk(a)
  {
  }

  lemma OnlySyncedFat(fp: FIL, f: File)
    requires fp.buf.Length == 512 && (fp.S() == f || OnlySynced(f, fp.S(), fp.dirOff))
    ensures fp.fs.fat == f.fat
  {
    assert fp.S().fat == fp.fs.fat;
  }

  /** One operation of the file code is a step of the vector, and keeps all other files. */
  method Do(fp: FIL, op: Op) returns (out: seq<Byte>, n: nat)
    requires Open(fp)
    requires op.WriteOp? ==> |op.w| < TWO32
    requires op.SyncOp? ==> SparesFat(fp.fs.g, fp.fs.fsiFlag)
    modifies fp, fp.buf, fp.fs, fp.fs.win
    ensures Open(fp) && Step(old(Abs(fp)), op, out, n, Abs(fp))
    ensures KeepsOthers(old(fp.S()), fp.S(), fp.dirOff) && (old(Saved(fp)) ==> Saved(fp))
    ensures old(Settled(fp)) ==> Settled(fp)
  {
    hide Good, Sane, OnlyFile, Data, FreeOk, NoneFree, NoOnes, VolumeOk, Stores, KeepsOthers, Saved, Splice,
         Healthy, FatFs.Valid, FatFs.Base;
    out, n := [], 0;
    match op {
      case ReadOp(m) =>
        out := DoRead(fp, m);
      case WriteOp(w) =>
        n := DoWrite(fp, w);
      case SeekOp(ofs) =>
        DoSeek(fp, ofs);
      case TruncateOp =>
        DoTruncate(fp);
      case SyncOp =>
        VectorBounds(fp);
        DoSync(fp);
    }
  }

  lemma VectorBounds(fp: FIL)
    requires fp.Valid()
    ensures VectorOk(Abs(fp))
  {
    VectorFacts(fp.S());
  }

  /** Any sequence of reads, writes, seeks, truncations and synchronisations refines the vector, and keeps
      every other file of the volume. */
  method Run(fp: FIL, ops: seq<Op>)
      returns (outs: seq<seq<Byte>>, ns: seq<nat>, ghost vs: seq<Vector>)
    requires Open(fp)
    requires forall i :: 0 <= i < |ops| && ops[i].WriteOp? ==> |ops[i].w| < TWO32
    requires RoomForFsInfo(fp.fs.g)
    modifies fp, fp.buf, fp.fs, fp.fs.win
    ensures Open(fp)
    ensures |outs| == |ns| == |ops| && |vs| == |ops| + 1
    ensures vs[0] == old(Abs(fp)) && vs[|ops|] == Abs(fp)
    ensures forall i :: 0 <= i < |ops| ==> Step(vs[i], ops[i], outs[i], ns[i], vs[i + 1])
    ensures KeepsOthers(old(fp.S()), fp.S(), fp.dirOff)
    ensures (old(Saved(fp)) ==> Saved(fp)) && (old(Settled(fp)) ==> Settled(fp))
  {
    hide Good, Healthy, Step, Abs, Saved, KeepsOthers, FatFs.Valid, FatFs.Base;
    outs, ns, vs := [], [], [Abs(fp)];
    KeepsItself(fp.S(), fp.dirOff);
    for i := 0 to |ops|
      invariant Open(fp)
      invariant |outs| == |ns| == i && |vs| == i + 1
      invariant vs[0] == old(Abs(fp)) && vs[i] == Abs(fp)
      invariant forall j :: 0 <= j < i ==> Step(vs[j], ops[j], outs[j], ns[j], vs[j + 1])
      invariant KeepsOthers(old(fp.S()), fp.S(), fp.dirOff)
      invariant (old(Saved(fp)) ==> Saved(fp)) && (old(Settled(fp)) ==> Settled(fp))
    {
      ghost var f := fp.S();
      var out, n := Do(fp, ops[i]);
      KeepsBoth(old(fp.S()), f, fp.S(), fp.dirOff);
      outs, ns, vs := outs + [out], ns + [n], vs + [Abs(fp)];
    }
  }

  /** What was written is read back, from a file that otherwise is as it was. */
  method WriteSeekRead(fp: FIL, w: seq<Byte>) returns (n: nat, out: seq<Byte>)
    requires Open(fp) && |w| < TWO32
    modifies fp, fp.buf, fp.fs, fp.fs.win
    ensures Open(fp) && n <= |w| && out == w[..n]
    ensures n == Min(Min(|w|, 0xFFFF_FFFF - old(Abs(fp)).pos), Room(old(Abs(fp))) - old(Abs(fp)).pos)
    ensures Abs(fp).data == Splice(old(Abs(fp)).data, old(Abs(fp)).pos, w[..n])
    ensures Abs(fp).pos == old(Abs(fp)).pos + n
  {
    hide Healthy, Step, Abs, KeepsOthers, Saved, FIL.Valid, FatFs.Valid, FatFs.Base, Splice, Room;
    ghost var v0 := Abs(fp);
    PointerIsPos(fp);
    var pos, m, none1, none2 := fp.fptr, 0, [], [];
    none1, n := Do(fp, WriteOp(w));
    ghost var v1 := Abs(fp);
    none2, m := Do(fp, SeekOp(pos));
    ghost var v2 := Abs(fp);
    WrittenThere(v0, w, n, none1, v1, m, none2, v2);
    out, m := Do(fp, ReadOp(n));
    ReadThere(v0, w, n, none1, v1, v2, m, out, Abs(fp));
  }

  lemma PointerIsPos(fp: FIL)
    requires fp.Valid()
    ensures Abs(fp).pos == fp.fptr
  {
  }

  /** After a write and a seek to where it started the bytes written are ahead. */
  lemma WrittenThere(v0: Vector, w: seq<Byte>, n: nat, x: seq<Byte>, v1: Vector, m: nat, y: seq<Byte>, v2: Vector)
    requires v0.pos < TWO32 && Step(v0, WriteOp(w), x, n, v1) && Step(v1, SeekOp(v0.pos), y, m, v2)
    ensures n <= |w| < TWO32 && v2.pos == v0.pos && v2.data == v1.data
  {
    MulMono(v1.unit, v1.clusters, v1.clusters + v1.free);
    assert v2.data[..|v1.data|] == v2.data;
  }

  lemma ReadThere(v0: Vector, w: seq<Byte>, n: nat, x: seq<Byte>, v1: Vector, v2: Vector, m: nat, out: seq<Byte>,
                  v3: Vector)
    requires v0.pos < TWO32 && n <= |w| < TWO32 && Step(v0, WriteOp(w), x, n, v1)
    requires v2.pos == v0.pos && v2.data == v1.data && Step(v2, ReadOp(n), out, m, v3)
    ensures out == w[..n] && v3.pos == v0.pos + n
    ensures n == Min(Min(|w|, 0xFFFF_FFFF - v0.pos), Room(v0) - v0.pos)
    ensures v3.data == Splice(v0.data, v0.pos, w[..n])
  {
    assert v1.data[v0.pos..v0.pos + n] == w[..n];
  }

  // ---------------------------------------------------------------- durability

  /** A freshly opened file on a clean window has no unsaved changes. */
  lemma OpenedSaved(fp: FIL)
    requires fp.Valid() && !fp.dirty && !fp.fs.wflag
    requires Stores(fp.fs.g, fp.fs.img, fp.dirSect, fp.dirOff, fp.chain, Data(fp.S()))
    ensures Saved(fp)
  {
  }

  /** What `f_open` needs to know of the directory sector. */
  lemma ReopenPlace(f: File)
    requires Good(f) && f.fat == Table(f.g, f.img)
    ensures f.g.fatbase + FatArea(f.g) <= f.dirSect < f.g.volend <= |f.img|
    ensures f.dirSect < f.g.database ||
            forall c :: InData(f.g, c) && SectorIn(f.g, c, f.dirSect) ==> c !in f.chain && Table(f.g, f.img)[c] != 0
  {
  }

  /** With no unsaved changes the raw device stores the file. */
  lemma SavedOnDisk(fp: FIL)
    requires fp.Valid() && Saved(fp) && !fp.modified
    ensures fp.fs.disk == fp.fs.img
    ensures Sane(fp.S()) && Stores(fp.fs.g, fp.fs.disk, fp.dirSect, fp.dirOff, fp.chain, Data(fp.S()))
  {
    hide Good, Stores, Data, Sane;
    GoodIsCore(fp.S());
  }

  /** Any run, synchronisation, loss of everything in memory, mount, open: the same bytes are there. The
      device alone is carried over from the old volume object to the new one. */
  method RunSyncRemountOpen(fp: FIL, ops: seq<Op>)
      returns (fq: FIL, outs: seq<seq<Byte>>, ns: seq<nat>, ghost vs: seq<Vector>)
    requires Open(fp) && Saved(fp) && RoomForFsInfo(fp.fs.g)
    requires forall i :: 0 <= i < |ops| && ops[i].WriteOp? ==> |ops[i].w| < TWO32
    modifies fp, fp.buf, fp.fs, fp.fs.win
    ensures fp.Valid() && fq.Valid() && fresh(fq) && fresh(fq.fs) && fq.fs.g == fp.fs.g && fq.fs.disk == fp.fs.disk
    ensures |outs| == |ns| == |ops| && |vs| == |ops| + 1
    ensures vs[0] == old(Abs(fp)) && vs[|ops|] == Abs(fp)
    ensures forall i :: 0 <= i < |ops| ==> Step(vs[i], ops[i], outs[i], ns[i], vs[i + 1])
    ensures Data(fq.S()) == Abs(fp).data && fq.fptr == 0
    // free count and search hint come back through FSInfo, and the file can be worked on as before
    ensures old(Settled(fp)) ==> Open(fq) && HintsBack(fp.fs, fq.fs)
  {
    hide Good, Sane, Data, Stores, Step, Healthy, Saved, KeepsOthers, FatFs.Base, FatFs.Valid, RoomForFsInfo, HintsBack;
    outs, ns, vs := Run(fp, ops);
    RoomSpares(fp.fs.g, fp.fs.fsiFlag);
    DoSync(fp);
    fq := RemountOpen(fp);
    if old(Settled(fp)) {
      FoundHints(fp.fs, fq.fs);
      HealthyAgain(fp, fq);
    }
  }

  /** The new volume object has the free count of the old one, and its search hint unless the count is unknown
      or 0; without an FSInfo sector both are unknown. */
  ghost predicate HintsBack(a: FatFs, b: FatFs)
    requires FatFits(a.g) && a.g.volend <= |a.disk|
    reads a, b
  {
    if Announced(a.g, a.disk) then
      b.freeClst == a.freeClst && (0 < a.freeClst <= a.g.nFatent - 2 ==> b.lastClst == a.lastClst)
    else
      b.freeClst == b.lastClst == 0xFFFF_FFFF
  }

  lemma FoundHints(a: FatFs, b: FatFs)
    requires a.Valid() && a.disk == a.img && a.fsiFlag != 1 && RoomForFsInfo(a.g)
    requires (b.fsiFlag, b.freeClst, b.lastClst) == MountedHints(a.g, a.disk)
    ensures HintsBack(a, b)
  {
    hide FatFs.Base, IsFsInfo, LdWord, LdDword;
  }

  lemma HealthyAgain(fp: FIL, fq: FIL)
    requires Healthy(fp) && fq.fs.fat == fp.fs.fat && FatFits(fp.fs.g) && fp.fs.g.volend <= |fp.fs.disk|
    requires HintsBack(fp.fs, fq.fs) && |fp.fs.fat| == fp.fs.g.nFatent
    ensures Healthy(fq)
  {
    hide LdWord;
  }

  lemma RoomSpares(g: Geometry, fsi: Byte)
    requires RoomForFsInfo(g)
    ensures SparesFat(g, fsi)
  {
  }

  /** Mount, and the window on sector `sect`. */
  method MountAt(dev: Image, g: Geometry, sect: U32) returns (vol: FatFs)
    requires FatFits(g) && g.volend <= |dev| && sect < |dev| && OffFat2(g, sect)
    ensures fresh(vol) && fresh(vol.win) && vol.Valid() && vol.g == g && vol.disk == vol.img == dev && !vol.wflag
    ensures vol.winsect == sect && vol.fat == Table(g, dev)
    ensures (vol.fsiFlag, vol.freeClst, vol.lastClst) == MountedHints(g, dev)
  {
    hide FatFs.Base, FatFs.Shows, MountedHints;
    vol := new FatFs.Mount(dev, g);
    vol.MoveWindow(sect);
    vol.TableFact();
  }

  lemma OffMirror(f: File)
    requires Good(f)
    ensures OffFat2(f.g, f.dirSect)
  {
  }

  /** Mount and open on the raw device of a file without unsaved changes. */
  method RemountOpen(fp: FIL) returns (fq: FIL)
    requires fp.Valid() && Saved(fp) && !fp.modified
    ensures fq.Valid() && fresh(fq) && fresh(fq.fs) && fq.fs.g == fp.fs.g && fq.fs.disk == fp.fs.disk
    ensures Data(fq.S()) == Abs(fp).data && fq.fptr == 0 && Saved(fq)
    ensures FatFits(fp.fs.g) && fp.fs.g.volend <= |fp.fs.disk| && fq.fs.fat == fp.fs.fat
    ensures (fq.fs.fsiFlag, fq.fs.freeClst, fq.fs.lastClst) == MountedHints(fp.fs.g, fp.fs.disk)
    ensures fq.readable == fp.readable && fq.writable == fp.writable && fq.err == Ok && fp.fs.disk == fp.fs.img
  {
    hide Good, Sane, Data, Stores, FatFs.Base, FatFs.Shows, MountedHints, HintsOk, Table, OffFat2;
    OffMirror(fp.S());
    SavedOnDisk(fp);
    GoodIsCore(fp.S());
    fp.fs.TableFact();
    ReopenPlace(fp.S());
    SyncedFits(fp.fs.g, fp.fs.disk, fp.dirSect, fp.dirOff, fp.chain, Data(fp.S()));
    var vol := MountAt(fp.fs.disk, fp.fs.g, fp.dirSect);
    fq := new FIL.Open(vol, fp.dirOff, fp.readable, fp.writable, fp.chain, Data(fp.S()));
    GoodIsCore(fq.S());
    OpenedSaved(fq);
  }

  lemma SyncedFits(g: Geometry, img: Image, dirSect: int, o: nat, cs: seq<nat>, d: seq<Byte>)
    requires Stores(g, img, dirSect, o, cs, d)
    ensures FatFits(g) && g.volend <= |img| && 0 <= dirSect < |img| && o + 32 <= 512
  {
  }
}
