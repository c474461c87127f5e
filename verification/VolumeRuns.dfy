/** Whole runs of a mounted volume: the two FAT copies on the raw device. */
module VolumeRuns {
  import opened Bytes
  import opened Geometry
  import opened FatTable
  import opened Chains
  import opened Volume

  /** What file and directory code does with a volume. `Edit` changes one byte of a root or data sector
      through the window, `WriteData` writes a data sector past it. */
  datatype VolumeOp =
    | Show(sect: U32)
    | Look(clst: U32)
    | Link(clst: U32, val: U32)
    | Extend(clst: U32)
    | Remove(clst: U32, pclst: U32)
    | Edit(sect: U32, off: nat, x: Byte)
    | WriteData(sect: U32, sec: Sector)
    | Clear(clst: U32)
    | Flush
    | Count

  /** Outside a dirty window, raw FAT1 and raw FAT2 are equal. */
  ghost predicate RawMirrored(vol: FatFs)
    requires vol.Valid()
    reads vol, vol.win
  {
    vol.g.nFats == 2 ==>
      forall s :: InFat1(vol.g, s) && !(vol.wflag && s == vol.winsect) ==> vol.disk[s] == vol.disk[s + vol.g.fsize]
  }

  ghost predicate Sound(vol: FatFs)
    reads vol, vol.win
  {
    vol.Valid() && WellFormed(vol.g) && RoomForFsInfo(vol.g) && Mirrored(vol.g, vol.img)
  }

  /** Changes outside both FATs keep the copies equal. */
  lemma OutsideKeepsMirror(g: Geometry, a: Image, b: Image)
    requires FatFits(g) && g.volend <= |a| == |b| && Mirrored(g, a)
    requires forall s :: g.fatbase <= s < g.fatbase + FatArea(g) ==> b[s] == a[s]
    ensures Mirrored(g, b)
  {
  }

  /** One byte changed through the window. */
  method EditByte(vol: FatFs, sect: U32, off: nat, x: Byte)
    requires Sound(vol) && vol.g.fatbase + FatArea(vol.g) <= sect < vol.g.volend && off < 512
    modifies vol`disk, vol`wflag, vol`winsect, vol`img, vol`fat, vol.win
    ensures Sound(vol)
    ensures vol.img == old(vol.img)[sect := old(vol.img)[sect][off := x]]
  {
    vol.MoveWindow(sect);
    ghost var img := vol.img;
    vol.win[off] := x;
    assert vol.win[..] == img[sect][off := x];
    vol.MarkDirty();
    OutsideKeepsMirror(vol.g, img, vol.img);
  }

  /** One operation; what the callers in the source never ask for is skipped: sectors outside the root
      and data areas, data under the window, clusters out of range. */
  method Do(vol: FatFs, op: VolumeOp)
    requires Sound(vol)
    modifies vol, vol.win
    ensures Sound(vol)
  {
    hide FatFs.Base, FatFs.Valid, WellFormed, OnlyFatChanged, Mirrored;
    ghost var g, img := vol.g, vol.img;
    match op {
      case Show(sect) =>
        if sect < vol.g.volend && OffFat2(vol.g, sect) { vol.MoveWindow(sect); }
      case Look(clst) =>
        var v := vol.GetFat(clst);
      case Link(clst, val) =>
        var ok := vol.PutFat(clst, val);
        FatKeepsMirror(g, img, vol.img);
      case Extend(clst) =>
        var c := vol.CreateChain(clst);
        FatKeepsMirror(g, img, vol.img);
      case Remove(clst, pclst) =>
        var ok := vol.RemoveChain(clst, pclst);
        FatKeepsMirror(g, img, vol.img);
      case Edit(sect, off, x) =>
        if vol.g.fatbase + FatArea(vol.g) <= sect < vol.g.volend && off < 512 { EditByte(vol, sect, off, x); }
      case WriteData(sect, sec) =>
        if vol.g.database <= sect < vol.g.volend && sect != vol.winsect {
          WriteOne(vol, sect, sec);
        }
      case Clear(clst) =>
        if 2 <= clst < vol.g.nFatent { ClearOne(vol, clst); }
      case Flush =>
        FlushAll(vol);
      case Count =>
        var ok, n := vol.GetFree();
    }
  }

  lemma FatKeepsMirror(g: Geometry, a: Image, b: Image)
    requires FatFits(g) && g.volend <= |a| && Mirrored(g, a) && OnlyFatChanged(g, a, b)
    ensures |b| == |a| && Mirrored(g, b)
  {
  }

  method WriteOne(vol: FatFs, sect: U32, sec: Sector)
    requires Sound(vol) && vol.g.database <= sect < vol.g.volend && sect != vol.winsect
    modifies vol`disk, vol`img
    ensures Sound(vol)
  {
    ghost var img := vol.img;
    vol.WriteSector(sec, sect);
    OutsideKeepsMirror(vol.g, img, vol.img);
  }

  method ClearOne(vol: FatFs, clst: U32)
    requires Sound(vol) && 2 <= clst < vol.g.nFatent
    modifies vol`disk, vol`wflag, vol`winsect, vol`img, vol.win
    ensures Sound(vol)
  {
    ghost var img := vol.img;
    ClusterInVolume(vol.g, clst);
    vol.DirClear(clst);
    OutsideKeepsMirror(vol.g, img, vol.img);
  }

  method FlushAll(vol: FatFs)
    requires Sound(vol)
    modifies vol`disk, vol`wflag, vol`winsect, vol`img, vol`fat, vol`fsiFlag, vol.win
    ensures Sound(vol) && !vol.wflag && vol.disk == vol.img
  {
    SyncSparesFat(vol.g, vol.img, vol.fsiFlag, vol.freeClst, vol.lastClst);
    vol.SyncFs();
  }

  /** From the mount of a device whose two FATs agree, after any run of volume operations the raw copies
      agree outside a dirty window. */
  method Run(dev: Image, g: Geometry, ops: seq<VolumeOp>) returns (vol: FatFs)
    requires WellFormed(g) && g.volend <= |dev| && RoomForFsInfo(g) && Mirrored(g, dev)
    ensures fresh(vol) && fresh(vol.win) && vol.g == g && Sound(vol) && RawMirrored(vol)
  {
    hide FatFs.Base, FatFits, ClustersFit, Mirrored, MountedHints;
    vol := new FatFs.Mount(dev, g);
    for i := 0 to |ops|
      invariant fresh(vol) && fresh(vol.win) && vol.g == g && Sound(vol)
    {
      Do(vol, ops[i]);
    }
    if g.nFats == 2 { vol.RawMirror(); }
  }

  /** Mounting, asking for the free space and synchronising, nothing else: on a FAT32 volume with a single
      reserved sector whose boot sector announces an FSInfo sector, cluster 2 ends up free. */
  method MountCountSync(dev: Image, g: Geometry) returns (vol: FatFs)
    requires FatFits(g) && g.volend <= |dev| && g.fsType == Fat32 && g.volbase + 1 == g.fatbase
    requires LdWord(dev[g.volbase], BPB_FSInfo32) == 1 && !IsFsInfo(dev[g.fatbase])
    ensures fresh(vol) && vol.Valid() && vol.g == g && |vol.disk| == |dev| && Entry(g, vol.disk, 2) == 0
  {
    hide FatFs.Base, FatFs.Valid, FatFits, Entry, LdWord, IsFsInfo, FreeFrom;
    FitsDisk(g, |dev|);
    vol := new FatFs.Mount(dev, g);
    var ok, free := vol.GetFree();
    ghost var img := vol.img;
    vol.SyncFs();
    SyncSparesFat(g, img, 1, vol.freeClst, vol.lastClst);
  }

  lemma FitsDisk(g: Geometry, n: nat)
    requires FatFits(g) && g.volend <= n
    ensures g.volbase + 1 < n && g.nFatent - 2 < 0xFFFF_FFFF
  {
  }
}
