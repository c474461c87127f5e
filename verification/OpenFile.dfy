/** The file object: `f_read`, `f_write`, `f_lseek`, `f_truncate` and `f_sync` over the volume. */
module OpenFile {
  import opened Bytes
  import opened Geometry
  import opened FatTable
  import opened Chains
  import opened Volume
  import opened FileData
  import opened FileState

  datatype Result = Ok | IntErr | Denied

  class FIL {
    const fs: FatFs
    const buf: array<Byte>
    const readable: bool     // FA_READ
    const writable: bool     // FA_WRITE
    const dirSect: U32
    const dirOff: nat        // dir_ptr - win
    var modified: bool       // FA_MODIFIED
    var dirty: bool          // FA_DIRTY
    var err: Result
    var sclust: U32
    var objsize: U32
    var fptr: U32
    var clust: U32
    var sect: U32
    ghost var chain: seq<nat>
    ghost var floor: nat     // clusters the chain has whatever the size
    ghost var ci: nat

    ghost function S(): File
      requires buf.Length == 512
      reads `dirty, `sclust, `objsize, `fptr, `clust, `sect, `chain, `floor, `ci, buf, fs`img, fs`fat,
            fs`winsect
    {
      File(fs.g, fs.img, fs.fat, fs.winsect, chain, floor, sclust, objsize, fptr, clust, ci, sect, dirty, buf[..],
           dirSect)
    }

    ghost predicate Wired()
      reads fs`disk, fs`wflag, fs`winsect, fs`img, fs`fat, fs`freeClst, fs`lastClst, fs`fsiFlag, fs.win
      ensures Wired() ==> buf.Length == 512 && fs.Valid()
    {
      fs.Valid() && buf.Length == 512 && buf != fs.win && dirOff + 32 <= 512
    }

    ghost predicate Valid()
      reads this, buf, fs, fs.win
    {
      Wired() && Good(S())
    }

    /** The logical device is `img`, and a clean window is still clean. */
    ghost predicate Quiet(img: Image, dirtyWindow: bool)
      reads fs`img, fs`wflag
    {
      fs.img == img && (!dirtyWindow ==> !fs.wflag)
    }

    /** The end of `f_open` for an existing file whose entry the window shows: `cs` and `d` are the
        clusters and bytes stored under that entry. */
    constructor Open(vol: FatFs, off: nat, r: bool, w: bool, ghost cs: seq<nat>, ghost d: seq<Byte>)
      requires vol.Valid() && off + 32 <= 512
      requires Stores(vol.g, vol.img, vol.winsect, off, cs, d)
      requires vol.g.fatbase + FatArea(vol.g) <= vol.winsect < vol.g.volend
      // the directory sector is in the root area or in an allocated cluster of another chain
      requires vol.winsect < vol.g.database ||
               forall c :: InData(vol.g, c) && SectorIn(vol.g, c, vol.winsect) ==>
                             c !in cs && Table(vol.g, vol.img)[c] != 0
      ensures Valid() && fresh(buf) && fs == vol && readable == r && writable == w
      ensures fptr == 0 && Data(S()) == d && chain == cs
      ensures dirSect == vol.winsect && dirOff == off && !modified && !dirty && sect == 0 && err == Ok
    {
      fs, readable, writable, dirSect, dirOff := vol, r, w, vol.winsect, off;
      modified, dirty, err := false, false, Ok;
      sclust := DirClust(vol.g, vol.win[..], off);
      objsize := DirSize(vol.win[..], off);
      fptr, clust, sect := 0, 0, 0;
      chain, floor, ci := cs, |cs|, 0;
      buf := new Byte[512](_ => 0);
      new;
      assert vol.win[..] == vol.img[vol.winsect] && vol.fat == Table(vol.g, vol.img);
      hide FatFs.Base, FatFs.Valid, Good, DirClust, DirSize, Data;
      OpenedGood(S(), off, d);
    }

    // ------------------------------------------------------------ buffer and chain moves

    /** Write-back of the private buffer. */
    method FlushBuf()
      requires Wired() && Sane(S())
      modifies `dirty, fs`disk, fs`img
      ensures Wired() && !dirty && S() == Flushed(old(S()))
      ensures Sane(S()) && Data(S()) == old(Data(S())) && OnlyFile(old(S()), S())
      ensures old(!dirty) ==> fs.img == old(fs.img)
    {
      hide FatFs.Base, FatFs.Valid, Sane, OnlyFile, Data, Secs;
      FlushKeeps(S());
      if dirty {
        DirtyNotWindow(S(), fs.winsect);
        fs.WriteSector(buf[..], sect);
        dirty := false;
      }
    }

    /** `create_chain` for this file, and the new current cluster: 0 makes a first cluster, otherwise
        the chain is followed, or stretched at its tail. */
    method TakeCluster(from: U32) returns (c: U32)
      requires Wired() && Sane(S())
      requires if chain == [] then from == 0 else ci < |chain| && from as int == chain[ci]
      modifies `sclust, `clust, `ci, `chain, fs, fs.win
      ensures Wired() && S() == NextCluster(old(S()), fs.img, fs.fat, fs.winsect, c)
      ensures Sane(S()) && Data(S()) == old(Data(S())) && OnlyFile(old(S()), S())
      ensures c >= 2 ==>
                && clust == c && ci < |chain| && chain[ci] == c && sclust != 0
                && ci == (if old(chain) == [] then 0 else old(ci) + 1)
                && |chain| == if ci < old(|chain|) then old(|chain|) else ci + 1
      ensures c < 2 ==> fs.State() == old(fs.State()) && (chain == [] || ci + 1 == |chain|)
      ensures c == 0 && NoOnes(fs.fat) && FreeOk(fs.State()) ==> NoneFree(fs.fat)
      ensures c == 1 ==> !NoOnes(fs.fat)
      ensures old(FreeOk(fs.State())) ==> FreeOk(fs.State())
      ensures |chain| >= old(|chain|)
      ensures |chain| == old(|chain|) ==> Quiet(old(fs.img), old(fs.wflag)) && fs.fsiFlag == old(fs.fsiFlag)
    {
      hide FatFs.Base, FatFs.Valid, Sane, OnlyFile, View, Create, Data, FreeOk, NoOnes, NoneFree, OnlyFatChanged,
           VolumeOk, ChainOk, BufOk, CursorOk, Positioned, Elsewhere;
      ghost var a, f := fs.State(), S();
      if chain != [] && ci + 1 < |chain| { InsideChain(f); }
      c := fs.CreateChain(from);
      NextClusterKeeps(f, a, fs.State(), c, fs.img, fs.winsect);
      if c >= 2 {
        clust := c;
        if sclust == 0 { sclust := c; }
        ci := if chain == [] then 0 else ci + 1;
        chain := if ci < |chain| then chain else chain + [c as nat];
      }
    }

    // ------------------------------------------------------------ f_write

    /** Cluster-boundary part of the loop of `f_write`: 0 when the disk is full, 1 on an internal error. */
    method EnterForWrite() returns (c: U32)
      requires Wired() && Good(S()) && fptr % 512 == 0 && fptr / 512 % fs.g.csize == 0
      modifies `sclust, `clust, `ci, `chain, fs, fs.win
      ensures Wired() && Core(S()) && Data(S()) == old(Data(S())) && OnlyFile(old(S()), S())
      ensures c >= 2 ==> Here(S(), ci) && NeedsOrEdge(S(), ci)
      ensures c < 2 ==> Good(S()) && ChainEnd(S())
      ensures c == 0 && NoOnes(fs.fat) && FreeOk(fs.State()) ==> NoneFree(fs.fat)
      ensures c == 1 ==> !NoOnes(fs.fat)
      ensures old(FreeOk(fs.State())) ==> FreeOk(fs.State())
    {
      hide FatFs.Base, FatFs.Valid, Sane, OnlyFile, View, IsChain, Needs;
      ghost var f := S();
      if fptr == 0 && sclust != 0 {
        FirstCluster(f);
        c := sclust;
        clust := c;
        ci := 0;
        SameButCursor(f, S());
      } else {
        if fptr == 0 {
          FirstCluster(f);
          c := TakeCluster(0);
        } else {
          CursorInChain(f);
          c := TakeCluster(clust);
        }
      }
      if c >= 2 {
        EnteredHere(f, S());
      } else {
        StillGood(f, S());
        BoundaryEnd(f, S());
      }
    }

    /** Direct multi-sector transfer of `f_write`, with the refill of the private buffer. */
    method DirectOut(wbuff: seq<Byte>, off: nat, s: U32, cc: nat, ghost k: nat)
      requires Wired() && Core(S()) && !dirty && fptr == 512 * k && 0 < cc && k + cc <= |Secs(S())|
      requires Adjacent(Secs(S()), k, cc) && s as int == Secs(S())[k]
      requires off + 512 * cc <= |wbuff| && fptr + 512 * cc < TWO32
      requires fs.g.database <= s && s + cc <= fs.g.volend
      modifies `dirty, buf, fs`disk, fs`img
      ensures Wired() && !dirty
      ensures S() == old(S()).(img := WriteRange(old(fs.img), s, cc, wbuff, off), buf := buf[..])
      ensures DirectOk(old(S()), k, cc, wbuff, off, buf[..])
    {
      hide FatFs.Base, FatFs.Valid, Sane, View, WriteRange, Secs;
      DirectPre(S(), k, cc);
      fs.WriteSectors(wbuff, off, s, cc);
      if Sub32(sect, s) < cc {
        CopyIn(buf, 0, wbuff, off + 512 * (sect - s), 512);
        dirty := false;
      }
    }

    /** Moves the file pointer over `n` bytes just written. */
    method Advance(n: nat)
      requires fptr + n < TWO32
      modifies `fptr, `objsize
      ensures fptr == old(fptr) + n && objsize == Grown(old(objsize), fptr)
    {
      fptr := fptr + n;
      objsize := if fptr > objsize then fptr else objsize;
    }

    /** Partial-sector transfer of `f_write` into the private buffer, which became ready from state `f`. */
    method PartialOut(wbuff: seq<Byte>, off: nat, n: nat, ghost k: nat, ghost f: File)
      requires Wired() && Ready(f, k, buf[..]) && S() == f.(sect := Secs(f)[k], buf := buf[..])
      requires fptr / 512 == k && fptr % 512 + n <= 512 && fptr + n < TWO32 && off + n <= |wbuff|
      modifies `fptr, `objsize, `dirty, buf
      ensures Wired() && Core(S()) && OnlyFile(f, S())
      ensures Data(S()) == Splice(Data(f), old(fptr), wbuff[off..off + n])
      ensures fptr == old(fptr) + n && objsize == Grown(old(objsize), fptr) && dirty
    {
      hide FatFs.Base, FatFs.Valid, Sane, OnlyFile, View, Ready, Splice, Data, Secs;
      ghost var ready := buf[..];
      CopyIn(buf, fptr % 512, wbuff, off, n);
      dirty := true;
      Advance(n);
      PartialWrite(f, k, ready, buf[..], wbuff[off..off + n]);
    }

    /** On a sector boundary with at least a sector to write: as many sectors as the cluster holds. */
    method WriteWhole(wbuff: seq<Byte>, off: nat, s: U32, csect: U32, sectors: U32) returns (wcnt: U32)
      requires Wired() && Core(S()) && !dirty && Here(S(), ci) && NeedsOrEdge(S(), ci) && fptr % 512 == 0
      requires csect == fptr / 512 % fs.g.csize && fptr / 512 < |Secs(S())| && s as int == Secs(S())[fptr / 512]
      requires 0 < sectors && off + 512 * sectors <= |wbuff| && fptr + 512 * sectors < TWO32
      modifies `fptr, `objsize, `dirty, buf, fs`disk, fs`img
      ensures Valid() && OnlyFile(old(S()), S()) && 0 < wcnt <= 512 * sectors
      ensures Data(S()) == Splice(old(Data(S())), old(fptr), wbuff[off..off + wcnt])
      ensures fptr == old(fptr) + wcnt && objsize == Grown(old(objsize), fptr)
    {
      hide FatFs.Base, FatFs.Valid, Sane, OnlyFile, View, WriteRange, Here, NeedsOrEdge, Good, Secs, DirectOk;
      ghost var f, k := S(), fptr / 512;
      HereSector(f, ci);
      var cc := sectors;
      if csect + cc > fs.g.csize { cc := fs.g.csize - csect; }
      HereRun(f, ci, cc);
      DirectOut(wbuff, off, s, cc, k);
      wcnt := 512 * cc;
      Advance(wcnt);
      DirectDone(f, S(), ci, k, cc, wbuff, off);
    }

    /** On a sector boundary with less than a sector to write: fill the buffer if the file has bytes there. */
    method WritePart(wbuff: seq<Byte>, off: nat, s: U32, btw: U32) returns (wcnt: U32)
      requires Wired() && Core(S()) && !dirty && Here(S(), ci) && NeedsOrEdge(S(), ci) && fptr % 512 == 0
      requires fptr / 512 < |Secs(S())| && s as int == Secs(S())[fptr / 512] && s < fs.g.volend
      requires 0 < btw < 512 && off + btw == |wbuff| && fptr + btw < TWO32
      modifies `fptr, `objsize, `dirty, `sect, buf
      ensures Valid() && OnlyFile(old(S()), S()) && 0 < wcnt <= btw
      ensures Data(S()) == Splice(old(Data(S())), old(fptr), wbuff[off..off + wcnt])
      ensures fptr == old(fptr) + wcnt && objsize == Grown(old(objsize), fptr)
    {
      hide FatFs.Base, FatFs.Valid, Sane, OnlyFile, View, Here, NeedsOrEdge, Good, Secs, Ready;
      ghost var f, k := S(), fptr / 512;
      HereSector(f, ci);
      HereRun(f, ci, 1);
      SectorNotWindow(f, k);
      if sect != s && fptr < objsize {
        fs.ReadDataSector(buf, s);
      }
      ReadyAtBoundary(f, k, buf[..]);
      sect := s;
      wcnt := 512 - fptr % 512;
      if wcnt > btw { wcnt := btw; }
      PartialOut(wbuff, off, wcnt, k, f);
      LandsGood(f, S(), ci, wcnt, k);
    }

    /** The loop body of `f_write` on a sector boundary, once the cluster is known. */
    method WriteAtBoundary(wbuff: seq<Byte>, off: nat, btw: U32) returns (wcnt: U32)
      requires Wired() && Core(S()) && Here(S(), ci) && NeedsOrEdge(S(), ci) && fptr % 512 == 0
      requires 0 < btw && off + btw == |wbuff| && fptr + btw < TWO32
      modifies `fptr, `objsize, `dirty, `sect, buf, fs`disk, fs`img
      ensures Valid() && OnlyFile(old(S()), S()) && 0 < wcnt <= btw
      ensures Data(S()) == Splice(old(Data(S())), old(fptr), wbuff[off..off + wcnt])
      ensures fptr == old(fptr) + wcnt && objsize == Grown(old(objsize), fptr)
    {
      hide FatFs.Base, FatFs.Valid, Sane, OnlyFile, View, Here, NeedsOrEdge, Good, Secs, Data, VolumeOk, ChainOk,
           BufOk, CursorOk, Positioned, Elsewhere, Splice, Needs, Flushed;
      ghost var f0, d := S(), Data(S());
      HereSector(f0, ci);
      CurrentCluster(f0, ci);
      var csect := fptr / 512 % fs.g.csize;
      FlushBuf();
      ghost var f1 := S();
      assert Data(f1) == d;
      FlushedHere(f0, ci);
      wcnt := WriteClean(wbuff, off, btw, Clst2Sect(fs.g, clust) + csect, csect);
      OnlyFileTransitive(f0, f1, S());
    }

    /** The same once the private buffer is clean, `s` being the sector of the pointer. */
    method WriteClean(wbuff: seq<Byte>, off: nat, btw: U32, s: U32, csect: U32) returns (wcnt: U32)
      requires Wired() && Core(S()) && !dirty && Here(S(), ci) && NeedsOrEdge(S(), ci) && fptr % 512 == 0
      requires 0 < btw && off + btw == |wbuff| && fptr + btw < TWO32 && 0 < fs.g.csize
      requires csect == fptr / 512 % fs.g.csize && s < fs.g.volend
      requires fptr / 512 < |Secs(S())| && s as int == Secs(S())[fptr / 512]
      modifies `fptr, `objsize, `dirty, `sect, buf, fs`disk, fs`img
      ensures Valid() && OnlyFile(old(S()), S()) && 0 < wcnt <= btw
      ensures Data(S()) == Splice(old(Data(S())), old(fptr), wbuff[off..off + wcnt])
      ensures fptr == old(fptr) + wcnt && objsize == Grown(old(objsize), fptr)
    {
      hide FatFs.Base, FatFs.Valid, Sane, OnlyFile, View, Here, NeedsOrEdge, Good, Secs, Data, Splice, Needs;
      var cc: U32 := btw / 512;
      if cc > 0 {
        wcnt := WriteWhole(wbuff, off, s, csect, cc);
      } else {
        wcnt := WritePart(wbuff, off, s, btw);
      }
    }

    /** One round of the loop of `f_write`; `wcnt == 0` with Ok means that the disk is full. */
    method WriteStep(wbuff: seq<Byte>, off: nat, btw: U32) returns (res: Result, wcnt: U32)
      requires Valid() && 0 < btw && off + btw == |wbuff| && fptr + btw < TWO32
      modifies `err, `dirty, `sclust, `objsize, `fptr, `clust, `sect, `chain, `ci, buf, fs, fs.win
      ensures Valid() && OnlyFile(old(S()), S()) && wcnt <= btw
      ensures Data(S()) == Splice(old(Data(S())), old(fptr), wbuff[off..off + wcnt])
      ensures fptr == old(fptr) + wcnt && objsize == Grown(old(objsize), fptr)
      ensures err == if res == Ok then old(err) else IntErr
      ensures res == Ok && wcnt == 0 ==> ChainEnd(S()) && (NoOnes(fs.fat) && FreeOk(fs.State()) ==> NoneFree(fs.fat))
      ensures res != Ok ==> res == IntErr && wcnt == 0 && !NoOnes(fs.fat)
      ensures old(FreeOk(fs.State())) ==> FreeOk(fs.State())
    {
      hide FatFs.Base, FatFs.Valid, Sane, OnlyFile, View, Here, NeedsOrEdge, Good, Secs, Ready, Data, FreeOk, NoOnes,
           NoneFree, Splice,
           VolumeOk, ChainOk, BufOk, CursorOk, Positioned, Elsewhere;
      ghost var f := S();
      GoodIsCore(f);
      SizeFacts(f);
      res, wcnt := Ok, 0;
      if fptr % 512 == 0 {
        if fptr / 512 % fs.g.csize == 0 {
          var c := EnterForWrite();
          if c < 2 {
            if c == 1 {
              err := IntErr;
              res := IntErr;
            }
            return;
          }
        } else {
          MidCluster(f);
        }
        ghost var f1 := S();
        wcnt := WriteAtBoundary(wbuff, off, btw);
        OnlyFileTransitive(f, f1, S());
      } else {
        InsideSector(f);
        wcnt := 512 - fptr % 512;
        if wcnt > btw { wcnt := btw; }
        PartialOut(wbuff, off, wcnt, fptr / 512, f);
        LandsGood(f, S(), ci, wcnt, f.fptr / 512);
      }
    }

    /** `f_write`: writes `wbuff` at the file pointer, as far as file size and disk space allow. */
    method Write(wbuff: seq<Byte>) returns (res: Result, bw: U32)
      requires Valid() && |wbuff| < TWO32
      modifies `err, `modified, `dirty, `sclust, `objsize, `fptr, `clust, `sect, `chain, `ci, buf, fs, fs.win
      ensures Valid() && OnlyFile(old(S()), S())
      // exactly the bytes [fptr, fptr + bw) change, and the size grows to cover them
      ensures bw <= |wbuff| && Data(S()) == Splice(old(Data(S())), old(fptr), wbuff[..bw])
      ensures fptr == old(fptr) + bw && objsize == Grown(old(objsize), fptr)
      ensures old(err) != Ok ==> res == old(err) && bw == 0
      ensures old(err) == Ok && !writable ==> res == Denied && bw == 0
      ensures old(err) == Ok && writable ==>
                && (res == Ok ==> modified && err == Ok)
                // nothing but the 4 GiB limit, or a full disk at the end of the chain, shortens a write
                && (res == Ok && bw < |wbuff| && fptr < 0xFFFF_FFFF ==>
                      ChainEnd(S()) && (NoOnes(fs.fat) && FreeOk(fs.State()) ==> NoneFree(fs.fat)))
                && (res != Ok ==> res == IntErr == err && !NoOnes(fs.fat))
      ensures old(FreeOk(fs.State())) ==> FreeOk(fs.State())
    {
      hide FatFs.Base, FatFs.Valid, Sane, OnlyFile, View, Good, Secs, Data, Splice, FreeOk, NoOnes, NoneFree, VolumeOk;
      ghost var f := S();
      GoodIsCore(f);
      SpliceNothing(Data(f), f.fptr);
      assert wbuff[..0] == [];
      if err != Ok { return err, 0; }
      if !writable { return Denied, 0; }
      var btw: U32 := |wbuff|;
      if (fptr + btw) % 0x1_0000_0000 < fptr { btw := 0xFFFF_FFFF - fptr; }
      res, bw := WriteLoop(wbuff[..btw]);
      assert wbuff[..btw][..bw] == wbuff[..bw];
      if res == Ok { modified := true; }
    }

    /** The loop of `f_write`, for bytes that the size limit leaves room for. */
    method WriteLoop(wbuff: seq<Byte>) returns (res: Result, bw: U32)
      requires Valid() && err == Ok && fptr + |wbuff| < TWO32
      modifies `err, `dirty, `sclust, `objsize, `fptr, `clust, `sect, `chain, `ci, buf, fs, fs.win
      ensures Valid() && OnlyFile(old(S()), S())
      ensures bw <= |wbuff| && Data(S()) == Splice(old(Data(S())), old(fptr), wbuff[..bw])
      ensures fptr == old(fptr) + bw && objsize == Grown(old(objsize), fptr)
      ensures err == if res == Ok then Ok else IntErr
      ensures res == Ok && bw < |wbuff| ==>
                ChainEnd(S()) && (NoOnes(fs.fat) && FreeOk(fs.State()) ==> NoneFree(fs.fat))
      ensures res != Ok ==> res == IntErr && !NoOnes(fs.fat)
      ensures old(FreeOk(fs.State())) ==> FreeOk(fs.State())
    {
      hide FatFs.Base, FatFs.Valid, Sane, OnlyFile, View, Good, Secs, Data, Splice, FreeOk, NoOnes, NoneFree, VolumeOk;
      ghost var f := S();
      GoodIsCore(f);
      SpliceNothing(Data(f), f.fptr);
      assert wbuff[..0] == [];
      res, bw := Ok, 0;
      while bw < |wbuff|
        invariant Valid() && Core(S()) && OnlyFile(f, S()) && bw <= |wbuff| && res == Ok == err
        invariant Data(S()) == Splice(Data(f), f.fptr, wbuff[..bw])
        invariant fptr == f.fptr + bw && objsize == Grown(f.size, fptr)
        invariant old(FreeOk(fs.State())) ==> FreeOk(fs.State())
      {
        ghost var f1 := S();
        var wcnt;
        res, wcnt := WriteStep(wbuff, bw, |wbuff| - bw);
        OnlyFileTransitive(f, f1, S());
        SpliceMore(Data(f), f.fptr, wbuff, bw, wcnt);
        GoodIsCore(S());
        bw := bw + wcnt;
        if res != Ok || wcnt == 0 { break; }
      }
    }

    // ------------------------------------------------------------ f_read

    /** Cluster-boundary part of the loop of `f_read`; `clst < 2` would abort. */
    method EnterForRead() returns (clst: U32)
      requires Wired() && Good(S()) && fptr < objsize && fptr % 512 == 0 && fptr / 512 % fs.g.csize == 0
      modifies `clust, `ci, fs`disk, fs`wflag, fs`winsect, fs.win
      ensures Wired() && Core(S()) && Data(S()) == old(Data(S())) && OnlyFile(old(S()), S())
      ensures clst >= 2 && Here(S(), ci) && NeedsOrEdge(S(), ci)
      ensures old(!fs.wflag) ==> !fs.wflag
    {
      hide FatFs.Base, FatFs.Valid, Sane, OnlyFile, View, Good, Secs, Data, Here, NeedsOrEdge, Needs;
      ghost var f := S();
      GoodIsCore(f);
      NextExists(f);
      if fptr == 0 {
        clst := sclust;
      } else {
        clst := fs.GetFat(clust);
      }
      ghost var f1 := S();
      OnlyFatRefl(f);
      MoveKeeps(f, fs.img, fs.winsect);
      clust := clst;
      ci := if fptr == 0 then 0 else ci + 1;
      SameButCursor(f1, S());
      EnteredHere(f, S());
    }

    /** On a sector boundary with at least a sector to read: straight into the caller's buffer. */
    method ReadWhole(buff: array<Byte>, off: nat, s: U32, csect: U32, sectors: U32) returns (rcnt: U32)
      requires Wired() && Core(S()) && Here(S(), ci) && NeedsOrEdge(S(), ci) && fptr % 512 == 0
      requires csect == fptr / 512 % fs.g.csize && fptr / 512 < |Secs(S())| && s as int == Secs(S())[fptr / 512]
      requires 0 < sectors && off + 512 * sectors <= buff.Length && fptr + 512 * sectors <= objsize
      requires buff != buf && buff != fs.win
      modifies `fptr, buff
      ensures Valid() && OnlyFile(old(S()), S()) && 0 < rcnt <= 512 * sectors && fptr == old(fptr) + rcnt
      ensures Data(S()) == old(Data(S()))
      ensures buff[..][off..off + rcnt] == Data(S())[old(fptr)..fptr]
      ensures buff[..][..off] == old(buff[..])[..off] && buff[..][off + rcnt..] == old(buff[..])[off + rcnt..]
    {
      hide FatFs.Base, FatFs.Valid, Sane, OnlyFile, View, Here, NeedsOrEdge, Good, Secs, Data, Overlaid, Adjacent;
      ghost var f, k := S(), fptr / 512;
      HereSector(f, ci);
      var cc := sectors;
      if csect + cc > fs.g.csize { cc := fs.g.csize - csect; }
      HereRun(f, ci, cc);
      DirectPre(f, k, cc);
      Fetch(buff, off, s, cc);
      rcnt := 512 * cc;
      fptr := fptr + rcnt;
      DirectReadDone(f, S(), ci, k, cc, buff[..][off..off + 512 * cc]);
    }

    /** `disk_read` of `cc` sectors, one of them replaced by the dirty private buffer. */
    method Fetch(buff: array<Byte>, off: nat, s: U32, cc: U32)
      requires Wired() && fs.g.database <= s && s + cc <= fs.g.volend && sect < fs.g.volend <= TWO32
      requires !(s <= fs.winsect < s + cc) && off + 512 * cc <= buff.Length && buff != buf && buff != fs.win
      modifies buff
      ensures Wired() && buf[..] == old(buf[..])
      ensures Overlaid(buff[..][off..off + 512 * cc], fs.img, s, cc, dirty, sect, buf[..])
      ensures buff[..][..off] == old(buff[..])[..off] && buff[..][off + 512 * cc..] == old(buff[..])[off + 512 * cc..]
    {
      hide FatFs.Base, FatFs.Valid, Overlaid, Splice;
      ghost var was := buff[..];
      fs.ReadSectors(buff, off, s, cc);
      ghost var raw := buff[..][off..off + 512 * cc];
      RawSectors(was, buff[..], off, fs.img, s, cc, dirty, sect, buf[..]);
      if dirty && Sub32(sect, s) < cc {
        var d: nat := sect - s;
        assert buf[..][0..512] == buf[..];
        CopyInto(buff, off, 512 * cc, 512 * d, buf[..], 0, 512);
        OverlayOne(raw, buff[..][off..off + 512 * cc], fs.img, s, cc, sect, buf[..][0..512]);
      }
    }

    /** Makes the private buffer stand for sector `k` of the file, writing back what it held. */
    method SwitchBuf(s: U32, ghost k: nat)
      requires Wired() && Sane(S()) && k < |Secs(S())| && s as int == Secs(S())[k]
      modifies `dirty, `sect, buf, fs`disk, fs`img
      ensures Wired() && Sane(S()) && Data(S()) == old(Data(S())) && OnlyFile(old(S()), S())
      ensures sect == s
      ensures old(!dirty) ==> !dirty && fs.img == old(fs.img)
    {
      hide FatFs.Base, FatFs.Valid, Sane, OnlyFile, View, Secs, Data;
      ghost var f := S();
      SectorNotWindow(f, k);
      if sect != s {
        FlushBuf();
        ghost var f1 := S();
        SameSecs(f, f1);
        SectorNotWindow(f1, k);
        fs.ReadDataSector(buf, s);
        LoadKeeps(f1, k);
        sect := s;
        OnlyFileTransitive(f, f1, S());
      } else {
        CoreOnlyFile(f);
      }
    }

    /** On a sector boundary with less than a sector to read: position the private buffer. */
    method LoadBuf(s: U32, ghost k: nat)
      requires Wired() && Core(S()) && k < |Secs(S())| && s as int == Secs(S())[k]
      modifies `dirty, `sect, buf, fs`disk, fs`img
      ensures Wired() && Core(S()) && Data(S()) == old(Data(S())) && OnlyFile(old(S()), S())
      ensures sect == s && Ready(S(), k, buf[..])
      ensures old(!dirty) ==> !dirty && fs.img == old(fs.img)
    {
      hide FatFs.Base, FatFs.Valid, Sane, OnlyFile, View, Secs, Data, Ready;
      ghost var f := S();
      SwitchBuf(s, k);
      SameSecs(f, S());
      ReadyLoaded(S(), k);
    }

    /** One round of the loop of `f_read`. */
    method ReadStep(buff: array<Byte>, off: nat, btr: U32) returns (rcnt: U32)
      requires Valid() && 0 < btr && off + btr <= buff.Length && fptr + btr <= objsize
      requires buff != buf && buff != fs.win
      modifies `clust, `ci, `dirty, `sect, `fptr, buf, buff, fs`disk, fs`wflag, fs`winsect, fs`img, fs.win
      ensures Valid() && OnlyFile(old(S()), S()) && 0 < rcnt <= btr && fptr == old(fptr) + rcnt
      ensures Data(S()) == old(Data(S()))
      ensures buff[..][off..off + rcnt] == Data(S())[old(fptr)..fptr]
      ensures buff[..][..off] == old(buff[..])[..off] && buff[..][off + rcnt..] == old(buff[..])[off + rcnt..]
      ensures old(!dirty) ==> !dirty && fs.img == old(fs.img)
      ensures old(!fs.wflag) ==> !fs.wflag
    {
      hide FatFs.Base, FatFs.Valid, Sane, OnlyFile, View, Here, NeedsOrEdge, Good, Secs, Ready, Data, FreeOk, NoOnes,
           NoneFree, Splice;
      ghost var f := S();
      GoodIsCore(f);
      if fptr % 512 == 0 {
        if fptr / 512 % fs.g.csize == 0 {
          var clst := EnterForRead();
        } else {
          MidCluster(f);
        }
        ghost var f1 := S();
        rcnt := ReadAtBoundary(buff, off, btr);
        OnlyFileTransitive(f, f1, S());
      } else {
        InsideSector(f);
        rcnt := TakeBytes(buff, off, btr, fptr / 512);
      }
    }

    /** The loop body of `f_read` on a sector boundary, once the cluster is known. */
    method ReadAtBoundary(buff: array<Byte>, off: nat, btr: U32) returns (rcnt: U32)
      requires Wired() && Core(S()) && Here(S(), ci) && NeedsOrEdge(S(), ci) && fptr % 512 == 0
      requires 0 < btr && off + btr <= buff.Length && fptr + btr <= objsize
      requires buff != buf && buff != fs.win
      modifies `dirty, `sect, `fptr, buf, buff, fs`disk, fs`img
      ensures Valid() && OnlyFile(old(S()), S()) && 0 < rcnt <= btr && fptr == old(fptr) + rcnt
      ensures Data(S()) == old(Data(S()))
      ensures buff[..][off..off + rcnt] == Data(S())[old(fptr)..fptr]
      ensures buff[..][..off] == old(buff[..])[..off] && buff[..][off + rcnt..] == old(buff[..])[off + rcnt..]
      ensures old(!dirty) ==> !dirty && fs.img == old(fs.img)
    {
      hide FatFs.Base, FatFs.Valid, Sane, OnlyFile, View, Here, NeedsOrEdge, Good, Secs, Ready, Data, FreeOk, NoOnes,
           NoneFree, Splice;
      ghost var f := S();
      HereSector(f, ci);
      CurrentCluster(f, ci);
      var csect := fptr / 512 % fs.g.csize;
      var s: U32 := Clst2Sect(fs.g, clust) + csect;
      var cc: U32 := btr / 512;
      if cc > 0 {
        rcnt := ReadWhole(buff, off, s, csect, cc);
      } else {
        LoadBuf(s, fptr / 512);
        ghost var f1 := S();
        MovedHere(f, f1, ci);
        rcnt := TakeBytes(buff, off, btr, fptr / 512);
        OnlyFileTransitive(f, f1, S());
      }
    }

    /** `memcpy` out of the positioned private buffer, up to the end of the sector. */
    method TakeBytes(buff: array<Byte>, off: nat, btr: U32, ghost k: nat) returns (rcnt: U32)
      requires Wired() && Ready(S(), k, buf[..]) && Core(S()) && Here(S(), ci) && NeedsOrEdge(S(), ci)
      requires k == fptr / 512 && k < |Secs(S())| && sect as int == Secs(S())[k]
      requires 512 * k + 512 <= 512 * (fs.g.csize * (ci + 1))
      requires 0 < btr && off + btr <= buff.Length && fptr + btr <= objsize
      requires buff != buf && buff != fs.win
      modifies `fptr, buff
      ensures Valid() && OnlyFile(old(S()), S()) && 0 < rcnt <= btr && fptr == old(fptr) + rcnt
      ensures Data(S()) == old(Data(S()))
      ensures buff[..][off..off + rcnt] == Data(S())[old(fptr)..fptr]
      ensures buff[..][..off] == old(buff[..])[..off] && buff[..][off + rcnt..] == old(buff[..])[off + rcnt..]
    {
      hide FatFs.Base, FatFs.Valid, Sane, OnlyFile, View, Here, NeedsOrEdge, Good, Secs, Ready, Data, FreeOk, NoOnes,
           NoneFree, Splice;
      ghost var f := S();
      rcnt := 512 - fptr % 512;
      if rcnt > btr { rcnt := btr; }
      CopyIn(buff, off, buf[..], fptr % 512, rcnt);
      PartialRead(f, k, buf[..], rcnt);
      fptr := fptr + rcnt;
      ReadLands(f, S(), ci, rcnt, k);
    }

    /** `f_read`: reads up to `btr` bytes at the file pointer into `buff`. */
    method Read(buff: array<Byte>, btr: U32) returns (res: Result, br: U32)
      requires Valid() && btr <= buff.Length && buff != buf && buff != fs.win
      modifies `clust, `ci, `dirty, `sect, `fptr, buf, buff, fs`disk, fs`wflag, fs`winsect, fs`img, fs.win
      ensures br <= btr && Valid() && OnlyFile(old(S()), S()) && Data(S()) == old(Data(S()))
      ensures fptr == old(fptr) + br && buff[..][br..] == old(buff[..])[br..]
      ensures err != Ok ==> res == err && br == 0
      ensures err == Ok && !readable ==> res == Denied && br == 0
      // exactly the bytes [fptr, fptr + br), cut only by the end of the file
      ensures err == Ok && readable ==>
                && res == Ok && br == (if btr > objsize - old(fptr) then objsize - old(fptr) else btr)
                && buff[..][..br] == Data(S())[old(fptr)..old(fptr) + br]
      ensures old(!dirty) ==> !dirty && fs.img == old(fs.img)
      ensures old(!fs.wflag) ==> !fs.wflag
    {
      hide FatFs.Base, FatFs.Valid, Sane, OnlyFile, View, Good, Secs, Data;
      GoodIsCore(S());
      br := 0;
      if err != Ok { return err, 0; }
      if !readable { return Denied, 0; }
      br := ReadLoop(buff, if btr > objsize - fptr then objsize - fptr else btr);
      res := Ok;
    }

    /** The loop of `f_read`, for `limit` bytes that the file has. */
    method ReadLoop(buff: array<Byte>, limit: U32) returns (br: U32)
      requires Valid() && limit <= buff.Length && buff != buf && buff != fs.win && fptr + limit <= objsize
      modifies `clust, `ci, `dirty, `sect, `fptr, buf, buff, fs`disk, fs`wflag, fs`winsect, fs`img, fs.win
      ensures br == limit && Valid() && OnlyFile(old(S()), S()) && Data(S()) == old(Data(S()))
      ensures fptr == old(fptr) + br && buff[..][br..] == old(buff[..])[br..]
      ensures buff[..][..br] == Data(S())[old(fptr)..old(fptr) + br]
      ensures old(!dirty) ==> !dirty && fs.img == old(fs.img)
      ensures old(!fs.wflag) ==> !fs.wflag
    {
      hide FatFs.Base, FatFs.Valid, Sane, OnlyFile, View, Good, Secs, Data, VolumeOk, ChainOk, BufOk, CursorOk,
           Positioned, Elsewhere, ReadSoFar;
      ghost var f, first := S(), buff[..];
      GoodIsCore(f);
      br := 0;
      ReadNothing(first, Data(f), f.fptr);
      while br < limit
        invariant Valid() && Core(S()) && OnlyFile(f, S()) && br <= limit
        invariant Data(S()) == Data(f) && fptr == f.fptr + br && |Data(f)| == f.size == objsize
        invariant ReadSoFar(first, buff[..], Data(f), f.fptr, br)
        invariant !f.dirty ==> !dirty && fs.img == f.img
        invariant old(!fs.wflag) ==> !fs.wflag
      {
        ghost var f1 := S();
        ghost var was := buff[..];
        var rcnt := ReadStep(buff, br, limit - br);
        OnlyFileTransitive(f, f1, S());
        GoodIsCore(S());
        ReadJoin(first, was, buff[..], Data(f), f.fptr, br, rcnt);
        br := br + rcnt;
      }
      ReadAll(first, buff[..], Data(f), f.fptr, br);
    }

    // ------------------------------------------------------------ f_lseek

    /** Choice of the starting cluster of `f_lseek`; 0 when the first cluster cannot be allocated, 1 on an
        internal error. Leaves the pointer on the first byte of the starting cluster. */
    method SeekStart(ofs: U32) returns (c: U32)
      requires Valid() && 0 < ofs && (writable || ofs <= objsize)
      modifies `sclust, `clust, `ci, `chain, `fptr, fs, fs.win
      ensures Wired() && OnlyFile(old(S()), S()) && Sane(S()) && Data(S()) == old(Data(S()))
      ensures c >= 2 ==> Seeking(S()) && fptr < ofs
      ensures c >= 2 && !writable ==> Needs(fs.g, |chain|, objsize, floor)
      ensures c < 2 ==> fptr == 0 && chain == [] && objsize == 0 && writable
      ensures c == 0 && NoOnes(fs.fat) && FreeOk(fs.State()) ==> NoneFree(fs.fat)
      ensures c == 1 ==> !NoOnes(fs.fat)
      ensures old(FreeOk(fs.State())) ==> FreeOk(fs.State())
      ensures |chain| >= old(|chain|)
      ensures |chain| == old(|chain|) ==> Quiet(old(fs.img), old(fs.wflag)) && fs.fsiFlag == old(fs.fsiFlag)
    {
      hide FatFs.Base, FatFs.Valid, Sane, OnlyFile, View, Data, Seeking, CursorOk, Positioned, Needs;
      ghost var f := S();
      GoodIsCore(f);
      FirstCluster(f);
      SizeFacts(f);
      var bcs: nat := 512 * fs.g.csize;
      if fptr > 0 && (ofs - 1) / bcs >= (fptr - 1) / bcs {
        SeekFromHere(f, ofs);
        CursorInChain(f);
        SinkPointer(f, f.fptr - 1 - (f.fptr - 1) % bcs);
        SeekHere(f, f.fptr - 1 - (f.fptr - 1) % bcs);
        fptr := fptr - 1 - (fptr - 1) % bcs;
        c := clust;
        ClusterAtLeast2(f);
      } else {
        SinkPointer(f, 0);
        fptr := 0;
        c := sclust;
        if c == 0 {
          c := TakeCluster(0);
          if c >= 2 {
            SeekFirst(f, S());
          }
        } else {
          clust := c;
          ci := 0;
          SeekFromStart(f, S());
        }
      }
    }

    /** One round of the cluster-following loop of `f_lseek`: the pointer moves on by a cluster, and the
        current cluster follows unless there is none (0: disk full, 1: internal error). */
    method SeekHop(ghost ofs: nat) returns (c: U32)
      requires Wired() && Seeking(S()) && ofs > 512 * fs.g.csize && fptr + ofs < TWO32
      requires !writable ==> Needs(fs.g, |chain|, objsize, floor) && fptr + ofs <= objsize
      modifies `sclust, `clust, `ci, `chain, `fptr, fs, fs.win
      ensures Wired() && Sane(S()) && Data(S()) == old(Data(S())) && OnlyFile(old(S()), S())
      ensures fptr == old(fptr) + 512 * fs.g.csize
      ensures c >= 2 ==> Seeking(S()) && (!writable ==> Needs(fs.g, |chain|, objsize, floor))
      ensures c < 2 ==> writable && Seeking(S().(fptr := old(fptr))) && ChainEnd(S())
      ensures c == 0 && NoOnes(fs.fat) && FreeOk(fs.State()) ==> NoneFree(fs.fat)
      ensures c == 1 ==> !NoOnes(fs.fat)
      ensures old(FreeOk(fs.State())) ==> FreeOk(fs.State())
      ensures |chain| >= old(|chain|)
      ensures |chain| == old(|chain|) ==> Quiet(old(fs.img), old(fs.wflag)) && fs.fsiFlag == old(fs.fsiFlag)
    {
      hide FatFs.Base, FatFs.Valid, Sane, OnlyFile, View, Data, Needs, Seeking, FreeOk, NoOnes, NoneFree;
      if writable {
        c := HopStretching();
      } else {
        c := HopFollowing(ofs);
      }
    }

    /** With write access the chain is stretched when it ends. */
    method HopStretching() returns (c: U32)
      requires Wired() && Seeking(S()) && fptr + 512 * fs.g.csize < TWO32
      modifies `sclust, `clust, `ci, `chain, `fptr, fs, fs.win
      ensures Wired() && Sane(S()) && Data(S()) == old(Data(S())) && OnlyFile(old(S()), S())
      ensures fptr == old(fptr) + 512 * fs.g.csize
      ensures c >= 2 ==> Seeking(S())
      ensures c < 2 ==> Seeking(S().(fptr := old(fptr))) && ChainEnd(S())
      ensures c == 0 && NoOnes(fs.fat) && FreeOk(fs.State()) ==> NoneFree(fs.fat)
      ensures c == 1 ==> !NoOnes(fs.fat)
      ensures old(FreeOk(fs.State())) ==> FreeOk(fs.State())
      ensures |chain| >= old(|chain|)
      ensures |chain| == old(|chain|) ==> Quiet(old(fs.img), old(fs.wflag)) && fs.fsiFlag == old(fs.fsiFlag)
    {
      hide FatFs.Base, FatFs.Valid, Sane, OnlyFile, View, Data, Needs, Seeking, FreeOk, NoOnes, NoneFree;
      ghost var f := S();
      SeekingFacts(f);
      SinkPointer(f, fptr + 512 * fs.g.csize);
      fptr := fptr + 512 * fs.g.csize;
      c := TakeCluster(clust);
      if c < 2 {
        SeekFull(f, S());
        SeekEnds(f, S());
      } else {
        SeekOn(f, S());
      }
    }

    /** Without write access the chain is only followed. */
    method HopFollowing(ghost ofs: nat) returns (c: U32)
      requires Wired() && Seeking(S()) && ofs > 512 * fs.g.csize && fptr + ofs < TWO32
      requires Needs(fs.g, |chain|, objsize, floor) && fptr + ofs <= objsize
      modifies `clust, `ci, `fptr, fs`disk, fs`wflag, fs`winsect, fs.win
      ensures Wired() && Sane(S()) && Data(S()) == old(Data(S())) && OnlyFile(old(S()), S())
      ensures fptr == old(fptr) + 512 * fs.g.csize && c >= 2 && Seeking(S())
      ensures Quiet(old(fs.img), old(fs.wflag))
    {
      hide FatFs.Base, FatFs.Valid, Sane, OnlyFile, View, Data, Needs, Seeking, VolumeOk, ChainOk, BufOk, CursorOk,
           Positioned, Elsewhere;
      ghost var f := S();
      SeekingFacts(f);
      SinkPointer(f, fptr + 512 * fs.g.csize);
      SeekNextExists(f, ofs);
      fptr := fptr + 512 * fs.g.csize;
      ghost var f1 := S();
      c := fs.GetFat(clust);
      OnlyFatRefl(f1);
      MoveKeeps(f1, fs.img, fs.winsect);
      ghost var f2 := S();
      clust := c;
      ci := ci + 1;
      SameButCursor(f2, S());
      SeekOn(f, S());
    }

    /** The cluster-following loop of `f_lseek`, `ofs` bytes before the target: `rest` bytes remain in the
        current cluster, or 0 when the disk is full and the pointer stands at the end of the chain. */
    method SeekLoop(ofs: U32) returns (res: Result, rest: U32, ghost start: U32)
      requires Wired() && Seeking(S()) && 0 < ofs && fptr + ofs < TWO32
      requires !writable ==> Needs(fs.g, |chain|, objsize, floor) && fptr + ofs <= objsize
      modifies `err, `sclust, `clust, `ci, `chain, `fptr, fs, fs.win
      ensures Wired() && Sane(S()) && Data(S()) == old(Data(S())) && OnlyFile(old(S()), S())
      ensures res == Ok ==> Seeking(S().(fptr := start)) && rest <= 512 * fs.g.csize
      ensures res == Ok && rest > 0 ==> fptr == start && fptr + rest == old(fptr) + ofs
      ensures res == Ok && rest == 0 ==>
                && writable && fptr == start + 512 * fs.g.csize && fptr < old(fptr) + ofs && ChainEnd(S())
                && (NoOnes(fs.fat) && FreeOk(fs.State()) ==> NoneFree(fs.fat))
      ensures err == if res == Ok then old(err) else IntErr
      ensures res != Ok ==> res == IntErr && writable && !NoOnes(fs.fat)
      ensures old(FreeOk(fs.State())) ==> FreeOk(fs.State())
      ensures |chain| >= old(|chain|)
      ensures |chain| == old(|chain|) ==> Quiet(old(fs.img), old(fs.wflag)) && fs.fsiFlag == old(fs.fsiFlag)
    {
      hide FatFs.Base, FatFs.Valid, Sane, OnlyFile, View, Data, Needs, Seeking;
      ghost var f0 := S();
      res, rest, start := Ok, ofs, fptr;
      SeekingFacts(f0);
      while rest > 512 * fs.g.csize
        invariant Wired() && Seeking(S()) && Sane(S()) && start == fptr && 0 < rest && fptr + rest == f0.fptr + ofs
        invariant OnlyFile(f0, S()) && Data(S()) == Data(f0) && err == old(err) && res == Ok
        invariant objsize == f0.size && (!writable ==> Needs(fs.g, |chain|, objsize, floor))
        invariant |chain| >= |f0.chain|
        invariant |chain| == |f0.chain| ==> Quiet(old(fs.img), old(fs.wflag)) && fs.fsiFlag == old(fs.fsiFlag)
        invariant old(FreeOk(fs.State())) ==> FreeOk(fs.State())
        decreases rest
      {
        ghost var f := S();
        var c := SeekHop(rest);
        OnlyFileTransitive(f0, f, S());
        if c == 0 {
          rest := 0;
          return;
        }
        if c == 1 {
          err := IntErr;
          res := IntErr;
          return;
        }
        rest := rest - 512 * fs.g.csize;
        start := fptr;
        SeekingFacts(S());
      }
    }

    /** `f_lseek` (normal seek): moves the file pointer to `ofs0`, growing a writable file to reach it. */
    method Seek(ofs0: U32) returns (res: Result)
      requires Valid()
      modifies `err, `modified, `dirty, `sclust, `objsize, `fptr, `clust, `sect, `chain, `ci, buf, fs, fs.win
      ensures Wired() && Sane(S()) && OnlyFile(old(S()), S())
      // the bytes the file had are kept; bytes exposed past the old end are unspecified
      ensures objsize >= old(objsize) && Data(S())[..old(objsize)] == old(Data(S()))
      ensures old(err) != Ok ==> res == old(err) && S() == old(S())
      ensures old(err) == Ok && res == Ok ==>
                && Valid() && objsize == Grown(old(objsize), fptr) && fptr <= ofs0
                && err == Ok && (objsize > old(objsize) ==> modified)
                // the target is reached unless the disk is full; a read-only file is not extended
                && (fptr < ofs0 && writable ==>
                      ChainEnd(S()) && (NoOnes(fs.fat) && FreeOk(fs.State()) ==> NoneFree(fs.fat)))
                && (!writable ==> fptr == if ofs0 < old(objsize) then ofs0 else old(objsize))
      ensures old(err) == Ok && res != Ok ==> res == err == IntErr && writable && !NoOnes(fs.fat)
      // a seek that does not stretch the chain leaves the device alone
      ensures |chain| >= old(|chain|) && (old(modified) ==> modified)
      ensures |chain| == old(|chain|) && old(!dirty) ==> !dirty && Quiet(old(fs.img), old(fs.wflag))
      ensures |chain| == old(|chain|) ==> fs.fsiFlag == old(fs.fsiFlag)
      ensures old(FreeOk(fs.State())) ==> FreeOk(fs.State())
    {
      hide FatFs.Base, FatFs.Valid, Sane, OnlyFile, View, Data, Needs, Good, Seeking, FreeOk, NoOnes, NoneFree;
      ghost var f := S();
      GoodIsCore(f);
      WholeData(f);
      if err != Ok { return err; }
      var ofs := ofs0;
      if ofs > objsize && !writable { ofs := objsize; }
      res := Ok;
      if ofs == 0 {
        fptr := 0;
        AtZero(f, S());
        GoodIsCore(S());
      } else {
        res := SeekTo(ofs);
      }
    }

    /** The part of `f_lseek` for a target other than 0. */
    method SeekTo(ofs: U32) returns (res: Result)
      requires Valid() && err == Ok && 0 < ofs && (writable || ofs <= objsize)
      modifies `err, `modified, `dirty, `sclust, `objsize, `fptr, `clust, `sect, `chain, `ci, buf, fs, fs.win
      ensures Wired() && Sane(S()) && OnlyFile(old(S()), S())
      ensures objsize >= old(objsize) && Data(S())[..old(objsize)] == old(Data(S()))
      ensures res == Ok ==>
                && Valid() && objsize == Grown(old(objsize), fptr) && fptr <= ofs && err == Ok
                && (objsize > old(objsize) ==> modified)
                && (fptr < ofs ==>
                      writable && ChainEnd(S()) && (NoOnes(fs.fat) && FreeOk(fs.State()) ==> NoneFree(fs.fat)))
      ensures res != Ok ==> res == err == IntErr && writable && !NoOnes(fs.fat)
      ensures |chain| >= old(|chain|) && (old(modified) ==> modified)
      ensures |chain| == old(|chain|) && old(!dirty) ==> !dirty && Quiet(old(fs.img), old(fs.wflag))
      ensures |chain| == old(|chain|) ==> fs.fsiFlag == old(fs.fsiFlag)
      ensures old(FreeOk(fs.State())) ==> FreeOk(fs.State())
    {
      hide FatFs.Base, FatFs.Valid, Sane, OnlyFile, View, Data, Needs, Good, Seeking, FreeOk, NoOnes, NoneFree,
           ChainEnd;
      ghost var f := S();
      GoodIsCore(f);
      WholeData(f);
      SizeFacts(f);
      res := Ok;
      var c := SeekStart(ofs);
      ghost var f1 := S();
      if c < 2 {
        if c == 1 {
          err := IntErr;
          res := IntErr;
        } else {
          EmptyGood(f1);
          WholeData(f1);
        }
        return;
      }
      res := SeekFrom(ofs);
      OnlyFileTransitive(f, f1, S());
    }

    /** From the starting cluster on. */
    method SeekFrom(ofs: U32) returns (res: Result)
      requires Wired() && Seeking(S()) && err == Ok && fptr < ofs
      requires !writable ==> Needs(fs.g, |chain|, objsize, floor) && ofs <= objsize
      modifies `err, `modified, `dirty, `sclust, `objsize, `fptr, `clust, `sect, `chain, `ci, buf, fs, fs.win
      ensures Wired() && Sane(S()) && OnlyFile(old(S()), S()) && old(Sane(S()))
      ensures objsize >= old(objsize) && Data(S())[..old(objsize)] == old(Data(S()))
      ensures res == Ok ==>
                && Valid() && objsize == Grown(old(objsize), fptr) && fptr <= ofs && err == Ok
                && (objsize > old(objsize) ==> modified)
                && (fptr < ofs ==>
                      writable && ChainEnd(S()) && (NoOnes(fs.fat) && FreeOk(fs.State()) ==> NoneFree(fs.fat)))
      ensures res != Ok ==> res == err == IntErr && writable && !NoOnes(fs.fat)
      ensures |chain| >= old(|chain|) && (old(modified) ==> modified)
      ensures |chain| == old(|chain|) && old(!dirty) ==> !dirty && Quiet(old(fs.img), old(fs.wflag))
      ensures |chain| == old(|chain|) ==> fs.fsiFlag == old(fs.fsiFlag)
      ensures old(FreeOk(fs.State())) ==> FreeOk(fs.State())
    {
      hide FatFs.Base, FatFs.Valid, Sane, OnlyFile, View, Data, Needs, Good, Seeking, FreeOk, NoOnes, NoneFree,
           ChainEnd;
      ghost var f := S();
      SeekingFacts(f);
      WholeData(f);
      var rest: U32;
      ghost var start: U32;
      res, rest, start := SeekLoop(ofs - fptr);
      if res != Ok { return; }
      ghost var f1 := S();
      SeekLand(rest, start);
      if rest == 0 { SameEnd(f1, S()); }
      OnlyFileTransitive(f, f1, S());
      GoodIsCore(S());
    }

    /** The end of `f_lseek`: the pointer lands in the current cluster, the size follows it, and the
        private buffer is switched when the pointer is inside a sector it does not hold. */
    method SeekLand(rest: U32, ghost start: U32)
      requires Wired() && Sane(S()) && Seeking(S().(fptr := start))
      requires fptr + rest < TWO32 && rest <= 512 * fs.g.csize
      requires if rest > 0 then fptr == start else fptr == start + 512 * fs.g.csize
      modifies `modified, `dirty, `objsize, `fptr, `sect, buf, fs`disk, fs`img
      ensures Valid() && OnlyFile(old(S()), S())
      ensures fptr == old(fptr) + rest && objsize == Grown(old(objsize), fptr)
      ensures Data(S())[..old(objsize)] == old(Data(S()))
      ensures modified == (old(modified) || objsize > old(objsize))
      ensures old(!dirty) ==> !dirty && fs.img == old(fs.img)
    {
      hide FatFs.Base, FatFs.Valid, Sane, OnlyFile, View, Data, Needs, Good, Seeking, CursorOk, Secs, InData,
           ClusterBase;
      ghost var f := S();
      ghost var base := f.(fptr := start);
      SeekingFacts(base);
      SinkPointer(f, start);
      fptr := fptr + rest;
      if fptr > objsize {
        objsize := fptr;
        modified := true;
      }
      ghost var h := S();
      SeekLands(base, h, rest);
      var nsect: U32 := 0;
      if rest % 512 != 0 {
        nsect := Clst2Sect(fs.g, clust) + rest / 512;
      }
      SeekSwitch(nsect);
      OnlyFileTransitive(f, h, S());
    }

    method SeekSwitch(nsect: U32)
      requires Wired() && Core(S()) && Needs(fs.g, |chain|, objsize, floor) && CursorOk(S())
      requires fptr % 512 != 0 ==> fptr / 512 < |Secs(S())| && nsect as int == Secs(S())[fptr / 512]
      modifies `dirty, `sect, buf, fs`disk, fs`img
      ensures Valid() && OnlyFile(old(S()), S()) && Data(S()) == old(Data(S()))
      ensures old(!dirty) ==> !dirty && fs.img == old(fs.img)
    {
      hide FatFs.Base, FatFs.Valid, Sane, OnlyFile, View, Data, Needs, Good, CursorOk, Secs;
      ghost var h := S();
      CoreOnlyFile(h);
      if fptr % 512 != 0 && nsect != sect {
        SwitchBuf(nsect, fptr / 512);
      }
      SeekGood(h, S());
    }

    /** `FA_SEEKEND` of `f_open`: the file just opened is positioned on its end. The pointer follows the
        clusters here; the source stores it before the loop. */
    method SeekEnd()
      requires Valid() && fptr == 0 && sect == 0
      modifies `modified, `dirty, `objsize, `fptr, `clust, `sect, `ci, buf, fs`disk, fs`img, fs`wflag, fs`winsect,
               fs.win
      ensures Valid() && OnlyFile(old(S()), S()) && Data(S()) == old(Data(S()))
      ensures fptr == objsize == old(objsize) && modified == old(modified)
      ensures !dirty && Quiet(old(fs.img), old(fs.wflag))
    {
      hide FatFs.Base, FatFs.Valid, Sane, OnlyFile, View, Data, Needs, Good, Seeking;
      ghost var f := S();
      GoodIsCore(f);
      SizeFacts(f);
      NothingLoaded(f);
      if objsize > 0 {
        var ofs := objsize;
        clust := sclust;
        ci := 0;
        FirstCluster(f);
        SeekFromStart(f, S());
        while ofs > 512 * fs.g.csize
          invariant Wired() && Seeking(S()) && Sane(S()) && Needs(fs.g, |chain|, objsize, floor)
          invariant 0 < ofs && fptr + ofs == objsize == f.size
          invariant OnlyFile(f, S()) && Data(S()) == Data(f) && !dirty && Quiet(f.img, old(fs.wflag))
          invariant modified == old(modified)
          decreases ofs
        {
          ghost var f1 := S();
          var c := HopFollowing(ofs);
          OnlyFileTransitive(f, f1, S());
          ofs := ofs - 512 * fs.g.csize;
        }
        ghost var f2 := S();
        SeekLand(ofs, fptr);
        OnlyFileTransitive(f, f2, S());
        GoodIsCore(S());
        WholeData(f);
        WholeData(S());
      }
    }

    // ------------------------------------------------------------ f_truncate

    /** The chain part of `f_truncate`: everything behind the cluster of the pointer is freed. */
    method CutChainHere(ghost m: nat) returns (ok: bool)
      requires Valid() && fptr < objsize && m == if fptr == 0 then 0 else ci + 1
      modifies `sclust, fs, fs.win
      ensures Wired() && ok && sclust == (if fptr == 0 then 0 else old(sclust))
      ensures CutOk(old(S()), fs.img, fs.fat, fs.winsect, m)
      ensures old(FreeOk(fs.State())) ==> FreeOk(fs.State())
    {
      hide FatFs.Base, FatFs.Valid, Good, CutTable, Remove, FreeOk, CutOk, Core;
      if fptr == 0 {
        ok := CutWhole();
        sclust := 0;
      } else {
        ok := CutTail(m);
      }
    }

    /** The file becomes empty: its whole chain is removed. */
    method CutWhole() returns (ok: bool)
      requires Valid() && 0 == fptr < objsize
      modifies fs, fs.win
      ensures Wired() && ok && CutOk(old(S()), fs.img, fs.fat, fs.winsect, 0)
      ensures old(FreeOk(fs.State())) ==> FreeOk(fs.State())
    {
      hide FatFs.Base, FatFs.Valid, Good, CutTable, Remove, FreeOk;
      ghost var f, a := S(), fs.State();
      GoodIsCore(f);
      TruncateStart(f);
      RemoveCuts(f, a, 0);
      ok := fs.RemoveChain(sclust, 0);
    }

    /** The clusters behind the current one are removed, if there are any. */
    method CutTail(ghost m: nat) returns (ok: bool)
      requires Valid() && 0 < fptr < objsize && m == ci + 1
      modifies fs, fs.win
      ensures Wired() && ok && CutOk(old(S()), fs.img, fs.fat, fs.winsect, m)
      ensures old(FreeOk(fs.State())) ==> FreeOk(fs.State())
    {
      hide FatFs.Base, FatFs.Valid, Good, CutTable, Remove, FreeOk, Data, OnlyFile, OnlyFatChanged, VolumeOk;
      ghost var f := S();
      GoodIsCore(f);
      TruncateStart(f);
      var ncl := fs.GetFat(clust);
      if ncl < fs.g.nFatent {
        RemoveCuts(f, fs.State(), m);
        ok := fs.RemoveChain(ncl, clust);
      } else {
        NothingToCut(f);
        OnlyFatRefl(f);
        ok := true;
      }
    }

    /** The working part of `f_truncate`. */
    method CutHere()
      requires Valid() && fptr < objsize
      modifies `modified, `dirty, `sclust, `objsize, `chain, `floor, fs, fs.win
      ensures Valid() && OnlyCut(old(S()), S())
      ensures objsize == fptr && Data(S()) == old(Data(S()))[..fptr] && modified && floor == 0
      ensures old(FreeOk(fs.State())) ==> FreeOk(fs.State())
    {
      hide FatFs.Base, FatFs.Valid, Sane, Good, OnlyCut, CutOk, Data, FreeOk, View, OnlyFile, VolumeOk, Secs, Needs,
           CursorOk, Positioned, WellFormed;
      ghost var f := S();
      GoodIsCore(f);
      ghost var m := if fptr == 0 then 0 else ci + 1;
      var ok := CutChainHere(m);
      CutFacts(f, fs.img, fs.fat, fs.winsect, m);
      FinishCut(f, m);
    }

    /** Size and chain follow; the dirty buffer is written back. */
    method FinishCut(ghost f: File, ghost m: nat)
      requires Wired() && CutOk(f, fs.img, fs.fat, fs.winsect, m) && Sane(f)
      requires S() == f.(img := fs.img, fat := fs.fat, win := fs.winsect, sclust := if m == 0 then 0 else f.sclust)
      modifies `modified, `dirty, `objsize, `chain, `floor, fs`disk, fs`img
      ensures Valid() && OnlyCut(f, S()) && objsize == fptr == f.fptr && modified && floor == 0
      ensures Data(S()) == Data(f)[..f.fptr]
    {
      hide FatFs.Base, FatFs.Valid, Sane, Good, OnlyCut, CutOk, Data, View, OnlyFile;
      ghost var img := fs.img;
      CutFacts(f, img, fs.fat, fs.winsect, m);
      chain := chain[..m];
      floor := 0;
      objsize := fptr;
      modified := true;
      if dirty {
        CutWindow(f, img, fs.fat, fs.winsect, m);
        fs.WriteSector(buf[..], sect);
        dirty := false;
      }
      TruncateDone(f, S(), img, fs.fat, fs.winsect, m);
    }

    /** `f_truncate`: the file ends at the file pointer. */
    method Truncate() returns (res: Result)
      requires Valid()
      modifies `modified, `dirty, `sclust, `objsize, `chain, `floor, fs, fs.win
      ensures Valid() && OnlyCut(old(S()), S())
      ensures err != Ok ==> res == err
      ensures err == Ok && !writable ==> res == Denied
      ensures res != Ok || old(fptr >= objsize) ==>
                && S() == old(S()) && modified == old(modified) && fs.wflag == old(fs.wflag)
                && fs.fsiFlag == old(fs.fsiFlag)
      // exactly the bytes before the pointer remain
      ensures err == Ok && writable ==>
                && res == Ok && objsize == fptr && Data(S()) == old(Data(S()))[..fptr]
                && (old(objsize) != fptr ==> modified && floor == 0)
                && (old(FreeOk(fs.State())) ==> FreeOk(fs.State()))
    {
      hide FatFs.Base, FatFs.Valid, Sane, Good, OnlyCut, Data, FreeOk, View;
      GoodIsCore(S());
      CutNothing(S());
      if err != Ok { return err; }
      if !writable { return Denied; }
      res := Ok;
      if fptr < objsize {
        CutHere();
      }
    }

    // ------------------------------------------------------------ f_sync

    /** Fills in the directory entry in the window buffer. */
    method UpdateEntry()
      requires Wired()
      modifies fs.win
      ensures fs.win[..] == EntrySynced(fs.g.fsType, old(fs.win[..]), dirOff, sclust, objsize)
    {
      var a := fs.win[dirOff + DIR_Attr];
      fs.win[dirOff + DIR_Attr] := SetArchive(a);
      StoreWord(fs.win, dirOff + DIR_FstClusLO, sclust % 0x1_0000);
      if fs.g.fsType == Fat32 {
        StoreWord(fs.win, dirOff + DIR_FstClusHI, sclust / 0x1_0000);
      }
      StoreDword(fs.win, dirOff + DIR_FileSize, objsize);
      StoreDword(fs.win, dirOff + DIR_ModTime, FATTIME);
      StoreWord(fs.win, dirOff + DIR_LstAccDate, 0);
    }

    /** The entry written through the window. */
    method SyncEntryInWindow()
      requires Valid() && !dirty
      modifies fs`disk, fs`wflag, fs`winsect, fs`img, fs`fat, fs.win
      ensures Wired() && fs.winsect == dirSect && |fs.disk| == old(|fs.disk|)
      ensures dirSect < |old(fs.img)|
      ensures fs.img == old(fs.img)[dirSect := EntrySynced(fs.g.fsType, old(fs.img)[dirSect], dirOff, sclust, objsize)]
    {
      hide Sane, EntrySynced;
      SyncPlace(S());
      fs.MoveWindow(dirSect);
      UpdateEntry();
      fs.MarkDirty();
    }

    /** `f_sync`: after it the raw device alone stores the file under its directory entry. */
    method Sync()
      requires Valid()
      modifies `modified, `dirty, fs, fs.win
      ensures Wired()
      ensures old(!modified) ==>
                && S() == old(S()) && !modified && fs.disk == old(fs.disk) && fs.wflag == old(fs.wflag)
                && fs.fsiFlag == old(fs.fsiFlag)
      ensures old(modified) ==> fs.fsiFlag != 1
      ensures fs.freeClst == old(fs.freeClst) && fs.lastClst == old(fs.lastClst)
      ensures old(modified) && SparesFat(fs.g, old(fs.fsiFlag)) ==>
                && Valid() && !modified && !dirty && Data(S()) == old(Data(S()))
                && !fs.wflag && fs.disk == fs.img && OnlySynced(old(S()), S(), dirOff)
                && Stores(fs.g, fs.disk, dirSect, dirOff, chain, Data(S()))
    {
      hide FatFs.Base, FatFs.Valid, Sane, Good, Data, View, OnlyFile, SyncImage, Stores, EntrySynced, OnlySynced;
      if modified {
        GoodIsCore(S());
        ghost var f0 := S();
        FlushBuf();
        FlushGood(f0);
        ghost var f, fsi := S(), fs.fsiFlag;
        SyncPlace(f);
        fs.TableFact();
        SyncEntryInWindow();
        fs.SyncFs();
        modified := false;
        SyncImageIs(f, dirOff, fsi, fs.freeClst, fs.lastClst);
        if SparesFat(fs.g, fsi) {
          SyncTable(f, dirOff, fsi, fs.freeClst, fs.lastClst);
          SyncGood(f, S(), dirOff, fsi, fs.freeClst, fs.lastClst);
          SyncStores(f, S(), dirOff, fsi, fs.freeClst, fs.lastClst);
          SyncOnly(f0, S(), dirOff, fsi, fs.freeClst, fs.lastClst);
        }
      }
    }
  }

  /** The first `n` bytes of the caller's buffer are those of the file from `p` on, the rest is as it was. */
  ghost predicate ReadSoFar(first: seq<Byte>, now: seq<Byte>, d: seq<Byte>, p: nat, n: nat) {
    && n <= |first| == |now| && p + n <= |d|
    && now[..n] == d[p..p + n] && now[n..] == first[n..]
  }

  lemma ReadNothing(first: seq<Byte>, d: seq<Byte>, p: nat)
    requires p <= |d|
    ensures ReadSoFar(first, first, d, p, 0)
  {
  }

  lemma ReadAll(first: seq<Byte>, now: seq<Byte>, d: seq<Byte>, p: nat, n: nat)
    requires ReadSoFar(first, now, d, p, n)
    ensures n <= |first| == |now| && p + n <= |d| && now[..n] == d[p..p + n] && now[n..] == first[n..]
  {
  }

  /** One more piece of the caller's buffer is filled. */
  lemma ReadJoin(first: seq<Byte>, was: seq<Byte>, now: seq<Byte>, d: seq<Byte>, p: nat, n: nat, m: nat)
    requires ReadSoFar(first, was, d, p, n) && p + n + m <= |d| && n + m <= |was| == |now|
    requires now[..n] == was[..n] && now[n..n + m] == d[p + n..p + n + m] && now[n + m..] == was[n + m..]
    ensures ReadSoFar(first, now, d, p, n + m)
  {
    assert now[..n + m] == now[..n] + now[n..n + m];
    assert was[n..][m..] == was[n + m..] && first[n..][m..] == first[n + m..];
    assert d[p..p + n] + d[p + n..p + n + m] == d[p..p + (n + m)];
  }

  /** `memcpy` into the stretch of `dst` of length `len` at `off`. */
  method CopyInto(dst: array<Byte>, off: nat, ghost len: nat, at: nat, src: seq<Byte>, from: nat, n: nat)
    requires off + len <= dst.Length && at + n <= len && from + n <= |src|
    modifies dst
    ensures dst[..][off..off + len] == Splice(old(dst[..])[off..off + len], at, src[from..from + n])
    ensures dst[..][..off] == old(dst[..])[..off] && dst[..][off + len..] == old(dst[..])[off + len..]
  {
    CopyIn(dst, off + at, src, from, n);
  }

  /** `memcpy` into a sector buffer. */
  method CopyIn(dst: array<Byte>, at: nat, src: seq<Byte>, off: nat, n: nat)
    requires at + n <= dst.Length && off + n <= |src|
    modifies dst
    ensures dst[..] == Splice(old(dst[..]), at, src[off..off + n])
  {
    ghost var was := dst[..];
    for i := 0 to n
      invariant dst[at..at + i] == src[off..off + i]
      invariant dst[..at] == was[..at] && dst[at + i..] == was[at + i..]
    {
      dst[at + i] := src[off + i];
      assert dst[at..at + i + 1] == dst[at..at + i] + [src[off + i]];
    }
    assert dst[..] == dst[..at] + dst[at..at + n] + dst[at + n..];
  }
}
