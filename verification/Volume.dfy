/** The filesystem object: device, one-sector write-back window, FAT access and cluster allocation. */
module Volume {
  import opened Bytes
  import opened Geometry
  import opened FatTable
  import opened Chains

  /** Two writes of the same sector: the last one wins. */
  lemma PutPut(g: Geometry, img: Image, s: nat, a: Sector, b: Sector)
    requires FatFits(g) && g.volend <= |img| && s < |img|
    ensures Put(g, Put(g, img, s, a), s, b) == Put(g, img, s, b)
  {
  }

  /** A write to a data sector commutes with the pending write of another sector. */
  lemma PutElsewhere(g: Geometry, img: Image, s: nat, a: Sector, d: nat, b: Sector)
    requires FatFits(g) && g.volend <= |img| && s < |img| && g.database <= d < |img| && d != s
    ensures Put(g, img[d := b], s, a) == Put(g, img, s, a)[d := b]
  {
  }

  /** The table is determined by the sectors of FAT1. */
  lemma TableFrame(g: Geometry, a: Image, b: Image)
    requires FatFits(g) && g.volend <= |a| && |a| == |b|
    requires forall s :: InFat1(g, s) ==> a[s] == b[s]
    ensures Table(g, a) == Table(g, b)
  {
    forall c: nat | c < g.nFatent ensures Entry(g, a, c) == Entry(g, b, c) {
      EntryInFat1(g, c);
    }
  }

  /** Two byte writes in a row make a FAT12 entry. */
  lemma Set12Steps(g: Geometry, a: Image, mid: Image, b: Image, c: nat, v: U32)
    requires FatFits(g) && g.volend <= |a| && c + c / 2 + 2 <= g.fsize * 512
    requires mid == SetFatByte(g, a, c + c / 2, Low12(c, FatByte(g, a, c + c / 2), v))
    requires b == SetFatByte(g, mid, c + c / 2 + 1, High12(c, FatByte(g, mid, c + c / 2 + 1), v))
    ensures b == Set12(g, a, c, v)
  {
  }

  /** `n` sectors from `sect` on, taken from `src` at byte offset `off`. */
  function WriteRange(img: Image, sect: nat, n: nat, src: seq<Byte>, off: nat): (r: Image)
    requires sect + n <= |img| && off + 512 * n <= |src|
    ensures |r| == |img|
    ensures forall s :: 0 <= s < |img| && !(sect <= s < sect + n) ==> r[s] == img[s]
    decreases n
  {
    if n == 0 then img
    else WriteRange(img, sect, n - 1, src, off)[sect + n - 1 := src[off + 512 * (n - 1)..off + 512 * n]]
  }

  lemma {:induction false} WriteRangeAt(img: Image, sect: nat, n: nat, src: seq<Byte>, off: nat, k: nat)
    requires sect + n <= |img| && off + 512 * n <= |src| && k < n
    ensures WriteRange(img, sect, n, src, off)[sect + k] == src[off + 512 * k..off + 512 * k + 512]
    decreases n
  {
    if k < n - 1 {
      WriteRangeAt(img, sect, n - 1, src, off, k);
    }
  }

  // The FSInfo sector.
  const FSI_LeadSig: nat := 0
  const FSI_StrucSig: nat := 484
  const FSI_Free_Count: nat := 488
  const FSI_Nxt_Free: nat := 492
  const FSI_TrailSig: nat := 508

  const BPB_FSInfo32: nat := 48

  /** FSInfo flag, free count and search hint after mounting: taken from FSInfo only when the boot
      sector places it next to itself and its three signatures are right. */
  function MountedHints(g: Geometry, dev: Image): (r: (Byte, U32, U32))
    requires FatFits(g) && g.volend <= |dev|
  {
    if g.fsType == Fat32 && LdWord(dev[g.volbase], BPB_FSInfo32) == 1 then
      var s := dev[g.volbase + 1];
      if IsFsInfo(s) then (0, LdDword(s, FSI_Free_Count), LdDword(s, FSI_Nxt_Free))
      else (0, 0xFFFF_FFFF, 0xFFFF_FFFF)
    else (0x80, 0xFFFF_FFFF, 0xFFFF_FFFF)
  }

  /** Does the boot sector of a FAT32 volume place FSInfo next to itself? */
  predicate Announced(g: Geometry, img: Image)
    requires FatFits(g) && g.volend <= |img|
  {
    g.fsType == Fat32 && LdWord(img[g.volbase], BPB_FSInfo32) == 1
  }

  /** What the cached hints have to do with FSInfo, when it does not overlap the FAT. While bit 0 of the flag
      is clear on a volume that has FSInfo, a mount would find the cached free count there, and the search
      hint as well unless the count is unknown or 0. */
  ghost predicate HintsOk(g: Geometry, img: Image, free: U32, last: U32, fsi: Byte)
    requires FatFits(g) && g.volend <= |img|
  {
    g.volbase + 1 < g.fatbase ==>
      && (fsi == 0 || fsi == 1 <==> Announced(g, img))
      && (fsi == 0 ==> free == MountedHints(g, img).1 && (0 < free <= g.nFatent - 2 ==> last == MountedHints(g, img).2))
  }

  lemma HintsFrame(g: Geometry, a: Image, b: Image, free: U32, last: U32, fsi: Byte)
    requires FatFits(g) && g.volend <= |a| == |b| && HintsOk(g, a, free, last, fsi)
    requires g.volbase + 1 < g.fatbase ==> b[g.volbase] == a[g.volbase] && b[g.volbase + 1] == a[g.volbase + 1]
    ensures HintsOk(g, b, free, last, fsi)
  {
  }

  /** Setting bit 0 allows any change of the cached values. */
  lemma HintsNoted(g: Geometry, img: Image, free: U32, last: U32, fsi: Byte, newFree: U32, newLast: U32)
    requires FatFits(g) && g.volend <= |img| && HintsOk(g, img, free, last, fsi)
    ensures HintsOk(g, img, newFree, newLast, SetBit0(fsi))
    ensures !(0 < free <= g.nFatent - 2) ==> HintsOk(g, img, free, newLast, fsi)
  {
  }

  predicate IsFsInfo(s: Sector) {
    && LdDword(s, FSI_LeadSig) == 0x4161_5252
    && LdDword(s, FSI_StrucSig) == 0x6141_7272
    && LdDword(s, FSI_TrailSig) == 0xAA55_0000
  }

  function FsInfo(free: U32, last: U32): (s: Sector)
  {
    var z: seq<Byte> := seq(512, _ => 0);
    StDword(StDword(StDword(StDword(StDword(z, 0, 0x4161_5252), 484, 0x6141_7272), 488, free), 492, last),
            508, 0xAA55_0000)
  }

  class FatFs {
    const g: Geometry
    const win: array<Byte>
    var disk: Image
    var winsect: U32
    var wflag: bool
    var freeClst: U32
    var lastClst: U32
    var fsiFlag: Byte
    ghost var img: Image       // the logical device: disk overlaid by a dirty window
    ghost var fat: seq<U32>    // the FAT as a table

    /** Everything but the equality of the window buffer with the sector it stands for. */
    ghost predicate Base()
      reads `disk, `wflag, `winsect, `img, `fat
      ensures Base() ==> FatFits(g) && |fat| == g.nFatent && g.volend <= |img| && |img| == |disk| && winsect < |disk|
    {
      && FatFits(g) && win.Length == 512
      && g.volend <= |disk| && winsect < |disk| && |img| == |disk| && OffFat2(g, winsect)
      && img == (if wflag then Put(g, disk, winsect, img[winsect]) else disk)
      && fat == Table(g, img)
    }

    /** Window and device are consistent. */
    ghost predicate Shows()
      reads `disk, `wflag, `winsect, `img, `fat, win
      ensures Shows() ==> Base()
    {
      Base() && win[..] == img[winsect]
    }

    ghost predicate Valid()
      reads `disk, `wflag, `winsect, `img, `fat, `freeClst, `lastClst, `fsiFlag, win
      ensures Valid() ==> Shows() && Base()
    {
      Shows() && HintsOk(g, img, freeClst, lastClst, fsiFlag)
    }

    /** The last step of mounting: window on the boot sector, FSInfo read when it may be trusted. */
    constructor Mount(dev: Image, geo: Geometry)
      requires FatFits(geo) && geo.volend <= |dev|
      ensures Valid() && fresh(win) && g == geo && disk == dev && img == dev && !wflag
      ensures winsect == geo.volbase || winsect == geo.volbase + 1
      ensures (fsiFlag, freeClst, lastClst) == MountedHints(geo, dev)
    {
      g := geo;
      disk, img, fat := dev, dev, Table(geo, dev);
      winsect, wflag := geo.volbase, false;
      freeClst, lastClst, fsiFlag := 0xFFFF_FFFF, 0xFFFF_FFFF, 0x80;
      win := new Byte[512](i requires 0 <= i < 512 => dev[geo.volbase][i]);
      new;
      assert win[..] == dev[geo.volbase];
      ReadFsInfo();
    }

    method SignaturesOk() returns (ok: bool)
      requires win.Length == 512
      ensures ok <==> IsFsInfo(win[..])
    {
      var lead := LoadDword(win, FSI_LeadSig);
      var struc := LoadDword(win, FSI_StrucSig);
      var trail := LoadDword(win, FSI_TrailSig);
      ok := lead == 0x4161_5252 && struc == 0x6141_7272 && trail == 0xAA55_0000;
    }

    method ReadFsInfo()
      requires Shows() && !wflag && winsect == g.volbase && g.volend <= |disk|
      requires freeClst == lastClst == 0xFFFF_FFFF && fsiFlag == 0x80
      modifies `disk, `wflag, `winsect, `freeClst, `lastClst, `fsiFlag, win
      ensures Shows() && !wflag && disk == old(disk)
      ensures winsect == g.volbase || winsect == g.volbase + 1
      ensures (fsiFlag, freeClst, lastClst) == MountedHints(g, disk)
    {
      hide IsFsInfo, LdDword, LdWord;
      if g.fsType == Fat32 {
        var info := LoadWord(win, BPB_FSInfo32);
        if info == 1 {
          MoveWindow(g.volbase + 1);
          TakeHints();
        }
      }
    }

    /** Free count and search hint from the FSInfo sector in the window, if its signatures are right. */
    method TakeHints()
      requires Base() && win.Length == 512 && freeClst == lastClst == 0xFFFF_FFFF
      modifies `freeClst, `lastClst, `fsiFlag
      ensures fsiFlag == 0
      ensures if IsFsInfo(win[..]) then
                freeClst == LdDword(win[..], FSI_Free_Count) && lastClst == LdDword(win[..], FSI_Nxt_Free)
              else freeClst == lastClst == 0xFFFF_FFFF
    {
      hide FatFs.Base, IsFsInfo, LdDword, LdWord;
      fsiFlag := 0;
      var valid := SignaturesOk();
      if valid {
        freeClst := LoadDword(win, FSI_Free_Count);
        lastClst := LoadDword(win, FSI_Nxt_Free);
      }
    }

    /** The allocation state the chain functions work on. */
    ghost function State(): Alloc
      reads `fat, `freeClst, `lastClst, `fsiFlag
    {
      Alloc(fat, freeClst, lastClst, fsiFlag)
    }

    lemma TableFact()
      requires Base()
      ensures FatFits(g) && g.volend <= |img| && fat == Table(g, img)
    {
    }

    /** With mirrored FATs in the logical image, the raw device copies agree outside a dirty window. */
    lemma RawMirror()
      requires Valid() && Mirrored(g, img) && g.nFats == 2
      ensures forall s :: InFat1(g, s) && !(wflag && s == winsect) ==> disk[s] == disk[s + g.fsize]
    {
      forall s | InFat1(g, s) && !(wflag && s == winsect)
        ensures disk[s] == disk[s + g.fsize]
      {
        assert img[s] == disk[s];
        assert img[s + g.fsize] == img[s];
      }
    }

    // ------------------------------------------------------------ window

    /** `sync_window`: flushes a dirty window, and its FAT2 copy. */
    method SyncWindow()
      requires Shows()
      modifies `disk, `wflag
      ensures Shows() && !wflag && (old(Valid()) ==> Valid())
      ensures !old(wflag) ==> disk == old(disk)
    {
      if wflag {
        disk := disk[winsect := win[..]];
        wflag := false;
        if Sub32(winsect, g.fatbase) < g.fsize {
          if g.nFats == 2 {
            disk := disk[winsect + g.fsize := win[..]];
          }
        }
      }
    }

    /** `move_window`: makes sector `sect` appear in the window. */
    method MoveWindow(sect: U32)
      requires Shows() && sect < |disk| && OffFat2(g, sect)
      modifies `disk, `wflag, `winsect, win
      ensures Shows() && winsect == sect && |disk| == old(|disk|) && (old(Valid()) ==> Valid())
      ensures !old(wflag) ==> !wflag && disk == old(disk)
    {
      if sect != winsect {
        SyncWindow();
        ReadSector(win, sect);
        winsect := sect;
      }
    }

    /** One-sector `disk_read`. */
    method ReadSector(dst: array<Byte>, sect: U32)
      requires sect < |disk| && dst.Length == 512
      modifies dst
      ensures dst[..] == disk[sect]
    {
      var s := disk[sect];
      for i := 0 to 512
        invariant dst[..i] == s[..i]
      {
        dst[i] := s[i];
      }
      assert s[..512] == s;
      assert dst[..512] == dst[..];
    }

    /** `wflag = 1` after the window buffer has been changed. */
    method MarkDirty()
      requires Base() && g.fatbase <= winsect && HintsOk(g, img, freeClst, lastClst, fsiFlag)
      modifies `wflag, `img, `fat
      ensures Valid() && wflag
      ensures img == Put(g, old(img), winsect, win[..])
    {
      HintsFrame(g, img, Put(g, img, winsect, win[..]), freeClst, lastClst, fsiFlag);
      PutPut(g, disk, winsect, img[winsect], win[..]);
      wflag := true;
      img := Put(g, img, winsect, win[..]);
      fat := Table(g, img);
    }

    // ------------------------------------------------------------ FAT access

    /** `get_fat` */
    method GetFat(clst: U32) returns (val: U32)
      requires Valid()
      modifies `disk, `wflag, `winsect, win
      ensures Valid() && val == Get(fat, clst) && |disk| == old(|disk|)
      ensures val == if 2 <= clst < g.nFatent then fat[clst] else 1
      ensures !old(wflag) ==> !wflag
      ensures winsect == old(winsect) || InFat1(g, winsect)
    {
      if clst < 2 || clst >= g.nFatent {
        val := 1;
      } else {
        EntryInFat1(g, clst);
        match g.fsType {
          case Fat12 => val := Get12(clst);
          case Fat16 => val := Get16(clst);
          case Fat32 => val := Get32(clst);
        }
      }
    }

    /** FAT12 arm of `get_fat`: the two bytes may come from different sectors. */
    method Get12(clst: U32) returns (val: U32)
      requires Valid() && 2 <= clst < g.nFatent && g.fsType == Fat12
      modifies `disk, `wflag, `winsect, win
      ensures Valid() && val == Entry(g, img, clst) && |disk| == old(|disk|)
      ensures !old(wflag) ==> !wflag
      ensures InFat1(g, winsect)
    {
      hide FatFs.Base, FatFs.Valid;
      Entry12(g, img, clst);
      var bc: U32 := clst + clst / 2;
      var lo := LoadFatByte(bc);
      var hi := LoadFatByte(bc + 1);
      var wc: U32 := lo as int + hi as int * 0x100;
      val := if clst % 2 == 1 then wc / 16 else wc % 0x1000;
    }

    /** Moves the window to byte `b` of the FAT and reads it. */
    method LoadFatByte(b: U32) returns (x: Byte)
      requires Valid() && b < g.fsize * 512
      modifies `disk, `wflag, `winsect, win
      ensures Valid() && x == FatByte(g, img, b) && |disk| == old(|disk|)
      ensures !old(wflag) ==> !wflag
      ensures winsect == FatSector(g, b)
    {
      MoveWindow(FatSector(g, b));
      x := win[b % 512];
      assert x == win[..][b % 512];
    }

    method Get16(clst: U32) returns (val: U32)
      requires Valid() && 2 <= clst < g.nFatent && g.fsType == Fat16
      modifies `disk, `wflag, `winsect, win
      ensures Valid() && val == Entry(g, img, clst) && |disk| == old(|disk|)
      ensures !old(wflag) ==> !wflag
      ensures InFat1(g, winsect)
    {
      EntryInFat1(g, clst);
      MoveWindow(FatSector(g, clst * 2));
      val := LoadWord(win, Off2(clst));
      Raw16Bytes(g, img, clst);
    }

    method Get32(clst: U32) returns (val: U32)
      requires Valid() && 2 <= clst < g.nFatent && g.fsType == Fat32
      modifies `disk, `wflag, `winsect, win
      ensures Valid() && val == Entry(g, img, clst) && |disk| == old(|disk|)
      ensures !old(wflag) ==> !wflag
      ensures InFat1(g, winsect)
    {
      EntryInFat1(g, clst);
      MoveWindow(FatSector(g, clst * 4));
      var raw := LoadDword(win, Off4(clst));
      val := raw % 0x1000_0000;
      Entry32(g, img, clst);
    }

    /** `put_fat`: false stands for FR_INT_ERR. */
    method PutFat(clst: U32, val: U32) returns (ok: bool)
      requires Valid()
      modifies `disk, `wflag, `winsect, `img, `fat, win
      ensures Valid() && |disk| == old(|disk|)
      ensures ok == (2 <= clst < g.nFatent)
      ensures ok ==> img == SetEntry(g, old(img), clst, val) && fat == old(fat)[clst := Cut(g.fsType, val)]
      ensures !ok ==> img == old(img) && fat == old(fat)
      ensures OnlyFatChanged(g, old(img), img)
      ensures winsect == old(winsect) || InFat1(g, winsect)
    {
      assert fat == Table(g, img);
      hide FatFs.Base, FatFs.Valid;
      ok := false;
      if clst >= 2 && clst < g.nFatent {
        EntryInFat1(g, clst);
        SetEntrySectors(g, img, clst, val);
        TableAfterSet(g, img, clst, val);
        match g.fsType {
          case Fat12 => Put12(clst, val);
          case Fat16 => Put16(clst, val);
          case Fat32 => Put32(clst, val);
        }
        ok := true;
      }
    }

    /** FAT12 arm of `put_fat`: the window may move, and flush, between the two bytes. */
    method Put12(clst: U32, val: U32)
      requires Valid() && 2 <= clst < g.nFatent && clst + clst / 2 + 2 <= g.fsize * 512
      modifies `disk, `wflag, `winsect, `img, `fat, win
      ensures Valid() && img == Set12(g, old(img), clst, val) && fat == Table(g, img) && |disk| == old(|disk|)
      ensures InFat1(g, winsect)
    {
      hide FatFs.Base, FatFs.Valid, SetFatByte, Set12, Low12, High12, Table, FatSector;
      var bc: U32 := clst + clst / 2;
      var p := LoadFatByte(bc);
      StoreFatByte(bc, Low12(clst, p, val));
      ghost var mid := img;
      p := LoadFatByte(bc + 1);
      StoreFatByte(bc + 1, High12(clst, p, val));
      Set12Steps(g, old(img), mid, img, clst, val);
    }

    /** Overwrites byte `b` of the FAT in the window that already shows it. */
    method StoreFatByte(b: U32, x: Byte)
      requires Valid() && b < g.fsize * 512 && winsect == FatSector(g, b)
      modifies `wflag, `img, `fat, win
      ensures Valid() && img == SetFatByte(g, old(img), b, x) && fat == Table(g, img)
    {
      win[b % 512] := x;
      assert win[..] == old(img)[winsect][b % 512 := x];
      MarkDirty();
    }

    method Put16(clst: U32, val: U32)
      requires Valid() && 2 <= clst < g.nFatent && clst * 2 + 2 <= g.fsize * 512
      modifies `disk, `wflag, `winsect, `img, `fat, win
      ensures Valid() && img == Set16(g, old(img), clst, val) && fat == Table(g, img) && |disk| == old(|disk|)
      ensures InFat1(g, winsect)
    {
      MoveWindow(FatSector(g, clst * 2));
      StoreWord(win, Off2(clst), val % 0x1_0000);
      MarkDirty();
    }

    method Put32(clst: U32, val: U32)
      requires Valid() && 2 <= clst < g.nFatent && clst * 4 + 4 <= g.fsize * 512
      modifies `disk, `wflag, `winsect, `img, `fat, win
      ensures Valid() && img == Set32(g, old(img), clst, val) && fat == Table(g, img) && |disk| == old(|disk|)
      ensures InFat1(g, winsect)
    {
      MoveWindow(FatSector(g, clst * 4));
      var raw := LoadDword(win, Off4(clst));
      StoreDword(win, Off4(clst), Keep4(raw, val));
      MarkDirty();
    }

    // ------------------------------------------------------------ chains

    /** `fsi_flag |= 1` after the free count changed. */
    method NoteAllocation(free: U32)
      modifies `freeClst, `fsiFlag
      ensures freeClst == free && fsiFlag == SetBit0(old(fsiFlag))
    {
      freeClst := free;
      fsiFlag := if fsiFlag % 2 == 1 then fsiFlag else fsiFlag + 1;
    }

    /** Gives one cluster back: the body of the loop of `remove_chain`. */
    method ReleaseCluster(clst: U32)
      requires Valid() && 2 <= clst < g.nFatent
      modifies `disk, `wflag, `winsect, `img, `fat, `freeClst, `fsiFlag, win
      ensures Valid() && |disk| == old(|disk|)
      ensures State() == Release(old(State()), clst)
      ensures OnlyFatChanged(g, old(img), img)
      ensures winsect == old(winsect) || InFat1(g, winsect)
    {
      hide FatFs.Base, FatFs.Shows, HintsOk;
      var ok := PutFat(clst, 0);
      if freeClst < g.nFatent - 2 {
        HintsNoted(g, img, freeClst, lastClst, fsiFlag, freeClst + 1, lastClst);
        NoteAllocation(freeClst + 1);
      }
    }

    /** `remove_chain`: false stands for FR_INT_ERR. */
    method RemoveChain(clst: U32, pclst: U32) returns (ok: bool)
      requires Valid()
      modifies `disk, `wflag, `winsect, `img, `fat, `freeClst, `fsiFlag, win
      ensures Valid() && |disk| == old(|disk|)
      ensures (State(), ok) == Remove(g.fsType, old(State()), clst, pclst)
      ensures OnlyFatChanged(g, old(img), img)
      ensures winsect == old(winsect) || InFat1(g, winsect)
    {
      hide FatFs.Base, FatFs.Valid;
      if clst < 2 || clst >= g.nFatent { return false; }
      if pclst != 0 {
        ok := PutFat(pclst, 0xFFFF_FFFF);
        if !ok { return false; }
      }
      ghost var mid := img;
      ok := ReleaseFrom(clst);
      OnlyFatChangedTransitive(g, old(img), mid, img);
    }

    /** The loop of `remove_chain`; it ends on any table because each round clears an entry. */
    method ReleaseFrom(clst: U32) returns (ok: bool)
      requires Valid() && 2 <= clst < g.nFatent
      modifies `disk, `wflag, `winsect, `img, `fat, `freeClst, `fsiFlag, win
      ensures Valid() && |disk| == old(|disk|)
      ensures (State(), ok) == RemoveFrom(old(State()), clst)
      ensures OnlyFatChanged(g, old(img), img)
      ensures winsect == old(winsect) || InFat1(g, winsect)
    {
      hide FatFs.Base, FatFs.Valid;
      var cur := clst;
      while true
        invariant Valid() && |disk| == old(|disk|) && 2 <= cur < g.nFatent
        invariant RemoveFrom(old(State()), clst) == RemoveFrom(State(), cur)
        invariant OnlyFatChanged(g, old(img), img)
        invariant winsect == old(winsect) || InFat1(g, winsect)
        decreases NonZeroFrom(fat, 0)
      {
        var nxt := GetFat(cur);
        if nxt == 0 { return true; }
        if nxt == 1 { return false; }
        ghost var was := img;
        NonZeroFromClear(fat, 0, cur);
        ReleaseCluster(cur);
        OnlyFatChangedTransitive(g, old(img), was, img);
        if nxt >= g.nFatent { return true; }
        cur := nxt;
      }
    }

    /** `create_chain`: 0 without a free cluster, 1 on an internal error. */
    method CreateChain(clst: U32) returns (ncl: U32)
      requires Valid()
      modifies `disk, `wflag, `winsect, `img, `fat, `freeClst, `lastClst, `fsiFlag, win
      ensures Valid() && |disk| == old(|disk|)
      ensures (State(), ncl) == Create(g.fsType, old(State()), clst)
      ensures ncl < 2 || (clst != 0 && Get(old(fat), clst) < g.nFatent) ==> img == old(img) && (!old(wflag) ==> !wflag)
      ensures OnlyFatChanged(g, old(img), img)
      ensures winsect == old(winsect) || InFat1(g, winsect)
    {
      hide FatFs.Base, FatFs.Valid;
      if clst != 0 {
        var cs := GetFat(clst);
        if cs < 2 { return 1; }
        if cs < g.nFatent { return cs; }
      }
      if freeClst == 0 { return 0; }
      ncl := PickCluster(clst);
      if ncl >= 2 {
        Claim(clst, ncl);
      }
    }

    /** The choice of `create_chain`: the neighbour of a stretched tail, else a search from the hint. */
    method PickCluster(clst: U32) returns (ncl: U32)
      requires Valid() && (clst == 0 || 2 <= clst < g.nFatent)
      modifies `disk, `wflag, `winsect, win
      ensures Valid() && |disk| == old(|disk|)
      ensures !old(wflag) ==> !wflag
      ensures ncl == Pick(State(), clst) && ncl < g.nFatent
      ensures winsect == old(winsect) || InFat1(g, winsect)
    {
      hide FatFs.Base, FatFs.Valid;
      var scl: U32;
      ncl := 0;
      if clst == 0 {
        scl := lastClst;
        if scl == 0 || scl >= g.nFatent { scl := 1; }
      } else {
        scl := clst;
        ncl := scl + 1;
        if ncl >= g.nFatent { ncl := 2; }
        var cs := GetFat(ncl);
        if cs == 1 { return 1; }
        if cs != 0 {
          cs := lastClst;
          if 2 <= cs < g.nFatent { scl := cs; }
          ncl := 0;
        }
      }
      if ncl == 0 {
        ncl := FindFree(scl);
      }
    }

    /** The search loop of `create_chain`, from cluster `scl` around and back to it. */
    method FindFree(scl: U32) returns (ncl: U32)
      requires Valid() && 1 <= scl < g.nFatent
      modifies `disk, `wflag, `winsect, win
      ensures Valid() && |disk| == old(|disk|)
      ensures !old(wflag) ==> !wflag
      ensures ncl == Scan(fat, scl, scl) && ncl < g.nFatent
      ensures winsect == old(winsect) || InFat1(g, winsect)
    {
      hide FatFs.Base, FatFs.Valid;
      ncl := scl;
      while true
        invariant Valid() && |disk| == old(|disk|) && 1 <= ncl < g.nFatent
        invariant Scan(fat, scl, scl) == Scan(fat, scl, ncl)
        invariant winsect == old(winsect) || InFat1(g, winsect)
        invariant !old(wflag) ==> !wflag
        decreases Left(fat, scl, ncl)
      {
        ghost var was := ncl;
        ncl := ncl + 1;
        if ncl >= g.nFatent {
          ncl := 2;
          if ncl > scl { return 0; }
        }
        var cs := GetFat(ncl);
        if cs == 0 { return ncl; }
        if cs == 1 { return 1; }
        if ncl == scl { return 0; }
      }
    }

    /** The tail of `create_chain`: marks `ncl` in use, links it behind `clst`, updates the counters. */
    method Claim(clst: U32, ncl: U32)
      requires Valid() && 2 <= ncl < g.nFatent && (clst == 0 || 2 <= clst < g.nFatent)
      modifies `disk, `wflag, `winsect, `img, `fat, `freeClst, `lastClst, `fsiFlag, win
      ensures Valid() && |disk| == old(|disk|)
      ensures State() == Take(g.fsType, old(State()), clst, ncl)
      ensures OnlyFatChanged(g, old(img), img)
      ensures InFat1(g, winsect) || winsect == old(winsect)
    {
      hide FatFs.Base, FatFs.Valid;
      var ok := PutFat(ncl, 0xFFFF_FFFF);
      ghost var mid := img;
      if clst != 0 {
        ok := PutFat(clst, ncl);
        OnlyFatChangedTransitive(g, old(img), mid, img);
      }
      CountTaken(ncl);
    }

    /** The counters after `ncl` was taken. */
    method CountTaken(ncl: U32)
      requires Valid()
      modifies `freeClst, `lastClst, `fsiFlag
      ensures Valid() && lastClst == ncl
      ensures if 0 < old(freeClst) <= g.nFatent - 2 then
                freeClst == old(freeClst) - 1 && fsiFlag == SetBit0(old(fsiFlag))
              else freeClst == old(freeClst) && fsiFlag == old(fsiFlag)
    {
      hide FatFs.Base, FatFs.Shows, HintsOk;
      HintsNoted(g, img, freeClst, lastClst, fsiFlag, if freeClst > 0 then freeClst - 1 else 0, ncl);
      lastClst := ncl;
      if 0 < freeClst <= g.nFatent - 2 {
        NoteAllocation(freeClst - 1);
      }
    }

    // ------------------------------------------------------------ data sectors

    /** One-sector `disk_read` past the window. */
    method ReadDataSector(dst: array<Byte>, sect: U32)
      requires Valid() && g.database <= sect < |disk| && sect != winsect && dst.Length == 512 && dst != win
      modifies dst
      ensures Valid() && dst[..] == img[sect]
    {
      ReadSector(dst, sect);
    }

    /** `disk_read` of `n` data sectors past the window into `dst` at offset `off`. */
    method ReadSectors(dst: array<Byte>, off: nat, sect: U32, n: nat)
      requires Valid() && g.database <= sect && sect + n <= |disk| && off + 512 * n <= dst.Length
      requires !(sect <= winsect < sect + n) && dst != win
      modifies dst
      ensures Valid()
      ensures forall k :: off <= k < off + 512 * n ==> dst[k] == img[sect + (k - off) / 512][(k - off) % 512]
      ensures forall k :: 0 <= k < dst.Length && !(off <= k < off + 512 * n) ==> dst[k] == old(dst[k])
    {
      for i := 0 to n
        invariant Valid()
        invariant forall k :: off <= k < off + 512 * i ==> dst[k] == img[sect + (k - off) / 512][(k - off) % 512]
        invariant forall k :: 0 <= k < dst.Length && !(off <= k < off + 512 * i) ==> dst[k] == old(dst[k])
      {
        ReadOne(dst, off + 512 * i, sect + i);
      }
    }

    method ReadOne(dst: array<Byte>, at: nat, sect: int)
      requires Valid() && g.database <= sect < |disk| && at + 512 <= dst.Length && sect != winsect && dst != win
      modifies dst
      ensures Valid()
      ensures forall k :: at <= k < at + 512 ==> dst[k] == img[sect][k - at]
      ensures forall k :: 0 <= k < dst.Length && !(at <= k < at + 512) ==> dst[k] == old(dst[k])
    {
      var s := disk[sect];
      for i := 0 to 512
        invariant forall k :: at <= k < at + i ==> dst[k] == s[k - at]
        invariant forall k :: 0 <= k < dst.Length && !(at <= k < at + i) ==> dst[k] == old(dst[k])
      {
        dst[at + i] := s[i];
      }
    }

    /** `disk_write` of `n` data sectors from `src` at offset `off`, past the window. */
    method WriteSectors(src: seq<Byte>, off: nat, sect: U32, n: nat)
      requires Valid() && g.database <= sect && sect + n <= g.volend && off + 512 * n <= |src|
      requires !(sect <= winsect < sect + n)
      modifies `disk, `img
      ensures Valid() && |disk| == old(|disk|)
      ensures img == WriteRange(old(img), sect, n, src, off)
    {
      for i := 0 to n
        invariant Valid() && |disk| == old(|disk|)
        invariant img == WriteRange(old(img), sect, i, src, off)
      {
        WriteSector(src[off + 512 * i..off + 512 * i + 512], sect + i);
      }
    }

    method WriteSector(sec: Sector, sect: U32)
      requires Valid() && g.database <= sect < |disk| && sect != winsect
      modifies `disk, `img
      ensures Valid() && img == old(img)[sect := sec]
    {
      PutElsewhere(g, disk, winsect, img[winsect], sect, sec);
      disk := disk[sect := sec];
      img := img[sect := sec];
      TableFrame(g, old(img), img);
    }

    /** `dir_clear`: fills cluster `clst` with zeros, leaving the window on its first sector. */
    method DirClear(clst: U32)
      requires Valid() && WellFormed(g) && 2 <= clst < g.nFatent
      modifies `disk, `wflag, `winsect, `img, win
      ensures Valid() && |disk| == old(|disk|) && !wflag && winsect == ClusterBase(g, clst)
      ensures forall s :: 0 <= s < |img| ==>
                            img[s] == if SectorIn(g, clst, s) then Zeros() else old(img)[s]
    {
      hide HintsOk, Table, Zeros, FatFits, ClustersFit, OffFat2;
      ClusterInVolume(g, clst);
      InDataArea(g, clst);
      SyncWindow();
      var sect: U32 := Clst2Sect(g, clst);
      winsect := sect;
      FillZero(win);
      ghost var img0 := img;
      ZeroSectors(sect);
      img := disk;
      DataFrame(g, img0, img, freeClst, lastClst, fsiFlag);
    }

    /** The loop of `dir_clear`: the zeros in the window go to every sector of the cluster. */
    method ZeroSectors(sect: U32)
      requires win.Length == 512 && win[..] == Zeros() && sect + g.csize <= |disk| && 0 <= g.csize
      modifies `disk
      ensures |disk| == old(|disk|)
      ensures forall s :: 0 <= s < |disk| ==>
                            disk[s] == if sect <= s < sect + g.csize then Zeros() else old(disk)[s]
    {
      hide Zeros;
      for n := 0 to g.csize
        invariant |disk| == old(|disk|)
        invariant forall s :: 0 <= s < |disk| ==>
                                disk[s] == if sect <= s < sect + n then Zeros() else old(disk)[s]
      {
        disk := disk[sect + n := win[..]];
      }
    }

    // ------------------------------------------------------------ synchronisation

    /** `sync_fs`: flushes the window and, when the allocation changed, rewrites the FSInfo sector. */
    method SyncFs()
      requires Valid() && g.volbase + 1 < |disk|
      modifies `disk, `wflag, `winsect, `img, `fat, `fsiFlag, win
      ensures Valid() && !wflag && |disk| == old(|disk|) && disk == img && fat == Table(g, img)
      ensures img == SyncedImage(g, old(img), old(fsiFlag), freeClst, lastClst)
      ensures fsiFlag == if old(fsiFlag) == 1 then 0 else old(fsiFlag)
      ensures winsect == old(winsect) || winsect == g.volbase + 1
      // the next mount finds the cached free count and search hint
      ensures old(fsiFlag) == 1 && Announced(g, old(img)) ==> MountedHints(g, disk) == (0, freeClst, lastClst)
    {
      SyncWindow();
      assert disk == img;
      hide FsInfo, HintsOk, MountedHints, LdWord;
      HintsSynced(g, img, freeClst, lastClst, fsiFlag);
      if fsiFlag == 1 {
        fsiFlag := 0;
        if g.fsType == Fat32 {
          BuildFsInfo();
          WriteFsInfo();
        }
      }
    }

    // ------------------------------------------------------------ counting

    /** `f_getfree`: false stands for FR_INT_ERR. */
    method GetFree() returns (ok: bool, nclst: U32)
      requires Valid()
      modifies `disk, `wflag, `winsect, `freeClst, `fsiFlag, win
      ensures Valid() && |disk| == old(|disk|)
      ensures old(freeClst) <= g.nFatent - 2 ==>
                ok && nclst == freeClst == old(freeClst) && fsiFlag == old(fsiFlag) && winsect == old(winsect)
      // FAT12 asks entry by entry; FAT16/32 count zero entries in the raw sectors from entry 0 on
      ensures old(freeClst) > g.nFatent - 2 && g.fsType == Fat12 ==>
                (ok <==> NoOnes(fat)) && (ok ==> nclst == FreeCount(fat))
      ensures old(freeClst) > g.nFatent - 2 && g.fsType != Fat12 ==>
                ok && nclst == FreeFrom(fat, 0)
      ensures old(freeClst) > g.nFatent - 2 && ok ==> freeClst == nclst && fsiFlag == SetBit0(old(fsiFlag))
      ensures !ok ==> freeClst == old(freeClst) && fsiFlag == old(fsiFlag)
    {
      if freeClst <= g.nFatent - 2 {
        return true, freeClst;
      }
      if g.fsType == Fat12 {
        ok, nclst := CountByEntry();
      } else {
        nclst := CountRaw();
        ok := true;
      }
      if ok {
        NoteAllocation(nclst);
      }
    }

    /** The FAT12 scan of `f_getfree`. */
    method CountByEntry() returns (ok: bool, nfree: U32)
      requires Valid()
      modifies `disk, `wflag, `winsect, win
      ensures Valid() && |disk| == old(|disk|)
      ensures ok <==> NoOnes(fat)
      ensures ok ==> nfree == FreeCount(fat)
    {
      hide FatFs.Base, FatFs.Valid;
      nfree := 0;
      var clst: U32 := 2;
      while true
        invariant Valid() && |disk| == old(|disk|) && 2 <= clst < g.nFatent
        invariant nfree + FreeFrom(fat, clst) == FreeCount(fat) && nfree <= clst - 2
        invariant forall c :: 2 <= c < clst ==> fat[c] != 1
        decreases g.nFatent - clst
      {
        var stat := GetFat(clst);
        if stat == 1 { return false, 0; }
        if stat == 0 { nfree := nfree + 1; }
        clst := clst + 1;
        if clst >= g.nFatent { return true, nfree; }
      }
    }

    /** The raw FAT16/32 scan of `f_getfree`: every entry of the FAT, entries 0 and 1 included. */
    method CountRaw() returns (nfree: U32)
      requires Valid() && g.fsType != Fat12
      modifies `disk, `wflag, `winsect, win
      ensures Valid() && |disk| == old(|disk|)
      ensures nfree == FreeFrom(fat, 0)
    {
      hide FatFs.Base, FatFs.Valid;
      nfree := 0;
      var clst: U32 := g.nFatent;
      var sect: int := g.fatbase;
      var i: nat := 0;
      ghost var e := 0;
      while true
        invariant Valid() && |disk| == old(|disk|) && clst == g.nFatent - e && 0 <= e < g.nFatent
        invariant WalkAt(g, e, i, sect)
        invariant i != 0 ==> winsect == sect - 1
        invariant nfree + FreeFrom(fat, e) == FreeFrom(fat, 0) && nfree <= e
        decreases clst
      {
        WalkStep(g, e, i, sect);
        EntryInFat1(g, e);
        if i == 0 {
          MoveWindow(sect);
          sect := sect + 1;
        }
        var zero := RawEntryFree(i, e);
        if zero { nfree := nfree + 1; }
        i := (i + Width(g.fsType)) % 512;
        e := e + 1;
        clst := clst - 1;
        if clst == 0 { return nfree; }
      }
    }

    /** Is the entry at offset `i` of the window (entry `e` of the FAT) free? */
    method RawEntryFree(i: nat, ghost e: nat) returns (free: bool)
      requires Valid() && g.fsType != Fat12 && e < g.nFatent
      requires i == e * Width(g.fsType) % 512 && winsect == g.fatbase + e * Width(g.fsType) / 512
      requires i + Width(g.fsType) <= 512
      ensures free <==> fat[e] == 0
    {
      hide Entry, LdWord, LdDword;
      RawEntry(g, img, e);
      if g.fsType == Fat16 {
        var w := LoadWord(win, i);
        free := w == 0;
      } else {
        var d := LoadDword(win, i);
        free := d % 0x1000_0000 == 0;
      }
    }

    /** `disk_write(win, winsect = volbase + 1)` */
    method WriteFsInfo()
      requires FatFits(g) && win.Length == 512 && g.volend <= |disk| && g.volbase + 1 < |disk| && !wflag
      modifies `disk, `winsect, `img, `fat
      ensures Shows() && winsect == g.volbase + 1
      ensures disk == img == old(disk)[g.volbase + 1 := win[..]]
    {
      winsect := g.volbase + 1;
      disk := disk[winsect := win[..]];
      img := disk;
      fat := Table(g, img);
    }

    /** Builds the FSInfo structure in the window buffer. */
    method BuildFsInfo()
      requires win.Length == 512
      modifies win
      ensures win[..] == FsInfo(freeClst, lastClst)
    {
      FillZero(win);
      StoreDword(win, FSI_LeadSig, 0x4161_5252);
      StoreDword(win, FSI_StrucSig, 0x6141_7272);
      StoreDword(win, FSI_Free_Count, freeClst);
      StoreDword(win, FSI_Nxt_Free, lastClst);
      StoreDword(win, FSI_TrailSig, 0xAA55_0000);
    }

    /** `memset(win, 0, 512)` */
    method FillZero(a: array<Byte>)
      requires a.Length == 512
      modifies a
      ensures a[..] == Zeros()
    {
      for i := 0 to 512
        invariant forall k :: 0 <= k < i ==> a[k] == 0
      {
        a[i] := 0;
      }
    }
  }

  /** Bytes of one entry in the raw walk. */
  function Width(ty: FsType): int { if ty == Fat16 then 2 else 4 }

  /** A cluster is away from the FATs. */
  lemma InDataArea(g: Geometry, clst: U32)
    requires WellFormed(g) && 2 <= clst < g.nFatent
    ensures FatFits(g) && 0 < g.csize && g.volend <= TWO32
    ensures g.database <= ClusterBase(g, clst) && ClusterBase(g, clst) + g.csize <= g.volend
    ensures OffFat2(g, ClusterBase(g, clst)) && ClusterBase(g, clst) == Clst2Sect(g, clst)
  {
    ClusterInVolume(g, clst);
  }

  /** Changes in the data area leave the table and the hints as they are. */
  lemma DataFrame(g: Geometry, a: Image, b: Image, free: U32, last: U32, fsi: Byte)
    requires FatFits(g) && g.volend <= |a| == |b| && HintsOk(g, a, free, last, fsi)
    requires forall s :: 0 <= s < g.database ==> b[s] == a[s]
    ensures Table(g, b) == Table(g, a) && HintsOk(g, b, free, last, fsi)
  {
    TableFrame(g, a, b);
    HintsFrame(g, a, b, free, last, fsi);
  }

  /** Entry `e` in the bytes of its sector. */
  lemma RawEntry(g: Geometry, img: Image, e: nat)
    requires FatFits(g) && g.volend <= |img| && g.fsType != Fat12 && e < g.nFatent
    ensures var s, i := g.fatbase + e * Width(g.fsType) / 512, e * Width(g.fsType) % 512;
            && s < |img| && i + Width(g.fsType) <= 512
            && Entry(g, img, e) == if g.fsType == Fat16 then LdWord(img[s], i) else LdDword(img[s], i) % 0x1000_0000
  {
    EntryInFat1(g, e);
    if g.fsType == Fat16 {
      Raw16Bytes(g, img, e);
    } else {
      Entry32(g, img, e);
    }
  }

  /** Where the raw walk stands before entry `e`. */
  ghost predicate WalkAt(g: Geometry, e: nat, i: nat, sect: int) {
    i == e * Width(g.fsType) % 512 && sect == g.fatbase + (e * Width(g.fsType) + 511) / 512
  }

  lemma WalkStep(g: Geometry, e: nat, i: nat, sect: int)
    requires WalkAt(g, e, i, sect)
    ensures WalkAt(g, e + 1, (i + Width(g.fsType)) % 512, if i == 0 then sect + 1 else sect)
    ensures g.fatbase + e * Width(g.fsType) / 512 == if i == 0 then sect else sect - 1
    ensures i + Width(g.fsType) <= 512
  {
    if g.fsType == Fat16 {
      StepOver(e * 2, e / 256, 2 * (e % 256), 2);
    } else {
      StepOver(e * 4, e / 128, 4 * (e % 128), 4);
    }
  }

  /** Stepping over `w` bytes of a sector from byte `b` on. */
  lemma StepOver(b: nat, q: nat, r: nat, w: nat)
    requires b == 512 * q + r && 0 < w && r + w <= 512
    ensures b / 512 == q && b % 512 == r && (b + 511) / 512 == if r == 0 then q else q + 1
    ensures (b + w) % 512 == (r + w) % 512 && (b + w + 511) / 512 == q + 1
  {
    SplitBy512(b, q, r);
    if r + w == 512 {
      SplitBy512(b + w, q + 1, 0);
    } else {
      SplitBy512(b + w, q, r + w);
    }
  }

  lemma SplitBy512(b: nat, q: nat, r: nat)
    requires b == 512 * q + r && r < 512
    ensures b / 512 == q && b % 512 == r
    ensures (b + 511) / 512 == if r == 0 then q else q + 1
  {
  }

  function Zeros(): Sector { seq(512, _ => 0) }

  /** The logical image after `sync_fs`. */
  function SyncedImage(g: Geometry, img: Image, fsi: Byte, free: U32, last: U32): (r: Image)
    requires g.volbase + 1 < |img|
    ensures |r| == |img|
  {
    if fsi == 1 && g.fsType == Fat32 then img[g.volbase + 1 := FsInfo(free, last)] else img
  }

  /** Synchronising leaves the FSInfo sector, if it writes one, outside the FAT. */
  predicate SparesFat(g: Geometry, fsi: Byte) {
    g.volbase + 1 < g.fatbase || g.fsType != Fat32 || fsi != 1
  }

  /** At least two reserved sectors, or no FSInfo sector at all: synchronising is always harmless. */
  predicate RoomForFsInfo(g: Geometry) {
    g.volbase + 1 < g.fatbase || g.fsType != Fat32
  }

  /** With cluster 2 in use, synchronising keeps the table exactly when there are two or more reserved
      sectors or no FSInfo sector is written; with a single one it marks cluster 2 free. */
  lemma SyncSparesFat(g: Geometry, img: Image, fsi: Byte, free: U32, last: U32)
    requires FatFits(g) && g.volend <= |img|
    ensures var r := SyncedImage(g, img, fsi, free, last);
            && (SparesFat(g, fsi) ==> Table(g, r) == Table(g, img) && (Mirrored(g, img) ==> Mirrored(g, r)))
            && (!SparesFat(g, fsi) ==> Entry(g, r, 2) == 0)
            && (Entry(g, img, 2) != 0 ==> (Table(g, r) == Table(g, img) <==> SparesFat(g, fsi)))
  {
    hide FsInfo, Entry;
    var r := SyncedImage(g, img, fsi, free, last);
    if SparesFat(g, fsi) {
      TableFrame(g, img, r);
    } else {
      SyncFrees2(g, img, free, last);
      assert Table(g, r)[2] == Entry(g, r, 2) && Table(g, img)[2] == Entry(g, img, 2);
    }
  }

  lemma SyncFrees2(g: Geometry, img: Image, free: U32, last: U32)
    requires FatFits(g) && g.volend <= |img| && g.fsType == Fat32 && g.volbase + 1 == g.fatbase
    ensures Entry(g, img[g.volbase + 1 := FsInfo(free, last)], 2) == 0
  {
    hide FsInfo, Entry;
    var r := img[g.volbase + 1 := FsInfo(free, last)];
    FsInfoEntry2(free, last);
    Entry32(g, r, 2);
    assert FatSector(g, 8) == g.volbase + 1;
  }

  /** The raw count is the number of free clusters exactly when entries 0 and 1 are not zero. */
  lemma RawCountExact(t: seq<U32>)
    requires |t| >= 2
    ensures FreeFrom(t, 0) == FreeCount(t) <==> t[0] != 0 && t[1] != 0
  {
    assert FreeFrom(t, 0) == (if t[0] == 0 then 1 else 0) + FreeFrom(t, 1);
    assert FreeFrom(t, 1) == (if t[1] == 0 then 1 else 0) + FreeFrom(t, 2);
  }

  /** What a mount finds in the FSInfo sector written: the three signatures, then the free count at byte 488
      and the search hint at byte 492, little-endian. */
  lemma FsInfoReads(free: U32, last: U32)
    ensures var s := FsInfo(free, last);
            && IsFsInfo(s)
            && s[0..4] == [0x52, 0x52, 0x61, 0x41] && s[484..488] == [0x72, 0x72, 0x41, 0x61]
            && s[508..512] == [0x00, 0x00, 0x55, 0xAA]
            && s[488] as int + s[489] as int * 0x100 + s[490] as int * 0x1_0000 + s[491] as int * 0x100_0000 == free
            && s[492] as int + s[493] as int * 0x100 + s[494] as int * 0x1_0000 + s[495] as int * 0x100_0000 == last
            && LdDword(s, FSI_Free_Count) == free && LdDword(s, FSI_Nxt_Free) == last
  {
    FsInfoFields(free, last);
    hide FsInfo;
    var s := FsInfo(free, last);
    FourBytes(s, 0, 0x52, 0x52, 0x61, 0x41);
    FourBytes(s, 484, 0x72, 0x72, 0x41, 0x61);
    FourBytes(s, 508, 0x00, 0x00, 0x55, 0xAA);
  }

  /** The four bytes of a double word are determined. */
  lemma FourBytes(s: seq<Byte>, i: nat, a: Byte, b: Byte, c: Byte, d: Byte)
    requires i + 4 <= |s|
    requires LdDword(s, i) == a as int + b as int * 0x100 + c as int * 0x1_0000 + d as int * 0x100_0000
    ensures s[i..i + 4] == [a, b, c, d]
  {
    var w, x, y := s[i + 1] as int, s[i + 2] as int, s[i + 3] as int;
    LowByte(s[i], w + x * 0x100 + y * 0x1_0000, a, b as int + c as int * 0x100 + d as int * 0x1_0000);
    LowByte(s[i + 1], x + y * 0x100, b, c as int + d as int * 0x100);
    LowByte(s[i + 2], y, c, d as int);
  }

  lemma LowByte(a: Byte, x: nat, b: Byte, y: nat)
    requires a as int + 0x100 * x == b as int + 0x100 * y
    ensures a == b && x == y
  {
  }

  lemma FsInfoFields(free: U32, last: U32)
    ensures var s := FsInfo(free, last);
            && IsFsInfo(s) && LdDword(s, 488) == free && LdDword(s, 492) == last
  {
    hide StDword, LdDword;
    var z: seq<Byte> := seq(512, _ => 0);
    var s1 := StDword(z, 0, 0x4161_5252);
    var s2 := StDword(s1, 484, 0x6141_7272);
    var s3 := StDword(s2, 488, free);
    var s4 := StDword(s3, 492, last);
    StDwordKeeps(s1, 484, 0x6141_7272, 0);
    StDwordKeeps(s2, 488, free, 0);
    StDwordKeeps(s2, 488, free, 484);
    StDwordKeeps(s3, 492, last, 0);
    StDwordKeeps(s3, 492, last, 484);
    StDwordKeeps(s3, 492, last, 488);
    StDwordKeeps(s4, 508, 0xAA55_0000, 0);
    StDwordKeeps(s4, 508, 0xAA55_0000, 484);
    StDwordKeeps(s4, 508, 0xAA55_0000, 488);
    StDwordKeeps(s4, 508, 0xAA55_0000, 492);
  }

  lemma AnnouncedAt(g: Geometry, img: Image)
    requires FatFits(g) && g.volend <= |img|
    ensures Announced(g, img) <==> g.fsType == Fat32 && img[g.volbase][48] == 1 && img[g.volbase][49] == 0
  {
  }

  /** After the FSInfo sector has been written a mount finds the cached values. */
  lemma HintsSynced(g: Geometry, img: Image, free: U32, last: U32, fsi: Byte)
    requires FatFits(g) && g.volend <= |img| && HintsOk(g, img, free, last, fsi)
    ensures g.volbase + 1 < |img|
    ensures fsi == 1 && Announced(g, img) ==>
              MountedHints(g, img[g.volbase + 1 := FsInfo(free, last)]) == (0, free, last)
    ensures fsi == 1 && g.fsType == Fat32 ==> HintsOk(g, img[g.volbase + 1 := FsInfo(free, last)], free, last, 0)
    ensures fsi == 1 && g.fsType != Fat32 ==> HintsOk(g, img, free, last, 0)
  {
    FsInfoReads(free, last);
    hide FsInfo, IsFsInfo, LdDword, LdWord;
  }

  lemma FsInfoEntry2(free: U32, last: U32)
    ensures LdDword(FsInfo(free, last), 8) == 0
  {
    var z: seq<Byte> := seq(512, _ => 0);
    var s1 := StDword(z, 0, 0x4161_5252);
    var s2 := StDword(s1, 484, 0x6141_7272);
    var s3 := StDword(s2, 488, free);
    var s4 := StDword(s3, 492, last);
    StDwordKeeps(z, 0, 0x4161_5252, 8);
    StDwordKeeps(s1, 484, 0x6141_7272, 8);
    StDwordKeeps(s2, 488, free, 8);
    StDwordKeeps(s3, 492, last, 8);
    StDwordKeeps(s4, 508, 0xAA55_0000, 8);
  }
}
