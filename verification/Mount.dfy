/** The BIOS Parameter Block part of `mount_volume`: from boot sector to volume layout. */
module Mount {
  import opened Bytes
  import opened Geometry

  datatype Option<+T> = None | Some(value: T)

  const BPB_BytsPerSec: nat := 11
  const BPB_SecPerClus: nat := 13
  const BPB_RsvdSecCnt: nat := 14
  const BPB_NumFATs: nat := 16
  const BPB_RootEntCnt: nat := 17
  const BPB_TotSec16: nat := 19
  const BPB_FATSz16: nat := 22
  const BPB_TotSec32: nat := 32
  const BPB_FATSz32: nat := 36
  const BPB_FSVer32: nat := 42
  const BPB_RootClus32: nat := 44

  // The fields the boot sector stands for, read without any limit on their sums.

  function FatSize(s: seq<Byte>): U32
    requires |s| == 512
  {
    if LdWord(s, BPB_FATSz16) != 0 then LdWord(s, BPB_FATSz16) else LdDword(s, BPB_FATSz32)
  }

  function TotalSectors(s: seq<Byte>): U32
    requires |s| == 512
  {
    if LdWord(s, BPB_TotSec16) != 0 then LdWord(s, BPB_TotSec16) else LdDword(s, BPB_TotSec32)
  }

  /** Reserved, FAT and root sectors together, as an exact sum. */
  function SystemSectors(s: seq<Byte>): nat
    requires |s| == 512
  {
    LdWord(s, BPB_RsvdSecCnt) + (if s[BPB_NumFATs] == 2 then 2 * FatSize(s) else FatSize(s))
    + LdWord(s, BPB_RootEntCnt) / 16
  }

  /** No 32-bit sum of the mount arithmetic wraps. */
  predicate NoWrap(s: seq<Byte>, bsect: U32)
    requires |s| == 512
  {
    SystemSectors(s) < TWO32 && bsect + TotalSectors(s) <= TWO32
  }

  function TypeOf(clusters: nat): FsType {
    if clusters <= MAX_FAT12 then Fat12 else if clusters <= MAX_FAT16 then Fat16 else Fat32
  }

  /** What a mountable boot sector must say, over exact numbers. */
  predicate Mountable(s: seq<Byte>)
    requires |s| == 512
  {
    && LdWord(s, BPB_BytsPerSec) == 512
    && (s[BPB_NumFATs] == 1 || s[BPB_NumFATs] == 2)
    && IsPow2Byte(s[BPB_SecPerClus])
    && LdWord(s, BPB_RootEntCnt) % 16 == 0
    && LdWord(s, BPB_RsvdSecCnt) != 0
    && SystemSectors(s) <= TotalSectors(s)
    && var clusters := Quotient(TotalSectors(s) - SystemSectors(s), s[BPB_SecPerClus]);
    && 1 <= clusters <= MAX_FAT32
    && EntriesFit(TypeOf(clusters), clusters + 2, FatSize(s) * 512)
    && (TypeOf(clusters) == Fat32 <==> LdWord(s, BPB_RootEntCnt) == 0)
    && (TypeOf(clusters) == Fat32 ==> LdWord(s, BPB_FSVer32) == 0)
  }

  /** Wrapping unsigned addition. */
  function Add32(a: U32, b: U32): U32 {
    if a + b < TWO32 then a + b else a + b - TWO32
  }

  /** Reserved, FAT and root sectors together, as the 32-bit arithmetic of the source has it. */
  function WrappedSystem(s: seq<Byte>): U32
    requires |s| == 512
  {
    Add32(Add32(LdWord(s, BPB_RsvdSecCnt), if s[BPB_NumFATs] == 2 then Add32(FatSize(s), FatSize(s)) else FatSize(s)),
          LdWord(s, BPB_RootEntCnt) / 16)
  }

  /** What the source accepts: a mountable boot sector, but over wrapping sums. */
  predicate Accepted(s: seq<Byte>)
    requires |s| == 512
  {
    && LdWord(s, BPB_BytsPerSec) == 512
    && (s[BPB_NumFATs] == 1 || s[BPB_NumFATs] == 2)
    && IsPow2Byte(s[BPB_SecPerClus])
    && LdWord(s, BPB_RootEntCnt) % 16 == 0
    && LdWord(s, BPB_RsvdSecCnt) != 0
    && WrappedSystem(s) <= TotalSectors(s)
    && var clusters := Quotient(TotalSectors(s) - WrappedSystem(s), s[BPB_SecPerClus]);
    && 1 <= clusters <= MAX_FAT32
    && EntriesFit(TypeOf(clusters), clusters + 2, FatSize(s) * 512)
    && (TypeOf(clusters) == Fat32 <==> LdWord(s, BPB_RootEntCnt) == 0)
    && (TypeOf(clusters) == Fat32 ==> LdWord(s, BPB_FSVer32) == 0)
  }

  /** Without wrap-around the two readings agree. */
  lemma AcceptedIsMountable(s: seq<Byte>, bsect: U32)
    requires |s| == 512 && NoWrap(s, bsect)
    ensures Accepted(s) <==> Mountable(s)
  {
    if s[BPB_NumFATs] == 1 || s[BPB_NumFATs] == 2 {
      assert WrappedSystem(s) == SystemSectors(s);
    }
  }

  function Quotient(n: nat, d: nat): (q: nat)
    requires d > 0
    ensures q == n / d && d * q <= n && q <= n
  {
    n / d
  }

  /** The layout computed with wrapping sums is sound exactly when no sum wraps. */
  lemma LayoutSoundness(s: seq<Byte>, g: Geometry, nrsv: U32, fasize: U32, tsect: U32, sysect: U32, nclst: U32)
    requires |s| == 512
    requires nrsv == LdWord(s, BPB_RsvdSecCnt) != 0 && tsect == TotalSectors(s)
    requires g.nFats == s[BPB_NumFATs] && (g.nFats == 1 || g.nFats == 2) && g.fsize == FatSize(s)
    requires g.nRootdir == LdWord(s, BPB_RootEntCnt) && g.nRootdir % 16 == 0
    requires IsPow2Byte(g.csize)
    requires fasize == if g.nFats == 2 then Add32(g.fsize, g.fsize) else g.fsize
    requires sysect == Add32(Add32(nrsv, fasize), g.nRootdir / 16)
    requires g.fatbase == Add32(g.volbase, nrsv) && g.database == Add32(g.volbase, sysect)
    requires 1 <= nclst == g.nFatent - 2 <= MaxClusters(g.fsType)
    requires sysect <= tsect && g.csize * nclst <= tsect - sysect
    requires g.volend == g.volbase + tsect
    requires g.fsType == Fat32 <==> g.nRootdir == 0
    requires g.fsType != Fat32 ==> g.dirbase == Add32(g.fatbase, fasize)
    requires EntriesFit(g.fsType, g.nFatent, g.fsize * 512)
    ensures WellFormed(g) <==> NoWrap(s, g.volbase)
  {
    hide LdWord, LdDword, FatSize, TotalSectors, EntriesFit, MaxClusters, ClusterBase;
    LastCluster(g, nclst);
    assert FatArea(g) == if g.nFats == 2 then 2 * g.fsize else g.fsize;
    if NoWrap(s, g.volbase) {
      assert sysect == SystemSectors(s);
      assert g.database == g.volbase + sysect;
      assert WellFormed(g);
    }
  }

  lemma LastCluster(g: Geometry, nclst: nat)
    requires IsPow2Byte(g.csize) && 1 <= nclst == g.nFatent - 2
    ensures ClusterBase(g, g.nFatent) == g.database + g.csize * nclst && g.csize * nclst > 0
  {
    MulMono(g.csize, 1, nclst);
  }

  /** The layout the source computes for an accepted boot sector, with wrapping sums. */
  function Layout(s: seq<Byte>, bsect: U32): Geometry
    requires |s| == 512 && Accepted(s)
  {
    var fasize := if s[BPB_NumFATs] == 2 then Add32(FatSize(s), FatSize(s)) else FatSize(s);
    var n := Quotient(TotalSectors(s) - WrappedSystem(s), s[BPB_SecPerClus]);
    var fatbase := Add32(bsect, LdWord(s, BPB_RsvdSecCnt));
    Geometry(TypeOf(n), s[BPB_NumFATs], s[BPB_SecPerClus], LdWord(s, BPB_RootEntCnt), n + 2, FatSize(s), bsect, fatbase,
             if TypeOf(n) == Fat32 then LdDword(s, BPB_RootClus32) else Add32(fatbase, fasize),
             Add32(bsect, WrappedSystem(s)), bsect + TotalSectors(s))
  }

  /** An accepted boot sector gives a sound layout exactly when none of the sums wraps; then the boot
      sectors accepted and their layouts are those of exact arithmetic. */
  lemma LayoutTheorem(s: seq<Byte>, bsect: U32)
    requires |s| == 512
    ensures Accepted(s) ==> (WellFormed(Layout(s, bsect)) <==> NoWrap(s, bsect))
    ensures NoWrap(s, bsect) ==> (Accepted(s) <==> Mountable(s))
    ensures Accepted(s) && NoWrap(s, bsect) ==>
              var g := Layout(s, bsect);
              && g.nFatent == Quotient(TotalSectors(s) - SystemSectors(s), s[BPB_SecPerClus]) + 2
              && g.fatbase == bsect + LdWord(s, BPB_RsvdSecCnt) && g.database == bsect + SystemSectors(s)
  {
    if NoWrap(s, bsect) {
      AcceptedIsMountable(s, bsect);
    }
    if Accepted(s) {
      var g := Layout(s, bsect);
      LayoutSoundness(s, g, LdWord(s, BPB_RsvdSecCnt),
                      if s[BPB_NumFATs] == 2 then Add32(FatSize(s), FatSize(s)) else FatSize(s),
                      TotalSectors(s), WrappedSystem(s), g.nFatent - 2);
      if NoWrap(s, bsect) {
        assert WrappedSystem(s) == SystemSectors(s);
      }
    }
  }

  /** What the fields of an accepted boot sector are, byte by byte, and the layout they stand for when no sum
      wraps: reserved sectors, FATs, root directory, data. On FAT32 the root directory is a chain that starts
      at the cluster given at byte 44, which nothing bounds. */
  lemma BootBytes(s: seq<Byte>, bsect: U32)
    requires |s| == 512 && Accepted(s) && NoWrap(s, bsect)
    ensures var g := Layout(s, bsect);
            var word := (i: int) requires 0 <= i < 511 => s[i] as int + s[i + 1] as int * 0x100;
            var dword := (i: int) requires 0 <= i < 509 => word(i) + word(i + 2) * 0x1_0000;
            var total := if word(19) != 0 then word(19) else dword(32);
            && word(11) == 512
            && g.csize == s[13] && g.nFats == s[16] && g.nRootdir == word(17)
            && g.fsize == (if word(22) != 0 then word(22) else dword(36))
            && g.volbase == bsect && g.fatbase == bsect + word(14)
            && g.database == g.fatbase + g.nFats * g.fsize + g.nRootdir / 16 && g.volend == bsect + total
            && g.nFatent == (g.volend - g.database) / g.csize + 2
            && g.fsType == (if g.nFatent - 2 <= 4085 then Fat12 else if g.nFatent - 2 <= 65525 then Fat16 else Fat32)
            && (g.fsType == Fat32 ==> g.dirbase == dword(44) && word(42) == 0 && word(17) == 0)
            && (g.fsType != Fat32 ==> g.dirbase == g.fatbase + g.nFats * g.fsize && word(17) != 0)
  {
    assert WrappedSystem(s) == SystemSectors(s);
    assert s[BPB_NumFATs] as int * FatSize(s) as int == if s[BPB_NumFATs] == 2 then 2 * FatSize(s) else FatSize(s);
  }

  /** The FAT-size test of the source, against the entries a FAT must hold. */
  lemma SizeCheck(ty: FsType, n: U32, szbfat: nat, fsize: U32)
    requires szbfat == match ty case Fat12 => n * 3 / 2 + n % 2 case Fat16 => n * 2 case Fat32 => n * 4
    ensures fsize >= (szbfat + 511) / 512 <==> EntriesFit(ty, n, fsize * 512)
  {
    var q, h := (szbfat + 511) / 512, n / 2;
    assert 512 * q <= szbfat + 511 < 512 * q + 512;
    assert n == 2 * h + n % 2;
    if ty == Fat12 {
      assert n * 3 / 2 == 3 * h + n % 2;
    }
  }

  /** The first tests of the source, up to the number of clusters. */
  predicate FieldsOk(s: seq<Byte>)
    requires |s| == 512
  {
    && LdWord(s, BPB_BytsPerSec) == 512
    && (s[BPB_NumFATs] == 1 || s[BPB_NumFATs] == 2)
    && IsPow2Byte(s[BPB_SecPerClus])
    && LdWord(s, BPB_RootEntCnt) % 16 == 0
    && LdWord(s, BPB_RsvdSecCnt) != 0
    && WrappedSystem(s) <= TotalSectors(s)
    && Quotient(TotalSectors(s) - WrappedSystem(s), s[BPB_SecPerClus]) >= 1
  }

  /** Second half of the parsing: FAT type, region bases and the FAT-size check. */
  method PlaceRegions(s: seq<Byte>, bsect: U32, csize: U32, nrsv: U32, fasize: U32,
                      tsect: U32, sysect: U32, nclst: U32) returns (r: Option<Geometry>)
    requires |s| == 512 && FieldsOk(s)
    requires nrsv == LdWord(s, BPB_RsvdSecCnt) && tsect == TotalSectors(s) && csize == s[BPB_SecPerClus]
    requires fasize == if s[BPB_NumFATs] == 2 then Add32(FatSize(s), FatSize(s)) else FatSize(s)
    requires sysect == WrappedSystem(s) && nclst == Quotient(tsect - sysect, csize)
    ensures r.Some? <==> Accepted(s)
    ensures r.Some? ==> r.value == Layout(s, bsect)
  {
    hide WrappedSystem, FatSize, TotalSectors, LdWord, LdDword, Quotient, Add32;
    if nclst > MAX_FAT32 { return None; }
    var fmt := Fat32;
    if nclst <= MAX_FAT16 { fmt := Fat16; }
    if nclst <= MAX_FAT12 { fmt := Fat12; }

    var fsize := FatSize(s);
    var nRootdir: U32 := LdWord(s, BPB_RootEntCnt);
    var nFats: U32 := s[BPB_NumFATs];
    var nFatent: U32 := nclst + 2;
    var fatbase := Add32(bsect, nrsv);
    var database := Add32(bsect, sysect);
    var dirbase: U32;
    var szbfat: U32;
    if fmt == Fat32 {
      if LdWord(s, BPB_FSVer32) != 0 { return None; }
      if nRootdir != 0 { return None; }
      dirbase := LdDword(s, BPB_RootClus32);
      szbfat := nFatent * 4;
    } else {
      if nRootdir == 0 { return None; }
      dirbase := Add32(fatbase, fasize);
      szbfat := if fmt == Fat16 then nFatent * 2 else nFatent * 3 / 2 + nFatent % 2;
    }
    SizeCheck(fmt, nFatent, szbfat, fsize);
    if fsize < (szbfat + 511) / 512 { return None; }
    r := Some(Geometry(fmt, nFats, csize, nRootdir, nFatent, fsize, bsect, fatbase, dirbase, database, bsect + tsect));
  }

  /** Parses and checks the boot sector `s` of a volume starting at sector `bsect`. */
  method ParseBpb(s: seq<Byte>, bsect: U32) returns (r: Option<Geometry>)
    requires |s| == 512
    ensures r.Some? <==> Accepted(s)
    ensures r.Some? ==> r.value == Layout(s, bsect)
  {
    hide LdWord, LdDword, Quotient, Add32, Layout;
    if LdWord(s, BPB_BytsPerSec) != 512 { return None; }

    var fasize: U32 := LdWord(s, BPB_FATSz16);
    if fasize == 0 { fasize := LdDword(s, BPB_FATSz32); }
    var fsize := fasize;

    var nFats: U32 := s[BPB_NumFATs];
    if nFats != 1 && nFats != 2 { return None; }
    fasize := if nFats == 2 then Add32(fasize, fasize) else fasize; // fasize *= n_fats, wrapping

    var csize: U32 := s[BPB_SecPerClus];
    if !IsPow2Byte(csize) { return None; }

    var nRootdir: U32 := LdWord(s, BPB_RootEntCnt);
    if nRootdir % 16 != 0 { return None; }

    var tsect: U32 := LdWord(s, BPB_TotSec16);
    if tsect == 0 { tsect := LdDword(s, BPB_TotSec32); }

    var nrsv: U32 := LdWord(s, BPB_RsvdSecCnt);
    if nrsv == 0 { return None; }

    var sysect := Add32(Add32(nrsv, fasize), nRootdir / 16);
    if tsect < sysect { return None; }
    var nclst: U32 := Quotient(tsect - sysect, csize);
    if nclst == 0 { return None; }
    r := PlaceRegions(s, bsect, csize, nrsv, fasize, tsect, sysect, nclst);
  }

  // ---------------------------------------------------------------- finding the volume

  const BS_FilSysType32: nat := 82
  const BS_55AA: nat := 510

  /** "FAT32   " */
  function Fat32Name(): seq<Byte> { [0x46, 0x41, 0x54, 0x33, 0x32, 0x20, 0x20, 0x20] }

  /** A boot sector that names its type. */
  predicate NamesFat32(s: seq<Byte>)
    requires |s| == 512
  {
    LdWord(s, BS_55AA) == 0xAA55 && s[BS_FilSysType32..BS_FilSysType32 + 8] == Fat32Name()
  }

  /** One of the early days, known by plausible fields. */
  predicate LooksLikeFat(s: seq<Byte>)
    requires |s| == 512
  {
    && LdWord(s, BPB_BytsPerSec) == 512 && IsPow2Byte(s[BPB_SecPerClus]) && LdWord(s, BPB_RsvdSecCnt) != 0
    && (s[BPB_NumFATs] == 1 || s[BPB_NumFATs] == 2) && LdWord(s, BPB_RootEntCnt) != 0
    && (LdWord(s, BPB_TotSec16) >= 128 || LdDword(s, BPB_TotSec32) >= 0x1_0000) && LdWord(s, BPB_FATSz16) != 0
  }

  /** What passes for the boot sector of a FAT volume. */
  predicate IsVbr(s: seq<Byte>)
    requires |s| == 512
  {
    (s[0] == 0xEB || s[0] == 0xE9 || s[0] == 0xE8) && (NamesFat32(s) || LooksLikeFat(s))
  }

  /** `check_fs`: 0 for the boot sector of a FAT volume, 2 for another valid one, 3 for none. */
  method CheckFs(s: seq<Byte>) returns (r: nat)
    requires |s| == 512
    ensures r == if IsVbr(s) then 0 else if LdWord(s, BS_55AA) == 0xAA55 then 2 else 3
  {
    hide LdWord, LdDword;
    var sign := LdWord(s, BS_55AA);
    var b := s[0];
    if b == 0xEB || b == 0xE9 || b == 0xE8 {
      if sign == 0xAA55 && s[BS_FilSysType32..BS_FilSysType32 + 8] == Fat32Name() { return 0; }
      var w := LdWord(s, BPB_BytsPerSec);
      b := s[BPB_SecPerClus];
      if w == 512 && IsPow2Byte(b) && LdWord(s, BPB_RsvdSecCnt) != 0
         && 1 <= s[BPB_NumFATs] && s[BPB_NumFATs] - 1 <= 1 && LdWord(s, BPB_RootEntCnt) != 0
         && (LdWord(s, BPB_TotSec16) >= 128 || LdDword(s, BPB_TotSec32) >= 0x1_0000) && LdWord(s, BPB_FATSz16) != 0
      {
        return 0;
      }
    }
    r := if sign == 0xAA55 then 2 else 3;
  }

  /** The sums can only wrap for a volume that names its type, or lies across the end of the address space. */
  lemma PlausibleDoesNotWrap(s: seq<Byte>, bsect: U32)
    requires |s| == 512 && LooksLikeFat(s)
    ensures NoWrap(s, bsect) <==> bsect + TotalSectors(s) <= TWO32
  {
    hide LdDword;
  }

  /** A boot sector with two FATs of 0x8000_0001 sectors each, on a volume of 0x10_0000 sectors. */
  function WrappedBoot(): (s: seq<Byte>)
    ensures |s| == 512
  {
    seq(512, i => if i == 0 then 0xEB          // jump
                  else if i == 12 then 2       // 512 bytes a sector
                  else if i == 13 then 1       // one sector a cluster
                  else if i == 14 then 32      // reserved sectors
                  else if i == 16 then 2       // FATs
                  else if i == 34 then 0x10    // total sectors
                  else if i == 36 then 1       // FAT size, low byte
                  else if i == 39 then 0x80    // FAT size, high byte
                  else if i == 44 then 2       // root cluster
                  else if 82 <= i < 90 then Fat32Name()[i - 82]
                  else if i == 510 then 0x55
                  else if i == 511 then 0xAA
                  else 0)
  }

  /** Doubling its FAT size wraps to 2 sectors: the volume is accepted, with a layout that is not sound. */
  lemma WrappedFatIsAccepted(bsect: U32)
    ensures IsVbr(WrappedBoot()) && Accepted(WrappedBoot())
    ensures !Mountable(WrappedBoot()) && !NoWrap(WrappedBoot(), bsect)
  {
    var s := WrappedBoot();
    assert LdWord(s, BS_55AA) == 0xAA55 && s[BS_FilSysType32..BS_FilSysType32 + 8] == Fat32Name();
    assert LdWord(s, BPB_BytsPerSec) == 512 && LdWord(s, BPB_RsvdSecCnt) == 32 && LdWord(s, BPB_RootEntCnt) == 0;
    assert LdWord(s, BPB_TotSec16) == 0 && LdDword(s, BPB_TotSec32) == 0x10_0000;
    assert LdWord(s, BPB_FATSz16) == 0 && LdDword(s, BPB_FATSz32) == 0x8000_0001 && LdWord(s, BPB_FSVer32) == 0;
    assert WrappedSystem(s) == 34;
    assert Quotient(0x10_0000 - 34, 1) == 0x10_0000 - 34;
  }
}
