/** The layout of a mounted FAT volume, and the sector arithmetic built on it. */
module Geometry {
  import opened Bytes

  // Cluster-count limits of the implementation (they differ from the FAT32 File System Specification).
  const MAX_FAT12: int := 0xFF5
  const MAX_FAT16: int := 0xFFF5
  const MAX_FAT32: int := 0x0FFF_FFF5
  const MAX_DIR: int := 0x20_0000
  const SZDIRE: int := 32

  datatype FsType = Fat12 | Fat16 | Fat32

  datatype Geometry = Geometry(
    fsType: FsType,
    nFats: U32,
    csize: U32,      // sectors per cluster
    nRootdir: U32,   // entries of the static root directory (FAT12/16)
    nFatent: U32,    // number of clusters + 2
    fsize: U32,      // sectors per FAT
    volbase: U32,
    fatbase: U32,
    dirbase: U32,    // root directory: first sector (FAT12/16) or cluster (FAT32)
    database: U32,
    volend: int)     // first sector after the volume

  predicate IsPow2Byte(c: int) {
    c == 1 || c == 2 || c == 4 || c == 8 || c == 16 || c == 32 || c == 64 || c == 128
  }

  /** `n` entries fit in a FAT of `bytes` bytes: 1.5, 2 or 4 bytes an entry. */
  predicate EntriesFit(ty: FsType, n: int, bytes: int) {
    match ty
    case Fat12 => 3 * n <= 2 * bytes
    case Fat16 => 2 * n <= bytes
    case Fat32 => 4 * n <= bytes
  }

  function MaxClusters(ty: FsType): nat {
    match ty
    case Fat12 => MAX_FAT12
    case Fat16 => MAX_FAT16
    case Fat32 => MAX_FAT32
  }

  /** The value that reads back after storing 0xFFFFFFFF in an entry. */
  function EndMark(ty: FsType): nat {
    match ty
    case Fat12 => 0xFFF
    case Fat16 => 0xFFFF
    case Fat32 => 0x0FFF_FFFF
  }

  function FatArea(g: Geometry): int {
    if g.nFats == 2 then 2 * g.fsize else g.fsize
  }

  /** Sector `s` is not in the second FAT. */
  predicate OffFat2(g: Geometry, s: int) {
    s < g.fatbase + g.fsize || s >= g.fatbase + FatArea(g)
  }

  /** Reserved area, FATs and data area in this order and disjoint; every entry fits in one FAT. */
  predicate FatFits(g: Geometry) {
    && (g.nFats == 1 || g.nFats == 2)
    && 3 <= g.nFatent <= MaxClusters(g.fsType) + 2
    && g.volbase < g.fatbase
    && EntriesFit(g.fsType, g.nFatent, g.fsize * 512)
    && g.fatbase + FatArea(g) <= g.database < g.volend <= TWO32
  }

  /** The root directory fills the gap between FATs and data; every cluster lies in the volume. */
  predicate ClustersFit(g: Geometry) {
    && IsPow2Byte(g.csize)
    && (if g.fsType == Fat32 then
          g.nRootdir == 0 && g.database == g.fatbase + FatArea(g)
        else
          && 0 < g.nRootdir && g.nRootdir % 16 == 0
          && g.dirbase == g.fatbase + FatArea(g)
          && g.database == g.dirbase + g.nRootdir / 16)
    && ClusterBase(g, g.nFatent) <= g.volend
  }

  predicate WellFormed(g: Geometry) {
    FatFits(g) && ClustersFit(g)
  }

  function ClusterBase(g: Geometry, c: int): int {
    g.database + g.csize * (c - 2)
  }

  /** Cluster 2 starts the data area, and each cluster follows the one before it. */
  lemma ClusterOrderIs(g: Geometry, c: int)
    requires 2 <= c < g.nFatent
    ensures ClusterBase(g, 2) == g.database && ClusterBase(g, c + 1) == ClusterBase(g, c) + g.csize
    ensures forall s :: SectorIn(g, c, s) <==> ClusterBase(g, c) <= s < ClusterBase(g, c + 1)
  {
    assert g.csize * (c + 1 - 2) == g.csize * (c - 2) + g.csize;
  }

  predicate InFat1(g: Geometry, s: int) {
    g.fatbase <= s < g.fatbase + g.fsize
  }

  predicate InData(g: Geometry, c: int) {
    2 <= c < g.nFatent
  }

  /** The sectors of cluster `c`. */
  predicate SectorIn(g: Geometry, c: int, s: int) {
    ClusterBase(g, c) <= s < ClusterBase(g, c) + g.csize
  }

  /** `clst2sect`: 0 for an invalid cluster number; the first test wraps below 2. */
  function Clst2Sect(g: Geometry, c: U32): (s: int)
    requires WellFormed(g)
    ensures InData(g, c) ==> s == ClusterBase(g, c) && s != 0
    ensures !InData(g, c) ==> s == 0
  {
    var k := Sub32(c, 2);
    if k >= Sub32(g.nFatent, 2) then 0 else g.database + g.csize * k
  }

  lemma MulMono(k: int, a: int, b: int)
    requires 0 <= k && a <= b
    ensures k * a <= k * b
  {
  }

  lemma ClusterOrder(g: Geometry, c: int, d: int)
    requires IsPow2Byte(g.csize) && c < d
    ensures ClusterBase(g, c) + g.csize <= ClusterBase(g, d)
  {
    MulMono(g.csize, c - 1, d - 2);
    assert g.csize * (c - 1) == g.csize * (c - 2) + g.csize;
  }

  /** Every sector of a data cluster lies in the data area and inside the volume. */
  lemma ClusterInVolume(g: Geometry, c: int)
    requires WellFormed(g) && InData(g, c)
    ensures g.database <= ClusterBase(g, c)
    ensures ClusterBase(g, c) + g.csize <= g.volend
  {
    MulMono(g.csize, 0, c - 2);
    ClusterOrder(g, c, g.nFatent);
  }

  /** Different clusters occupy disjoint sectors. */
  lemma ClustersDisjoint(g: Geometry, c: int, d: int, s: int)
    requires IsPow2Byte(g.csize)
    requires SectorIn(g, c, s) && SectorIn(g, d, s)
    ensures c == d
  {
    if c < d {
      ClusterOrder(g, c, d);
    } else if d < c {
      ClusterOrder(g, d, c);
    }
  }

  /** `x & (csize - 1)` of the source is the remainder by the cluster size, for each size it admits. */
  lemma MaskIsRemainder(x: bv32)
    ensures x & 0 == x % 1 && x & 1 == x % 2 && x & 3 == x % 4 && x & 7 == x % 8
    ensures x & 15 == x % 16 && x & 31 == x % 32 && x & 63 == x % 64 && x & 127 == x % 128
  {
  }

  /** `c != 0 && (c & (c - 1)) == 0` accepts exactly the byte values `IsPow2Byte` lists. */
  lemma Pow2Test(c: bv8)
    ensures c != 0 && c & (c - 1) == 0 <==> IsPow2Byte(c as int)
  {
    assert c != 0 && c & (c - 1) == 0 <==>
           c == 1 || c == 2 || c == 4 || c == 8 || c == 16 || c == 32 || c == 64 || c == 128;
  }
}
