/** The FAT as bytes on the disk image and as a table of entries: packing of 12-, 16- and 32-bit
    entries, and the mirror copy. An image is the whole device, sector by sector. */
module FatTable {
  import opened Bytes
  import opened Geometry

  type Sector = s: seq<Byte> | |s| == 512 witness seq(512, _ => 0)
  type Image = seq<Sector>

  /** Writes sector `s` of the logical image; a FAT1 sector is reflected into FAT2 when there are two FATs. */
  function Put(g: Geometry, img: Image, s: nat, sec: Sector): (r: Image)
    requires FatFits(g) && g.volend <= |img| && s < |img|
    ensures |r| == |img| && r[s] == sec
    ensures forall k :: 0 <= k < |img| && k != s && !(InFat1(g, s) && k == s + g.fsize) ==> r[k] == img[k]
    ensures InFat1(g, s) && g.nFats == 2 ==> r[s + g.fsize] == sec
    ensures g.nFats == 1 && InFat1(g, s) && s + g.fsize < |img| ==> r[s + g.fsize] == img[s + g.fsize]
  {
    if InFat1(g, s) && g.nFats == 2 then img[s := sec][s + g.fsize := sec] else img[s := sec]
  }

  /** FAT1 and FAT2 agree. */
  ghost predicate Mirrored(g: Geometry, img: Image)
    requires FatFits(g) && g.volend <= |img|
  {
    g.nFats == 2 ==> forall s :: InFat1(g, s) ==> img[s] == img[s + g.fsize]
  }

  /** Byte offset in the FAT of the first byte of entry `c`. */
  function EntryOffset(ty: FsType, c: nat): nat {
    match ty
    case Fat12 => c + c / 2
    case Fat16 => c * 2
    case Fat32 => c * 4
  }

  function EntryBytes(ty: FsType): nat {
    if ty == Fat32 then 4 else 2
  }

  /** Every byte of entry `c < n_fatent` lies in FAT1. */
  lemma EntryInFat1(g: Geometry, c: nat)
    requires FatFits(g) && c < g.nFatent
    ensures EntryOffset(g.fsType, c) + EntryBytes(g.fsType) <= g.fsize * 512
  {
  }

  /** Byte `b` of FAT1. */
  function FatByte(g: Geometry, img: Image, b: nat): Byte
    requires FatFits(g) && g.volend <= |img| && b < g.fsize * 512
  {
    img[FatSector(g, b)][b % 512]
  }

  /** The value of entry `c`. */
  function Entry(g: Geometry, img: Image, c: nat): (v: U32)
    requires FatFits(g) && g.volend <= |img| && c < g.nFatent
    ensures v <= EndMark(g.fsType)
  {
    EntryInFat1(g, c);
    var b := EntryOffset(g.fsType, c);
    var w := FatByte(g, img, b) as int + FatByte(g, img, b + 1) as int * 0x100;
    match g.fsType
    case Fat12 => if c % 2 == 1 then w / 16 else w % 0x1000
    case Fat16 => w
    case Fat32 =>
      (w + FatByte(g, img, b + 2) as int * 0x1_0000 + FatByte(g, img, b + 3) as int * 0x100_0000) % 0x1000_0000
  }

  function Table(g: Geometry, img: Image): (t: seq<U32>)
    requires FatFits(g) && g.volend <= |img|
    ensures |t| == g.nFatent
  {
    seq(g.nFatent, c requires 0 <= c < g.nFatent => Entry(g, img, c))
  }

  /** `v` cut to the width of an entry. */
  function Cut(ty: FsType, v: U32): U32 {
    match ty
    case Fat12 => v % 0x1000
    case Fat16 => v % 0x1_0000
    case Fat32 => v % 0x1000_0000
  }

  /** The sector holding byte `b` of FAT1. */
  function FatSector(g: Geometry, b: nat): (s: nat)
    requires b < g.fsize * 512
    ensures InFat1(g, s)
  {
    g.fatbase + b / 512
  }

  /** First and second byte of a FAT12 entry holding `v`, given the bytes there before. */
  function Low12(c: nat, p: Byte, v: U32): Byte {
    if c % 2 == 1 then p % 16 + v % 16 * 16 else v % 0x100
  }
  function High12(c: nat, p: Byte, v: U32): Byte {
    if c % 2 == 1 then v / 16 % 0x100 else p / 16 * 16 + v / 0x100 % 16
  }

  function SetFatByte(g: Geometry, img: Image, b: nat, x: Byte): (r: Image)
    requires FatFits(g) && g.volend <= |img| && b < g.fsize * 512
    ensures |r| == |img|
  {
    Put(g, img, FatSector(g, b), img[FatSector(g, b)][b % 512 := x])
  }

  /** A FAT12 entry is written one byte at a time: the two bytes may lie in different sectors. */
  function Set12(g: Geometry, img: Image, c: nat, v: U32): (r: Image)
    requires FatFits(g) && g.volend <= |img| && c + c / 2 + 2 <= g.fsize * 512
    ensures |r| == |img|
  {
    var b := c + c / 2;
    var r1 := SetFatByte(g, img, b, Low12(c, FatByte(g, img, b), v));
    SetFatByte(g, r1, b + 1, High12(c, FatByte(g, r1, b + 1), v))
  }

  /** Offset in its sector of the 2- or 4-byte entry `c`; the entry does not cross the sector end. */
  function Off2(c: nat): (r: nat)
    ensures r + 2 <= 512
  {
    c * 2 % 512
  }

  function Off4(c: nat): (r: nat)
    ensures r + 4 <= 512
  {
    c * 4 % 512
  }

  function Set16(g: Geometry, img: Image, c: nat, v: U32): (r: Image)
    requires FatFits(g) && g.volend <= |img| && c * 2 + 2 <= g.fsize * 512
    ensures |r| == |img|
  {
    var s := FatSector(g, c * 2);
    Put(g, img, s, StWord(img[s], Off2(c), v % 0x1_0000))
  }

  /** The upper four bits of the stored double word are kept. */
  function Keep4(prev: U32, v: U32): (r: U32)
    ensures r % 0x1000_0000 == v % 0x1000_0000
    ensures r / 0x1000_0000 == prev / 0x1000_0000
  {
    v % 0x1000_0000 + prev / 0x1000_0000 * 0x1000_0000
  }

  function Set32(g: Geometry, img: Image, c: nat, v: U32): (r: Image)
    requires FatFits(g) && g.volend <= |img| && c * 4 + 4 <= g.fsize * 512
    ensures |r| == |img|
  {
    var s := FatSector(g, c * 4);
    Put(g, img, s, StDword(img[s], Off4(c), Keep4(LdDword(img[s], Off4(c)), v)))
  }

  /** The image after storing `v` in entry `c`. */
  function SetEntry(g: Geometry, img: Image, c: nat, v: U32): (r: Image)
    requires FatFits(g) && g.volend <= |img| && c < g.nFatent
    ensures |r| == |img|
  {
    EntryInFat1(g, c);
    match g.fsType
    case Fat12 => Set12(g, img, c, v)
    case Fat16 => Set16(g, img, c, v)
    case Fat32 => Set32(g, img, c, v)
  }

  lemma SetFatByteFrame(g: Geometry, img: Image, b: nat, x: Byte, d: nat)
    requires FatFits(g) && g.volend <= |img| && b < g.fsize * 512 && d < g.fsize * 512
    ensures FatByte(g, SetFatByte(g, img, b, x), d) == if d == b then x else FatByte(g, img, d)
  {
  }

  lemma Set12Frame(g: Geometry, img: Image, c: nat, v: U32, d: nat)
    requires FatFits(g) && g.volend <= |img| && c + c / 2 + 2 <= g.fsize * 512 && d < g.fsize * 512
    ensures FatByte(g, Set12(g, img, c, v), d) ==
            if d == c + c / 2 then Low12(c, FatByte(g, img, d), v)
            else if d == c + c / 2 + 1 then High12(c, FatByte(g, img, d), v)
            else FatByte(g, img, d)
  {
    hide SetFatByte, FatByte, Low12, High12;
    var b := c + c / 2;
    var x := Low12(c, FatByte(g, img, b), v);
    var r1 := SetFatByte(g, img, b, x);
    var y := High12(c, FatByte(g, r1, b + 1), v);
    assert Set12(g, img, c, v) == SetFatByte(g, r1, b + 1, y);
    SetTwoBytes(g, img, b, x, y, d);
    SetFatByteFrame(g, img, b, x, b + 1);
  }

  lemma SetTwoBytes(g: Geometry, img: Image, b: nat, x: Byte, y: Byte, d: nat)
    requires FatFits(g) && g.volend <= |img| && b + 2 <= g.fsize * 512 && d < g.fsize * 512
    ensures FatByte(g, SetFatByte(g, SetFatByte(g, img, b, x), b + 1, y), d) ==
            if d == b then x else if d == b + 1 then y else FatByte(g, img, d)
  {
    var r1 := SetFatByte(g, img, b, x);
    SetFatByteFrame(g, img, b, x, d);
    SetFatByteFrame(g, r1, b + 1, y, d);
  }

  lemma Set16Frame(g: Geometry, img: Image, c: nat, v: U32, d: nat)
    requires FatFits(g) && g.volend <= |img| && c * 2 + 2 <= g.fsize * 512 && d < g.fsize * 512
    requires !(c * 2 <= d < c * 2 + 2)
    ensures FatByte(g, Set16(g, img, c, v), d) == FatByte(g, img, d)
  {
    var s, o := FatSector(g, c * 2), Off2(c);
    var sec := StWord(img[s], o, v % 0x1_0000);
    assert Set16(g, img, c, v) == Put(g, img, s, sec);
    if d / 512 == c * 2 / 512 {
      OtherOffset(c * 2, 2, d);
      assert sec[d % 512] == img[s][d % 512];
    } else {
      assert FatSector(g, d) != s;
    }
  }

  lemma Set32Frame(g: Geometry, img: Image, c: nat, v: U32, d: nat)
    requires FatFits(g) && g.volend <= |img| && c * 4 + 4 <= g.fsize * 512 && d < g.fsize * 512
    requires !(c * 4 <= d < c * 4 + 4)
    ensures FatByte(g, Set32(g, img, c, v), d) == FatByte(g, img, d)
  {
    var s, o := FatSector(g, c * 4), Off4(c);
    var sec := StDword(img[s], o, Keep4(LdDword(img[s], o), v));
    assert Set32(g, img, c, v) == Put(g, img, s, sec);
    if d / 512 == c * 4 / 512 {
      OtherOffset(c * 4, 4, d);
      assert sec[d % 512] == img[s][d % 512];
    } else {
      assert FatSector(g, d) != s;
    }
  }

  /** The stored double word of a FAT32 entry, top four bits included. */
  function Raw32(g: Geometry, img: Image, c: nat): U32
    requires FatFits(g) && g.volend <= |img| && c * 4 + 4 <= g.fsize * 512
  {
    LdDword(img[FatSector(g, c * 4)], Off4(c))
  }

  lemma Raw32Bytes(g: Geometry, img: Image, c: nat)
    requires FatFits(g) && g.volend <= |img| && c * 4 + 4 <= g.fsize * 512
    ensures Raw32(g, img, c) ==
            FatByte(g, img, c * 4) as int + FatByte(g, img, c * 4 + 1) as int * 0x100
            + FatByte(g, img, c * 4 + 2) as int * 0x1_0000 + FatByte(g, img, c * 4 + 3) as int * 0x100_0000
  {
    SameSector(c * 4, 4, 1);
    SameSector(c * 4, 4, 2);
    SameSector(c * 4, 4, 3);
  }

  lemma Raw16Bytes(g: Geometry, img: Image, c: nat)
    requires FatFits(g) && g.volend <= |img| && c * 2 + 2 <= g.fsize * 512
    ensures LdWord(img[FatSector(g, c * 2)], Off2(c)) ==
            FatByte(g, img, c * 2) as int + FatByte(g, img, c * 2 + 1) as int * 0x100
  {
    SameSector(c * 2, 2, 1);
  }

  lemma Entry32(g: Geometry, img: Image, c: nat)
    requires FatFits(g) && g.volend <= |img| && c < g.nFatent && g.fsType == Fat32
    ensures Entry(g, img, c) == Raw32(g, img, c) % 0x1000_0000
  {
    Raw32Bytes(g, img, c);
  }

  lemma Entry12(g: Geometry, img: Image, c: nat)
    requires FatFits(g) && g.volend <= |img| && c < g.nFatent && g.fsType == Fat12
    ensures c + c / 2 + 2 <= g.fsize * 512
    ensures Entry(g, img, c) == Unpack12(c, FatByte(g, img, c + c / 2), FatByte(g, img, c + c / 2 + 1))
  {
    EntryInFat1(g, c);
  }

  lemma SameAfterSet12(g: Geometry, img: Image, c: nat, v: U32)
    requires FatFits(g) && g.volend <= |img| && g.fsType == Fat12 && c < g.nFatent
    ensures c + c / 2 + 2 <= g.fsize * 512
    ensures Entry(g, Set12(g, img, c, v), c) == v % 0x1000
  {
    Entry12(g, img, c);
    Entry12(g, Set12(g, img, c, v), c);
    var b := c + c / 2;
    Set12Frame(g, img, c, v, b);
    Set12Frame(g, img, c, v, b + 1);
    Pack12(c, FatByte(g, img, b), FatByte(g, img, b + 1), v);
  }

  lemma OtherAfterSet12(g: Geometry, img: Image, c: nat, v: U32, d: nat)
    requires FatFits(g) && g.volend <= |img| && g.fsType == Fat12 && c < g.nFatent && d < g.nFatent && d != c
    ensures c + c / 2 + 2 <= g.fsize * 512
    ensures Entry(g, Set12(g, img, c, v), d) == Entry(g, img, d)
  {
    EntryInFat1(g, c);
    EntryInFat1(g, d);
    UnpackedSame(g, img, c, v, d);
    SameEntry12(g, Set12(g, img, c, v), img, d);
  }

  lemma SameEntry12(g: Geometry, a: Image, b: Image, d: nat)
    requires FatFits(g) && g.volend <= |a| && |a| == |b| && d < g.nFatent && g.fsType == Fat12
    requires d + d / 2 + 2 <= g.fsize * 512
    requires SameUnpacked(g, a, b, d)
    ensures Entry(g, a, d) == Entry(g, b, d)
  {
    Entry12(g, a, d);
    Entry12(g, b, d);
  }

  /** The two bytes of FAT12 entry `d` unpack to the same value in both images. */
  ghost predicate SameUnpacked(g: Geometry, a: Image, b: Image, d: nat)
    requires FatFits(g) && g.volend <= |a| && g.volend <= |b| && d + d / 2 + 2 <= g.fsize * 512
  {
    Unpack12(d, FatByte(g, a, d + d / 2), FatByte(g, a, d + d / 2 + 1)) ==
    Unpack12(d, FatByte(g, b, d + d / 2), FatByte(g, b, d + d / 2 + 1))
  }

  lemma UnpackedSame(g: Geometry, img: Image, c: nat, v: U32, d: nat)
    requires FatFits(g) && g.volend <= |img| && c + c / 2 + 2 <= g.fsize * 512
    requires d + d / 2 + 2 <= g.fsize * 512 && d != c
    ensures SameUnpacked(g, Set12(g, img, c, v), img, d)
  {
    hide Set12, FatByte;
    var b := d + d / 2;
    Bytes12(g, img, c, v, b, d);
    Neighbour12(c, d, FatByte(g, img, b), FatByte(g, img, b + 1), v);
  }

  lemma Bytes12(g: Geometry, img: Image, c: nat, v: U32, b: nat, d: nat)
    requires FatFits(g) && g.volend <= |img| && c + c / 2 + 2 <= g.fsize * 512
    requires b == d + d / 2 && b + 2 <= g.fsize * 512 && d != c
    ensures FatByte(g, Set12(g, img, c, v), b) ==
            if b == c + c / 2 + 1 then High12(c, FatByte(g, img, b), v) else FatByte(g, img, b)
    ensures FatByte(g, Set12(g, img, c, v), b + 1) ==
            if b + 1 == c + c / 2 then Low12(c, FatByte(g, img, b + 1), v) else FatByte(g, img, b + 1)
  {
    Neighbour12(c, d, 0, 0, v);
    Set12Frame(g, img, c, v, b);
    Set12Frame(g, img, c, v, b + 1);
  }

  lemma AfterSet16(g: Geometry, img: Image, c: nat, v: U32, d: nat)
    requires FatFits(g) && g.volend <= |img| && g.fsType == Fat16 && c < g.nFatent && d < g.nFatent
    ensures Entry(g, Set16(g, img, c, v), d) == if d == c then v % 0x1_0000 else Entry(g, img, d)
  {
    var r := Set16(g, img, c, v);
    if d == c {
      Raw16Bytes(g, r, c);
    } else {
      Set16Frame(g, img, c, v, d * 2);
      Set16Frame(g, img, c, v, d * 2 + 1);
    }
  }

  lemma SameAfterSet32(g: Geometry, img: Image, c: nat, v: U32)
    requires FatFits(g) && g.volend <= |img| && g.fsType == Fat32 && c < g.nFatent
    ensures Entry(g, Set32(g, img, c, v), c) == v % 0x1000_0000
    ensures Raw32(g, Set32(g, img, c, v), c) / 0x1000_0000 == Raw32(g, img, c) / 0x1000_0000
  {
    var r := Set32(g, img, c, v);
    assert Raw32(g, r, c) == Keep4(Raw32(g, img, c), v);
    Entry32(g, r, c);
  }

  lemma OtherAfterSet32(g: Geometry, img: Image, c: nat, v: U32, d: nat)
    requires FatFits(g) && g.volend <= |img| && g.fsType == Fat32 && c < g.nFatent && d < g.nFatent && d != c
    ensures Entry(g, Set32(g, img, c, v), d) == Entry(g, img, d)
  {
    hide Set32, Raw32, FatByte;
    var r := Set32(g, img, c, v);
    assert Raw32(g, r, d) == Raw32(g, img, d) by {
      Raw32Bytes(g, r, d);
      Raw32Bytes(g, img, d);
      Set32Frame(g, img, c, v, d * 4);
      Set32Frame(g, img, c, v, d * 4 + 1);
      Set32Frame(g, img, c, v, d * 4 + 2);
      Set32Frame(g, img, c, v, d * 4 + 3);
    }
    Entry32(g, r, d);
    Entry32(g, img, d);
  }

  /** Storing an entry then loading gives the value cut to the entry's width; every other entry,
      also the neighbour that shares a byte, keeps its value; FAT32 keeps the top four stored bits. */
  lemma EntryAfterSet(g: Geometry, img: Image, c: nat, v: U32, d: nat)
    requires FatFits(g) && g.volend <= |img| && c < g.nFatent && d < g.nFatent
    ensures Entry(g, SetEntry(g, img, c, v), d) == if d == c then Cut(g.fsType, v) else Entry(g, img, d)
    ensures g.fsType == Fat32 ==>
              Raw32(g, SetEntry(g, img, c, v), c) / 0x1000_0000 == Raw32(g, img, c) / 0x1000_0000
  {
    match g.fsType
    case Fat12 =>
      if d == c {
        SameAfterSet12(g, img, c, v);
      } else {
        OtherAfterSet12(g, img, c, v, d);
      }
    case Fat16 => AfterSet16(g, img, c, v, d);
    case Fat32 =>
      SameAfterSet32(g, img, c, v);
      if d != c {
        OtherAfterSet32(g, img, c, v, d);
      }
  }

  /** Unpacking of a FAT12 entry from its two bytes. */
  function Unpack12(c: nat, p: Byte, q: Byte): int {
    var w := p as int + q as int * 0x100;
    if c % 2 == 1 then w / 16 else w % 0x1000
  }

  /** Writing entry `c` into a byte shared with entry `d` keeps the half that belongs to `d`. */
  lemma Neighbour12(c: nat, d: nat, p: Byte, q: Byte, v: U32)
    requires c != d
    ensures Unpack12(d,
                     if d + d / 2 == c + c / 2 + 1 then High12(c, p, v) else p,
                     if d + d / 2 + 1 == c + c / 2 then Low12(c, q, v) else q) == Unpack12(d, p, q)
    ensures d + d / 2 != c + c / 2
  {
    var k, j := c / 2, d / 2;
    assert c == 2 * k || c == 2 * k + 1;
    assert d == 2 * j || d == 2 * j + 1;
    if d + d / 2 == c + c / 2 + 1 {
      assert c == 2 * k && d == c + 1;
      SharedHigh(p, q, v);
    } else if d + d / 2 + 1 == c + c / 2 {
      assert d == 2 * j && c == d + 1;
      SharedLow(p, q, v);
    }
  }

  lemma SharedHigh(p: Byte, q: Byte, v: U32)
    ensures Unpack12(1, High12(0, p, v), q) == Unpack12(1, p, q)
  {
    var x: int, n := High12(0, p, v), v / 0x100 % 16;
    By16(x + q * 0x100, p / 16 + q * 16, n);
    By16(p + q * 0x100, p / 16 + q * 16, p % 16);
  }

  lemma SharedLow(p: Byte, q: Byte, v: U32)
    ensures Unpack12(0, p, Low12(1, q, v)) == Unpack12(0, p, q)
  {
    var x: int, y: int := Low12(1, q, v), q;
    By4096(p + x * 0x100, v % 16, p + q % 16 * 0x100);
    By4096(p + y * 0x100, q / 16, p + q % 16 * 0x100);
  }

  /** As a table: exactly one entry changes. */
  lemma TableAfterSet(g: Geometry, img: Image, c: nat, v: U32)
    requires FatFits(g) && g.volend <= |img| && c < g.nFatent
    ensures Table(g, SetEntry(g, img, c, v)) == Table(g, img)[c := Cut(g.fsType, v)]
  {
    forall d | 0 <= d < g.nFatent
      ensures Entry(g, SetEntry(g, img, c, v), d) == if d == c then Cut(g.fsType, v) else Entry(g, img, d)
    {
      EntryAfterSet(g, img, c, v, d);
    }
  }

  /** `b` is `a` with some FAT sectors changed, and as well mirrored as `a`. */
  ghost predicate OnlyFatChanged(g: Geometry, a: Image, b: Image)
    requires FatFits(g) && g.volend <= |a|
  {
    && |b| == |a|
    && (forall s :: 0 <= s < |a| && !(g.fatbase <= s < g.fatbase + FatArea(g)) ==> b[s] == a[s])
    && (Mirrored(g, a) ==> Mirrored(g, b))
  }

  lemma PutInFat(g: Geometry, img: Image, s: nat, sec: Sector)
    requires FatFits(g) && g.volend <= |img| && InFat1(g, s)
    ensures OnlyFatChanged(g, img, Put(g, img, s, sec))
  {
  }

  lemma SetFatByteSectors(g: Geometry, img: Image, b: nat, x: Byte)
    requires FatFits(g) && g.volend <= |img| && b < g.fsize * 512
    ensures OnlyFatChanged(g, img, SetFatByte(g, img, b, x))
  {
    var s := FatSector(g, b);
    PutInFat(g, img, s, img[s][b % 512 := x]);
  }

  lemma OnlyFatChangedTransitive(g: Geometry, a: Image, b: Image, c: Image)
    requires FatFits(g) && g.volend <= |a|
    requires OnlyFatChanged(g, a, b) && OnlyFatChanged(g, b, c)
    ensures OnlyFatChanged(g, a, c)
  {
  }

  /** Storing an entry touches FAT sectors only and keeps the two copies equal. */
  lemma SetEntrySectors(g: Geometry, img: Image, c: nat, v: U32)
    requires FatFits(g) && g.volend <= |img| && c < g.nFatent
    ensures OnlyFatChanged(g, img, SetEntry(g, img, c, v))
  {
    EntryInFat1(g, c);
    var b := EntryOffset(g.fsType, c);
    var s := FatSector(g, b);
    match g.fsType
    case Fat12 =>
      var x := Low12(c, FatByte(g, img, b), v);
      var r1 := SetFatByte(g, img, b, x);
      var y := High12(c, FatByte(g, r1, b + 1), v);
      SetFatByteSectors(g, img, b, x);
      SetFatByteSectors(g, r1, b + 1, y);
      OnlyFatChangedTransitive(g, img, r1, SetFatByte(g, r1, b + 1, y));
    case Fat16 =>
      PutInFat(g, img, s, StWord(img[s], Off2(c), v % 0x1_0000));
    case Fat32 =>
      PutInFat(g, img, s, StDword(img[s], Off4(c), Keep4(LdDword(img[s], Off4(c)), v)));
  }

  /** An aligned 2- or 4-byte entry does not cross a sector boundary. */
  lemma SameSector(b: nat, n: nat, k: nat)
    requires (n == 2 && b % 2 == 0) || (n == 4 && b % 4 == 0)
    requires k < n
    ensures b % 512 + n <= 512
    ensures (b + k) / 512 == b / 512 && (b + k) % 512 == b % 512 + k
  {
    var q, r := b / 512, b % 512;
    assert b == 512 * q + r;
    if n == 2 {
      var m := b / 2;
      assert r == 2 * (m - 256 * q);
    } else {
      var m := b / 4;
      assert r == 4 * (m - 128 * q);
    }
    assert b + k == 512 * q + (r + k);
  }

  lemma OtherOffset(b: nat, n: nat, d: nat)
    requires d / 512 == b / 512 && !(b <= d < b + n)
    ensures !(b % 512 <= d % 512 < b % 512 + n)
  {
    assert b == 512 * (b / 512) + b % 512;
    assert d == 512 * (d / 512) + d % 512;
  }

  /** Quotient and remainder by 16, 0x100 and 0x1000 from their defining sums. */
  lemma By16(v: int, q: int, d: int)
    requires v == 16 * q + d && 0 <= d < 16
    ensures v / 16 == q && v % 16 == d
  {
  }

  lemma By256(v: int, q: int, d: int)
    requires v == 0x100 * q + d && 0 <= d < 0x100
    ensures v / 0x100 == q && v % 0x100 == d
  {
  }

  lemma By4096(v: int, q: int, d: int)
    requires v == 0x1000 * q + d && 0 <= d < 0x1000
    ensures v / 0x1000 == q && v % 0x1000 == d
  {
  }

  lemma Digits(v: nat)
    ensures v % 16 + v / 16 % 0x100 * 16 == v % 0x1000
    ensures v % 0x100 + v / 0x100 % 16 * 0x100 == v % 0x1000
  {
    var q, r := v / 0x1000, v % 0x1000;
    var r4, r8 := r / 16, r / 0x100;
    var d4, d8 := r - 16 * r4, r - 0x100 * r8;
    By16(v, 0x100 * q + r4, d4);
    By256(0x100 * q + r4, q, r4);
    By256(v, 16 * q + r8, d8);
    By16(16 * q + r8, q, r8);
  }

  lemma Pack12(c: nat, p: Byte, q: Byte, v: U32)
    ensures Unpack12(c, Low12(c, p, v), High12(c, q, v)) == v % 0x1000
  {
    Digits(v);
    var x: int, y: int := Low12(c, p, v), High12(c, q, v);
    if c % 2 == 1 {
      By16(x + y * 0x100, v % 16 + y * 16, p % 16);
    } else {
      By4096(x + y * 0x100, q / 16, v % 0x100 + v / 0x100 % 16 * 0x100);
    }
  }
}
