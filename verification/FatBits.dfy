/** The FAT as a row of bits: entry number `c` of a FAT with entries of `w` bits starts at bit `w * c`. */
module FatBits {
  import opened Bytes
  import opened Geometry
  import opened FatTable

  function Power2(n: nat): (r: nat)
    ensures r > 0
  {
    if n == 0 then 1 else 2 * Power2(n - 1)
  }

  /** Bit `i` of a number, bit 0 being the lowest. */
  function Bit(v: nat, i: nat): nat { v / Power2(i) % 2 }

  /** Bit `j` of FAT1: its bytes in the order of the device, each from its lowest bit up. */
  function FatBit(g: Geometry, img: Image, j: nat): nat
    requires FatFits(g) && g.volend <= |img| && j < 4096 * g.fsize
  {
    Bit(img[g.fatbase + j / 4096][j / 8 % 512], j % 8)
  }

  function BitsPerEntry(ty: FsType): nat {
    match ty
    case Fat12 => 12
    case Fat16 => 16
    case Fat32 => 32
  }

  /** The bits of an entry that count. */
  function BitsUsed(ty: FsType): nat {
    match ty
    case Fat12 => 12
    case Fat16 => 16
    case Fat32 => 28
  }

  // ---------------------------------------------------------------- numbers and their bits

  lemma DivUnique(v: nat, m: nat, q: nat, r: nat)
    requires r < m && v == m * q + r
    ensures v / m == q && v % m == r
  {
    var p, s := v / m, v % m;
    assert v == m * p + s;
    assert m * (p + 1) == m * p + m && m * (q + 1) == m * q + m;
    if p < q { MulMono(m, p + 1, q); } else if q < p { MulMono(m, q + 1, p); }
  }

  lemma Regroup(x: nat, y: nat)
    ensures 2 * (x * y) == 2 * x * y
  {
  }

  lemma {:induction false} PowerSum(a: nat, b: nat)
    ensures Power2(a + b) == Power2(a) * Power2(b)
    decreases a
  {
    if a > 0 {
      PowerSum(a - 1, b);
      Double(a);
      Double(a + b);
      hide Power2;
      Regroup(Power2(a - 1), Power2(b));
    }
  }

  /** Adding a multiple of a higher power leaves a bit alone. */
  lemma LowBit(q: nat, r: nat, m: nat, k: nat)
    requires m > 0
    ensures (m * (2 * k) * q + r) / m % 2 == r / m % 2
  {
    var a, b, t := r / m, r % m, k * q;
    assert r == m * a + b;
    assert m * (2 * k) * q == m * (2 * t);
    assert m * (2 * t + a) == m * (2 * t) + m * a;
    DivUnique(m * (2 * k) * q + r, m, 2 * t + a, b);
  }

  /** Dividing by a power moves the bits down. */
  lemma HighPart(q: nat, r: nat, p: nat, m: nat)
    requires r < p && m > 0
    ensures p * m > 0 && (p * q + r) / (p * m) == q / m
  {
    var x, y := q / m, q % m;
    assert q == m * x + y;
    assert p * (m * x + y) == p * (m * x) + p * y;
    assert p * (m * x) == p * m * x;
    MulMono(p, y + 1, m);
    assert p * (y + 1) == p * y + p;
    DivUnique(p * q + r, p * m, x, p * y + r);
  }

  lemma BitOfSum(q: nat, r: nat, n: nat, i: nat)
    requires r < Power2(n)
    ensures i < n ==> Bit(Power2(n) * q + r, i) == Bit(r, i)
    ensures i >= n ==> Bit(Power2(n) * q + r, i) == Bit(q, i - n)
  {
    if i < n {
      LowBits(q, r, n, i);
    } else {
      hide Power2;
      PowerSum(n, i - n);
      HighPart(q, r, Power2(n), Power2(i - n));
    }
  }

  lemma LowBits(q: nat, r: nat, n: nat, i: nat)
    requires i < n
    ensures Bit(Power2(n) * q + r, i) == Bit(r, i)
  {
    hide Power2;
    var m, k := Power2(i), Power2(n - i - 1);
    PowerSum(i, n - i);
    Double(n - i);
    assert Power2(n) == m * (2 * k);
    LowBit(q, r, m, k);
  }

  lemma Double(n: nat)
    requires n > 0
    ensures Power2(n) == 2 * Power2(n - 1)
  {
  }

  /** Bits of a quotient and of a remainder. */
  lemma BitOfPart(v: nat, n: nat, q: nat, r: nat, i: nat)
    requires r < Power2(n) && v == Power2(n) * q + r
    ensures i < n ==> Bit(r, i) == Bit(v, i)
    ensures Bit(q, i) == Bit(v, n + i)
  {
    hide Bit;
    BitOfSum(q, r, n, i);
    BitOfSum(q, r, n, n + i);
  }

  /** A number from its bytes, the lowest first. */
  function Number(b: seq<Byte>): nat {
    if b == [] then 0 else b[0] as int + 0x100 * Number(b[1..])
  }

  lemma {:induction false} NumberBit(b: seq<Byte>, j: nat)
    requires j < 8 * |b|
    ensures Bit(Number(b), j) == Bit(b[j / 8], j % 8)
    decreases |b|
  {
    Power8();
    BitOfSum(Number(b[1..]), b[0], 8, j);
    if j >= 8 {
      NumberBit(b[1..], j - 8);
      assert j / 8 == (j - 8) / 8 + 1 && j % 8 == (j - 8) % 8;
      assert b[1..][(j - 8) / 8] == b[j / 8];
    } else {
      assert j / 8 == 0 && j % 8 == j;
    }
  }

  lemma Power8()
    ensures Power2(8) == 0x100 && Power2(4) == 16 && Power2(12) == 0x1000
    ensures Power2(16) == 0x1_0000 && Power2(28) == 0x1000_0000
  {
    assert Power2(4) == 16;
    PowerSum(4, 4);
    PowerSum(8, 4);
    PowerSum(8, 8);
    PowerSum(16, 12);
  }

  // ---------------------------------------------------------------- entries

  /** The bytes of FAT1 from byte `b` on. */
  function FatBytes(g: Geometry, img: Image, b: nat, n: nat): (s: seq<Byte>)
    requires FatFits(g) && g.volend <= |img| && b + n <= g.fsize * 512
    ensures |s| == n
  {
    seq<Byte>(n, k requires 0 <= k < n => FatByte(g, img, b + k))
  }

  lemma FatBytesBit(g: Geometry, img: Image, b: nat, n: nat, j: nat)
    requires FatFits(g) && g.volend <= |img| && b + n <= g.fsize * 512 && j < 8 * n
    ensures Bit(Number(FatBytes(g, img, b, n)), j) == FatBit(g, img, 8 * b + j)
  {
    hide Bit, Number;
    var s := FatBytes(g, img, b, n);
    NumberBit(s, j);
    Places(b, j);
    assert s[j / 8] == FatByte(g, img, b + j / 8);
    assert s[j / 8] == img[g.fatbase + (8 * b + j) / 4096][(8 * b + j) / 8 % 512];
  }

  lemma Places(b: nat, j: nat)
    ensures (8 * b + j) / 8 == b + j / 8 && (8 * b + j) % 8 == j % 8 && (8 * b + j) / 4096 == (b + j / 8) / 512
  {
    assert (8 * b + j) / 8 == b + j / 8;
    var k := b + j / 8;
    assert 8 * b + j == 4096 * (k / 512) + (8 * (k % 512) + j % 8);
  }

  lemma Number2(b: seq<Byte>)
    requires |b| == 2
    ensures Number(b) == b[0] as int + 0x100 * b[1] as int
  {
    assert Number(b[1..]) == b[1] as int + 0x100 * Number(b[1..][1..]);
  }

  lemma Number4(b: seq<Byte>)
    requires |b| == 4
    ensures Number(b) == b[0] as int + 0x100 * b[1] as int + 0x1_0000 * b[2] as int + 0x100_0000 * b[3] as int
  {
    var c := b[2..];
    Number2(c);
    assert b[1..][1..] == c;
    assert Number(b[1..]) == b[1] as int + 0x100 * Number(c);
  }

  /** Entry `c` is the number whose bits are the bits of the FAT from `w * c` on, `w` being 12, 16 or 32; of the
      32 bits of a FAT32 entry the lowest 28 count. */
  lemma EntryBits(g: Geometry, img: Image, c: nat, i: nat)
    requires FatFits(g) && g.volend <= |img| && c < g.nFatent && i < BitsUsed(g.fsType)
    ensures BitsPerEntry(g.fsType) * c + i < 4096 * g.fsize
    ensures Bit(Entry(g, img, c), i) == FatBit(g, img, BitsPerEntry(g.fsType) * c + i)
    ensures Entry(g, img, c) < Power2(BitsUsed(g.fsType))
  {
    hide Bit, FatBit, Power2, Entry, FatFits;
    match g.fsType
    case Fat12 => EntryBits12(g, img, c, i);
    case Fat16 => EntryBits16(g, img, c, i);
    case Fat32 => EntryBits32(g, img, c, i);
  }

  lemma EntryBits12(g: Geometry, img: Image, c: nat, i: nat)
    requires FatFits(g) && g.volend <= |img| && c < g.nFatent && g.fsType == Fat12 && i < 12
    ensures 12 * c + i < 4096 * g.fsize
    ensures Bit(Entry(g, img, c), i) == FatBit(g, img, 12 * c + i) && Entry(g, img, c) < Power2(12)
  {
    hide Bit, FatBit, Power2, Number, FatFits;
    EntryInFat1(g, c);
    Power8();
    var b, j := c + c / 2, c % 2;
    assert 12 * c == 8 * b + 4 * j;
    Entry12Is(g, img, c);
    HalfBits(Number(FatBytes(g, img, b, 2)), j, i);
    FatBytesBit(g, img, b, 2, 4 * j + i);
  }

  lemma Entry12Is(g: Geometry, img: Image, c: nat)
    requires FatFits(g) && g.volend <= |img| && c < g.nFatent && g.fsType == Fat12
    ensures c + c / 2 + 2 <= g.fsize * 512
    ensures var v := Number(FatBytes(g, img, c + c / 2, 2));
            Entry(g, img, c) == (if c % 2 == 1 then v / 16 else v % 0x1000) && v < 0x1_0000
  {
    hide Number, FatFits;
    EntryInFat1(g, c);
    Number2(FatBytes(g, img, c + c / 2, 2));
  }

  /** The upper 12 of 16 bits, and the lower 12. */
  lemma HalfBits(v: nat, j: nat, i: nat)
    requires j < 2
    ensures Bit(if j == 1 then v / 16 else v % 0x1000, i) == Bit(v, 4 * j + i) || (j == 0 && i >= 12)
  {
    hide Bit, Power2;
    Power8();
    if j == 1 {
      BitOfPart(v, 4, v / 16, v % 16, i);
    } else {
      BitOfPart(v, 12, v / 0x1000, v % 0x1000, i);
    }
  }

  lemma EntryBits16(g: Geometry, img: Image, c: nat, i: nat)
    requires FatFits(g) && g.volend <= |img| && c < g.nFatent && g.fsType == Fat16 && i < 16
    ensures 16 * c + i < 4096 * g.fsize
    ensures Bit(Entry(g, img, c), i) == FatBit(g, img, 16 * c + i) && Entry(g, img, c) < Power2(16)
  {
    EntryInFat1(g, c);
    hide Bit, FatBit, Power2, Number, FatFits;
    FatBytesBit(g, img, c * 2, 2, i);
    Number2(FatBytes(g, img, c * 2, 2));
    Power8();
  }

  lemma EntryBits32(g: Geometry, img: Image, c: nat, i: nat)
    requires FatFits(g) && g.volend <= |img| && c < g.nFatent && g.fsType == Fat32 && i < 28
    ensures 32 * c + i < 4096 * g.fsize
    ensures Bit(Entry(g, img, c), i) == FatBit(g, img, 32 * c + i) && Entry(g, img, c) < Power2(28)
  {
    hide Bit, FatBit, Power2, Number, FatFits, Entry, FatBytes;
    Power8();
    Entry32Is(g, img, c);
    var v := Number(FatBytes(g, img, c * 4, 4));
    BitOfPart(v, 28, v / 0x1000_0000, v % 0x1000_0000, i);
    FatBytesBit(g, img, c * 4, 4, i);
  }

  lemma Entry32Is(g: Geometry, img: Image, c: nat)
    requires FatFits(g) && g.volend <= |img| && c < g.nFatent && g.fsType == Fat32
    ensures c * 4 + 4 <= g.fsize * 512
    ensures Entry(g, img, c) == Number(FatBytes(g, img, c * 4, 4)) % 0x1000_0000
  {
    hide Number, FatFits;
    EntryInFat1(g, c);
    Number4(FatBytes(g, img, c * 4, 4));
  }
}
