/** Bytes, 32-bit words and the little-endian loads and stores every on-disk structure uses. */
module Bytes {

  type Byte = x: int | 0 <= x < 0x100
  type U16 = x: int | 0 <= x < 0x1_0000
  type U32 = x: int | 0 <= x < 0x1_0000_0000

  const TWO32: int := 0x1_0000_0000

  /** Unsigned 32-bit subtraction, wrapping as in C. */
  function Sub32(a: U32, b: U32): (r: U32)
    ensures a >= b ==> r == a - b
    ensures a < b ==> r == a - b + TWO32
  {
    (a - b) % 0x1_0000_0000
  }

  function LdWord(s: seq<Byte>, i: nat): (v: U16)
    requires i + 2 <= |s|
  {
    s[i] as int + s[i + 1] as int * 0x100
  }

  function LdDword(s: seq<Byte>, i: nat): (v: U32)
    requires i + 4 <= |s|
  {
    s[i] as int + s[i + 1] as int * 0x100 + s[i + 2] as int * 0x1_0000 + s[i + 3] as int * 0x100_0000
  }

  function StWord(s: seq<Byte>, i: nat, v: U16): (t: seq<Byte>)
    requires i + 2 <= |s|
    ensures |t| == |s|
    ensures LdWord(t, i) == v
    ensures forall j :: 0 <= j < |s| && !(i <= j < i + 2) ==> t[j] == s[j]
  {
    s[i := v % 0x100][i + 1 := v / 0x100]
  }

  function StDword(s: seq<Byte>, i: nat, v: U32): (t: seq<Byte>)
    requires i + 4 <= |s|
    ensures |t| == |s|
    ensures LdDword(t, i) == v
    ensures forall j :: 0 <= j < |s| && !(i <= j < i + 4) ==> t[j] == s[j]
  {
    var v1 := v / 0x100;
    var v2 := v1 / 0x100;
    s[i := v % 0x100][i + 1 := v1 % 0x100][i + 2 := v2 % 0x100][i + 3 := v2 / 0x100]
  }

  /** Storing a double word keeps every byte of any other aligned or disjoint field. */
  lemma StDwordKeeps(s: seq<Byte>, i: nat, v: U32, j: nat)
    requires i + 4 <= |s| && j + 4 <= |s|
    requires j + 4 <= i || i + 4 <= j
    ensures LdDword(StDword(s, i, v), j) == LdDword(s, j)
  {
    var t := StDword(s, i, v);
    assert t[j] == s[j] && t[j + 1] == s[j + 1] && t[j + 2] == s[j + 2] && t[j + 3] == s[j + 3];
  }

  /** In-place stores, as `st_word` and `st_dword` do them: low byte first, shifting the value. */
  method StoreWord(a: array<Byte>, i: nat, v: U16)
    requires i + 2 <= a.Length
    modifies a
    ensures a[..] == StWord(old(a[..]), i, v)
  {
    a[i] := v % 0x100;
    a[i + 1] := v / 0x100;
  }

  method StoreDword(a: array<Byte>, i: nat, v: U32)
    requires i + 4 <= a.Length
    modifies a
    ensures a[..] == StDword(old(a[..]), i, v)
  {
    var w: U32 := v;
    a[i] := w % 0x100;
    w := w / 0x100;
    a[i + 1] := w % 0x100;
    w := w / 0x100;
    a[i + 2] := w % 0x100;
    w := w / 0x100;
    a[i + 3] := w;
  }

  method LoadWord(a: array<Byte>, i: nat) returns (v: U16)
    requires i + 2 <= a.Length
    ensures v == LdWord(a[..], i)
  {
    v := a[i + 1];
    v := v * 0x100 + a[i];
  }

  method LoadDword(a: array<Byte>, i: nat) returns (v: U32)
    requires i + 4 <= a.Length
    ensures v == LdDword(a[..], i)
  {
    v := a[i + 3];
    v := v * 0x100 + a[i + 2];
    v := v * 0x100 + a[i + 1];
    v := v * 0x100 + a[i];
  }
}
