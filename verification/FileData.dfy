/** The bytes of a file: the sectors its cluster chain stands for, read off an image. */
module FileData {
  import opened Bytes
  import opened Geometry
  import opened FatTable
  import opened Chains
  import opened Volume

  function Consecutive(base: int, n: nat): (r: seq<int>)
    ensures |r| == n
    ensures forall i :: 0 <= i < n ==> r[i] == base + i
  {
    seq(n, i => base + i)
  }

  /** The sectors of the clusters `cs`, in file order. */
  function Sectors(g: Geometry, cs: seq<nat>): (r: seq<int>)
    ensures |r| == g.csize * |cs|
  {
    if cs == [] then [] else
      var last := |cs| - 1;
      assert g.csize * |cs| == g.csize * last + g.csize;
      Sectors(g, cs[..last]) + Consecutive(ClusterBase(g, cs[last]), g.csize)
  }

  lemma SectorsGrow(g: Geometry, cs: seq<nat>, c: nat)
    ensures Sectors(g, cs + [c]) == Sectors(g, cs) + Consecutive(ClusterBase(g, c), g.csize)
  {
    assert (cs + [c])[..|cs|] == cs;
  }

  /** Sector `r` of the `q`-th cluster. */
  lemma {:induction false} SectorsAt(g: Geometry, cs: seq<nat>, q: nat, r: nat)
    requires q < |cs| && r < g.csize
    ensures 0 <= g.csize * q + r < |Sectors(g, cs)|
    ensures Sectors(g, cs)[g.csize * q + r] == ClusterBase(g, cs[q]) + r
    decreases |cs|
  {
    var last := |cs| - 1;
    MulMono(g.csize, 0, q);
    if q < last {
      MulMono(g.csize, q + 1, last);
      assert g.csize * (q + 1) == g.csize * q + g.csize;
      SectorsAt(g, cs[..last], q, r);
    }
  }

  /** Every index into the sectors is some sector of some cluster of the chain. */
  lemma SectorIndex(g: Geometry, cs: seq<nat>, k: nat) returns (q: nat, r: nat)
    requires 0 < g.csize && k < |Sectors(g, cs)|
    ensures k == g.csize * q + r && q < |cs| && r < g.csize
    ensures Sectors(g, cs)[k] == ClusterBase(g, cs[q]) + r
  {
    q, r := DivMod(k, g.csize);
    if q >= |cs| {
      MulMono(g.csize, |cs|, q);
    }
    SectorsAt(g, cs, q, r);
  }

  lemma DivMod(k: nat, c: nat) returns (q: nat, r: nat)
    requires c > 0
    ensures q == k / c && r == k % c && k == c * q + r && r < c
  {
    q, r := k / c, k % c;
  }

  lemma DivModUnique(k: nat, c: nat, q: nat, r: nat)
    requires r < c && k == c * q + r
    ensures k / c == q && k % c == r
  {
    var q', r' := DivMod(k, c);
    assert c * (q' + 1) == c * q' + c && c * (q + 1) == c * q + c;
    if q' < q {
      MulMono(c, q' + 1, q);
    } else if q < q' {
      MulMono(c, q + 1, q');
    }
  }

  ghost predicate Distinct(secs: seq<int>) {
    forall i, j :: 0 <= i < j < |secs| ==> secs[i] != secs[j]
  }

  lemma SectorsDistinct(g: Geometry, t: seq<U32>, cs: seq<nat>)
    requires IsPow2Byte(g.csize) && (cs == [] || IsChain(t, cs))
    ensures Distinct(Sectors(g, cs))
  {
    var secs := Sectors(g, cs);
    forall i, j | 0 <= i < j < |secs| ensures secs[i] != secs[j] {
      var q, r := SectorIndex(g, cs, i);
      var p, s := SectorIndex(g, cs, j);
      if secs[i] == secs[j] {
        ClustersDisjoint(g, cs[q], cs[p], secs[i]);
        if q < p {
          ChainDistinct(t, cs, q, p);
        } else if p < q {
          ChainDistinct(t, cs, p, q);
        }
      }
    }
  }

  /** All data sectors of a chain lie in the data area of the volume. */
  ghost predicate InArea(g: Geometry, secs: seq<int>) {
    forall k :: 0 <= k < |secs| ==> g.database <= secs[k] < g.volend
  }

  lemma SectorsInArea(g: Geometry, t: seq<U32>, cs: seq<nat>)
    requires WellFormed(g) && |t| == g.nFatent && Links(t, cs)
    ensures InArea(g, Sectors(g, cs))
  {
    var secs := Sectors(g, cs);
    forall k | 0 <= k < |secs| ensures g.database <= secs[k] < g.volend {
      var q, r := SectorIndex(g, cs, k);
      ClusterInVolume(g, cs[q]);
    }
  }

  /** The first `n` bytes stored in the sectors `secs` of an image. */
  function Content(view: Image, secs: seq<int>, n: nat): (d: seq<Byte>)
    requires n <= 512 * |secs| && forall k :: 0 <= k < |secs| ==> 0 <= secs[k] < |view|
    ensures |d| == n
    ensures forall i :: 0 <= i < n ==> d[i] == view[secs[i / 512]][i % 512]
  {
    seq(n, i requires 0 <= i < n => view[secs[i / 512]][i % 512])
  }

  /** `w` written over `d` at position `p`, growing `d` when it reaches past its end. */
  function Splice(d: seq<Byte>, p: nat, w: seq<Byte>): (r: seq<Byte>)
    requires p <= |d|
    ensures |r| == if p + |w| > |d| then p + |w| else |d|
    ensures forall i :: 0 <= i < |r| ==> r[i] == if p <= i < p + |w| then w[i - p] else d[i]
  {
    d[..p] + w + if p + |w| < |d| then d[p + |w|..] else []
  }

  lemma SpliceTwice(d: seq<Byte>, p: nat, a: seq<Byte>, b: seq<Byte>)
    requires p <= |d|
    ensures Splice(Splice(d, p, a), p + |a|, b) == Splice(d, p, a + b)
  {
  }

  lemma SpliceNothing(d: seq<Byte>, p: nat)
    requires p <= |d|
    ensures Splice(d, p, []) == d
  {
  }

  lemma SpliceMore(d: seq<Byte>, p: nat, w: seq<Byte>, n: nat, m: nat)
    requires p <= |d| && n + m <= |w|
    ensures Splice(Splice(d, p, w[..n]), p + n, w[n..n + m]) == Splice(d, p, w[..n + m])
  {
    SpliceTwice(d, p, w[..n], w[n..n + m]);
    assert w[..n] + w[n..n + m] == w[..n + m];
  }

  ghost predicate Fits(view: Image, secs: seq<int>, n: nat) {
    n <= 512 * |secs| && forall k :: 0 <= k < |secs| ==> 0 <= secs[k] < |view|
  }

  /** Changing one sector of the file so that it carries `w` at position `p` splices the bytes. */
  lemma ContentOneSector(view: Image, secs: seq<int>, n: nat, k: nat, sec: Sector, p: nat, w: seq<Byte>, m: nat)
    requires Distinct(secs) && Fits(view, secs, n) && k < |secs| && m <= 512 * |secs|
    requires p / 512 == k && p % 512 + |w| <= 512 && p <= n
    requires m == if p + |w| > n then p + |w| else n
    requires forall j :: 0 <= j < |w| ==> sec[p % 512 + j] == w[j]
    requires forall j :: 0 <= j < 512 && 512 * k + j < n && !(p % 512 <= j < p % 512 + |w|) ==>
                           sec[j] == view[secs[k]][j]
    ensures Content(view[secs[k] := sec], secs, m) == Splice(Content(view, secs, n), p, w)
  {
    var c, s := Content(view[secs[k] := sec], secs, m), Splice(Content(view, secs, n), p, w);
    assert p == 512 * k + p % 512;
    forall i | 0 <= i < m ensures c[i] == s[i] {
      var j := i % 512;
      assert i == 512 * (i / 512) + j;
      if i / 512 == k {
        if p <= i < p + |w| {
          assert sec[p % 512 + (i - p)] == w[i - p];
        }
      } else {
        assert secs[i / 512] != secs[k];
      }
    }
  }

  /** The `cc` sectors from index `k` on are consecutive on the device. */
  ghost predicate Adjacent(secs: seq<int>, k: nat, cc: nat)
    requires k + cc <= |secs|
  {
    forall i :: k <= i < k + cc ==> secs[i] == secs[k] + (i - k)
  }

  /** Overwriting whole consecutive sectors of the file splices the bytes. */
  lemma ContentManySectors(view: Image, secs: seq<int>, n: nat, k: nat, cc: nat, src: seq<Byte>, off: nat, m: nat)
    requires Distinct(secs) && Fits(view, secs, n) && k + cc <= |secs| && m <= 512 * |secs|
    requires 512 * k <= n && off + 512 * cc <= |src| && 0 < cc
    requires Adjacent(secs, k, cc)
    requires m == if 512 * k + 512 * cc > n then 512 * k + 512 * cc else n
    ensures secs[k] + cc <= |view|
    ensures Content(WriteRange(view, secs[k], cc, src, off), secs, m)
            == Splice(Content(view, secs, n), 512 * k, src[off..off + 512 * cc])
  {
    assert secs[k + (cc - 1)] == secs[k] + (cc - 1);
    var after := WriteRange(view, secs[k], cc, src, off);
    var w := src[off..off + 512 * cc];
    var c, s := Content(after, secs, m), Splice(Content(view, secs, n), 512 * k, w);
    forall i | 0 <= i < m ensures c[i] == s[i] {
      var q, j := i / 512, i % 512;
      assert i == 512 * q + j;
      if k <= q < k + cc {
        WriteRangeAt(view, secs[k], cc, src, off, q - k);
        assert secs[k + (q - k)] == secs[k] + (q - k);
        assert w[i - 512 * k] == src[off + 512 * (q - k) + j];
      } else {
        OutsideRange(secs, k, cc, q);
      }
    }
  }

  lemma OutsideRange(secs: seq<int>, k: nat, cc: nat, q: nat)
    requires Distinct(secs) && k + cc <= |secs| && q < |secs| && !(k <= q < k + cc)
    requires Adjacent(secs, k, cc)
    requires cc > 0
    ensures !(secs[k] <= secs[q] < secs[k] + cc)
  {
    if secs[k] <= secs[q] < secs[k] + cc {
      AdjacentOther(secs, k, cc, k + (secs[q] - secs[k]), q);
    }
  }

  lemma AdjacentOther(secs: seq<int>, k: nat, cc: nat, i: nat, q: nat)
    requires Distinct(secs) && k + cc <= |secs| && Adjacent(secs, k, cc)
    requires k <= i < k + cc && q < |secs| && q != i
    ensures secs[q] != secs[k] + (i - k)
  {
    assert secs[i] == secs[k] + (i - k);
  }

  lemma ContentFrame(a: Image, b: Image, secs: seq<int>, n: nat)
    requires Fits(a, secs, n) && |a| == |b|
    requires forall k :: 0 <= k < |secs| ==> a[secs[k]] == b[secs[k]]
    ensures Content(a, secs, n) == Content(b, secs, n)
  {
  }

  /** A longer chain or a larger size only adds bytes at the end. */
  lemma ContentPrefix(view: Image, secs: seq<int>, more: seq<int>, n: nat, m: nat)
    requires Fits(view, secs, n) && Fits(view, secs + more, m) && n <= m
    ensures Content(view, secs + more, m)[..n] == Content(view, secs, n)
  {
  }

  /** `m` clusters are what `n` bytes need, but not fewer than `floor`. */
  predicate Needs(g: Geometry, m: int, n: int, floor: nat) {
    floor <= m && n <= 512 * (g.csize * m) && (m == floor || 512 * (g.csize * (m - 1)) < n)
  }

  /** The number of clusters of `b` bytes that `n` bytes need. */
  function Clusters(n: nat, b: nat): nat
    requires 0 < b
  {
    (n + b - 1) / b
  }

  /** That is the larger of the floor and the quotient rounded up. */
  lemma NeedsIsCeiling(g: Geometry, m: nat, n: nat, floor: nat)
    requires 0 < g.csize
    ensures Needs(g, m, n, floor) <==> m == Max(floor, Clusters(n, 512 * g.csize))
  {
    var b := 512 * g.csize;
    var k := Clusters(n, b);
    ClustersBound(n, b);
    assert b * m == 512 * (g.csize * m) && b * (m - 1) == 512 * (g.csize * (m - 1));
    hide Clusters;
    if m < k {
      MulMono(b, m, k - 1);
    } else {
      MulMono(b, k, m);
      if k < m { MulMono(b, k, m - 1); }
    }
  }

  /** Enough clusters, and not one too many. */
  lemma ClustersBound(n: nat, b: nat)
    requires 0 < b
    ensures b * (Clusters(n, b) - 1) < n || n == Clusters(n, b) == 0
    ensures n <= b * Clusters(n, b)
  {
    var q, r := DivMod(n + b - 1, b);
    var k: int := q;
    assert b * (k - 1) == b * k - b;
  }

  function Max(a: nat, b: nat): nat { if a < b then b else a }

  /** `bytes` are the `cc` sectors from `s` on, with `buf` laid over sector `sect` when it is dirty. */
  ghost predicate Overlaid(bytes: seq<Byte>, img: Image, s: int, cc: nat, dirty: bool, sect: int, buf: seq<Byte>)
    requires 0 <= s && s + cc <= |img| && |buf| == 512
  {
    |bytes| == 512 * cc
    && forall j :: 0 <= j < 512 * cc ==>
         bytes[j] == if dirty && sect == s + j / 512 then buf[j % 512] else img[s + j / 512][j % 512]
  }

  /** The bytes as read, and what they are when the buffer's sector is not among them. */
  lemma RawSectors(was: seq<Byte>, now: seq<Byte>, off: nat, img: Image, s: int, cc: nat, dirty: bool, sect: int,
                   buf: seq<Byte>)
    requires 0 <= s && s + cc <= |img| && |buf| == 512 && off + 512 * cc <= |now| == |was|
    requires forall k :: off <= k < off + 512 * cc ==> now[k] == img[s + (k - off) / 512][(k - off) % 512]
    requires forall k :: 0 <= k < |now| && !(off <= k < off + 512 * cc) ==> now[k] == was[k]
    ensures var raw := now[off..off + 512 * cc];
            && Overlaid(raw, img, s, cc, false, sect, buf)
            && (!(dirty && s <= sect < s + cc) ==> Overlaid(raw, img, s, cc, dirty, sect, buf))
    ensures now[..off] == was[..off] && now[off + 512 * cc..] == was[off + 512 * cc..]
  {
  }

  lemma OverlayOne(raw: seq<Byte>, bytes: seq<Byte>, img: Image, s: int, cc: nat, sect: int, buf: seq<Byte>)
    requires 0 <= s && s + cc <= |img| && |buf| == 512 && s <= sect < s + cc
    requires Overlaid(raw, img, s, cc, false, sect, buf) && |bytes| == |raw|
    requires bytes == Splice(raw, 512 * (sect - s), buf)
    ensures Overlaid(bytes, img, s, cc, true, sect, buf)
  {
    forall j | 0 <= j < 512 * cc
      ensures bytes[j] == if sect == s + j / 512 then buf[j % 512] else img[s + j / 512][j % 512]
    {
      assert j == 512 * (j / 512) + j % 512;
    }
  }
}
