/** What the operations on one open file leave alone: every other file of the volume. */
module OtherFiles {
  import opened Bytes
  import opened Geometry
  import opened FatTable
  import opened Chains
  import opened Volume
  import opened FileData
  import opened FileState

  /** The entry at offset `o` of sector `s` stores the bytes `d` in the clusters `cs`, and neither belongs
      to the open file `f`, whose own entry is at offset `own` of its directory sector. */
  ghost predicate OtherFile(f: File, own: nat, s: int, o: nat, cs: seq<nat>, d: seq<Byte>) {
    && VolumeOk(f) && f.fat == Table(f.g, f.img)
    && Stores(f.g, f.img, s, o, cs, d)
    && f.g.fatbase + FatArea(f.g) <= s < f.g.volend && Elsewhere(f, s)
    && (forall c :: c in cs ==> c !in f.chain && !SectorIn(f.g, c, f.dirSect))
    && (s == f.dirSect ==> o + 32 <= own || own + 32 <= o)
  }

  /** All other files of `a` are other files of `b`, with the same bytes. */
  ghost predicate KeepsOthers(a: File, b: File, own: nat) {
    forall s, o: nat, cs, d :: OtherFile(a, own, s, o, cs, d) ==> OtherFile(b, own, s, o, cs, d)
  }

  /** Entry, links and sectors of a file unchanged: it is still stored. */
  lemma StoresFrame(g: Geometry, a: Image, b: Image, s: int, o: nat, cs: seq<nat>, d: seq<Byte>)
    requires Stores(g, a, s, o, cs, d) && |b| == |a|
    requires forall j :: o <= j < o + 32 ==> b[s][j] == a[s][j]
    requires forall c :: c in cs && c < g.nFatent ==> Table(g, b)[c] == Table(g, a)[c]
    requires forall k :: 0 <= k < |Sectors(g, cs)| ==> b[Sectors(g, cs)[k]] == a[Sectors(g, cs)[k]]
    ensures Stores(g, b, s, o, cs, d)
  {
    EntryFields(g, a[s], b[s], o);
    if cs != [] {
      ChainFrame(Table(g, a), Table(g, b), cs);
    }
    ContentFrame(a, b, Sectors(g, cs), |d|);
  }

  lemma EntryFields(g: Geometry, a: seq<Byte>, b: seq<Byte>, o: nat)
    requires o + 32 <= |a| == |b| && forall j :: o <= j < o + 32 ==> b[j] == a[j]
    ensures DirClust(g, b, o) == DirClust(g, a, o) && DirSize(b, o) == DirSize(a, o)
  {
    assert b[o + 20] == a[o + 20] && b[o + 21] == a[o + 21] && b[o + 26] == a[o + 26] && b[o + 27] == a[o + 27];
    assert b[o + 28] == a[o + 28] && b[o + 29] == a[o + 29] && b[o + 30] == a[o + 30] && b[o + 31] == a[o + 31];
  }

  lemma ChainFrame(t: seq<U32>, u: seq<U32>, cs: seq<nat>)
    requires IsChain(t, cs) && |u| == |t| && forall c :: c in cs && c < |t| ==> u[c] == t[c]
    ensures IsChain(u, cs)
  {
    forall i | 0 <= i < |cs| ensures u[cs[i]] == t[cs[i]] { assert cs[i] in cs; }
  }

  // ---------------------------------------------------------------- writing, reading and seeking

  /** The clusters of another file stay off the chain: what the chain gains was free. */
  lemma OffTheChain(a: File, b: File, own: nat, s: int, o: nat, cs: seq<nat>, d: seq<Byte>, c: nat)
    requires OtherFile(a, own, s, o, cs, d) && OnlyFile(a, b) && c in cs
    ensures InData(a.g, c) && c !in b.chain && b.fat[c] == a.fat[c] != 0
  {
    var i :| 0 <= i < |cs| && cs[i] == c;
    assert i < |cs| - 1 ==> a.fat[cs[i]] == cs[i + 1];
  }

  /** A cluster that holds a sector elsewhere stays off the chain, too. */
  lemma ElsewhereOff(a: File, b: File, s: int, c: nat)
    requires OnlyFile(a, b) && s >= a.g.database && Elsewhere(a, s) && InData(a.g, c) && SectorIn(a.g, c, s)
    ensures c !in b.chain && b.fat[c] == a.fat[c] != 0
  {
  }

  /** Sectors of clusters off the chain are not sectors of the file. */
  lemma NotOfFile(b: File, c: nat, s: int)
    requires VolumeOk(b) && ChainOk(b) && InData(b.g, c) && SectorIn(b.g, c, s) && c !in b.chain
    ensures s !in Secs(b) && b.g.database <= s
  {
    ClusterInVolume(b.g, c);
    if s in Secs(b) {
      var k :| 0 <= k < |Secs(b)| && Secs(b)[k] == s;
      SecsFacts(b);
      var q, r := SectorIndex(b.g, b.chain, k);
      ClustersDisjoint(b.g, c, b.chain[q], s);
    }
  }

  /** The directory sector of another file is not a sector of this one. */
  lemma EntryNotOfFile(a: File, b: File, s: int)
    requires OnlyFile(a, b) && ChainOk(b) && Elsewhere(a, s)
    requires a.g.fatbase + FatArea(a.g) <= s < a.g.volend
    ensures s !in Secs(b)
  {
    if s in Secs(b) {
      var k :| 0 <= k < |Secs(b)| && Secs(b)[k] == s;
      SecsFacts(b);
      var q, r := SectorIndex(b.g, b.chain, k);
      assert InData(a.g, b.chain[q]) && SectorIn(a.g, b.chain[q], s);
      ElsewhereOff(a, b, s, b.chain[q]);
    }
  }

  /** Whatever changes only the file itself keeps all other files. */
  lemma OnlyFileKeepsOther(a: File, b: File, own: nat, s: int, o: nat, cs: seq<nat>, d: seq<Byte>)
    requires OtherFile(a, own, s, o, cs, d) && OnlyFile(a, b) && ChainOk(b) && b.fat == Table(b.g, b.img)
    ensures OtherFile(b, own, s, o, cs, d)
  {
    EntryNotOfFile(a, b, s);
    forall c | c in cs ensures InData(a.g, c) && c !in b.chain && b.fat[c] == a.fat[c] {
      OffTheChain(a, b, own, s, o, cs, d, c);
    }
    var secs := Sectors(a.g, cs);
    forall k | 0 <= k < |secs| ensures b.img[secs[k]] == a.img[secs[k]] {
      var q, r := SectorIndex(a.g, cs, k);
      assert cs[q] in cs;
      NotOfFile(b, cs[q], secs[k]);
    }
    StoresFrame(a.g, a.img, b.img, s, o, cs, d);
    forall c | s >= a.g.database && InData(a.g, c) && SectorIn(a.g, c, s) ensures c !in b.chain && b.fat[c] != 0 {
      ElsewhereOff(a, b, s, c);
    }
  }

  // ---------------------------------------------------------------- truncating

  lemma OnlyCutKeepsOther(a: File, b: File, own: nat, s: int, o: nat, cs: seq<nat>, d: seq<Byte>)
    requires OtherFile(a, own, s, o, cs, d) && OnlyCut(a, b) && ChainOk(a) && b.fat == Table(b.g, b.img)
    ensures OtherFile(b, own, s, o, cs, d)
  {
    hide ChainOk, OnlyFile, Sectors, Table, Mirrored, SectorIn, WellFormed;
    OtherVolume(a, own, s, o, cs, d);
    OnlyFileSelf(a);
    EntryNotOfFile(a, a, s);
    OtherSectors(a, own, s, o, cs, d);
    forall c | c in cs ensures InData(a.g, c) && c !in a.chain && b.fat[c] == a.fat[c] {
      OffTheChain(a, a, own, s, o, cs, d, c);
    }
    StoresFrame(a.g, a.img, b.img, s, o, cs, d);
  }

  lemma OnlyFileSelf(a: File)
    requires VolumeOk(a)
    ensures OnlyFile(a, a)
  {
  }

  lemma OtherVolume(a: File, own: nat, s: int, o: nat, cs: seq<nat>, d: seq<Byte>)
    requires OtherFile(a, own, s, o, cs, d)
    ensures FatFits(a.g) && a.g.volend <= |a.img| && a.g.volbase + 1 < s < |a.img| && o + 32 <= 512
    ensures |a.fat| == a.g.nFatent && forall c :: c in cs ==> InData(a.g, c)
  {
    forall c | c in cs ensures InData(a.g, c) {
      OnlyFileSelf(a);
      OffTheChain(a, a, own, s, o, cs, d, c);
    }
  }

  /** The data sectors of another file: in the data area, and not of the open file or its entry. */
  lemma OtherSectors(a: File, own: nat, s: int, o: nat, cs: seq<nat>, d: seq<Byte>)
    requires OtherFile(a, own, s, o, cs, d) && ChainOk(a)
    ensures forall k {:trigger Sectors(a.g, cs)[k]} :: 0 <= k < |Sectors(a.g, cs)| ==>
                    var t := Sectors(a.g, cs)[k];
                    t !in Secs(a) && a.g.database <= t < |a.img| && t != a.dirSect
  {
    OnlyFileSelf(a);
    var secs := Sectors(a.g, cs);
    forall k | 0 <= k < |secs|
      ensures secs[k] !in Secs(a) && a.g.database <= secs[k] < |a.img| && secs[k] != a.dirSect
    {
      var q, r := SectorIndex(a.g, cs, k);
      assert cs[q] in cs;
      OffTheChain(a, a, own, s, o, cs, d, cs[q]);
      NotOfFile(a, cs[q], secs[k]);
    }
  }

  // ---------------------------------------------------------------- synchronising

  lemma OnlySyncedKeepsOther(a: File, b: File, own: nat, s: int, o: nat, cs: seq<nat>, d: seq<Byte>)
    requires OtherFile(a, own, s, o, cs, d) && OnlySynced(a, b, own) && ChainOk(a) && b.fat == Table(b.g, b.img)
    ensures OtherFile(b, own, s, o, cs, d)
  {
    hide ChainOk, OnlyFile, Sectors, Table, Mirrored, SectorIn, WellFormed;
    OtherVolume(a, own, s, o, cs, d);
    OnlyFileSelf(a);
    EntryNotOfFile(a, a, s);
    OtherSectors(a, own, s, o, cs, d);
    StoresFrame(a.g, a.img, b.img, s, o, cs, d);
  }

  // ---------------------------------------------------------------- all other files at once

  lemma OnlyFileKeepsOthers(a: File, b: File, own: nat)
    requires OnlyFile(a, b) && ChainOk(b) && b.fat == Table(b.g, b.img)
    ensures KeepsOthers(a, b, own)
  {
    hide OnlyFile, OtherFile, ChainOk;
    forall s, o: nat, cs, d | OtherFile(a, own, s, o, cs, d) ensures OtherFile(b, own, s, o, cs, d) {
      OnlyFileKeepsOther(a, b, own, s, o, cs, d);
    }
  }

  lemma OnlyCutKeepsOthers(a: File, b: File, own: nat)
    requires OnlyCut(a, b) && ChainOk(a) && b.fat == Table(b.g, b.img)
    ensures KeepsOthers(a, b, own)
  {
    hide OnlyCut, OtherFile, ChainOk;
    forall s, o: nat, cs, d | OtherFile(a, own, s, o, cs, d) ensures OtherFile(b, own, s, o, cs, d) {
      OnlyCutKeepsOther(a, b, own, s, o, cs, d);
    }
  }

  lemma OnlySyncedKeepsOthers(a: File, b: File, own: nat)
    requires OnlySynced(a, b, own) && ChainOk(a) && b.fat == Table(b.g, b.img)
    ensures KeepsOthers(a, b, own)
  {
    hide OnlySynced, OtherFile, ChainOk;
    forall s, o: nat, cs, d | OtherFile(a, own, s, o, cs, d) ensures OtherFile(b, own, s, o, cs, d) {
      OnlySyncedKeepsOther(a, b, own, s, o, cs, d);
    }
  }
}
