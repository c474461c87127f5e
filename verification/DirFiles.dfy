/** What directory operations leave alone: the files of the directory, and those of other directories. */
module DirFiles {
  import opened Bytes
  import opened Geometry
  import opened FatTable
  import opened Chains
  import opened Volume
  import opened FileData
  import opened FileState
  import opened OtherFiles
  import D = Directory

  type Dir = D.Dir

  /** The clusters `cs` hold no slot of the directory. */
  ghost predicate OffSlots(d: Dir, cs: seq<nat>)
    requires D.DirVolume(d)
  {
    forall c, m: nat :: c in cs && D.Has(d, m) && d.start != 0 ==> D.ClusterOf(d, m) != c
  }

  /** Slot `n` of the directory is the entry of name `fn`, and stores the bytes `b` in the clusters `cs`. */
  ghost predicate FileIn(d: Dir, fn: seq<Byte>, n: nat, cs: seq<nat>, b: seq<Byte>) {
    && D.DirVolume(d) && d.fat == Table(d.g, d.img) && D.NamedAt(d, fn, n)
    && Stores(d.g, d.img, D.Place(d, n), 32 * (n % 16), cs, b) && OffSlots(d, cs)
  }

  /** An entry at offset `o` of sector `s`, in a cluster of another directory, stores `b` in `cs`. */
  ghost predicate FileAway(d: Dir, s: int, o: nat, cs: seq<nat>, b: seq<Byte>) {
    && D.DirVolume(d) && d.fat == Table(d.g, d.img)
    && (exists x: nat :: D.Elsewhere(d, x) && SectorIn(d.g, x, s))
    && Stores(d.g, d.img, s, o, cs, b) && OffSlots(d, cs)
  }

  /** The clusters of a file stay off the slots, with their links and contents. */
  lemma ClustersKept(d: Dir, e: Dir, s: int, o: nat, cs: seq<nat>, b: seq<Byte>)
    requires D.DirVolume(d) && D.DirVolume(e) && D.Spares(d, e) && D.Grows(d, e) && d.fat == Table(d.g, d.img)
    requires Stores(d.g, d.img, s, o, cs, b) && OffSlots(d, cs)
    ensures OffSlots(e, cs)
    ensures forall c :: c in cs && c < |d.fat| ==> e.fat[c] == d.fat[c]
    ensures forall k :: 0 <= k < |Sectors(d.g, cs)| ==>
                          0 <= Sectors(d.g, cs)[k] < |d.img| && e.img[Sectors(d.g, cs)[k]] == d.img[Sectors(d.g, cs)[k]]
  {
    assert |e.fat| == |d.fat| && 0 < d.g.csize;
    ChainAway(d, s, o, cs, b);
    var secs := Sectors(d.g, cs);
    forall k | 0 <= k < |secs| ensures 0 <= secs[k] < |d.img| && e.img[secs[k]] == d.img[secs[k]] {
      var q, r := SectorIndex(d.g, cs, k);
      assert cs[q] in cs;
      assert D.Elsewhere(d, cs[q]) && SectorIn(d.g, cs[q], secs[k]);
    }
    hide D.DirVolume, D.Has, D.ClusterOf, D.Spares, Stores;
    forall c, m: nat | c in cs && D.Has(e, m) && e.start != 0 ensures D.ClusterOf(e, m) != c {
      assert D.Elsewhere(d, c);
    }
  }

  lemma ChainAway(d: Dir, s: int, o: nat, cs: seq<nat>, b: seq<Byte>)
    requires D.DirVolume(d) && d.fat == Table(d.g, d.img) && Stores(d.g, d.img, s, o, cs, b) && OffSlots(d, cs)
    ensures forall c :: c in cs ==> D.Elsewhere(d, c)
  {
    if cs != [] { ChainUsed(d.fat, cs); }
    hide Stores;
    forall c | c in cs ensures D.Elsewhere(d, c) {
      var i :| 0 <= i < |cs| && cs[i] == c;
    }
  }

  /** Slot `n` is the entry of name `fn`, of an empty file without attributes. */
  ghost predicate EmptyFile(d: Dir, fn: seq<Byte>, n: nat) {
    FileIn(d, fn, n, [], []) && D.Slot(d, n)[11] == 0
  }

  ghost predicate HasEmptyFile(d: Dir, fn: seq<Byte>) {
    exists n: nat :: EmptyFile(d, fn, n)
  }

  /** An entry that is zero behind its name is that of an empty file. */
  lemma ZeroEntry(d: Dir, fn: seq<Byte>, n: nat)
    requires D.DirVolume(d) && d.fat == Table(d.g, d.img) && D.NamedAt(d, fn, n)
    requires forall i :: 11 <= i < 32 ==> D.Slot(d, n)[i] == 0
    ensures HasEmptyFile(d, fn)
  {
    D.PlaceInVolume(d, n);
    var s, p, o := D.Slot(d, n), D.Place(d, n), 32 * (n % 16);
    forall i | 0 <= i < 32 ensures d.img[p][o + i] == s[i] {}
    EntryLayout(d.g, d.img[p], o);
    EmptyStores(d.g, d.img, p, o);
    hide Stores, D.NamedAt, D.Place, D.DirVolume, Table;
    assert EmptyFile(d, fn, n);
  }

  /** A file of the directory survives what keeps its lookup. */
  lemma FileInKept(d: Dir, e: Dir, fn: seq<Byte>, n: nat, cs: seq<nat>, b: seq<Byte>)
    requires FileIn(d, fn, n, cs, b) && D.DirVolume(e) && D.Spares(d, e) && D.Grows(d, e)
    requires e.fat == Table(e.g, e.img) && D.NamedAt(e, fn, n) && D.Slot(e, n) == D.Slot(d, n)
    ensures FileIn(e, fn, n, cs, b)
  {
    ClustersKept(d, e, D.Place(d, n), 32 * (n % 16), cs, b);
    SlotBytes(d, e, n);
    hide D.DirVolume, D.Spares, D.NamedAt, D.Slot, OffSlots, Stores, Sectors, Table;
    StoresFrame(d.g, d.img, e.img, D.Place(d, n), 32 * (n % 16), cs, b);
  }

  lemma SlotBytes(d: Dir, e: Dir, n: nat)
    requires D.DirVolume(d) && D.DirVolume(e) && D.Grows(d, e) && D.Has(d, n) && D.Has(e, n)
    requires D.Slot(e, n) == D.Slot(d, n) && |e.img| == |d.img|
    ensures var p, o := D.Place(d, n), 32 * (n % 16);
            && D.Place(e, n) == p && 0 <= p < |d.img|
            && forall j :: o <= j < o + 32 ==> e.img[p][j] == d.img[p][j]
  {
    D.PlaceInVolume(d, n);
    var p, o := D.Place(d, n), 32 * (n % 16);
    forall j | o <= j < o + 32 ensures e.img[p][j] == d.img[p][j] {
      assert D.Slot(e, n)[j - o] == D.Slot(d, n)[j - o];
    }
  }

  /** A file of another directory survives. */
  lemma FileAwayKept(d: Dir, e: Dir, s: int, o: nat, cs: seq<nat>, b: seq<Byte>)
    requires FileAway(d, s, o, cs, b) && D.DirVolume(e) && D.Spares(d, e) && D.Grows(d, e)
    requires e.fat == Table(e.g, e.img)
    ensures FileAway(e, s, o, cs, b)
  {
    ClustersKept(d, e, s, o, cs, b);
    var x: nat :| D.Elsewhere(d, x) && SectorIn(d.g, x, s);
    StillElsewhere(d, e, x);
    assert e.img[s] == d.img[s];
    hide D.DirVolume, D.Spares, D.Elsewhere, OffSlots, Stores, Sectors, Table;
    StoresFrame(d.g, d.img, e.img, s, o, cs, b);
  }

  lemma StillElsewhere(d: Dir, e: Dir, x: nat)
    requires D.DirVolume(d) && D.DirVolume(e) && D.Spares(d, e) && D.Grows(d, e) && D.Elsewhere(d, x)
    ensures D.Elsewhere(e, x)
  {
  }

  /** Files stay, in this directory and in others, except those named in `but`. */
  ghost predicate KeepsFiles(d: Dir, e: Dir, but: set<seq<Byte>>) {
    && (forall fn, n: nat, cs, b :: FileIn(d, fn, n, cs, b) && D.Usable(fn) && fn !in but ==> FileIn(e, fn, n, cs, b))
    && (forall s, o: nat, cs, b :: FileAway(d, s, o, cs, b) ==> FileAway(e, s, o, cs, b))
  }

  lemma OperationKeepsFiles(d: Dir, e: Dir, name: seq<Byte>)
    requires D.DirVolume(d) && D.DirVolume(e) && D.Spares(d, e) && D.Grows(d, e) && D.LookupsKept(d, e, name)
    requires e.fat == Table(e.g, e.img)
    ensures KeepsFiles(d, e, {name})
  {
    forall fn, n: nat, cs, b | FileIn(d, fn, n, cs, b) && D.Usable(fn) && fn != name ensures FileIn(e, fn, n, cs, b) {
      FileInKept(d, e, fn, n, cs, b);
    }
    hide FileIn, FileAway;
    forall s, o: nat, cs, b | FileAway(d, s, o, cs, b) ensures FileAway(e, s, o, cs, b) {
      FileAwayKept(d, e, s, o, cs, b);
    }
  }

  lemma KeepsItself(d: Dir, but: set<seq<Byte>>)
    ensures KeepsFiles(d, d, but)
  {
  }

  lemma KeepsBoth(d: Dir, e: Dir, f: Dir, a: set<seq<Byte>>, c: set<seq<Byte>>)
    requires KeepsFiles(d, e, a) && KeepsFiles(e, f, c)
    ensures KeepsFiles(d, f, a + c)
  {
    hide FileIn, FileAway;
  }
}
