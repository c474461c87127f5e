/** A directory as a numbered row of 32-byte slots, and as a set of names. */
module Directory {
  import opened Bytes
  import opened Geometry
  import opened FatTable
  import opened Chains
  import opened Volume
  import opened FileData

  /** `start` is the first cluster, 0 for the static root directory of a FAT12/16 volume. */
  datatype Dir = Dir(g: Geometry, img: Image, fat: seq<U32>, start: U32)

  const MAX_SLOTS: nat := 0x1_0000   // MAX_DIR / SZDIRE
  const DDEM: Byte := 0xE5
  const DIR_Attr: nat := 11

  ghost predicate DirVolume(d: Dir)
    ensures DirVolume(d) ==> d.g.csize > 0
  {
    WellFormed(d.g) && d.g.volend <= |d.img| && |d.fat| == d.g.nFatent
  }

  /** The cluster holding slot `n`: links followed from the start. */
  function ClusterOf(d: Dir, n: nat): U32
    requires d.g.csize > 0
  {
    Walk(d.fat, d.start, n / 16 / d.g.csize)
  }

  /** Slot `n` exists. */
  predicate Has(d: Dir, n: nat)
    requires d.g.csize > 0
  {
    n < MAX_SLOTS && if d.start == 0 then n < d.g.nRootdir else InData(d.g, ClusterOf(d, n))
  }

  /** The sector holding slot `n`. */
  function Place(d: Dir, n: nat): (s: int)
    requires d.g.csize > 0
  {
    if d.start == 0 then d.g.dirbase + n / 16
    else ClusterBase(d.g, ClusterOf(d, n)) + n / 16 % d.g.csize
  }

  lemma PlaceInVolume(d: Dir, n: nat)
    requires DirVolume(d) && Has(d, n)
    ensures d.g.fatbase + FatArea(d.g) <= Place(d, n) < d.g.volend
  {
    if d.start == 0 {
      RootFits(d.g, n);
    } else {
      var q, r := DivMod(n / 16, d.g.csize);
      ClusterInVolume(d.g, ClusterOf(d, n));
    }
  }

  lemma RootFits(g: Geometry, n: nat)
    requires WellFormed(g) && n < g.nRootdir
    ensures g.fatbase + FatArea(g) <= g.dirbase + n / 16 < g.database < g.volend
  {
    var k, r := g.nRootdir / 16, n / 16;
    assert g.nRootdir == 16 * k;
  }

  /** The 32 bytes of slot `n`. */
  ghost function Slot(d: Dir, n: nat): (s: seq<Byte>)
    requires DirVolume(d) && Has(d, n)
    ensures |s| == 32
  {
    PlaceInVolume(d, n);
    d.img[Place(d, n)][32 * (n % 16)..32 * (n % 16) + 32]
  }

  // ---------------------------------------------------------------- stepping

  /** Within a sector the next slot is in the same place. */
  lemma NextInSector(d: Dir, n: nat)
    requires DirVolume(d) && Has(d, n) && (n + 1) % 16 != 0 && n + 1 < MAX_SLOTS
    ensures Has(d, n + 1) && Place(d, n + 1) == Place(d, n) && ClusterOf(d, n + 1) == ClusterOf(d, n)
  {
    assert (n + 1) / 16 == n / 16;
    if d.start == 0 {
      var k := d.g.nRootdir / 16;
      assert d.g.nRootdir == 16 * k;
    }
  }

  /** At a sector boundary inside a cluster, or in the static root, the sector number goes up by one. */
  lemma NextSector(d: Dir, n: nat)
    requires DirVolume(d) && Has(d, n) && (n + 1) % 16 == 0 && n + 1 < MAX_SLOTS
    requires d.start != 0 ==> (n + 1) / 16 % d.g.csize != 0
    ensures d.start != 0 ==> ClusterOf(d, n + 1) == ClusterOf(d, n)
    ensures Has(d, n + 1) <==> d.start != 0 || n + 1 < d.g.nRootdir
    ensures Place(d, n + 1) == Place(d, n) + 1
  {
    NextGroup(n);
    if d.start != 0 {
      QuotientStep(n / 16, d.g.csize);
    }
  }

  lemma NextGroup(n: nat)
    requires (n + 1) % 16 == 0
    ensures (n + 1) / 16 == n / 16 + 1
  {
  }

  /** Quotient and remainder of the next number. */
  lemma QuotientStep(k: nat, c: nat)
    requires c > 0
    ensures (k + 1) % c != 0 ==> (k + 1) / c == k / c && (k + 1) % c == k % c + 1
    ensures (k + 1) % c == 0 ==> (k + 1) / c == k / c + 1
  {
    var q, r := DivMod(k, c);
    if r + 1 < c {
      DivModUnique(k + 1, c, q, r + 1);
    } else {
      assert c * (q + 1) == c * q + c;
      DivModUnique(k + 1, c, q + 1, 0);
    }
  }

  /** At a cluster boundary the next slot is the first of the next cluster. */
  lemma NextClusterSlot(d: Dir, n: nat)
    requires DirVolume(d) && Has(d, n) && d.start != 0 && (n + 1) % 16 == 0 && (n + 1) / 16 % d.g.csize == 0
    ensures ClusterOf(d, n + 1) == Get(d.fat, ClusterOf(d, n))
    ensures Place(d, n + 1) == ClusterBase(d.g, ClusterOf(d, n + 1))
  {
    NextGroup(n);
    QuotientStep(n / 16, d.g.csize);
  }

  // ---------------------------------------------------------------- slots of a sound directory

  /** The clusters of the directory form a chain; the static root needs none. */
  ghost predicate Sound(d: Dir, cs: seq<nat>) {
    && DirVolume(d)
    && (if d.start == 0 then cs == [] && d.g.fsType != Fat32 else IsChain(d.fat, cs) && cs[0] == d.start)
  }

  lemma SlotCluster(d: Dir, cs: seq<nat>, n: nat)
    requires Sound(d, cs) && d.start != 0
    ensures var j := n / 16 / d.g.csize;
            if j < |cs| then ClusterOf(d, n) as int == cs[j] && InData(d.g, cs[j]) else !InData(d.g, ClusterOf(d, n))
  {
    var j := n / 16 / d.g.csize;
    if j < |cs| {
      WalkChain(d.fat, cs, 0, j);
    } else {
      WalkChain(d.fat, cs, 0, |cs| - 1);
      WalkPastEnd(d.fat, d.start, |cs| - 1, j);
    }
  }

  lemma {:induction false} WalkPastEnd(t: seq<U32>, c: U32, i: nat, j: nat)
    requires i < j && 2 <= Walk(t, c, i) < |t| && t[Walk(t, c, i)] >= |t|
    ensures Walk(t, c, j) < 2 || Walk(t, c, j) >= |t|
    decreases j
  {
    if j > i + 1 {
      WalkPastEnd(t, c, i, j - 1);
    }
  }

  /** In a sound directory two slots share a sector only when they are in the same group of 16. */
  lemma PlacesDistinct(d: Dir, cs: seq<nat>, m: nat, n: nat)
    requires Sound(d, cs) && Has(d, m) && Has(d, n) && Place(d, m) == Place(d, n)
    ensures m / 16 == n / 16
  {
    if d.start != 0 {
      var q, r := DivMod(m / 16, d.g.csize);
      var p, s := DivMod(n / 16, d.g.csize);
      SlotCluster(d, cs, m);
      SlotCluster(d, cs, n);
      ClustersDisjoint(d.g, cs[q], cs[p], Place(d, m));
      if q < p {
        ChainDistinct(d.fat, cs, q, p);
      } else if p < q {
        ChainDistinct(d.fat, cs, p, q);
      }
    }
  }

  /** Slot `n` overwritten with `s`. */
  ghost function SetSlot(d: Dir, n: nat, s: seq<Byte>): (e: Dir)
    requires DirVolume(d) && Has(d, n) && |s| == 32
    ensures DirVolume(e) && e.g == d.g && e.fat == d.fat && e.start == d.start
  {
    PlaceInVolume(d, n);
    var p, o := Place(d, n), 32 * (n % 16);
    d.(img := d.img[p := Splice(d.img[p], o, s)])
  }

  lemma SetSlotAt(d: Dir, cs: seq<nat>, n: nat, s: seq<Byte>, m: nat)
    requires Sound(d, cs) && Has(d, n) && |s| == 32 && Has(d, m)
    ensures Has(SetSlot(d, n, s), m)
    ensures Slot(SetSlot(d, n, s), m) == if m == n then s else Slot(d, m)
  {
    PlaceInVolume(d, n);
    PlaceInVolume(d, m);
    var e := SetSlot(d, n, s);
    var p, o := Place(d, m), 32 * (m % 16);
    assert Place(e, m) == p;
    if Place(d, n) == p {
      PlacesDistinct(d, cs, m, n);
      assert m == 16 * (m / 16) + m % 16 && n == 16 * (n / 16) + n % 16;
    }
  }

  /** Slots exist from 0 on without gaps. */
  lemma HasBefore(d: Dir, m: nat, n: nat)
    requires DirVolume(d) && Has(d, n) && m <= n
    ensures Has(d, m)
  {
    if d.start != 0 {
      var i, j := m / 16 / d.g.csize, n / 16 / d.g.csize;
      assert i <= j by { Quotients(m / 16, n / 16, d.g.csize); }
      WalkBefore(d.fat, d.start, i, j);
    }
  }

  lemma Quotients(a: nat, b: nat, c: nat)
    requires a <= b && c > 0
    ensures a / c <= b / c
  {
    var q, r := DivMod(a, c);
    var p, s := DivMod(b, c);
    assert c * (p + 1) == c * p + c;
    if p < q {
      MulMono(c, p + 1, q);
    }
  }

  /** A walk that is inside the table has been inside it all along. */
  lemma {:induction false} WalkBefore(t: seq<U32>, c: U32, i: nat, j: nat)
    requires i <= j && 2 <= Walk(t, c, j) < |t|
    ensures 2 <= Walk(t, c, i) < |t|
    decreases j
  {
    if i < j {
      WalkBefore(t, c, i, j - 1);
    }
  }

  ghost function Walked(t: seq<U32>, c: U32, n: nat): (cs: seq<nat>)
    ensures |cs| == n + 1 && forall i :: 0 <= i <= n ==> cs[i] == Walk(t, c, i)
  {
    seq(n + 1, i requires 0 <= i <= n => Walk(t, c, i))
  }

  /** A walk that stands on an end mark went along a chain, whatever the rest of the table looks like. */
  lemma WalkedIsChain(t: seq<U32>, c: U32, n: nat)
    requires 2 <= Walk(t, c, n) < |t| && t[Walk(t, c, n)] >= |t|
    ensures IsChain(t, Walked(t, c, n)) && Walked(t, c, n)[0] == c
  {
    var cs := Walked(t, c, n);
    forall i | 0 <= i < |cs| ensures 2 <= cs[i] < |t| { WalkBefore(t, c, i, n); }
    forall i | 0 <= i < |cs| - 1 ensures t[cs[i]] == cs[i + 1] {
      WalkBefore(t, c, i, n);
      assert Walk(t, c, i + 1) == Get(t, Walk(t, c, i));
    }
  }

  // ---------------------------------------------------------------- the position of a directory object

  /** Offset, cluster and sector of a directory object that stands on slot `n`. */
  ghost predicate StandsOn(d: Dir, n: nat, dptr: int, clust: int, sect: int)
    requires DirVolume(d)
    ensures StandsOn(d, n, dptr, clust, sect) ==> Has(d, n) && dptr == 32 * n && 0 < sect < TWO32
  {
    PlaceBound(d, n);
    && Has(d, n) && dptr == 32 * n && sect == Place(d, n)
    && clust == if d.start == 0 then 0 else ClusterOf(d, n)
  }

  lemma PlaceBound(d: Dir, n: nat)
    requires DirVolume(d)
    ensures Has(d, n) ==> d.g.fatbase + FatArea(d.g) <= Place(d, n) < d.g.volend
  {
    if Has(d, n) {
      PlaceInVolume(d, n);
    }
  }

  /** After following `j` links the rest of offset 32n is inside the cluster: its slot has been found. */
  lemma FoundSlot(d: Dir, n: nat, j: nat, clst: U32, rest: nat)
    requires DirVolume(d) && d.start != 0 && n < MAX_SLOTS
    requires clst == Walk(d.fat, d.start, j)
    requires rest + 512 * (d.g.csize * j) == 32 * n && rest < 512 * d.g.csize
    ensures Has(d, n) <==> InData(d.g, clst)
    ensures InData(d.g, clst) ==> StandsOn(d, n, 32 * n, clst, ClusterBase(d.g, clst) + rest / 512)
    ensures rest % 512 == 32 * (n % 16)
  {
    var k := n / 16;
    assert rest == 512 * (k - d.g.csize * j) + 32 * (n % 16);
    DivModUnique(k, d.g.csize, j, rest / 512);
  }

  /** When the links run out before the offset is used up, the slot does not exist. */
  lemma LostSlot(d: Dir, n: nat, j: nat)
    requires DirVolume(d) && d.start != 0 && 512 * (d.g.csize * j) <= 32 * n
    requires !InData(d.g, Walk(d.fat, d.start, j))
    ensures !Has(d, n)
  {
    if Has(d, n) {
      var q, r := DivMod(n / 16, d.g.csize);
      assert d.g.csize * (q + 1) == d.g.csize * q + d.g.csize;
      assert j <= q by {
        if q < j {
          MulMono(d.g.csize, q + 1, j);
        }
      }
      WalkBefore(d.fat, d.start, j, q);
    }
  }

  /** Where slot `n` is in its sector. */
  lemma SlotOffset(n: nat)
    ensures 32 * n % 512 == 32 * (n % 16) && 32 * n / 512 == n / 16 && 32 * n / 32 == n && 32 * n % 32 == 0
  {
    DivModUnique(32 * n, 512, n / 16, 32 * (n % 16));
  }

  /** One step inside a sector. */
  lemma StepInSector(d: Dir, n: nat, clust: int, sect: int)
    requires DirVolume(d) && StandsOn(d, n, 32 * n, clust, sect) && (32 * n + 32) % 512 != 0
    ensures n + 1 < MAX_SLOTS ==> StandsOn(d, n + 1, 32 * n + 32, clust, sect)
  {
    SlotOffset(n + 1);
    hide Has, Place, ClusterOf, DirVolume;
    if n + 1 < MAX_SLOTS {
      NextInSector(d, n);
    }
  }

  /** One step to the next sector of the same cluster, or of the static root. */
  lemma StepToSector(d: Dir, n: nat, clust: int, sect: int)
    requires DirVolume(d) && StandsOn(d, n, 32 * n, clust, sect) && (32 * n + 32) % 512 == 0 && n + 1 < MAX_SLOTS
    requires clust != 0 ==> (32 * n + 32) / 512 % d.g.csize != 0
    ensures clust == 0 ==> d.start == 0 && (Has(d, n + 1) <==> n + 1 < d.g.nRootdir)
    ensures clust != 0 ==> Has(d, n + 1)
    ensures Has(d, n + 1) ==> StandsOn(d, n + 1, 32 * n + 32, clust, sect + 1)
  {
    SlotOffset(n + 1);
    NextSector(d, n);
  }

  /** One step to the next cluster of the chain. */
  lemma StepToCluster(d: Dir, n: nat, clust: U32, sect: int)
    requires DirVolume(d) && StandsOn(d, n, 32 * n, clust, sect) && (32 * n + 32) % 512 == 0 && n + 1 < MAX_SLOTS
    requires clust != 0 && (32 * n + 32) / 512 % d.g.csize == 0
    ensures d.start != 0 && InData(d.g, clust)
    ensures Has(d, n + 1) <==> InData(d.g, Get(d.fat, clust))
    ensures Has(d, n + 1) ==>
              StandsOn(d, n + 1, 32 * n + 32, Get(d.fat, clust), ClusterBase(d.g, Get(d.fat, clust)))
  {
    SlotOffset(n + 1);
    NextClusterSlot(d, n);
  }

  // ---------------------------------------------------------------- names

  /** `!(attr & AM_VOL)` and the 11 name bytes equal. */
  predicate Match(s: seq<Byte>, fn: seq<Byte>)
    requires |s| == 32
  {
    s[DIR_Attr] / 8 % 2 == 0 && s[..11] == fn
  }

  /** Slot `n` exists and no slot before it is an end mark. */
  ghost predicate Reached(d: Dir, n: nat)
    requires DirVolume(d)
  {
    Has(d, n) && forall m: nat :: m < n ==> Has(d, m) && Slot(d, m)[0] != 0
  }

  /** A lookup of `fn` ends on slot `n`. */
  ghost predicate NamedAt(d: Dir, fn: seq<Byte>, n: nat)
    requires DirVolume(d)
  {
    Reached(d, n) && Slot(d, n)[0] != 0 && Match(Slot(d, n), fn)
  }

  ghost predicate Contains(d: Dir, fn: seq<Byte>)
    requires DirVolume(d)
  {
    exists n: nat :: NamedAt(d, fn, n)
  }

  /** A name `create_name` can produce: neither an end mark nor a deleted mark in front. */
  predicate Usable(fn: seq<Byte>) {
    |fn| == 11 && fn[0] != 0 && fn[0] != DDEM
  }

  /** The directory as a set of names. */
  ghost function Names(d: Dir): (r: iset<seq<Byte>>)
    requires DirVolume(d)
  {
    iset fn | Usable(fn) && Contains(d, fn)
  }

  /** These are the names of the slots before the first zero byte, deleted slots and volume labels aside. */
  lemma NamesAre(d: Dir, fn: seq<Byte>)
    requires DirVolume(d) && Usable(fn)
    ensures fn in Names(d) <==>
            exists n: nat :: Has(d, n) && Slot(d, n)[..11] == fn && Slot(d, n)[11] / 8 % 2 == 0
                             && forall m: nat :: m < n ==> Has(d, m) && Slot(d, m)[0] != 0
  {
    forall n: nat | Has(d, n) && Slot(d, n)[..11] == fn ensures Slot(d, n)[0] != 0 {
      assert Slot(d, n)[..11][0] == fn[0];
    }
    if n: nat :| Has(d, n) && Slot(d, n)[..11] == fn && Slot(d, n)[11] / 8 % 2 == 0
                 && forall m: nat :: m < n ==> Has(d, m) && Slot(d, m)[0] != 0
    {
      assert NamedAt(d, fn, n);
    }
    if n: nat :| NamedAt(d, fn, n) {
      assert Has(d, n) && Slot(d, n)[..11] == fn;
    }
  }

  /** Only zero slots follow the first zero slot. */
  ghost predicate ZeroTail(d: Dir)
    requires DirVolume(d)
  {
    forall m: nat, n: nat :: m < n && Has(d, m) && Has(d, n) && Slot(d, m)[0] == 0 ==> Slot(d, n)[0] == 0
  }

  /** No usable name occurs twice. */
  ghost predicate NoTwins(d: Dir)
    requires DirVolume(d)
  {
    forall fn, m: nat, n: nat :: Usable(fn) && NamedAt(d, fn, m) && NamedAt(d, fn, n) ==> m == n
  }

  ghost predicate Tidy(d: Dir)
    requires DirVolume(d)
  {
    ZeroTail(d) && NoTwins(d)
  }

  predicate IsFree(s: seq<Byte>)
    requires |s| == 32
  {
    s[0] == 0 || s[0] == DDEM
  }

  /** `n` is the first free slot. */
  ghost predicate FirstFree(d: Dir, n: nat)
    requires DirVolume(d)
  {
    Has(d, n) && IsFree(Slot(d, n)) && forall m: nat :: m < n ==> Has(d, m) && !IsFree(Slot(d, m))
  }

  ghost predicate NoFree(d: Dir)
    requires DirVolume(d)
  {
    forall m: nat :: Has(d, m) ==> !IsFree(Slot(d, m))
  }

  /** `e` is `d`, possibly with more slots, which are zero. */
  ghost predicate Extends(d: Dir, e: Dir)
    requires DirVolume(d) && DirVolume(e)
  {
    && (forall m: nat :: Has(d, m) ==> Has(e, m) && Slot(e, m) == Slot(d, m))
    && (forall m: nat :: Has(e, m) && !Has(d, m) ==> Slot(e, m)[0] == 0)
  }

  /** The slot `dir_register` writes. */
  function NewSlot(fn: seq<Byte>): (s: seq<Byte>)
    requires |fn| == 11
    ensures |s| == 32
  {
    fn + seq(21, _ => 0)
  }

  /** The slot `dir_remove` leaves. */
  function DeletedSlot(s: seq<Byte>): (r: seq<Byte>)
    requires |s| == 32
    ensures |r| == 32
  {
    s[0 := DDEM]
  }

  /** Every slot up to `n` exists, is in use and does not carry `fn`. */
  ghost predicate Passed(d: Dir, fn: seq<Byte>, n: nat)
    requires DirVolume(d)
  {
    forall m: nat :: m < n ==> Has(d, m) && Slot(d, m)[0] != 0 && !Match(Slot(d, m), fn)
  }

  lemma PassedNone(d: Dir, fn: seq<Byte>)
    requires DirVolume(d)
    ensures Passed(d, fn, 0)
  {
  }

  lemma PassedStep(d: Dir, fn: seq<Byte>, n: nat)
    requires DirVolume(d) && Passed(d, fn, n) && Has(d, n) && Slot(d, n)[0] != 0 && !Match(Slot(d, n), fn)
    ensures Passed(d, fn, n + 1)
  {
  }

  /** A lookup that has passed all slots before `n` and ends at `n`. */
  lemma LookupEnds(d: Dir, fn: seq<Byte>, n: nat)
    requires DirVolume(d) && Passed(d, fn, n)
    ensures !Has(d, n) || Slot(d, n)[0] == 0 ==> !Contains(d, fn)
    ensures Has(d, n) && Slot(d, n)[0] != 0 && Match(Slot(d, n), fn) ==> NamedAt(d, fn, n)
    ensures Has(d, n) && Slot(d, n)[0] != 0 && Match(Slot(d, n), fn) ==> Contains(d, fn)
    ensures forall m: nat :: m < n ==> !NamedAt(d, fn, m)
  {
    hide DirVolume, Has, Slot, Match;
    forall m: nat | NamedAt(d, fn, m) ensures m >= n && Has(d, n) && Slot(d, n)[0] != 0 {
      if m >= n {
        HasBefore(d, n, m);
      }
    }
  }

  lemma LinkedHasFirst(d: Dir)
    requires DirVolume(d) && Linked(d)
    ensures Has(d, 0)
  {
    var cs :| Sound(d, cs);
    if d.start != 0 {
      SlotCluster(d, cs, 0);
    }
  }

  /** On a well-formed chain the directory object never meets a bad link. */
  lemma LinkedLink(d: Dir, n: nat, dptr: int, clust: U32, sect: int)
    requires DirVolume(d) && Linked(d) && StandsOn(d, n, dptr, clust, sect)
    ensures d.start != 0 ==> Get(d.fat, clust) >= 2
  {
    var cs :| Sound(d, cs);
    if d.start != 0 {
      var j := n / 16 / d.g.csize;
      SlotCluster(d, cs, n);
      if j < |cs| - 1 {
        assert d.fat[cs[j]] == cs[j + 1];
      }
    }
  }

  /** The bytes of the slot under the directory object. */
  lemma SlotUnder(d: Dir, n: nat, dptr: int, clust: int, sect: int)
    requires DirVolume(d) && StandsOn(d, n, dptr, clust, sect)
    ensures d.g.fatbase + FatArea(d.g) <= sect < |d.img|
    ensures 32 * (n % 16) + 32 <= 512 && Slot(d, n) == d.img[sect][32 * (n % 16)..32 * (n % 16) + 32]
  {
    PlaceInVolume(d, n);
  }

  /** Writing the slot under the directory object through the window. */
  lemma WrittenSlot(d: Dir, n: nat, dptr: int, clust: int, sect: int, s: seq<Byte>, e: Dir)
    requires DirVolume(d) && StandsOn(d, n, dptr, clust, sect) && |s| == 32 && d.fat == Table(d.g, d.img)
    requires 0 <= sect < |d.img| && e.g == d.g && e.start == d.start && 32 * (n % 16) + 32 <= 512
    requires e.img == Put(d.g, d.img, sect, Splice(d.img[sect], 32 * (n % 16), s))
    requires e.fat == Table(d.g, e.img)
    ensures e == SetSlot(d, n, s)
    ensures Mirrored(d.g, d.img) ==> Mirrored(d.g, e.img)
  {
    PlaceInVolume(d, n);
    TableFrame(d.g, d.img, e.img);
  }

  // ---------------------------------------------------------------- stretching

  /** Appending a zeroed cluster keeps every slot and adds zero slots. */
  lemma StretchExtends(d: Dir, e: Dir, cs: seq<nat>, c: nat)
    requires Sound(d, cs) && d.start != 0 && Sound(e, cs + [c]) && e.g == d.g && e.start == d.start
    requires |e.img| == |d.img|
    requires forall s :: d.g.database <= s < |d.img| ==>
                           e.img[s] == if SectorIn(d.g, c, s) then Zeros() else d.img[s]
    ensures Extends(d, e)
  {
    hide DirVolume;
    forall m: nat | Has(e, m) ensures Has(d, m) ==> Slot(e, m) == Slot(d, m)
                              ensures !Has(d, m) ==> Slot(e, m)[0] == 0
    {
      StretchedSlot(d, e, cs, c, m);
    }
    forall m: nat | Has(d, m) ensures Has(e, m) {
      StretchedHas(d, e, cs, c, m);
    }
  }

  lemma StretchedHas(d: Dir, e: Dir, cs: seq<nat>, c: nat, m: nat)
    requires Sound(d, cs) && d.start != 0 && Sound(e, cs + [c]) && e.g == d.g && e.start == d.start
    requires Has(d, m)
    ensures Has(e, m)
  {
    SlotCluster(d, cs, m);
    SlotCluster(e, cs + [c], m);
  }

  lemma StretchedSlot(d: Dir, e: Dir, cs: seq<nat>, c: nat, m: nat)
    requires Sound(d, cs) && d.start != 0 && Sound(e, cs + [c]) && e.g == d.g && e.start == d.start
    requires |e.img| == |d.img| && Has(e, m)
    requires forall s :: d.g.database <= s < |d.img| ==>
                           e.img[s] == if SectorIn(d.g, c, s) then Zeros() else d.img[s]
    ensures Has(d, m) ==> Slot(e, m) == Slot(d, m)
    ensures !Has(d, m) ==> Slot(e, m)[0] == 0
  {
    var q, r := DivMod(m / 16, d.g.csize);
    SlotCluster(d, cs, m);
    SlotCluster(e, cs + [c], m);
    ClusterInVolume(d.g, (cs + [c])[q]);
    var p := Place(e, m);
    assert SectorIn(d.g, (cs + [c])[q], p);
    if q < |cs| {
      ChainDistinct(e.fat, cs + [c], q, |cs|);
      if SectorIn(d.g, c, p) {
        ClustersDisjoint(d.g, cs[q], c, p);
      }
    } else {
      assert (cs + [c])[q] == c;
      assert SectorIn(d.g, c, p);
    }
  }

  /** A directory whose last cluster was `clust` once `create_chain` has put `c` behind it and
      `dir_clear` has zeroed `c`. */
  ghost predicate Stretched(d: Dir, e: Dir, clust: U32, c: U32) {
    && e.g == d.g && e.start == d.start && |e.img| == |d.img| && |e.fat| == |d.fat|
    && InData(d.g, c) && c < |d.fat| && d.fat[c] == 0 && e.fat[c] >= |d.fat|
    && clust < |d.fat| && e.fat[clust] == c
    && (forall x :: 0 <= x < |d.fat| && x != c && x != clust ==> e.fat[x] == d.fat[x])
    && (forall s :: d.g.database <= s < |d.img| ==> e.img[s] == if SectorIn(d.g, c, s) then Zeros() else d.img[s])
  }

  /** `create_chain` behind the end of a chain, followed by `dir_clear` of the new cluster. */
  lemma CreatedStretches(a: Alloc, b: Alloc, clust: U32, c: U32, d: Dir, mid: Image, e: Dir)
    requires DirVolume(d) && e.g == d.g && e.start == d.start && a.t == d.fat && b.t == e.fat
    requires InData(d.g, clust) && d.fat[clust] >= |d.fat|
    requires (b, c) == Create(d.g.fsType, a, clust) && c >= 2
    requires OnlyFatChanged(d.g, d.img, mid) && |e.img| == |mid|
    requires forall s :: 0 <= s < |mid| ==> e.img[s] == if SectorIn(d.g, c, s) then Zeros() else mid[s]
    ensures Stretched(d, e, clust, c) && DirVolume(e)
    ensures Mirrored(d.g, mid) ==> Mirrored(d.g, e.img)
  {
    TableFits(d.g, d.fat);
    CreateOutcome(d.g.fsType, a, clust);
    ClusterInVolume(d.g, c);
  }

  lemma CreateCounts(d: Dir, a: Alloc, clust: U32)
    requires DirVolume(d) && a.t == d.fat && InData(d.g, clust) && Get(d.fat, clust) >= |d.fat|
    ensures var (b, r) := Create(d.g.fsType, a, clust);
            && (r == 0 && NoOnes(a.t) && FreeOk(a) ==> NoneFree(a.t))
            && (r == 1 ==> !NoOnes(a.t))
            && (NoOnes(a.t) ==> NoOnes(b.t))
            && (r >= 2 ==> InData(d.g, r))
            && (r < 2 ==> b == a)
            && (FreeOk(a) ==> FreeOk(b))
  {
    TableFits(d.g, d.fat);
    CreateOutcome(d.g.fsType, a, clust);
  }

  lemma TableFits(g: Geometry, t: seq<U32>)
    requires FatFits(g) && |t| == g.nFatent
    ensures TableOk(g.fsType, t)
  {
  }

  lemma OnlyFatKeeps(g: Geometry, a: Image, b: Image)
    requires FatFits(g) && g.volend <= |a| && OnlyFatChanged(g, a, b)
    ensures |b| == |a| && (Mirrored(g, a) ==> Mirrored(g, b))
  {
  }

  lemma SlotLimit(d: Dir, n: nat)
    requires DirVolume(d)
    ensures Has(d, n) ==> n < MAX_SLOTS
  {
  }

  lemma StaticSlot(d: Dir, n: nat)
    requires DirVolume(d) && d.start == 0 && n < MAX_SLOTS
    ensures Has(d, n) <==> n < d.g.nRootdir
    ensures Has(d, n) ==> StandsOn(d, n, 32 * n, 0, d.g.dirbase + 32 * n / 512) && 32 * n % 512 == 32 * (n % 16)
                          && d.g.dirbase + 32 * n / 512 < TWO32
  {
    if n < d.g.nRootdir {
      RootFits(d.g, n);
    }
  }

  /** Stretching a directory that stands on its last slot: every slot stays, the next one exists. */
  lemma StretchStep(d: Dir, e: Dir, n: nat, clust: U32, sect: int, c: U32)
    requires DirVolume(d) && DirVolume(e) && StandsOn(d, n, 32 * n, clust, sect)
    requires (32 * n + 32) % 512 == 0 && n + 1 < MAX_SLOTS
    requires clust != 0 && (32 * n + 32) / 512 % d.g.csize == 0 && Get(d.fat, clust) >= d.g.nFatent
    requires Stretched(d, e, clust, c)
    ensures Extends(d, e) && Linked(e) && Spares(d, e) && Grows(d, e) && !Has(d, n + 1) && InData(d.g, c)
    ensures StandsOn(e, n + 1, 32 * n + 32, c, ClusterBase(d.g, c))
  {
    StepToCluster(d, n, clust, sect);
    var j := n / 16 / d.g.csize;
    WalkedIsChain(d.fat, d.start, j);
    var cs := Walked(d.fat, d.start, j);
    assert cs[|cs| - 1] == clust;
    StretchSound(d, e, cs, clust, c);
    StretchExtends(d, e, cs, c);
    StretchSpares(d, e, cs, clust, c);
    StretchGrows(d, e, cs, clust, c);
    StretchStands(d, e, n, clust, sect, c);
  }

  lemma StretchStands(d: Dir, e: Dir, n: nat, clust: U32, sect: int, c: U32)
    requires DirVolume(d) && DirVolume(e) && StandsOn(d, n, 32 * n, clust, sect) && Stretched(d, e, clust, c)
    requires (32 * n + 32) % 512 == 0 && n + 1 < MAX_SLOTS
    requires clust != 0 && (32 * n + 32) / 512 % d.g.csize == 0 && Extends(d, e) && Linked(e)
    requires d.start != 0 && InData(d.g, clust) && clust < |d.fat| && d.fat[clust] >= |d.fat|
    ensures StandsOn(e, n + 1, 32 * n + 32, c, ClusterBase(d.g, c))
  {
    hide DirVolume, StandsOn, Extends, Linked, Has, Place, ClusterOf, Stretched;
    TailWalk(d, e, n, clust, sect, c);
    StretchSame(d, e, n, clust, sect);
    TailLink(d, e, clust, c);
    StepToCluster(e, n, clust, sect);
  }

  lemma TailWalk(d: Dir, e: Dir, n: nat, clust: U32, sect: int, c: U32)
    requires DirVolume(d) && StandsOn(d, n, 32 * n, clust, sect) && Stretched(d, e, clust, c)
    requires d.start != 0 && InData(d.g, clust) && d.fat[clust] >= |d.fat|
    ensures e.g == d.g && e.start == d.start && Walk(e.fat, e.start, n / 16 / d.g.csize) == clust
  {
    WalkSame(d, e, clust, c, n / 16 / d.g.csize);
  }

  lemma TailLink(d: Dir, e: Dir, clust: U32, c: U32)
    requires Stretched(d, e, clust, c) && InData(d.g, clust)
    ensures Get(e.fat, clust) == c && InData(d.g, c)
  {
  }

  lemma StretchSame(d: Dir, e: Dir, n: nat, clust: U32, sect: int)
    requires DirVolume(d) && DirVolume(e) && StandsOn(d, n, 32 * n, clust, sect) && Extends(d, e)
    requires e.g == d.g && e.start == d.start && d.start != 0
    requires Walk(e.fat, e.start, n / 16 / d.g.csize) == clust
    ensures StandsOn(e, n, 32 * n, clust, sect)
  {
    hide DirVolume, Extends;
  }

  /** Up to the old tail the walk is as before. */
  lemma {:induction false} WalkSame(d: Dir, e: Dir, clust: U32, c: U32, j: nat)
    requires Stretched(d, e, clust, c) && |d.fat| == d.g.nFatent
    requires 2 <= Walk(d.fat, d.start, j) < |d.fat| && Walk(d.fat, d.start, j) == clust
    requires InData(d.g, clust) && d.fat[clust] >= |d.fat|
    ensures Walk(e.fat, e.start, j) == clust
  {
    forall i | 0 <= i < j ensures 2 <= Walk(d.fat, d.start, i) < |d.fat| && d.fat[Walk(d.fat, d.start, i)] < |d.fat| {
      WalkBefore(d.fat, d.start, i, j);
      WalkBefore(d.fat, d.start, i + 1, j);
    }
    WalkPrefix(d, e, clust, c, j, j);
  }

  lemma {:induction false} WalkPrefix(d: Dir, e: Dir, clust: U32, c: U32, j: nat, i: nat)
    requires Stretched(d, e, clust, c) && i <= j && InData(d.g, clust) && d.fat[clust] >= |d.fat|
    requires forall k :: 0 <= k < j ==>
                           2 <= Walk(d.fat, d.start, k) < |d.fat| && d.fat[Walk(d.fat, d.start, k)] < |d.fat|
    requires 2 <= Walk(d.fat, d.start, j) < |d.fat|
    ensures Walk(e.fat, e.start, i) == Walk(d.fat, d.start, i)
    decreases i
  {
    if i > 0 {
      WalkPrefix(d, e, clust, c, j, i - 1);
      var w := Walk(d.fat, d.start, i - 1);
      assert w != clust;
      assert w != c by {
        WalkBeforeIs(d, i, j);
      }
    }
  }

  lemma WalkBeforeIs(d: Dir, i: nat, j: nat)
    requires 0 < i <= j && 2 <= Walk(d.fat, d.start, j) < |d.fat|
    ensures 2 <= Walk(d.fat, d.start, i - 1) < |d.fat| && d.fat[Walk(d.fat, d.start, i - 1)] >= 2
  {
    WalkBefore(d.fat, d.start, i - 1, j);
    WalkBefore(d.fat, d.start, i, j);
  }

  lemma StretchSound(d: Dir, e: Dir, cs: seq<nat>, clust: U32, c: U32)
    requires Sound(d, cs) && DirVolume(e) && d.start != 0 && Stretched(d, e, clust, c) && cs[|cs| - 1] == clust
    ensures Sound(e, cs + [c as nat])
  {
    var ds := cs + [c as nat];
    forall i | 0 <= i < |cs| ensures cs[i] != c && (i < |cs| - 1 ==> cs[i] != clust && e.fat[cs[i]] == ds[i + 1]) {
      assert i < |cs| - 1 ==> d.fat[cs[i]] == cs[i + 1];
      if i < |cs| - 1 {
        ChainDistinct(d.fat, cs, i, |cs| - 1);
      }
    }
  }

  /** The directory's clusters form a chain, or it is the static root. */
  ghost predicate Linked(d: Dir) {
    exists cs :: Sound(d, cs)
  }

  /** Clusters in use that are not part of the directory keep link and contents. */
  ghost predicate Spares(d: Dir, e: Dir)
    requires DirVolume(d) && DirVolume(e)
  {
    && e.g == d.g && |e.img| == |d.img|
    && forall x: nat :: Elsewhere(d, x) ==>
                          e.fat[x] == d.fat[x]
                          && forall s :: SectorIn(d.g, x, s) && 0 <= s < |d.img| ==> e.img[s] == d.img[s]
  }

  /** `x` is in use and holds no slot of the directory. */
  ghost predicate Elsewhere(d: Dir, x: nat)
    requires DirVolume(d)
    ensures Elsewhere(d, x) ==> x < |d.fat|
  {
    InData(d.g, x) && d.fat[x] != 0 && forall m: nat :: Has(d, m) && d.start != 0 ==> ClusterOf(d, m) != x
  }

  lemma StretchSpares(d: Dir, e: Dir, cs: seq<nat>, clust: U32, c: U32)
    requires Sound(d, cs) && DirVolume(e) && d.start != 0 && Stretched(d, e, clust, c)
    requires exists m: nat :: Has(d, m) && ClusterOf(d, m) == clust
    ensures Spares(d, e)
  {
    forall x: nat | Elsewhere(d, x)
      ensures e.fat[x] == d.fat[x]
      ensures forall s :: SectorIn(d.g, x, s) && 0 <= s < |d.img| ==> e.img[s] == d.img[s]
    {
      ClusterInVolume(d.g, x);
      forall s | SectorIn(d.g, x, s) && 0 <= s < |d.img| ensures e.img[s] == d.img[s] {
        if SectorIn(d.g, c, s) {
          ClustersDisjoint(d.g, c, x, s);
        }
      }
    }
  }

  lemma SetSlotSpares(d: Dir, n: nat, s: seq<Byte>)
    requires DirVolume(d) && Has(d, n) && |s| == 32
    ensures Spares(d, SetSlot(d, n, s))
  {
    var e := SetSlot(d, n, s);
    PlaceInVolume(d, n);
    forall x: nat | Elsewhere(d, x)
      ensures forall s :: SectorIn(d.g, x, s) && 0 <= s < |d.img| ==> e.img[s] == d.img[s]
    {
      ClusterInVolume(d.g, x);
      if SectorIn(d.g, x, Place(d, n)) {
        if d.start == 0 {
          RootFits(d.g, n);
        } else {
          var q, r := DivMod(n / 16, d.g.csize);
          ClustersDisjoint(d.g, ClusterOf(d, n), x, Place(d, n));
        }
      }
    }
  }

  lemma SparesTransitive(d: Dir, e: Dir, f: Dir)
    requires DirVolume(d) && DirVolume(e) && DirVolume(f)
    requires Spares(d, e) && Spares(e, f) && Grows(d, e)
    ensures Spares(d, f)
  {
    assert |f.fat| == |d.fat|;
    hide DirVolume, Has, ClusterOf;
    forall x: nat | Elsewhere(d, x)
      ensures f.fat[x] == d.fat[x]
      ensures forall s :: SectorIn(d.g, x, s) && 0 <= s < |d.img| ==> f.img[s] == d.img[s]
    {
      assert Elsewhere(e, x);
    }
  }

  /** Every slot stays where it is, new slots lie in clusters that were free, no cluster is freed. */
  ghost predicate Grows(d: Dir, e: Dir)
    requires DirVolume(d) && DirVolume(e)
  {
    && e.start == d.start && e.g == d.g
    && (forall m: nat :: Has(d, m) ==> Has(e, m) && ClusterOf(e, m) == ClusterOf(d, m))
    && (forall m: nat :: Has(e, m) && !Has(d, m) && e.start != 0 ==>
                           ClusterOf(e, m) < |d.fat| && d.fat[ClusterOf(e, m)] == 0)
    && (forall x: nat :: x < |d.fat| && d.fat[x] != 0 ==> x < |e.fat| && e.fat[x] != 0)
  }

  lemma GrowsTransitive(d: Dir, e: Dir, f: Dir)
    requires DirVolume(d) && DirVolume(e) && DirVolume(f) && Grows(d, e) && Grows(e, f)
    ensures Grows(d, f)
  {
    assert |e.fat| == |d.fat| == |f.fat|;
    hide DirVolume, Has, ClusterOf;
  }

  lemma SetSlotGrows(d: Dir, n: nat, s: seq<Byte>)
    requires DirVolume(d) && Has(d, n) && |s| == 32
    ensures Grows(d, SetSlot(d, n, s))
  {
  }

  lemma StretchGrows(d: Dir, e: Dir, cs: seq<nat>, clust: U32, c: U32)
    requires Sound(d, cs) && Sound(e, cs + [c as nat]) && d.start != 0 && Stretched(d, e, clust, c)
    ensures Grows(d, e)
  {
    var ds := cs + [c as nat];
    forall m: nat | Has(d, m) || Has(e, m)
      ensures Has(e, m) && if Has(d, m) then ClusterOf(e, m) == ClusterOf(d, m) else ClusterOf(e, m) == c
    {
      SlotCluster(d, cs, m);
      SlotCluster(e, ds, m);
    }
  }

  lemma ExtendsItself(d: Dir)
    requires DirVolume(d)
    ensures Extends(d, d) && Spares(d, d) && Grows(d, d)
  {
  }

  /** Every slot before `n` exists and is taken. */
  ghost predicate AllTaken(d: Dir, n: nat)
    requires DirVolume(d)
  {
    forall m: nat :: m < n ==> Has(d, m) && !IsFree(Slot(d, m))
  }

  /** No slot can be added: the root is static, no cluster is free, or the size limit is reached. */
  ghost predicate Full(d: Dir)
    requires DirVolume(d)
  {
    d.start == 0 || NoneFree(d.fat) || Has(d, MAX_SLOTS - 1)
  }

  lemma IsFull(d: Dir, n: nat)
    requires DirVolume(d) && Has(d, n)
    ensures d.start == 0 || NoneFree(d.fat) || n + 1 == MAX_SLOTS ==> Full(d)
  {
  }

  lemma TakenNone(d: Dir)
    requires DirVolume(d)
    ensures AllTaken(d, 0)
  {
  }

  lemma TakenStep(d: Dir, n: nat)
    requires DirVolume(d) && AllTaken(d, n) && Has(d, n) && !IsFree(Slot(d, n))
    ensures AllTaken(d, n + 1)
  {
  }

  lemma TakenThenFree(d: Dir, n: nat)
    requires DirVolume(d) && AllTaken(d, n) && Has(d, n) && IsFree(Slot(d, n))
    ensures FirstFree(d, n)
  {
  }

  lemma TakenAll(d: Dir, n: nat)
    requires DirVolume(d) && AllTaken(d, n) && !Has(d, n)
    ensures NoFree(d)
  {
    forall m: nat | Has(d, m) ensures !IsFree(Slot(d, m)) {
      if m >= n {
        HasBefore(d, n, m);
      }
    }
  }

  lemma TakenExtends(d: Dir, e: Dir, n: nat)
    requires DirVolume(d) && DirVolume(e) && AllTaken(d, n) && Extends(d, e) && Has(e, n) && !Has(d, n)
    ensures AllTaken(e, n) && IsFree(Slot(e, n))
  {
  }

  // ---------------------------------------------------------------- registering and removing

  lemma ExtendsZeroTail(d: Dir, e: Dir)
    requires DirVolume(d) && DirVolume(e) && Extends(d, e) && ZeroTail(d)
    ensures ZeroTail(e)
  {
    forall m: nat, n: nat | m < n && Has(e, m) && Has(e, n) && Slot(e, m)[0] == 0 ensures Slot(e, n)[0] == 0 {
      if Has(d, n) {
        HasBefore(d, m, n);
      }
    }
  }

  /** Zero slots at the end do not take part in lookups. */
  lemma ExtendsNames(d: Dir, e: Dir, fn: seq<Byte>, n: nat)
    requires DirVolume(d) && DirVolume(e) && Extends(d, e)
    ensures NamedAt(e, fn, n) <==> NamedAt(d, fn, n)
  {
    hide DirVolume, Has, Slot, Match;
    if NamedAt(e, fn, n) {
      assert Has(d, n);
      forall m: nat | m < n ensures Has(d, m) { HasBefore(d, m, n); }
    }
  }

  /** A name written over the first free slot: it is found there, every other lookup is as before. */
  lemma RegisteredAt(d: Dir, cs: seq<nat>, n: nat, fn: seq<Byte>, other: seq<Byte>, m: nat)
    requires Sound(d, cs) && ZeroTail(d) && FirstFree(d, n) && Usable(fn) && Usable(other)
    ensures var e := SetSlot(d, n, NewSlot(fn));
            && (NamedAt(e, other, m) <==> NamedAt(d, other, m) || (other == fn && m == n))
            && (NamedAt(d, other, m) ==> m != n && Slot(e, m) == Slot(d, m))
  {
    var e := SetSlot(d, n, NewSlot(fn));
    SlotsAfter(d, cs, n, NewSlot(fn));
    NewSlotMatches(fn, other);
    hide DirVolume, Has, Slot, Match, SetSlot, NewSlot, Sound, Place, ClusterOf;
    FreeMatchesNot(Slot(d, n), other);
  }

  lemma NewSlotMatches(fn: seq<Byte>, other: seq<Byte>)
    requires Usable(fn) && Usable(other)
    ensures NewSlot(fn)[0] != 0 && (Match(NewSlot(fn), other) <==> other == fn)
  {
    assert NewSlot(fn)[..11] == fn;
  }

  lemma FreeMatchesNot(s: seq<Byte>, other: seq<Byte>)
    requires |s| == 32 && IsFree(s) && Usable(other)
    ensures !Match(s, other)
  {
    assert s[..11][0] == s[0];
  }

  /** All slots after slot `n` has been overwritten. */
  lemma SlotsAfter(d: Dir, cs: seq<nat>, n: nat, s: seq<Byte>)
    requires Sound(d, cs) && Has(d, n) && |s| == 32
    ensures forall m: nat :: Has(SetSlot(d, n, s), m) <==> Has(d, m)
    ensures forall m: nat :: Has(d, m) ==> Slot(SetSlot(d, n, s), m) == if m == n then s else Slot(d, m)
  {
    forall m: nat ensures Has(SetSlot(d, n, s), m) <==> Has(d, m) { SetSlotHas(d, n, s, m); }
    forall m: nat | Has(d, m) ensures Slot(SetSlot(d, n, s), m) == if m == n then s else Slot(d, m) {
      SetSlotAt(d, cs, n, s, m);
    }
  }

  lemma SetSlotHas(d: Dir, n: nat, s: seq<Byte>, m: nat)
    requires DirVolume(d) && Has(d, n) && |s| == 32
    ensures Has(SetSlot(d, n, s), m) <==> Has(d, m)
  {
  }

  /** `dir_register` of an absent name on a tidy directory adds exactly that name. */
  lemma Registered(d: Dir, e: Dir, cs: seq<nat>, n: nat, fn: seq<Byte>)
    requires DirVolume(d) && Tidy(d) && Sound(e, cs) && Extends(d, e) && FirstFree(e, n)
    requires Usable(fn) && fn !in Names(d)
    ensures var f := SetSlot(e, n, NewSlot(fn));
            && Names(f) == Names(d) + iset{fn} && Tidy(f)
            && NamedAt(f, fn, n)
            && (forall other, m: nat :: Usable(other) && NamedAt(d, other, m) ==>
                                          NamedAt(f, other, m) && Slot(f, m) == Slot(d, m))
  {
    var f := SetSlot(e, n, NewSlot(fn));
    ExtendsZeroTail(d, e);
    forall other, m: nat | Usable(other)
      ensures NamedAt(f, other, m) <==> NamedAt(d, other, m) || (other == fn && m == n)
      ensures NamedAt(d, other, m) ==> Slot(f, m) == Slot(d, m)
    {
      ExtendsNames(d, e, other, m);
      RegisteredAt(e, cs, n, fn, other, m);
    }
    RegisteredZeroTail(e, cs, n, fn);
    hide DirVolume, Has, Slot, Match, SetSlot, NewSlot, Sound, NamedAt, Reached, ZeroTail;
    assert NoTwins(f) by {
      forall other, i: nat, j: nat | Usable(other) && NamedAt(f, other, i) && NamedAt(f, other, j) ensures i == j {
        if other == fn {
          assert !NamedAt(d, fn, i) && !NamedAt(d, fn, j);
        }
      }
    }
    forall other | Usable(other) ensures Contains(f, other) <==> Contains(d, other) || other == fn {
      if Contains(d, other) {
        var m: nat :| NamedAt(d, other, m);
        assert NamedAt(f, other, m);
      }
      if Contains(f, other) {
        var m: nat :| NamedAt(f, other, m);
      }
      assert NamedAt(f, fn, n);
    }
  }

  lemma RegisteredZeroTail(e: Dir, cs: seq<nat>, n: nat, fn: seq<Byte>)
    requires Sound(e, cs) && ZeroTail(e) && FirstFree(e, n) && Usable(fn)
    ensures ZeroTail(SetSlot(e, n, NewSlot(fn)))
  {
    SlotsAfter(e, cs, n, NewSlot(fn));
    NewSlotMatches(fn, fn);
    hide DirVolume, Has, Slot, Match, SetSlot, NewSlot, Sound, Place, ClusterOf;
  }

  /** `dir_remove` of the slot a lookup found takes exactly that name out. */
  lemma Removed(d: Dir, cs: seq<nat>, n: nat, fn: seq<Byte>)
    requires Sound(d, cs) && Tidy(d) && Usable(fn) && NamedAt(d, fn, n)
    ensures var f := SetSlot(d, n, DeletedSlot(Slot(d, n)));
            && Names(f) == Names(d) - iset{fn} && Tidy(f)
            && (forall other, m: nat :: Usable(other) && other != fn && NamedAt(d, other, m) ==>
                                          NamedAt(f, other, m) && Slot(f, m) == Slot(d, m))
  {
    var f := SetSlot(d, n, DeletedSlot(Slot(d, n)));
    forall other, m: nat | Usable(other)
      ensures NamedAt(f, other, m) <==> NamedAt(d, other, m) && m != n
      ensures NamedAt(d, other, m) && m != n ==> Slot(f, m) == Slot(d, m)
      ensures NamedAt(d, other, n) ==> other == fn
    {
      RemovedAt(d, cs, n, other, m);
    }
    RemovedZeroTail(d, cs, n);
    hide DirVolume, Has, Slot, Match, SetSlot, DeletedSlot, Sound, NamedAt, Reached, ZeroTail;
    assert NoTwins(f);
    forall other | Usable(other) ensures Contains(f, other) <==> Contains(d, other) && other != fn {
      if Contains(d, other) && other != fn {
        var m: nat :| NamedAt(d, other, m);
        assert NamedAt(f, other, m);
      }
      if Contains(f, other) {
        var m: nat :| NamedAt(f, other, m);
        assert NamedAt(d, other, m) && m != n;
      }
    }
  }

  lemma RemovedAt(d: Dir, cs: seq<nat>, n: nat, other: seq<Byte>, m: nat)
    requires Sound(d, cs) && Has(d, n) && Slot(d, n)[0] != 0 && Usable(other)
    ensures var e := SetSlot(d, n, DeletedSlot(Slot(d, n)));
            && (NamedAt(e, other, m) <==> NamedAt(d, other, m) && m != n)
            && (NamedAt(d, other, m) && m != n ==> Slot(e, m) == Slot(d, m))
    ensures NamedAt(d, other, n) ==> other == Slot(d, n)[..11]
  {
    var s := DeletedSlot(Slot(d, n));
    SlotsAfter(d, cs, n, s);
    FreeMatchesNot(s, other);
    assert s[0] == DDEM;
    assert NamedAt(d, other, n) ==> other == Slot(d, n)[..11];
    hide DirVolume, Has, Slot, Match, SetSlot, DeletedSlot, Sound, Place, ClusterOf;
  }

  lemma RemovedZeroTail(d: Dir, cs: seq<nat>, n: nat)
    requires Sound(d, cs) && ZeroTail(d) && Has(d, n) && Slot(d, n)[0] != 0
    ensures ZeroTail(SetSlot(d, n, DeletedSlot(Slot(d, n))))
  {
    var s := DeletedSlot(Slot(d, n));
    SlotsAfter(d, cs, n, s);
    assert s[0] == DDEM;
    hide DirVolume, Has, Slot, Match, SetSlot, DeletedSlot, Sound, Place, ClusterOf;
  }

  /** Every lookup of `d` ends on the same slot with the same contents in `e`, that of `but` excepted. */
  ghost predicate LookupsKept(d: Dir, e: Dir, but: seq<Byte>)
    requires DirVolume(d) && DirVolume(e)
  {
    forall other, m: nat :: Usable(other) && other != but && NamedAt(d, other, m) ==>
                              NamedAt(e, other, m) && Slot(e, m) == Slot(d, m)
  }

  /** `dir_alloc` followed by the write of the new slot. */
  lemma RegisterOutcome(d: Dir, e: Dir, n: nat, fn: seq<Byte>)
    requires DirVolume(d) && DirVolume(e) && Tidy(d) && Linked(e) && Extends(d, e) && FirstFree(e, n)
    requires Usable(fn) && fn !in Names(d)
    ensures var f := SetSlot(e, n, NewSlot(fn));
            && Names(f) == Names(d) + iset{fn} && Tidy(f) && Linked(f) && LookupsKept(d, f, fn)
            && NamedAt(f, fn, n)
  {
    var cs :| Sound(e, cs);
    Registered(d, e, cs, n, fn);
    SetSlotLinked(e, n, NewSlot(fn));
  }

  lemma RemoveOutcome(d: Dir, n: nat, fn: seq<Byte>)
    requires DirVolume(d) && Linked(d) && Tidy(d) && Usable(fn) && NamedAt(d, fn, n)
    ensures var f := SetSlot(d, n, DeletedSlot(Slot(d, n)));
            Names(f) == Names(d) - iset{fn} && Tidy(f) && Linked(f) && LookupsKept(d, f, fn)
  {
    var cs :| Sound(d, cs);
    Removed(d, cs, n, fn);
    SetSlotLinked(d, n, DeletedSlot(Slot(d, n)));
  }

  lemma SetSlotLinked(d: Dir, n: nat, s: seq<Byte>)
    requires DirVolume(d) && Has(d, n) && |s| == 32 && Linked(d)
    ensures Linked(SetSlot(d, n, s))
  {
    var cs :| Sound(d, cs);
    assert Sound(SetSlot(d, n, s), cs);
  }

  lemma SetSlotHere(d: Dir, n: nat, s: seq<Byte>, dptr: int, clust: int, sect: int)
    requires DirVolume(d) && StandsOn(d, n, dptr, clust, sect) && |s| == 32
    ensures StandsOn(SetSlot(d, n, s), n, dptr, clust, sect) && Slot(SetSlot(d, n, s), n) == s
  {
    PlaceInVolume(d, n);
    SetSlotHas(d, n, s, n);
    assert Place(SetSlot(d, n, s), n) == Place(d, n);
  }

  /** Every slot of `d` but `n` is in `e` as it was. */
  ghost predicate SlotsKept(d: Dir, e: Dir, n: nat)
    requires DirVolume(d) && DirVolume(e)
  {
    forall m: nat :: Has(d, m) && m != n ==> Has(e, m) && Slot(e, m) == Slot(d, m)
  }

  /** Writing the first free slot of an extended directory overwrites nothing that was in use. */
  lemma WrittenFree(d: Dir, e: Dir, n: nat, s: seq<Byte>)
    requires DirVolume(d) && DirVolume(e) && Linked(e) && Extends(d, e) && FirstFree(e, n) && |s| == 32
    ensures SlotsKept(d, SetSlot(e, n, s), n) && (Has(d, n) ==> IsFree(Slot(d, n)))
  {
    var cs :| Sound(e, cs);
    SlotsAfter(e, cs, n, s);
    hide Has, Slot, Sound, SetSlot, IsFree, DirVolume;
  }

  lemma WrittenInPlace(d: Dir, n: nat, s: seq<Byte>)
    requires DirVolume(d) && Linked(d) && Has(d, n) && |s| == 32
    ensures SlotsKept(d, SetSlot(d, n, s), n)
  {
    var cs :| Sound(d, cs);
    SlotsAfter(d, cs, n, s);
    hide Has, Slot, Sound, SetSlot, DirVolume;
  }
}
