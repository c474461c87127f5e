/** How many slots a directory has, how many of them are unused, and what an operation does to these numbers. */
module DirSpace {
  import opened Bytes
  import opened Geometry
  import opened FatTable
  import opened Chains
  import opened Volume
  import opened FileData
  import opened Directory

  // ---------------------------------------------------------------- slots

  /** The first slot from `n` on that does not exist. */
  ghost function SlotsFrom(d: Dir, n: nat): nat
    requires d.g.csize > 0
    decreases MAX_SLOTS - n
  {
    if n >= MAX_SLOTS || !Has(d, n) then n else SlotsFrom(d, n + 1)
  }

  ghost function Slots(d: Dir): nat
    requires d.g.csize > 0
  {
    SlotsFrom(d, 0)
  }

  lemma {:induction false} SlotsFromHas(d: Dir, n: nat)
    requires DirVolume(d) && n <= MAX_SLOTS && forall m: nat :: m < n ==> Has(d, m)
    ensures n <= SlotsFrom(d, n) <= MAX_SLOTS
    ensures forall m: nat :: Has(d, m) <==> m < SlotsFrom(d, n)
    decreases MAX_SLOTS - n
  {
    hide DirVolume;
    if n < MAX_SLOTS && Has(d, n) {
      SlotsFromHas(d, n + 1);
    } else {
      forall m: nat ensures Has(d, m) <==> m < n {
        if Has(d, m) && n <= m { HasBefore(d, n, m); }
      }
    }
  }

  /** A slot exists exactly when its number is below the number of slots. */
  lemma SlotsHas(d: Dir)
    requires DirVolume(d)
    ensures Slots(d) <= 0x1_0000 && forall m: nat :: Has(d, m) <==> m < Slots(d)
  {
    SlotsFromHas(d, 0);
  }

  /** That number is fixed for the static root; otherwise it grows with the chain, up to 65536. */
  lemma SlotsOfChain(d: Dir, cs: seq<nat>)
    requires Sound(d, cs)
    ensures d.start == 0 ==> Slots(d) == if d.g.nRootdir < 0x1_0000 then d.g.nRootdir else 0x1_0000
    ensures d.start != 0 ==>
              Slots(d) == if 16 * (d.g.csize * |cs|) < 0x1_0000 then 16 * (d.g.csize * |cs|) else 0x1_0000
  {
    if d.start == 0 {
      SlotsAre(d, if d.g.nRootdir < 0x1_0000 then d.g.nRootdir else 0x1_0000);
    } else {
      var k := 16 * (d.g.csize * |cs|);
      MulMono(d.g.csize, 0, |cs|);
      forall m: nat ensures Has(d, m) <==> m < 0x1_0000 && m < k { ChainSlots(d, cs, m); }
      SlotsAre(d, if k < 0x1_0000 then k else 0x1_0000);
    }
  }

  lemma SlotsAre(d: Dir, n: nat)
    requires DirVolume(d) && forall m: nat :: Has(d, m) <==> m < n
    ensures Slots(d) == n
  {
    SlotsHas(d);
    assert !Has(d, n) && !Has(d, Slots(d));
  }

  // ---------------------------------------------------------------- unused slots

  /** The number of unused slots from `n` on. */
  ghost function UnusedFrom(d: Dir, n: nat): nat
    requires DirVolume(d)
    decreases MAX_SLOTS - n
  {
    if n >= MAX_SLOTS || !Has(d, n) then 0
    else (if IsFree(Slot(d, n)) then 1 else 0) + UnusedFrom(d, n + 1)
  }

  ghost function Unused(d: Dir): nat
    requires DirVolume(d)
  {
    UnusedFrom(d, 0)
  }

  lemma {:induction false} UnusedFromNone(d: Dir, n: nat)
    requires DirVolume(d)
    ensures UnusedFrom(d, n) == 0 <==> forall m: nat :: n <= m && Has(d, m) ==> !IsFree(Slot(d, m))
    decreases MAX_SLOTS - n
  {
    hide DirVolume, Slot;
    if n < MAX_SLOTS && Has(d, n) {
      UnusedFromNone(d, n + 1);
    } else {
      forall m: nat | n <= m && Has(d, m) ensures false {
        if n < MAX_SLOTS { HasBefore(d, n, m); } else { SlotLimit(d, m); }
      }
    }
  }

  lemma UnusedNone(d: Dir)
    requires DirVolume(d)
    ensures Unused(d) == 0 <==> NoFree(d)
  {
    UnusedFromNone(d, 0);
  }

  /** The same slots, but for slot `n`. */
  ghost predicate OneChanged(d: Dir, e: Dir, n: nat)
    requires DirVolume(d) && DirVolume(e)
  {
    && Has(d, n)
    && (forall m: nat :: Has(e, m) <==> Has(d, m))
    && (forall m: nat :: m != n && Has(d, m) ==> Slot(e, m) == Slot(d, m))
  }

  lemma {:induction false} UnusedFromSet(d: Dir, e: Dir, n: nat, k: nat)
    requires DirVolume(d) && DirVolume(e) && OneChanged(d, e, n)
    ensures UnusedFrom(e, k) ==
            UnusedFrom(d, k) + if n < k then 0
                               else (if IsFree(Slot(e, n)) then 1 else 0) - (if IsFree(Slot(d, n)) then 1 else 0)
    decreases MAX_SLOTS - k
  {
    hide DirVolume, Slot, IsFree;
    SlotLimit(d, n);
    if k <= n { HasBefore(d, k, n); }
    if k < MAX_SLOTS && Has(d, k) {
      UnusedFromSet(d, e, n, k + 1);
    }
  }

  /** Overwriting a slot: as many slots as before; the unused ones follow the old and the new contents. */
  lemma SetSlotCounts(d: Dir, n: nat, s: seq<Byte>)
    requires DirVolume(d) && Linked(d) && Has(d, n) && |s| == 32
    ensures var e := SetSlot(d, n, s);
            && Slots(e) == Slots(d) && e.fat == d.fat
            && Unused(e) == Unused(d) + (if IsFree(s) then 1 else 0) - (if IsFree(Slot(d, n)) then 1 else 0)
  {
    var e := SetSlot(d, n, s);
    var cs :| Sound(d, cs);
    SlotsAfter(d, cs, n, s);
    SlotsHas(d);
    SlotsAre(e, Slots(d));
    hide DirVolume, Slot, IsFree, Has, Slots, Sound;
    UnusedFromSet(d, e, n, 0);
  }

  // ---------------------------------------------------------------- one cluster more

  /** The directory has one cluster more, of unused slots, taken from the free ones. */
  ghost predicate OneMore(d: Dir, e: Dir)
    requires DirVolume(d) && DirVolume(e)
  {
    && d.start != 0 && e.g == d.g && e.start == d.start
    && Slots(e) == Slots(d) + 16 * d.g.csize <= MAX_SLOTS
    && Unused(e) == Unused(d) + 16 * d.g.csize
    && FreeCount(d.fat) == FreeCount(e.fat) + 1
  }

  lemma {:induction false} UnusedFromExtends(d: Dir, e: Dir, k: nat)
    requires DirVolume(d) && DirVolume(e) && Extends(d, e) && k <= Slots(e)
    ensures UnusedFrom(e, k) == UnusedFrom(d, k) + Slots(e) - if k < Slots(d) then Slots(d) else k
    decreases Slots(e) - k
  {
    hide DirVolume, Slots, Has, Slot;
    SlotsHas(d);
    SlotsHas(e);
    assert !Has(e, Slots(e)) && (Has(e, k) <==> k < Slots(e)) && (Has(d, k) <==> k < Slots(d));
    if k < Slots(e) {
      UnusedFromExtends(d, e, k + 1);
    }
  }

  lemma UnusedExtends(d: Dir, e: Dir)
    requires DirVolume(d) && DirVolume(e) && Extends(d, e)
    ensures Unused(e) == Unused(d) + Slots(e) - Slots(d)
  {
    UnusedFromExtends(d, e, 0);
  }

  /** The number of slots of a chain of clusters. */
  lemma ChainSlots(d: Dir, cs: seq<nat>, m: nat)
    requires Sound(d, cs) && d.start != 0
    ensures Has(d, m) <==> m < MAX_SLOTS && m < 16 * (d.g.csize * |cs|)
  {
    SlotCluster(d, cs, m);
    hide DirVolume, Sound;
    SlotGroup(m, d.g.csize, |cs|);
  }

  lemma SlotGroup(m: nat, c: nat, k: nat)
    requires c > 0
    ensures m / 16 / c < k <==> m < 16 * (c * k)
  {
    var q, r := DivMod(m / 16, c);
    if q < k {
      MulMono(c, q + 1, k);
      assert c * (q + 1) == c * q + c;
    } else {
      MulMono(c, k, q);
    }
  }

  /** The last slot possible ends a cluster. */
  lemma SlotsPerCluster(c: nat, k: nat)
    requires IsPow2Byte(c) && 16 * (c * k) < MAX_SLOTS
    ensures 16 * (c * (k + 1)) == 16 * (c * k) + 16 * c <= MAX_SLOTS
  {
  }

  /** What stretching does to the numbers. */
  lemma StretchCounts(d: Dir, e: Dir, n: nat, clust: U32, sect: int, c: U32)
    requires DirVolume(d) && DirVolume(e) && StandsOn(d, n, 32 * n, clust, sect)
    requires (32 * n + 32) % 512 == 0 && n + 1 < MAX_SLOTS
    requires clust != 0 && (32 * n + 32) / 512 % d.g.csize == 0 && Get(d.fat, clust) >= d.g.nFatent
    requires Stretched(d, e, clust, c)
    ensures OneMore(d, e)
  {
    hide DirVolume, Sound, Stretched, StandsOn, Has, Walked, Extends, FreeCount, Slots, Unused, Linked, Spares, Grows,
         Get;
    StepToCluster(d, n, clust, sect);
    TailEnds(d, clust);
    StretchStep(d, e, n, clust, sect, c);
    StretchedSlots(d, e, n, clust, sect, c);
    StretchedFree(d, e, clust, c);
    UnusedExtends(d, e);
  }

  lemma TailEnds(d: Dir, clust: U32)
    requires DirVolume(d) && InData(d.g, clust) && Get(d.fat, clust) >= d.g.nFatent
    ensures clust < |d.fat| && d.fat[clust] >= |d.fat|
  {
  }

  lemma StretchedFree(d: Dir, e: Dir, clust: U32, c: U32)
    requires DirVolume(d) && InData(d.g, clust) && d.fat[clust] >= |d.fat| && Stretched(d, e, clust, c)
    ensures FreeCount(d.fat) == FreeCount(e.fat) + 1 && e.g == d.g && e.start == d.start
  {
    assert TakenFrom(d.fat, e.fat, [c as nat]);
    TakenFromCount(d.fat, e.fat, [c as nat]);
  }

  lemma StretchedSlots(d: Dir, e: Dir, n: nat, clust: U32, sect: int, c: U32)
    requires DirVolume(d) && DirVolume(e) && StandsOn(d, n, 32 * n, clust, sect) && Stretched(d, e, clust, c)
    requires d.start != 0 && InData(d.g, clust) && d.fat[clust] >= |d.fat| && !Has(d, n + 1) && n + 1 < MAX_SLOTS
    ensures Slots(e) == Slots(d) + 16 * d.g.csize <= MAX_SLOTS
  {
    var j := n / 16 / d.g.csize;
    var cs := Walked(d.fat, d.start, j);
    WalkedIsChain(d.fat, d.start, j);
    assert cs[|cs| - 1] == clust;
    StretchSound(d, e, cs, clust, c);
    ChainLength(d, e, cs, c, n);
  }

  lemma ChainLength(d: Dir, e: Dir, cs: seq<nat>, c: U32, n: nat)
    requires Sound(d, cs) && Sound(e, cs + [c as nat]) && d.start != 0 && e.start == d.start && e.g == d.g
    requires !Has(d, n + 1) && n + 1 < MAX_SLOTS
    ensures Slots(e) == Slots(d) + 16 * d.g.csize <= MAX_SLOTS
  {
    var k := 16 * (d.g.csize * |cs|);
    forall m: nat ensures Has(d, m) <==> m < MAX_SLOTS && m < k { ChainSlots(d, cs, m); }
    SlotsPerCluster(d.g.csize, |cs|);
    forall m: nat ensures Has(e, m) <==> m < k + 16 * d.g.csize { ChainSlots(e, cs + [c as nat], m); }
    hide Has, Sound, Slots;
    SlotsAre(d, k);
    SlotsAre(e, k + 16 * d.g.csize);
  }

  // ---------------------------------------------------------------- registering and removing

  /** A slot more is in use: an unused one if there was one, otherwise the first of a new cluster. */
  ghost predicate OneUsed(d: Dir, e: Dir)
    requires DirVolume(d) && DirVolume(e)
  {
    if Unused(d) > 0 then
      Slots(e) == Slots(d) && Unused(e) + 1 == Unused(d) && FreeCount(e.fat) == FreeCount(d.fat)
    else
      && d.start != 0 && Slots(e) == Slots(d) + 16 * d.g.csize <= MAX_SLOTS && Unused(e) + 1 == 16 * d.g.csize
      && FreeCount(e.fat) + 1 == FreeCount(d.fat)
  }

  lemma RegisterCounts(d: Dir, e: Dir, n: nat, fn: seq<Byte>)
    requires DirVolume(d) && DirVolume(e) && Linked(e) && FirstFree(e, n) && Usable(fn)
    requires e == d || (OneMore(d, e) && NoFree(d))
    ensures OneUsed(d, SetSlot(e, n, NewSlot(fn)))
  {
    UsedSlot(fn);
    FreeSlotThere(e, n);
    hide DirVolume, Linked, Slots, Unused, SetSlot, NewSlot, FirstFree, NoFree, Slot, FreeCount, IsFree;
    SetSlotCounts(e, n, NewSlot(fn));
    UnusedNone(d);
    UnusedNone(e);
  }

  lemma UsedSlot(fn: seq<Byte>)
    requires Usable(fn)
    ensures !IsFree(NewSlot(fn))
  {
  }

  lemma FreeSlotThere(e: Dir, n: nat)
    requires DirVolume(e) && FirstFree(e, n)
    ensures Has(e, n) && IsFree(Slot(e, n)) && !NoFree(e)
  {
  }

  /** A slot less is in use. */
  ghost predicate OneReleased(d: Dir, e: Dir)
    requires DirVolume(d) && DirVolume(e)
  {
    Slots(e) == Slots(d) && Unused(e) == Unused(d) + 1 && FreeCount(e.fat) == FreeCount(d.fat)
  }

  lemma RemoveCounts(d: Dir, n: nat, fn: seq<Byte>)
    requires DirVolume(d) && Linked(d) && Usable(fn) && NamedAt(d, fn, n)
    ensures OneReleased(d, SetSlot(d, n, DeletedSlot(Slot(d, n))))
  {
    NamedNotFree(d, fn, n);
    hide DirVolume, Linked, Slots, Unused, SetSlot, NamedAt, Slot, FreeCount;
    SetSlotCounts(d, n, DeletedSlot(Slot(d, n)));
  }

  lemma NamedNotFree(d: Dir, fn: seq<Byte>, n: nat)
    requires DirVolume(d) && Usable(fn) && NamedAt(d, fn, n)
    ensures Has(d, n) && !IsFree(Slot(d, n))
  {
    if IsFree(Slot(d, n)) {
      FreeMatchesNot(Slot(d, n), fn);
    }
  }
}
