/** The directory object: `dir_sdi`, `dir_next`, `dir_find`, `dir_alloc`, `dir_register`, `dir_remove`. */
module DirObject {
  import opened Bytes
  import opened Geometry
  import opened FatTable
  import opened Chains
  import opened Volume
  import opened FileData
  import opened Directory
  import opened DirSpace
  import F = DirFiles

  datatype DirResult = DirOk | NoFile | IntErr | Denied

  class DIR {
    const fs: FatFs
    const sclust: U32      // start cluster of the directory, 0 for the root
    var fn: seq<Byte>      // the name to find or register, as `create_name` left it
    var dptr: U32
    var clust: U32
    var sect: U32
    var dirp: nat          // dir - win

    constructor (vol: FatFs, start: U32, name: seq<Byte>)
      requires |name| == 11
      ensures fs == vol && sclust == start && fn == name && sect == 0
    {
      fs, sclust, fn := vol, start, name;
      dptr, clust, sect, dirp := 0, 0, 0, 0;
    }

    /** The start cluster with 0 replaced by the root cluster on FAT32. */
    function Start(): U32 {
      if sclust == 0 && fs.g.fsType == Fat32 then fs.g.dirbase else sclust
    }

    ghost function D(): Dir
      reads fs`img, fs`fat
    {
      Dir(fs.g, fs.img, fs.fat, Start())
    }

    ghost predicate Wired()
      reads fs`disk, fs`wflag, fs`winsect, fs`img, fs`fat, fs`freeClst, fs`lastClst, fs`fsiFlag, fs.win
      ensures Wired() ==> DirVolume(D()) && fs.Valid() && WellFormed(fs.g) && |fs.fat| == fs.g.nFatent
    {
      fs.Valid() && WellFormed(fs.g)
    }

    /** The object stands on slot `n`. */
    ghost predicate At(n: nat)
      requires DirVolume(D())
      reads `dptr, `clust, `sect, `dirp, fs`img, fs`fat
      ensures At(n) ==> Has(D(), n) && sect != 0 && dptr == 32 * n
    {
      StandsOn(D(), n, dptr, clust, sect) && dirp == 32 * (n % 16)
    }

    // ------------------------------------------------------------ moving

    /** `dir_sdi` */
    method Sdi(ofs: U32) returns (res: DirResult)
      requires Wired()
      modifies `dptr, `clust, `sect, `dirp, fs`disk, fs`wflag, fs`winsect, fs.win
      ensures Wired()
      ensures D().start == if sclust == 0 && fs.g.fsType == Fat32 then fs.g.dirbase else sclust
      ensures res == if ofs % 32 == 0 && Has(D(), ofs / 32) then DirOk else IntErr
      ensures res == DirOk ==> At(ofs / 32)
    {
      hide FatFs.Base, FatFs.Valid, Has, StandsOn, WellFormed, DirVolume, Place;
      SlotLimit(D(), ofs / 32);
      if ofs >= MAX_DIR || ofs % SZDIRE != 0 { return IntErr; }
      ghost var n := ofs / 32;
      dptr := ofs;
      var clst := sclust;
      if clst == 0 && fs.g.fsType == Fat32 { clst := fs.g.dirbase; }
      if clst == 0 {
        StaticSlot(D(), n);
        if ofs / SZDIRE >= fs.g.nRootdir { return IntErr; }
        clust := clst;
        sect := fs.g.dirbase + ofs / 512;
        dirp := ofs % 512;
      } else {
        var ok := Follow(clst, ofs);
        if !ok { return IntErr; }
      }
      res := DirOk;
    }

    /** The dynamic-table part of `dir_sdi`: follows the cluster chain to offset `ofs`. */
    method Follow(start: U32, ofs: U32) returns (ok: bool)
      requires Wired() && start == Start() != 0 && ofs < MAX_DIR && ofs % 32 == 0 && dptr == ofs
      modifies `clust, `sect, `dirp, fs`disk, fs`wflag, fs`winsect, fs.win
      ensures Wired()
      ensures ok <==> Has(D(), ofs / 32)
      ensures ok ==> At(ofs / 32)
    {
      hide FatFs.Base, FatFs.Valid, Has, StandsOn, DirVolume, Place;
      ghost var n := ofs / 32;
      var csz := fs.g.csize * 512;
      var clst := start;
      var rest: int := ofs;
      ghost var j := 0;
      while rest >= csz
        invariant Wired() && clst == Walk(fs.fat, start, j)
        invariant 0 <= rest && rest + 512 * (fs.g.csize * j) == 32 * n
        decreases rest
      {
        clst := fs.GetFat(clst);
        j := j + 1;
        assert fs.g.csize * j == fs.g.csize * (j - 1) + fs.g.csize;
        if clst < 2 || clst >= fs.g.nFatent {
          LostSlot(D(), n, j);
          return false;
        }
        rest := rest - csz;
      }
      FoundSlot(D(), n, j, clst, rest);
      var s := Clst2Sect(fs.g, clst);
      clust := clst;
      if s == 0 { return false; }
      ClusterInVolume(fs.g, clst);
      PlaceBound(D(), n);
      sect := s + rest / 512;
      dirp := rest % 512;
      ok := true;
    }

    /** `create_chain` behind the last cluster, then `dir_clear` of the new one: 0 without a free
        cluster, 1 on an internal error. */
    method AppendCluster() returns (c: U32)
      requires Wired() && InData(fs.g, clust) && Get(fs.fat, clust) >= fs.g.nFatent
      modifies fs, fs.win
      ensures Wired()
      ensures c < 2 ==> D() == old(D()) && fs.State() == old(fs.State())
      ensures c >= 2 ==> Stretched(old(D()), D(), clust, c)
      ensures c == 0 ==> NoOnes(fs.fat) && FreeOk(fs.State()) ==> NoneFree(fs.fat)
      ensures c == 1 ==> !NoOnes(fs.fat)
      ensures old(Mirrored(fs.g, fs.img)) ==> Mirrored(fs.g, fs.img)
      ensures old(FreeOk(fs.State())) ==> FreeOk(fs.State())
      ensures old(NoOnes(fs.fat)) ==> NoOnes(fs.fat)
    {
      hide FatFs.Base, FatFs.Valid, DirVolume, FreeOk, NoOnes, NoneFree, Mirrored, Create, Stretched,
           OnlyFatChanged, WellFormed, FatFits, ClustersFit;
      ghost var d, a := D(), fs.State();
      CreateCounts(d, a, clust);
      c := fs.CreateChain(clust);
      OnlyFatKeeps(fs.g, d.img, fs.img);
      if c >= 2 {
        ghost var mid, b := fs.img, fs.State();
        fs.DirClear(c);
        CreatedStretches(a, b, clust, c, d, mid, D());
      }
    }

    /** The stretching part of `dir_next`. */
    method StretchTail(ghost n: nat, ghost s0: int) returns (c: U32)
      requires Wired() && StandsOn(D(), n, 32 * n, clust, s0) && (32 * n + 32) % 512 == 0 && n + 1 < MAX_SLOTS
      requires clust != 0 && (32 * n + 32) / 512 % fs.g.csize == 0 && Get(fs.fat, clust) >= fs.g.nFatent
      modifies fs, fs.win
      ensures Wired()
      ensures c < 2 ==> D() == old(D()) && fs.State() == old(fs.State())
      ensures c >= 2 ==> InData(fs.g, c) && StandsOn(D(), n + 1, 32 * n + 32, c, ClusterBase(fs.g, c))
      ensures c >= 2 ==> Extends(old(D()), D()) && Linked(D()) && Spares(old(D()), D()) && Grows(old(D()), D())
      ensures c >= 2 ==> OneMore(old(D()), D())
      ensures c == 0 ==> NoOnes(fs.fat) && FreeOk(fs.State()) ==> NoneFree(fs.fat)
      ensures c == 1 ==> !NoOnes(fs.fat)
      ensures old(Mirrored(fs.g, fs.img)) ==> Mirrored(fs.g, fs.img)
      ensures old(FreeOk(fs.State())) ==> FreeOk(fs.State())
      ensures old(NoOnes(fs.fat)) ==> NoOnes(fs.fat)
    {
      hide FatFs.Base, FatFs.Valid, Has, StandsOn, DirVolume, Place, Extends, Linked, Spares, Grows,
           FreeOk, NoOnes, NoneFree, Mirrored, Stretched, WellFormed, OneMore;
      ghost var d := D();
      StepToCluster(d, n, clust, s0);
      c := AppendCluster();
      if c >= 2 {
        StretchStep(d, D(), n, clust, s0, c);
        StretchCounts(d, D(), n, clust, s0, c);
      }
    }

    /** The sector-change part of `dir_next`. */
    method CrossSector(stretch: bool, ghost n: nat) returns (res: DirResult)
      requires Wired() && At(n) && (32 * n + 32) % 512 == 0 && n + 1 < MAX_SLOTS
      modifies `clust, `sect, fs, fs.win
      ensures Wired()
      ensures old(Has(D(), n + 1)) ==> res == DirOk && D() == old(D()) && fs.State() == old(fs.State())
      ensures res != DirOk ==> D() == old(D())
      ensures res == DirOk ==> StandsOn(D(), n + 1, 32 * n + 32, clust, sect)
      ensures res == DirOk && !old(Has(D(), n + 1)) ==>
                && stretch && Extends(old(D()), D()) && Linked(D()) && Spares(old(D()), D()) && Grows(old(D()), D())
                && OneMore(old(D()), D())
      ensures res != DirOk || !stretch ==> fs.State() == old(fs.State())
      ensures res == NoFile ==> sect == 0 && (stretch ==> Start() == 0)
      ensures res == IntErr ==> Start() != 0 && (Get(fs.fat, old(clust)) < 2 || (stretch && !NoOnes(fs.fat)))
      ensures res == Denied ==> stretch && (NoOnes(fs.fat) && FreeOk(fs.State()) ==> NoneFree(fs.fat))
      ensures old(Mirrored(fs.g, fs.img)) ==> Mirrored(fs.g, fs.img)
      ensures old(FreeOk(fs.State())) ==> FreeOk(fs.State())
      ensures old(NoOnes(fs.fat)) ==> NoOnes(fs.fat)
    {
      hide FatFs.Base, FatFs.Valid, Has, StandsOn, WellFormed, DirVolume, Place, Extends, Linked, Spares, Grows;
      hide OneMore, FreeOk, NoOnes, NoneFree, Mirrored;
      ghost var d, s0 := D(), sect;
      var ofs := dptr + SZDIRE;
      sect := (sect + 1) % 0x1_0000_0000;
      if clust == 0 {
        StepToSector(d, n, clust, s0);
        if ofs / SZDIRE >= fs.g.nRootdir {
          sect := 0;
          return NoFile;
        }
      } else if ofs / 512 % fs.g.csize != 0 {
        StepToSector(d, n, clust, s0);
      } else {
        StepToCluster(d, n, clust, s0);
        var clst := fs.GetFat(clust);
        if clst <= 1 { return IntErr; }
        if clst >= fs.g.nFatent {
          if !stretch {
            sect := 0;
            return NoFile;
          }
          clst := StretchTail(n, s0);
          if clst == 0 { return Denied; }
          if clst == 1 { return IntErr; }
        }
        clust := clst;
        sect := Clst2Sect(fs.g, clst);
      }
      res := DirOk;
    }

    /** `dir_next`. `n` is the slot the object stands on. */
    method Next(stretch: bool, ghost n: nat) returns (res: DirResult)
      requires Wired() && (sect == 0 || At(n))
      modifies `dptr, `clust, `sect, `dirp, fs, fs.win
      ensures Wired()
      // within the table: on to the next slot, nothing else changes
      ensures old(sect != 0 && Has(D(), n + 1)) ==>
                res == DirOk && D() == old(D()) && At(n + 1) && fs.State() == old(fs.State())
      // at its end: no more slots, unless the table can be stretched by a zeroed cluster
      ensures old(sect == 0 || !Has(D(), n + 1)) && res != DirOk ==> D() == old(D())
      ensures old(sect != 0 && !Has(D(), n + 1)) && res == DirOk ==>
                stretch && At(n + 1) && Extends(old(D()), D()) && Linked(D())
                && Spares(old(D()), D()) && Grows(old(D()), D()) && OneMore(old(D()), D())
      ensures res == NoFile ==> sect == 0 && (stretch ==> old(sect) == 0 || Start() == 0 || n + 1 == MAX_SLOTS)
      ensures old(sect == 0) ==> res == NoFile
      ensures res != DirOk || !stretch ==> fs.State() == old(fs.State())
      ensures res == IntErr ==> Start() != 0 && (Get(fs.fat, old(clust)) < 2 || (stretch && !NoOnes(fs.fat)))
      ensures res == Denied ==> stretch && (NoOnes(fs.fat) && FreeOk(fs.State()) ==> NoneFree(fs.fat))
      ensures old(Mirrored(fs.g, fs.img)) ==> Mirrored(fs.g, fs.img)
      ensures old(FreeOk(fs.State())) ==> FreeOk(fs.State())
      ensures old(NoOnes(fs.fat)) ==> NoOnes(fs.fat)
    {
      hide FatFs.Base, FatFs.Valid, Has, StandsOn, WellFormed, DirVolume, Place, Extends, Linked, Spares, Grows,
           OneMore, FreeOk, NoOnes, NoneFree, Mirrored, Get;
      SlotOffset(n + 1);
      var ofs: int := dptr + SZDIRE;
      if sect != 0 { SlotLimit(D(), n); }
      if ofs >= MAX_DIR { sect := 0; SlotLimit(D(), n + 1); }
      if sect == 0 { return NoFile; }
      if ofs % 512 != 0 {
        StepInSector(D(), n, clust, sect);
      } else {
        res := CrossSector(stretch, n);
        if res != DirOk { return; }
      }
      dptr := ofs;
      dirp := ofs % 512;
      res := DirOk;
    }

    // ------------------------------------------------------------ finding

    /** Shows the slot under the object in the window and compares its name and attribute with `fn`. */
    method Look(ghost n: nat) returns (c: Byte, hit: bool)
      requires Wired() && At(n) && |fn| == 11
      modifies fs`disk, fs`wflag, fs`winsect, fs.win
      ensures Wired() && At(n) && fs.winsect == sect
      ensures c == Slot(D(), n)[0] && (hit <==> Match(Slot(D(), n), fn))
    {
      SlotUnder(D(), n, dptr, clust, sect);
      hide FatFs.Base, StandsOn, DirVolume, Slot, Has;
      fs.MoveWindow(sect);
      ghost var s := Slot(D(), n);
      assert forall k :: 0 <= k < 32 ==> fs.win[dirp + k] == s[k];
      c := fs.win[dirp];
      hit := fs.win[dirp + DIR_Attr] / 8 % 2 == 0;
      if hit {
        hit := SameName(s);
      }
    }

    /** `memcmp(dir, fn, 11) == 0` */
    method SameName(ghost s: seq<Byte>) returns (same: bool)
      requires fs.win.Length == 512 && dirp + 32 <= 512 && |fn| == 11 && |s| == 32
      requires forall k :: 0 <= k < 32 ==> fs.win[dirp + k] == s[k]
      ensures same <==> s[..11] == fn
    {
      for i := 0 to 11
        invariant s[..i] == fn[..i]
      {
        if fs.win[dirp + i] != fn[i] {
          assert s[..11][i] != fn[i];
          return false;
        }
      }
      assert fn[..11] == fn;
      same := true;
    }

    /** The loop body of `dir_find` on slot `n`: the answer, or on to the next slot. */
    method Visit(ghost n: nat) returns (res: DirResult, more: bool)
      requires Wired() && |fn| == 11 && At(n) && Passed(D(), fn, n)
      modifies `dptr, `clust, `sect, `dirp, fs, fs.win
      ensures Wired() && D() == old(D()) && fs.State() == old(fs.State())
      ensures more ==> At(n + 1) && Passed(D(), fn, n + 1)
      ensures !more ==> (res == DirOk <==> Contains(D(), fn)) && (res == DirOk || res == NoFile || res == IntErr)
      ensures !more && res == DirOk ==> At(n) && NamedAt(D(), fn, n) && fs.winsect == sect
      ensures !more && Linked(D()) ==> res != IntErr
    {
      hide FatFs.Base, FatFs.Valid, StandsOn, DirVolume, Slot, Has, Match, Linked, Place, Contains, Passed, NamedAt,
           FreeOk, NoOnes, NoneFree, Mirrored, WellFormed, Extends, Spares, Grows, Get;
      var c, hit := Look(n);
      LookupEnds(D(), fn, n);
      if c == 0 { return NoFile, false; }
      if hit { return DirOk, false; }
      PassedStep(D(), fn, n);
      if Linked(D()) { LinkedLink(D(), n, dptr, clust, sect); }
      res := Next(false, n);
      more := res == DirOk;
      if !more { LookupEnds(D(), fn, n + 1); }
    }

    /** `dir_find`: ends on any table, cyclic ones included, because the offset is bounded. */
    method Find() returns (res: DirResult, ghost n: nat)
      requires Wired() && |fn| == 11
      modifies `dptr, `clust, `sect, `dirp, fs, fs.win
      ensures Wired() && D() == old(D()) && fs.State() == old(fs.State())
      ensures res == DirOk <==> Contains(D(), fn)
      ensures res == DirOk ==> At(n) && NamedAt(D(), fn, n) && fs.winsect == sect
      ensures res == DirOk ==> forall m: nat :: m < n ==> !NamedAt(D(), fn, m)
      ensures res == DirOk || res == NoFile || res == IntErr
      ensures Linked(D()) ==> res != IntErr
    {
      hide FatFs.Base, FatFs.Valid, StandsOn, DirVolume, Slot, Has, Match, Linked, Place, Contains, Passed, NamedAt,
           WellFormed;
      n := 0;
      if Linked(D()) { LinkedHasFirst(D()); }
      PassedNone(D(), fn);
      res := Sdi(0);
      if res != DirOk { LookupEnds(D(), fn, 0); return; }
      while true
        invariant Wired() && D() == old(D()) && fs.State() == old(fs.State()) && |fn| == 11
        invariant At(n) && Passed(D(), fn, n)
        decreases MAX_SLOTS - n
      {
        SlotLimit(D(), n);
        LookupEnds(D(), fn, n);
        var more;
        res, more := Visit(n);
        if !more { return; }
        n := n + 1;
      }
    }

    // ------------------------------------------------------------ registering

    /** The step of the loop of `dir_alloc`: on to the next slot, in a stretched table if need be. */
    method Advance(ghost n: nat) returns (res: DirResult)
      requires Wired() && At(n) && AllTaken(D(), n + 1)
      modifies `dptr, `clust, `sect, `dirp, fs, fs.win
      ensures Wired()
      ensures res == DirOk ==> At(n + 1) && AllTaken(D(), n + 1)
      ensures res == DirOk ==>
                (D() == old(D()) && fs.State() == old(fs.State()))
                || (IsFree(Slot(D(), n + 1)) && OneMore(old(D()), D()) && NoFree(old(D())))
      ensures res == DirOk ==> Extends(old(D()), D()) && Spares(old(D()), D()) && Grows(old(D()), D())
      ensures res == DirOk && old(Linked(D())) ==> Linked(D())
      ensures res != DirOk ==> D() == old(D()) && fs.State() == old(fs.State()) && NoFree(D())
      ensures res != DirOk && Linked(D()) && NoOnes(fs.fat) && FreeOk(fs.State()) ==> Full(D())
      ensures res != NoFile
      ensures old(Mirrored(fs.g, fs.img)) ==> Mirrored(fs.g, fs.img)
      ensures old(FreeOk(fs.State())) ==> FreeOk(fs.State())
      ensures old(NoOnes(fs.fat)) ==> NoOnes(fs.fat)
    {
      hide FatFs.Base, FatFs.Valid, StandsOn, DirVolume, Slot, Has, Linked, Place, WellFormed, Extends,
           Spares, Grows, FreeOk, Mirrored, NoFree, AllTaken, IsFree, Full, NoOnes, NoneFree, Get, OneMore;
      ghost var d := D();
      ExtendsItself(d);
      IsFull(d, n);
      if Linked(d) { LinkedLink(d, n, dptr, clust, sect); }
      ghost var more := Has(d, n + 1);
      res := Next(true, n);
      if res != DirOk {
        TakenAll(d, n + 1);
        res := if res == NoFile then Denied else res;
      } else if !more {
        TakenExtends(d, D(), n + 1);
        TakenAll(d, n + 1);
      }
    }

    /** `dir_alloc` for a single entry: the first free slot, in a table stretched if it has none. */
    method Alloc() returns (res: DirResult, ghost n: nat)
      requires Wired() && |fn| == 11
      modifies `dptr, `clust, `sect, `dirp, fs, fs.win
      ensures Wired()
      ensures res == DirOk ==> At(n) && FirstFree(D(), n) && Extends(old(D()), D())
      ensures res == DirOk ==> Spares(old(D()), D()) && Grows(old(D()), D())
      ensures res == DirOk ==> D() == old(D()) || (OneMore(old(D()), D()) && old(NoFree(D())))
      ensures res == DirOk && old(Linked(D())) ==> Linked(D())
      ensures res != DirOk ==> D() == old(D()) && fs.State() == old(fs.State()) && NoFree(D())
      ensures res != DirOk && Linked(D()) && NoOnes(fs.fat) && FreeOk(fs.State()) ==> Full(D())
      ensures res != NoFile
      ensures old(Mirrored(fs.g, fs.img)) ==> Mirrored(fs.g, fs.img)
      ensures old(FreeOk(fs.State())) ==> FreeOk(fs.State())
      ensures old(NoOnes(fs.fat)) ==> NoOnes(fs.fat)
    {
      hide FatFs.Base, FatFs.Valid, StandsOn, DirVolume, Slot, Has, Linked, Place, WellFormed, Extends,
           Spares, Grows, FreeOk, Mirrored, NoFree, FirstFree, AllTaken, IsFree, Full, NoOnes, OneMore;
      n := 0;
      ghost var d := D();
      ExtendsItself(d);
      TakenNone(d);
      if Linked(d) { LinkedHasFirst(d); }
      res := Sdi(0);
      if res != DirOk { TakenAll(d, 0); return; }
      while true
        invariant Wired() && |fn| == 11 && At(n)
        invariant AllTaken(D(), n) && Extends(d, D()) && Spares(d, D()) && Grows(d, D())
        invariant (D() == d && fs.State() == old(fs.State()))
                  || (IsFree(Slot(D(), n)) && OneMore(d, D()) && NoFree(d))
        invariant old(Linked(D())) ==> Linked(D())
        invariant old(Mirrored(fs.g, fs.img)) ==> Mirrored(fs.g, fs.img)
        invariant old(FreeOk(fs.State())) ==> FreeOk(fs.State())
        invariant old(NoOnes(fs.fat)) ==> NoOnes(fs.fat)
        decreases MAX_SLOTS - n
      {
        SlotLimit(D(), n);
        var free := LookFree(n);
        if free {
          TakenThenFree(D(), n);
          return DirOk, n;
        }
        TakenStep(D(), n);
        res := Advance(n);
        if res != DirOk { return; }
        n := n + 1;
      }
    }

    method LookFree(ghost n: nat) returns (free: bool)
      requires Wired() && At(n)
      modifies fs`disk, fs`wflag, fs`winsect, fs.win
      ensures Wired() && At(n) && fs.winsect == sect
      ensures free <==> IsFree(Slot(D(), n))
    {
      SlotUnder(D(), n, dptr, clust, sect);
      hide FatFs.Base, StandsOn, DirVolume;
      fs.MoveWindow(sect);
      assert fs.win[dirp] == Slot(D(), n)[0];
      free := fs.win[dirp] == DDEM || fs.win[dirp] == 0;
    }

    /** Writes the slot under the object into the window: zeros, then the name. */
    method FillSlot()
      requires fs.win.Length == 512 && dirp + 32 <= 512 && |fn| == 11
      modifies fs.win
      ensures fs.win[..] == Splice(old(fs.win[..]), dirp, NewSlot(fn))
    {
      for i := 0 to 32
        invariant forall k :: 0 <= k < 512 ==> fs.win[k] == if dirp <= k < dirp + i then 0 else old(fs.win[k])
      {
        fs.win[dirp + i] := 0;
      }
      for i := 0 to 11
        invariant forall k :: 0 <= k < 512 ==>
                                fs.win[k] == if dirp <= k < dirp + i then fn[k - dirp]
                                             else if dirp <= k < dirp + 32 then 0 else old(fs.win[k])
      {
        fs.win[dirp + i] := fn[i];
      }
    }

    /** The end of `dir_register`: the slot under the object becomes a fresh entry of that name. */
    method WriteName(ghost n: nat)
      requires Wired() && At(n) && |fn| == 11
      modifies fs`disk, fs`wflag, fs`winsect, fs`img, fs`fat, fs.win
      ensures Wired() && At(n) && fs.State() == old(fs.State())
      ensures D() == SetSlot(old(D()), n, NewSlot(fn)) && Slot(D(), n) == NewSlot(fn)
      ensures old(Mirrored(fs.g, fs.img)) ==> Mirrored(fs.g, fs.img)
    {
      SlotUnder(D(), n, dptr, clust, sect);
      hide StandsOn, DirVolume, Slot, SetSlot, NewSlot, Has, Put, FatFits;
      ghost var d := D();
      SetSlotHere(d, n, NewSlot(fn), dptr, clust, sect);
      fs.MoveWindow(sect);
      FillSlot();
      fs.MarkDirty();
      WrittenSlot(d, n, dptr, clust, sect, NewSlot(fn), D());
    }

    /** `dir_register` */
    method Register() returns (res: DirResult, ghost n: nat)
      requires Wired() && |fn| == 11
      modifies `dptr, `clust, `sect, `dirp, fs, fs.win
      ensures Wired()
      ensures res == DirOk ==>
                && At(n) && Spares(old(D()), D()) && Grows(old(D()), D())
                // the name, and nothing but zeros behind it
                && Slot(D(), n)[..11] == fn && forall i :: 11 <= i < 32 ==> Slot(D(), n)[i] == 0
      // on a well-formed chain only a free slot, or a new one, is written
      ensures res == DirOk && old(Linked(D())) ==>
                SlotsKept(old(D()), D(), n) && (Has(old(D()), n) ==> IsFree(Slot(old(D()), n)))
      ensures res == DirOk && old(Linked(D()) && Tidy(D()) && Usable(fn) && fn !in Names(D())) ==>
                && Names(D()) == old(Names(D())) + iset{fn} && NamedAt(D(), fn, n) && OneUsed(old(D()), D())
                && Tidy(D()) && Linked(D()) && LookupsKept(old(D()), D(), fn)
      ensures res != DirOk ==> D() == old(D()) && fs.State() == old(fs.State()) && NoFree(D())
      ensures res != DirOk && Linked(D()) && NoOnes(fs.fat) && FreeOk(fs.State()) ==> Full(D())
      ensures res != NoFile
      ensures old(Mirrored(fs.g, fs.img)) ==> Mirrored(fs.g, fs.img)
      ensures old(FreeOk(fs.State())) ==> FreeOk(fs.State())
      ensures old(NoOnes(fs.fat)) ==> NoOnes(fs.fat)
    {
      hide FatFs.Base, FatFs.Valid, StandsOn, DirVolume, Slot, Has, Linked, WellFormed, Extends,
           Spares, Grows, FreeOk, Mirrored, NoFree, FirstFree, IsFree, Tidy, Names, LookupsKept, SetSlot, NewSlot,
           SlotsKept, OneMore, OneUsed, NamedAt;
      ghost var d := D();
      res, n := Alloc();
      if res == DirOk {
        ghost var e := D();
        FirstFreeHas(e, n);
        WriteName(n);
        NewSlotBytes(fn);
        SetSlotSpares(e, n, NewSlot(fn));
        SetSlotGrows(e, n, NewSlot(fn));
        SparesTransitive(d, e, D());
        GrowsTransitive(d, e, D());
        if Linked(d) { WrittenFree(d, e, n, NewSlot(fn)); }
        if Linked(d) && Tidy(d) && Usable(fn) && fn !in Names(d) {
          RegisterOutcome(d, e, n, fn);
          RegisterCounts(d, e, n, fn);
        }
      }
    }

    // ------------------------------------------------------------ removing

    /** `dir_remove` of the slot the object stands on. */
    method Remove(ghost n: nat)
      requires Wired() && At(n)
      modifies fs`disk, fs`wflag, fs`winsect, fs`img, fs`fat, fs.win
      ensures Wired() && At(n) && fs.State() == old(fs.State())
      ensures Slot(D(), n)[0] == 0xE5 && Slot(D(), n)[1..] == old(Slot(D(), n))[1..]
      ensures Spares(old(D()), D()) && Grows(old(D()), D())
      ensures old(Linked(D())) ==> SlotsKept(old(D()), D(), n)
      ensures old(Linked(D()) && Tidy(D()) && Usable(fn) && NamedAt(D(), fn, n)) ==>
                && Names(D()) == old(Names(D())) - iset{fn} && OneReleased(old(D()), D())
                && Tidy(D()) && Linked(D()) && LookupsKept(old(D()), D(), fn)
      ensures old(Mirrored(fs.g, fs.img)) ==> Mirrored(fs.g, fs.img)
    {
      hide FatFs.Base, FatFs.Valid, StandsOn, DirVolume, Slot, Has, Linked, WellFormed, Spares, Mirrored,
           Tidy, Names, LookupsKept, NamedAt, SetSlot, DeletedSlot, SlotsKept, Grows, OneReleased;
      ghost var d := D();
      MarkDeleted(n);
      DeletedBytes(Slot(d, n));
      SetSlotSpares(d, n, DeletedSlot(Slot(d, n)));
      SetSlotGrows(d, n, DeletedSlot(Slot(d, n)));
      if Linked(d) { WrittenInPlace(d, n, DeletedSlot(Slot(d, n))); }
      if Linked(d) && Tidy(d) && Usable(fn) && NamedAt(d, fn, n) {
        RemoveOutcome(d, n, fn);
        RemoveCounts(d, n, fn);
      }
    }

    method MarkDeleted(ghost n: nat)
      requires Wired() && At(n)
      modifies fs`disk, fs`wflag, fs`winsect, fs`img, fs`fat, fs.win
      ensures Wired() && At(n) && fs.State() == old(fs.State())
      ensures D() == SetSlot(old(D()), n, DeletedSlot(old(Slot(D(), n))))
      ensures Slot(D(), n) == DeletedSlot(old(Slot(D(), n)))
      ensures old(Mirrored(fs.g, fs.img)) ==> Mirrored(fs.g, fs.img)
    {
      ghost var d := D();
      ghost var s := DeletedSlot(Slot(d, n));
      SlotUnder(d, n, dptr, clust, sect);
      DeletedSplice(d.img[sect], dirp, Slot(d, n));
      hide StandsOn, DirVolume, Slot, SetSlot, DeletedSlot, Has, Put, FatFits, Splice, Mirrored;
      SetSlotHere(d, n, s, dptr, clust, sect);
      fs.MoveWindow(sect);
      fs.win[dirp] := DDEM;
      assert fs.win[..] == d.img[sect][dirp := DDEM];
      fs.MarkDirty();
      WrittenSlot(d, n, dptr, clust, sect, s, D());
    }
  }

  lemma NewSlotBytes(fn: seq<Byte>)
    requires |fn| == 11
    ensures NewSlot(fn)[..11] == fn && forall i :: 11 <= i < 32 ==> NewSlot(fn)[i] == 0
  {
  }

  lemma FirstFreeHas(d: Dir, n: nat)
    requires DirVolume(d) && FirstFree(d, n)
    ensures Has(d, n)
  {
  }

  lemma DeletedBytes(s: seq<Byte>)
    requires |s| == 32
    ensures DeletedSlot(s)[0] == 0xE5 && DeletedSlot(s)[1..] == s[1..]
  {
  }

  lemma DeletedSplice(w: Sector, o: nat, s: seq<Byte>)
    requires o + 32 <= 512 && s == w[o..o + 32]
    ensures w[o := DDEM] == Splice(w, o, DeletedSlot(s))
  {
  }

  // ---------------------------------------------------------------- stepping and seeking

  /** `dir_sdi(0)` and `n` times `dir_next` reach the same position as `dir_sdi(32 n)`, and one succeeds
      exactly when the other does; also on cyclic tables. */
  method StepsReachSeek(step: DIR, seek: DIR, n: nat) returns (stepped: bool, sought: bool)
    requires step.Wired() && step.fs == seek.fs && step.sclust == seek.sclust && step != seek && n < MAX_SLOTS
    modifies step`dptr, step`clust, step`sect, step`dirp, seek`dptr, seek`clust, seek`sect, seek`dirp,
             step.fs, step.fs.win
    ensures stepped <==> sought
    ensures stepped ==> step.dptr == seek.dptr && step.clust == seek.clust && step.sect == seek.sect
                        && step.dirp == seek.dirp
  {
    hide FatFs.Base, FatFs.Valid, DirVolume, Has, Place, ClusterOf, WellFormed, Extends, Linked, Spares, Grows, FreeOk,
         NoOnes, NoneFree, Mirrored, Get;
    SlotOffset(n);
    var res := step.Sdi(0);
    var k := 0;
    while res == DirOk && k < n
      invariant k <= n && step.Wired()
      invariant if res == DirOk then step.At(k) else !Has(step.D(), k)
      decreases n - k, res == DirOk
    {
      SlotLimit(step.D(), k + 1);
      res := step.Next(false, k);
      k := k + 1;
    }
    stepped := res == DirOk;
    if !stepped && Has(step.D(), n) {
      HasBefore(step.D(), k, n);
    }
    res := seek.Sdi(32 * n);
    sought := res == DirOk;
  }

  // ---------------------------------------------------------------- runs

  datatype DirOp = Lookup(name: seq<Byte>) | Insert(name: seq<Byte>) | Delete(name: seq<Byte>)

  /** A set of names, and what decides whether another one has room: the slots, how many of them are unused,
      the free clusters of the volume, and the slots a cluster brings (none when the table is static). `sound`
      says that the volume has no entry of value 1 and a free count that is unknown or right. */
  datatype NameSet = NameSet(names: iset<seq<Byte>>, slots: nat, unused: nat, free: nat, unit: nat, sound: bool)

  ghost function Abs(dp: DIR): NameSet
    requires dp.Wired()
    reads dp, dp.fs, dp.fs.win
  {
    SetOf(dp.D(), NoOnes(dp.fs.fat) && FreeOk(dp.fs.State()))
  }

  ghost function SetOf(d: Dir, sound: bool): NameSet
    requires DirVolume(d)
  {
    NameSet(Names(d), Slots(d), Unused(d), FreeCount(d.fat), if d.start == 0 then 0 else 16 * d.g.csize, sound)
  }

  /** Can a cluster of slots be added? */
  predicate CanGrow(s: NameSet) {
    0 < s.unit && 0 < s.free && s.slots < 0x1_0000
  }

  /** Insertion of a name that is not in the set takes an unused slot, or else the first one of a new cluster. */
  function Inserted(s: NameSet, name: seq<Byte>): NameSet
    requires s.unused > 0 || CanGrow(s)
  {
    if s.unused > 0 then s.(names := s.names + iset{name}, unused := s.unused - 1)
    else s.(names := s.names + iset{name}, slots := s.slots + s.unit, unused := s.unit - 1, free := s.free - 1)
  }

  /** One operation on the set. On a sound volume, which stays one, everything follows from the set: a new
      name is refused exactly when every slot is taken and the table cannot grow. */
  ghost predicate SetStep(s: NameSet, op: DirOp, res: DirResult, t: NameSet) {
    && (s.sound ==> t.sound)
    && match op
       case Lookup(name) =>
         t == s && res == if name in s.names then DirOk else NoFile
       case Insert(name) =>
         if name in s.names then res == DirOk && t == s
         else if res == DirOk then (s.unused > 0 || CanGrow(s)) && t == Inserted(s, name).(sound := t.sound)
         else t == s && s.unused == 0 && (s.sound ==> !CanGrow(s))
       case Delete(name) =>
         if name in s.names then res == DirOk && t == s.(names := s.names - iset{name}, unused := s.unused + 1)
         else res == NoFile && t == s
  }

  /** A refusal for lack of room. */
  lemma FullCannotGrow(d: Dir, sound: bool)
    requires DirVolume(d) && NoFree(d)
    ensures SetOf(d, sound).unused == 0
    ensures Full(d) ==> !CanGrow(SetOf(d, sound))
  {
    UnusedNone(d);
    SlotsHas(d);
    TableLength(d);
    FreeFromBound(d.fat, 2);
  }

  lemma TableLength(d: Dir)
    requires DirVolume(d)
    ensures 2 <= |d.fat|
  {
  }

  /** A registration is an insertion. */
  lemma InsertedCounts(d: Dir, e: Dir, name: seq<Byte>, sound: bool, after: bool)
    requires DirVolume(d) && DirVolume(e) && OneUsed(d, e) && e.g == d.g && e.start == d.start
    requires Names(e) == Names(d) + iset{name}
    ensures var s := SetOf(d, sound);
            (s.unused > 0 || CanGrow(s)) && SetOf(e, after) == Inserted(s, name).(sound := after)
  {
    hide DirVolume, Names, Slots, Unused, FreeCount;
  }

  ghost predicate Healthy(d: Dir)
    requires DirVolume(d)
  {
    Linked(d) && Tidy(d)
  }

  /** Names that an operation may bind to something else. */
  function Touched(op: DirOp): set<seq<Byte>> {
    if op.Lookup? then {} else {op.name}
  }

  /** What one operation keeps. */
  ghost predicate Keeps(d: Dir, e: Dir, but: set<seq<Byte>>)
    requires DirVolume(d) && DirVolume(e)
  {
    Spares(d, e) && Grows(d, e) && F.KeepsFiles(d, e, but)
  }

  lemma KeepsSame(d: Dir, but: set<seq<Byte>>)
    requires DirVolume(d)
    ensures Keeps(d, d, but)
  {
    ExtendsItself(d);
    F.KeepsItself(d, but);
  }

  lemma LookupsSame(d: Dir, name: seq<Byte>)
    requires DirVolume(d)
    ensures LookupsKept(d, d, name)
  {
  }

  lemma KeepsOn(d: Dir, e: Dir, f: Dir, a: set<seq<Byte>>, b: set<seq<Byte>>)
    requires DirVolume(d) && DirVolume(e) && DirVolume(f) && Keeps(d, e, a) && Keeps(e, f, b)
    ensures Keeps(d, f, a + b)
  {
    hide DirVolume, Spares, Grows, F.KeepsFiles;
    SparesTransitive(d, e, f);
    GrowsTransitive(d, e, f);
    F.KeepsBoth(d, e, f, a, b);
  }

  /** `dir_register` of a name that is not there. */
  method InsertName(dp: DIR) returns (res: DirResult)
    requires dp.Wired() && Healthy(dp.D()) && Usable(dp.fn) && dp.fn !in Names(dp.D())
    modifies dp`dptr, dp`clust, dp`sect, dp`dirp, dp.fs, dp.fs.win
    ensures dp.Wired() && Healthy(dp.D()) && Keeps(old(dp.D()), dp.D(), {dp.fn})
    ensures SetStep(old(Abs(dp)), Insert(dp.fn), res, Abs(dp)) && LookupsKept(old(dp.D()), dp.D(), dp.fn)
    ensures res == DirOk ==> F.HasEmptyFile(dp.D(), dp.fn)
    ensures old(Mirrored(dp.fs.g, dp.fs.img)) ==> Mirrored(dp.fs.g, dp.fs.img)
  {
    hide FatFs.Base, FatFs.Valid, DirVolume, Slot, Has, Linked, WellFormed, Spares, Grows, Mirrored, Tidy, LookupsKept,
         NoFree, Full, FreeOk, NoOnes, NewSlot, SlotsKept, OneUsed, SetOf, CanGrow, F.KeepsFiles, NamedAt,
         F.HasEmptyFile;
    ghost var d, sound := dp.D(), NoOnes(dp.fs.fat) && FreeOk(dp.fs.State());
    KeepsSame(d, {dp.fn});
    LookupsSame(d, dp.fn);
    FieldsOf(d, sound);
    ghost var n;
    res, n := dp.Register();
    if res == DirOk {
      dp.fs.TableFact();
      F.OperationKeepsFiles(d, dp.D(), dp.fn);
      F.ZeroEntry(dp.D(), dp.fn, n);
      FieldsOf(dp.D(), NoOnes(dp.fs.fat) && FreeOk(dp.fs.State()));
      SameTable(d, dp.D());
      InsertedCounts(d, dp.D(), dp.fn, sound, NoOnes(dp.fs.fat) && FreeOk(dp.fs.State()));
    } else {
      FullCannotGrow(d, sound);
    }
  }

  lemma FieldsOf(d: Dir, sound: bool)
    requires DirVolume(d)
    ensures SetOf(d, sound).names == Names(d) && SetOf(d, sound).sound == sound
  {
  }

  lemma SameTable(d: Dir, e: Dir)
    requires DirVolume(d) && DirVolume(e) && Grows(d, e)
    ensures e.g == d.g && e.start == d.start
  {
  }

  /** `dir_remove` of the name just found. */
  method DeleteName(dp: DIR, ghost n: nat)
    requires dp.Wired() && dp.At(n) && Healthy(dp.D()) && Usable(dp.fn) && NamedAt(dp.D(), dp.fn, n)
    modifies dp.fs`disk, dp.fs`wflag, dp.fs`winsect, dp.fs`img, dp.fs`fat, dp.fs.win
    ensures dp.Wired() && Healthy(dp.D()) && Keeps(old(dp.D()), dp.D(), {dp.fn})
    ensures Abs(dp) == old(Abs(dp)).(names := old(Abs(dp)).names - iset{dp.fn}, unused := old(Abs(dp)).unused + 1)
    ensures LookupsKept(old(dp.D()), dp.D(), dp.fn)
    ensures old(Mirrored(dp.fs.g, dp.fs.img)) ==> Mirrored(dp.fs.g, dp.fs.img)
  {
    hide FatFs.Base, FatFs.Valid, DirVolume, Slot, Has, Linked, WellFormed, Spares, Grows, Mirrored, Tidy, LookupsKept,
         NamedAt, FreeOk, NoOnes, DeletedSlot, SlotsKept, Slots, Unused, FreeCount, F.KeepsFiles;
    ghost var d := dp.D();
    dp.Remove(n);
    dp.fs.TableFact();
    F.OperationKeepsFiles(d, dp.D(), dp.fn);
    SameTable(d, dp.D());
  }

  /** Finding, creating if absent, and deleting a name, as the callers of the directory functions do. */
  method Do(dp: DIR, op: DirOp) returns (res: DirResult)
    requires dp.Wired() && Healthy(dp.D()) && Usable(op.name)
    modifies dp, dp.fs, dp.fs.win
    ensures dp.Wired() && Healthy(dp.D()) && Keeps(old(dp.D()), dp.D(), Touched(op))
    ensures SetStep(old(Abs(dp)), op, res, Abs(dp)) && LookupsKept(old(dp.D()), dp.D(), op.name)
    // a name that was not there names an empty file now
    ensures op.Insert? && op.name !in old(Names(dp.D())) && res == DirOk ==> F.HasEmptyFile(dp.D(), op.name)
    ensures old(Mirrored(dp.fs.g, dp.fs.img)) ==> Mirrored(dp.fs.g, dp.fs.img)
  {
    hide FatFs.Base, FatFs.Valid, DirVolume, Slot, Has, WellFormed, Mirrored, Tidy, NamedAt, StandsOn, FreeOk, NoOnes,
         Keeps, LookupsKept, Slots, Unused, FreeCount, CanGrow, Inserted, F.HasEmptyFile;
    dp.fn := op.name;
    ghost var d := dp.D();
    KeepsSame(d, Touched(op));
    LookupsSame(d, op.name);
    ghost var n;
    res, n := dp.Find();
    match op {
      case Lookup(name) =>
      case Insert(name) =>
        if res == NoFile {
          res := InsertName(dp);
        }
      case Delete(name) =>
        if res == DirOk {
          DeleteName(dp, n);
        }
    }
  }

  function AllTouched(ops: seq<DirOp>): set<seq<Byte>> {
    if ops == [] then {} else AllTouched(ops[..|ops| - 1]) + Touched(ops[|ops| - 1])
  }

  /** Any sequence of lookups, insertions and deletions behaves as on a finite set of names, and keeps every
      file that is not named in an insertion or deletion. */
  method Run(dp: DIR, ops: seq<DirOp>) returns (res: seq<DirResult>, ghost sets: seq<NameSet>)
    requires dp.Wired() && Healthy(dp.D()) && forall i :: 0 <= i < |ops| ==> Usable(ops[i].name)
    modifies dp, dp.fs, dp.fs.win
    ensures dp.Wired() && Healthy(dp.D()) && Keeps(old(dp.D()), dp.D(), AllTouched(ops))
    ensures |res| == |ops| && |sets| == |ops| + 1 && sets[0] == old(Abs(dp)) && sets[|ops|] == Abs(dp)
    ensures forall i :: 0 <= i < |ops| ==> SetStep(sets[i], ops[i], res[i], sets[i + 1])
    ensures old(Mirrored(dp.fs.g, dp.fs.img)) ==> Mirrored(dp.fs.g, dp.fs.img)
  {
    hide DirVolume, Keeps, Mirrored, Healthy, SetStep, WellFormed, FatFs.Base, FatFs.Valid, Abs, Touched;
    res, sets := [], [Abs(dp)];
    ghost var d := dp.D();
    KeepsSame(d, {});
    for i := 0 to |ops|
      invariant dp.Wired() && Healthy(dp.D()) && Keeps(d, dp.D(), AllTouched(ops[..i]))
      invariant |res| == i && |sets| == i + 1 && sets[0] == old(Abs(dp)) && sets[i] == Abs(dp)
      invariant forall j :: 0 <= j < i ==> SetStep(sets[j], ops[j], res[j], sets[j + 1])
      invariant old(Mirrored(dp.fs.g, dp.fs.img)) ==> Mirrored(dp.fs.g, dp.fs.img)
    {
      ghost var e := dp.D();
      var r := Do(dp, ops[i]);
      KeepsOn(d, e, dp.D(), AllTouched(ops[..i]), Touched(ops[i]));
      assert ops[..i + 1][..i] == ops[..i];
      res, sets := res + [r], sets + [Abs(dp)];
    }
    assert ops[..|ops|] == ops;
  }
}
