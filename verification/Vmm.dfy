/** Two-level page tables kept in physical frames, as a flat partial map of pages. */
module Vmm {
  import opened Bytes
  import opened Pmm

  const PAGES: nat := 0x10_0000

  /** Physical memory as 32-bit words, with the frames of the page directory and the first table. */
  datatype Tables = Tables(ram: seq<U32>, dir: nat, first: nat)

  /** Word `i` of frame `f`. */
  function Word(t: Tables, f: nat, i: nat): U32
    requires i < 1024 && 1024 * (f + 1) <= |t.ram|
  {
    t.ram[1024 * f + i]
  }

  function SetWord(t: Tables, f: nat, i: nat, v: U32): (r: Tables)
    requires i < 1024 && 1024 * (f + 1) <= |t.ram|
    ensures |r.ram| == |t.ram| && r.dir == t.dir && r.first == t.first
  {
    t.(ram := t.ram[1024 * f + i := v])
  }

  lemma WordAfter(t: Tables, f: nat, i: nat, v: U32, g: nat, j: nat)
    requires i < 1024 && j < 1024 && 1024 * (f + 1) <= |t.ram| && 1024 * (g + 1) <= |t.ram|
    ensures Word(SetWord(t, f, i, v), g, j) == if g == f && j == i then v else Word(t, g, j)
  {
  }

  predicate Present(e: U32) { e % 2 == 1 }

  /** Bits 1 and 2 of an entry: writing and user mode allowed. */
  predicate Writable(e: U32) { e / 2 % 2 == 1 }
  predicate User(e: U32) { e / 4 % 2 == 1 }

  /** They are among the lowest three bits. */
  lemma LowBits(e: U32, f: nat)
    requires e % 4096 == f % 8
    ensures Writable(e) == (f / 2 % 2 == 1) && User(e) == (f / 4 % 2 == 1)
  {
    LowPart(512 * (e / 4096), f % 8);
    LowPart(f / 8, f % 8);
    assert e == 8 * (512 * (e / 4096)) + f % 8 && f == 8 * (f / 8) + f % 8;
  }

  lemma LowPart(q: nat, r: nat)
    requires r < 8
    ensures (8 * q + r) / 2 % 2 == r / 2 % 2 && (8 * q + r) / 4 % 2 == r / 4 % 2
  {
    Quotient(8 * q + r, 2, 4 * q + r / 2, r % 2);
    Quotient(8 * q + r, 4, 2 * q + r / 4, r % 4);
    Even(2 * q, r / 2);
    Even(q, r / 4);
  }

  lemma Quotient(v: nat, m: nat, q: nat, r: nat)
    requires (m == 2 || m == 4) && r < m && v == m * q + r
    ensures v / m == q
  {
  }

  lemma Even(k: nat, s: nat)
    ensures (2 * k + s) % 2 == s % 2
  {
  }

  /** What the directory allows. */
  lemma DirectoryRights(t: Tables, used: seq<bool>, k: nat)
    requires Sound(t, used) && k < 1024 && Present(Pde(t, k))
    ensures FrameOf(Pde(t, k)) < |used| && FrameOf(Pde(t, k)) != t.dir
    ensures Writable(Pde(t, k)) && (User(Pde(t, k)) <==> k > 0)
  {
    hide Writable, User;
    assert TableOk(t, used, k);
    LowBits(Pde(t, k), if k == 0 then 3 else 7);
  }

  /** The frame an entry points to. */
  function FrameOf(e: U32): nat { e / 4096 }

  /** `PAGE_PRESENT | PAGE_RW | PAGE_USER` as the low bits of an entry; PAGE_EXECUTABLE is PAGE_PRESENT. */
  function Entry(addr: U32, flags: U32): (e: U32)
    ensures FrameOf(e) == FrameOf(addr) && (Present(e) <==> flags % 2 == 1) && e % 4096 == flags % 8
  {
    addr - addr % 4096 + flags % 8
  }

  /** `(phys & ~0xFFF) | (flags & 7)` is that sum. */
  lemma MaskedEntry(addr: bv32, flags: bv32)
    ensures (addr & !0xFFF) | (flags & 7) == addr - addr % 4096 + flags % 8
  {
  }

  /** Entry `k` of the directory. */
  function Pde(t: Tables, k: nat): U32
    requires k < 1024 && 1024 * (t.dir + 1) <= |t.ram|
  {
    Word(t, t.dir, k)
  }

  /** Table `k` is absent, or lies in a used frame of its own. The directory entry of the first 4 MB allows
      writing but not user mode, all others allow both. */
  ghost predicate TableOk(t: Tables, used: seq<bool>, k: nat)
    requires k < 1024 && |t.ram| == 1024 * |used| && t.dir < |used|
  {
    Present(Pde(t, k)) ==>
      && FrameOf(Pde(t, k)) < |used| && used[FrameOf(Pde(t, k))] && FrameOf(Pde(t, k)) != t.dir
      && Pde(t, k) % 4096 == if k == 0 then 3 else 7
  }

  ghost predicate TablesApart(t: Tables, j: nat, k: nat)
    requires j < 1024 && k < 1024 && 1024 * (t.dir + 1) <= |t.ram|
  {
    j != k && Present(Pde(t, j)) && Present(Pde(t, k)) ==> FrameOf(Pde(t, j)) != FrameOf(Pde(t, k))
  }

  /** No page table aliases another, the directory, or a frame the allocator may hand out. */
  ghost predicate Sound(t: Tables, used: seq<bool>) {
    && |used| <= MAX_FRAMES && |t.ram| == 1024 * |used|
    && t.dir < |used| && t.first < |used| && used[t.dir] && used[t.first]
    && Present(Pde(t, 0)) && FrameOf(Pde(t, 0)) == t.first
    && (forall k: nat :: k < 1024 ==> TableOk(t, used, k))
    && (forall j: nat, k: nat :: j < 1024 && k < 1024 ==> TablesApart(t, j, k))
  }

  /** The entry found, and what both levels together allow. */
  datatype Translation = Unmapped | Mapped(entry: U32, writable: bool, user: bool)

  /** The two-level walk for page `v`. */
  function Walk(t: Tables, used: seq<bool>, v: nat): (r: Translation)
    requires Sound(t, used) && v < PAGES
  {
    assert TableOk(t, used, v / 1024);
    var pde := Pde(t, v / 1024);
    if !Present(pde) then Unmapped
    else
      var e := Word(t, FrameOf(pde), v % 1024);
      if Present(e) then Mapped(e, Writable(pde) && Writable(e), User(pde) && User(e)) else Unmapped
  }

  /** The flat map's answer: the rights are those of the entry, but the first 4 MB are not for user mode. */
  function Lookup(flat: map<nat, U32>, v: nat): Translation {
    if v in flat then Mapped(flat[v], Writable(flat[v]), v >= 1024 && User(flat[v])) else Unmapped
  }

  /** The two-level structure stands for the flat map. */
  ghost predicate Stands(t: Tables, used: seq<bool>, flat: map<nat, U32>) {
    Sound(t, used) && forall v: nat :: v < PAGES ==> Walk(t, used, v) == Lookup(flat, v)
  }

  // ---------------------------------------------------------------- the two writes

  /** An entry written into an existing table changes the translation of that page only. */
  lemma EntrySound(t: Tables, used: seq<bool>, v: nat, e: U32)
    requires Sound(t, used) && v < PAGES && Present(Pde(t, v / 1024))
    ensures FrameOf(Pde(t, v / 1024)) < |used|
    ensures Sound(SetWord(t, FrameOf(Pde(t, v / 1024)), v % 1024, e), used)
  {
    var k := v / 1024;
    assert TableOk(t, used, k);
    var f := FrameOf(Pde(t, k));
    var r := SetWord(t, f, v % 1024, e);
    forall j: nat | j < 1024 ensures Pde(r, j) == Pde(t, j) { WordAfter(t, f, v % 1024, e, t.dir, j); }
    forall j: nat | j < 1024 ensures TableOk(r, used, j) { assert TableOk(t, used, j); }
    forall i: nat, j: nat | i < 1024 && j < 1024 ensures TablesApart(r, i, j) { assert TablesApart(t, i, j); }
  }

  lemma EntryWalk(t: Tables, used: seq<bool>, v: nat, e: U32, w: nat)
    requires Sound(t, used) && v < PAGES && w < PAGES && Present(Pde(t, v / 1024))
    requires FrameOf(Pde(t, v / 1024)) < |used| && Sound(SetWord(t, FrameOf(Pde(t, v / 1024)), v % 1024, e), used)
    ensures Walk(SetWord(t, FrameOf(Pde(t, v / 1024)), v % 1024, e), used, w) ==
            if w != v then Walk(t, used, w)
            else if Present(e) then Mapped(e, Writable(e), v >= 1024 && User(e)) else Unmapped
  {
    hide Writable, User;
    var k, l := v / 1024, w / 1024;
    var f := FrameOf(Pde(t, k));
    assert v == 1024 * k + v % 1024 && w == 1024 * l + w % 1024;
    assert TableOk(t, used, l) && TablesApart(t, k, l);
    DirectoryRights(t, used, k);
    WordAfter(t, f, v % 1024, e, t.dir, l);
    if Present(Pde(t, l)) {
      WordAfter(t, f, v % 1024, e, FrameOf(Pde(t, l)), w % 1024);
    }
  }

  /** Frame `f` cleared and entered in the directory under `k`. */
  ghost predicate TableAdded(t: Tables, r: Tables, k: nat, f: nat)
    requires k < 1024 && 1024 * (t.dir + 1) <= |t.ram| && 1024 * (f + 1) <= |t.ram|
  {
    && r.dir == t.dir && r.first == t.first && |r.ram| == |t.ram|
    && FrameOf(Pde(r, k)) == f && Pde(r, k) % 4096 == 7
    && (forall j: nat :: j < 1024 && j != k ==> Pde(r, j) == Pde(t, j))
    && (forall j: nat :: j < 1024 ==> Word(r, f, j) == 0)
    && (forall g: nat, j: nat :: j < 1024 && 1024 * (g + 1) <= |t.ram| && g != f && g != t.dir ==>
                                   Word(r, g, j) == Word(t, g, j))
  }

  /** A fresh table changes no translation at all. */
  lemma AddedSound(t: Tables, r: Tables, used: seq<bool>, k: nat, f: nat)
    requires Sound(t, used) && k < 1024 && !Present(Pde(t, k)) && f < |used| && !used[f] && TableAdded(t, r, k, f)
    ensures Sound(r, used[f := true])
  {
    var u := used[f := true];
    forall j: nat | j < 1024 ensures TableOk(r, u, j) { assert TableOk(t, used, j); }
    forall i: nat, j: nat | i < 1024 && j < 1024 ensures TablesApart(r, i, j) {
      assert TablesApart(t, i, j) && TableOk(t, used, i) && TableOk(t, used, j);
    }
  }

  lemma AddedWalk(t: Tables, r: Tables, used: seq<bool>, k: nat, f: nat, v: nat)
    requires Sound(t, used) && k < 1024 && !Present(Pde(t, k)) && f < |used| && !used[f] && TableAdded(t, r, k, f)
    requires Sound(r, used[f := true]) && v < PAGES
    ensures Walk(r, used[f := true], v) == Walk(t, used, v)
  {
    assert TableOk(t, used, v / 1024);
  }

  /** Marking more frames as used changes no translation. */
  lemma MarkedWalk(t: Tables, used: seq<bool>, f: nat, flat: map<nat, U32>)
    requires Stands(t, used, flat) && f < |used|
    ensures Stands(t, used[f := true], flat)
  {
    var u := used[f := true];
    forall j: nat | j < 1024 ensures TableOk(t, u, j) { assert TableOk(t, used, j); }
    forall i: nat, j: nat | i < 1024 && j < 1024 ensures TablesApart(t, i, j) { assert TablesApart(t, i, j); }
    forall v: nat | v < PAGES ensures Walk(t, u, v) == Lookup(flat, v) {
      assert Walk(t, used, v) == Lookup(flat, v);
      assert TableOk(t, used, v / 1024);
    }
  }

  /** The flat map after an entry has been stored for page `v`. */
  function Extended(flat: map<nat, U32>, v: nat, e: U32): map<nat, U32> {
    if Present(e) then flat[v := e] else flat
  }

  lemma EntryStands(t: Tables, used: seq<bool>, flat: map<nat, U32>, v: nat, e: U32)
    requires Stands(t, used, flat) && v < PAGES && Present(Pde(t, v / 1024)) && v !in flat
    ensures FrameOf(Pde(t, v / 1024)) < |used|
    ensures Stands(SetWord(t, FrameOf(Pde(t, v / 1024)), v % 1024, e), used, Extended(flat, v, e))
  {
    EntrySound(t, used, v, e);
    var r := SetWord(t, FrameOf(Pde(t, v / 1024)), v % 1024, e);
    hide Sound, Walk;
    forall w: nat | w < PAGES ensures Walk(r, used, w) == Lookup(Extended(flat, v, e), w) {
      EntryWalk(t, used, v, e, w);
      assert Walk(t, used, w) == Lookup(flat, w);
    }
  }

  lemma AddedStands(t: Tables, r: Tables, used: seq<bool>, flat: map<nat, U32>, k: nat, f: nat)
    requires Stands(t, used, flat) && k < 1024 && !Present(Pde(t, k))
    requires f < |used| && !used[f] && TableAdded(t, r, k, f)
    ensures Stands(r, used[f := true], flat)
  {
    AddedSound(t, r, used, k, f);
    hide Sound, Walk, TableAdded;
    forall v: nat | v < PAGES ensures Walk(r, used[f := true], v) == Lookup(flat, v) {
      AddedWalk(t, r, used, k, f, v);
      assert Walk(t, used, v) == Lookup(flat, v);
    }
  }

  // ---------------------------------------------------------------- the address space

  datatype Code = Success | DoubleMap | InvalidAddr | NoMemory | Halted

  predicate BadAddress(virt: U32, phys: U32) {
    (virt < 0x1000 && virt != 0) || (phys < 0x1000 && !(0x10_0000 <= phys < 0x20_0000))
  }

  /** What `vmm_map_page` answers: `missing` says the page table does not exist yet, `free` is the
      first free frame. Frame 0 is taken for a failure; without any free frame the kernel halts. */
  function Answer(virt: U32, phys: U32, flat: map<nat, U32>, missing: bool, free: nat, total: nat): Code {
    if BadAddress(virt, phys) then InvalidAddr
    else if virt / 0x1000 in flat then DoubleMap
    else if !missing then Success
    else if free >= total then Halted
    else if free == 0 then NoMemory
    else Success
  }

  /** Does the call get as far as asking for a page table? */
  predicate Asks(virt: U32, phys: U32, flat: map<nat, U32>, missing: bool) {
    !BadAddress(virt, phys) && virt / 0x1000 !in flat && missing
  }

  /** Frame `f` holds the directory or a page table. */
  ghost predicate InTables(t: Tables, f: nat)
    requires 1024 * (t.dir + 1) <= |t.ram|
  {
    f == t.dir || f == t.first || exists k: nat :: k < 1024 && Present(Pde(t, k)) && FrameOf(Pde(t, k)) == f
  }

  /** The directory entries that have a table. */
  ghost function There(t: Tables): set<nat>
    requires 1024 * (t.dir + 1) <= |t.ram|
  {
    set k: nat | k < 1024 && Present(Pde(t, k))
  }

  /** A frame that was in use and held no table before holds none afterwards. */
  ghost predicate NoNewTables(t: Tables, r: Tables, used: seq<bool>)
    requires 1024 * (t.dir + 1) <= |t.ram| && 1024 * (r.dir + 1) <= |r.ram|
  {
    forall f: nat :: f < |used| && used[f] && !InTables(t, f) ==> !InTables(r, f)
  }

  lemma SameTables(t: Tables, used: seq<bool>)
    requires 1024 * (t.dir + 1) <= |t.ram|
    ensures NoNewTables(t, t, used)
  {
  }

  lemma AddedTables(t: Tables, r: Tables, used: seq<bool>, k: nat, f: nat)
    requires Sound(t, used) && k < 1024 && f < |used| && !used[f] && TableAdded(t, r, k, f)
    ensures NoNewTables(t, r, used) && There(r) == There(t) + {k}
  {
  }

  lemma IsThere(t: Tables, k: nat)
    requires k < 1024 && 1024 * (t.dir + 1) <= |t.ram| && Present(Pde(t, k))
    ensures There(t) + {k} == There(t)
  {
  }

  /** Writing an entry into a page table leaves the directory alone. */
  lemma EntryTables(o: Tables, t: Tables, used: seq<bool>, flat: map<nat, U32>, v: nat, e: U32, before: seq<bool>)
    requires 1024 * (o.dir + 1) <= |o.ram| && Stands(t, used, flat) && v < PAGES && Present(Pde(t, v / 1024))
    requires NoNewTables(o, t, before)
    ensures FrameOf(Pde(t, v / 1024)) < |used|
    ensures NoNewTables(o, SetWord(t, FrameOf(Pde(t, v / 1024)), v % 1024, e), before)
    ensures There(SetWord(t, FrameOf(Pde(t, v / 1024)), v % 1024, e)) == There(t)
  {
    assert TableOk(t, used, v / 1024);
    var f := FrameOf(Pde(t, v / 1024));
    var r := SetWord(t, f, v % 1024, e);
    forall j: nat | j < 1024 ensures Pde(r, j) == Pde(t, j) { WordAfter(t, f, v % 1024, e, t.dir, j); }
    forall g: nat | !InTables(t, g) ensures !InTables(r, g) {
    }
  }

  /** The walk for page `v` ends on frame `f`, in an entry with these low bits, and both levels together allow
      this much. */
  ghost predicate PageIs(t: Tables, used: seq<bool>, v: nat, f: nat, low: nat, writable: bool, user: bool) {
    && Sound(t, used) && v < PAGES && Walk(t, used, v).Mapped?
    && FrameOf(Walk(t, used, v).entry) == f && Walk(t, used, v).entry % 4096 == low
    && Walk(t, used, v).writable == writable && Walk(t, used, v).user == user
  }

  lemma PageMapped(t: Tables, used: seq<bool>, flat: map<nat, U32>, v: nat, phys: U32, flags: U32)
    requires Stands(t, used, Extended(flat, v, Entry(phys, flags))) && v < PAGES
    ensures flags % 2 == 1 ==>
              PageIs(t, used, v, phys / 0x1000, flags % 8, flags / 2 % 2 == 1, v >= 1024 && flags / 4 % 2 == 1)
  {
    if flags % 2 == 1 {
      LowBits(Entry(phys, flags), flags);
      hide Sound, Entry;
      assert Walk(t, used, v) == Lookup(Extended(flat, v, Entry(phys, flags)), v);
    }
  }

  class AddressSpace {
    const pmm: FrameAllocator
    const ram: array<U32>
    const dir: nat          // frame of page_directory
    const first: nat        // frame of first_page_table
    ghost var flat: map<nat, U32>

    ghost function T(): Tables
      reads ram
    {
      Tables(ram[..], dir, first)
    }

    ghost predicate Wired()
      reads pmm
      ensures Wired() ==> pmm.Valid()
    {
      && (ram as object) != (pmm.bitmap as object)
      && pmm.Valid() && ram.Length == 1024 * pmm.total && dir < pmm.total && first < pmm.total
    }

    /** The tables stand for the flat map, and their frames are not free. */
    ghost predicate Valid()
      reads this, pmm, pmm.bitmap, ram
      ensures Valid() ==> Wired()
    {
      Wired() && Stands(T(), pmm.Used(), flat)
    }

    /** `vmm_identity_map_first_4mb`, on a directory that is zero and two frames that are not free. */
    constructor IdentityMap(p: FrameAllocator, memory: array<U32>, d: nat, f: nat)
      requires (memory as object) != (p.bitmap as object)
      requires p.Valid() && memory.Length == 1024 * p.total
      requires d < p.total && f < p.total && d != f && p.Used()[d] && p.Used()[f]
      requires forall k :: 1024 * d <= k < 1024 * d + 1024 ==> memory[k] == 0
      modifies memory
      ensures Valid() && pmm == p && ram == memory && dir == d && first == f
      ensures flat == IdentityPages()
      // page v is frame v, writable but not for user mode; nothing else is mapped
      ensures forall v: nat :: v < 1024 ==> PageIs(T(), pmm.Used(), v, v, 3, true, false)
      ensures forall v: nat :: 1024 <= v < PAGES ==> Sound(T(), pmm.Used()) && Walk(T(), pmm.Used(), v) == Unmapped
    {
      pmm, ram, dir, first := p, memory, d, f;
      flat := IdentityPages();
      new;
      hide Marks, Stands, IdentityFilled, IdentityPages;
      FillTables();
      IdentityStands(T(), pmm.Used());
      IdentityWalks(T(), pmm.Used());
    }

    /** The writes to first table and directory. */
    method FillTables()
      requires Wired() && dir != first && pmm.Used()[dir] && pmm.Used()[first]
      requires forall k :: 1024 * dir <= k < 1024 * dir + 1024 ==> ram[k] == 0
      modifies ram
      ensures Wired() && IdentityFilled(T(), pmm.Used())
    {
      hide Entry, Marks, IdentityFilled;
      FillIdentity();
      ram[1024 * dir] := Entry(first * 0x1000, 3);
      FilledIdentity(T(), pmm.Used());
    }

    /** The loop over `first_page_table`. */
    method FillIdentity()
      requires 1024 * (first + 1) <= ram.Length && first < MAX_FRAMES
      modifies ram
      ensures forall k :: 0 <= k < ram.Length ==>
                            ram[k] == if 1024 * first <= k < 1024 * first + 1024
                                      then Entry((k - 1024 * first) * 0x1000, 3) else old(ram[k])
    {
      for i := 0 to 1024
        invariant forall k :: 0 <= k < ram.Length ==>
                                ram[k] == if 1024 * first <= k < 1024 * first + i
                                          then Entry((k - 1024 * first) * 0x1000, 3) else old(ram[k])
      {
        ram[1024 * first + i] := Entry(i * 0x1000, 3);
      }
    }

    method Load(f: nat, i: nat) returns (v: U32)
      requires i < 1024 && 1024 * (f + 1) <= ram.Length
      ensures v == Word(T(), f, i)
    {
      v := ram[1024 * f + i];
    }

    method Store(f: nat, i: nat, v: U32)
      requires i < 1024 && 1024 * (f + 1) <= ram.Length
      modifies ram
      ensures T() == SetWord(old(T()), f, i, v)
    {
      ram[1024 * f + i] := v;
    }

    /** `pmm_memset(table, 0, 4096)`, word by word. */
    method ClearFrame(f: nat)
      requires 1024 * (f + 1) <= ram.Length
      modifies ram
      ensures forall k :: 0 <= k < ram.Length ==>
                            ram[k] == if 1024 * f <= k < 1024 * f + 1024 then 0 else old(ram[k])
    {
      for i := 0 to 1024
        invariant forall k :: 0 <= k < ram.Length ==>
                                ram[k] == if 1024 * f <= k < 1024 * f + i then 0 else old(ram[k])
      {
        ram[1024 * f + i] := 0;
      }
    }

    /** `vmm_map_page` */
    method MapPage(virt: U32, phys: U32, flags: U32) returns (code: Code)
      requires Valid()
      modifies `flat, ram, pmm`usedFrames, pmm.bitmap
      ensures Valid()
      ensures code == Answer(virt, phys, old(flat), !Present(old(Pde(T(), virt / 0x40_0000))),
                             FirstFree(old(pmm.Used()), 0), pmm.total)
      ensures code == InvalidAddr <==> 0 < virt < 0x1000 || phys < 0x1000
      ensures code == DoubleMap <==> !(0 < virt < 0x1000 || phys < 0x1000) && virt / 0x1000 in old(flat)
      ensures code == Halted ==> forall i :: 0 <= i < pmm.total ==> old(pmm.Used())[i]
      ensures code == NoMemory ==> !old(pmm.Used())[0]
      // a page mapped is found in the frame asked for; directory and table together allow what the flags say,
      // but user mode has no access to the first 4 MB
      ensures code == Success && flags % 2 == 1 ==>
                PageIs(T(), pmm.Used(), virt / 0x1000, phys / 0x1000, flags % 8, flags / 2 % 2 == 1,
                       virt >= 0x40_0000 && flags / 4 % 2 == 1)
      // only success changes a translation, and only that of the page asked for
      ensures flat == if code == Success then Extended(old(flat), virt / 0x1000, Entry(phys, flags)) else old(flat)
      ensures pmm.Account() == old(pmm.Account())
      // a frame is taken exactly when a table is missing; no other mark changes, no other frame becomes a table
      ensures pmm.Used() == if Asks(virt, phys, old(flat), !Present(old(Pde(T(), virt / 0x40_0000))))
                            then Apply(old(pmm.Used()), Take) else old(pmm.Used())
      ensures NoNewTables(old(T()), T(), old(pmm.Used()))
      ensures There(T()) == if code == Success then old(There(T())) + {virt / 0x40_0000} else old(There(T()))
    {
      hide Stands, Marks, Entry, NoNewTables, Apply, There;
      SameTables(T(), pmm.Used());
      NoneUnused(pmm.Used());
      code := Success;
      if BadAddress(virt, phys) { return InvalidAddr; }
      var k: nat := virt / 0x40_0000;
      ghost var v := virt / 0x1000;
      PageParts(virt);
      PresentTable(T(), pmm.Used(), flat, v);
      var pde := Load(dir, k);
      if Present(pde) {
        IsThere(T(), k);
        var e := Load(FrameOf(pde), virt / 0x1000 % 0x400);
        if Present(e) { return DoubleMap; }
      } else {
        code := NewTable(k);
        if code != Success { return; }
      }
      PresentTable(T(), pmm.Used(), flat, v);
      pde := Load(dir, k);
      EntryStands(T(), pmm.Used(), flat, v, Entry(phys, flags));
      EntryTables(old(T()), T(), pmm.Used(), flat, v, Entry(phys, flags), old(pmm.Used()));
      Store(FrameOf(pde), virt / 0x1000 % 0x400, Entry(phys, flags));
      flat := Extended(flat, v, Entry(phys, flags));
      PageMapped(T(), pmm.Used(), old(flat), v, phys, flags);
    }

    /** Allocates the page table of directory entry `k`. */
    method NewTable(k: nat) returns (code: Code)
      requires Valid() && k < 1024 && !Present(Pde(T(), k))
      modifies ram, pmm`usedFrames, pmm.bitmap
      ensures Valid() && pmm.Account() == old(pmm.Account())
      ensures var free := FirstFree(old(pmm.Used()), 0);
              code == if free >= pmm.total then Halted else if free == 0 then NoMemory else Success
      ensures code == Success ==> Present(Pde(T(), k))
      ensures pmm.Used() == Apply(old(pmm.Used()), Take)
      ensures NoNewTables(old(T()), T(), old(pmm.Used()))
      ensures There(T()) == if code == Success then old(There(T())) + {k} else old(There(T()))
    {
      hide Stands, Marks, NoNewTables, There;
      SameTables(T(), pmm.Used());
      var ok, frame := pmm.AllocFrame();
      if !ok { return Halted; }
      if frame == 0 {
        MarkedWalk(T(), old(pmm.Used()), 0, flat);
        return NoMemory;
      }
      AddTable(k, frame, old(pmm.Used()));
      code := Success;
    }

    /** A new page table in frame `frame`, which the allocator has just marked. */
    method AddTable(k: nat, frame: U32, ghost used: seq<bool>)
      requires Wired() && k < 1024 && frame % 0x1000 == 0 && frame / 0x1000 < |used| == pmm.total
      requires pmm.Used() == used[frame / 0x1000 := true] && !used[frame / 0x1000]
      requires Stands(T(), used, flat) && !Present(Pde(T(), k))
      modifies ram
      ensures Wired() && Stands(T(), pmm.Used(), flat) && Present(Pde(T(), k))
      ensures NoNewTables(old(T()), T(), used) && There(T()) == old(There(T())) + {k}
    {
      ghost var t := T();
      ghost var f := frame / 0x1000;
      StandsSound(t, used, flat);
      hide Stands, Sound, TableAdded, Marks, Entry, There;
      ClearFrame(frame / 0x1000);
      ghost var c := T();
      Store(dir, k, Entry(frame, 7));
      ClearedThenStored(t, c, used, k, f, Entry(frame, 7));
      AddedStands(t, T(), used, flat, k, f);
      AddedTables(t, T(), used, k, f);
    }
  }

  function IdentityPages(): map<nat, U32> {
    map v: nat | v < 1024 :: Entry(v * 0x1000, 3)
  }

  /** Directory and first table after the identity mapping. */
  ghost predicate IdentityFilled(t: Tables, used: seq<bool>) {
    && |used| <= MAX_FRAMES && |t.ram| == 1024 * |used| && t.dir < |used| && t.first < |used| && t.dir != t.first
    && used[t.dir] && used[t.first]
    && Pde(t, 0) == Entry(t.first * 0x1000, 3)
    && (forall k: nat :: 0 < k < 1024 ==> Pde(t, k) == 0)
    && (forall k: nat :: k < 1024 ==> Word(t, t.first, k) == Entry(k * 0x1000, 3))
  }

  lemma FilledIdentity(t: Tables, used: seq<bool>)
    requires |used| <= MAX_FRAMES && |t.ram| == 1024 * |used| && t.dir < |used| && t.first < |used| && t.dir != t.first
    requires used[t.dir] && used[t.first]
    requires forall k :: 1024 * t.dir < k < 1024 * t.dir + 1024 ==> t.ram[k] == 0
    requires t.ram[1024 * t.dir] == Entry(t.first * 0x1000, 3)
    requires forall k :: 1024 * t.first <= k < 1024 * t.first + 1024 ==>
                           t.ram[k] == Entry((k - 1024 * t.first) * 0x1000, 3)
    ensures IdentityFilled(t, used)
  {
    hide Entry;
    forall k: nat | k < 1024 ensures Word(t, t.first, k) == Entry(k * 0x1000, 3) {
      assert t.ram[1024 * t.first + k] == Entry(k * 0x1000, 3);
    }
  }

  lemma IdentityStands(t: Tables, used: seq<bool>)
    requires IdentityFilled(t, used)
    ensures Stands(t, used, IdentityPages())
  {
    IdentitySound(t, used);
    hide IdentityFilled, Walk, Sound;
    forall v: nat | v < PAGES ensures Walk(t, used, v) == Lookup(IdentityPages(), v) {
      IdentityWalk(t, used, v);
    }
  }

  lemma IdentityWalks(t: Tables, used: seq<bool>)
    requires Stands(t, used, IdentityPages())
    ensures forall v: nat :: v < 1024 ==> PageIs(t, used, v, v, 3, true, false)
    ensures forall v: nat :: 1024 <= v < PAGES ==> Sound(t, used) && Walk(t, used, v) == Unmapped
  {
    hide Stands, Sound, Walk, PageIs, IdentityPages;
    forall v: nat | v < 1024 ensures PageIs(t, used, v, v, 3, true, false) {
      IdentityPage(t, used, v);
    }
    StandsSound(t, used, IdentityPages());
    forall v: nat | 1024 <= v < PAGES ensures Walk(t, used, v) == Unmapped {
      IdentityPage(t, used, v);
    }
  }

  lemma IdentityPage(t: Tables, used: seq<bool>, v: nat)
    requires Stands(t, used, IdentityPages()) && v < PAGES
    ensures v < 1024 ==> PageIs(t, used, v, v, 3, true, false)
    ensures v >= 1024 ==> Sound(t, used) && Walk(t, used, v) == Unmapped
  {
    hide Sound, Walk, Entry;
    assert Walk(t, used, v) == Lookup(IdentityPages(), v);
    if v < 1024 { LowBits(Entry(v * 0x1000, 3), 3); }
  }

  lemma IdentitySound(t: Tables, used: seq<bool>)
    requires IdentityFilled(t, used)
    ensures Sound(t, used)
  {
    hide Word;
    assert FrameOf(Pde(t, 0)) == t.first && Present(Pde(t, 0));
    forall k: nat | k < 1024 ensures TableOk(t, used, k) {
      assert k > 0 ==> Pde(t, k) == 0;
    }
    forall j: nat, k: nat | j < 1024 && k < 1024 ensures TablesApart(t, j, k) {
      assert (j > 0 ==> Pde(t, j) == 0) && (k > 0 ==> Pde(t, k) == 0);
    }
  }

  lemma IdentityWalk(t: Tables, used: seq<bool>, v: nat)
    requires IdentityFilled(t, used) && Sound(t, used) && v < PAGES
    ensures Walk(t, used, v) == Lookup(IdentityPages(), v)
  {
    hide Sound, Writable, User;
    if v < 1024 {
      assert v / 1024 == 0 && v % 1024 == v;
      DirectoryRights(t, used, 0);
      LowBits(Entry(v * 0x1000, 3), 3);
      assert Word(t, t.first, v) == Entry(v * 0x1000, 3);
    } else {
      assert Pde(t, v / 1024) == 0;
    }
  }

  lemma NoneUnused(used: seq<bool>)
    ensures FirstFree(used, 0) >= |used| ==> forall i :: 0 <= i < |used| ==> used[i]
    ensures FirstFree(used, 0) == 0 && 0 < |used| ==> !used[0]
  {
  }

  lemma StandsSound(t: Tables, used: seq<bool>, flat: map<nat, U32>)
    requires Stands(t, used, flat)
    ensures Sound(t, used)
  {
  }

  lemma PageParts(virt: U32)
    ensures virt / 0x40_0000 == virt / 0x1000 / 1024 < 1024 && virt / 0x1000 < PAGES
  {
  }

  /** What the walk finds for page `v` is what the flat map says. */
  lemma PresentTable(t: Tables, used: seq<bool>, flat: map<nat, U32>, v: nat)
    requires Stands(t, used, flat) && v < PAGES
    ensures 1024 * (t.dir + 1) <= |t.ram| == 1024 * |used|
    ensures Present(Pde(t, v / 1024)) ==>
              && FrameOf(Pde(t, v / 1024)) < |used|
              && (Present(Word(t, FrameOf(Pde(t, v / 1024)), v % 1024)) <==> v in flat)
    ensures !Present(Pde(t, v / 1024)) ==> v !in flat
  {
    assert TableOk(t, used, v / 1024);
    assert Walk(t, used, v) == Lookup(flat, v);
  }

  lemma ClearedThenStored(t: Tables, c: Tables, used: seq<bool>, k: nat, f: nat, e: U32)
    requires Sound(t, used) && f < |used| && !used[f] && k < 1024 && FrameOf(e) == f && e % 4096 == 7
    requires c.dir == t.dir && c.first == t.first && |c.ram| == |t.ram|
    requires forall i :: 0 <= i < |t.ram| ==> c.ram[i] == if 1024 * f <= i < 1024 * f + 1024 then 0 else t.ram[i]
    ensures TableAdded(t, SetWord(c, t.dir, k, e), k, f)
  {
    var r := SetWord(c, t.dir, k, e);
    forall g: nat, j: nat | j < 1024 && 1024 * (g + 1) <= |t.ram|
      ensures Word(r, g, j) == if g == t.dir && j == k then e else if g == f then 0 else Word(t, g, j)
    {
      WordAfter(c, t.dir, k, e, g, j);
    }
  }

  // ---------------------------------------------------------------- runs

  /** A page mapping, a frame taken for other use, or the frame of the `taken`-th call given back. */
  datatype Call = MapCall(virt: U32, phys: U32, flags: U32) | TakeCall | GiveCall(taken: nat)

  /** The flat map and the directory entries that have a table. */
  datatype Space = Space(flat: map<nat, U32>, there: set<nat>)

  ghost function SpaceOf(vm: AddressSpace): Space
    requires vm.Valid()
    reads vm, vm.pmm, vm.pmm.bitmap, vm.ram
  {
    Space(vm.flat, There(vm.T()))
  }

  /** The address space after a call: only a mapping that succeeded changes it. */
  function AfterCall(m: Space, call: Call, code: Code): Space {
    if code == Success && call.MapCall? then
      Space(Extended(m.flat, call.virt / 0x1000, Entry(call.phys, call.flags)), m.there + {call.virt / 0x40_0000})
    else m
  }

  /** The address space after the mappings that succeeded. */
  function Replay(m: Space, calls: seq<Call>, codes: seq<Code>): Space
    requires |codes| == |calls|
    decreases |calls|
  {
    if calls == [] then m
    else
      var k := |calls| - 1;
      AfterCall(Replay(m, calls[..k], codes[..k]), calls[k], codes[k])
  }

  /** Only frames that were taken are given back, each of them once. */
  ghost predicate Legal(calls: seq<Call>) {
    forall i :: 0 <= i < |calls| && calls[i].GiveCall? ==> LegalGive(calls, i)
  }

  ghost predicate LegalGive(calls: seq<Call>, i: nat)
    requires i < |calls| && calls[i].GiveCall?
  {
    calls[i].taken < i && calls[calls[i].taken].TakeCall? && calls[i] !in calls[..i]
  }

  /** Frame `f` went from free to used, or none did when `f` is negative. */
  ghost predicate Handed(a: seq<bool>, f: int, b: seq<bool>) {
    if f < 0 then b == a else f < |a| && !a[f] && b == a[f := true]
  }

  /** The frame that call `i` handed out, from the marks before and after it. */
  ghost predicate MarkStep(calls: seq<Call>, frames: seq<int>, i: nat, a: seq<bool>, b: seq<bool>)
    requires i < |calls| && i < |frames|
  {
    if calls[i].GiveCall? then
      calls[i].taken < i && frames[i] == -1
      && (var f := frames[calls[i].taken]; if 0 <= f < |a| then b == a[f := false] else b == a)
    else Handed(a, frames[i], b)
  }

  /** The frame of call `i` has been handed out and not been given back. */
  ghost predicate Held(calls: seq<Call>, frames: seq<int>, i: nat)
    requires |frames| <= |calls|
  {
    i < |frames| && frames[i] >= 0 && GiveCall(i) !in calls[..|frames|]
  }

  ghost predicate HeldOk(t: Tables, used: seq<bool>, calls: seq<Call>, frames: seq<int>, i: nat)
    requires |frames| <= |calls| && 1024 * (t.dir + 1) <= |t.ram|
  {
    Held(calls, frames, i) ==>
      frames[i] < |used| && used[frames[i]] && (calls[i].TakeCall? ==> !InTables(t, frames[i]))
  }

  ghost predicate HeldApart(calls: seq<Call>, frames: seq<int>, i: nat, j: nat)
    requires |frames| <= |calls|
  {
    i < j && Held(calls, frames, i) && Held(calls, frames, j) ==> frames[i] != frames[j]
  }

  /** Between two hand-outs of the same frame it was given back. */
  ghost predicate ReturnedBetween(calls: seq<Call>, frames: seq<int>, i: nat, j: nat)
    requires |frames| <= |calls|
  {
    i < j < |frames| && frames[i] == frames[j] >= 0 ==> GiveCall(i) in calls[i..j]
  }

  ghost predicate NeverTwice(calls: seq<Call>, frames: seq<int>)
    requires |frames| <= |calls|
  {
    forall i: nat, j: nat :: ReturnedBetween(calls, frames, i, j)
  }

  /** Frames in hand are marked and distinct, and those taken for other use hold no table. */
  ghost predicate InHand(t: Tables, used: seq<bool>, calls: seq<Call>, frames: seq<int>)
    requires |frames| <= |calls| && 1024 * (t.dir + 1) <= |t.ram|
  {
    && (forall i: nat :: HeldOk(t, used, calls, frames, i))
    && (forall i: nat, j: nat :: HeldApart(calls, frames, i, j))
    && NeverTwice(calls, frames)
  }

  /** A call that may hand out a frame keeps all that. */
  lemma HandStep(t: Tables, used: seq<bool>, r: Tables, after: seq<bool>, calls: seq<Call>, frames: seq<int>, f: int)
    requires |frames| < |calls| && 1024 * (t.dir + 1) <= |t.ram| && 1024 * (r.dir + 1) <= |r.ram| && Legal(calls)
    requires InHand(t, used, calls, frames) && !calls[|frames|].GiveCall?
    requires Handed(used, f, after) && NoNewTables(t, r, used)
    requires calls[|frames|].TakeCall? && f >= 0 ==> !InTables(r, f)
    ensures InHand(r, after, calls, frames + [f])
  {
    hide InTables;
    var n, gs := |frames|, frames + [f];
    assert calls[..n + 1] == calls[..n] + [calls[n]];
    forall i: nat | i < n ensures Held(calls, gs, i) <==> Held(calls, frames, i) {}
    forall i: nat ensures HeldOk(r, after, calls, gs, i) {
      assert HeldOk(t, used, calls, frames, i);
    }
    forall i: nat, j: nat ensures HeldApart(calls, gs, i, j) {
      assert HeldApart(calls, frames, i, j) && HeldOk(t, used, calls, frames, i);
    }
    forall i: nat, j: nat ensures ReturnedBetween(calls, gs, i, j) {
      assert ReturnedBetween(calls, frames, i, j) && HeldOk(t, used, calls, frames, i);
      if i < j == n && gs[i] == gs[j] >= 0 {
        GivenLater(calls, i, n);
      }
    }
  }

  /** A frame is given back only after it was taken. */
  lemma GivenLater(calls: seq<Call>, i: nat, n: nat)
    requires Legal(calls) && i < n <= |calls| && GiveCall(i) in calls[..n]
    ensures GiveCall(i) in calls[i..n]
  {
    var m :| 0 <= m < n && calls[m] == GiveCall(i);
    assert LegalGive(calls, m);
    assert calls[i..n][m - i] == GiveCall(i);
  }

  /** Giving back a frame that was taken keeps all that. */
  lemma GiveStep(t: Tables, used: seq<bool>, calls: seq<Call>, frames: seq<int>, after: seq<bool>)
    requires |frames| < |calls| && 1024 * (t.dir + 1) <= |t.ram| && Legal(calls)
    requires InHand(t, used, calls, frames) && calls[|frames|].GiveCall? && calls[|frames|].taken < |frames|
    requires var f := frames[calls[|frames|].taken];
             if 0 <= f < |used| then after == used[f := false] else after == used
    ensures InHand(t, after, calls, frames + [-1])
  {
    hide InTables;
    var n, gs, k := |frames|, frames + [-1], calls[|frames|].taken;
    assert LegalGive(calls, n);
    assert calls[..n + 1] == calls[..n] + [calls[n]];
    forall i: nat ensures Held(calls, gs, i) <==> Held(calls, frames, i) && i != k {}
    forall i: nat ensures HeldOk(t, after, calls, gs, i) {
      assert HeldOk(t, used, calls, frames, i) && HeldApart(calls, frames, i, k) && HeldApart(calls, frames, k, i);
    }
    forall i: nat, j: nat ensures HeldApart(calls, gs, i, j) {
      assert HeldApart(calls, frames, i, j);
    }
    forall i: nat, j: nat ensures ReturnedBetween(calls, gs, i, j) {
      assert ReturnedBetween(calls, frames, i, j);
    }
  }

  /** What a legal giving back finds: a marked frame that holds no table, unless the taking failed. */
  lemma GiveFinds(t: Tables, used: seq<bool>, calls: seq<Call>, frames: seq<int>)
    requires |frames| < |calls| && 1024 * (t.dir + 1) <= |t.ram| && Legal(calls)
    requires InHand(t, used, calls, frames) && calls[|frames|].GiveCall?
    ensures var k := calls[|frames|].taken;
            && k < |frames| && calls[k].TakeCall?
            && (frames[k] >= 0 ==> frames[k] < |used| && used[frames[k]] && !InTables(t, frames[k]))
  {
    var k := calls[|frames|].taken;
    assert LegalGive(calls, |frames|);
    assert HeldOk(t, used, calls, frames, k);
  }

  lemma NothingInHand(t: Tables, used: seq<bool>, calls: seq<Call>)
    requires 1024 * (t.dir + 1) <= |t.ram|
    ensures InHand(t, used, calls, [])
  {
  }

  /** A free frame holds no table. */
  lemma FreeHoldsNoTable(t: Tables, used: seq<bool>, flat: map<nat, U32>, f: nat)
    requires Stands(t, used, flat) && f < |used| && !used[f]
    ensures 1024 * (t.dir + 1) <= |t.ram| && !InTables(t, f)
  {
    forall k: nat | k < 1024 && Present(Pde(t, k)) ensures FrameOf(Pde(t, k)) != f {
      assert TableOk(t, used, k);
    }
  }

  /** Unmarking a frame that holds no table changes no translation. */
  lemma UnmarkedWalk(t: Tables, used: seq<bool>, f: nat, flat: map<nat, U32>)
    requires Stands(t, used, flat) && f < |used| && !InTables(t, f)
    ensures Stands(t, used[f := false], flat)
  {
    var u := used[f := false];
    forall j: nat | j < 1024 ensures TableOk(t, u, j) { assert TableOk(t, used, j); }
    forall i: nat, j: nat | i < 1024 && j < 1024 ensures TablesApart(t, i, j) { assert TablesApart(t, i, j); }
    forall v: nat | v < PAGES ensures Walk(t, u, v) == Lookup(flat, v) {
      assert Walk(t, used, v) == Lookup(flat, v);
      assert TableOk(t, used, v / 1024);
    }
  }

  /** `pmm_alloc_frame` beside an address space. */
  method TakeFrame(vm: AddressSpace) returns (code: Code, addr: U32)
    requires vm.Valid()
    modifies vm.pmm`usedFrames, vm.pmm.bitmap
    ensures vm.Valid() && vm.T() == old(vm.T())
    ensures code == if FirstFree(old(vm.pmm.Used()), 0) < vm.pmm.total then Success else Halted
    ensures vm.pmm.Used() == Apply(old(vm.pmm.Used()), Take)
    ensures code == Success ==>
              addr == FirstFree(old(vm.pmm.Used()), 0) * 0x1000 && !InTables(vm.T(), FirstFree(old(vm.pmm.Used()), 0))
  {
    hide Stands, Marks, InTables;
    var ok;
    ok, addr := vm.pmm.AllocFrame();
    code := if ok then Success else Halted;
    if ok {
      ghost var f := FirstFree(old(vm.pmm.Used()), 0);
      FreeHoldsNoTable(vm.T(), old(vm.pmm.Used()), vm.flat, f);
      MarkedWalk(vm.T(), old(vm.pmm.Used()), f, vm.flat);
    }
  }

  /** `pmm_free_frame` of a frame that holds no table. */
  method GiveFrame(vm: AddressSpace, addr: U32)
    requires vm.Valid() && addr / 0x1000 < vm.pmm.total && !InTables(vm.T(), addr / 0x1000)
    modifies vm.pmm`usedFrames, vm.pmm.bitmap
    ensures vm.Valid() && vm.T() == old(vm.T())
    ensures vm.pmm.Used() == old(vm.pmm.Used())[addr / 0x1000 := false]
  {
    hide Stands, Marks, InTables;
    UnmarkedWalk(vm.T(), vm.pmm.Used(), addr / 0x1000, vm.flat);
    var ok := vm.pmm.FreeFrame(addr);
  }

  /** The frame a call handed out, if it changed the marks. */
  ghost function NewFrame(a: seq<bool>, b: seq<bool>): int {
    if a == b then -1 else FirstFree(a, 0)
  }

  lemma NewFrameHanded(a: seq<bool>, b: seq<bool>)
    requires b == a || b == Apply(a, Take)
    ensures Handed(a, NewFrame(a, b), b)
    ensures b == Apply(a, Take) && FirstFree(a, 0) < |a| ==> NewFrame(a, b) == FirstFree(a, 0)
    ensures b == Apply(a, Take) && FirstFree(a, 0) >= |a| ==> NewFrame(a, b) == -1
  {
    var k := FirstFree(a, 0);
    assert k < |a| ==> a[k := true][k] != a[k];
  }

  /** Code and address of a taken frame, as the caller got them. */
  ghost predicate Answered(calls: seq<Call>, codes: seq<Code>, addrs: seq<U32>, frames: seq<int>, i: nat)
    requires i < |codes| == |addrs| == |frames| <= |calls|
  {
    calls[i].TakeCall? ==>
      (codes[i] == Success <==> frames[i] >= 0) && (frames[i] >= 0 ==> addrs[i] == frames[i] * 0x1000)
  }

  /** Answer and marks after a call are the ones its arguments, the address space and the free frames call for. */
  ghost predicate Justified(m: Space, call: Call, a: seq<bool>, b: seq<bool>, code: Code) {
    match call
    case MapCall(virt, phys, _) =>
      var missing := virt / 0x40_0000 !in m.there;
      && code == Answer(virt, phys, m.flat, missing, FirstFree(a, 0), |a|)
      && b == if Asks(virt, phys, m.flat, missing) then Apply(a, Take) else a
    case TakeCall =>
      code == (if FirstFree(a, 0) < |a| then Success else Halted) && b == Apply(a, Take)
    case GiveCall(_) => code == Success
  }

  /** One call of a run; `codes` and `addrs` are the answers so far. */
  method Do(vm: AddressSpace, call: Call, codes: seq<Code>, addrs: seq<U32>, ghost frames: seq<int>,
            ghost calls: seq<Call>)
      returns (code: Code, addr: U32, ghost frame: int)
    requires vm.Valid() && |codes| == |addrs| == |frames| < |calls| && calls[|frames|] == call && Legal(calls)
    requires InHand(vm.T(), vm.pmm.Used(), calls, frames)
    requires forall i :: 0 <= i < |frames| ==> Answered(calls, codes, addrs, frames, i)
    modifies vm, vm.ram, vm.pmm`usedFrames, vm.pmm.bitmap
    ensures vm.Valid() && InHand(vm.T(), vm.pmm.Used(), calls, frames + [frame])
    ensures MarkStep(calls, frames + [frame], |frames|, old(vm.pmm.Used()), vm.pmm.Used())
    ensures SpaceOf(vm) == AfterCall(old(SpaceOf(vm)), call, code)
    ensures Answered(calls, codes + [code], addrs + [addr], frames + [frame], |frames|)
    ensures Justified(old(SpaceOf(vm)), call, old(vm.pmm.Used()), vm.pmm.Used(), code)
  {
    hide Stands, Sound, Walk, Entry, Extended, InHand, InTables, NoNewTables, Marks, Apply, NewFrame, Legal, Handed;
    ghost var t, used := vm.T(), vm.pmm.Used();
    addr := 0;
    match call {
      case MapCall(virt, phys, flags) =>
        code := vm.MapPage(virt, phys, flags);
        frame := NewFrame(used, vm.pmm.Used());
        NewFrameHanded(used, vm.pmm.Used());
        HandStep(t, used, vm.T(), vm.pmm.Used(), calls, frames, frame);
      case TakeCall =>
        code, addr := TakeFrame(vm);
        frame := NewFrame(used, vm.pmm.Used());
        NewFrameHanded(used, vm.pmm.Used());
        SameTables(t, used);
        HandStep(t, used, vm.T(), vm.pmm.Used(), calls, frames, frame);
      case GiveCall(taken) =>
        code, frame := DoGive(vm, taken, codes, addrs, frames, calls);
    }
  }

  method DoGive(vm: AddressSpace, taken: nat, codes: seq<Code>, addrs: seq<U32>, ghost frames: seq<int>,
                ghost calls: seq<Call>) returns (code: Code, ghost frame: int)
    requires vm.Valid() && |codes| == |addrs| == |frames| < |calls|
    requires calls[|frames|] == GiveCall(taken) && Legal(calls)
    requires InHand(vm.T(), vm.pmm.Used(), calls, frames)
    requires forall i :: 0 <= i < |frames| ==> Answered(calls, codes, addrs, frames, i)
    modifies vm.pmm`usedFrames, vm.pmm.bitmap
    ensures vm.Valid() && InHand(vm.T(), vm.pmm.Used(), calls, frames + [frame]) && frame == -1 && code == Success
    ensures MarkStep(calls, frames + [frame], |frames|, old(vm.pmm.Used()), vm.pmm.Used())
  {
    hide Stands, InHand, InTables, Marks, Legal;
    ghost var t, used := vm.T(), vm.pmm.Used();
    frame := -1;
    code := Success;
    GiveFinds(t, used, calls, frames);
    assert Answered(calls, codes, addrs, frames, taken);
    if codes[taken] == Success {
      GiveFrame(vm, addrs[taken]);
    }
    GiveStep(t, used, calls, frames, vm.pmm.Used());
  }

  /** After any run of mappings, takings and givings back the two-level walk is the flat map of the
      successful mappings, and no frame was handed out twice without having been given back. */
  method Run(vm: AddressSpace, calls: seq<Call>)
      returns (codes: seq<Code>, addrs: seq<U32>, ghost frames: seq<int>, ghost marks: seq<seq<bool>>)
    requires vm.Valid() && Legal(calls)
    modifies vm, vm.ram, vm.pmm`usedFrames, vm.pmm.bitmap
    ensures vm.Valid() && |codes| == |addrs| == |frames| == |calls| && |marks| == |calls| + 1
    ensures SpaceOf(vm) == Replay(old(SpaceOf(vm)), calls, codes)
    ensures marks[0] == old(vm.pmm.Used()) && marks[|calls|] == vm.pmm.Used()
    ensures forall i :: 0 <= i < |calls| ==> MarkStep(calls, frames, i, marks[i], marks[i + 1])
    ensures forall i :: 0 <= i < |calls| ==> Answered(calls, codes, addrs, frames, i)
    ensures forall i :: 0 <= i < |calls| ==>
                          Justified(Replay(old(SpaceOf(vm)), calls[..i], codes[..i]), calls[i],
                                    marks[i], marks[i + 1], codes[i])
    ensures NeverTwice(calls, frames)
  {
    hide Stands, Sound, Walk, Entry, Extended, InTables, Marks, Legal, InHand, MarkStep, Answered, NeverTwice,
         Justified, Replay;
    codes, addrs, frames, marks := [], [], [], [vm.pmm.Used()];
    NothingInHand(vm.T(), vm.pmm.Used(), calls);
    ghost var m := SpaceOf(vm);
    ReplayNothing(m, calls);
    for i := 0 to |calls|
      invariant vm.Valid() && |codes| == |addrs| == |frames| == i && |marks| == i + 1
      invariant SpaceOf(vm) == Replay(m, calls[..i], codes)
      invariant marks[0] == old(vm.pmm.Used()) && marks[i] == vm.pmm.Used()
      invariant forall j :: 0 <= j < i ==> MarkStep(calls, frames, j, marks[j], marks[j + 1])
      invariant forall j :: 0 <= j < i ==> Answered(calls, codes, addrs, frames, j)
      invariant forall j :: 0 <= j < i ==>
                              Justified(Replay(m, calls[..j], codes[..j]), calls[j], marks[j], marks[j + 1], codes[j])
      invariant InHand(vm.T(), vm.pmm.Used(), calls, frames)
    {
      var code, addr;
      ghost var frame;
      ghost var fs, ms, cs := frames, marks, codes;
      code, addr, frame := Do(vm, calls[i], codes, addrs, frames, calls);
      ReplayStep(m, calls, i, codes, code);
      MarkSteps(calls, fs, frame, ms, vm.pmm.Used());
      AnsweredSteps(calls, codes, code, addrs, addr, fs, frame);
      JustifiedSteps(m, calls, cs, code, ms, vm.pmm.Used());
      codes, addrs, frames, marks := codes + [code], addrs + [addr], frames + [frame], marks + [vm.pmm.Used()];
    }
    assert calls[..|calls|] == calls;
    InHandNeverTwice(vm.T(), vm.pmm.Used(), calls, frames);
  }

  lemma ReplayNothing(m: Space, calls: seq<Call>)
    ensures Replay(m, calls[..0], []) == m
  {
  }

  lemma ReplayStep(m: Space, calls: seq<Call>, i: nat, codes: seq<Code>, code: Code)
    requires i < |calls| && |codes| == i
    ensures Replay(m, calls[..i + 1], codes + [code]) == AfterCall(Replay(m, calls[..i], codes), calls[i], code)
  {
    assert calls[..i + 1][..i] == calls[..i] && (codes + [code])[..i] == codes;
  }

  lemma MarkSteps(calls: seq<Call>, frames: seq<int>, frame: int, marks: seq<seq<bool>>, m: seq<bool>)
    requires |frames| < |calls| && |marks| == |frames| + 1
    requires forall j :: 0 <= j < |frames| ==> MarkStep(calls, frames, j, marks[j], marks[j + 1])
    requires MarkStep(calls, frames + [frame], |frames|, marks[|frames|], m)
    ensures forall j :: 0 <= j <= |frames| ==>
                          MarkStep(calls, frames + [frame], j, (marks + [m])[j], (marks + [m])[j + 1])
  {
    forall j | 0 <= j < |frames| ensures MarkStep(calls, frames + [frame], j, (marks + [m])[j], (marks + [m])[j + 1]) {
      assert MarkStep(calls, frames, j, marks[j], marks[j + 1]);
    }
  }

  lemma AnsweredSteps(calls: seq<Call>, codes: seq<Code>, code: Code, addrs: seq<U32>, addr: U32,
                      frames: seq<int>, frame: int)
    requires |codes| == |addrs| == |frames| < |calls|
    requires forall j :: 0 <= j < |frames| ==> Answered(calls, codes, addrs, frames, j)
    requires Answered(calls, codes + [code], addrs + [addr], frames + [frame], |frames|)
    ensures forall j :: 0 <= j <= |frames| ==> Answered(calls, codes + [code], addrs + [addr], frames + [frame], j)
  {
    forall j | 0 <= j < |frames| ensures Answered(calls, codes + [code], addrs + [addr], frames + [frame], j) {
      assert Answered(calls, codes, addrs, frames, j);
    }
  }

  lemma JustifiedSteps(m: Space, calls: seq<Call>, codes: seq<Code>, code: Code, marks: seq<seq<bool>>, a: seq<bool>)
    requires |codes| < |calls| && |marks| == |codes| + 1
    requires forall j :: 0 <= j < |codes| ==>
                           Justified(Replay(m, calls[..j], codes[..j]), calls[j], marks[j], marks[j + 1], codes[j])
    requires Justified(Replay(m, calls[..|codes|], codes), calls[|codes|], marks[|codes|], a, code)
    ensures var cs, ms := codes + [code], marks + [a];
            forall j :: 0 <= j <= |codes| ==>
                          Justified(Replay(m, calls[..j], cs[..j]), calls[j], ms[j], ms[j + 1], cs[j])
  {
    var cs := codes + [code];
    forall j | 0 <= j <= |codes| ensures cs[..j] == codes[..j] {}
    assert codes[..|codes|] == codes;
  }

  lemma InHandNeverTwice(t: Tables, used: seq<bool>, calls: seq<Call>, frames: seq<int>)
    requires |frames| <= |calls| && 1024 * (t.dir + 1) <= |t.ram| && InHand(t, used, calls, frames)
    ensures NeverTwice(calls, frames)
  {
  }
}
