/** Whole runs over the kernel heap in memory: to its users it is a store of independent byte blocks. */
module HeapRuns {
  import opened Bytes
  import opened Heap

  /** A request for memory, the release of what the `k`-th request got, and a byte stored there. */
  datatype Request = Malloc(n: U32) | Free(k: nat) | Fill(k: nat, at: nat, x: Byte)

  /** What the requests hold: the bytes asked for by each request that was served and not released. */
  type Store = map<nat, seq<Byte>>

  function Poke(c: seq<Byte>, at: nat, x: Byte): seq<Byte>
    requires at < |c|
  {
    c[at := x]
  }

  /** Request number `i` on the store. Memory is refused only when no free block is large enough. */
  ghost predicate StoreStep(s: Store, b: seq<Block>, i: nat, r: Request, ptr: U32, t: Store) {
    match r
    case Malloc(n) =>
      && (ptr == 0 <==> forall j :: 0 <= j < |b| ==> !Fits(b[j], n))
      && if ptr == 0 then t == s
         else t.Keys == s.Keys + {i} && |t[i]| == n && forall k :: k in s && k != i ==> t[k] == s[k]
    case Free(k) => t == s - {k}
    case Fill(k, at, x) => t == if k in s && at < |s[k]| then s[k := Poke(s[k], at, x)] else s
  }

  /** Where first fit puts `n` bytes: the address of the payload, or 0. */
  function AddressFor(b: seq<Block>, start: int, n: nat): int {
    var i := FirstFit(b, n, 0);
    if i < |b| then start + Off(b, i) + 12 else 0
  }

  /** The answer to a request and the heap operations it stands for, given the block list and the pointers
      handed out: an allocation goes where first fit puts it, a release frees the block behind the pointer. */
  ghost predicate ListStep(b: seq<Block>, start: int, s: Store, ptrs: seq<U32>, r: Request, ptr: U32, ops: seq<Op>) {
    match r
    case Malloc(n) => ops == [Allocate(n)] && ptr as int == AddressFor(b, start, n)
    case Free(k) =>
      ptr == 0 && if k in s && k < |ptrs| then FreesBlock(b, ptrs[k] - start, ops) else ops == []
    case Fill(k, at, x) => ptr == 0 && ops == []
  }

  /** The operation releases the block in use whose payload is at `p`. */
  ghost predicate FreesBlock(b: seq<Block>, p: int, ops: seq<Op>) {
    |ops| == 1 && ops[0].Release? && ops[0].i < |b| && !b[ops[0].i].free && p == Off(b, ops[0].i) + 12
  }

  /** A live payload at address `p` has room for `n` bytes. */
  ghost predicate Room(b: seq<Block>, p: int, n: nat) {
    exists sz: nat :: n <= sz && Live(b, p, sz)
  }

  /** The block at address `p` holds the bytes `c`. */
  ghost predicate HeldAt(m: seq<Byte>, start: int, b: seq<Block>, p: int, c: seq<Byte>) {
    0 <= p - start && p - start + |c| <= |m| && Room(b, p - start, |c|) && c == m[p - start..p - start + |c|]
  }

  /** Pointers that are not NULL belong to what is held, and are distinct. */
  ghost predicate Holds(m: seq<Byte>, start: int, b: seq<Block>, ptrs: seq<U32>, sizes: seq<U32>, s: Store) {
    && |sizes| == |ptrs|
    && (forall k: nat :: k in s <==> k < |ptrs| && ptrs[k] != 0)
    && (forall k: nat :: k in s ==> |s[k]| == sizes[k] && HeldAt(m, start, b, ptrs[k], s[k]))
    && (forall k: nat, l: nat :: k in s && l in s && k != l ==> ptrs[k] != ptrs[l])
  }

  /** Every live payload belongs to a pointer handed out and not released. */
  ghost predicate Accounted(start: int, b: seq<Block>, ptrs: seq<U32>) {
    forall p, sz: nat :: Live(b, p, sz) ==> Among(start, ptrs, p)
  }

  ghost predicate Among(start: int, ptrs: seq<U32>, p: int) {
    exists k: nat :: k < |ptrs| && ptrs[k] != 0 && ptrs[k] - start == p
  }

  // ---------------------------------------------------------------- what each operation keeps

  /** The payload at `q`, if there is one, is still live and has the same bytes. */
  ghost predicate LivesOn(m: seq<Byte>, w: seq<Byte>, b: seq<Block>, d: seq<Block>, q: int)
    requires |w| == |m|
  {
    forall sz: nat :: Live(b, q, sz) ==> Live(d, q, sz) && SameRange(m, w, q, q + sz)
  }

  /** A payload whose bytes are kept and which is still live. */
  lemma HeldKept(m: seq<Byte>, w: seq<Byte>, start: int, b: seq<Block>, d: seq<Block>, p: int, c: seq<Byte>)
    requires HeldAt(m, start, b, p, c) && |w| == |m|
    requires LivesOn(m, w, b, d, p - start)
    ensures HeldAt(w, start, d, p, c)
  {
    var sz: nat :| |c| <= sz && Live(b, p - start, sz);
    assert SameRange(m, w, p - start, p - start + sz);
    var o := p - start;
    assert w[o..o + |c|] == m[o..o + |c|];
  }

  /** The payload of a free block is not live. */
  lemma FreeNotLive(b: seq<Block>, i: nat, p: int, sz: nat)
    requires i < |b| && b[i].free && p == Off(b, i) + 12
    ensures !Live(b, p, sz)
  {
    forall j: nat ensures !LiveAt(b, j, p, sz) {
      if j < |b| {
        BlockApart(b, i, j);
      }
    }
  }

  /** Two live payloads at different places are disjoint. */
  lemma LiveApart(b: seq<Block>, p: int, n: nat, q: int, m: nat)
    requires Live(b, p, n) && Live(b, q, m) && p != q
    ensures p + n + 12 <= q || q + m + 12 <= p
  {
    var i: nat :| LiveAt(b, i, p, n);
    var j: nat :| LiveAt(b, j, q, m);
    LiveDisjoint(b, i, p, n, j, q, m);
  }

  /** Live payloads lie inside the memory. */
  lemma LiveInside(b: seq<Block>, p: int, n: nat)
    requires Live(b, p, n)
    ensures 12 <= p && p + n <= Span(b)
  {
    var i: nat :| LiveAt(b, i, p, n);
    OffMonotone(b, i, |b|);
  }

  /** An allocation: everything held stays held, the new block joins. */
  lemma MallocHolds(m: seq<Byte>, w: seq<Byte>, start: int, b: seq<Block>, d: seq<Block>, ptrs: seq<U32>,
                    sizes: seq<U32>, s: Store, n: U32, ptr: U32) returns (t: Store)
    requires Holds(m, start, b, ptrs, sizes, s) && PayloadsKept(m, w, b) && Span(d) == |w| && 0 < start
    requires ptr == 0 ==> d == b
    requires ptr != 0 ==> Room(d, ptr - start, n) && !IsPayload(b, ptr - start)
                          && forall p, sz: nat :: Live(b, p, sz) ==> Live(d, p, sz)
    ensures Holds(w, start, d, ptrs + [ptr], sizes + [n], t)
    ensures if ptr == 0 then t == s
            else t.Keys == s.Keys + {|ptrs|} && |t[|ptrs|]| == n && forall k :: k in s && k != |ptrs| ==> t[k] == s[k]
  {
    MallocKeeps(m, w, start, b, d, ptrs, sizes, s);
    if ptr == 0 {
      t := s;
      NullUnheld(w, start, d, ptrs, sizes, s, n);
    } else {
      NotAmongHeld(m, start, b, ptrs, sizes, s, ptr);
      NewHeld(w, start, d, ptr, n);
      hide Holds, HeldAt, Live, PayloadsKept;
      t := s[|ptrs| := w[ptr - start..ptr - start + n]];
      AddHeld(w, start, d, ptrs, sizes, s, ptr, n, t[|ptrs|]);
      NotHeld(w, start, d, ptrs, sizes, s, |ptrs|);
    }
  }

  lemma MallocKeeps(m: seq<Byte>, w: seq<Byte>, start: int, b: seq<Block>, d: seq<Block>, ptrs: seq<U32>,
                    sizes: seq<U32>, s: Store)
    requires Holds(m, start, b, ptrs, sizes, s) && PayloadsKept(m, w, b)
    requires forall p, sz: nat :: Live(b, p, sz) ==> Live(d, p, sz)
    ensures Holds(w, start, d, ptrs, sizes, s)
  {
    hide Live, HeldAt, SameRange;
    forall k: nat | k in s ensures HeldAt(w, start, d, ptrs[k], s[k]) {
      assert LivesOn(m, w, b, d, ptrs[k] - start);
      HeldKept(m, w, start, b, d, ptrs[k], s[k]);
    }
  }

  lemma NotAmongHeld(m: seq<Byte>, start: int, b: seq<Block>, ptrs: seq<U32>, sizes: seq<U32>, s: Store, ptr: U32)
    requires Holds(m, start, b, ptrs, sizes, s) && !IsPayload(b, ptr - start)
    ensures forall k: nat :: k in s ==> ptrs[k] != ptr
  {
    hide Live;
    forall k: nat | k in s ensures ptrs[k] != ptr {
      HeldIsPayload(m, start, b, ptrs, sizes, s, k);
    }
  }

  lemma NewHeld(w: seq<Byte>, start: int, d: seq<Block>, ptr: U32, n: nat)
    requires Room(d, ptr - start, n) && Span(d) == |w|
    ensures 0 <= ptr - start && ptr - start + n <= |w|
    ensures HeldAt(w, start, d, ptr, w[ptr - start..ptr - start + n])
  {
    hide Live;
    var sz: nat :| n <= sz && Live(d, ptr - start, sz);
    LiveInside(d, ptr - start, sz);
  }

  lemma AddHeld(w: seq<Byte>, start: int, d: seq<Block>, ptrs: seq<U32>, sizes: seq<U32>, s: Store, ptr: U32, n: U32,
                c: seq<Byte>)
    requires Holds(w, start, d, ptrs, sizes, s) && ptr != 0 && |c| == n && HeldAt(w, start, d, ptr, c)
    requires forall k: nat :: k in s ==> ptrs[k] != ptr
    ensures Holds(w, start, d, ptrs + [ptr], sizes + [n], s[|ptrs| := c])
  {
    hide HeldAt;
  }

  /** A request that got no memory leaves a NULL behind. */
  lemma NullUnheld(w: seq<Byte>, start: int, d: seq<Block>, ptrs: seq<U32>, sizes: seq<U32>, s: Store, n: U32)
    requires Holds(w, start, d, ptrs, sizes, s)
    ensures Holds(w, start, d, ptrs + [0], sizes + [n], s)
  {
    hide HeldAt;
  }

  /** A release: everything else stays held. */
  lemma FreeHolds(m: seq<Byte>, w: seq<Byte>, start: int, b: seq<Block>, d: seq<Block>, ptrs: seq<U32>, sizes: seq<U32>,
                  s: Store, k: nat)
    requires Holds(m, start, b, ptrs, sizes, s) && k < |ptrs| && PayloadsKept(m, w, d)
    requires forall p, sz: nat :: Live(d, p, sz) <==> Live(b, p, sz) && (ptrs[k] == 0 || p != ptrs[k] - start)
    ensures Holds(w, start, d, ptrs[k := 0], sizes, s - {k})
  {
    hide Live;
    forall l: nat | l in s && l != k ensures HeldAt(w, start, d, ptrs[l], s[l]) {
      assert LivesOn(m, w, b, d, ptrs[l] - start);
      HeldKept(m, w, start, b, d, ptrs[l], s[l]);
    }
  }

  /** A byte stored in one payload: its contents change there, all others stay. */
  lemma FillHolds(m: seq<Byte>, start: int, b: seq<Block>, ptrs: seq<U32>, sizes: seq<U32>, s: Store, k: nat, at: nat,
                  x: Byte)
    requires Holds(m, start, b, ptrs, sizes, s) && k in s && at < |s[k]|
    ensures 0 <= ptrs[k] - start + at < |m|
    ensures Holds(m[ptrs[k] - start + at := x], start, b, ptrs, sizes, s[k := Poke(s[k], at, x)])
  {
    var o := ptrs[k] - start;
    var w := m[o + at := x];
    forall l: nat | l in s && l != k ensures HeldAt(w, start, b, ptrs[l], s[l]) {
      ByteElsewhere(m, start, b, ptrs[k], s[k], ptrs[l], s[l], at, x);
    }
    assert w[o..o + |s[k]|] == Poke(s[k], at, x);
  }

  lemma ByteElsewhere(m: seq<Byte>, start: int, b: seq<Block>, p: int, c: seq<Byte>, q: int, d: seq<Byte>, at: nat,
                      x: Byte)
    requires HeldAt(m, start, b, p, c) && HeldAt(m, start, b, q, d) && p != q && at < |c|
    ensures HeldAt(m[p - start + at := x], start, b, q, d)
  {
    var n: nat :| |c| <= n && Live(b, p - start, n);
    var l: nat :| |d| <= l && Live(b, q - start, l);
    LiveApart(b, p - start, n, q - start, l);
    assert m[p - start + at := x][q - start..q - start + |d|] == d;
  }

  /** A byte stored in a payload touches no header. */
  lemma FillLaid(m: seq<Byte>, start: int, b: seq<Block>, p: int, n: nat, at: nat, x: Byte)
    requires Laid(m, start, b) && Room(b, p, n) && at < n
    ensures 0 <= p + at < |m| && Laid(m[p + at := x], start, b)
  {
    var sz: nat :| n <= sz && Live(b, p, sz);
    var i: nat :| LiveAt(b, i, p, sz);
    OffMonotone(b, i, |b|);
    var w := m[p + at := x];
    hide Header, Live, LiveAt;
    forall j: nat | j < |b| ensures HeaderAt(w, start, b, j) {
      BlockApart(b, i, j);
      HeaderHere(m, start, b, j);
      HeaderKept(m, w, Off(b, j), b[j].size, Link(b, start, j), b[j].free);
    }
  }

  // ---------------------------------------------------------------- serving requests

  /** `kmalloc` for the next request. */
  method ServeMalloc(h: KernelHeap, n: U32, ptrs: seq<U32>, sizes: seq<U32>, ghost s: Store)
      returns (ptr: U32, ghost t: Store)
    requires h.Valid() && Holds(h.mem[..], h.start, h.blocks, ptrs, sizes, s)
    modifies h`blocks, h.mem
    ensures h.Valid() && Holds(h.mem[..], h.start, h.blocks, ptrs + [ptr], sizes + [n], t)
    ensures StoreStep(s, old(h.blocks), |ptrs|, Malloc(n), ptr, t)
    ensures h.blocks == Step(old(h.blocks), Allocate(n)) && ptr as int == AddressFor(old(h.blocks), h.start, n)
    ensures Accounted(h.start, old(h.blocks), ptrs) ==> Accounted(h.start, h.blocks, ptrs + [ptr])
  {
    hide Laid, Coalesced, Live, PayloadsKept, Carve, Holds, Off;
    ghost var b, m := h.blocks, h.mem[..];
    ghost var i := FirstFit(b, n, 0);
    ptr := h.Kmalloc(n);
    if ptr != 0 {
      TakenNotLive(b, i, n, ptr - h.start);
      assert Live(h.blocks, ptr - h.start, Granted(b[i], n));
    }
    ValidSpan(h);
    t := MallocHolds(m, h.mem[..], h.start, b, h.blocks, ptrs, sizes, s, n, ptr);
    if Accounted(h.start, b, ptrs) { AccountedMore(h.start, b, h.blocks, ptrs, ptr); }
  }

  lemma AccountedMore(start: int, b: seq<Block>, d: seq<Block>, ptrs: seq<U32>, ptr: U32)
    requires Accounted(start, b, ptrs)
    requires forall p, sz: nat :: Live(d, p, sz) ==> Live(b, p, sz) || (ptr != 0 && p == ptr - start)
    ensures Accounted(start, d, ptrs + [ptr])
  {
    hide Live;
    var all := ptrs + [ptr];
    forall p, sz: nat | Live(d, p, sz) ensures Among(start, all, p) {
      if Live(b, p, sz) {
        var k: nat :| k < |ptrs| && ptrs[k] != 0 && ptrs[k] - start == p;
        assert all[k] == ptrs[k];
      } else {
        assert all[|ptrs|] == ptr;
      }
    }
  }

  lemma AccountedLess(start: int, b: seq<Block>, d: seq<Block>, ptrs: seq<U32>, k: nat)
    requires Accounted(start, b, ptrs) && k < |ptrs|
    requires forall p, sz: nat :: Live(d, p, sz) ==> Live(b, p, sz) && (ptrs[k] == 0 || p != ptrs[k] - start)
    ensures Accounted(start, d, ptrs[k := 0])
  {
    hide Live;
    var rest := ptrs[k := 0];
    forall p, sz: nat | Live(d, p, sz) ensures Among(start, rest, p) {
      var l: nat :| l < |ptrs| && ptrs[l] != 0 && ptrs[l] - start == p;
      assert rest[l] == ptrs[l];
    }
  }

  lemma ValidSpan(h: KernelHeap)
    requires h.Valid()
    ensures Span(h.blocks) == |h.mem[..]| && 0 < h.start
  {
  }

  lemma TakenNotLive(b: seq<Block>, i: nat, n: nat, p: int)
    requires i < |b| && Fits(b[i], n) && p == Off(b, i) + 12
    ensures !IsPayload(b, p)
  {
    forall sz: nat ensures !Live(b, p, sz) { FreeNotLive(b, i, p, sz); }
  }

  /** `kfree` of what a request got; the pointer becomes NULL. */
  method ServeFree(h: KernelHeap, k: nat, ptrs: seq<U32>, sizes: seq<U32>, ghost s: Store)
      returns (rest: seq<U32>, ghost ops: seq<Op>)
    requires h.Valid() && Holds(h.mem[..], h.start, h.blocks, ptrs, sizes, s)
    modifies h`blocks, h.mem
    ensures h.Valid() && Holds(h.mem[..], h.start, h.blocks, rest, sizes, s - {k}) && |rest| == |ptrs|
    ensures h.blocks == Run(old(h.blocks), ops) && |ops| <= 1
    ensures forall l :: 0 <= l < |ptrs| ==> rest[l] == ptrs[l] || rest[l] == 0
    ensures if k in s then k < |ptrs| && FreesBlock(old(h.blocks), ptrs[k] - h.start, ops) else ops == []
    ensures Accounted(h.start, old(h.blocks), ptrs) ==> Accounted(h.start, h.blocks, rest)
  {
    hide Laid, Coalesced, Live, PayloadsKept, Holds, Off, Freed, Run, Room, Accounted;
    Members(h.mem[..], h.start, h.blocks, ptrs, sizes, s, k);
    rest, ops := ptrs, [];
    RunNothing(h.blocks);
    if k < |ptrs| {
      ghost var b, m := h.blocks, h.mem[..];
      if ptrs[k] != 0 { HeldIsPayload(m, h.start, b, ptrs, sizes, s, k); }
      h.Kfree(ptrs[k]);
      rest := ptrs[k := 0];
      FreeHolds(m, h.mem[..], h.start, b, h.blocks, ptrs, sizes, s, k);
      if Accounted(h.start, b, ptrs) { AccountedLess(h.start, b, h.blocks, ptrs, k); }
      if ptrs[k] != 0 {
        ghost var i: nat :| i < |b| && ptrs[k] - h.start == Off(b, i) + 12 && h.blocks == Freed(b, i);
        UsedBlock(b, i, ptrs[k] - h.start);
        ops := [Release(i)];
        RunOne(b, Release(i));
      }
    } else {
      NotHeld(h.mem[..], h.start, h.blocks, ptrs, sizes, s, k);
    }
  }

  lemma RunNothing(b: seq<Block>)
    ensures Run(b, []) == b
  {
  }

  lemma RunOne(b: seq<Block>, op: Op)
    ensures Run(b, [op]) == Step(b, op)
  {
    assert [op][1..] == [];
  }

  lemma NotHeld(m: seq<Byte>, start: int, b: seq<Block>, ptrs: seq<U32>, sizes: seq<U32>, s: Store, k: nat)
    requires Holds(m, start, b, ptrs, sizes, s) && k >= |ptrs|
    ensures s - {k} == s && k !in s
  {
  }

  lemma HeldIsPayload(m: seq<Byte>, start: int, b: seq<Block>, ptrs: seq<U32>, sizes: seq<U32>, s: Store, k: nat)
    requires Holds(m, start, b, ptrs, sizes, s) && k < |ptrs| && ptrs[k] != 0
    ensures k in s && |s[k]| == sizes[k] && HeldAt(m, start, b, ptrs[k], s[k]) && IsPayload(b, ptrs[k] - start)
  {
    var sz: nat :| |s[k]| <= sz && Live(b, ptrs[k] - start, sz);
  }

  /** The block of a live payload is in use. */
  lemma UsedBlock(b: seq<Block>, i: nat, p: int)
    requires i < |b| && p == Off(b, i) + 12 && IsPayload(b, p)
    ensures !b[i].free
  {
    var sz: nat :| Live(b, p, sz);
    if b[i].free {
      FreeNotLive(b, i, p, sz);
    }
  }

  /** A byte stored by the owner of a payload, if there is such a payload and the byte is inside it. */
  method ServeFill(h: KernelHeap, k: nat, at: nat, x: Byte, ptrs: seq<U32>, sizes: seq<U32>, ghost s: Store)
      returns (ghost t: Store)
    requires h.Valid() && Holds(h.mem[..], h.start, h.blocks, ptrs, sizes, s)
    modifies h.mem
    ensures h.Valid() && Holds(h.mem[..], h.start, h.blocks, ptrs, sizes, t)
    ensures t == if k in s && at < |s[k]| then s[k := Poke(s[k], at, x)] else s
  {
    hide Laid, Coalesced, Live, Holds, Room;
    t := s;
    Members(h.mem[..], h.start, h.blocks, ptrs, sizes, s, k);
    if k < |ptrs| && ptrs[k] != 0 && at < sizes[k] {
      ghost var m := h.mem[..];
      HeldIsPayload(m, h.start, h.blocks, ptrs, sizes, s, k);
      FillHolds(m, h.start, h.blocks, ptrs, sizes, s, k, at, x);
      FillLaid(m, h.start, h.blocks, ptrs[k] - h.start, |s[k]|, at, x);
      h.mem[ptrs[k] - h.start + at] := x;
      assert h.mem[..] == m[ptrs[k] - h.start + at := x];
      t := s[k := Poke(s[k], at, x)];
    }
  }

  lemma Members(m: seq<Byte>, start: int, b: seq<Block>, ptrs: seq<U32>, sizes: seq<U32>, s: Store, k: nat)
    requires Holds(m, start, b, ptrs, sizes, s)
    ensures |sizes| == |ptrs| && (k in s <==> k < |ptrs| && ptrs[k] != 0) && (k in s ==> |s[k]| == sizes[k])
  {
  }

  // ---------------------------------------------------------------- runs

  /** The operations of all requests, in order. */
  function Concat(steps: seq<seq<Op>>): seq<Op> {
    if steps == [] then [] else Concat(steps[..|steps| - 1]) + steps[|steps| - 1]
  }

  /** The pointers of what is held are the answers. */
  ghost predicate SamePointers(s: Store, ptrs: seq<U32>, answers: seq<U32>) {
    |ptrs| == |answers| && forall k: nat :: k in s && k < |ptrs| ==> answers[k] == ptrs[k]
  }

  /** Request `i` of a run: its effect on the store, its answer, and the operations it stands for. */
  ghost predicate Served(requests: seq<Request>, start: int, answers: seq<U32>, stores: seq<Store>,
                         lists: seq<seq<Block>>, steps: seq<seq<Op>>, i: nat)
    requires i < |answers| == |steps| <= |requests| && |stores| == |lists| == |answers| + 1
  {
    && StoreStep(stores[i], lists[i], i, requests[i], answers[i], stores[i + 1])
    && ListStep(lists[i], start, stores[i], answers[..i], requests[i], answers[i], steps[i])
    && lists[i + 1] == Run(lists[i], steps[i])
  }

  /** Any sequence of allocations, releases and stores by the owners behaves as on a store of independent
      byte blocks: nothing held is ever disturbed by other requests, memory is refused only when no free
      block is large enough, and what is held stands in memory at the addresses answered. Answers and block
      lists follow from the requests. Once everything is released, a heap on which nothing was live at the
      start is a single free block again. */
  method Serve(h: KernelHeap, requests: seq<Request>)
      returns (answers: seq<U32>, ghost stores: seq<Store>, ghost lists: seq<seq<Block>>, ghost steps: seq<seq<Op>>)
    requires h.Valid()
    modifies h`blocks, h.mem
    ensures h.Valid() && h.blocks == Run(old(h.blocks), Concat(steps))
    ensures |answers| == |steps| == |requests| && |stores| == |lists| == |requests| + 1
    ensures stores[0] == map[] && lists[0] == old(h.blocks) && lists[|requests|] == h.blocks
    ensures forall i :: 0 <= i < |requests| ==> Served(requests, h.start, answers, stores, lists, steps, i)
    ensures forall k: nat :: k in stores[|requests|] ==>
                               k < |answers| && HeldAt(h.mem[..], h.start, h.blocks, answers[k], stores[|requests|][k])
    ensures (forall p, sz: nat :: !Live(old(h.blocks), p, sz)) && stores[|requests|] == map[] ==>
              h.blocks == [Block(h.mem.Length - 12, true)]
  {
    hide Laid, Coalesced, Holds, StoreStep, ListStep, Run, Step, Accounted, Live, SamePointers, HeldAt, Served;
    answers, stores, lists, steps := [], [map[]], [h.blocks], [];
    var ptrs, sizes: seq<U32> := [], [];
    NothingHeld(h.mem[..], h.start, h.blocks);
    RunNothing(h.blocks);
    ghost var bare := forall p, sz: nat :: !Live(h.blocks, p, sz);
    if bare { NothingAccounted(h.start, h.blocks); }
    for i := 0 to |requests|
      invariant h.Valid() && h.blocks == Run(old(h.blocks), Concat(steps))
      invariant |answers| == |ptrs| == |steps| == i && |stores| == |lists| == i + 1
      invariant stores[0] == map[] && lists[0] == old(h.blocks) && lists[i] == h.blocks
      invariant Holds(h.mem[..], h.start, h.blocks, ptrs, sizes, stores[i]) && SamePointers(stores[i], ptrs, answers)
      invariant bare ==> Accounted(h.start, h.blocks, ptrs)
      invariant forall j :: 0 <= j < i ==> Served(requests, h.start, answers, stores, lists, steps, j)
    {
      var answer, newPtrs;
      ghost var t, more;
      answer, newPtrs, sizes, t, more := ServeOne(h, requests[i], ptrs, sizes, stores[i]);
      ServedNow(requests, h.start, answers, stores, lists, steps, ptrs, answer, t, h.blocks, more);
      PointersOn(h.mem[..], h.start, h.blocks, newPtrs, sizes, stores[i], t, ptrs, answers, answer);
      RunMore(old(h.blocks), Concat(steps), more);
      assert (steps + [more])[..|steps|] == steps;
      answers, stores, lists, steps := answers + [answer], stores + [t], lists + [h.blocks], steps + [more];
      ptrs := newPtrs;
    }
    HeldAnswers(h.mem[..], h.start, h.blocks, ptrs, sizes, stores[|requests|], answers);
    if bare && stores[|requests|] == map[] {
      AllReleased(h.mem[..], h.start, h.blocks, ptrs, sizes);
      BareHeap(h);
    }
  }

  lemma NothingAccounted(start: int, b: seq<Block>)
    requires forall p, sz: nat :: !Live(b, p, sz)
    ensures Accounted(start, b, [])
  {
  }

  /** One more request served: the earlier ones are as they were. */
  lemma ServedNow(requests: seq<Request>, start: int, answers: seq<U32>, stores: seq<Store>, lists: seq<seq<Block>>,
                  steps: seq<seq<Op>>, ptrs: seq<U32>, answer: U32, t: Store, d: seq<Block>, more: seq<Op>)
    requires |answers| == |steps| < |requests| && |stores| == |lists| == |answers| + 1
    requires forall j :: 0 <= j < |answers| ==> Served(requests, start, answers, stores, lists, steps, j)
    requires var i := |answers|;
             && StoreStep(stores[i], lists[i], i, requests[i], answer, t)
             && ListStep(lists[i], start, stores[i], ptrs, requests[i], answer, more) && d == Run(lists[i], more)
             && SamePointers(stores[i], ptrs, answers)
    ensures forall j :: 0 <= j <= |answers| ==>
                          Served(requests, start, answers + [answer], stores + [t], lists + [d], steps + [more], j)
  {
    hide StoreStep, Run, FreesBlock;
    var i := |answers|;
    forall j | 0 <= j <= i
      ensures Served(requests, start, answers + [answer], stores + [t], lists + [d], steps + [more], j)
    {
      assert (answers + [answer])[..j] == answers[..j];
      if j < i {
        assert Served(requests, start, answers, stores, lists, steps, j);
      } else {
        assert answers[..i] == answers;
      }
    }
  }

  lemma PointersOn(m: seq<Byte>, start: int, b: seq<Block>, newPtrs: seq<U32>, sizes: seq<U32>, s: Store, t: Store,
                   ptrs: seq<U32>, answers: seq<U32>, answer: U32)
    requires Holds(m, start, b, newPtrs, sizes, t) && SamePointers(s, ptrs, answers) && |newPtrs| == |ptrs| + 1
    requires newPtrs[|ptrs|] == answer && forall l :: 0 <= l < |ptrs| ==> newPtrs[l] == ptrs[l] || newPtrs[l] == 0
    requires forall k: nat :: k in t && k < |ptrs| ==> k in s
    ensures SamePointers(t, newPtrs, answers + [answer])
  {
    hide HeldAt;
  }

  lemma HeldAnswers(m: seq<Byte>, start: int, b: seq<Block>, ptrs: seq<U32>, sizes: seq<U32>, s: Store,
                    answers: seq<U32>)
    requires Holds(m, start, b, ptrs, sizes, s) && SamePointers(s, ptrs, answers)
    ensures forall k: nat :: k in s ==> k < |answers| && HeldAt(m, start, b, answers[k], s[k])
  {
    hide HeldAt;
  }

  /** With nothing held nothing is live. */
  lemma AllReleased(m: seq<Byte>, start: int, b: seq<Block>, ptrs: seq<U32>, sizes: seq<U32>)
    requires Holds(m, start, b, ptrs, sizes, map[]) && Accounted(start, b, ptrs)
    ensures forall p, sz: nat :: !Live(b, p, sz)
  {
    hide Live, HeldAt;
    assert forall k: nat :: k < |ptrs| ==> ptrs[k] == 0;
    forall p, sz: nat ensures !Live(b, p, sz) {
      assert !Among(start, ptrs, p);
    }
  }

  lemma BareHeap(h: KernelHeap)
    requires h.Valid() && forall p, sz: nat :: !Live(h.blocks, p, sz)
    ensures h.blocks == [Block(h.mem.Length - 12, true)]
  {
    hide Live;
    NothingLive(h.blocks);
  }

  /** One request; each one, of whatever kind, has its own number. */
  method ServeOne(h: KernelHeap, r: Request, ptrs: seq<U32>, sizes: seq<U32>, ghost s: Store)
      returns (answer: U32, newPtrs: seq<U32>, newSizes: seq<U32>, ghost t: Store, ghost ops: seq<Op>)
    requires h.Valid() && Holds(h.mem[..], h.start, h.blocks, ptrs, sizes, s)
    modifies h`blocks, h.mem
    ensures h.Valid() && Holds(h.mem[..], h.start, h.blocks, newPtrs, newSizes, t) && |newPtrs| == |ptrs| + 1
    ensures StoreStep(s, old(h.blocks), |ptrs|, r, answer, t)
    ensures h.blocks == Run(old(h.blocks), ops) && |ops| <= 1
    ensures ListStep(old(h.blocks), h.start, s, ptrs, r, answer, ops)
    ensures newPtrs[|ptrs|] == answer && forall l :: 0 <= l < |ptrs| ==> newPtrs[l] == ptrs[l] || newPtrs[l] == 0
    ensures forall k: nat :: k in t && k < |ptrs| ==> k in s
    ensures Accounted(h.start, old(h.blocks), ptrs) ==> Accounted(h.start, h.blocks, newPtrs)
  {
    hide Laid, Coalesced, Holds, Run, Step, Live, Fits, Accounted, FreesBlock, AddressFor;
    answer := 0;
    match r {
      case Malloc(n) =>
        answer, t := ServeMalloc(h, n, ptrs, sizes, s);
        ops := [Allocate(n)];
        RunOne(old(h.blocks), Allocate(n));
        newPtrs, newSizes := ptrs + [answer], sizes + [n];
      case Free(k) =>
        newPtrs, ops := ServeFree(h, k, ptrs, sizes, s);
        t := s - {k};
        NullUnheld(h.mem[..], h.start, h.blocks, newPtrs, sizes, t, 0);
        NullAccounted(h.start, h.blocks, newPtrs);
        newPtrs, newSizes := newPtrs + [0], sizes + [0];
      case Fill(k, at, x) =>
        t := ServeFill(h, k, at, x, ptrs, sizes, s);
        ops := [];
        RunNothing(h.blocks);
        NullUnheld(h.mem[..], h.start, h.blocks, ptrs, sizes, t, 0);
        NullAccounted(h.start, h.blocks, ptrs);
        newPtrs, newSizes := ptrs + [0], sizes + [0];
    }
  }

  lemma NullAccounted(start: int, b: seq<Block>, ptrs: seq<U32>)
    ensures Accounted(start, b, ptrs) ==> Accounted(start, b, ptrs + [0])
  {
    if Accounted(start, b, ptrs) {
      AccountedMore(start, b, b, ptrs, 0);
    }
  }

  lemma NothingHeld(m: seq<Byte>, start: int, b: seq<Block>)
    ensures Holds(m, start, b, [], [], map[]) && SamePointers(map[], [], [])
  {
  }

  lemma RunMore(b: seq<Block>, ops: seq<Op>, more: seq<Op>)
    requires |more| <= 1
    ensures Run(b, ops + more) == Run(Run(b, ops), more)
  {
    if more == [] {
      assert ops + more == ops;
      RunNothing(Run(b, ops));
    } else {
      assert more == [more[0]];
      RunAppend(b, ops, more[0]);
      RunOne(Run(b, ops), more[0]);
    }
  }
}
