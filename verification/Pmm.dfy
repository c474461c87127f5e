/** The physical frame allocator: one bit per 4 KB frame, first free frame first. */
module Pmm {
  import opened Bytes

  const MAX_FRAMES: nat := 0x10_0000   // 4 GB in frames

  /** `OFFSET_FROM_BIT(b)` as a shift count, by way of five bits. */
  function Five(k: nat): (p: bv5)
    requires k < 32
    ensures p as nat == k
  {
    k as bv5
  }

  function Pos(k: nat): (p: bv32)
    requires k < 32
    ensures p < 32
  {
    Five(k) as bv32
  }

  lemma PosInjective(k: nat, j: nat)
    requires k < 32 && j < 32
    ensures Pos(k) == Pos(j) <==> k == j
  {
    hide Five;
  }

  predicate Test(w: bv32, p: bv32)
    requires p < 32
  {
    w & (1 << p) != 0
  }

  function With(w: bv32, p: bv32): bv32
    requires p < 32
  {
    w | (1 << p)
  }

  function Without(w: bv32, p: bv32): bv32
    requires p < 32
  {
    w & !(1 << p)
  }

  lemma TestSet(w: bv32, p: bv32, q: bv32)
    requires p < 32 && q < 32
    ensures Test(w | (1 << p), q) <==> q == p || Test(w, q)
  {
  }

  lemma TestCleared(w: bv32, p: bv32, q: bv32)
    requires p < 32 && q < 32
    ensures Test(w & !(1 << p), q) <==> q != p && Test(w, q)
  {
  }

  lemma TestWith(w: bv32, p: bv32, q: bv32)
    requires p < 32 && q < 32
    ensures Test(With(w, p), q) <==> q == p || Test(w, q)
  {
    TestSet(w, p, q);
    hide Test;
  }

  lemma TestWithout(w: bv32, p: bv32, q: bv32)
    requires p < 32 && q < 32
    ensures Test(Without(w, p), q) <==> q != p && Test(w, q)
  {
    TestCleared(w, p, q);
    hide Test;
  }

  predicate Bit(w: bv32, k: nat)
    requires k < 32
  {
    Test(w, Pos(k))
  }

  /** Setting and clearing one bit of a word leaves the others as they are. */
  lemma BitChanged(w: bv32, k: nat, j: nat)
    requires k < 32 && j < 32
    ensures Bit(With(w, Pos(k)), j) <==> j == k || Bit(w, j)
    ensures Bit(Without(w, Pos(k)), j) <==> j != k && Bit(w, j)
  {
    hide Test, With, Without, Pos;
    PosInjective(k, j);
    TestWith(w, Pos(k), Pos(j));
    TestWithout(w, Pos(k), Pos(j));
  }

  /** The frames a bitmap marks as used. */
  function Marks(bitmap: seq<bv32>, total: nat): (r: seq<bool>)
    requires total <= 32 * |bitmap|
    ensures |r| == total
  {
    seq(total, i requires 0 <= i < total => Bit(bitmap[i / 32], i % 32))
  }

  /** Changing one bit changes one mark. */
  lemma MarksAfter(b: seq<bv32>, total: nat, i: nat, w: bv32, used: bool)
    requires i < total <= 32 * |b|
    requires forall j: nat :: j < 32 ==> (Bit(w, j) <==> if j == i % 32 then used else Bit(b[i / 32], j))
    ensures Marks(b[i / 32 := w], total) == Marks(b, total)[i := used]
  {
    var c := b[i / 32 := w];
    forall k | 0 <= k < total ensures Marks(c, total)[k] == Marks(b, total)[i := used][k] {
      assert k == 32 * (k / 32) + k % 32 && i == 32 * (i / 32) + i % 32;
    }
  }

  /** Free frames from `i` on. */
  function FreeFrom(m: seq<bool>, i: nat): nat
    decreases |m| - i
  {
    if i >= |m| then 0 else (if m[i] then 0 else 1) + FreeFrom(m, i + 1)
  }

  lemma {:induction false} FreeFromUpdate(m: seq<bool>, i: nat, c: nat, used: bool)
    requires c < |m|
    ensures FreeFrom(m[c := used], i) ==
            FreeFrom(m, i) + if c < i then 0 else (if used then 0 else 1) - (if m[c] then 0 else 1)
    decreases |m| - i
  {
    if i < |m| {
      FreeFromUpdate(m, i + 1, c, used);
    }
  }

  /** The number of the first frame not marked, |m| if all are. */
  function FirstFree(m: seq<bool>, i: nat): (k: nat)
    requires i <= |m|
    ensures i <= k <= |m| && (k < |m| ==> !m[k])
    ensures forall j :: i <= j < k ==> m[j]
    decreases |m| - i
  {
    if i == |m| || !m[i] then i else FirstFree(m, i + 1)
  }

  // ---------------------------------------------------------------- runs of allocations and frees

  datatype FrameOp = Take | Give(frame: nat)

  function Apply(m: seq<bool>, op: FrameOp): (r: seq<bool>)
    ensures |r| == |m|
  {
    match op
    case Take => var k := FirstFree(m, 0); if k < |m| then m[k := true] else m
    case Give(i) => if i < |m| then m[i := false] else m
  }

  function Run(m: seq<bool>, ops: seq<FrameOp>): (r: seq<bool>)
    ensures |r| == |m|
    decreases |ops|
  {
    if ops == [] then m else Run(Apply(m, ops[0]), ops[1..])
  }

  /** A frame once handed out is not handed out again before it has been given back. */
  lemma {:induction false} NotTwice(m: seq<bool>, ops: seq<FrameOp>)
    requires FirstFree(m, 0) < |m| && Give(FirstFree(m, 0)) !in ops
    ensures FirstFree(Run(Apply(m, Take), ops), 0) != FirstFree(m, 0)
  {
    StaysUsed(Apply(m, Take), ops, FirstFree(m, 0));
  }

  lemma {:induction false} StaysUsed(m: seq<bool>, ops: seq<FrameOp>, i: nat)
    requires i < |m| && m[i] && Give(i) !in ops
    ensures Run(m, ops)[i]
    decreases |ops|
  {
    if ops != [] {
      assert ops[0] in ops;
      StaysUsed(Apply(m, ops[0]), ops[1..], i);
    }
  }

  class FrameAllocator {
    const bitmap: array<bv32>
    const total: U32
    var usedFrames: U32

    ghost predicate Valid()
      reads this
      ensures Valid() ==> total <= MAX_FRAMES && total <= 32 * bitmap.Length
    {
      total <= MAX_FRAMES && total <= 32 * bitmap.Length
    }

    ghost function Used(): (m: seq<bool>)
      requires Valid()
      reads this, bitmap
      ensures |m| == total
    {
      Marks(bitmap[..], total)
    }

    /** Used and free frames together: a correct counter keeps this constant. */
    ghost function Account(): int
      requires Valid()
      reads this, bitmap
    {
      (usedFrames + FreeFrom(Used(), 0)) % 0x1_0000_0000
    }

    constructor (b: array<bv32>, n: U32)
      requires n <= MAX_FRAMES && n <= 32 * b.Length
      ensures Valid() && bitmap == b && total == n && usedFrames == 0
    {
      bitmap, total, usedFrames := b, n, 0;
    }

    method TestBit(i: U32) returns (used: bool)
      requires Valid() && i < total
      ensures used == Used()[i]
    {
      hide Bit;
      used := Bit(bitmap[i / 32], i % 32);
    }

    /** `pmm_alloc_frame`: false when no frame is free, where the kernel halts for good. */
    method AllocFrame() returns (ok: bool, addr: U32)
      requires Valid()
      modifies `usedFrames, bitmap
      ensures Valid() && ok == (FirstFree(old(Used()), 0) < total)
      ensures ok ==> addr == FirstFree(old(Used()), 0) * 0x1000
                     && Used() == old(Used())[FirstFree(old(Used()), 0) := true]
      ensures ok ==> usedFrames == (old(usedFrames) + 1) % 0x1_0000_0000
      ensures !ok ==> Used() == old(Used()) && usedFrames == old(usedFrames)
      ensures Account() == old(Account())
    {
      hide Marks;
      addr := 0;
      var i: U32 := 0;
      while i < total
        invariant i <= total && FirstFree(Used(), i) == FirstFree(Used(), 0)
        invariant Used() == old(Used()) && usedFrames == old(usedFrames)
      {
        var used := TestBit(i);
        if !used {
          TakeFrame(i);
          return true, i * 0x1000;
        }
        i := i + 1;
      }
      ok := false;
    }

    method TakeFrame(i: U32)
      requires Valid() && i < total && !Used()[i]
      modifies `usedFrames, bitmap
      ensures Used() == old(Used())[i := true]
      ensures usedFrames == (old(usedFrames) + 1) % 0x1_0000_0000
      ensures Account() == old(Account())
    {
      FreeFromUpdate(Used(), 0, i, true);
      MarkUsed(i);
      usedFrames := (usedFrames + 1) % 0x1_0000_0000;
    }

    method MarkUsed(i: U32)
      requires Valid() && i < total
      modifies bitmap
      ensures Used() == old(Used())[i := true]
    {
      hide With, Without, Bit, Pos;
      ghost var b := bitmap[..];
      var w := With(bitmap[i / 32], Pos(i % 32));
      forall j: nat | j < 32 ensures Bit(w, j) <==> if j == i % 32 then true else Bit(b[i / 32], j) {
        BitChanged(b[i / 32], i % 32, j);
      }
      MarksAfter(b, total, i, w, true);
      bitmap[i / 32] := w;
      assert bitmap[..] == b[i / 32 := w];
    }

    /** `pmm_free_frame`: false for a frame number out of range, where the kernel halts for good. */
    method FreeFrame(addr: U32) returns (ok: bool)
      requires Valid()
      modifies `usedFrames, bitmap
      ensures Valid() && ok == (addr / 0x1000 < total)
      ensures ok ==> Used() == old(Used())[addr / 0x1000 := false]
                     && usedFrames == (old(usedFrames) - 1) % 0x1_0000_0000
      ensures !ok ==> Used() == old(Used()) && usedFrames == old(usedFrames)
      // the counter stays right exactly when the frame was in use
      ensures ok ==> (Account() == old(Account()) <==> old(Used())[addr / 0x1000])
    {
      var frame: U32 := addr / 0x1000;
      if frame >= total { return false; }
      FreeFromUpdate(Used(), 0, frame, false);
      OneLess(usedFrames, FreeFrom(Used(), 0), Used()[frame]);
      MarkFree(frame);
      usedFrames := (usedFrames - 1) % 0x1_0000_0000;
      ok := true;
    }

    method MarkFree(i: U32)
      requires Valid() && i < total
      modifies bitmap
      ensures Used() == old(Used())[i := false]
    {
      hide With, Without, Bit, Pos;
      ghost var b := bitmap[..];
      var w := Without(bitmap[i / 32], Pos(i % 32));
      forall j: nat | j < 32 ensures Bit(w, j) <==> if j == i % 32 then false else Bit(b[i / 32], j) {
        BitChanged(b[i / 32], i % 32, j);
      }
      MarksAfter(b, total, i, w, false);
      bitmap[i / 32] := w;
      assert bitmap[..] == b[i / 32 := w];
    }
  }

  lemma OneLess(u: U32, f: nat, used: bool)
    ensures ((u - 1) % 0x1_0000_0000 + (f + if used then 1 else 0)) % 0x1_0000_0000 == (u + f) % 0x1_0000_0000 <==> used
  {
    if u == 0 {
      assert (u - 1) % 0x1_0000_0000 == u - 1 + 0x1_0000_0000;
    }
    var a, b := u + f - 1, u + f;
    assert (0x1_0000_0000 + a) % 0x1_0000_0000 == a % 0x1_0000_0000;
    assert a % 0x1_0000_0000 != b % 0x1_0000_0000;
  }
}
