/** The kernel heap: first-fit allocation with splitting, and freeing with a coalescing pass, over
    block headers that live in the memory they describe. */
module Heap {
  import opened Bytes

  // ---------------------------------------------------------------- block lists

  /** A block: payload bytes and state. Every block is preceded by a 12-byte header. */
  datatype Block = Block(size: nat, free: bool)

  /** Offset of the header of block `i`; for i == |b| the end of the heap. */
  function Off(b: seq<Block>, i: nat): (o: nat)
    requires i <= |b|
    decreases i
  {
    if i == 0 then 0 else Off(b, i - 1) + 12 + b[i - 1].size
  }

  function Span(b: seq<Block>): nat { Off(b, |b|) }

  lemma {:induction false} OffMonotone(b: seq<Block>, i: nat, j: nat)
    requires i < j <= |b|
    ensures Off(b, i) + 12 + b[i].size <= Off(b, j)
    decreases j
  {
    if i < j - 1 {
      OffMonotone(b, i, j - 1);
    }
  }

  /** Offsets in a concatenation. */
  lemma {:induction false} OffAppend(x: seq<Block>, y: seq<Block>, i: nat)
    requires i <= |x| + |y|
    ensures Off(x + y, i) == if i <= |x| then Off(x, i) else Span(x) + Off(y, i - |x|)
    decreases i
  {
    if i > 0 {
      OffAppend(x, y, i - 1);
    }
  }

  /** Block `i` is allocated, with payload [p, p + sz). */
  predicate LiveAt(b: seq<Block>, i: nat, p: int, sz: nat) {
    i < |b| && !b[i].free && p == Off(b, i) + 12 && sz == b[i].size
  }

  ghost predicate Live(b: seq<Block>, p: int, sz: nat) {
    exists i: nat :: LiveAt(b, i, p, sz)
  }

  ghost predicate IsPayload(b: seq<Block>, p: int) {
    exists sz: nat :: Live(b, p, sz)
  }

  lemma LiveAppend(x: seq<Block>, y: seq<Block>, p: int, sz: nat)
    ensures Live(x + y, p, sz) <==> Live(x, p, sz) || Live(y, p - Span(x), sz)
  {
    forall i: nat | LiveAt(x + y, i, p, sz)
      ensures Live(x, p, sz) || Live(y, p - Span(x), sz)
    {
      OffAppend(x, y, i);
      assert if i < |x| then LiveAt(x, i, p, sz) else LiveAt(y, i - |x|, p - Span(x), sz);
    }
    forall i: nat | LiveAt(x, i, p, sz) ensures Live(x + y, p, sz) {
      OffAppend(x, y, i);
      assert LiveAt(x + y, i, p, sz);
    }
    var q := p - Span(x);
    forall i: nat | LiveAt(y, i, q, sz) ensures Live(x + y, p, sz) {
      OffAppend(x, y, |x| + i);
      assert LiveAt(x + y, |x| + i, p, sz);
    }
  }

  lemma LiveOne(h: Block, p: int, sz: nat)
    ensures Live([h], p, sz) <==> !h.free && p == 12 && sz == h.size
    ensures Span([h]) == 12 + h.size
  {
    assert Off([h], 1) == Off([h], 0) + 12 + h.size;
    if !h.free && p == 12 && sz == h.size {
      assert LiveAt([h], 0, p, sz);
    }
  }

  lemma LiveTwo(h: Block, k: Block, p: int, sz: nat)
    ensures Live([h, k], p, sz) <==> (!h.free && p == 12 && sz == h.size)
                                     || (!k.free && p == 24 + h.size && sz == k.size)
    ensures Span([h, k]) == 24 + h.size + k.size
  {
    assert [h, k] == [h] + [k];
    LiveAppend([h], [k], p, sz);
    LiveOne(h, p, sz);
    LiveOne(k, p - Span([h]), sz);
    OffAppend([h], [k], 2);
  }

  /** Live payloads are pairwise disjoint, headers included. */
  lemma LiveDisjoint(b: seq<Block>, i: nat, p: int, n: nat, j: nat, q: int, m: nat)
    requires LiveAt(b, i, p, n) && LiveAt(b, j, q, m) && i != j
    ensures p + n + 12 <= q || q + m + 12 <= p
  {
    if i < j {
      OffMonotone(b, i, j);
    } else {
      OffMonotone(b, j, i);
    }
  }

  /** No two neighbouring blocks are both free. */
  predicate Coalesced(b: seq<Block>) {
    forall i :: 0 <= i < |b| - 1 ==> !(b[i].free && b[i + 1].free)
  }

  lemma CoalescedAt(b: seq<Block>, i: nat)
    requires Coalesced(b) && i + 1 < |b|
    ensures !(b[i].free && b[i + 1].free)
  {
  }

  lemma UsedIsLive(b: seq<Block>, i: nat)
    requires i < |b| && !b[i].free
    ensures Live(b, Off(b, i) + 12, b[i].size)
  {
    assert LiveAt(b, i, Off(b, i) + 12, b[i].size);
  }

  /** When nothing is live, a coalesced heap is its initial single block. */
  lemma NothingLive(b: seq<Block>)
    requires |b| > 0 && Coalesced(b) && forall p, sz: nat :: !Live(b, p, sz)
    ensures b == [Block(Span(b) - 12, true)]
  {
    forall i | 0 <= i < |b| ensures b[i].free {
      if !b[i].free {
        UsedIsLive(b, i);
      }
    }
    if |b| > 1 {
      CoalescedAt(b, 0);
    }
    assert Off(b, 1) == Off(b, 0) + 12 + b[0].size;
  }

  // ---------------------------------------------------------------- allocation

  predicate Fits(h: Block, n: nat) {
    h.free && h.size >= n
  }

  /** The first block that fits, at or after `i`; |b| if there is none. */
  function FirstFit(b: seq<Block>, n: nat, i: nat): (k: nat)
    requires i <= |b|
    ensures i <= k <= |b| && (k < |b| ==> Fits(b[k], n))
    ensures forall j :: i <= j < k ==> !Fits(b[j], n)
    decreases |b| - i
  {
    if i == |b| || Fits(b[i], n) then i else FirstFit(b, n, i + 1)
  }

  /** What becomes of the chosen block: cut in two when the rest can hold a header and a byte more. */
  function Pieces(h: Block, n: nat): (r: seq<Block>)
    requires h.size >= n
  {
    if h.size > n + 12 then [Block(n, false), Block(h.size - n - 12, true)] else [Block(h.size, false)]
  }

  function Carve(b: seq<Block>, i: nat, n: nat): seq<Block>
    requires i < |b| && Fits(b[i], n)
  {
    b[..i] + Pieces(b[i], n) + b[i + 1..]
  }

  /** Block `i` of `b`, the first free one of `n` bytes or more, is in use in `d`: cut to `n` bytes when a header and
      at least one byte more remain for a free block behind it, otherwise whole. */
  ghost predicate FirstCut(b: seq<Block>, d: seq<Block>, i: nat, n: nat) {
    && i < |b| && b[i].free && n <= b[i].size && (forall j :: 0 <= j < i ==> !(b[j].free && n <= b[j].size))
    && d == b[..i] + (if b[i].size >= n + 12 + 1 then [Block(n, false), Block(b[i].size - n - 12, true)]
                      else [Block(b[i].size, false)]) + b[i + 1..]
  }

  lemma CarveIsCut(b: seq<Block>, n: nat)
    requires FirstFit(b, n, 0) < |b|
    ensures var i := FirstFit(b, n, 0); FirstCut(b, Carve(b, i, n), i, n) && Off(Carve(b, i, n), i) == Off(b, i)
  {
    hide Off;
    var i := FirstFit(b, n, 0);
    OffHead(b, i, Pieces(b[i], n) + b[i + 1..]);
    assert b[..i] + Pieces(b[i], n) + b[i + 1..] == b[..i] + (Pieces(b[i], n) + b[i + 1..]);
  }

  /** The offset of a block depends on those before it only. */
  lemma OffHead(b: seq<Block>, i: nat, y: seq<Block>)
    requires i <= |b|
    ensures Off(b[..i] + y, i) == Off(b, i)
  {
    OffAppend(b[..i], y, i);
    OffAppend(b[..i], b[i..], i);
    assert b[..i] + b[i..] == b;
  }

  /** The bytes granted: those asked for, or the whole block when the rest is too small to cut off. */
  function Granted(h: Block, n: nat): (sz: nat)
    requires h.size >= n
    ensures n <= sz <= n + 12
  {
    if h.size > n + 12 then n else h.size
  }

  lemma PiecesLive(h: Block, n: nat, p: int, sz: nat)
    requires Fits(h, n)
    ensures Live(Pieces(h, n), p, sz) <==> p == 12 && sz == Granted(h, n)
    ensures Span(Pieces(h, n)) == 12 + h.size
  {
    if h.size > n + 12 {
      LiveTwo(Block(n, false), Block(h.size - n - 12, true), p, sz);
    } else {
      LiveOne(Block(h.size, false), p, sz);
    }
  }

  /** Taking the list apart around block `i`. */
  lemma Around(b: seq<Block>, i: nat, p: int, sz: nat)
    requires i < |b|
    ensures b == b[..i] + [b[i]] + b[i + 1..]
    ensures Span(b[..i]) == Off(b, i)
    ensures Live(b, p, sz) <==> Live(b[..i], p, sz) || Live([b[i]], p - Off(b, i), sz)
                                || Live(b[i + 1..], p - Off(b, i) - 12 - b[i].size, sz)
  {
    hide Live, LiveAt, Off;
    Parts(b, i);
    PrefixSpan(b, i);
    AroundLive(b[..i], b[i], b[i + 1..], p, sz);
  }

  lemma Parts(b: seq<Block>, i: nat)
    requires i < |b|
    ensures b == b[..i] + [b[i]] + b[i + 1..]
  {
  }

  lemma PrefixSpan(b: seq<Block>, i: nat)
    requires i <= |b|
    ensures Span(b[..i]) == Off(b, i)
  {
    assert b == b[..i] + b[i..];
    OffAppend(b[..i], b[i..], i);
  }

  lemma AroundLive(x: seq<Block>, h: Block, y: seq<Block>, p: int, sz: nat)
    ensures Live(x + [h] + y, p, sz) <==> Live(x, p, sz) || Live([h], p - Span(x), sz)
                                          || Live(y, p - Span(x) - 12 - h.size, sz)
  {
    hide Live, LiveAt, Off;
    LiveAppend(x + [h], y, p, sz);
    LiveAppend(x, [h], p, sz);
    SpanAppend(x, [h]);
    LiveOne(h, p, sz);
  }

  /** Allocation adds exactly one live payload, keeps all others, and keeps the heap tiled and coalesced. */
  lemma CarveLive(b: seq<Block>, i: nat, n: nat, p: int, sz: nat)
    requires i < |b| && Fits(b[i], n)
    ensures Live(Carve(b, i, n), p, sz) <==>
            Live(b, p, sz) || (p == Off(b, i) + 12 && sz == Granted(b[i], n))
    ensures Span(Carve(b, i, n)) == Span(b)
  {
    hide Live, LiveAt, Off, Pieces;
    var x, h, y := b[..i], b[i], b[i + 1..];
    var mid := Pieces(h, n);
    Around(b, i, p, sz);
    LiveOne(h, p - Off(b, i), sz);
    PiecesLive(h, n, p - Off(b, i), sz);
    LiveAppend(x + mid, y, p, sz);
    LiveAppend(x, mid, p, sz);
    SpanAppend(x + mid, y);
    SpanAppend(x, mid);
    SpanAppend(x + [h], y);
    SpanAppend(x, [h]);
  }

  lemma SpanAppend(x: seq<Block>, y: seq<Block>)
    ensures Span(x + y) == Span(x) + Span(y)
  {
    OffAppend(x, y, |x| + |y|);
  }

  lemma CarveCoalesced(b: seq<Block>, i: nat, n: nat)
    requires i < |b| && Fits(b[i], n) && Coalesced(b)
    ensures Coalesced(Carve(b, i, n))
  {
    var c, w := Carve(b, i, n), |Pieces(b[i], n)|;
    forall k | 0 <= k < |c| - 1 ensures !(c[k].free && c[k + 1].free) {
      if k + 1 < i {
        assert c[k] == b[k] && c[k + 1] == b[k + 1];
      } else if k >= i + w {
        assert c[k] == b[k - w + 1] && c[k + 1] == b[k - w + 1 + 1];
      } else if k == i + w - 1 && w == 2 {
        assert c[k + 1] == b[i + 1];
      }
    }
  }

  /** The effect of an allocation on the heap: `o` is the offset of the chosen header. */
  lemma CarveAll(b: seq<Block>, i: nat, n: nat, o: nat)
    requires i < |b| && Fits(b[i], n) && Coalesced(b) && o == Off(b, i)
    ensures Coalesced(Carve(b, i, n)) && Span(Carve(b, i, n)) == Span(b)
    ensures forall p, sz: nat :: Live(Carve(b, i, n), p, sz) <==>
                                   Live(b, p, sz) || (p == o + 12 && sz == Granted(b[i], n))
  {
    CarveCoalesced(b, i, n);
    CarveLive(b, i, n, 0, 0);
    hide Live, Carve, Coalesced, Off;
    forall p, sz: nat
      ensures Live(Carve(b, i, n), p, sz) <==> Live(b, p, sz) || (p == o + 12 && sz == Granted(b[i], n))
    {
      CarveLive(b, i, n, p, sz);
    }
  }

  // ---------------------------------------------------------------- freeing

  /** The coalescing pass: merges a free block with its free successor as long as there is one. */
  function Coalesce(b: seq<Block>): (r: seq<Block>)
    ensures b == [] <==> r == []
    decreases |b|
  {
    if |b| < 2 then b
    else if b[0].free && b[1].free then Coalesce([Merge(b[0], b[1])] + b[2..])
    else [b[0]] + Coalesce(b[1..])
  }

  function Merge(h: Block, k: Block): Block {
    Block(h.size + 12 + k.size, true)
  }

  lemma {:induction false} CoalesceHead(b: seq<Block>)
    requires b != []
    ensures Coalesce(b)[0].free == b[0].free
    decreases |b|
  {
    if |b| >= 2 && b[0].free && b[1].free {
      CoalesceHead([Merge(b[0], b[1])] + b[2..]);
    }
  }

  lemma {:induction false} CoalesceCoalesced(b: seq<Block>)
    ensures Coalesced(Coalesce(b))
    decreases |b|
  {
    if |b| >= 2 {
      if b[0].free && b[1].free {
        CoalesceCoalesced([Merge(b[0], b[1])] + b[2..]);
      } else {
        var r := Coalesce(b[1..]);
        CoalesceCoalesced(b[1..]);
        CoalesceHead(b[1..]);
        forall i | 0 <= i < |r| ensures !(([b[0]] + r)[i].free && i < |r| && ([b[0]] + r)[i + 1].free) {
          if i > 0 {
            assert !(r[i - 1].free && r[i - 1 + 1].free);
          }
        }
      }
    }
  }

  /** The pass changes no live payload and keeps the tiling. */
  lemma {:induction false} CoalesceLive(b: seq<Block>, p: int, sz: nat)
    ensures Live(Coalesce(b), p, sz) <==> Live(b, p, sz)
    ensures Span(Coalesce(b)) == Span(b)
    decreases |b|
  {
    if |b| >= 2 {
      var h, k, y := b[0], b[1], b[2..];
      if h.free && k.free {
        CoalesceLive([Merge(h, k)] + y, p, sz);
        MergeLive([], h, k, y, p, sz);
        assert [] + [h, k] + y == b && [] + [Merge(h, k)] + y == [Merge(h, k)] + y;
      } else {
        CoalesceLive(b[1..], p - 12 - h.size, sz);
        LiveAppend([h], Coalesce(b[1..]), p, sz);
        LiveAppend([h], b[1..], p, sz);
        SpanAppend([h], Coalesce(b[1..]));
        SpanAppend([h], b[1..]);
        LiveOne(h, p, sz);
        assert b == [h] + b[1..];
      }
    }
  }

  lemma MergeLive(x: seq<Block>, h: Block, k: Block, y: seq<Block>, p: int, sz: nat)
    requires h.free && k.free
    ensures Live(x + [Merge(h, k)] + y, p, sz) <==> Live(x + [h, k] + y, p, sz)
    ensures Span(x + [Merge(h, k)] + y) == Span(x + [h, k] + y)
  {
    var m := Merge(h, k);
    LiveAppend(x + [m], y, p, sz);
    LiveAppend(x + [h, k], y, p, sz);
    LiveAppend(x, [m], p, sz);
    LiveAppend(x, [h, k], p, sz);
    LiveOne(m, p - Span(x), sz);
    LiveTwo(h, k, p - Span(x), sz);
    SpanAppend(x + [m], y);
    SpanAppend(x + [h, k], y);
    SpanAppend(x, [m]);
    SpanAppend(x, [h, k]);
  }

  /** A coalesced list is left alone. */
  lemma {:induction false} CoalesceIdle(b: seq<Block>)
    requires Coalesced(b)
    ensures Coalesce(b) == b
    decreases |b|
  {
    if |b| >= 2 {
      assert !(b[0].free && b[0 + 1].free);
      var t := b[1..];
      forall i | 0 <= i < |t| - 1 ensures !(t[i].free && t[i + 1].free) {
        assert !(b[i + 1].free && b[i + 1 + 1].free);
      }
      CoalesceIdle(t);
    }
  }

  /** The block list after freeing block `i`. */
  function Freed(b: seq<Block>, i: nat): seq<Block>
    requires i < |b|
  {
    Coalesce(b[i := Block(b[i].size, true)])
  }

  /** Freeing takes exactly one payload off the live ones. */
  lemma FreedLive(b: seq<Block>, i: nat, p: int, sz: nat)
    requires i < |b|
    ensures Live(Freed(b, i), p, sz) <==> Live(b, p, sz) && !LiveAt(b, i, p, sz)
    ensures Span(Freed(b, i)) == Span(b)
    ensures Coalesced(Freed(b, i))
  {
    var c := b[i := Block(b[i].size, true)];
    CoalesceLive(c, p, sz);
    CoalesceCoalesced(c);
    SetFreeOff(b, i, |b|);
    forall j: nat ensures LiveAt(c, j, p, sz) <==> LiveAt(b, j, p, sz) && j != i {
      if j < |b| {
        SetFreeOff(b, i, j);
      }
    }
    forall j: nat | LiveAt(b, j, p, sz) && LiveAt(b, i, p, sz) ensures j == i {
      if j != i {
        LiveDisjoint(b, i, p, sz, j, p, sz);
      }
    }
  }

  lemma {:induction false} SetFreeOff(b: seq<Block>, i: nat, j: nat)
    requires i < |b| && j <= |b|
    ensures Off(b[i := Block(b[i].size, true)], j) == Off(b, j)
    decreases j
  {
    if j > 0 {
      SetFreeOff(b, i, j - 1);
    }
  }

  /** Allocating and freeing at once restores the exact block list. */
  lemma CarveThenFree(b: seq<Block>, i: nat, n: nat)
    requires i < |b| && Fits(b[i], n) && Coalesced(b)
    ensures Freed(Carve(b, i, n), i) == b
  {
    hide Coalesce, Coalesced, Carve, Freed, Split;
    CoalesceIdle(b);
    CarveFlagged(b, i, n);
    FreedIs(Carve(b, i, n), i);
    if b[i].size > n + 12 {
      SplitMerges(b[i], n, b[i + 1..]);
      AroundTail(b, i);
      SamePrefix(b[..i], Split(b[i], n) + b[i + 1..], [b[i]] + b[i + 1..], b);
    }
  }

  lemma AroundTail(b: seq<Block>, i: nat)
    requires i < |b|
    ensures b[..i] + ([b[i]] + b[i + 1..]) == b
  {
  }

  /** The carved list with the flag of the taken block set again. */
  lemma CarveFlagged(b: seq<Block>, i: nat, n: nat)
    requires i < |b| && Fits(b[i], n)
    ensures i < |Carve(b, i, n)|
    ensures var c := Carve(b, i, n);
            c[i := Block(c[i].size, true)] == if b[i].size > n + 12 then b[..i] + (Split(b[i], n) + b[i + 1..]) else b
  {
  }

  /** A free block cut in two free ones. */
  function Split(h: Block, n: nat): seq<Block>
    requires h.size > n + 12
  {
    [Block(n, true), Block(h.size - n - 12, true)]
  }

  lemma SplitMerges(h: Block, n: nat, y: seq<Block>)
    requires h.free && h.size > n + 12
    ensures Split(h, n) + y != [] && (Split(h, n) + y)[0].free
    ensures Coalesce(Split(h, n) + y) == Coalesce([h] + y)
  {
    var s := Split(h, n) + y;
    assert Merge(s[0], s[1]) == h && s[2..] == y;
  }

  /** Lists that differ behind a common prefix and coalesce to the same there. */
  lemma {:induction false} SamePrefix(x: seq<Block>, s: seq<Block>, t: seq<Block>, b: seq<Block>)
    requires s != [] && t != [] && s[0].free && t[0].free && Coalesce(s) == Coalesce(t)
    requires x + t == b && Coalesced(b)
    ensures Coalesce(x + s) == Coalesce(x + t)
    decreases |x|
  {
    if x == [] {
      assert x + s == s && x + t == t;
    } else {
      var y := x[1..];
      assert (x + s)[1..] == y + s && (x + t)[1..] == y + t;
      assert !(b[0].free && b[0 + 1].free);
      forall i | 0 <= i < |y + t| - 1 ensures !((y + t)[i].free && (y + t)[i + 1].free) {
        assert !(b[i + 1].free && b[i + 1 + 1].free);
      }
      SamePrefix(y, s, t, y + t);
    }
  }

  /** One step of the pass, standing on block `i`: a merge, or on to the next block. */
  function MergedAt(b: seq<Block>, i: nat): seq<Block>
    requires i + 1 < |b|
  {
    b[..i] + [Merge(b[i], b[i + 1])] + b[i + 2..]
  }

  lemma CoalesceStep(b: seq<Block>, i: nat)
    requires i < |b|
    ensures i + 1 < |b| && b[i].free && b[i + 1].free ==>
              MergedAt(b, i)[..i] + Coalesce(MergedAt(b, i)[i..]) == b[..i] + Coalesce(b[i..])
    ensures !(i + 1 < |b| && b[i].free && b[i + 1].free) ==>
              b[..i + 1] + Coalesce(b[i + 1..]) == b[..i] + Coalesce(b[i..])
  {
    var x, t := b[..i], b[i..];
    assert b[..i + 1] == x + [t[0]] && b[i + 1..] == t[1..];
    if i + 1 < |b| {
      TailParts(b, i);
      if b[i].free && b[i + 1].free {
        CoalesceUnfold(t);
      }
    }
    if !(i + 1 < |b| && b[i].free && b[i + 1].free) {
      assert x + [t[0]] + Coalesce(t[1..]) == x + ([t[0]] + Coalesce(t[1..]));
    }
  }

  lemma TailParts(b: seq<Block>, i: nat)
    requires i + 1 < |b|
    ensures b[i..][1] == b[i + 1] && b[i..][2..] == b[i + 2..]
    ensures MergedAt(b, i)[..i] == b[..i] && MergedAt(b, i)[i..] == [Merge(b[i], b[i + 1])] + b[i + 2..]
  {
  }

  lemma CoalesceUnfold(t: seq<Block>)
    requires |t| >= 2 && t[0].free && t[1].free
    ensures Coalesce(t) == Coalesce([Merge(t[0], t[1])] + t[2..])
  {
  }

  lemma MergedLive(b: seq<Block>, i: nat, p: int, sz: nat)
    requires i + 1 < |b| && b[i].free && b[i + 1].free
    ensures Live(MergedAt(b, i), p, sz) <==> Live(b, p, sz)
  {
    MergeLive(b[..i], b[i], b[i + 1], b[i + 2..], p, sz);
    assert b[..i] + [b[i], b[i + 1]] + b[i + 2..] == b;
  }

  // ---------------------------------------------------------------- headers in memory

  /** The header at offset `o`: size, link and flag; its three padding bytes are never written. */
  ghost predicate Header(m: seq<Byte>, o: nat, size: int, next: int, free: bool) {
    o + 12 <= |m| && LdDword(m, o) as int == size && LdDword(m, o + 4) as int == next && (m[o + 8] != 0 <==> free)
  }

  /** The link of block `i`: the address of the next header, 0 in the last one. */
  function Link(b: seq<Block>, start: int, i: nat): int
    requires i < |b|
  {
    if i + 1 == |b| then 0 else start + Off(b, i + 1)
  }

  ghost predicate HeaderAt(m: seq<Byte>, start: int, b: seq<Block>, i: nat)
    requires i < |b|
  {
    Header(m, Off(b, i), b[i].size, Link(b, start, i), b[i].free)
  }

  /** The memory holds the block list: headers tile it exactly. */
  ghost predicate Laid(m: seq<Byte>, start: int, b: seq<Block>) {
    b != [] && Span(b) == |m| && forall i: nat :: i < |b| ==> HeaderAt(m, start, b, i)
  }

  ghost predicate SameRange(m: seq<Byte>, w: seq<Byte>, lo: int, hi: int)
    requires |w| == |m|
  {
    forall k :: lo <= k < hi && 0 <= k < |m| ==> w[k] == m[k]
  }

  ghost predicate SameOutside(m: seq<Byte>, w: seq<Byte>, lo: int, hi: int) {
    |w| == |m| && forall k :: 0 <= k < |m| && !(lo <= k < hi) ==> w[k] == m[k]
  }

  /** The bytes of all live payloads are the same in both memories. */
  ghost predicate PayloadsKept(m: seq<Byte>, w: seq<Byte>, b: seq<Block>) {
    |w| == |m| && forall p, sz: nat :: Live(b, p, sz) ==> SameRange(m, w, p, p + sz)
  }

  /** Same bytes in the nine header bytes that matter. */
  lemma HeaderKept(m: seq<Byte>, w: seq<Byte>, o: nat, size: int, next: int, free: bool)
    requires Header(m, o, size, next, free) && |w| == |m|
    requires forall k :: o <= k < o + 9 ==> w[k] == m[k]
    ensures Header(w, o, size, next, free)
  {
    assert w[o] == m[o] && w[o + 1] == m[o + 1] && w[o + 2] == m[o + 2] && w[o + 3] == m[o + 3];
    assert w[o + 4] == m[o + 4] && w[o + 5] == m[o + 5] && w[o + 6] == m[o + 6] && w[o + 7] == m[o + 7];
  }

  /** Payloads are kept by writes to a header, and by writes anywhere in a free block. */
  lemma KeptOutside(m: seq<Byte>, w: seq<Byte>, b: seq<Block>, i: nat)
    requires i < |b|
    requires SameOutside(m, w, Off(b, i), Off(b, i) + 12 + if b[i].free then b[i].size else 0)
    ensures PayloadsKept(m, w, b)
  {
    forall p, sz: nat | Live(b, p, sz) ensures SameRange(m, w, p, p + sz) {
      var j: nat :| LiveAt(b, j, p, sz);
      BlockApart(b, i, j);
    }
  }

  lemma BlockApart(b: seq<Block>, i: nat, j: nat)
    requires i < |b| && j < |b|
    ensures i != j ==> Off(b, j) + 12 + b[j].size <= Off(b, i) || Off(b, i) + 12 + b[i].size <= Off(b, j)
  {
    if j < i {
      OffMonotone(b, j, i);
    } else if i < j {
      OffMonotone(b, i, j);
    }
  }

  lemma KeptTrans(m: seq<Byte>, w: seq<Byte>, x: seq<Byte>, b: seq<Block>, c: seq<Block>)
    requires PayloadsKept(m, w, b) && PayloadsKept(w, x, c)
    requires forall p, sz: nat :: Live(b, p, sz) ==> Live(c, p, sz)
    ensures PayloadsKept(m, x, b)
  {
    hide Live;
  }

  /** Offsets once block `i` has been replaced by `mid`, which spans the same bytes. */
  lemma ReplacedOff(b: seq<Block>, i: nat, n: nat, mid: seq<Block>, j: nat)
    requires i + n <= |b| && Span(mid) == Off(b, i + n) - Off(b, i)
    requires j <= |b| - n + |mid|
    ensures var c := Replaced(b, i, n, mid);
            Off(c, j) == if j <= i then Off(b, j)
                         else if j <= i + |mid| then Off(b, i) + Off(mid, j - i)
                         else Off(b, j - |mid| + n)
  {
    hide Off;
    var x, y := b[..i], b[i + n..];
    assert x + mid + y == x + (mid + y);
    PrefixSpan(b, i);
    OffAppend(x, mid + y, j);
    if j <= i {
      OffPrefix(b, i, j);
    } else {
      OffAppend(mid, y, j - i);
      if j > i + |mid| {
        OffSuffix(b, i + n, j - i - |mid|);
      }
    }
  }

  lemma OffPrefix(b: seq<Block>, i: nat, j: nat)
    requires j <= i <= |b|
    ensures Off(b[..i], j) == Off(b, j)
  {
    assert b == b[..i] + b[i..];
    OffAppend(b[..i], b[i..], j);
  }

  lemma OffSuffix(b: seq<Block>, i: nat, j: nat)
    requires i + j <= |b|
    ensures Off(b, i + j) == Off(b, i) + Off(b[i..], j)
  {
    assert b == b[..i] + b[i..];
    OffAppend(b[..i], b[i..], i + j);
    PrefixSpan(b, i);
  }

  /** The headers of the blocks `mid`, from offset `base` on, the last one linked to `last`. */
  ghost predicate NewHeaders(w: seq<Byte>, start: int, base: nat, mid: seq<Block>, last: int) {
    forall j: nat :: j < |mid| ==> NewHeader(w, start, base, mid, last, j)
  }

  ghost predicate NewHeader(w: seq<Byte>, start: int, base: nat, mid: seq<Block>, last: int, j: nat)
    requires j < |mid|
  {
    var next := if j + 1 < |mid| then start + base + Off(mid, j + 1) else last;
    Header(w, base + Off(mid, j), mid[j].size, next, mid[j].free)
  }

  function Replaced(b: seq<Block>, i: nat, n: nat, mid: seq<Block>): seq<Block>
    requires i + n <= |b|
  {
    b[..i] + mid + b[i + n..]
  }

  /** Blocks `i` to `i + n` replaced by `mid`: it is enough to write the headers of `mid`. */
  lemma ReplacedLaid(m: seq<Byte>, w: seq<Byte>, start: int, b: seq<Block>, i: nat, n: nat, mid: seq<Block>)
    requires Laid(m, start, b) && i + n <= |b| && n > 0 && mid != []
    requires Span(mid) == Off(b, i + n) - Off(b, i)
    requires SameOutside(m, w, Off(b, i), Off(b, i + n))
    requires NewHeaders(w, start, Off(b, i), mid, Link(b, start, i + n - 1))
    ensures Laid(w, start, Replaced(b, i, n, mid))
  {
    var c := Replaced(b, i, n, mid);
    ReplacedOff(b, i, n, mid, |c|);
    hide Header, HeaderAt, SameOutside, NewHeaders, Replaced;
    forall j: nat | j < |c| ensures HeaderAt(w, start, c, j) {
      ReplacedHeader(m, w, start, b, i, n, mid, j);
    }
  }

  lemma ReplacedHeader(m: seq<Byte>, w: seq<Byte>, start: int, b: seq<Block>, i: nat, n: nat, mid: seq<Block>, j: nat)
    requires Laid(m, start, b) && i + n <= |b| && n > 0 && mid != []
    requires Span(mid) == Off(b, i + n) - Off(b, i)
    requires SameOutside(m, w, Off(b, i), Off(b, i + n))
    requires NewHeaders(w, start, Off(b, i), mid, Link(b, start, i + n - 1))
    requires j < |Replaced(b, i, n, mid)|
    ensures HeaderAt(w, start, Replaced(b, i, n, mid), j)
  {
    hide Header, SameOutside, Laid, Off;
    var c := Replaced(b, i, n, mid);
    ReplacedOff(b, i, n, mid, j);
    ReplacedOff(b, i, n, mid, j + 1);
    if j < i {
      OldHeader(m, w, start, b, j, i, i + n);
      SameHeaderAt(w, start, b, j, c, j);
    } else if j >= i + |mid| {
      OldHeader(m, w, start, b, j - |mid| + n, i, i + n);
      SameHeaderAt(w, start, b, j - |mid| + n, c, j);
    } else {
      assert NewHeader(w, start, Off(b, i), mid, Link(b, start, i + n - 1), j - i);
      OffStart(mid);
    }
  }

  lemma OffStart(b: seq<Block>)
    ensures Off(b, 0) == 0
  {
  }

  lemma SameHeaderAt(w: seq<Byte>, start: int, b: seq<Block>, k: nat, c: seq<Block>, j: nat)
    requires k < |b| && j < |c| && b[k] == c[j] && Off(b, k) == Off(c, j)
    requires Link(b, start, k) == Link(c, start, j) && HeaderAt(w, start, b, k)
    ensures HeaderAt(w, start, c, j)
  {
  }

  /** A header outside the changed blocks is still there. */
  lemma OldHeader(m: seq<Byte>, w: seq<Byte>, start: int, b: seq<Block>, j: nat, lo: nat, hi: nat)
    requires Laid(m, start, b) && lo <= hi <= |b| && j < |b| && (j < lo || hi <= j)
    requires SameOutside(m, w, Off(b, lo), Off(b, hi))
    ensures HeaderAt(w, start, b, j)
  {
    assert HeaderAt(m, start, b, j);
    if j < lo {
      OffMonotone(b, j, lo);
    } else if hi < j {
      OffMonotone(b, hi, j);
    }
    HeaderKept(m, w, Off(b, j), b[j].size, Link(b, start, j), b[j].free);
  }

  // ---------------------------------------------------------------- the three header cases

  /** The chosen block is big enough to be cut: two headers are written. */
  lemma SplitLaid(m: seq<Byte>, w: seq<Byte>, start: int, b: seq<Block>, i: nat, n: nat)
    requires Laid(m, start, b) && i < |b| && Fits(b[i], n) && b[i].size > n + 12
    requires SameOutside(m, w, Off(b, i), Off(b, i) + 12 + b[i].size)
    requires Header(w, Off(b, i), n, start + Off(b, i) + 12 + n, false)
    requires Header(w, Off(b, i) + 12 + n, b[i].size - n - 12, Link(b, start, i), true)
    ensures Laid(w, start, Carve(b, i, n)) && PayloadsKept(m, w, b)
  {
    hide Laid, Header, NewHeaders, SameOutside, PayloadsKept, Live, Off;
    var mid := Pieces(b[i], n);
    PiecesLive(b[i], n, 0, 0);
    OffTwo(b, i);
    KeptOutside(m, w, b, i);
    TwoHeaders(w, start, Off(b, i), mid, Link(b, start, i));
    ReplacedLaid(m, w, start, b, i, 1, mid);
  }

  lemma TwoHeaders(w: seq<Byte>, start: int, base: nat, mid: seq<Block>, last: int)
    requires |mid| == 2
    requires Header(w, base, mid[0].size, start + base + 12 + mid[0].size, mid[0].free)
    requires Header(w, base + 12 + mid[0].size, mid[1].size, last, mid[1].free)
    ensures NewHeaders(w, start, base, mid, last)
  {
    hide Header;
    OffTwo(mid, 0);
    forall j: nat | j < |mid| ensures NewHeader(w, start, base, mid, last, j) {
      assert j == 0 || j == 1;
    }
  }

  /** The chosen block is taken whole: only its flag is written. */
  lemma TakenLaid(m: seq<Byte>, w: seq<Byte>, start: int, b: seq<Block>, i: nat, n: nat)
    requires Laid(m, start, b) && i < |b| && Fits(b[i], n) && b[i].size <= n + 12
    requires SameOutside(m, w, Off(b, i) + 8, Off(b, i) + 9) && Off(b, i) + 8 < |w| && w[Off(b, i) + 8] == 0
    ensures Laid(w, start, Carve(b, i, n)) && PayloadsKept(m, w, b)
  {
    FlagLaid(m, w, start, b, i, false);
    KeptOutside(m, w, b, i);
  }

  lemma FlagLaid(m: seq<Byte>, w: seq<Byte>, start: int, b: seq<Block>, i: nat, free: bool)
    requires Laid(m, start, b) && i < |b|
    requires SameOutside(m, w, Off(b, i) + 8, Off(b, i) + 9) && Off(b, i) + 8 < |w| && (w[Off(b, i) + 8] != 0 <==> free)
    ensures Laid(w, start, Replaced(b, i, 1, [Block(b[i].size, free)]))
  {
    var mid := [Block(b[i].size, free)];
    OffTwo(b, i);
    LiveOne(mid[0], 0, 0);
    assert HeaderAt(m, start, b, i);
    var o := Off(b, i);
    assert w[o] == m[o] && w[o + 1] == m[o + 1] && w[o + 2] == m[o + 2] && w[o + 3] == m[o + 3];
    assert w[o + 4] == m[o + 4] && w[o + 5] == m[o + 5] && w[o + 6] == m[o + 6] && w[o + 7] == m[o + 7];
    assert NewHeader(w, start, Off(b, i), mid, Link(b, start, i), 0);
    ReplacedLaid(m, w, start, b, i, 1, mid);
  }

  lemma OffTwo(b: seq<Block>, i: nat)
    requires i < |b|
    ensures Off(b, i + 1) == Off(b, i) + 12 + b[i].size
    ensures i + 1 < |b| ==> Off(b, i + 2) == Off(b, i) + 24 + b[i].size + b[i + 1].size
  {
  }

  /** A merge: size and link of the first header are rewritten, the second header becomes payload. */
  lemma MergeLaid(m: seq<Byte>, w: seq<Byte>, start: int, b: seq<Block>, i: nat)
    requires Laid(m, start, b) && i + 1 < |b| && b[i].free && b[i + 1].free
    requires SameOutside(m, w, Off(b, i), Off(b, i) + 8) && Off(b, i) + 12 <= |w|
    requires LdDword(w, Off(b, i)) as int == b[i].size + 12 + b[i + 1].size
    requires LdDword(w, Off(b, i) + 4) as int == Link(b, start, i + 1)
    ensures Laid(w, start, MergedAt(b, i)) && PayloadsKept(m, w, b)
  {
    var mid := [Merge(b[i], b[i + 1])];
    OffTwo(b, i);
    LiveOne(mid[0], 0, 0);
    assert HeaderAt(m, start, b, i);
    assert NewHeader(w, start, Off(b, i), mid, Link(b, start, i + 1), 0);
    ReplacedLaid(m, w, start, b, i, 2, mid);
    KeptOutside(m, w, b, i);
  }

  /** Block `i` of a laid-out heap: where its header is and what it holds. */
  lemma HeaderHere(m: seq<Byte>, start: int, b: seq<Block>, i: nat)
    requires Laid(m, start, b) && i < |b|
    ensures Off(b, i) + 12 + b[i].size <= |m|
    ensures Header(m, Off(b, i), b[i].size, Link(b, start, i), b[i].free)
    ensures i + 1 < |b| ==> Link(b, start, i) == start + Off(b, i + 1) && Off(b, i + 1) == Off(b, i) + 12 + b[i].size
    ensures i + 1 == |b| ==> Link(b, start, i) == 0
  {
    assert HeaderAt(m, start, b, i);
    OffMonotone(b, i, |b|);
    OffTwo(b, i);
  }

  lemma FirstFitIs(b: seq<Block>, n: nat, i: nat, k: nat)
    requires i <= k <= |b| && forall j :: i <= j < k ==> !Fits(b[j], n)
    requires k < |b| ==> Fits(b[k], n)
    ensures FirstFit(b, n, i) == k
  {
  }

  // ---------------------------------------------------------------- the heap

  class KernelHeap {
    const mem: array<Byte>
    const start: U32        // heap_start: the address of mem[0]
    var freeList: U32
    ghost var blocks: seq<Block>

    ghost predicate Placed()
      reads `freeList
    {
      0 < start && start + mem.Length < 0x1_0000_0000 && freeList == start
    }

    ghost predicate Valid()
      reads this, mem
    {
      Placed() && Laid(mem[..], start, blocks) && Coalesced(blocks)
    }

    /** `heap_init` */
    constructor Init(m: array<Byte>, at: U32)
      requires 12 <= m.Length && 0 < at && at + m.Length < TWO32
      modifies m
      ensures Valid() && mem == m && start == at && blocks == [Block(m.Length - 12, true)]
    {
      mem, start, freeList := m, at, at;
      blocks := [Block(m.Length - 12, true)];
      new;
      WriteHeader(0, m.Length - 12, 0, true);
      LiveOne(blocks[0], 0, 0);
      assert HeaderAt(mem[..], start, blocks, 0);
    }

    /** Stores the fields of the header at `o`; its padding is left as it is. */
    method WriteHeader(o: nat, size: U32, next: U32, free: bool)
      requires o + 12 <= mem.Length
      modifies mem
      ensures Header(mem[..], o, size, next, free)
      ensures SameOutside(old(mem[..]), mem[..], o, o + 9)
    {
      StoreDword(mem, o, size);
      ghost var w := mem[..];
      StoreDword(mem, o + 4, next);
      StDwordKeeps(w, o + 4, next, o);
      ghost var x := mem[..];
      mem[o + 8] := if free then 1 else 0;
      hide StDword;
      SameDword(x, mem[..], o);
      SameDword(x, mem[..], o + 4);
    }

    method ReadHeader(o: nat, ghost size: int, ghost next: int, ghost free: bool) returns (s: U32, n: U32, f: bool)
      requires Header(mem[..], o, size, next, free)
      ensures s as int == size && n as int == next && f == free
    {
      s := LoadDword(mem, o);
      n := LoadDword(mem, o + 4);
      f := mem[o + 8] != 0;
    }

    /** `kmalloc`: 0 stands for NULL. */
    method Kmalloc(size: U32) returns (ptr: U32)
      requires Valid()
      modifies `blocks, mem
      ensures Valid() && Span(blocks) == old(Span(blocks))
      // fails exactly when no free block is large enough, and then changes nothing
      ensures ptr == 0 <==> forall i :: 0 <= i < |old(blocks)| ==> !Fits(old(blocks)[i], size)
      ensures ptr == 0 <==> forall i :: 0 <= i < |old(blocks)| ==> !(old(blocks)[i].free && size <= old(blocks)[i].size)
      ensures ptr == 0 ==> blocks == old(blocks) && mem[..] == old(mem[..])
      ensures ptr != 0 ==>
                exists i: nat :: FirstCut(old(blocks), blocks, i, size) && ptr as int == start + Off(blocks, i) + 12
      // otherwise first fit: one more live payload, all the others untouched
      ensures ptr != 0 ==>
                var i := FirstFit(old(blocks), size, 0);
                && i < |old(blocks)| && blocks == Carve(old(blocks), i, size)
                && ptr as int == start + Off(old(blocks), i) + 12
                && forall p, sz: nat :: Live(blocks, p, sz) <==>
                                          Live(old(blocks), p, sz)
                                          || (p == ptr - start && sz == Granted(old(blocks)[i], size))
      ensures PayloadsKept(old(mem[..]), mem[..], old(blocks))
    {
      hide Laid, Header, Coalesced, Live, PayloadsKept, Carve, FirstCut;
      ghost var i := 0;
      var curr := freeList;
      LaidStart(mem[..], start, blocks);
      KeptSame(mem[..], blocks);
      while curr != 0
        invariant Valid() && blocks == old(blocks) && mem[..] == old(mem[..])
        invariant i <= |blocks| && curr as int == if i < |blocks| then start + Off(blocks, i) else 0
        invariant forall j :: 0 <= j < i ==> !Fits(blocks[j], size)
        decreases |blocks| - i
      {
        HeaderHere(mem[..], start, blocks, i);
        var o := curr - start;
        var bsize, next, free := ReadHeader(o, blocks[i].size, Link(blocks, start, i), blocks[i].free);
        if free && bsize >= size {
          FirstFitIs(blocks, size, 0, i);
          CarveIsCut(blocks, size);
          TakeBlock(o, size, bsize, next, i);
          return curr + 12;
        }
        curr := next;
        i := i + 1;
      }
      ptr := 0;
    }

    /** The successful branch of `kmalloc`: cuts block `i` (header at `o`) when the rest is large
        enough, and marks it used. */
    method TakeBlock(o: nat, size: U32, bsize: U32, next: U32, ghost i: nat)
      requires Valid() && i < |blocks| && Fits(blocks[i], size) && o == Off(blocks, i)
      requires bsize as int == blocks[i].size && next as int == Link(blocks, start, i)
      modifies `blocks, mem
      ensures Valid() && Span(blocks) == old(Span(blocks)) && blocks == Carve(old(blocks), i, size)
      ensures forall p, sz: nat :: Live(blocks, p, sz) <==>
                                     Live(old(blocks), p, sz) || (p == o + 12 && sz == Granted(old(blocks)[i], size))
      ensures PayloadsKept(old(mem[..]), mem[..], old(blocks))
    {
      hide Laid, Coalesced, Live, PayloadsKept, Carve, Header, SameOutside, Off, Link, Granted;
      HeaderHere(mem[..], start, blocks, i);
      CarveAll(blocks, i, size, o);
      ghost var m := mem[..];
      if bsize > (size + 12) % 0x1_0000_0000 {
        WriteSplit(o, size, bsize, next);
        SplitLaid(m, mem[..], start, blocks, i, size);
      } else {
        ClearFlag(o);
        TakenLaid(m, mem[..], start, blocks, i, size);
      }
      blocks := Carve(blocks, i, size);
    }

    method WriteSplit(o: nat, size: U32, bsize: U32, next: U32)
      requires Placed() && o + 12 + bsize <= mem.Length && bsize > size + 12
      modifies mem
      ensures Header(mem[..], o, size, start + o + 12 + size, false)
      ensures Header(mem[..], o + 12 + size, bsize - size - 12, next, true)
      ensures SameOutside(old(mem[..]), mem[..], o, o + 12 + bsize)
    {
      var rest := o + 12 + size;
      WriteHeader(rest, bsize - size - 12, next, true);
      ghost var w := mem[..];
      WriteHeader(o, size, start + rest, false);
      HeaderKept(w, mem[..], rest, bsize - size - 12, next, true);
    }

    method ClearFlag(o: nat)
      requires o + 12 <= mem.Length
      modifies mem
      ensures SameOutside(old(mem[..]), mem[..], o + 8, o + 9) && mem[o + 8] == 0
    {
      mem[o + 8] := 0;
    }

    /** `kfree`, for NULL or the address of a live payload. */
    method Kfree(ptr: U32)
      requires Valid()
      requires ptr == 0 || IsPayload(blocks, ptr - start)
      modifies `blocks, mem
      ensures Valid() && Span(blocks) == old(Span(blocks))
      ensures ptr == 0 ==> blocks == old(blocks) && mem[..] == old(mem[..])
      ensures ptr != 0 ==>
                exists i: nat :: i < |old(blocks)| && ptr - start == Off(old(blocks), i) + 12
                                 && blocks == Freed(old(blocks), i)
      // exactly this payload is taken off the live ones, and the others keep their bytes
      ensures forall p, sz: nat :: Live(blocks, p, sz) <==> Live(old(blocks), p, sz) && (ptr == 0 || p != ptr - start)
      ensures PayloadsKept(old(mem[..]), mem[..], blocks)
    {
      KeptSame(mem[..], blocks);
      if ptr == 0 { return; }
      ghost var sz: nat :| Live(blocks, ptr - start, sz);
      ghost var i: nat :| LiveAt(blocks, i, ptr - start, sz);
      hide Laid, Coalesced, Live, LiveAt, PayloadsKept, Header, SameOutside, Off, Freed;
      LiveWhere(blocks, i, ptr - start, sz);
      HeaderHere(mem[..], start, blocks, i);
      FreedAll(blocks, i);
      ghost var b, m := blocks, mem[..];
      SetFlag(ptr - 12 - start);
      ghost var w := mem[..];
      FreeFlag(m, w, start, b, i);
      blocks := b[i := Block(b[i].size, true)];
      CoalescePass();
      FreedIs(b, i);
      KeptSub(m, w, b, blocks);
      KeptSub(w, mem[..], b[i := Block(b[i].size, true)], blocks);
      KeptTrans(m, w, mem[..], blocks, blocks);
    }

    method SetFlag(o: nat)
      requires o + 12 <= mem.Length
      modifies mem
      ensures SameOutside(old(mem[..]), mem[..], o + 8, o + 9) && mem[o + 8] == 1
    {
      mem[o + 8] := 1;
    }

    /** The coalescing loop of `kfree`. */
    method CoalescePass()
      requires Placed() && Laid(mem[..], start, blocks)
      modifies `blocks, mem
      ensures Laid(mem[..], start, blocks) && blocks == Coalesce(old(blocks))
      ensures PayloadsKept(old(mem[..]), mem[..], old(blocks))
    {
      hide Laid, Live, PayloadsKept, Header, Coalesce, MergedAt;
      ghost var i := 0;
      var curr := freeList;
      LaidStart(mem[..], start, blocks);
      KeptSame(mem[..], blocks);
      assert blocks[..0] + Coalesce(blocks[0..]) == Coalesce(blocks) by { assert blocks[0..] == blocks; }
      while curr != 0
        invariant Laid(mem[..], start, blocks)
        invariant i <= |blocks| && curr as int == if i < |blocks| then start + Off(blocks, i) else 0
        invariant blocks[..i] + Coalesce(blocks[i..]) == Coalesce(old(blocks))
        invariant forall p, sz: nat :: Live(blocks, p, sz) <==> Live(old(blocks), p, sz)
        invariant PayloadsKept(old(mem[..]), mem[..], old(blocks))
        decreases |blocks| - i
      {
        HeaderHere(mem[..], start, blocks, i);
        CoalesceStep(blocks, i);
        var o := curr - start;
        var bsize, next, free := ReadHeader(o, blocks[i].size, Link(blocks, start, i), blocks[i].free);
        var merge := false;
        var nsize: U32, nnext: U32 := 0, 0;
        if free && next != 0 {
          HeaderHere(mem[..], start, blocks, i + 1);
          nsize, nnext, merge :=
            ReadHeader(next - start, blocks[i + 1].size, Link(blocks, start, i + 1), blocks[i + 1].free);
        }
        if merge {
          ghost var was, b := mem[..], blocks;
          Absorb(o, bsize, nsize, nnext, i);
          KeptTrans(old(mem[..]), was, mem[..], old(blocks), b);
        } else {
          curr := next;
          i := i + 1;
        }
      }
      CoalesceNothing();
      assert blocks[i..] == [] && blocks[..i] + [] == blocks;
    }

    /** The merging branch of the loop: block `i` (header at `o`) takes in its successor. */
    method Absorb(o: nat, bsize: U32, nsize: U32, nnext: U32, ghost i: nat)
      requires Placed() && Laid(mem[..], start, blocks) && i + 1 < |blocks| && blocks[i].free && blocks[i + 1].free
      requires o == Off(blocks, i) && bsize as int == blocks[i].size && nsize as int == blocks[i + 1].size
      requires nnext as int == Link(blocks, start, i + 1)
      modifies `blocks, mem
      ensures Laid(mem[..], start, blocks) && blocks == MergedAt(old(blocks), i)
      ensures |blocks| == old(|blocks|) - 1 && Off(blocks, i) == o
      ensures forall p, sz: nat :: Live(blocks, p, sz) <==> Live(old(blocks), p, sz)
      ensures PayloadsKept(old(mem[..]), mem[..], old(blocks))
    {
      hide Laid, Live, PayloadsKept, Header, Off, MergedAt, LdDword, StDword, Link;
      HeaderHere(mem[..], start, blocks, i);
      HeaderHere(mem[..], start, blocks, i + 1);
      ghost var b, m := blocks, mem[..];
      HeaderRoom(m, o, b[i].size, Link(b, start, i), true);
      StoreDword(mem, o, bsize + 12 + nsize);
      ghost var w := mem[..];
      StoreDword(mem, o + 4, nnext);
      StDwordKeeps(w, o + 4, nnext, o);
      MergeLaid(m, mem[..], start, b, i);
      MergedAll(b, i);
      blocks := MergedAt(blocks, i);
    }
  }

  lemma HeaderRoom(m: seq<Byte>, o: nat, size: int, next: int, free: bool)
    requires Header(m, o, size, next, free)
    ensures o + 12 <= |m|
  {
  }

  lemma MergedAll(b: seq<Block>, i: nat)
    requires i + 1 < |b| && b[i].free && b[i + 1].free
    ensures |MergedAt(b, i)| == |b| - 1 && Off(MergedAt(b, i), i) == Off(b, i)
    ensures forall p, sz: nat :: Live(MergedAt(b, i), p, sz) <==> Live(b, p, sz)
  {
    PrefixSpan(b, i);
    PrefixSpan(MergedAt(b, i), i);
    assert MergedAt(b, i)[..i] == b[..i];
    forall p, sz: nat ensures Live(MergedAt(b, i), p, sz) <==> Live(b, p, sz) { MergedLive(b, i, p, sz); }
  }

  lemma CoalesceNothing()
    ensures Coalesce([]) == []
  {
  }

  lemma LiveWhere(b: seq<Block>, i: nat, p: int, sz: nat)
    requires LiveAt(b, i, p, sz)
    ensures i < |b| && p == Off(b, i) + 12 && !b[i].free
  {
  }

  lemma FreedIs(b: seq<Block>, i: nat)
    requires i < |b|
    ensures Freed(b, i) == Coalesce(b[i := Block(b[i].size, true)])
  {
  }

  /** The effect of freeing block `i` on the heap. */
  lemma FreedAll(b: seq<Block>, i: nat)
    requires i < |b| && !b[i].free
    ensures Coalesced(Freed(b, i)) && Span(Freed(b, i)) == Span(b)
    ensures forall p, sz: nat :: Live(Freed(b, i), p, sz) <==> Live(b, p, sz) && p != Off(b, i) + 12
    ensures forall p, sz: nat :: Live(Freed(b, i), p, sz) ==> Live(b[i := Block(b[i].size, true)], p, sz)
  {
    FreedLive(b, i, 0, 0);
    forall p, sz: nat
      ensures Live(Freed(b, i), p, sz) <==> Live(b, p, sz) && p != Off(b, i) + 12
      ensures Live(Freed(b, i), p, sz) ==> Live(b[i := Block(b[i].size, true)], p, sz)
    {
      FreedLive(b, i, p, sz);
      CoalesceLive(b[i := Block(b[i].size, true)], p, sz);
      OnePayload(b, i, p, sz);
    }
  }

  /** A payload address belongs to one block only. */
  lemma OnePayload(b: seq<Block>, i: nat, p: int, sz: nat)
    requires i < |b| && !b[i].free
    ensures LiveAt(b, i, p, sz) <==> Live(b, p, sz) && p == Off(b, i) + 12
  {
    if Live(b, p, sz) {
      var j: nat :| LiveAt(b, j, p, sz);
      BlockApart(b, i, j);
    }
  }

  /** Setting the flag of a block. */
  lemma FreeFlag(m: seq<Byte>, w: seq<Byte>, start: int, b: seq<Block>, i: nat)
    requires Laid(m, start, b) && i < |b|
    requires SameOutside(m, w, Off(b, i) + 8, Off(b, i) + 9) && Off(b, i) + 8 < |w| && w[Off(b, i) + 8] == 1
    ensures Laid(w, start, b[i := Block(b[i].size, true)]) && PayloadsKept(m, w, b)
  {
    FlagLaid(m, w, start, b, i, true);
    assert Replaced(b, i, 1, [Block(b[i].size, true)]) == b[i := Block(b[i].size, true)];
    KeptOutside(m, w, b, i);
  }

  lemma KeptSub(m: seq<Byte>, w: seq<Byte>, b: seq<Block>, c: seq<Block>)
    requires PayloadsKept(m, w, b) && forall p, sz: nat :: Live(c, p, sz) ==> Live(b, p, sz)
    ensures PayloadsKept(m, w, c)
  {
    hide Live;
  }

  lemma SameDword(m: seq<Byte>, w: seq<Byte>, o: nat)
    requires o + 4 <= |m| == |w| && forall k :: o <= k < o + 4 ==> w[k] == m[k]
    ensures LdDword(w, o) == LdDword(m, o)
  {
  }

  lemma LaidStart(m: seq<Byte>, start: int, b: seq<Block>)
    requires Laid(m, start, b)
    ensures |b| > 0 && Off(b, 0) == 0
  {
  }

  lemma KeptSame(m: seq<Byte>, b: seq<Block>)
    ensures PayloadsKept(m, m, b)
  {
  }

  // ---------------------------------------------------------------- whole runs

  /** `kmalloc` of `n` bytes, and `kfree` of the payload of block `i`. */
  datatype Op = Allocate(n: nat) | Release(i: nat)

  function Step(b: seq<Block>, op: Op): seq<Block> {
    match op
    case Allocate(n) => var i := FirstFit(b, n, 0); if i < |b| then Carve(b, i, n) else b
    case Release(i) => if i < |b| && !b[i].free then Freed(b, i) else b
  }

  function Run(b: seq<Block>, ops: seq<Op>): seq<Block>
    decreases |ops|
  {
    if ops == [] then b else Run(Step(b, ops[0]), ops[1..])
  }

  lemma StepKeeps(b: seq<Block>, op: Op)
    requires b != [] && Coalesced(b)
    ensures Step(b, op) != [] && Coalesced(Step(b, op)) && Span(Step(b, op)) == Span(b)
  {
    match op {
      case Allocate(n) =>
        var i := FirstFit(b, n, 0);
        if i < |b| {
          CarveAll(b, i, n, Off(b, i));
        }
      case Release(i) =>
        if i < |b| && !b[i].free {
          FreedAll(b, i);
        }
    }
  }

  /** After any run from a fresh heap the blocks tile it, no two free ones are neighbours, and when
      everything has been freed the single initial block is back. */
  lemma {:induction false} RunKeeps(b: seq<Block>, ops: seq<Op>)
    requires b != [] && Coalesced(b)
    ensures Coalesced(Run(b, ops)) && Span(Run(b, ops)) == Span(b)
    ensures (forall p, sz: nat :: !Live(Run(b, ops), p, sz)) ==> Run(b, ops) == [Block(Span(b) - 12, true)]
    decreases |ops|
  {
    hide Coalesced, Step, Live;
    if ops == [] {
      if forall p, sz: nat :: !Live(b, p, sz) {
        NothingLive(b);
      }
    } else {
      StepKeeps(b, ops[0]);
      RunKeeps(Step(b, ops[0]), ops[1..]);
    }
  }

  /** One more operation at the end of a run. */
  lemma {:induction false} RunAppend(b: seq<Block>, ops: seq<Op>, op: Op)
    ensures Run(b, ops + [op]) == Step(Run(b, ops), op)
    decreases |ops|
  {
    if ops == [] {
      assert [op][1..] == [] && [] + [op] == [op];
    } else {
      assert (ops + [op])[1..] == ops[1..] + [op];
      RunAppend(Step(b, ops[0]), ops[1..], op);
    }
  }

  /** Freeing a block as soon as it has been allocated restores the exact block list. */
  method AllocateThenFree(h: KernelHeap, n: U32)
    requires h.Valid()
    modifies h, h.mem
    ensures h.Valid() && h.blocks == old(h.blocks)
    ensures PayloadsKept(old(h.mem[..]), h.mem[..], h.blocks)
  {
    hide Laid, Coalesced, Live, PayloadsKept, Header, Off, Freed, Carve;
    ghost var b, m := h.blocks, h.mem[..];
    ghost var k := FirstFit(b, n, 0);
    var p := h.Kmalloc(n);
    ghost var c, w := h.blocks, h.mem[..];
    if p != 0 {
      assert Live(c, p - h.start, Granted(b[k], n));
      assert IsPayload(c, p - h.start);
    }
    h.Kfree(p);
    if p != 0 {
      ghost var i: nat :| i < |c| && p - h.start == Off(c, i) + 12 && h.blocks == Freed(c, i);
      CarvedBlock(b, k, n);
      SameBlock(c, i, k);
      CarveThenFree(b, k, n);
      KeptTrans(m, w, h.mem[..], b, b);
    }
  }

  lemma CarvedBlock(b: seq<Block>, i: nat, n: nat)
    requires i < |b| && Fits(b[i], n)
    ensures i < |Carve(b, i, n)| && Off(Carve(b, i, n), i) == Off(b, i)
  {
    PrefixSpan(b, i);
    PrefixSpan(Carve(b, i, n), i);
    assert Carve(b, i, n)[..i] == b[..i];
  }

  lemma SameBlock(b: seq<Block>, i: nat, j: nat)
    requires i < |b| && j < |b| && Off(b, i) == Off(b, j)
    ensures i == j
  {
    BlockApart(b, i, j);
  }
}
