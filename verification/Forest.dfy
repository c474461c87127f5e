/** Runs of `create_chain` and `remove_chain` keep a FAT a forest of disjoint acyclic chains. */
module Forest {
  import opened Bytes
  import opened Geometry
  import FatTable
  import opened Chains

  predicate InUse(t: seq<U32>, c: int) { 2 <= c < |t| && t[c] != 0 }

  /** Cluster `c`, when in use, ends its chain or links to an in-use cluster of lower rank. */
  ghost predicate LinkOk(t: seq<U32>, rank: seq<nat>, c: int)
    requires |rank| == |t|
  {
    InUse(t, c) ==> t[c] >= |t| || (InUse(t, t[c]) && rank[t[c]] < rank[c])
  }

  /** `c` and `d` do not link to the same cluster. */
  ghost predicate Apart(t: seq<U32>, c: int, d: int) {
    2 <= c < |t| && 2 <= d < |t| && c != d && 2 <= t[c] < |t| ==> t[c] != t[d]
  }

  /** Links stay among in-use clusters, never cycle, and no two clusters share a successor. */
  ghost predicate Forest(t: seq<U32>, rank: seq<nat>) {
    && |rank| == |t|
    && (forall c :: LinkOk(t, rank, c))
    && (forall c, d :: Apart(t, c, d))
  }

  lemma ForestHasNoOnes(t: seq<U32>, rank: seq<nat>)
    requires Forest(t, rank)
    ensures NoOnes(t)
  {
    forall c | 2 <= c < |t| ensures t[c] != 1 { assert LinkOk(t, rank, c); }
  }

  /** In a forest every in-use cluster starts a chain. */
  ghost function ChainFrom(t: seq<U32>, rank: seq<nat>, c: nat): (cs: seq<nat>)
    requires Forest(t, rank) && InUse(t, c)
    ensures IsChain(t, cs) && cs[0] == c
    decreases rank[c]
  {
    assert LinkOk(t, rank, c);
    if t[c] >= |t| then [c] else
      var rest := ChainFrom(t, rank, t[c]);
      Prepend(t, c, rest);
      [c] + rest
  }

  lemma Prepend(t: seq<U32>, c: nat, rest: seq<nat>)
    requires 2 <= c < |t| && IsChain(t, rest) && t[c] == rest[0]
    ensures IsChain(t, [c] + rest)
  {
    var cs := [c] + rest;
    forall i | 0 <= i < |cs| - 1 ensures t[cs[i]] == cs[i + 1] {
      if i > 0 {
        assert t[rest[i - 1]] == rest[i];
      }
    }
  }

  /** The chain starting at a cluster is unique. */
  lemma {:induction false} ChainUnique(t: seq<U32>, a: seq<nat>, b: seq<nat>)
    requires IsChain(t, a) && IsChain(t, b) && a[0] == b[0]
    ensures a == b
    decreases |a|
  {
    if |a| > 1 {
      FirstLink(t, a);
    }
    if |b| > 1 {
      FirstLink(t, b);
    }
    if |a| > 1 && |b| > 1 {
      Tail(t, a);
      Tail(t, b);
      ChainUnique(t, a[1..], b[1..]);
      assert a == [a[0]] + a[1..] && b == [b[0]] + b[1..];
    }
  }

  lemma FirstLink(t: seq<U32>, a: seq<nat>)
    requires IsChain(t, a) && |a| > 1
    ensures t[a[0]] == a[1] < |t|
  {
  }

  lemma Tail(t: seq<U32>, a: seq<nat>)
    requires IsChain(t, a) && |a| > 1
    ensures IsChain(t, a[1..])
  {
  }

  lemma MemberInUse(t: seq<U32>, ch: seq<nat>, i: nat)
    requires IsChain(t, ch) && i < |ch|
    ensures 2 <= ch[i] < |t| && t[ch[i]] >= 2
  {
    assert i < |ch| - 1 ==> t[ch[i]] == ch[i + 1];
  }

  // ---------------------------------------------------------------- create_chain

  /** Ranks after linking the new cluster `ncl` behind any other: everything else moves up. */
  ghost function Raise(rank: seq<nat>, ncl: nat): (r: seq<nat>)
    requires ncl < |rank|
    ensures |r| == |rank| && r[ncl] == 0
    ensures forall c :: 0 <= c < |rank| && c != ncl ==> r[c] == rank[c] + 1
  {
    seq(|rank|, c requires 0 <= c < |rank| => if c == ncl then 0 else rank[c] + 1)
  }

  lemma TakeInForest(ty: FsType, a: Alloc, clst: U32, ncl: U32, rank: seq<nat>)
    requires TableOk(ty, a.t) && Forest(a.t, rank)
    requires clst == 0 || (2 <= clst < |a.t| && a.t[clst] >= |a.t|)
    requires 2 <= ncl < |a.t| && a.t[ncl] == 0
    ensures Forest(Take(ty, a, clst, ncl).t, Raise(rank, ncl))
  {
    EndValueIsEnd(ty, a.t);
    CutKeeps(ty, a.t, ncl);
    var u := Take(ty, a, clst, ncl).t;
    forall c ensures LinkOk(u, Raise(rank, ncl), c) {
      assert LinkOk(a.t, rank, c);
    }
    forall c, d ensures Apart(u, c, d) {
      assert Apart(a.t, c, d);
      assert LinkOk(a.t, rank, c) && LinkOk(a.t, rank, d);
    }
  }

  /** Every chain of the old table stays, the one ending in `clst` grows by the new cluster. */
  lemma TakeKeepsChains(ty: FsType, a: Alloc, clst: U32, ncl: U32, cs: seq<nat>)
    requires TableOk(ty, a.t) && IsChain(a.t, cs)
    requires clst == 0 || (2 <= clst < |a.t| && a.t[clst] >= |a.t|)
    requires 2 <= ncl < |a.t| && a.t[ncl] == 0
    ensures IsChain(Take(ty, a, clst, ncl).t,
                    if clst != 0 && cs[|cs| - 1] == clst then cs + [ncl as nat] else cs)
  {
    EndValueIsEnd(ty, a.t);
    CutKeeps(ty, a.t, ncl);
    var u := Take(ty, a, clst, ncl).t;
    forall i | 0 <= i < |cs| ensures cs[i] != ncl && (i < |cs| - 1 ==> cs[i] != clst && u[cs[i]] == cs[i + 1]) {
      MemberInUse(a.t, cs, i);
      assert i < |cs| - 1 ==> a.t[cs[i]] == cs[i + 1];
    }
  }

  /** A volume whose table is a forest and whose free count is unknown or exact. */
  ghost predicate Sound(ty: FsType, a: Alloc) {
    TableOk(ty, a.t) && FreeOk(a) && exists rank :: Forest(a.t, rank)
  }

  /** A cluster `create_chain` may be asked to extend: none, or the end of a chain. */
  predicate Extendable(t: seq<U32>, clst: U32) {
    clst == 0 || (2 <= clst < |t| && t[clst] >= |t|)
  }

  /** `create_chain` on a sound volume. */
  lemma CreateInForest(ty: FsType, a: Alloc, clst: U32)
    requires Sound(ty, a)
    ensures var (b, r) := Create(ty, a, clst);
            && Sound(ty, b)
            && (if Extendable(a.t, clst) then
                  // full, or a formerly free cluster becomes a new chain or a new tail
                  && (r == 0 <==> NoneFree(a.t))
                  && (r == 0 ==> b == a)
                  && (r != 0 ==>
                        && 2 <= r < |a.t| && a.t[r] == 0 && b.last == r
                        && b.t == a.t[r := EndMark(ty)]
                                     [if clst == 0 then r else clst := if clst == 0 then EndMark(ty) else r])
                else
                  // the existing successor, or an internal error
                  b == a && r == if Get(a.t, clst) < 2 then 1 else a.t[clst])
  {
    var rank :| Forest(a.t, rank);
    ForestHasNoOnes(a.t, rank);
    EndValueIsEnd(ty, a.t);
    if Extendable(a.t, clst) {
      CreateExtends(ty, a, clst, rank);
    }
  }

  lemma CreateExtends(ty: FsType, a: Alloc, clst: U32, rank: seq<nat>)
    requires TableOk(ty, a.t) && FreeOk(a) && Forest(a.t, rank) && NoOnes(a.t) && Extendable(a.t, clst)
    ensures var (b, r) := Create(ty, a, clst);
            && Sound(ty, b)
            && (r == 0 <==> NoneFree(a.t))
            && (r == 0 ==> b == a)
            && (r != 0 ==> 2 <= r < |a.t| && a.t[r] == 0 && b == Take(ty, a, clst, r))
  {
    FreeFromBound(a.t, 2);
    PickFinds(a, clst);
    var r := Pick(a, clst);
    if a.free != 0 && r != 0 {
      TakeCount(ty, a, clst, r);
      TakeInForest(ty, a, clst, r, rank);
    }
  }

  // ---------------------------------------------------------------- remove_chain

  /** What callers of `remove_chain` pass: a whole chain by its head, or the part behind `pclst`;
      a cluster that is free or out of range is tolerated for a whole chain. */
  ghost predicate LegalRemove(t: seq<U32>, clst: U32, pclst: U32) {
    || !(2 <= clst < |t|)
    || (pclst == 0 && forall p :: 2 <= p < |t| ==> t[p] != clst)
    || (2 <= pclst < |t| && t[pclst] == clst)
  }

  /** The table once the chain from `clst` is freed and `pclst` marked as an end. */
  function Unlinked(ty: FsType, t: seq<U32>, cs: seq<nat>, pclst: U32): (u: seq<U32>)
    ensures |u| == |t|
  {
    Cleared(if pclst < |t| && pclst != 0 then t[pclst := EndValue(ty)] else t, cs)
  }

  lemma UnlinkedForest(ty: FsType, t: seq<U32>, rank: seq<nat>, cs: seq<nat>, pclst: U32)
    requires TableOk(ty, t) && Forest(t, rank) && IsChain(t, cs) && LegalRemove(t, cs[0], pclst)
    requires pclst == 0 || (2 <= pclst < |t| && t[pclst] == cs[0])
    ensures Forest(Unlinked(ty, t, cs, pclst), rank)
  {
    EndValueIsEnd(ty, t);
    var u := Unlinked(ty, t, cs, pclst);
    forall c ensures LinkOk(u, rank, c) {
      assert LinkOk(t, rank, c);
      if InUse(u, c) && u[c] < |t| {
        NoLinkInto(t, rank, cs, pclst, c);
      }
    }
    forall c, d ensures Apart(u, c, d) {
      assert Apart(t, c, d);
    }
  }

  /** A remaining cluster does not link into the removed chain. */
  lemma NoLinkInto(t: seq<U32>, rank: seq<nat>, cs: seq<nat>, pclst: U32, c: nat)
    requires Forest(t, rank) && IsChain(t, cs) && LegalRemove(t, cs[0], pclst)
    requires pclst == 0 || (2 <= pclst < |t| && t[pclst] == cs[0])
    requires 2 <= c < |t| && 2 <= t[c] < |t| && c !in cs && c != pclst
    ensures (t[c] as nat) !in cs
  {
    forall i | 0 <= i < |cs| ensures cs[i] != t[c] {
      if i > 0 {
        assert t[cs[i - 1]] == cs[i];
        assert Apart(t, c, cs[i - 1]);
      } else if pclst != 0 {
        assert Apart(t, c, pclst);
      }
    }
  }

  /** `remove_chain` on a sound volume frees exactly the clusters reachable from `clst`. */
  lemma RemoveInForest(ty: FsType, a: Alloc, clst: U32, pclst: U32, cs: seq<nat>)
    requires Sound(ty, a) && IsChain(a.t, cs) && cs[0] == clst && LegalRemove(a.t, clst, pclst)
    ensures var (b, ok) := Remove(ty, a, clst, pclst);
            ok && Sound(ty, b) && b.t == Unlinked(ty, a.t, cs, pclst) && b.last == a.last
  {
    var rank :| Forest(a.t, rank);
    EndValueIsEnd(ty, a.t);
    UnlinkedForest(ty, a.t, rank, cs, pclst);
    if pclst == 0 {
      RemoveFromChain(a, cs);
      RemoveFromCount(a, clst);
    } else {
      var m := a.(t := a.t[pclst := EndValue(ty)]);
      NotOwnSuccessor(a.t, cs, pclst);
      assert IsChain(m.t, cs) by {
        forall i | 0 <= i < |cs| - 1 ensures m.t[cs[i]] == cs[i + 1] { assert a.t[cs[i]] == cs[i + 1]; }
      }
      FreeFromUpdate(a.t, 2, pclst, EndValue(ty));
      RemoveFromChain(m, cs);
      RemoveFromCount(m, clst);
    }
  }

  lemma NotOwnSuccessor(t: seq<U32>, cs: seq<nat>, p: nat)
    requires IsChain(t, cs) && 2 <= p < |t| && t[p] == cs[0]
    ensures p !in cs
  {
    if p in cs {
      var i :| 0 <= i < |cs| && cs[i] == p;
      if i < |cs| - 1 {
        assert t[cs[i]] == cs[i + 1];
        ChainDistinct(t, cs, 0, i + 1);
      }
    }
  }

  /** Chains that share no cluster with the removed one stay, and the remaining head part is a chain. */
  lemma RemoveKeepsChains(ty: FsType, t: seq<U32>, cs: seq<nat>, pclst: U32, other: seq<nat>)
    requires TableOk(ty, t) && IsChain(t, cs) && IsChain(t, other)
    requires pclst == 0 || (2 <= pclst < |t| && t[pclst] == cs[0])
    ensures (forall i :: 0 <= i < |other| ==> other[i] !in cs && other[i] != pclst) ==>
              IsChain(Unlinked(ty, t, cs, pclst), other)
    ensures forall k :: 0 < k < |other| && other[k..] == cs && pclst == other[k - 1] ==>
                          IsChain(Unlinked(ty, t, cs, pclst), other[..k])
  {
    EndValueIsEnd(ty, t);
    var u := Unlinked(ty, t, cs, pclst);
    if forall i :: 0 <= i < |other| ==> other[i] !in cs && other[i] != pclst {
      forall i | 0 <= i < |other| ensures u[other[i]] == t[other[i]] {}
    }
    forall k | 0 < k < |other| && other[k..] == cs && pclst == other[k - 1]
      ensures IsChain(u, other[..k])
    {
      HeadPart(ty, t, cs, pclst, other, k);
    }
  }

  lemma HeadPart(ty: FsType, t: seq<U32>, cs: seq<nat>, pclst: U32, other: seq<nat>, k: nat)
    requires TableOk(ty, t) && IsChain(t, other) && 0 < k < |other| && other[k..] == cs && pclst == other[k - 1]
    ensures IsChain(Unlinked(ty, t, cs, pclst), other[..k])
  {
    EndValueIsEnd(ty, t);
    var u := Unlinked(ty, t, cs, pclst);
    NotInTail(t, other, k, k - 1);
    assert u[other[k - 1]] == EndValue(ty);
    forall i | 0 <= i < k - 1 ensures u[other[i]] == t[other[i]] == other[i + 1] {
      NotInTail(t, other, k, i);
      ChainDistinct(t, other, i, k - 1);
    }
    var head := other[..k];
    assert EndValue(ty) >= |u|;
    assert head[|head| - 1] == other[k - 1];
    assert Links(u, head);
    assert IsChain(u, head);
  }

  lemma NotInTail(t: seq<U32>, ch: seq<nat>, k: nat, i: nat)
    requires IsChain(t, ch) && i < k < |ch|
    ensures ch[i] !in ch[k..]
  {
    forall j | k <= j < |ch| ensures ch[j] != ch[i] { ChainDistinct(t, ch, i, j); }
  }

  // ---------------------------------------------------------------- whole runs

  datatype Op = CreateOp(clst: U32) | RemoveOp(clst: U32, pclst: U32)

  function Apply(ty: FsType, a: Alloc, op: Op): (b: Alloc)
    requires 3 <= |a.t| <= 0x1000_0000
    ensures |b.t| == |a.t|
  {
    match op
    case CreateOp(c) => Create(ty, a, c).0
    case RemoveOp(c, p) => Remove(ty, a, c, p).0
  }

  function Run(ty: FsType, a: Alloc, ops: seq<Op>): (b: Alloc)
    requires 3 <= |a.t| <= 0x1000_0000
    ensures |b.t| == |a.t|
    decreases |ops|
  {
    if ops == [] then a else Run(ty, Apply(ty, a, ops[0]), ops[1..])
  }

  ghost predicate LegalRun(ty: FsType, a: Alloc, ops: seq<Op>)
    requires 3 <= |a.t| <= 0x1000_0000
    decreases |ops|
  {
    ops == [] || ((ops[0].RemoveOp? ==> LegalRemove(a.t, ops[0].clst, ops[0].pclst))
                  && LegalRun(ty, Apply(ty, a, ops[0]), ops[1..]))
  }

  lemma ApplyKeepsSound(ty: FsType, a: Alloc, op: Op)
    requires Sound(ty, a) && (op.RemoveOp? ==> LegalRemove(a.t, op.clst, op.pclst))
    ensures Sound(ty, Apply(ty, a, op))
  {
    match op {
      case CreateOp(c) =>
        CreateInForest(ty, a, c);
      case RemoveOp(c, p) =>
        var rank :| Forest(a.t, rank);
        ForestHasNoOnes(a.t, rank);
        if InUse(a.t, c) {
          RemoveInForest(ty, a, c, p, ChainFrom(a.t, rank, c));
        } else if p != 0 && 2 <= c < |a.t| {
          assert LinkOk(a.t, rank, p);
        }
    }
  }

  /** Every run from a sound volume ends in a sound volume. */
  lemma {:induction false} RunKeepsSound(ty: FsType, a: Alloc, ops: seq<Op>)
    requires Sound(ty, a) && LegalRun(ty, a, ops)
    ensures Sound(ty, Run(ty, a, ops))
    decreases |ops|
  {
    if ops != [] {
      ApplyKeepsSound(ty, a, ops[0]);
      RunKeepsSound(ty, Apply(ty, a, ops[0]), ops[1..]);
    }
  }

  /** Creating a chain and removing it at once restores table and count. */
  lemma CreateThenRemove(ty: FsType, a: Alloc)
    requires Sound(ty, a)
    ensures var (b, r) := Create(ty, a, 0);
            r != 0 ==>
              var (d, ok) := Remove(ty, b, r, 0);
              ok && d.t == a.t && (a.free <= |a.t| - 2 ==> d.free == a.free)
  {
    CreateInForest(ty, a, 0);
    var (b, r) := Create(ty, a, 0);
    EndValueIsEnd(ty, a.t);
    if r != 0 {
      RemoveFromChain(b, [r as nat]);
      RemoveFromCount(b, r);
      assert Remove(ty, b, r, 0).0.t == a.t;
      FreeFromBound(a.t, 2);
    }
  }
}
