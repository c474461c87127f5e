/** Cluster chains over a FAT table: what `create_chain` and `remove_chain` compute, and why a
    well-formed table stays a forest of disjoint acyclic chains. `t[c]` is the entry of cluster `c`;
    |t| is `n_fatent`. */
module Chains {
  import opened Bytes
  import opened Geometry
  import FatTable

  /** The allocation state of a volume. */
  datatype Alloc = Alloc(t: seq<U32>, free: U32, last: U32, fsi: Byte)

  /** `fsi_flag |= 1` */
  function SetBit0(f: Byte): Byte { if f % 2 == 1 then f else f + 1 }

  /** `get_fat` on the table: 1 for a cluster number out of range. */
  function Get(t: seq<U32>, c: U32): U32 {
    if c < 2 || c >= |t| then 1 else t[c]
  }

  function EndValue(ty: FsType): U32 { FatTable.Cut(ty, 0xFFFF_FFFF) }

  ghost predicate TableOk(ty: FsType, t: seq<U32>) {
    3 <= |t| <= MaxClusters(ty) + 2
  }

  lemma EndValueIsEnd(ty: FsType, t: seq<U32>)
    requires TableOk(ty, t)
    ensures EndValue(ty) >= |t| && EndValue(ty) == EndMark(ty)
  {
    assert 0xFFFF_FFFF % 0x1000 == 0xFFF && 0xFFFF_FFFF % 0x1_0000 == 0xFFFF && 0xFFFF_FFFF % 0x1000_0000 == 0xFFF_FFFF;
  }

  // ---------------------------------------------------------------- searching a free cluster

  /** Candidates left before the search is back at its start `scl`. */
  function Left(t: seq<U32>, scl: nat, ncl: nat): int {
    if ncl >= scl then |t| - ncl + scl else scl - ncl
  }

  /** The wrap-around search of `create_chain`, standing on candidate `ncl`: the first free cluster
      after it, 0 if the search comes back to `scl` without one, 1 on meeting an entry of value 1. */
  function Scan(t: seq<U32>, scl: nat, ncl: nat): U32
    requires 3 <= |t| <= 0x1000_0000 && 1 <= scl < |t| && 1 <= ncl < |t|
    decreases Left(t, scl, ncl)
  {
    if ncl + 1 >= |t| && 2 > scl then 0
    else
      var m := if ncl + 1 >= |t| then 2 else ncl + 1;
      if t[m] == 0 then m
      else if t[m] == 1 then 1
      else if m == scl then 0
      else Scan(t, scl, m)
  }

  /** No data cluster has entry value 1. */
  ghost predicate NoOnes(t: seq<U32>) {
    forall c :: 2 <= c < |t| ==> t[c] != 1
  }

  /** `c` is a candidate the search visits strictly after `ncl`, in visiting order. */
  predicate Ahead(t: seq<U32>, scl: nat, ncl: nat, c: int) {
    2 <= c < |t| && if ncl >= scl then c > ncl || c <= scl else ncl < c <= scl
  }

  /** The search is sound, complete and takes the nearest free cluster in cyclic order. */
  lemma {:induction false} ScanFinds(t: seq<U32>, scl: nat, ncl: nat)
    requires 3 <= |t| <= 0x1000_0000 && 1 <= scl < |t| && 1 <= ncl < |t| && NoOnes(t)
    ensures var r := Scan(t, scl, ncl);
            && (r == 0 ==> forall c :: Ahead(t, scl, ncl, c) ==> t[c] != 0)
            && (r != 0 ==>
                  && Ahead(t, scl, ncl, r) && t[r] == 0
                  && forall c :: Ahead(t, scl, ncl, c) && (r == scl || !Ahead(t, scl, r, c)) && c != r ==> t[c] != 0)
    decreases Left(t, scl, ncl)
  {
    if ncl + 1 >= |t| && 2 > scl {
    } else {
      var m := if ncl + 1 >= |t| then 2 else ncl + 1;
      if t[m] != 0 && m != scl {
        ScanFinds(t, scl, m);
      }
    }
  }

  /** From the start of the search every cluster is ahead: 0 means there is no free cluster at all. */
  lemma ScanComplete(t: seq<U32>, scl: nat)
    requires 3 <= |t| <= 0x1000_0000 && 1 <= scl < |t| && NoOnes(t)
    ensures var r := Scan(t, scl, scl);
            && (r == 0 <==> forall c :: 2 <= c < |t| ==> t[c] != 0)
            && (r != 0 ==> 2 <= r < |t| && t[r] == 0)
  {
    ScanFinds(t, scl, scl);
    assert forall c :: 2 <= c < |t| ==> Ahead(t, scl, scl, c);
  }

  // ---------------------------------------------------------------- counting

  /** Free clusters numbered `i` or more. */
  function FreeFrom(t: seq<U32>, i: nat): nat
    decreases |t| - i
  {
    if i >= |t| then 0 else (if t[i] == 0 then 1 else 0) + FreeFrom(t, i + 1)
  }

  function FreeCount(t: seq<U32>): nat { FreeFrom(t, 2) }

  lemma {:induction false} FreeFromUpdate(t: seq<U32>, i: nat, c: nat, v: U32)
    requires c < |t|
    ensures FreeFrom(t[c := v], i) ==
            FreeFrom(t, i) + if c < i then 0 else (if v == 0 then 1 else 0) - (if t[c] == 0 then 1 else 0)
    decreases |t| - i
  {
    if i < |t| {
      FreeFromUpdate(t, i + 1, c, v);
    }
  }

  lemma {:induction false} FreeFromBound(t: seq<U32>, i: nat)
    requires i <= |t|
    ensures FreeFrom(t, i) <= |t| - i
    ensures FreeFrom(t, i) == 0 <==> forall c :: i <= c < |t| ==> t[c] != 0
    decreases |t| - i
  {
    if i < |t| {
      FreeFromBound(t, i + 1);
    }
  }

  /** Tables with the same free clusters have as many of them. */
  lemma {:induction false} FreeFromSame(t: seq<U32>, u: seq<U32>, i: nat)
    requires |u| == |t| && forall c :: i <= c < |t| ==> (u[c] == 0 <==> t[c] == 0)
    ensures FreeFrom(u, i) == FreeFrom(t, i)
    decreases |t| - i
  {
    if i < |t| {
      FreeFromSame(t, u, i + 1);
    }
  }

  /** `cs` are distinct clusters, free in `t` and in use in `u`, which agree on what else is free. */
  ghost predicate TakenFrom(t: seq<U32>, u: seq<U32>, cs: seq<nat>) {
    && |u| == |t|
    && (forall i :: 0 <= i < |cs| ==> 2 <= cs[i] < |t| && t[cs[i]] == 0 && u[cs[i]] != 0)
    && (forall i, j :: 0 <= i < j < |cs| ==> cs[i] != cs[j])
    && (forall c :: 2 <= c < |t| && c !in cs ==> (u[c] == 0 <==> t[c] == 0))
  }

  /** Taking clusters lowers the count by their number. */
  lemma {:induction false} TakenFromCount(t: seq<U32>, u: seq<U32>, cs: seq<nat>)
    requires TakenFrom(t, u, cs)
    ensures FreeCount(t) == FreeCount(u) + |cs|
    decreases |cs|
  {
    if cs == [] {
      FreeFromSame(t, u, 2);
    } else {
      var v, last := t[cs[|cs| - 1] := 1], |cs| - 1;
      FreeFromUpdate(t, 2, cs[last], 1);
      assert cs == cs[..last] + [cs[last]];
      TakenFromCount(v, u, cs[..last]);
    }
  }

  /** The cached free-cluster count is unknown (out of range) or exact. */
  ghost predicate FreeOk(a: Alloc) {
    a.free <= |a.t| - 2 ==> a.free == FreeCount(a.t)
  }

  // ---------------------------------------------------------------- create_chain

  /** Marks `ncl` as the end of a chain and links it behind `clst` unless `clst` is 0. */
  function Take(ty: FsType, a: Alloc, clst: U32, ncl: U32): (b: Alloc)
    requires ncl < |a.t| && clst < |a.t|
  {
    var t1 := a.t[ncl := EndValue(ty)];
    var t2 := if clst != 0 then t1[clst := FatTable.Cut(ty, ncl)] else t1;
    var b := a.(t := t2, last := ncl);
    if 0 < a.free <= |a.t| - 2 then b.(free := a.free - 1, fsi := SetBit0(a.fsi)) else b
  }

  /** Where the search starts and, when the neighbour of a stretched tail is free, what it takes. */
  function Pick(a: Alloc, clst: U32): (ncl: U32)
    requires 3 <= |a.t| <= 0x1000_0000 && clst < |a.t| && clst != 1
  {
    if clst == 0 then
      var scl := if a.last == 0 || a.last >= |a.t| then 1 else a.last;
      Scan(a.t, scl, scl)
    else
      var nb := if clst + 1 >= |a.t| then 2 else clst + 1;
      if a.t[nb] == 1 then 1
      else if a.t[nb] == 0 then nb
      else
        var scl := if 2 <= a.last < |a.t| then a.last else clst;
        Scan(a.t, scl, scl)
  }

  /** `create_chain`: new allocation state and returned cluster (0: full, 1: internal error). */
  function Create(ty: FsType, a: Alloc, clst: U32): (r: (Alloc, U32))
    requires 3 <= |a.t| <= 0x1000_0000
  {
    if clst != 0 && Get(a.t, clst) < |a.t| then
      (a, if Get(a.t, clst) < 2 then 1 else Get(a.t, clst))
    else if a.free == 0 then (a, 0)
    else
      var ncl := Pick(a, clst);
      if ncl < 2 then (a, ncl) else if ncl >= |a.t| then (a, 1) else (Take(ty, a, clst, ncl), ncl)
  }

  /** Nothing happens, and 1 is returned, when the given cluster is out of range or its entry is 0 or 1. */
  lemma CreateRefused(ty: FsType, a: Alloc, clst: U32)
    requires 3 <= |a.t| <= 0x1000_0000 && clst != 0 && (clst == 1 || clst >= |a.t| || a.t[clst] < 2)
    ensures Create(ty, a, clst) == (a, 1)
  {
  }

  /** Without entries of value 1 the choice is a free cluster, and none is found only if none is free. */
  lemma PickFinds(a: Alloc, clst: U32)
    requires 3 <= |a.t| <= 0x1000_0000 && clst < |a.t| && clst != 1 && NoOnes(a.t)
    ensures var r := Pick(a, clst);
            && (r == 0 <==> forall c :: 2 <= c < |a.t| ==> a.t[c] != 0)
            && (r != 0 ==> 2 <= r < |a.t| && a.t[r] == 0)
  {
    if clst == 0 {
      var scl := if a.last == 0 || a.last >= |a.t| then 1 else a.last;
      ScanComplete(a.t, scl);
    } else {
      var scl := if 2 <= a.last < |a.t| then a.last else clst;
      ScanComplete(a.t, scl);
    }
  }

  /** How far the search has to go from cluster `h` to cluster `c`, around the end of a table of `n` entries. */
  function Distance(h: nat, c: nat, n: nat): int { if c > h then c - h else c - h + n }

  /** Which free cluster is chosen: the one behind a stretched tail if it is free (cluster 2 behind the last one),
      otherwise the nearest one behind the hint, or behind the tail or entry 1 when the hint is out of range. */
  lemma PickNearest(a: Alloc, clst: U32)
    requires 3 <= |a.t| <= 0x1000_0000 && clst < |a.t| && clst != 1 && NoOnes(a.t) && Pick(a, clst) != 0
    ensures var n, r := |a.t|, Pick(a, clst);
            var next := if clst == n - 1 then 2 else clst + 1;
            var hint := if clst == 0 then (if 1 <= a.last < n then a.last else 1)
                        else (if 2 <= a.last < n then a.last else clst);
            if clst != 0 && a.t[next] == 0 then r == next
            else forall c :: 2 <= c < n && Distance(hint, c, n) < Distance(hint, r, n) ==> a.t[c] != 0
  {
    var n := |a.t|;
    var hint: nat := if clst == 0 then (if 1 <= a.last < n then a.last else 1)
                     else (if 2 <= a.last < n then a.last else clst);
    ScanFinds(a.t, hint, hint);
    var r := Scan(a.t, hint, hint);
    forall c | 2 <= c < n && Distance(hint, c, n) < Distance(hint, r, n) && r != 0 ensures a.t[c] != 0 {
      assert Ahead(a.t, hint, hint, c);
    }
  }

  predicate NoneFree(t: seq<U32>) {
    forall c :: 2 <= c < |t| ==> t[c] != 0
  }

  /** A search only ever returns 0, 1 or a free cluster, on any table. */
  lemma {:induction false} ScanFree(t: seq<U32>, scl: nat, ncl: nat)
    requires 3 <= |t| <= 0x1000_0000 && 1 <= scl < |t| && 1 <= ncl < |t|
    ensures var r := Scan(t, scl, ncl); r < 2 || (r < |t| && t[r] == 0)
    decreases Left(t, scl, ncl)
  {
    if !(ncl + 1 >= |t| && 2 > scl) {
      var m := if ncl + 1 >= |t| then 2 else ncl + 1;
      if t[m] > 1 && m != scl {
        ScanFree(t, scl, m);
      }
    }
  }

  lemma PickFree(a: Alloc, clst: U32)
    requires 3 <= |a.t| <= 0x1000_0000 && clst < |a.t| && clst != 1
    ensures var r := Pick(a, clst); r < 2 || (r < |a.t| && a.t[r] == 0)
  {
    var scl := if clst == 0 then (if a.last == 0 || a.last >= |a.t| then 1 else a.last)
               else (if 2 <= a.last < |a.t| then a.last else clst);
    ScanFree(a.t, scl, scl);
  }

  /** `create_chain` on any table, asked for a new chain or to follow or stretch at an in-range `clst`. */
  lemma CreateOutcome(ty: FsType, a: Alloc, clst: U32)
    requires TableOk(ty, a.t) && (clst == 0 || (2 <= clst < |a.t| && a.t[clst] >= 2))
    ensures var (b, r) := Create(ty, a, clst);
            if clst != 0 && a.t[clst] < |a.t| then
              b == a && r == a.t[clst]
            else
              && (r < 2 ==> b == a)
              && (r >= 2 ==>
                    && r < |a.t| && a.t[r] == 0 && |b.t| == |a.t| && b.t[r] >= |a.t|
                    && (clst != 0 ==> b.t[clst] == r) && b.last == r
                    && b.free == (if 0 < a.free <= |a.t| - 2 then a.free - 1 else a.free)
                    && forall d :: 0 <= d < |a.t| && d != r && d != clst ==> b.t[d] == a.t[d])
              && (r == 0 && NoOnes(a.t) && FreeOk(a) ==> NoneFree(a.t))
              && (r == 1 ==> !NoOnes(a.t))
              && (clst == 0 && r >= 2 ==> b.t[0] == a.t[0])
              && (FreeOk(a) ==> FreeOk(b))
  {
    if clst == 0 || a.t[clst] >= |a.t| {
      EndValueIsEnd(ty, a.t);
      FreeFromBound(a.t, 2);
      if a.free != 0 {
        PickFree(a, clst);
        if NoOnes(a.t) {
          PickFinds(a, clst);
        }
        if Pick(a, clst) >= 2 {
          CutKeeps(ty, a.t, Pick(a, clst));
          if FreeOk(a) {
            TakeCount(ty, a, clst, Pick(a, clst));
          }
        }
      }
    }
  }

  // ---------------------------------------------------------------- remove_chain

  function NonZeroFrom(t: seq<U32>, i: nat): nat
    decreases |t| - i
  {
    if i >= |t| then 0 else (if t[i] == 0 then 0 else 1) + NonZeroFrom(t, i + 1)
  }

  lemma {:induction false} NonZeroFromClear(t: seq<U32>, i: nat, c: nat)
    requires c < |t| && t[c] != 0
    ensures NonZeroFrom(t[c := 0], i) == NonZeroFrom(t, i) - if c < i then 0 else 1
    decreases |t| - i
  {
    if i < |t| {
      NonZeroFromClear(t, i + 1, c);
    }
  }

  /** One cluster given back. */
  function Release(a: Alloc, c: nat): (b: Alloc)
    requires c < |a.t| <= 0x1000_0000
  {
    var b := a.(t := a.t[c := 0]);
    if a.free < |a.t| - 2 then b.(free := a.free + 1, fsi := SetBit0(a.fsi)) else b
  }

  /** The loop of `remove_chain` on any table, cyclic ones included: each round clears an entry.
      The flag is false when it stops on an entry of value 1. */
  function RemoveFrom(a: Alloc, c: nat): (r: (Alloc, bool))
    requires c < |a.t| <= 0x1000_0000
    ensures |r.0.t| == |a.t|
    decreases NonZeroFrom(a.t, 0)
  {
    var nxt := a.t[c];
    if nxt == 0 then (a, true)
    else if nxt == 1 then (a, false)
    else
      NonZeroFromClear(a.t, 0, c);
      var b := Release(a, c);
      if nxt < |a.t| then RemoveFrom(b, nxt) else (b, true)
  }

  /** `remove_chain`: false stands for FR_INT_ERR. */
  function Remove(ty: FsType, a: Alloc, clst: U32, pclst: U32): (r: (Alloc, bool))
    requires |a.t| <= 0x1000_0000
    ensures |r.0.t| == |a.t|
  {
    if clst < 2 || clst >= |a.t| then (a, false)
    else if pclst == 0 then RemoveFrom(a, clst)
    else if pclst < 2 || pclst >= |a.t| then (a, false)
    else RemoveFrom(a.(t := a.t[pclst := EndValue(ty)]), clst)
  }

  /** Nothing happens when a given cluster is out of range, which is an error, or when the chain starts with an
      entry of value 0, which is none, or 1, which is. */
  lemma RemoveRefused(ty: FsType, a: Alloc, clst: U32, pclst: U32)
    requires |a.t| <= 0x1000_0000
    ensures clst < 2 || clst >= |a.t| || pclst == 1 || pclst >= |a.t| ==> Remove(ty, a, clst, pclst) == (a, false)
    ensures 2 <= clst < |a.t| && pclst == 0 && a.t[clst] < 2 ==> Remove(ty, a, clst, pclst) == (a, a.t[clst] == 0)
  {
  }

  // ---------------------------------------------------------------- chains

  ghost predicate Links(t: seq<U32>, cs: seq<nat>) {
    && (forall i :: 0 <= i < |cs| ==> 2 <= cs[i] < |t|)
    && (forall i :: 0 <= i < |cs| - 1 ==> t[cs[i]] == cs[i + 1])
  }

  /** `cs` lists the clusters of a chain from its head to its end mark. */
  ghost predicate IsChain(t: seq<U32>, cs: seq<nat>) {
    |cs| > 0 && Links(t, cs) && t[cs[|cs| - 1]] >= |t|
  }

  /** `j` links followed through the table from cluster `c`. */
  function Walk(t: seq<U32>, c: U32, j: nat): U32 {
    if j == 0 then c else Get(t, Walk(t, c, j - 1))
  }

  lemma {:induction false} WalkChain(t: seq<U32>, cs: seq<nat>, i: nat, j: nat)
    requires IsChain(t, cs) && i + j < |cs| && cs[i] < TWO32
    ensures Walk(t, cs[i], j) as int == cs[i + j]
    decreases j
  {
    if j > 0 {
      WalkChain(t, cs, i, j - 1);
      assert t[cs[i + (j - 1)]] == cs[i + (j - 1) + 1];
    }
  }

  /** A chain visits no cluster twice. */
  lemma {:induction false} ChainDistinct(t: seq<U32>, cs: seq<nat>, i: nat, j: nat)
    requires IsChain(t, cs) && i < j < |cs|
    ensures cs[i] != cs[j]
    decreases |cs| - j
  {
    assert t[cs[i]] == cs[i + 1];
    if j < |cs| - 1 {
      assert t[cs[j]] == cs[j + 1];
      ChainDistinct(t, cs, i + 1, j + 1);
    }
  }

  lemma ChainUsed(t: seq<U32>, cs: seq<nat>)
    requires cs == [] || IsChain(t, cs)
    ensures forall i :: 0 <= i < |cs| ==> 2 <= cs[i] < |t| && t[cs[i]] != 0
  {
    forall i | 0 <= i < |cs| ensures t[cs[i]] != 0 {
      assert i < |cs| - 1 ==> t[cs[i]] == cs[i + 1];
    }
  }

  /** A chain made longer by free clusters: as many fewer are free. */
  lemma LongerChain(t: seq<U32>, u: seq<U32>, cs: seq<nat>, ds: seq<nat>)
    requires |u| == |t| && cs <= ds && (cs == [] || IsChain(t, cs)) && (ds == [] || IsChain(u, ds))
    requires forall c :: 2 <= c < |t| && c !in ds ==> u[c] == t[c]
    requires forall c :: c in ds && c !in cs && 2 <= c < |t| ==> t[c] == 0
    ensures FreeCount(u) + |ds| == FreeCount(t) + |cs|
  {
    hide IsChain, FreeCount;
    ChainUsed(t, cs);
    ChainUsed(u, ds);
    var added := ds[|cs|..];
    assert forall i :: 0 <= i < |added| ==> added[i] == ds[|cs| + i];
    if ds != [] { AddedApart(u, cs, ds); }
    assert forall i :: 0 <= i < |added| ==> added[i] in ds;
    forall c | 2 <= c < |t| && c !in added ensures u[c] == 0 <==> t[c] == 0 {
      SplitMember(ds, |cs|, c);
    }
    TakenFromCount(t, u, added);
  }

  /** The clusters behind a part of a chain are not in that part, and distinct. */
  lemma AddedApart(u: seq<U32>, cs: seq<nat>, ds: seq<nat>)
    requires IsChain(u, ds) && cs <= ds
    ensures forall i :: |cs| <= i < |ds| ==> ds[i] !in cs
    ensures forall i, j :: 0 <= i < j < |ds| ==> ds[i] != ds[j]
  {
    forall i, j | 0 <= i < j < |ds| ensures ds[i] != ds[j] {
      ChainDistinct(u, ds, i, j);
    }
  }

  lemma SplitMember(ds: seq<nat>, n: nat, c: nat)
    requires n <= |ds|
    ensures c in ds <==> c in ds[..n] || c in ds[n..]
  {
    assert ds == ds[..n] + ds[n..];
  }

  /** The table with every cluster of `cs` cleared. */
  function Cleared(t: seq<U32>, cs: seq<nat>): (u: seq<U32>)
    ensures |u| == |t|
    ensures forall c :: 0 <= c < |t| ==> u[c] == if c in cs then 0 else t[c]
  {
    seq(|t|, c requires 0 <= c < |t| => if c in cs then 0 else t[c])
  }

  /** On a well-formed chain the loop frees exactly the clusters of the chain and succeeds. */
  lemma {:induction false} RemoveFromChain(a: Alloc, cs: seq<nat>)
    requires IsChain(a.t, cs) && |a.t| <= 0x1000_0000
    ensures RemoveFrom(a, cs[0]).1
    ensures RemoveFrom(a, cs[0]).0.t == Cleared(a.t, cs)
    ensures RemoveFrom(a, cs[0]).0.last == a.last
    decreases |cs|
  {
    var b := Release(a, cs[0]);
    if |cs| == 1 {
      assert b.t == Cleared(a.t, cs);
    } else {
      var rest := cs[1..];
      RestIsChain(a.t, cs);
      RemoveFromChain(b, rest);
      assert Cleared(b.t, rest) == Cleared(a.t, cs) by {
        assert cs == [cs[0]] + rest;
      }
    }
  }

  /** A count in range grows by the clusters of the chain, one out of range stays. */
  lemma {:induction false} RemoveFromFree(a: Alloc, cs: seq<nat>)
    requires IsChain(a.t, cs) && |a.t| <= 0x1000_0000
    ensures a.free + |cs| <= |a.t| - 2 ==> RemoveFrom(a, cs[0]).0.free == a.free + |cs|
    ensures a.free > |a.t| - 2 ==> RemoveFrom(a, cs[0]).0.free == a.free
    decreases |cs|
  {
    if |cs| > 1 {
      RestIsChain(a.t, cs);
      RemoveFromFree(Release(a, cs[0]), cs[1..]);
    }
  }

  /** Clearing its first cluster leaves the rest of a chain. */
  lemma RestIsChain(t: seq<U32>, cs: seq<nat>)
    requires IsChain(t, cs) && |cs| > 1
    ensures IsChain(t[cs[0] := 0], cs[1..]) && t[cs[0]] == cs[1] == cs[1..][0]
  {
    forall i | 1 <= i < |cs| ensures cs[i] != cs[0] { ChainDistinct(t, cs, 0, i); }
  }

  /** Removing keeps an exact count exact, on any table. */
  lemma {:induction false} RemoveFromCount(a: Alloc, c: nat)
    requires 2 <= c < |a.t| <= 0x1000_0000 && FreeOk(a)
    ensures FreeOk(RemoveFrom(a, c).0)
    decreases NonZeroFrom(a.t, 0)
  {
    var nxt := a.t[c];
    if nxt > 1 {
      NonZeroFromClear(a.t, 0, c);
      FreeFromUpdate(a.t, 2, c, 0);
      FreeFromBound(a.t, 2);
      FreeFromBound(a.t[c := 0], 2);
      var b := Release(a, c);
      assert FreeOk(b);
      if nxt < |a.t| {
        RemoveFromCount(b, nxt);
      }
    }
  }

  /** `remove_chain` on the part of a chain from its `m`-th cluster on: those clusters are freed, the
      one before becomes the end, nothing else changes. */
  lemma RemovePart(ty: FsType, a: Alloc, cs: seq<nat>, m: nat)
    requires TableOk(ty, a.t) && IsChain(a.t, cs) && m < |cs|
    ensures var (b, ok) := Remove(ty, a, cs[m], if m == 0 then 0 else cs[m - 1]);
            && ok && b.t == Cleared(if m == 0 then a.t else a.t[cs[m - 1] := EndValue(ty)], cs[m..])
            && (FreeOk(a) ==> FreeOk(b)) && b.last == a.last
  {
    var tail := cs[m..];
    if m == 0 {
      assert tail == cs;
      RemoveFromChain(a, cs);
      if FreeOk(a) {
        RemoveFromCount(a, cs[0]);
      }
    } else {
      EndValueIsEnd(ty, a.t);
      var p := cs[m - 1];
      var c := a.(t := a.t[p := EndValue(ty)]);
      CutTail(ty, a.t, cs, m);
      RemoveFromChain(c, tail);
      assert a.t[p] == cs[m];
      FreeFromUpdate(a.t, 2, p, EndValue(ty));
      if FreeOk(a) {
        RemoveFromCount(c, tail[0]);
      }
    }
  }

  lemma CutTail(ty: FsType, t: seq<U32>, cs: seq<nat>, m: nat)
    requires TableOk(ty, t) && IsChain(t, cs) && 0 < m < |cs|
    ensures IsChain(t[cs[m - 1] := EndValue(ty)], cs[m..])
  {
    var u, tail := t[cs[m - 1] := EndValue(ty)], cs[m..];
    forall i | 0 <= i < |tail| ensures u[tail[i]] == t[cs[m + i]] { ChainDistinct(t, cs, m - 1, m + i); }
    forall i | 0 <= i < |tail| - 1 ensures u[tail[i]] == tail[i + 1] { assert t[cs[m + i]] == cs[m + i + 1]; }
  }

  lemma TakeCount(ty: FsType, a: Alloc, clst: U32, ncl: U32)
    requires TableOk(ty, a.t) && FreeOk(a)
    requires 2 <= ncl < |a.t| && a.t[ncl] == 0 && a.free != 0
    requires clst == 0 || (2 <= clst < |a.t| && a.t[clst] != 0)
    ensures FreeOk(Take(ty, a, clst, ncl))
  {
    EndValueIsEnd(ty, a.t);
    FreeFromUpdate(a.t, 2, ncl, EndValue(ty));
    var t1 := a.t[ncl := EndValue(ty)];
    if clst != 0 {
      CutKeeps(ty, a.t, ncl);
      FreeFromUpdate(t1, 2, clst, FatTable.Cut(ty, ncl));
    }
    FreeFromBound(a.t, 2);
  }

  /** Cluster numbers fit in an entry. */
  lemma CutKeeps(ty: FsType, t: seq<U32>, c: nat)
    requires TableOk(ty, t) && c < |t|
    ensures FatTable.Cut(ty, c) == c
  {
  }
}
