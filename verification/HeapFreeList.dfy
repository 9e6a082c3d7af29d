/** The address-ordered free list of rtos/os_men.c, as the sequence of the free blocks
    on it, and its correspondence with the layout of HeapLayout.dfy. */
module HeapFreeList {
  import opened HeapLayout

  ghost predicate Sorted(fl: seq<Block>) {
    forall i, j :: 0 <= i < j < |fl| ==> fl[i].addr < fl[j].addr
  }

  /** The first block on the list not below `addr`. */
  function Position(fl: seq<Block>, addr: int): (p: nat)
    ensures p <= |fl|
    ensures forall i :: 0 <= i < p ==> fl[i].addr < addr
    ensures p < |fl| ==> addr <= fl[p].addr
  {
    if fl == [] || addr <= fl[0].addr then 0 else 1 + Position(fl[1..], addr)
  }

  /** men_item_can_merge */
  predicate CanMerge(c: Config, pre: Block, after: Block) {
    End(c, pre) == after.addr
  }

  /** men_item_merge */
  function Merge(c: Config, pre: Block, after: Block): Block {
    pre.(size := pre.size + (after.size + c.item))
  }

  /** os_insert_to_men_list with the place already found. */
  function InsertAt(c: Config, fl: seq<Block>, p: nat, b: Block): seq<Block>
    requires p <= |fl|
  {
    var left := p > 0 && CanMerge(c, fl[p - 1], b);
    var b1 := if left then Merge(c, fl[p - 1], b) else b;
    var right := p < |fl| && CanMerge(c, b1, fl[p]);
    var b2 := if right then Merge(c, b1, fl[p]) else b1;
    fl[..if left then p - 1 else p] + ([b2] + fl[if right then p + 1 else p..])
  }

  function Insert(c: Config, fl: seq<Block>, b: Block): seq<Block> {
    InsertAt(c, fl, Position(fl, b.addr), b)
  }

  lemma FreeBounds(c: Config, bs: seq<Block>, lo: int, hi: int, i: nat)
    requires WellFormed(c, bs, lo, hi) && i < |FreeOf(bs)|
    ensures lo <= FreeOf(bs)[i].addr < End(c, FreeOf(bs)[i]) <= hi
  {
    var f := FreeOf(bs)[i];
    FreeMembers(bs, f);
    var k :| 0 <= k < |bs| && bs[k] == f;
    WithinBounds(c, bs, lo, hi, k);
  }

  /** The free list of a well-formed heap is in strictly increasing address order. */
  lemma {:induction false} FreeListSorted(c: Config, bs: seq<Block>, lo: int, hi: int)
    requires WellFormed(c, bs, lo, hi)
    ensures Sorted(FreeOf(bs))
  {
    if bs != [] {
      var t := bs[1..];
      FreeListSorted(c, t, End(c, bs[0]), hi);
      if !bs[0].used {
        forall j | 0 < j < |FreeOf(bs)|
          ensures bs[0].addr < FreeOf(bs)[j].addr
        {
          FreeBounds(c, t, End(c, bs[0]), hi, j - 1);
        }
      }
    }
  }

  lemma LastFree(c: Config, l: seq<Block>, lo: int, m: int)
    requires WellFormed(c, l, lo, m) && FreeOf(l) != []
    ensures var fs := FreeOf(l);
            var last := fs[|fs| - 1];
            End(c, last) <= m && (End(c, last) == m <==> !l[|l| - 1].used)
  {
    var n := |l| - 1;
    Around(c, l, lo, m, n);
    assert l == l[..n] + [l[n]];
    SplitFree(l[..n], [l[n]]);
    WithinBounds(c, l, lo, m, n);
    assert l[n + 1..] == [];
    if l[n].used {
      assert FreeOf([l[n]]) == [];
      assert FreeOf(l) == FreeOf(l[..n]);
      FreeBounds(c, l[..n], lo, l[n].addr, |FreeOf(l)| - 1);
    } else {
      assert FreeOf([l[n]]) == [l[n]];
    }
  }

  lemma FirstFree(c: Config, r: seq<Block>, m: int, hi: int)
    requires WellFormed(c, r, m, hi) && FreeOf(r) != []
    ensures FreeOf(r)[0].addr >= m && (FreeOf(r)[0].addr == m <==> !r[0].used)
  {
    if r[0].used {
      Extent(c, [r[0]], m, End(c, r[0])) by { Single(c, r[0]); }
      FreeBounds(c, r[1..], End(c, r[0]), hi, 0);
    }
  }

  /** InsertAt between the two halves of a list. */
  function InsertJoin(c: Config, a: seq<Block>, b: Block, r: seq<Block>): seq<Block> {
    var left := a != [] && CanMerge(c, a[|a| - 1], b);
    var b1 := if left then Merge(c, a[|a| - 1], b) else b;
    var right := r != [] && CanMerge(c, b1, r[0]);
    var b2 := if right then Merge(c, b1, r[0]) else b1;
    (if left then a[..|a| - 1] else a) + ([b2] + if right then r[1..] else r)
  }

  lemma InsertAtIsJoin(c: Config, a: seq<Block>, b: Block, r: seq<Block>)
    ensures InsertAt(c, a + r, |a|, b) == InsertJoin(c, a, b, r)
  {
    var fl, p := a + r, |a|;
    assert fl[..p] == a && fl[p..] == r;
    assert p > 0 ==> fl[p - 1] == a[p - 1] && fl[..p - 1] == a[..p - 1];
    assert r != [] ==> fl[p] == r[0] && fl[p + 1..] == r[1..];
  }

  lemma PositionBetween(a: seq<Block>, addr: int, r: seq<Block>)
    requires forall i :: 0 <= i < |a| ==> a[i].addr < addr
    requires r != [] ==> addr <= r[0].addr
    ensures Position(a + r, addr) == |a|
  {
    var fl := a + r;
    assert forall i :: 0 <= i < |a| ==> fl[i] == a[i];
    assert r != [] ==> fl[|a|] == r[0];
  }

  /** What inserting `b` between the free blocks of `l` and `r` does to the list. */
  lemma InsertBetween(c: Config, l: seq<Block>, lo: int, m1: int, b: Block, r: seq<Block>, m2: int, hi: int)
    requires WellFormed(c, l, lo, m1) && WellFormed(c, r, m2, hi)
    requires m1 <= b.addr && b.size >= 0 && End(c, b) <= m2
    ensures Insert(c, FreeOf(l) + FreeOf(r), b) == InsertJoin(c, FreeOf(l), b, FreeOf(r))
    ensures FreeOf(l) != [] ==> (CanMerge(c, FreeOf(l)[|FreeOf(l)| - 1], b) <==> m1 == b.addr && !l[|l| - 1].used)
    ensures FreeOf(r) != [] ==> (CanMerge(c, b, FreeOf(r)[0]) <==> m2 == End(c, b) && !r[0].used)
  {
    var a, z := FreeOf(l), FreeOf(r);
    forall i: nat | i < |a|
      ensures a[i].addr < b.addr
    {
      FreeBounds(c, l, lo, m1, i);
    }
    if a != [] {
      LastFree(c, l, lo, m1);
    }
    if z != [] {
      FirstFree(c, r, m2, hi);
    }
    PositionBetween(a, b.addr, z);
    InsertAtIsJoin(c, a, b, z);
  }

  /** Inserting the remainder of a split never merges anything. */
  lemma InsertMatchesTake(c: Config, bs: seq<Block>, lo: int, hi: int, k: nat, req: int)
    requires WellFormed(c, bs, lo, hi) && k < |bs| && !bs[k].used
    requires CanTake(c, bs[k], req) && Splits(c, bs[k], req)
    ensures Insert(c, FreeOf(bs[..k]) + FreeOf(bs[k + 1..]), Rest(c, bs[k], req)) == FreeOf(Take(c, bs, k, req))
  {
    var l, b, r := bs[..k], bs[k], bs[k + 1..];
    var t, rest := Taken(c, b, req), Rest(c, b, req);
    Around(c, bs, lo, hi, k);
    InsertBetween(c, l, lo, b.addr, rest, r, End(c, b), hi);
    SplitFree(l, [t] + ([rest] + r));
    FreeCons(t, [rest] + r);
    FreeCons(rest, r);
  }

  lemma TakeWithoutSplit(c: Config, bs: seq<Block>, k: nat, req: int)
    requires k < |bs| && !bs[k].used && !Splits(c, bs[k], req)
    ensures FreeOf(Take(c, bs, k, req)) == FreeOf(bs[..k]) + FreeOf(bs[k + 1..])
  {
    SplitFree(bs[..k], [Taken(c, bs[k], req)] + bs[k + 1..]);
    FreeCons(Taken(c, bs[k], req), bs[k + 1..]);
  }

  lemma FreeAround(l: seq<Block>, b: Block, r: seq<Block>)
    ensures FreeOf(l + ([b] + r)) == FreeOf(l) + (if b.used then FreeOf(r) else [b] + FreeOf(r))
  {
    SplitFree(l, [b] + r);
    FreeCons(b, r);
  }

  predicate FreeBefore(bs: seq<Block>, k: nat)
    requires k < |bs|
  {
    k > 0 && !bs[k - 1].used
  }

  predicate FreeAfter(bs: seq<Block>, k: nat)
    requires k < |bs|
  {
    k + 1 < |bs| && !bs[k + 1].used
  }

  lemma LeftFree(bs: seq<Block>, k: nat)
    requires k < |bs|
    ensures var a := FreeOf(bs[..k]);
            if FreeBefore(bs, k) then
              a != [] && a[|a| - 1] == bs[k - 1] && a[..|a| - 1] == FreeOf(LeftOf(bs, k))
            else
              a == FreeOf(LeftOf(bs, k))
  {
    if FreeBefore(bs, k) {
      assert bs[..k] == bs[..k - 1] + ([bs[k - 1]] + []);
      FreeAround(bs[..k - 1], bs[k - 1], []);
    }
  }

  lemma RightFree(bs: seq<Block>, k: nat)
    requires k < |bs|
    ensures var z := FreeOf(bs[k + 1..]);
            if FreeAfter(bs, k) then
              z != [] && z[0] == bs[k + 1] && z[1..] == FreeOf(RightOf(bs, k))
            else
              z == FreeOf(RightOf(bs, k))
  {
    if FreeAfter(bs, k) {
      assert bs[k + 1..] == [bs[k + 1]] + bs[k + 2..];
      FreeCons(bs[k + 1], bs[k + 2..]);
    }
  }

  /** The four outcomes of the two merge tests. */
  lemma JoinCases(c: Config, a: seq<Block>, b: Block, z: seq<Block>, a': seq<Block>, f: Block, z': seq<Block>)
    requires !b.used && !f.used
    requires if a != [] && CanMerge(c, a[|a| - 1], b) then
               a' == a[..|a| - 1] && f.addr == a[|a| - 1].addr && !a[|a| - 1].used
             else
               a' == a && f.addr == b.addr
    requires if z != [] && CanMerge(c, b, z[0]) then
               z' == z[1..] && End(c, f) == End(c, z[0])
             else
               z' == z && End(c, f) == End(c, b)
    ensures InsertJoin(c, a, b, z) == a' + ([f] + z')
  {
  }

  /** The four-way merge of the C code, driven by addresses on the free list, is the
      fusion with free neighbours in the layout. */
  lemma InsertMatchesRelease(c: Config, bs: seq<Block>, lo: int, hi: int, k: nat)
    requires WellFormed(c, bs, lo, hi) && k < |bs| && bs[k].used
    ensures Insert(c, FreeOf(bs), bs[k].(used := false)) == FreeOf(Release(c, bs, k))
  {
    NeighboursOnList(c, bs, lo, hi, k);
    LeftFree(bs, k);
    RightFree(bs, k);
    JoinCases(c, FreeOf(bs[..k]), bs[k].(used := false), FreeOf(bs[k + 1..]),
              FreeOf(LeftOf(bs, k)), Fused(c, bs, k), FreeOf(RightOf(bs, k)));
    FreeAround(LeftOf(bs, k), Fused(c, bs, k), RightOf(bs, k));
  }

  lemma NeighboursOnList(c: Config, bs: seq<Block>, lo: int, hi: int, k: nat)
    requires WellFormed(c, bs, lo, hi) && k < |bs| && bs[k].used
    ensures var b := bs[k].(used := false);
            Insert(c, FreeOf(bs), b) == InsertJoin(c, FreeOf(bs[..k]), b, FreeOf(bs[k + 1..]))
    ensures var a, b := FreeOf(bs[..k]), bs[k].(used := false);
            FreeBefore(bs, k) <==> a != [] && CanMerge(c, a[|a| - 1], b)
    ensures var z, b := FreeOf(bs[k + 1..]), bs[k].(used := false);
            FreeAfter(bs, k) <==> z != [] && CanMerge(c, b, z[0])
  {
    Around(c, bs, lo, hi, k);
    FreeAround(bs[..k], bs[k], bs[k + 1..]);
    InsertBetween(c, bs[..k], lo, bs[k].addr, bs[k].(used := false), bs[k + 1..], End(c, bs[k]), hi);
    LeftFree(bs, k);
    RightFree(bs, k);
  }

  // ---- First fit on the list is first fit in the layout ----

  function FirstFitList(fl: seq<Block>, req: int): (p: nat)
    ensures p <= |fl|
    ensures p < |fl| ==> req <= fl[p].size
    ensures forall i :: 0 <= i < p ==> fl[i].size < req
  {
    if fl == [] || req <= fl[0].size then 0 else 1 + FirstFitList(fl[1..], req)
  }

  lemma {:induction false} FirstFitMatches(bs: seq<Block>, req: int)
    ensures var k, p := FirstFit(bs, req), FirstFitList(FreeOf(bs), req);
            && (k == |bs| <==> p == |FreeOf(bs)|)
            && (k < |bs| ==> FreeOf(bs)[p] == bs[k] && p == |FreeOf(bs[..k])|)
  {
    if bs != [] && (bs[0].used || bs[0].size < req) {
      FirstFitMatches(bs[1..], req);
      FirstFitBehind(bs, req);
    }
  }

  /** Both searches pass over a first block that does not fit. */
  lemma FirstFitBehind(bs: seq<Block>, req: int)
    requires bs != [] && (bs[0].used || bs[0].size < req)
    ensures var t := bs[1..];
            && FirstFit(bs, req) == 1 + FirstFit(t, req)
            && FreeOf(bs) == (if bs[0].used then FreeOf(t) else [bs[0]] + FreeOf(t))
            && FirstFitList(FreeOf(bs), req) == FirstFitList(FreeOf(t), req) + (if bs[0].used then 0 else 1)
    ensures var k := FirstFit(bs[1..], req);
            |FreeOf(bs[..k + 1])| == |FreeOf(bs[1..][..k])| + (if bs[0].used then 0 else 1)
  {
    var t, k := bs[1..], FirstFit(bs[1..], req);
    if !bs[0].used {
      assert FreeOf(bs)[1..] == FreeOf(t);
    }
    assert bs[..k + 1] == [bs[0]] + t[..k];
    FreeCons(bs[0], t[..k]);
  }
}
