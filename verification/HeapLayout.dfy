/** The heap of rtos/os_men.c as a sequence of blocks, lowest address first.

    A block is a header of `item` bytes followed by `size` payload bytes. The layout
    operations `Take` and `Release` say what one malloc and one free mean; they look at
    neighbours in the layout, never at a free list. Heap.dfy proves that the address
    comparisons and list surgery of the C code compute exactly these. */
module HeapLayout {
  import opened CBits

  /** MEN_ALLGN_BYTES, OS_MEN_ITEM_SIZE and OS_MEN_MIN_SIZE. */
  datatype Config = Config(align: nat, item: nat, min: nat) {
    ghost predicate Ok() {
      IsAlignment(align) && item >= 1 && item % align == 0
    }
  }

  datatype Block = Block(addr: int, size: int, used: bool)

  function End(c: Config, b: Block): int {
    b.addr + c.item + b.size
  }

  // ---- Well-formed layouts ----

  /** The address is aligned and the size is not negative. */
  ghost predicate Sound(c: Config, b: Block)
    requires c.Ok()
  {
    b.addr % c.align == 0 && b.size >= 0
  }

  /** The blocks are sound, fill [lo, hi) one after the other with no gap and no
      overlap, and no two free blocks touch. */
  ghost predicate WellFormed(c: Config, bs: seq<Block>, lo: int, hi: int) {
    && c.Ok()
    && if bs == [] then lo == hi
       else
         && Sound(c, bs[0]) && bs[0].addr == lo
         && (|bs| > 1 ==> bs[0].used || bs[1].used)
         && WellFormed(c, bs[1..], End(c, bs[0]), hi)
  }

  /** The end of the last block, `lo` when there is none. */
  function Top(c: Config, bs: seq<Block>, lo: int): int {
    if bs == [] then lo else End(c, bs[|bs| - 1])
  }

  predicate Joinable(l: seq<Block>, r: seq<Block>) {
    l == [] || r == [] || l[|l| - 1].used || r[0].used
  }

  lemma {:induction false} Join(c: Config, l: seq<Block>, r: seq<Block>, lo: int, hi: int)
    requires WellFormed(c, l, lo, Top(c, l, lo))
    requires WellFormed(c, r, Top(c, l, lo), hi)
    requires Joinable(l, r)
    ensures WellFormed(c, l + r, lo, hi)
  {
    if l == [] {
      assert l + r == r;
    } else {
      assert (l + r)[1..] == l[1..] + r;
      Join(c, l[1..], r, End(c, l[0]), hi);
    }
  }

  lemma SplitAt(bs: seq<Block>, k: nat)
    requires k < |bs|
    ensures bs == bs[..k] + ([bs[k]] + bs[k + 1..])
  {
  }

  /** Cuts a layout around block `k`. */
  lemma Around(c: Config, bs: seq<Block>, lo: int, hi: int, k: nat)
    requires WellFormed(c, bs, lo, hi) && k < |bs|
    ensures bs == bs[..k] + ([bs[k]] + bs[k + 1..])
    ensures WellFormed(c, bs[..k], lo, bs[k].addr) && Top(c, bs[..k], lo) == bs[k].addr
    ensures WellFormed(c, bs[k + 1..], End(c, bs[k]), hi)
    ensures Sound(c, bs[k])
    ensures k > 0 ==> End(c, bs[k - 1]) == bs[k].addr && (bs[k - 1].used || bs[k].used)
    ensures k + 1 < |bs| ==> End(c, bs[k]) == bs[k + 1].addr && (bs[k].used || bs[k + 1].used)
  {
    SplitAt(bs, k);
    CutAt(c, bs, lo, hi, k);
    if k > 0 {
      Adjacent(c, bs, lo, hi, k - 1);
    }
    if k + 1 < |bs| {
      Adjacent(c, bs, lo, hi, k);
    }
  }

  lemma {:induction false} CutAt(c: Config, bs: seq<Block>, lo: int, hi: int, k: nat)
    requires WellFormed(c, bs, lo, hi) && k < |bs|
    ensures WellFormed(c, bs[..k], lo, bs[k].addr)
    ensures WellFormed(c, bs[k + 1..], End(c, bs[k]), hi)
    ensures Sound(c, bs[k]) && (k == 0 ==> bs[k].addr == lo)
    decreases k
  {
    if k > 0 {
      var t := bs[1..];
      CutAt(c, t, End(c, bs[0]), hi, k - 1);
      assert bs[..k][1..] == t[..k - 1];
      assert bs[k + 1..] == t[k..];
    }
  }

  lemma {:induction false} Adjacent(c: Config, bs: seq<Block>, lo: int, hi: int, i: nat)
    requires WellFormed(c, bs, lo, hi) && i + 1 < |bs|
    ensures End(c, bs[i]) == bs[i + 1].addr && (bs[i].used || bs[i + 1].used)
    decreases i
  {
    if i > 0 {
      Adjacent(c, bs[1..], End(c, bs[0]), hi, i - 1);
    }
  }

  lemma {:induction false} WithinBounds(c: Config, bs: seq<Block>, lo: int, hi: int, i: nat)
    requires WellFormed(c, bs, lo, hi) && i < |bs|
    ensures lo <= bs[i].addr < End(c, bs[i]) <= hi
    decreases |bs|
  {
    if i > 0 {
      WithinBounds(c, bs[1..], End(c, bs[0]), hi, i - 1);
    } else if |bs| > 1 {
      WithinBounds(c, bs[1..], End(c, bs[0]), hi, 0);
    }
  }

  lemma {:induction false} Extent(c: Config, bs: seq<Block>, lo: int, hi: int)
    requires WellFormed(c, bs, lo, hi)
    ensures lo <= hi && (bs != [] <==> lo < hi)
  {
    if bs != [] {
      Extent(c, bs[1..], End(c, bs[0]), hi);
    }
  }

  lemma {:induction false} Ordered(c: Config, bs: seq<Block>, lo: int, hi: int, i: nat, j: nat)
    requires WellFormed(c, bs, lo, hi) && i < j < |bs|
    ensures End(c, bs[i]) <= bs[j].addr
  {
    if i > 0 {
      Ordered(c, bs[1..], End(c, bs[0]), hi, i - 1, j - 1);
    } else {
      WithinBounds(c, bs[1..], End(c, bs[0]), hi, j - 1);
    }
  }

  /** Every byte address of the heap lies in exactly one block. */
  lemma {:induction false} EveryByteInOneBlock(c: Config, bs: seq<Block>, lo: int, hi: int, x: int)
    returns (k: nat)
    requires WellFormed(c, bs, lo, hi) && lo <= x < hi
    ensures k < |bs| && bs[k].addr <= x < End(c, bs[k])
    ensures forall j :: 0 <= j < |bs| && bs[j].addr <= x < End(c, bs[j]) ==> j == k
    decreases |bs|
  {
    if x < End(c, bs[0]) {
      k := 0;
    } else {
      var k' := EveryByteInOneBlock(c, bs[1..], End(c, bs[0]), hi, x);
      k := k' + 1;
    }
    forall j: nat | j < |bs| && bs[j].addr <= x < End(c, bs[j])
      ensures j == k
    {
      if j < k {
        Ordered(c, bs, lo, hi, j, k);
      } else if k < j {
        Ordered(c, bs, lo, hi, k, j);
      }
    }
  }

  // ---- The free blocks and the live blocks of a layout ----

  function FreeOf(bs: seq<Block>): seq<Block> {
    if bs == [] then []
    else if bs[0].used then FreeOf(bs[1..])
    else [bs[0]] + FreeOf(bs[1..])
  }

  function LiveOf(bs: seq<Block>): seq<Block> {
    if bs == [] then []
    else if bs[0].used then [bs[0]] + LiveOf(bs[1..])
    else LiveOf(bs[1..])
  }

  lemma FreeCons(b: Block, r: seq<Block>)
    ensures FreeOf([b] + r) == if b.used then FreeOf(r) else [b] + FreeOf(r)
  {
    assert ([b] + r)[1..] == r;
  }

  lemma LiveCons(b: Block, r: seq<Block>)
    ensures LiveOf([b] + r) == if b.used then [b] + LiveOf(r) else LiveOf(r)
  {
    assert ([b] + r)[1..] == r;
  }

  lemma {:induction false} SplitFree(l: seq<Block>, r: seq<Block>)
    ensures FreeOf(l + r) == FreeOf(l) + FreeOf(r)
  {
    if l == [] {
      assert l + r == r;
    } else {
      assert (l + r)[1..] == l[1..] + r;
      SplitFree(l[1..], r);
    }
  }

  lemma {:induction false} SplitLive(l: seq<Block>, r: seq<Block>)
    ensures LiveOf(l + r) == LiveOf(l) + LiveOf(r)
  {
    if l == [] {
      assert l + r == r;
    } else {
      assert (l + r)[1..] == l[1..] + r;
      SplitLive(l[1..], r);
    }
  }

  lemma {:induction false} FreeMembers(bs: seq<Block>, b: Block)
    ensures b in FreeOf(bs) <==> b in bs && !b.used
  {
    if bs != [] {
      assert bs == [bs[0]] + bs[1..];
      FreeMembers(bs[1..], b);
    }
  }

  lemma {:induction false} LiveMembers(bs: seq<Block>, b: Block)
    ensures b in LiveOf(bs) <==> b in bs && b.used
  {
    if bs != [] {
      assert bs == [bs[0]] + bs[1..];
      LiveMembers(bs[1..], b);
    }
  }

  // ---- One malloc, one free, as layout changes ----

  /** First fit: the lowest free block that can hold `req` bytes, or |bs|. */
  function FirstFit(bs: seq<Block>, req: int): (k: nat)
    ensures k <= |bs|
    ensures k < |bs| ==> !bs[k].used && req <= bs[k].size
    ensures forall j :: 0 <= j < k ==> bs[j].used || bs[j].size < req
  {
    if bs == [] || (!bs[0].used && req <= bs[0].size) then 0
    else 1 + FirstFit(bs[1..], req)
  }

  /** Is the rest of a block big enough to be a block of its own? */
  predicate Splits(c: Config, b: Block, req: int) {
    b.size - req > c.item + c.min
  }

  /** The request is met by the block and, where the block is split, is an aligned size. */
  ghost predicate CanTake(c: Config, b: Block, req: int)
    requires c.Ok()
  {
    req <= b.size && (Splits(c, b, req) ==> req >= 0 && req % c.align == 0)
  }

  /** The block malloc hands out of free block `b`. */
  function Taken(c: Config, b: Block, req: int): Block {
    Block(b.addr, if Splits(c, b, req) then req else b.size, true)
  }

  /** The block split off behind it. */
  function Rest(c: Config, b: Block, req: int): Block {
    Block(b.addr + c.item + req, b.size - req - c.item, false)
  }

  /** Hands out free block `k`. */
  function Take(c: Config, bs: seq<Block>, k: nat, req: int): seq<Block>
    requires k < |bs|
  {
    var r := bs[k + 1..];
    bs[..k] + ([Taken(c, bs[k], req)] + if Splits(c, bs[k], req) then [Rest(c, bs[k], req)] + r else r)
  }

  /** The blocks that stay as they are to the left and to the right of a freed block. */
  function LeftOf(bs: seq<Block>, k: nat): seq<Block>
    requires k < |bs|
  {
    if k > 0 && !bs[k - 1].used then bs[..k - 1] else bs[..k]
  }

  function RightOf(bs: seq<Block>, k: nat): seq<Block>
    requires k < |bs|
  {
    if k + 1 < |bs| && !bs[k + 1].used then bs[k + 2..] else bs[k + 1..]
  }

  /** Block `k` fused with the free neighbours it has. */
  function Fused(c: Config, bs: seq<Block>, k: nat): Block
    requires k < |bs|
  {
    var addr := if k > 0 && !bs[k - 1].used then bs[k - 1].addr else bs[k].addr;
    var end := if k + 1 < |bs| && !bs[k + 1].used then End(c, bs[k + 1]) else End(c, bs[k]);
    Block(addr, end - addr - c.item, false)
  }

  /** Gives block `k` back. */
  function Release(c: Config, bs: seq<Block>, k: nat): seq<Block>
    requires k < |bs|
  {
    LeftOf(bs, k) + ([Fused(c, bs, k)] + RightOf(bs, k))
  }

  lemma Single(c: Config, b: Block)
    requires c.Ok() && Sound(c, b)
    ensures WellFormed(c, [b], b.addr, End(c, b))
  {
    assert [b][1..] == [];
  }

  lemma TakeKeepsWellFormed(c: Config, bs: seq<Block>, lo: int, hi: int, k: nat, req: int)
    requires WellFormed(c, bs, lo, hi) && k < |bs| && !bs[k].used
    requires CanTake(c, bs[k], req)
    ensures WellFormed(c, Take(c, bs, k, req), lo, hi)
  {
    Around(c, bs, lo, hi, k);
    var b, l, r := bs[k], bs[..k], bs[k + 1..];
    var t := Taken(c, b, req);
    Single(c, t);
    if Splits(c, b, req) {
      SumOfMultiples(b.addr, c.item, c.align);
      SumOfMultiples(b.addr + c.item, req, c.align);
      var rest := Rest(c, b, req);
      Single(c, rest);
      Join(c, [rest], r, rest.addr, hi);
      Join(c, [t], [rest] + r, b.addr, hi);
      Join(c, l, [t] + ([rest] + r), lo, hi);
    } else {
      Join(c, [t], r, b.addr, hi);
      Join(c, l, [t] + r, lo, hi);
    }
  }

  lemma LeftPart(c: Config, bs: seq<Block>, lo: int, hi: int, k: nat)
    requires WellFormed(c, bs, lo, hi) && k < |bs| && bs[k].used
    ensures var l, a := LeftOf(bs, k), Fused(c, bs, k).addr;
            && WellFormed(c, l, lo, a) && Top(c, l, lo) == a && a % c.align == 0
            && a <= bs[k].addr && (l != [] ==> l[|l| - 1].used)
  {
    Around(c, bs, lo, hi, k);
    if k > 0 && !bs[k - 1].used {
      Around(c, bs, lo, hi, k - 1);
    }
  }

  lemma RightPart(c: Config, bs: seq<Block>, lo: int, hi: int, k: nat)
    requires WellFormed(c, bs, lo, hi) && k < |bs| && bs[k].used
    ensures WellFormed(c, RightOf(bs, k), End(c, Fused(c, bs, k)), hi)
    ensures End(c, bs[k]) <= End(c, Fused(c, bs, k))
    ensures RightOf(bs, k) != [] ==> RightOf(bs, k)[0].used
  {
    Around(c, bs, lo, hi, k);
    if k + 1 < |bs| && !bs[k + 1].used {
      Around(c, bs, lo, hi, k + 1);
      assert bs[(k + 1) + 1..] == RightOf(bs, k);
    } else {
      assert bs[k + 1..] == RightOf(bs, k);
    }
  }

  lemma ReleaseKeepsWellFormed(c: Config, bs: seq<Block>, lo: int, hi: int, k: nat)
    requires WellFormed(c, bs, lo, hi) && k < |bs| && bs[k].used
    ensures WellFormed(c, Release(c, bs, k), lo, hi)
  {
    LeftPart(c, bs, lo, hi, k);
    RightPart(c, bs, lo, hi, k);
    Around(c, bs, lo, hi, k);
    var l, f, r := LeftOf(bs, k), Fused(c, bs, k), RightOf(bs, k);
    Single(c, f);
    Join(c, [f], r, f.addr, hi);
    Join(c, l, [f] + r, lo, hi);
  }

  lemma LiveAround(l: seq<Block>, b: Block, r: seq<Block>)
    ensures LiveOf(l + ([b] + r)) == LiveOf(l) + (if b.used then [b] + LiveOf(r) else LiveOf(r))
  {
    SplitLive(l, [b] + r);
    LiveCons(b, r);
  }

  /** Take adds the block it hands out, and nothing else, to the live blocks. */
  lemma TakeLive(c: Config, bs: seq<Block>, k: nat, req: int)
    requires k < |bs| && !bs[k].used
    ensures Take(c, bs, k, req)[..k] == bs[..k] && Take(c, bs, k, req)[k] == Taken(c, bs[k], req)
    ensures LiveOf(bs) == LiveOf(bs[..k]) + LiveOf(bs[k + 1..])
    ensures LiveOf(Take(c, bs, k, req)) == LiveOf(bs[..k]) + ([Taken(c, bs[k], req)] + LiveOf(bs[k + 1..]))
  {
    var b, l, r, t := bs[k], bs[..k], bs[k + 1..], Taken(c, bs[k], req);
    assert bs == l + ([b] + r);
    LiveAround(l, b, r);
    if Splits(c, b, req) {
      LiveAround(l, t, [Rest(c, b, req)] + r);
      LiveCons(Rest(c, b, req), r);
    } else {
      LiveAround(l, t, r);
    }
  }

  lemma LeftLive(bs: seq<Block>, k: nat)
    requires k < |bs|
    ensures LiveOf(LeftOf(bs, k)) == LiveOf(bs[..k])
  {
    if k > 0 && !bs[k - 1].used {
      assert bs[..k] == bs[..k - 1] + ([bs[k - 1]] + []);
      LiveAround(bs[..k - 1], bs[k - 1], []);
    }
  }

  lemma RightLive(bs: seq<Block>, k: nat)
    requires k < |bs|
    ensures LiveOf(RightOf(bs, k)) == LiveOf(bs[k + 1..])
  {
    if k + 1 < |bs| && !bs[k + 1].used {
      assert bs[k + 1..] == [bs[k + 1]] + bs[k + 2..];
      LiveCons(bs[k + 1], bs[k + 2..]);
    }
  }

  /** Release removes the block it is given, and nothing else, from the live blocks. */
  lemma ReleaseLive(c: Config, bs: seq<Block>, k: nat)
    requires k < |bs| && bs[k].used
    ensures LiveOf(bs) == LiveOf(bs[..k]) + ([bs[k]] + LiveOf(bs[k + 1..]))
    ensures LiveOf(Release(c, bs, k)) == LiveOf(bs[..k]) + LiveOf(bs[k + 1..])
  {
    assert bs == bs[..k] + ([bs[k]] + bs[k + 1..]);
    LiveAround(bs[..k], bs[k], bs[k + 1..]);
    LiveAround(LeftOf(bs, k), Fused(c, bs, k), RightOf(bs, k));
    LeftLive(bs, k);
    RightLive(bs, k);
  }

  // ---- The canonical form ----

  lemma FirstLiveAbove(c: Config, bs: seq<Block>, lo: int, hi: int)
    requires WellFormed(c, bs, lo, hi) && bs != [] && !bs[0].used
    ensures LiveOf(bs) == [] ==> bs == [Block(lo, hi - lo - c.item, false)]
    ensures LiveOf(bs) != [] ==> LiveOf(bs)[0].addr == End(c, bs[0])
  {
    var t := bs[1..];
    if t != [] {
      assert t[0] == bs[1] && t[0].used;
      assert LiveOf(t) == [t[0]] + LiveOf(t[1..]);
    } else {
      assert bs == [bs[0]];
    }
  }

  /** The live blocks determine the layout: two well-formed layouts of the same
      heap with the same live blocks have the same free blocks too. */
  lemma {:induction false} LiveBlocksDetermineLayout(c: Config, bs: seq<Block>, bs': seq<Block>, lo: int, hi: int)
    requires WellFormed(c, bs, lo, hi) && WellFormed(c, bs', lo, hi)
    requires LiveOf(bs) == LiveOf(bs')
    ensures bs == bs'
    decreases |bs|
  {
    Extent(c, bs, lo, hi);
    Extent(c, bs', lo, hi);
    if bs != [] {
      HeadDetermined(c, bs, bs', lo, hi);
      LiveBlocksDetermineLayout(c, bs[1..], bs'[1..], End(c, bs[0]), hi);
      assert bs == [bs[0]] + bs[1..] && bs' == [bs'[0]] + bs'[1..];
    }
  }

  lemma HeadDetermined(c: Config, bs: seq<Block>, bs': seq<Block>, lo: int, hi: int)
    requires WellFormed(c, bs, lo, hi) && WellFormed(c, bs', lo, hi)
    requires bs != [] && bs' != [] && LiveOf(bs) == LiveOf(bs')
    ensures bs[0] == bs'[0] && LiveOf(bs[1..]) == LiveOf(bs'[1..])
  {
    WithinBounds(c, bs, lo, hi, 0);
    WithinBounds(c, bs', lo, hi, 0);
    if !bs[0].used {
      FirstLiveAbove(c, bs, lo, hi);
    }
    if !bs'[0].used {
      FirstLiveAbove(c, bs', lo, hi);
    }
    if bs[0].used && bs'[0].used {
      assert LiveOf(bs) == [bs[0]] + LiveOf(bs[1..]);
      assert LiveOf(bs') == [bs'[0]] + LiveOf(bs'[1..]);
      assert LiveOf(bs)[0] == bs[0] && LiveOf(bs)[1..] == LiveOf(bs[1..]);
      assert LiveOf(bs')[0] == bs'[0] && LiveOf(bs')[1..] == LiveOf(bs'[1..]);
    }
  }

  // ---- Accounting ----

  function Payload(bs: seq<Block>): int {
    if bs == [] then 0 else bs[0].size + Payload(bs[1..])
  }

  /** Free payload + live payload + one header per block is the heap size. */
  lemma {:induction false} Accounting(c: Config, bs: seq<Block>, lo: int, hi: int)
    requires WellFormed(c, bs, lo, hi)
    ensures Payload(FreeOf(bs)) + Payload(LiveOf(bs)) + c.item * |bs| == hi - lo
    ensures |bs| == |FreeOf(bs)| + |LiveOf(bs)|
  {
    if bs != [] {
      Accounting(c, bs[1..], End(c, bs[0]), hi);
      MulStep(c.item, |bs| - 1);
      assert bs[0].used ==> LiveOf(bs)[1..] == LiveOf(bs[1..]);
      assert !bs[0].used ==> FreeOf(bs)[1..] == FreeOf(bs[1..]);
    }
  }

  lemma MulStep(a: int, n: int)
    ensures a * (n + 1) == a * n + a
  {
  }

  // ---- Where a request can be placed ----

  /** A header and `req` payload bytes placed at `a` lie in the heap and overlap
      no live block. */
  ghost predicate Fits(c: Config, bs: seq<Block>, lo: int, hi: int, a: int, req: int) {
    && lo <= a && a + c.item + req <= hi
    && forall i :: 0 <= i < |bs| && bs[i].used ==> a + c.item + req <= bs[i].addr || End(c, bs[i]) <= a
  }

  lemma FitsLiesInFreeBlock(c: Config, bs: seq<Block>, lo: int, hi: int, a: int, req: int)
    returns (j: nat)
    requires WellFormed(c, bs, lo, hi) && req >= 0
    requires Fits(c, bs, lo, hi, a, req)
    ensures j < |bs| && !bs[j].used && bs[j].addr <= a && req <= bs[j].size
  {
    j := EveryByteInOneBlock(c, bs, lo, hi, a);
    assert !bs[j].used;
    Around(c, bs, lo, hi, j);
    if j + 1 < |bs| {
      WithinBounds(c, bs, lo, hi, j + 1);
    } else {
      assert bs[j + 1..] == [];
    }
  }

  /** First fit is complete and optimal: it fails exactly when the request fits
      nowhere between the live blocks, and otherwise picks the lowest address at
      which it fits. */
  lemma FirstFitIsLowestPlace(c: Config, bs: seq<Block>, lo: int, hi: int, req: int)
    requires WellFormed(c, bs, lo, hi) && req >= 0
    ensures var k := FirstFit(bs, req);
            if k == |bs| then
              forall a :: !Fits(c, bs, lo, hi, a, req)
            else
              && Fits(c, bs, lo, hi, bs[k].addr, req)
              && forall a :: Fits(c, bs, lo, hi, a, req) ==> bs[k].addr <= a
  {
    var k := FirstFit(bs, req);
    forall a | Fits(c, bs, lo, hi, a, req)
      ensures k < |bs| && bs[k].addr <= a
    {
      var j := FitsLiesInFreeBlock(c, bs, lo, hi, a, req);
      assert k <= j;
      if k < j {
        Ordered(c, bs, lo, hi, k, j);
        WithinBounds(c, bs, lo, hi, k);
      }
    }
    if k < |bs| {
      FitsInside(c, bs, lo, hi, k, req);
    }
  }

  /** At the address of a free block fits just what the block holds. */
  lemma FitsAtFreeIff(c: Config, bs: seq<Block>, lo: int, hi: int, k: nat, n: int)
    requires WellFormed(c, bs, lo, hi) && k < |bs| && !bs[k].used && n >= 0
    ensures Fits(c, bs, lo, hi, bs[k].addr, n) <==> n <= bs[k].size
  {
    WithinBounds(c, bs, lo, hi, k);
    if Fits(c, bs, lo, hi, bs[k].addr, n) {
      Around(c, bs, lo, hi, k);
      if k + 1 < |bs| {
        WithinBounds(c, bs, lo, hi, k + 1);
      } else {
        assert bs[k + 1..] == [];
      }
    }
    if n <= bs[k].size {
      FitsInside(c, bs, lo, hi, k, n);
    }
  }

  lemma FitsInside(c: Config, bs: seq<Block>, lo: int, hi: int, k: nat, n: int)
    requires WellFormed(c, bs, lo, hi) && k < |bs| && !bs[k].used && n <= bs[k].size
    ensures Fits(c, bs, lo, hi, bs[k].addr, n)
  {
    WithinBounds(c, bs, lo, hi, k);
    forall i | 0 <= i < |bs| && bs[i].used
      ensures bs[k].addr + c.item + n <= bs[i].addr || End(c, bs[i]) <= bs[k].addr
    {
      if i < k {
        Ordered(c, bs, lo, hi, i, k);
      } else {
        Ordered(c, bs, lo, hi, k, i);
      }
    }
  }
}
