/** rtos/os_men.c: the allocator as it runs, on headers in memory and a free list of
    their addresses. `blocks` is the layout these represent; every method is proved
    to change it as HeapSpec.dfy says. */
module Heap {
  import opened CBits
  import opened OsList
  import opened HeapLayout
  import opened HeapFreeList
  import HeapSpec

  /** The header fields of os_men_item_t other than the list links. */
  datatype Header = Header(used: bool, size: int)

  /** `list` holds the addresses of the free blocks `fl`, whose headers are in memory. */
  ghost predicate Linked(headers: map<int, Header>, list: seq<int>, fl: seq<Block>) {
    && |list| == |fl|
    && forall i :: 0 <= i < |fl| ==>
         && list[i] == fl[i].addr && !fl[i].used
         && list[i] in headers && headers[list[i]] == Header(false, fl[i].size)
  }

  ghost predicate LiveHeaders(headers: map<int, Header>, live: seq<Block>) {
    forall b :: b in live ==> b.addr in headers && headers[b.addr] == Header(true, b.size)
  }

  ghost predicate IsHeader(headers: map<int, Header>, item: int, b: Block) {
    b.addr == item && !b.used && item in headers && headers[item] == Header(false, b.size)
  }

  /** Only `item` and headers on the free list were written. */
  ghost predicate OnlyChanged(before: map<int, Header>, after: map<int, Header>, list: seq<int>, item: int) {
    && after.Keys == before.Keys
    && forall a :: a in before && a != item && a !in list ==> after[a] == before[a]
  }

  /** Replaces the list entries from `q` to `q'` by the single block `b`. */
  lemma Splice(h: map<int, Header>, list: seq<int>, fl: seq<Block>, h': map<int, Header>, q: nat, q': nat, b: Block)
    requires Linked(h, list, fl) && q <= q' <= |fl|
    requires IsHeader(h', b.addr, b)
    requires forall i :: 0 <= i < |fl| && !(q <= i < q') ==> list[i] in h' && h'[list[i]] == h[list[i]]
    ensures Linked(h', list[..q] + ([b.addr] + list[q'..]), fl[..q] + ([b] + fl[q'..]))
  {
  }

  /** Taking entry `p` off the list. */
  lemma WithoutEntry(h: map<int, Header>, list: seq<int>, fl: seq<Block>, p: nat)
    requires Linked(h, list, fl) && Sorted(fl) && p < |fl|
    ensures list[p] in list && RemoveItem(list, list[p]) == list[..p] + list[p + 1..]
    ensures ItemPre(list, list[p]) == if p == 0 then None else Some(fl[p - 1].addr)
    ensures var fl' := fl[..p] + fl[p + 1..];
            && Linked(h, RemoveItem(list, list[p]), fl') && Sorted(fl')
            && forall i :: 0 <= i < |fl'| ==> fl'[i].addr != list[p]
  {
    OpsAt(list, p, 0);
  }

  /** Overwriting the header at `a`, which is not on the list, leaves it linked. */
  lemma OffListHeader(h: map<int, Header>, list: seq<int>, fl: seq<Block>, a: int, x: Header)
    requires Linked(h, list, fl) && forall i :: 0 <= i < |fl| ==> fl[i].addr != a
    ensures Linked(h[a := x], list, fl)
  {
  }

  /** Fusing the block with the one below it, off the list. */
  lemma MergedBelow(c: Config, h: map<int, Header>, list: seq<int>, fl: seq<Block>, p: nat, b: Block)
    requires Linked(h, list, fl) && Sorted(fl) && 0 < p < |fl| && CanMerge(c, fl[p - 1], b)
    requires IsHeader(h, b.addr, b) && forall i :: 0 <= i < |fl| ==> fl[i].addr != b.addr
    ensures var low, fl' := list[p - 1], fl[..p - 1] + fl[p..];
            var h' := h[low := h[low].(size := h[low].size + (h[b.addr].size + c.item))];
            && Linked(h', RemoveItem(list, low), fl') && Sorted(fl')
            && IsHeader(h', low, Merge(c, fl[p - 1], b))
            && forall i :: 0 <= i < |fl'| ==> fl'[i].addr != low
  {
    WithoutEntry(h, list, fl, p - 1);
    var low := list[p - 1];
    OffListHeader(h, RemoveItem(list, low), fl[..p - 1] + fl[p..], low,
                  h[low].(size := h[low].size + (h[b.addr].size + c.item)));
  }

  /** Merging downwards and then upwards is InsertAt. */
  lemma InsertInSteps(c: Config, fl: seq<Block>, p: nat, b: Block, fl': seq<Block>, p': nat, b': Block)
    requires p < |fl|
    requires if p > 0 && CanMerge(c, fl[p - 1], b) then
               p' == p - 1 && fl' == fl[..p - 1] + fl[p..] && b' == Merge(c, fl[p - 1], b)
             else
               p' == p && fl' == fl && b' == b
    ensures p' < |fl'| && fl'[p'] == fl[p]
    ensures InsertAt(c, fl, p, b)
            == if CanMerge(c, b', fl[p]) then fl'[..p'] + ([Merge(c, b', fl[p])] + fl'[p' + 1..])
               else fl'[..p'] + ([b'] + fl'[p'..])
  {
    assert fl'[..p'] == fl[..p'] && fl'[p'..] == fl[p..] && fl'[p' + 1..] == fl[p + 1..];
  }

  /** Taking free block `k` off the list. */
  lemma Unlink(c: Config, h: map<int, Header>, list: seq<int>, bs: seq<Block>, lo: int, hi: int, k: nat)
    requires WellFormed(c, bs, lo, hi) && k < |bs| && !bs[k].used
    requires Linked(h, list, FreeOf(bs))
    ensures bs[k].addr in list && bs[k].addr in h && h[bs[k].addr] == Header(false, bs[k].size)
    ensures Linked(h, RemoveItem(list, bs[k].addr), FreeOf(bs[..k]) + FreeOf(bs[k + 1..]))
    ensures forall a :: a in RemoveItem(list, bs[k].addr) ==> a in list
  {
    var p := |FreeOf(bs[..k])|;
    TakeOffList(bs, k);
    FreeListSorted(c, bs, lo, hi);
    OpsAt(list, p, 0);
    LinkedWithout(h, list, FreeOf(bs), p);
  }

  lemma LinkedWithout(h: map<int, Header>, list: seq<int>, fl: seq<Block>, p: nat)
    requires Linked(h, list, fl) && p < |fl|
    ensures Linked(h, list[..p] + list[p + 1..], fl[..p] + fl[p + 1..])
  {
  }

  lemma TakeOffList(bs: seq<Block>, k: nat)
    requires k < |bs| && !bs[k].used
    ensures var fl, p := FreeOf(bs), |FreeOf(bs[..k])|;
            p < |fl| && fl[p] == bs[k] && FreeOf(bs[..k]) + FreeOf(bs[k + 1..]) == fl[..p] + fl[p + 1..]
  {
    assert bs == bs[..k] + ([bs[k]] + bs[k + 1..]);
    FreeAround(bs[..k], bs[k], bs[k + 1..]);
  }

  /** `a` is not the address of a live block. */
  ghost predicate Apart(bs: seq<Block>, a: int) {
    forall b :: b in LiveOf(bs) ==> b.addr != a
  }

  lemma FreeApartFromLive(c: Config, bs: seq<Block>, lo: int, hi: int, k: nat, a: int)
    requires WellFormed(c, bs, lo, hi) && k < |bs| && !bs[k].used
    requires bs[k].addr <= a < End(c, bs[k])
    ensures Apart(bs, a)
  {
    forall b | b in LiveOf(bs)
      ensures b.addr != a
    {
      LiveMembers(bs, b);
      var i: nat :| i < |bs| && bs[i] == b;
      WithinBounds(c, bs, lo, hi, i);
      if i < k {
        Ordered(c, bs, lo, hi, i, k);
      } else {
        Ordered(c, bs, lo, hi, k, i);
      }
    }
  }

  lemma FreeListApart(c: Config, bs: seq<Block>, lo: int, hi: int)
    requires WellFormed(c, bs, lo, hi)
    ensures forall i :: 0 <= i < |FreeOf(bs)| ==> Apart(bs, FreeOf(bs)[i].addr)
  {
    forall i: nat | i < |FreeOf(bs)|
      ensures Apart(bs, FreeOf(bs)[i].addr)
    {
      FreeMembers(bs, FreeOf(bs)[i]);
      var k: nat :| k < |bs| && bs[k] == FreeOf(bs)[i];
      WithinBounds(c, bs, lo, hi, k);
      FreeApartFromLive(c, bs, lo, hi, k, bs[k].addr);
    }
  }

  lemma SizeBound(c: Config, bs: seq<Block>, lo: int, hi: int, k: nat)
    requires WellFormed(c, bs, lo, hi) && k < |bs|
    ensures 0 <= bs[k].size <= hi - lo - c.item
  {
    WithinBounds(c, bs, lo, hi, k);
    Around(c, bs, lo, hi, k);
  }

  /** The split-off block is new to the list, and inserting it gives Take's free blocks. */
  lemma SplitFacts(c: Config, bs: seq<Block>, lo: int, hi: int, k: nat, req: int)
    requires WellFormed(c, bs, lo, hi) && k < |bs| && !bs[k].used
    requires CanTake(c, bs[k], req) && Splits(c, bs[k], req)
    ensures Apart(bs, Rest(c, bs[k], req).addr)
    ensures var fl, rest := FreeOf(bs[..k]) + FreeOf(bs[k + 1..]), Rest(c, bs[k], req);
            && Sorted(fl) && (forall i :: 0 <= i < |fl| ==> fl[i].addr != rest.addr)
            && Insert(c, fl, rest) == FreeOf(Take(c, bs, k, req))
  {
    var l, r, rest := FreeOf(bs[..k]), FreeOf(bs[k + 1..]), Rest(c, bs[k], req);
    FreeApartFromLive(c, bs, lo, hi, k, rest.addr);
    InsertMatchesTake(c, bs, lo, hi, k, req);
    Around(c, bs, lo, hi, k);
    FreeListSorted(c, bs[..k], lo, bs[k].addr);
    FreeListSorted(c, bs[k + 1..], End(c, bs[k]), hi);
    forall i: nat | i < |l|
      ensures l[i].addr < bs[k].addr
    {
      FreeBounds(c, bs[..k], lo, bs[k].addr, i);
    }
    forall i: nat | i < |r|
      ensures End(c, bs[k]) <= r[i].addr
    {
      FreeBounds(c, bs[k + 1..], End(c, bs[k]), hi, i);
    }
  }

  lemma TakenApart(c: Config, bs: seq<Block>, lo: int, hi: int, k: nat)
    requires WellFormed(c, bs, lo, hi) && k < |bs| && !bs[k].used
    ensures Apart(bs, bs[k].addr)
  {
    WithinBounds(c, bs, lo, hi, k);
    FreeApartFromLive(c, bs, lo, hi, k, bs[k].addr);
  }

  lemma SplitLinked(c: Config, bs: seq<Block>, lo: int, hi: int, k: nat, req: int, h: map<int, Header>, list: seq<int>)
    requires WellFormed(c, bs, lo, hi) && k < |bs| && !bs[k].used
    requires CanTake(c, bs[k], req)
    requires Linked(h, list, FreeOf(Take(c, bs, k, req)))
    ensures bs[k].addr !in list
  {
    var t := Take(c, bs, k, req);
    TakeKeepsWellFormed(c, bs, lo, hi, k, req);
    TakeLive(c, bs, k, req);
    FreeListApart(c, t, lo, hi);
    LiveMembers(t, t[k]);
  }

  /** The live headers after Take, when those of the other live blocks are untouched. */
  lemma LiveAfterTake(c: Config, bs: seq<Block>, k: nat, req: int, h: map<int, Header>, h': map<int, Header>)
    requires k < |bs| && !bs[k].used && LiveHeaders(h, LiveOf(bs))
    requires forall b :: b in LiveOf(bs) ==> b.addr in h' && h'[b.addr] == h[b.addr]
    requires bs[k].addr in h' && h'[bs[k].addr] == Header(true, Taken(c, bs[k], req).size)
    ensures LiveHeaders(h', LiveOf(Take(c, bs, k, req)))
  {
    TakeLive(c, bs, k, req);
  }

  /** The live headers after Release. */
  lemma LiveAfterRelease(c: Config, bs: seq<Block>, lo: int, hi: int, k: nat, h: map<int, Header>, h': map<int, Header>)
    requires WellFormed(c, bs, lo, hi) && k < |bs| && bs[k].used && LiveHeaders(h, LiveOf(bs))
    requires forall b :: b in LiveOf(bs) && b.addr != bs[k].addr ==> b.addr in h' && h'[b.addr] == h[b.addr]
    ensures LiveHeaders(h', LiveOf(Release(c, bs, k)))
  {
    ReleaseLive(c, bs, k);
    ReleaseKeepsWellFormed(c, bs, lo, hi, k);
    Around(c, bs, lo, hi, k);
    forall b | b in LiveOf(Release(c, bs, k))
      ensures b in LiveOf(bs) && b.addr != bs[k].addr
    {
      if b in LiveOf(bs[..k]) {
        InBounds(c, bs[..k], lo, bs[k].addr, b);
      } else {
        InBounds(c, bs[k + 1..], End(c, bs[k]), hi, b);
      }
    }
  }

  lemma InBounds(c: Config, bs: seq<Block>, lo: int, hi: int, b: Block)
    requires WellFormed(c, bs, lo, hi) && b in LiveOf(bs)
    ensures lo <= b.addr < End(c, b) <= hi
  {
    LiveMembers(bs, b);
    var i: nat :| i < |bs| && bs[i] == b;
    WithinBounds(c, bs, lo, hi, i);
  }

  class Heap {
    const cfg: Config
    ghost const lo: int
    ghost const hi: int

    var headers: map<int, Header>  // the headers written to heap_mem
    var freeList: seq<int>         // os_core.heap_men.list
    var mallocCount: int           // os_core.heap_men.malloc_count
    var heapStart: int             // os_core.heap_men.heap_statck
    var heapSize: int              // os_core.heap_men.heap_size

    ghost var blocks: seq<Block>

    ghost function State(): HeapSpec.State
      reads this
    {
      HeapSpec.State(blocks, mallocCount)
    }

    ghost predicate Valid()
      reads this
    {
      && HeapSpec.Inv(cfg, State(), lo, hi)
      && 1 <= cfg.align <= U32
      && hi - lo - cfg.item < 0x8000_0000
      && Linked(headers, freeList, FreeOf(blocks))
      && LiveHeaders(headers, LiveOf(blocks))
    }

    /** os_men_init over an array of `alloc` bytes at address `base`. */
    constructor (c: Config, base: nat, alloc: nat)
      requires c.Ok() && base + alloc + c.align < U32
      requires c.item <= alloc < c.item + 0x8000_0000
      ensures Valid() && cfg == c
      ensures 1 <= c.align <= U32
      ensures lo == heapStart == HighAligned(base, c.align) && hi == lo + alloc
      ensures State() == HeapSpec.Initial(c, lo, hi)
      ensures heapSize == hi - lo <==> base % c.align == 0 && alloc % c.align == 0
    {
      AlignmentBound(c.align);
      HighAlignedIsLeast(base, c.align);
      HeapSpec.InitialBlockFitsIffAligned(c.align, base, alloc);
      var start := HighAligned(base, c.align);
      var end := LowAligned(base + alloc, c.align) as int - 1;
      cfg := c;
      heapStart := start;
      heapSize := end - start + 1;
      mallocCount := 0;
      headers := map[start := Header(false, alloc - c.item)];
      freeList := [start];
      lo, hi := start, start + alloc;
      blocks := [Block(start, alloc - c.item, false)];
      new;
      HeapSpec.InitialInv(c, lo, hi);
      assert FreeOf(blocks) == blocks && LiveOf(blocks) == [];
    }

    /** men_item_can_merge */
    predicate ItemsCanMerge(pre: int, after: int)
      requires pre in headers
      reads this
    {
      pre + headers[pre].size + cfg.item == after
    }

    /** men_item_merge */
    method MergeItems(pre: int, after: int)
      requires pre in headers && after in headers
      modifies this`headers
      ensures var h := old(headers);
              headers == h[pre := h[pre].(size := h[pre].size + (h[after].size + cfg.item))]
    {
      headers := headers[pre := headers[pre].(size := headers[pre].size + (headers[after].size + cfg.item))];
    }

    /** os_insert_to_men_list: a new highest block, `last` being the highest so far. */
    method InsertAtEnd(item: int, ghost fl: seq<Block>, ghost b: Block)
      requires Linked(headers, freeList, fl) && Sorted(fl) && fl != []
      requires IsHeader(headers, item, b) && fl[|fl| - 1].addr < item
      modifies this`headers, this`freeList
      ensures Linked(headers, freeList, InsertAt(cfg, fl, |fl|, b))
      ensures OnlyChanged(old(headers), headers, old(freeList), item)
    {
      var last := freeList[|freeList| - 1];
      OpsAt(freeList, |freeList| - 1, item);
      if ItemsCanMerge(last, item) {
        freeList := RemoveItem(freeList, last);
        MergeItems(last, item);
        freeList := freeList + [last];
      } else {
        freeList := freeList + [item];
      }
    }

    /** os_insert_to_men_list: tries to fuse the block with the one below it. Returns the
        block to insert and its new predecessor. */
    method MergeBelow(item: int, pre: Option<int>, ghost fl: seq<Block>, ghost p: nat, ghost b: Block)
      returns (item': int, pre': Option<int>, ghost fl': seq<Block>, ghost p': nat, ghost b': Block)
      requires Linked(headers, freeList, fl) && Sorted(fl) && p < |fl|
      requires IsHeader(headers, item, b) && forall i :: 0 <= i < |fl| ==> fl[i].addr != item
      requires pre == if p == 0 then None else Some(fl[p - 1].addr)
      modifies this`headers, this`freeList
      ensures if p > 0 && CanMerge(cfg, fl[p - 1], b) then
                p' == p - 1 && fl' == fl[..p - 1] + fl[p..] && b' == Merge(cfg, fl[p - 1], b)
              else
                p' == p && fl' == fl && b' == b
      ensures Linked(headers, freeList, fl') && Sorted(fl')
      ensures IsHeader(headers, item', b') && forall i :: 0 <= i < |fl'| ==> fl'[i].addr != item'
      ensures pre' == if p' == 0 then None else Some(fl'[p' - 1].addr)
      ensures OnlyChanged(old(headers), headers, old(freeList), item)
      ensures item' == item || item' in old(freeList)
      ensures forall a :: a in freeList ==> a in old(freeList)
    {
      item', pre', fl', p', b' := item, pre, fl, p, b;
      if pre.Some? {
        WithoutEntry(headers, freeList, fl, p - 1);
        if ItemsCanMerge(pre.value, item) {
          MergedBelow(cfg, headers, freeList, fl, p, b);
          var prePre := ItemPre(freeList, pre.value);
          freeList := RemoveItem(freeList, pre.value);
          MergeItems(pre.value, item);
          item' := pre.value;
          pre' := prePre;
          p', fl', b' := p - 1, fl[..p - 1] + fl[p..], Merge(cfg, fl[p - 1], b);
        }
      }
    }

    /** os_insert_to_men_list: fuses the block with `high` or links it below `high`. */
    method LinkBelow(item: int, pre: Option<int>, high: int, ghost fl: seq<Block>, ghost p: nat, ghost b: Block)
      requires Linked(headers, freeList, fl) && Sorted(fl) && p < |fl| && high == fl[p].addr
      requires IsHeader(headers, item, b) && forall i :: 0 <= i < |fl| ==> fl[i].addr != item
      requires pre == if p == 0 then None else Some(fl[p - 1].addr)
      modifies this`headers, this`freeList
      ensures Linked(headers, freeList,
                     if CanMerge(cfg, b, fl[p]) then fl[..p] + ([Merge(cfg, b, fl[p])] + fl[p + 1..])
                     else fl[..p] + ([b] + fl[p..]))
      ensures OnlyChanged(old(headers), headers, old(freeList), item)
    {
      ghost var list, h := freeList, headers;
      LinkAt(freeList, p, pre, item);
      if ItemsCanMerge(item, high) {
        freeList := RemoveItem(freeList, high);
        MergeItems(item, high);
        if pre.Some? {
          freeList := InsertAfter(freeList, pre, item);
        } else {
          freeList := [item] + freeList;
        }
        Splice(h, list, fl, headers, p, p + 1, Merge(cfg, b, fl[p]));
      } else {
        freeList := InsertAfter(freeList, pre, item);
        Splice(h, list, fl, headers, p, p, b);
      }
    }

    /** os_insert_to_men_list: the first block on the list above `item`. */
    method FindPlace(item: int, ghost fl: seq<Block>) returns (p: nat)
      requires Linked(headers, freeList, fl) && forall i :: 0 <= i < |fl| ==> fl[i].addr != item
      ensures p == Position(fl, item)
    {
      p := 0;
      while p < |freeList| && freeList[p] < item
        invariant 0 <= p <= |freeList|
        invariant forall i :: 0 <= i < p ==> fl[i].addr < item
      {
        p := p + 1;
      }
    }

    /** os_insert_to_men_list: a block below the one at place `p` of the list. */
    method InsertBelow(item: int, p: nat, ghost fl: seq<Block>, ghost b: Block)
      requires Linked(headers, freeList, fl) && Sorted(fl) && p < |fl|
      requires IsHeader(headers, item, b) && forall i :: 0 <= i < |fl| ==> fl[i].addr != item
      modifies this`headers, this`freeList
      ensures Linked(headers, freeList, InsertAt(cfg, fl, p, b))
      ensures OnlyChanged(old(headers), headers, old(freeList), item)
    {
      var high := freeList[p];
      OpsAt(freeList, p, item);
      var pre := ItemPre(freeList, high);
      var item', pre', fl', p', b' := MergeBelow(item, pre, fl, p, b);
      InsertInSteps(cfg, fl, p, b, fl', p', b');
      LinkBelow(item', pre', high, fl', p', b');
    }

    /** os_insert_to_men_list */
    method InsertToMenList(item: int, ghost fl: seq<Block>, ghost b: Block)
      requires Linked(headers, freeList, fl) && Sorted(fl)
      requires IsHeader(headers, item, b) && forall i :: 0 <= i < |fl| ==> fl[i].addr != item
      modifies this`headers, this`freeList
      ensures Linked(headers, freeList, Insert(cfg, fl, b))
      ensures OnlyChanged(old(headers), headers, old(freeList), item)
    {
      if |freeList| == 0 {
        freeList := [item];
        return;
      }
      var p := FindPlace(item, fl);
      if p == |freeList| {
        InsertAtEnd(item, fl, b);
      } else {
        InsertBelow(item, p, fl, b);
      }
    }

    /** os_mem_malloc: makes the rest of `curr` a free block of its own. */
    method PutBackRest(curr: int, request: int, ghost bs: seq<Block>, ghost k: nat)
      requires WellFormed(cfg, bs, lo, hi) && k < |bs| && !bs[k].used && curr == bs[k].addr
      requires CanTake(cfg, bs[k], request) && Splits(cfg, bs[k], request)
      requires curr in headers && headers[curr] == Header(false, bs[k].size)
      requires Linked(headers, freeList, FreeOf(bs[..k]) + FreeOf(bs[k + 1..]))
      modifies this`headers, this`freeList
      ensures Linked(headers, freeList, FreeOf(Take(cfg, bs, k, request)))
      ensures curr in headers && headers[curr].size == request
      ensures forall a ::
                a in old(headers) && a != curr && a != Rest(cfg, bs[k], request).addr && a !in old(freeList) ==>
                  a in headers && headers[a] == old(headers)[a]
    {
      var separate := curr + cfg.item + request;
      headers := headers[separate := Header(false, headers[curr].size - request - cfg.item)];
      SplitFacts(cfg, bs, lo, hi, k, request);
      InsertToMenList(separate, FreeOf(bs[..k]) + FreeOf(bs[k + 1..]), Rest(cfg, bs[k], request));
      SplitLinked(cfg, bs, lo, hi, k, request, headers, freeList);
      headers := headers[curr := headers[curr].(size := request)];
    }

    /** os_mem_malloc: the block found leaves the list, and its rest is put back. */
    method SplitOff(curr: int, request: int, ghost k: nat)
      requires Valid() && k < |blocks| && !blocks[k].used && curr == blocks[k].addr
      requires HeapSpec.IsInt(request) && CanTake(cfg, blocks[k], request)
      modifies this`headers, this`freeList
      ensures Linked(headers, freeList, FreeOf(Take(cfg, blocks, k, request)))
      ensures curr in headers && headers[curr].size == Taken(cfg, blocks[k], request).size
      ensures forall b :: b in LiveOf(blocks) ==> b.addr in headers && headers[b.addr] == old(headers)[b.addr]
    {
      Unlink(cfg, headers, freeList, blocks, lo, hi, k);
      FreeListApart(cfg, blocks, lo, hi);
      TakenApart(cfg, blocks, lo, hi, k);
      freeList := RemoveItem(freeList, curr);
      SizeBound(cfg, blocks, lo, hi, k);
      var remaining := (headers[curr].size - request) % U32;
      assert remaining == headers[curr].size - request;
      if remaining > cfg.item + cfg.min {
        SplitFacts(cfg, blocks, lo, hi, k, request);
        PutBackRest(curr, request, blocks, k);
      } else {
        TakeWithoutSplit(cfg, blocks, k, request);
      }
    }

    /** os_mem_malloc: the first block on the list that is large enough. */
    method FindFit(request: int) returns (p: nat)
      requires Valid()
      ensures p <= |freeList|
      ensures p == |freeList| <==> FirstFit(blocks, request) == |blocks|
      ensures p < |freeList| ==> freeList[p] == blocks[FirstFit(blocks, request)].addr
    {
      ghost var fl := FreeOf(blocks);
      p := 0;
      while p < |freeList| && headers[freeList[p]].size < request
        invariant 0 <= p <= |freeList|
        invariant forall i :: 0 <= i < p ==> fl[i].size < request
      {
        p := p + 1;
      }
      FirstFitMatches(blocks, request);
      assert p == FirstFitList(fl, request);
    }

    /** os_mem_malloc, for every size that leaves a layout behind. */
    method Malloc(size: int) returns (r: Option<int>)
      requires Valid() && HeapSpec.IsInt(size) && HeapSpec.KeepsLayout(cfg, State(), size)
      modifies this
      ensures Valid()
      ensures (State(), r) == HeapSpec.Malloc(cfg, old(State()), size)
      ensures heapStart == old(heapStart) && heapSize == old(heapSize)
    {
      if size == 0 {
        return None;
      }
      var request := HeapSpec.ToInt(HighAligned(size % U32, cfg.align));
      HeapSpec.MallocTakes(cfg, State(), size);
      HeapSpec.RequestIsInt(cfg, size);
      var p := FindFit(request);
      ghost var k := FirstFit(blocks, request);
      if p == |freeList| {
        return None;
      }
      var curr := freeList[p];
      SplitOff(curr, request, k);
      SplitLinked(cfg, blocks, lo, hi, k, request, headers, freeList);
      mallocCount := mallocCount + 1;
      headers := headers[curr := headers[curr].(used := true)];
      r := Some(curr + cfg.item);
      TakenApart(cfg, blocks, lo, hi, k);
      LiveAfterTake(cfg, blocks, k, request, old(headers), headers);
      HeapSpec.MallocInv(cfg, old(State()), lo, hi, size);
      blocks := Take(cfg, blocks, k, request);
    }

    /** os_men_free: the block goes back on the list. */
    method PutBack(item: int, ghost k: nat)
      requires Valid() && k < |blocks| && blocks[k].used && item == blocks[k].addr
      requires item in headers
      modifies this`headers, this`freeList
      ensures Linked(headers, freeList, FreeOf(Release(cfg, blocks, k)))
      ensures LiveHeaders(headers, LiveOf(Release(cfg, blocks, k)))
    {
      LiveMembers(blocks, blocks[k]);
      FreeListApart(cfg, blocks, lo, hi);
      FreeListSorted(cfg, blocks, lo, hi);
      ghost var h := headers;
      headers := headers[item := headers[item].(used := false)];
      InsertToMenList(item, FreeOf(blocks), blocks[k].(used := false));
      InsertMatchesRelease(cfg, blocks, lo, hi, k);
      LiveAfterRelease(cfg, blocks, lo, hi, k, h, headers);
    }

    /** os_men_free. The pointer is null or that of a live block, as the code asserts. */
    method Free(men: Option<int>) returns (r: HeapSpec.FreeResult)
      requires Valid() && (men.Some? ==> HeapSpec.IsLive(cfg, State(), men.value))
      modifies this
      ensures Valid()
      ensures men.None? ==> r == HeapSpec.FreeErrParam && State() == old(State())
      ensures men.Some? ==> (State(), r) == HeapSpec.Free(cfg, old(State()), men.value)
      ensures heapStart == old(heapStart) && heapSize == old(heapSize)
    {
      if men.None? {
        return HeapSpec.FreeErrParam;
      }
      var item := men.value - cfg.item;
      ghost var k := HeapSpec.LiveIndex(cfg, blocks, men.value);
      LiveMembers(blocks, blocks[k]);
      if headers[item].used && headers[item].size < cfg.min {
        return HeapSpec.FreeErrParam;
      }
      PutBack(item, k);
      HeapSpec.FreeInv(cfg, old(State()), lo, hi, men.value);
      mallocCount := mallocCount - 1;
      blocks := Release(cfg, blocks, k);
      r := HeapSpec.FreeOk;
    }

    /** os_get_free_size */
    method GetFreeSize() returns (count: int)
      requires Valid()
      ensures count == Payload(FreeOf(blocks))
    {
      count := 0;
      var p := 0;
      ghost var fl := FreeOf(blocks);
      while p < |freeList|
        invariant 0 <= p <= |freeList|
        invariant count + Payload(fl[p..]) == Payload(fl)
      {
        count := count + headers[freeList[p]].size;
        assert fl[p..][1..] == fl[p + 1..];
        p := p + 1;
      }
    }
  }
}
