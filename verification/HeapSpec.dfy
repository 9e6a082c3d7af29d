/** What malloc and free of rtos/os_men.c do to the heap, and what holds over every
    run of them. */
module HeapSpec {
  import opened CBits
  import opened OsList
  import opened HeapLayout

  /** The layout and os_core.heap_men.malloc_count. */
  datatype State = State(bs: seq<Block>, count: int)

  datatype FreeResult = FreeOk | FreeErrParam

  function Initial(c: Config, lo: int, hi: int): State {
    State([Block(lo, hi - lo - c.item, false)], 0)
  }

  /** The values of an `int`. */
  predicate IsInt(n: int) {
    -0x8000_0000 <= n < 0x8000_0000
  }

  /** A uint32_t converted to `int`. */
  function ToInt(n: nat): int {
    if n < 0x8000_0000 then n else n - U32
  }

  /** request_size, for every `int` size. */
  function Request(c: Config, size: int): int
    requires 1 <= c.align <= U32
  {
    ToInt(HighAligned(size % U32, c.align))
  }

  /** The sizes whose aligned value is still an `int`. */
  predicate RequestInRange(c: Config, size: int) {
    0 <= size && size + c.align <= 0x8000_0000
  }

  function Malloc(c: Config, s: State, size: int): (State, Option<int>)
    requires 1 <= c.align <= U32
  {
    var k := FirstFit(s.bs, Request(c, size));
    if size == 0 || k == |s.bs| then (s, None)
    else (State(Take(c, s.bs, k, Request(c, size)), s.count + 1), Some(s.bs[k].addr + c.item))
  }

  /** Nothing is handed out, or no block is split by a negative request. */
  predicate KeepsLayout(c: Config, s: State, size: int)
    requires 1 <= c.align <= U32
  {
    var req := Request(c, size);
    var k := FirstFit(s.bs, req);
    size == 0 || k == |s.bs| || !Splits(c, s.bs[k], req) || req >= 0
  }

  /** The live block whose payload starts at `p`, |bs| if there is none. */
  function LiveIndex(c: Config, bs: seq<Block>, p: int): (k: nat)
    ensures k <= |bs|
    ensures k < |bs| ==> bs[k].used && bs[k].addr + c.item == p
    ensures k == |bs| ==> forall b :: b in bs && b.used ==> b.addr + c.item != p
  {
    if bs == [] || (bs[0].used && bs[0].addr + c.item == p) then 0
    else
      assert bs == [bs[0]] + bs[1..];
      1 + LiveIndex(c, bs[1..], p)
  }

  predicate IsLive(c: Config, s: State, p: int) {
    LiveIndex(c, s.bs, p) < |s.bs|
  }

  /** A block too small for OS_MEN_MIN_SIZE is refused and stays live. */
  function Free(c: Config, s: State, p: int): (State, FreeResult)
    requires IsLive(c, s, p)
  {
    var k := LiveIndex(c, s.bs, p);
    if s.bs[k].size < c.min then (s, FreeErrParam)
    else (State(Release(c, s.bs, k), s.count - 1), FreeOk)
  }

  // ---- Invariant ----

  ghost predicate Inv(c: Config, s: State, lo: int, hi: int) {
    WellFormed(c, s.bs, lo, hi) && s.bs != [] && s.count == |LiveOf(s.bs)|
  }

  lemma InitialInv(c: Config, lo: int, hi: int)
    requires c.Ok() && lo % c.align == 0 && lo + c.item <= hi
    ensures Inv(c, Initial(c, lo, hi), lo, hi)
  {
    Single(c, Initial(c, lo, hi).bs[0]);
  }

  /** The aligned size of a size in range. */
  lemma RequestAligned(c: Config, size: int)
    requires c.Ok() && RequestInRange(c, size)
    ensures 1 <= c.align <= U32
    ensures size <= Request(c, size) < size + c.align && Request(c, size) < 0x8000_0000
    ensures size > 0 ==> Request(c, size) >= c.align
    ensures forall m: nat :: m % c.align == 0 && size <= m ==> Request(c, size) <= m
  {
    AlignmentBound(c.align);
    Unsigned(size);
    HighAlignedIsLeast(size, c.align);
    HalfWord(c.align);
    SumOfMultiples(0x8000_0000, c.align, c.align);
    MultipleGap(0x8000_0000 - c.align, HighAligned(size, c.align), c.align) by {
      assert size <= 0x8000_0000 - c.align;
    }
    if size > 0 {
      MultipleAtLeast(HighAligned(size, c.align), c.align);
    }
  }

  lemma Unsigned(size: int)
    requires IsInt(size)
    ensures size % U32 == if size < 0 then size + U32 else size
  {
  }

  /** A size above the range: the aligned value wraps to the least `int`. */
  lemma RequestAbove(c: Config, size: int)
    requires c.Ok() && size < 0x8000_0000 < size + c.align
    ensures 1 <= c.align <= U32
    ensures Request(c, size) == -0x8000_0000
  {
    AlignmentBound(c.align);
    Unsigned(size);
    HighAlignedIsLeast(size, c.align);
    HalfWord(c.align);
    MultipleGap(0x8000_0000, HighAligned(size, c.align), c.align);
    SumOfMultiples(0x8000_0000, c.align, c.align);
    if HighAligned(size, c.align) < 0x8000_0000 {
      MultipleGap(0x8000_0000 - c.align, HighAligned(size, c.align), c.align);
    }
  }

  /** A negative size less than one alignment below zero counts as zero. */
  lemma RequestJustBelow(c: Config, size: int)
    requires c.Ok() && size < 0 < size + c.align
    ensures 1 <= c.align <= U32
    ensures Request(c, size) == 0
  {
    AlignmentBound(c.align);
    Unsigned(size);
    LowAlignedIsGreatest(size + (c.align - 1), c.align);
    HighIsLow(size + U32, c.align);
    MultipleGap(0, LowAligned(size + (c.align - 1), c.align), c.align) by {
      ModUnique(0, c.align, 0, 0);
    }
  }

  lemma HighIsLow(v: nat, align: nat)
    requires 1 <= align <= U32 && v < U32 <= v + (align - 1)
    ensures HighAligned(v, align) == LowAligned(v + (align - 1) - U32, align)
  {
    ModUnique(v + (align - 1), U32, 1, v + (align - 1) - U32);
  }

  /** Any other negative size stays negative. */
  lemma RequestBelow(c: Config, size: int)
    requires c.Ok() && IsInt(size) && size + c.align <= 0
    ensures 1 <= c.align <= U32
    ensures size <= Request(c, size) < 0
  {
    AlignmentBound(c.align);
    Unsigned(size);
    HighAlignedIsLeast(size + U32, c.align);
    HalfWord(c.align);
    SumOfMultiples(0x8000_0000, 0x8000_0000, c.align);
    SumOfMultiples(U32, c.align, c.align);
    MultipleGap(U32 - c.align, HighAligned(size + U32, c.align), c.align);
  }

  /** For which of all `int` sizes the aligned request is not negative, and for which it
      is as large as the size. */
  lemma RequestNotNegativeIff(c: Config, size: int)
    requires c.Ok() && IsInt(size)
    ensures 1 <= c.align <= U32
    ensures Request(c, size) >= 0 <==> 0 < size + c.align <= 0x8000_0000
    ensures Request(c, size) >= size >= 0 <==> RequestInRange(c, size)
  {
    AlignmentBound(c.align);
    if size + c.align <= 0 {
      RequestBelow(c, size);
    } else if size < 0 {
      RequestJustBelow(c, size);
    } else if RequestInRange(c, size) {
      RequestAligned(c, size);
    } else {
      RequestAbove(c, size);
    }
  }

  lemma RequestIsInt(c: Config, size: int)
    requires c.Ok() && IsInt(size)
    ensures 1 <= c.align <= U32
    ensures IsInt(Request(c, size))
  {
    RequestNotNegativeIff(c, size);
    HighAlignedIsLeast(size % U32, c.align);
  }

  lemma RequestIsMultiple(c: Config, size: int)
    requires c.Ok() && IsInt(size)
    ensures 1 <= c.align <= U32
    ensures Request(c, size) % c.align == 0
  {
    AlignmentBound(c.align);
    HighAlignedIsLeast(size % U32, c.align);
    HalfWord(c.align);
    SumOfMultiples(0x8000_0000, 0x8000_0000, c.align);
    SumOfMultiples(HighAligned(size % U32, c.align), U32, c.align);
  }

  lemma HalfWord(align: nat)
    requires IsAlignment(align)
    ensures align >= 1 && 0x8000_0000 % align == 0
  {
    AlignmentBound(align);
    var k: nat :| k <= 31 && Pow2(k) == align;
    HalfWordIsMultiple(k);
  }

  /** 2^31 is a multiple of every alignment. */
  lemma {:induction false} HalfWordIsMultiple(k: nat)
    requires k <= 31
    ensures 0x8000_0000 % Pow2(k) == 0
    decreases 31 - k
  {
    Pow2Of32();
    if k < 31 {
      HalfWordIsMultiple(k + 1);
      var q := 0x8000_0000 / Pow2(k + 1);
      DivMod(0x8000_0000, Pow2(k + 1));
      assert 0x8000_0000 == Pow2(k) * (2 * q);
      MultipleMod(Pow2(k), 2 * q);
    } else {
      assert Pow2(31) == 0x8000_0000;
      ModUnique(0x8000_0000, 0x8000_0000, 1, 0);
    }
  }

  lemma MultipleAtLeast(m: nat, n: nat)
    requires n >= 1 && m > 0 && m % n == 0
    ensures m >= n
  {
    if m < n {
      ModUnique(m, n, 0, m);
    }
  }

  /** A call that keeps the layout takes a block that can be taken. */
  lemma MallocTakes(c: Config, s: State, size: int)
    requires c.Ok() && IsInt(size) && 1 <= c.align <= U32 && KeepsLayout(c, s, size)
    ensures var req := Request(c, size);
            var k := FirstFit(s.bs, req);
            size != 0 && k < |s.bs| ==> !s.bs[k].used && CanTake(c, s.bs[k], req)
  {
    RequestIsMultiple(c, size);
  }

  lemma MallocInv(c: Config, s: State, lo: int, hi: int, size: int)
    requires Inv(c, s, lo, hi) && IsInt(size) && 1 <= c.align <= U32 && KeepsLayout(c, s, size)
    ensures Inv(c, Malloc(c, s, size).0, lo, hi)
  {
    var req := Request(c, size);
    var k := FirstFit(s.bs, req);
    if size != 0 && k < |s.bs| {
      MallocTakes(c, s, size);
      TakeKeepsWellFormed(c, s.bs, lo, hi, k, req);
      TakeLive(c, s.bs, k, req);
    }
  }

  lemma FreeInv(c: Config, s: State, lo: int, hi: int, p: int)
    requires Inv(c, s, lo, hi) && IsLive(c, s, p)
    ensures Inv(c, Free(c, s, p).0, lo, hi)
  {
    var k := LiveIndex(c, s.bs, p);
    ReleaseKeepsWellFormed(c, s.bs, lo, hi, k);
    ReleaseLive(c, s.bs, k);
  }

  // ---- Runs ----

  datatype Op = OpMalloc(size: int) | OpFree(p: int)

  /** The calls that keep the layout: every malloc but one whose negative request splits
      a block, and the free of a live pointer. */
  predicate Allowed(c: Config, s: State, op: Op)
    requires 1 <= c.align <= U32
  {
    match op
    case OpMalloc(size) => IsInt(size) && KeepsLayout(c, s, size)
    case OpFree(p) => IsLive(c, s, p)
  }

  function Step(c: Config, s: State, op: Op): State
    requires 1 <= c.align <= U32 && Allowed(c, s, op)
  {
    match op
    case OpMalloc(size) => Malloc(c, s, size).0
    case OpFree(p) => Free(c, s, p).0
  }

  /** The state after a run, none when a call is not allowed. */
  function Run(c: Config, s: State, ops: seq<Op>): Option<State>
    requires 1 <= c.align <= U32
    decreases |ops|
  {
    if ops == [] then Some(s)
    else if Allowed(c, s, ops[0]) then Run(c, Step(c, s, ops[0]), ops[1..])
    else None
  }

  lemma {:induction false} RunInv(c: Config, s: State, lo: int, hi: int, ops: seq<Op>)
    requires Inv(c, s, lo, hi)
    ensures 1 <= c.align <= U32
    ensures Run(c, s, ops).Some? ==> Inv(c, Run(c, s, ops).value, lo, hi)
    decreases |ops|
  {
    AlignmentBound(c.align);
    if ops != [] && Allowed(c, s, ops[0]) {
      match ops[0] {
        case OpMalloc(size) => MallocInv(c, s, lo, hi, size);
        case OpFree(p) => FreeInv(c, s, lo, hi, p);
      }
      RunInv(c, Step(c, s, ops[0]), lo, hi, ops[1..]);
    }
  }

  /** In every reachable state the heap is tiled by aligned, coalesced blocks, the
      counter is the number of live blocks, and the bytes add up. */
  lemma ReachableHeap(c: Config, lo: int, hi: int, ops: seq<Op>)
    requires c.Ok() && lo % c.align == 0 && lo + c.item <= hi
    ensures 1 <= c.align <= U32
    ensures var r := Run(c, Initial(c, lo, hi), ops);
            r.Some? ==>
              && WellFormed(c, r.value.bs, lo, hi)
              && r.value.count == |LiveOf(r.value.bs)|
              && Payload(FreeOf(r.value.bs)) + Payload(LiveOf(r.value.bs)) + c.item * |r.value.bs| == hi - lo
  {
    InitialInv(c, lo, hi);
    RunInv(c, Initial(c, lo, hi), lo, hi, ops);
    var r := Run(c, Initial(c, lo, hi), ops);
    if r.Some? {
      Accounting(c, r.value.bs, lo, hi);
    }
  }

  /** A heap with no live block is the initial heap. */
  lemma NoLiveIsInitial(c: Config, s: State, lo: int, hi: int)
    requires Inv(c, s, lo, hi) && s.count == 0
    ensures s == Initial(c, lo, hi)
  {
    FirstLiveAbove(c, s.bs, lo, hi);
  }

  /** Whatever was allocated and freed before, once every block is freed the heap
      is the single initial block again. */
  lemma EmptiedHeapIsInitial(c: Config, lo: int, hi: int, ops: seq<Op>)
    requires c.Ok() && lo % c.align == 0 && lo + c.item <= hi
    ensures 1 <= c.align <= U32
    ensures var r := Run(c, Initial(c, lo, hi), ops);
            r.Some? && r.value.count == 0 ==> r.value == Initial(c, lo, hi)
  {
    InitialInv(c, lo, hi);
    RunInv(c, Initial(c, lo, hi), lo, hi, ops);
    var r := Run(c, Initial(c, lo, hi), ops);
    if r.Some? && r.value.count == 0 {
      NoLiveIsInitial(c, r.value, lo, hi);
    }
  }

  // ---- Freeing in any order ----

  /** The payload addresses of the live blocks. */
  function Payloads(c: Config, bs: seq<Block>): seq<int> {
    if bs == [] then []
    else [bs[0].addr + c.item] + Payloads(c, bs[1..])
  }

  lemma {:induction false} PayloadsSplit(c: Config, l: seq<Block>, r: seq<Block>)
    ensures Payloads(c, l + r) == Payloads(c, l) + Payloads(c, r)
  {
    if l == [] {
      assert l + r == r;
    } else {
      assert (l + r)[1..] == l[1..] + r;
      PayloadsSplit(c, l[1..], r);
    }
  }

  lemma {:induction false} PayloadMember(c: Config, bs: seq<Block>, p: int)
    requires p in Payloads(c, bs)
    ensures exists b :: b in bs && b.addr + c.item == p
  {
    if bs[0].addr + c.item != p {
      PayloadMember(c, bs[1..], p);
    }
  }

  /** Freeing `p` takes exactly `p` off the live pointers. */
  lemma {:induction false} FreePayloads(c: Config, s: State, p: int)
    requires IsLive(c, s, p) && Free(c, s, p).1 == FreeOk
    ensures multiset(Payloads(c, LiveOf(Free(c, s, p).0.bs)))
            == multiset(Payloads(c, LiveOf(s.bs))) - multiset{p}
  {
    var k := LiveIndex(c, s.bs, p);
    var l, b, r := LiveOf(s.bs[..k]), s.bs[k], LiveOf(s.bs[k + 1..]);
    ReleaseLive(c, s.bs, k);
    PayloadsSplit(c, l, [b] + r);
    PayloadsSplit(c, [b], r);
    PayloadsSplit(c, l, r);
    assert Payloads(c, [b]) == [p];
  }

  lemma PayloadIsLive(c: Config, s: State, p: int)
    requires p in Payloads(c, LiveOf(s.bs))
    ensures IsLive(c, s, p)
  {
    PayloadMember(c, LiveOf(s.bs), p);
    var b :| b in LiveOf(s.bs) && b.addr + c.item == p;
    LiveMembers(s.bs, b);
  }

  /** No live block is below OS_MEN_MIN_SIZE. */
  ghost predicate AllFreeable(c: Config, bs: seq<Block>) {
    forall b :: b in LiveOf(bs) ==> b.size >= c.min
  }

  lemma FreeAccepts(c: Config, s: State, p: int)
    requires AllFreeable(c, s.bs) && IsLive(c, s, p)
    ensures Free(c, s, p).1 == FreeOk && AllFreeable(c, Free(c, s, p).0.bs)
  {
    var k := LiveIndex(c, s.bs, p);
    LiveMembers(s.bs, s.bs[k]);
    ReleaseLive(c, s.bs, k);
  }

  lemma NoPayloads(c: Config, bs: seq<Block>)
    requires multiset(Payloads(c, bs)) == multiset{}
    ensures bs == []
  {
    assert |multiset(Payloads(c, bs))| == |Payloads(c, bs)|;
  }

  function Frees(ps: seq<int>): seq<Op> {
    if ps == [] then [] else [OpFree(ps[0])] + Frees(ps[1..])
  }

  lemma {:induction false} FreeAll(c: Config, s: State, lo: int, hi: int, ps: seq<int>)
    requires Inv(c, s, lo, hi) && AllFreeable(c, s.bs)
    requires multiset(ps) == multiset(Payloads(c, LiveOf(s.bs)))
    ensures 1 <= c.align <= U32
    ensures Run(c, s, Frees(ps)) == Some(Initial(c, lo, hi))
    decreases |ps|
  {
    AlignmentBound(c.align);
    if ps == [] {
      NoPayloads(c, LiveOf(s.bs));
      NoLiveIsInitial(c, s, lo, hi);
    } else {
      var p, rest := ps[0], ps[1..];
      RestPayloads(ps, Payloads(c, LiveOf(s.bs)));
      PayloadIsLive(c, s, p);
      FreeAccepts(c, s, p);
      FreePayloads(c, s, p);
      FreeInv(c, s, lo, hi, p);
      FreeAll(c, Free(c, s, p).0, lo, hi, rest);
      RunCons(c, s, OpFree(p), Frees(rest));
    }
  }

  lemma RestPayloads(ps: seq<int>, qs: seq<int>)
    requires ps != [] && multiset(ps) == multiset(qs)
    ensures ps[0] in qs && multiset(ps[1..]) == multiset(qs) - multiset{ps[0]}
  {
    assert ps == [ps[0]] + ps[1..];
    assert ps[0] in multiset(ps);
  }

  /** A live block below OS_MEN_MIN_SIZE outlives every free. */
  lemma {:induction false} SmallStaysLive(c: Config, s: State, ps: seq<int>, b: Block)
    requires 1 <= c.align <= U32
    requires b in LiveOf(s.bs) && b.size < c.min
    ensures var r := Run(c, s, Frees(ps)); r.Some? ==> b in LiveOf(r.value.bs)
    decreases |ps|
  {
    if ps != [] && IsLive(c, s, ps[0]) {
      var k := LiveIndex(c, s.bs, ps[0]);
      if s.bs[k].size >= c.min {
        ReleaseLive(c, s.bs, k);
      }
      RunCons(c, s, OpFree(ps[0]), Frees(ps[1..]));
      SmallStaysLive(c, Free(c, s, ps[0]).0, ps[1..], b);
    } else if ps != [] {
      assert Frees(ps)[0] == OpFree(ps[0]);
    }
  }

  /** Freeing all live pointers, in whatever order, gives back the initial heap exactly
      when no live block is below OS_MEN_MIN_SIZE. */
  lemma FreeAllInAnyOrder(c: Config, s: State, lo: int, hi: int, ps: seq<int>)
    requires Inv(c, s, lo, hi)
    requires multiset(ps) == multiset(Payloads(c, LiveOf(s.bs)))
    ensures 1 <= c.align <= U32
    ensures Run(c, s, Frees(ps)) == Some(Initial(c, lo, hi)) <==> AllFreeable(c, s.bs)
  {
    AlignmentBound(c.align);
    if AllFreeable(c, s.bs) {
      FreeAll(c, s, lo, hi, ps);
    } else {
      var b :| b in LiveOf(s.bs) && b.size < c.min;
      SmallStaysLive(c, s, ps, b);
      assert LiveOf(Initial(c, lo, hi).bs) == [];
    }
  }

  /** No live block is below OS_MEN_MIN_SIZE when no request was, such as when sizes are
      in range and the alignment is at least OS_MEN_MIN_SIZE. */
  lemma {:induction false} RunKeepsFreeable(c: Config, s: State, ops: seq<Op>)
    requires c.Ok() && 1 <= c.align <= U32 && AllFreeable(c, s.bs)
    requires forall i :: 0 <= i < |ops| && ops[i].OpMalloc? ==>
               Request(c, ops[i].size) >= c.min || (c.min <= c.align && RequestInRange(c, ops[i].size))
    ensures var r := Run(c, s, ops); r.Some? ==> AllFreeable(c, r.value.bs)
    decreases |ops|
  {
    if ops != [] && Allowed(c, s, ops[0]) {
      match ops[0] {
        case OpMalloc(size) =>
          if RequestInRange(c, size) {
            RequestAligned(c, size);
          }
          MallocKeepsFreeable(c, s, size);
        case OpFree(p) =>
          FreeAccepts(c, s, p);
      }
      RunKeepsFreeable(c, Step(c, s, ops[0]), ops[1..]);
    }
  }

  lemma MallocKeepsFreeable(c: Config, s: State, size: int)
    requires 1 <= c.align <= U32 && AllFreeable(c, s.bs)
    requires size != 0 ==> Request(c, size) >= c.min
    ensures AllFreeable(c, Malloc(c, s, size).0.bs)
  {
    var k := FirstFit(s.bs, Request(c, size));
    if k < |s.bs| {
      TakeLive(c, s.bs, k, Request(c, size));
    }
  }

  lemma RunCons(c: Config, s: State, op: Op, ops: seq<Op>)
    requires 1 <= c.align <= U32 && Allowed(c, s, op)
    ensures Run(c, s, [op] + ops) == Run(c, Step(c, s, op), ops)
  {
    assert ([op] + ops)[1..] == ops;
  }

  // ---- Round trip ----

  lemma LiveIndexAt(c: Config, bs: seq<Block>, lo: int, hi: int, k: nat)
    requires WellFormed(c, bs, lo, hi) && k < |bs| && bs[k].used
    ensures LiveIndex(c, bs, bs[k].addr + c.item) == k
  {
    var j := LiveIndex(c, bs, bs[k].addr + c.item);
    assert bs[k] in bs;
    if j < k {
      Ordered(c, bs, lo, hi, j, k);
      WithinBounds(c, bs, lo, hi, j);
    } else if k < j {
      Ordered(c, bs, lo, hi, k, j);
      WithinBounds(c, bs, lo, hi, k);
    }
  }

  /** Releasing what was just taken gives the same layout, split or not. */
  lemma TakeReleaseSame(c: Config, bs: seq<Block>, lo: int, hi: int, k: nat, req: int)
    requires WellFormed(c, bs, lo, hi) && k < |bs| && !bs[k].used
    requires CanTake(c, bs[k], req)
    ensures k < |Take(c, bs, k, req)| && Release(c, Take(c, bs, k, req), k) == bs
  {
    var t := Take(c, bs, k, req);
    TakeKeepsWellFormed(c, bs, lo, hi, k, req);
    TakeLive(c, bs, k, req);
    TakeAfter(c, bs, k, req);
    ReleaseKeepsWellFormed(c, t, lo, hi, k);
    ReleaseLive(c, t, k);
    LiveBlocksDetermineLayout(c, bs, Release(c, t, k), lo, hi);
  }

  lemma TakenIsLive(c: Config, bs: seq<Block>, lo: int, hi: int, k: nat, req: int)
    requires WellFormed(c, bs, lo, hi) && k < |bs| && !bs[k].used
    requires CanTake(c, bs[k], req)
    ensures var t := Take(c, bs, k, req);
            k < |t| && t[k] == Taken(c, bs[k], req) && LiveIndex(c, t, bs[k].addr + c.item) == k
  {
    TakeKeepsWellFormed(c, bs, lo, hi, k, req);
    TakeLive(c, bs, k, req);
    LiveIndexAt(c, Take(c, bs, k, req), lo, hi, k);
  }

  /** What a successful malloc does, in terms of the block and the request. */
  lemma MallocSome(c: Config, s: State, size: int) returns (k: nat, req: int)
    requires c.Ok() && IsInt(size) && 1 <= c.align <= U32 && KeepsLayout(c, s, size)
    requires Malloc(c, s, size).1.Some?
    ensures k < |s.bs| && !s.bs[k].used && CanTake(c, s.bs[k], req)
    ensures Malloc(c, s, size) == (State(Take(c, s.bs, k, req), s.count + 1), Some(s.bs[k].addr + c.item))
    ensures RequestInRange(c, size) ==> Taken(c, s.bs[k], req).size >= size
    ensures RequestInRange(c, size) ==> Taken(c, s.bs[k], req).size >= c.align
  {
    req := Request(c, size);
    k := FirstFit(s.bs, req);
    MallocTakes(c, s, size);
    if RequestInRange(c, size) {
      RequestAligned(c, size);
    }
  }

  lemma FreeAt(c: Config, s: State, p: int, k: nat)
    requires k < |s.bs| && LiveIndex(c, s.bs, p) == k
    ensures Free(c, s, p)
            == if s.bs[k].size < c.min then (s, FreeErrParam) else (State(Release(c, s.bs, k), s.count - 1), FreeOk)
  {
  }

  /** A successful malloc followed by a free of its result restores the heap exactly.
      The free is refused just when the block is below OS_MEN_MIN_SIZE. */
  lemma {:induction false} MallocFreeRoundTrip(c: Config, s: State, lo: int, hi: int, size: int)
    requires Inv(c, s, lo, hi) && IsInt(size)
    requires 1 <= c.align <= U32 && KeepsLayout(c, s, size) && Malloc(c, s, size).1.Some?
    ensures var (s', p) := Malloc(c, s, size);
            var t := Taken(c, s.bs[FirstFit(s.bs, Request(c, size))], Request(c, size));
            && IsLive(c, s', p.value)
            && Free(c, s', p.value) == (if t.size < c.min then (s', FreeErrParam) else (s, FreeOk))
            && (c.min <= c.align && RequestInRange(c, size) ==> t.size >= c.min)
  {
    var s', p := Malloc(c, s, size).0, Malloc(c, s, size).1.value;
    var k, t := MallocUndone(c, s, lo, hi, size, s', p);
    FreeAt(c, s', p, k);
  }

  /** What a successful malloc hands out, and that releasing it undoes it. */
  lemma {:induction false} MallocUndone(c: Config, s: State, lo: int, hi: int, size: int, s': State, p: int)
    returns (k: nat, t: Block)
    requires Inv(c, s, lo, hi) && IsInt(size)
    requires 1 <= c.align <= U32 && KeepsLayout(c, s, size) && Malloc(c, s, size) == (s', Some(p))
    ensures k < |s'.bs| && LiveIndex(c, s'.bs, p) == k && Release(c, s'.bs, k) == s.bs
    ensures s'.bs[k] == t == Taken(c, s.bs[FirstFit(s.bs, Request(c, size))], Request(c, size))
    ensures s'.count == s.count + 1
    ensures RequestInRange(c, size) ==> t.size >= c.align
  {
    var req := Request(c, size);
    k := FirstFit(s.bs, req);
    t := Taken(c, s.bs[k], req);
    assert k < |s'.bs| && s'.bs[k] == t && LiveIndex(c, s'.bs, p) == k by {
      MallocTakes(c, s, size);
      TakenIsLive(c, s.bs, lo, hi, k, req);
    }
    assert Release(c, s'.bs, k) == s.bs by {
      MallocTakes(c, s, size);
      TakeReleaseSame(c, s.bs, lo, hi, k, req);
    }
    assert RequestInRange(c, size) ==> t.size >= c.align by {
      if RequestInRange(c, size) {
        RequestAligned(c, size);
      }
    }
  }

  lemma TakeAfter(c: Config, bs: seq<Block>, k: nat, req: int)
    requires k < |bs| && !bs[k].used
    ensures LiveOf(Take(c, bs, k, req)[k + 1..]) == LiveOf(bs[k + 1..])
  {
    var t, r := Take(c, bs, k, req), bs[k + 1..];
    if Splits(c, bs[k], req) {
      assert t[k + 1..] == [Rest(c, bs[k], req)] + r;
      LiveCons(Rest(c, bs[k], req), r);
    } else {
      assert t[k + 1..] == r;
    }
  }

  // ---- What malloc returns ----

  /** malloc fails exactly when the request is zero or fits nowhere between the live
      blocks; otherwise the header goes to the lowest address at which it fits. */
  lemma MallocIsLowestFit(c: Config, s: State, lo: int, hi: int, size: int)
    requires Inv(c, s, lo, hi) && RequestInRange(c, size)
    ensures 1 <= c.align <= U32
    ensures var (s', p) := Malloc(c, s, size);
            var req := Request(c, size);
            if p.None? then
              s' == s && (size == 0 || forall a :: !Fits(c, s.bs, lo, hi, a, req))
            else
              && size > 0
              && Fits(c, s.bs, lo, hi, p.value - c.item, req)
              && (forall a :: Fits(c, s.bs, lo, hi, a, req) ==> p.value - c.item <= a)
  {
    RequestAligned(c, size);
    FirstFitIsLowestPlace(c, s.bs, lo, hi, Request(c, size));
  }

  /** The block taken lies apart from the live blocks. */
  lemma TakenDisjoint(c: Config, bs: seq<Block>, lo: int, hi: int, k: nat, req: int)
    requires WellFormed(c, bs, lo, hi) && k < |bs| && !bs[k].used && req <= bs[k].size
    ensures var t := Taken(c, bs[k], req);
            forall b :: b in LiveOf(bs) ==> End(c, b) <= t.addr || End(c, t) <= b.addr
  {
    forall b | b in LiveOf(bs)
      ensures End(c, b) <= bs[k].addr || End(c, bs[k]) <= b.addr
    {
      LiveMembers(bs, b);
      var i: nat :| i < |bs| && bs[i] == b;
      if i < k {
        Ordered(c, bs, lo, hi, i, k);
      } else {
        Ordered(c, bs, lo, hi, k, i);
      }
    }
  }

  /** The payload handed out is aligned, large enough, inside the heap and disjoint
      from every block that was live before, and all of those are still live. */
  lemma MallocResultIsFresh(c: Config, s: State, lo: int, hi: int, size: int)
    returns (t: Block)
    requires Inv(c, s, lo, hi) && IsInt(size)
    requires 1 <= c.align <= U32 && KeepsLayout(c, s, size) && Malloc(c, s, size).1.Some?
    ensures var (s', p) := Malloc(c, s, size);
            && t.used && t.addr + c.item == p.value && (RequestInRange(c, size) ==> size <= t.size)
            && p.value % c.align == 0 && lo + c.item <= p.value && p.value + t.size <= hi
            && multiset(LiveOf(s'.bs)) == multiset(LiveOf(s.bs)) + multiset{t}
            && forall b :: b in LiveOf(s.bs) ==> End(c, b) <= t.addr || End(c, t) <= b.addr
  {
    var k, req := MallocSome(c, s, size);
    TakenAddsOne(c, s.bs, k, req);
    TakenInside(c, s.bs, lo, hi, k, req);
    TakenDisjoint(c, s.bs, lo, hi, k, req);
    t := Taken(c, s.bs[k], req);
  }

  lemma TakenAddsOne(c: Config, bs: seq<Block>, k: nat, req: int)
    requires k < |bs| && !bs[k].used
    ensures multiset(LiveOf(Take(c, bs, k, req))) == multiset(LiveOf(bs)) + multiset{Taken(c, bs[k], req)}
  {
    TakeLive(c, bs, k, req);
  }

  lemma TakenInside(c: Config, bs: seq<Block>, lo: int, hi: int, k: nat, req: int)
    requires WellFormed(c, bs, lo, hi) && k < |bs| && CanTake(c, bs[k], req)
    ensures var t := Taken(c, bs[k], req);
            (t.addr + c.item) % c.align == 0 && lo <= t.addr && End(c, t) <= hi
  {
    Around(c, bs, lo, hi, k);
    WithinBounds(c, bs, lo, hi, k);
    SumOfMultiples(bs[k].addr, c.item, c.align);
  }

  /** How much malloc hands out: exactly the request when behind it there is room for one
      more header and more than OS_MEN_MIN_SIZE bytes; else all that fits there, which is
      then at most that much more than the request. */
  lemma MallocSizeIsExact(c: Config, s: State, lo: int, hi: int, size: int)
    returns (t: Block)
    requires Inv(c, s, lo, hi) && IsInt(size)
    requires 1 <= c.align <= U32 && KeepsLayout(c, s, size) && Malloc(c, s, size).1.Some?
    ensures var (s', p) := Malloc(c, s, size);
            var a, req := p.value - c.item, Request(c, size);
            && multiset(LiveOf(s'.bs)) == multiset(LiveOf(s.bs)) + multiset{t} && t.addr == a && t.used
            && if req >= 0 && Fits(c, s.bs, lo, hi, a, req + c.item + c.min + 1) then
                 t.size == req
               else
                 && Fits(c, s.bs, lo, hi, a, t.size) && t.size <= req + c.item + c.min
                 && forall n :: n >= 0 && Fits(c, s.bs, lo, hi, a, n) ==> n <= t.size
  {
    var req := Request(c, size);
    var k := FirstFit(s.bs, req);
    MallocTakes(c, s, size);
    TakenAddsOne(c, s.bs, k, req);
    t := Taken(c, s.bs[k], req);
    SizeByFit(c, s.bs, lo, hi, k, req);
  }

  lemma SizeByFit(c: Config, bs: seq<Block>, lo: int, hi: int, k: nat, req: int)
    requires WellFormed(c, bs, lo, hi) && k < |bs| && !bs[k].used && CanTake(c, bs[k], req)
    ensures var t, a := Taken(c, bs[k], req), bs[k].addr;
            if req >= 0 && Fits(c, bs, lo, hi, a, req + c.item + c.min + 1) then
              t.size == req
            else
              && Fits(c, bs, lo, hi, a, t.size) && t.size <= req + c.item + c.min
              && forall n :: n >= 0 && Fits(c, bs, lo, hi, a, n) ==> n <= t.size
  {
    var room := req + c.item + c.min + 1;
    Around(c, bs, lo, hi, k);
    if req >= 0 {
      FitsAtFreeIff(c, bs, lo, hi, k, room);
    }
    FitsAtFreeIff(c, bs, lo, hi, k, bs[k].size);
    forall n | n >= 0 && Fits(c, bs, lo, hi, bs[k].addr, n)
      ensures n <= bs[k].size
    {
      FitsAtFreeIff(c, bs, lo, hi, k, n);
    }
  }

  // ---- Which sizes keep the layout ----

  /** Separate_item, as a pointer. */
  function SeparateItem(c: Config, b: Block, req: int): int {
    (b.addr + c.item + req) % U32
  }

  /** `after` is a layout of the heap that agrees with what a malloc taking block `k`
      leaves in memory: the headers of the live blocks, a used block where `k` was, and
      on the free list the block split off. */
  ghost predicate Agrees(c: Config, bs: seq<Block>, lo: int, hi: int, k: nat, req: int, after: seq<Block>)
    requires k < |bs|
  {
    && WellFormed(c, after, lo, hi)
    && (forall b :: b in LiveOf(bs) ==> b in after)
    && (exists b :: b in after && b.used && b.addr == bs[k].addr)
    && (Splits(c, bs[k], req) ==> exists b :: b in after && !b.used && b.addr == SeparateItem(c, bs[k], req))
  }

  lemma TakeHas(c: Config, bs: seq<Block>, k: nat, req: int)
    requires k < |bs| && !bs[k].used
    ensures var t := Take(c, bs, k, req);
            && Taken(c, bs[k], req) in t
            && (forall b :: b in LiveOf(bs) ==> b in t)
            && (Splits(c, bs[k], req) ==> Rest(c, bs[k], req) in t)
  {
    var t := Take(c, bs, k, req);
    TakeLive(c, bs, k, req);
    assert t[k] in t;
    forall b | b in LiveOf(bs)
      ensures b in t
    {
      LiveMembers(t, b);
    }
    if Splits(c, bs[k], req) {
      assert t[k + 1] == Rest(c, bs[k], req) && t[k + 1] in t;
    }
  }

  /** A request that is not negative leaves the layout of Take. */
  lemma TakeAgrees(c: Config, bs: seq<Block>, lo: int, hi: int, k: nat, req: int)
    requires WellFormed(c, bs, lo, hi) && k < |bs| && !bs[k].used && 0 <= lo && hi <= U32
    requires CanTake(c, bs[k], req)
    ensures Agrees(c, bs, lo, hi, k, req, Take(c, bs, k, req))
  {
    TakeKeepsWellFormed(c, bs, lo, hi, k, req);
    TakeHas(c, bs, k, req);
    if Splits(c, bs[k], req) {
      WithinBounds(c, bs, lo, hi, k);
      assert Rest(c, bs[k], req).addr == SeparateItem(c, bs[k], req);
    }
  }

  /** Below the lowest free block every address lies in a live block. */
  lemma LiveBelow(c: Config, bs: seq<Block>, lo: int, hi: int, k: nat, x: int) returns (b: Block)
    requires WellFormed(c, bs, lo, hi) && k < |bs| && (forall j :: 0 <= j < k ==> bs[j].used)
    requires lo <= x < bs[k].addr
    ensures b in LiveOf(bs) && b.addr <= x < End(c, b)
  {
    WithinBounds(c, bs, lo, hi, k);
    var j := EveryByteInOneBlock(c, bs, lo, hi, x);
    if k < j {
      Ordered(c, bs, lo, hi, k, j);
    }
    b := bs[j];
    LiveMembers(bs, b);
  }

  /** Two blocks of one layout with a common address are the same. */
  lemma OneBlock(c: Config, bs: seq<Block>, lo: int, hi: int, a: Block, b: Block, x: int)
    requires WellFormed(c, bs, lo, hi) && a in bs && b in bs
    requires a.addr <= x < End(c, a) && b.addr <= x < End(c, b)
    ensures a == b
  {
    var i: nat :| i < |bs| && bs[i] == a;
    var j: nat :| j < |bs| && bs[j] == b;
    if i < j {
      Ordered(c, bs, lo, hi, i, j);
    } else if j < i {
      Ordered(c, bs, lo, hi, j, i);
    }
  }

  /** A block split off by a negative request lies outside the heap, or on the header
      or the payload of a block in use: no layout agrees with that. */
  lemma NegativeSplitBreaks(c: Config, bs: seq<Block>, lo: int, hi: int, k: nat, req: int, after: seq<Block>)
    requires WellFormed(c, bs, lo, hi) && 0 <= lo && hi <= U32 && hi - lo - c.item < 0x8000_0000
    requires k < |bs| && (forall j :: 0 <= j < k ==> bs[j].used)
    requires -0x8000_0000 <= req < 0 && Splits(c, bs[k], req)
    ensures !Agrees(c, bs, lo, hi, k, req, after)
  {
    if Agrees(c, bs, lo, hi, k, req, after) {
      var rest :| rest in after && !rest.used && rest.addr == SeparateItem(c, bs[k], req);
      var t :| t in after && t.used && t.addr == bs[k].addr;
      var x := rest.addr;
      InHeap(c, after, lo, hi, rest);
      InHeap(c, after, lo, hi, t);
      WithinBounds(c, bs, lo, hi, k);
      assert x < bs[k].addr + c.item by { SeparateBelow(c, bs[k], lo, hi, req); }
      if x < bs[k].addr {
        var b := LiveBelow(c, bs, lo, hi, k, x);
        OneBlock(c, after, lo, hi, rest, b, x);
        LiveMembers(bs, b);
      } else {
        OneBlock(c, after, lo, hi, rest, t, x);
      }
    }
  }

  lemma InHeap(c: Config, bs: seq<Block>, lo: int, hi: int, b: Block)
    requires WellFormed(c, bs, lo, hi) && b in bs
    ensures lo <= b.addr && b.addr + c.item <= End(c, b) <= hi
  {
    var i: nat :| i < |bs| && bs[i] == b;
    WithinBounds(c, bs, lo, hi, i);
    Around(c, bs, lo, hi, i);
  }

  /** Even where the pointer wraps, it does not reach the part of the heap above. */
  lemma SeparateBelow(c: Config, b: Block, lo: int, hi: int, req: int)
    requires 0 <= lo <= b.addr && hi <= U32 && hi - lo - c.item < 0x8000_0000
    requires -0x8000_0000 <= req < 0 && b.addr + c.item <= hi && SeparateItem(c, b, req) + c.item <= hi
    ensures SeparateItem(c, b, req) < b.addr + c.item
  {
    var a := b.addr + c.item + req;
    if a < 0 {
      ModUnique(a, U32, -1, a + U32);
    } else {
      ModUnique(a, U32, 0, a);
    }
  }

  /** A malloc of `size` leaves memory that agrees with some layout. */
  ghost predicate LeavesLayout(c: Config, s: State, lo: int, hi: int, size: int)
    requires 1 <= c.align <= U32
  {
    var req := Request(c, size);
    var k := FirstFit(s.bs, req);
    size == 0 || k == |s.bs| || exists after :: Agrees(c, s.bs, lo, hi, k, req, after)
  }

  /** Of all `int` sizes, exactly those that do not split a block by a negative request
      leave a layout behind. */
  lemma LeavesLayoutIff(c: Config, s: State, lo: int, hi: int, size: int)
    requires Inv(c, s, lo, hi) && 0 <= lo && hi <= U32 && hi - lo - c.item < 0x8000_0000
    requires IsInt(size)
    ensures 1 <= c.align <= U32
    ensures LeavesLayout(c, s, lo, hi, size) <==> KeepsLayout(c, s, size)
  {
    AlignmentBound(c.align);
    var req := Request(c, size);
    var k := FirstFit(s.bs, req);
    if size != 0 && k < |s.bs| {
      if KeepsLayout(c, s, size) {
        MallocTakes(c, s, size);
        TakeAgrees(c, s.bs, lo, hi, k, req);
      } else {
        LowestFree(c, s.bs, lo, hi, req);
        forall after
          ensures !Agrees(c, s.bs, lo, hi, k, req, after)
        {
          NegativeSplitBreaks(c, s.bs, lo, hi, k, req, after);
        }
      }
    }
  }

  lemma LowestFree(c: Config, bs: seq<Block>, lo: int, hi: int, req: int)
    requires WellFormed(c, bs, lo, hi) && req < 0
    ensures forall j :: 0 <= j < FirstFit(bs, req) ==> bs[j].used
  {
    forall j | 0 <= j < FirstFit(bs, req)
      ensures bs[j].used
    {
      Around(c, bs, lo, hi, j);
    }
  }

  /** malloc(-4) on a new heap of 10240 bytes does not. */
  lemma NegativeSizeBreaksHeap()
    ensures var c := Config(4, 16, 4);
            !LeavesLayout(c, Initial(c, 0x1000, 0x1000 + 10240), 0x1000, 0x1000 + 10240, -4)
  {
    var c := Config(4, 16, 4);
    var s := Initial(c, 0x1000, 0x1000 + 10240);
    assert Pow2(2) == 4;
    InitialInv(c, 0x1000, 0x1000 + 10240);
    RequestBelow(c, -4);
    LeavesLayoutIff(c, s, 0x1000, 0x1000 + 10240, -4);
  }

  // ---- The initial block and the array behind it ----

  /** os_men_init gives the first block OS_MEN_ALLOC_SIZE bytes from the aligned start,
      whatever was lost to alignment. It matches heap_size, and stays within the
      array, exactly when the array itself is aligned (and, for heap_size, its size). */
  lemma InitialBlockFitsIffAligned(align: nat, base: nat, alloc: nat)
    requires IsAlignment(align) && base + alloc + align < U32
    ensures 1 <= align <= U32
    ensures var start := HighAligned(base, align);
            var end := LowAligned(base + alloc, align);
            && (start + alloc <= base + alloc <==> base % align == 0)
            && (start + alloc == end <==> base % align == 0 && alloc % align == 0)
  {
    AlignmentBound(align);
    HighAlignedIsLeast(base, align);
    LowAlignedIsGreatest(base + alloc, align);
    var start, end := HighAligned(base, align), LowAligned(base + alloc, align);
    if base % align == 0 {
      assert start <= base;
      if alloc % align == 0 {
        SumOfMultiples(base, alloc, align);
      }
      if start + alloc == end {
        SumOfMultiples(end, start, align);
      }
    }
  }

  /** An unaligned array of 10240 bytes: the first block runs past its end. */
  lemma UnalignedHeapOverruns()
    ensures HighAligned(1, 4) + 10240 > 1 + 10240
  {
    assert Pow2(2) == 4;
    HighAlignedIsLeast(1, 4);
    assert 4 % 4 == 0;
    InitialBlockFitsIffAligned(4, 1, 10240);
  }
}
