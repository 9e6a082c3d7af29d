/** What FLASH_ROM_ERASE of Peripheral/src/ch32v20x_flash.c must do to a range: the
    erase operations it may use, the coarsest exact cover, and the plan in closed form
    which is proved to be that cover. */
module FlashPlan {
  import opened CBits

  const PAGE: nat := 0x100     // Size_256B
  const SECTOR: nat := 0x1000  // Size_4KB
  const BLOCK: nat := 0x8000   // Size_32KB

  /** One erase operation: the `size` bytes from `addr`. */
  datatype Erase = Erase(addr: nat, size: nat)

  predicate IsSize(g: nat) {
    g == PAGE || g == SECTOR || g == BLOCK
  }

  // ---- The exact cover by the coarsest operations ----

  /** An erase of one of the three sizes, aligned to its size, inside [s, e). */
  predicate Usable(u: Erase, s: nat, e: nat) {
    IsSize(u.size) && u.addr % u.size == 0 && s <= u.addr && u.addr + u.size <= e
  }

  predicate Covers(u: Erase, x: nat) {
    u.addr <= x < u.addr + u.size
  }

  /** No larger usable erase contains `u`. */
  ghost predicate Coarsest(u: Erase, s: nat, e: nat) {
    && Usable(u, s, e)
    && forall v: Erase :: Usable(v, s, e) && v.size > u.size ==> !Covers(v, u.addr)
  }

  ghost predicate CoarsestCover(plan: seq<Erase>, s: nat, e: nat) {
    && (forall u: Erase :: u in plan <==> Coarsest(u, s, e))
    && Distinct(plan)
  }

  ghost predicate Distinct(plan: seq<Erase>) {
    forall i, j :: 0 <= i < j < |plan| ==> plan[i] != plan[j]
  }

  // ---- The plan in closed form ----

  function Down(x: nat, g: nat): (d: nat)
    requires g >= 1
    ensures d <= x < d + g && d % g == 0
  {
    DivMod(x, g);
    MultipleMod(g, x / g);
    x - x % g
  }

  function Up(x: nat, g: nat): (u: nat)
    requires g >= 1
    ensures u < x + g && x <= u && u % g == 0
  {
    DivMod(x, g);
    SumOfMultiples(Down(x, g), if x % g == 0 then 0 else g, g);
    if x % g == 0 then x else Down(x, g) + g
  }

  /** `cnt` erases of size `g` side by side. */
  function Erases(addr: nat, cnt: nat, g: nat): (ops: seq<Erase>)
    ensures |ops| == cnt
    decreases cnt
  {
    if cnt == 0 then [] else [Erase(addr, g)] + Erases(addr + g, cnt - 1, g)
  }

  /** The erases of size `g` that fill [lo, hi). */
  function Fill(lo: nat, hi: int, g: nat): seq<Erase>
    requires g >= 1
  {
    if hi <= lo then [] else Erases(lo, (hi - lo) / g, g)
  }

  /** The 32 KB erases: the aligned blocks inside the range. */
  function Blocks(s: nat, e: nat): seq<Erase> {
    if e < s + BLOCK then [] else Fill(Up(s, BLOCK), Down(e, BLOCK), BLOCK)
  }

  /** The 4 KB erases in front of and behind the blocks. */
  function Sectors(s: nat, e: nat): seq<Erase> {
    if e < s + SECTOR then []
    else if e < s + BLOCK then Fill(Up(s, SECTOR), Down(e, SECTOR), SECTOR)
    else Fill(Up(s, SECTOR), Up(s, BLOCK), SECTOR) + Fill(Down(e, BLOCK), Down(e, SECTOR), SECTOR)
  }

  /** The 256 B erases in front of and behind the sectors. */
  function Pages(s: nat, e: nat): seq<Erase> {
    if e < s + SECTOR then Fill(s, e, PAGE)
    else Fill(s, Up(s, SECTOR), PAGE) + Fill(Down(e, SECTOR), e, PAGE)
  }

  function Plan(s: nat, e: nat): seq<Erase> {
    Blocks(s, e) + (Sectors(s, e) + Pages(s, e))
  }

  // ---- Members of a fill ----

  lemma {:induction false} ErasesConcat(addr: nat, n: nat, m: nat, g: nat)
    ensures Erases(addr, n, g) + Erases(addr + n * g, m, g) == Erases(addr, n + m, g)
    decreases n
  {
    if n == 0 {
      assert addr + 0 * g == addr;
    } else {
      assert addr + g + (n - 1) * g == addr + n * g;
      ErasesConcat(addr + g, n - 1, m, g);
    }
  }

  lemma {:induction false} ErasesAt(addr: nat, cnt: nat, g: nat, i: nat)
    requires i < cnt
    ensures Erases(addr, cnt, g)[i] == Erase(addr + i * g, g)
    decreases cnt
  {
    if i > 0 {
      ErasesAt(addr + g, cnt - 1, g, i - 1);
      assert addr + g + (i - 1) * g == addr + i * g;
    }
  }

  lemma FillCount(lo: nat, hi: nat, g: nat)
    requires IsSize(g) && lo % g == 0 && hi % g == 0 && lo <= hi
    ensures hi - lo == g * ((hi - lo) / g)
  {
    SumOfMultiples(hi, lo, g);
    DivMod(hi - lo, g);
  }

  /** Fill(lo, hi, g) holds exactly the aligned erases of size `g` that start in [lo, hi). */
  lemma FillMembers(lo: nat, hi: nat, g: nat, u: Erase)
    requires IsSize(g) && lo % g == 0 && hi % g == 0
    ensures u in Fill(lo, hi, g) <==> u.size == g && u.addr % g == 0 && lo <= u.addr < hi
  {
    if lo < hi {
      if u in Fill(lo, hi, g) {
        FillMember(lo, hi, g, u);
      }
      if u.size == g && u.addr % g == 0 && lo <= u.addr < hi {
        NextMultiple(u.addr, hi, g);
        MemberOfFill(lo, hi, g, u);
      }
    }
  }

  /** Distinct multiples of `g` are at least `g` apart. */
  lemma NextMultiple(x: nat, y: nat, g: nat)
    requires g >= 1 && x % g == 0 && y % g == 0 && x < y
    ensures x + g <= y
  {
    if y < x + g {
      MultipleGap(x, y, g);
    }
  }

  lemma FillMember(lo: nat, hi: nat, g: nat, u: Erase)
    requires IsSize(g) && lo % g == 0 && hi % g == 0 && lo < hi && u in Fill(lo, hi, g)
    ensures u.size == g && u.addr % g == 0 && lo <= u.addr && u.addr + g <= hi
  {
    var n := (hi - lo) / g;
    FillCount(lo, hi, g);
    var i: nat :| i < n && Fill(lo, hi, g)[i] == u;
    ErasesAt(lo, n, g, i);
    MultipleMod(g, i);
    SumOfMultiples(lo, g * i, g);
    assert g * n == g * i + g * (n - i);
    MulAtLeast(g, n - i);
  }

  lemma MemberOfFill(lo: nat, hi: nat, g: nat, u: Erase)
    requires IsSize(g) && lo % g == 0 && hi % g == 0 && lo < hi
    requires u.size == g && u.addr % g == 0 && lo <= u.addr && u.addr + g <= hi
    ensures u in Fill(lo, hi, g)
  {
    var n, i := (hi - lo) / g, (u.addr - lo) / g;
    FillCount(lo, hi, g);
    FillCount(lo, u.addr, g);
    assert i < n by {
      assert i >= n ==> g * i == g * n + g * (i - n);
    }
    ErasesAt(lo, n, g, i);
    assert Fill(lo, hi, g)[i] == u;
  }

  lemma FillDistinct(lo: nat, hi: nat, g: nat)
    requires IsSize(g)
    ensures Distinct(Fill(lo, hi, g))
  {
    if lo < hi {
      forall i: nat, j: nat | i < j < |Fill(lo, hi, g)|
        ensures Fill(lo, hi, g)[i] != Fill(lo, hi, g)[j]
      {
        ErasesAt(lo, (hi - lo) / g, g, i);
        ErasesAt(lo, (hi - lo) / g, g, j);
        MulAtLeast(g, j - i);
        assert j * g == i * g + g * (j - i);
      }
    }
  }

  // ---- The plan is the coarsest cover ----

  /** The range FLASH_ROM_ERASE accepts. */
  predicate Aligned(s: nat, e: nat) {
    s % PAGE == 0 && e % PAGE == 0 && s < e
  }

  /** Being the coarsest, with the larger erases written out. */
  lemma CoarsestMeans(u: Erase, s: nat, e: nat)
    ensures Coarsest(u, s, e) <==>
              && Usable(u, s, e)
              && (u.size < SECTOR ==> !Usable(Erase(Down(u.addr, SECTOR), SECTOR), s, e))
              && (u.size < BLOCK ==> !Usable(Erase(Down(u.addr, BLOCK), BLOCK), s, e))
  {
    if Usable(u, s, e) {
      forall v: Erase | Usable(v, s, e) && v.size > u.size && Covers(v, u.addr)
        ensures v == Erase(Down(u.addr, v.size), v.size)
      {
        CoveringIsDown(v, u.addr);
      }
      assert Covers(Erase(Down(u.addr, SECTOR), SECTOR), u.addr);
      assert Covers(Erase(Down(u.addr, BLOCK), BLOCK), u.addr);
    }
  }

  lemma CoveringIsDown(v: Erase, x: nat)
    requires IsSize(v.size) && v.addr % v.size == 0 && Covers(v, x)
    ensures v.addr == Down(x, v.size)
  {
    MultipleGap(v.addr, Down(x, v.size), v.size);
    MultipleGap(Down(x, v.size), v.addr, v.size);
  }

  lemma DistinctConcat(a: seq<Erase>, b: seq<Erase>)
    requires Distinct(a) && Distinct(b) && forall u :: u in a ==> u !in b
    ensures Distinct(a + b)
  {
    forall i, j | 0 <= i < j < |a + b|
      ensures (a + b)[i] != (a + b)[j]
    {
      assert i < |a| <= j ==> a[i] in a && b[j - |a|] in b;
    }
  }

  /** Two fills of the same size side by side, or of different sizes, share nothing. */
  lemma FillsApart(lo: nat, hi: nat, g: nat, lo': nat, hi': nat, g': nat)
    requires IsSize(g) && lo % g == 0 && hi % g == 0
    requires IsSize(g') && lo' % g' == 0 && hi' % g' == 0
    requires g != g' || hi <= lo'
    ensures forall u :: u in Fill(lo, hi, g) ==> u !in Fill(lo', hi', g')
  {
    forall u | u in Fill(lo, hi, g)
      ensures u !in Fill(lo', hi', g')
    {
      FillMembers(lo, hi, g, u);
      FillMembers(lo', hi', g', u);
    }
  }

  lemma UpLeast(x: nat, g: nat, m: nat)
    requires g >= 1 && m % g == 0 && x <= m
    ensures Up(x, g) <= m
  {
    MultipleGap(m, Up(x, g), g);
  }

  lemma DownGreatest(x: nat, g: nat, m: nat)
    requires g >= 1 && m % g == 0 && m <= x
    ensures m <= Down(x, g)
  {
    MultipleGap(Down(x, g), m, g);
  }

  /** Multiples of a larger erase size are multiples of the smaller ones. */
  lemma Coarser(x: nat)
    ensures x % BLOCK == 0 ==> x % SECTOR == 0
    ensures x % SECTOR == 0 ==> x % PAGE == 0
  {
    DivMod(x, BLOCK);
    DivMod(x, SECTOR);
    MultipleMod(SECTOR, 8 * (x / BLOCK));
    MultipleMod(PAGE, 16 * (x / SECTOR));
  }

  /** How the cut points of a range lie. */
  lemma Nesting(s: nat, e: nat)
    requires Aligned(s, e)
    ensures s <= Up(s, SECTOR) <= Up(s, BLOCK) && Down(e, BLOCK) <= Down(e, SECTOR) <= e
    ensures Up(s, SECTOR) % PAGE == 0 && Down(e, SECTOR) % PAGE == 0
    ensures Up(s, BLOCK) % SECTOR == 0 && Down(e, BLOCK) % SECTOR == 0
  {
    Coarser(Up(s, SECTOR));
    Coarser(Down(e, SECTOR));
    Coarser(Up(s, BLOCK));
    Coarser(Down(e, BLOCK));
    UpLeast(s, SECTOR, Up(s, BLOCK));
    DownGreatest(e, SECTOR, Down(e, BLOCK));
  }

  /** A range of at least `g` bytes holds its cut points in order; a shorter one holds
      no unit of size `g`. */
  lemma CutPoints(s: nat, e: nat, g: nat)
    requires g >= 1
    ensures e >= s + g ==> Up(s, g) <= Down(e, g)
    ensures e < s + g ==> Down(e, g) <= Up(s, g)
  {
    if e >= s + g {
      DownGreatest(e, g, Up(s, g));
    } else if Up(s, g) < Down(e, g) {
      NextMultiple(Up(s, g), Down(e, g), g);
    }
  }

  /** The aligned unit of size `g` around `x` fits the range exactly when `x` lies
      between the cut points. */
  lemma UnitUsable(x: nat, g: nat, s: nat, e: nat)
    requires IsSize(g)
    ensures Usable(Erase(Down(x, g), g), s, e) <==> Up(s, g) <= x < Down(e, g)
  {
    var d := Down(x, g);
    if s <= d && d + g <= e {
      UpLeast(s, g, d);
      SumOfMultiples(d, g, g);
      DownGreatest(e, g, d + g);
    }
    if Up(s, g) <= x < Down(e, g) {
      DownGreatest(x, g, Up(s, g));
      NextMultiple(d, Down(e, g), g);
    }
  }

  lemma CoarsestByCuts(u: Erase, s: nat, e: nat)
    requires Aligned(s, e)
    ensures Coarsest(u, s, e) <==>
              && IsSize(u.size) && u.addr % u.size == 0 && Up(s, u.size) <= u.addr < Down(e, u.size)
              && (u.size < SECTOR ==> !(Up(s, SECTOR) <= u.addr < Down(e, SECTOR)))
              && (u.size < BLOCK ==> !(Up(s, BLOCK) <= u.addr < Down(e, BLOCK)))
  {
    CoarsestMeans(u, s, e);
    UnitUsable(u.addr, SECTOR, s, e);
    UnitUsable(u.addr, BLOCK, s, e);
    if IsSize(u.size) {
      UnitUsable(u.addr, u.size, s, e);
      if u.addr % u.size == 0 {
        DownGreatest(u.addr, u.size, u.addr);
      }
    }
  }

  lemma PageCuts(s: nat, e: nat)
    requires Aligned(s, e)
    ensures Up(s, PAGE) == s && Down(e, PAGE) == e
  {
  }

  lemma PlanMembers(s: nat, e: nat, u: Erase)
    requires Aligned(s, e)
    ensures u in Plan(s, e) <==> Coarsest(u, s, e)
  {
    CoarsestByCuts(u, s, e);
    PageCuts(s, e);
    Nesting(s, e);
    CutPoints(s, e, SECTOR);
    CutPoints(s, e, BLOCK);
    if e < s + SECTOR {
      FillMembers(s, e, PAGE, u);
    } else {
      var s4, e4 := Up(s, SECTOR), Down(e, SECTOR);
      FillMembers(s, s4, PAGE, u);
      FillMembers(e4, e, PAGE, u);
      if e < s + BLOCK {
        FillMembers(s4, e4, SECTOR, u);
      } else {
        LongPlanMembers(s, e, u);
      }
    }
  }

  lemma LongPlanMembers(s: nat, e: nat, u: Erase)
    requires Aligned(s, e) && e >= s + BLOCK
    ensures var s4, e4, s32, e32 := Up(s, SECTOR), Down(e, SECTOR), Up(s, BLOCK), Down(e, BLOCK);
            u in Plan(s, e) <==>
              || (u.size == BLOCK && u.addr % BLOCK == 0 && s32 <= u.addr < e32)
              || (u.size == SECTOR && u.addr % SECTOR == 0 && (s4 <= u.addr < s32 || e32 <= u.addr < e4))
              || (u.size == PAGE && u.addr % PAGE == 0 && (s <= u.addr < s4 || e4 <= u.addr < e))
  {
    var s4, e4, s32, e32 := Up(s, SECTOR), Down(e, SECTOR), Up(s, BLOCK), Down(e, BLOCK);
    Nesting(s, e);
    FillMembers(s, s4, PAGE, u);
    FillMembers(e4, e, PAGE, u);
    FillMembers(s4, s32, SECTOR, u);
    FillMembers(e32, e4, SECTOR, u);
    FillMembers(s32, e32, BLOCK, u);
  }

  lemma PagesDistinct(s: nat, e: nat)
    requires Aligned(s, e)
    ensures Distinct(Pages(s, e)) && forall u :: u in Pages(s, e) ==> u.size == PAGE
  {
    if e < s + SECTOR {
      FillDistinct(s, e, PAGE);
      FillSize(s, e, PAGE);
    } else {
      var s4, e4 := Up(s, SECTOR), Down(e, SECTOR);
      Nesting(s, e);
      CutPoints(s, e, SECTOR);
      FillDistinct(s, s4, PAGE);
      FillDistinct(e4, e, PAGE);
      FillsApart(s, s4, PAGE, e4, e, PAGE);
      DistinctConcat(Fill(s, s4, PAGE), Fill(e4, e, PAGE));
      FillSize(s, s4, PAGE);
      FillSize(e4, e, PAGE);
    }
  }

  lemma SectorsDistinct(s: nat, e: nat)
    requires Aligned(s, e)
    ensures Distinct(Sectors(s, e)) && forall u :: u in Sectors(s, e) ==> u.size == SECTOR
  {
    var s4, e4, s32, e32 := Up(s, SECTOR), Down(e, SECTOR), Up(s, BLOCK), Down(e, BLOCK);
    Nesting(s, e);
    if e >= s + BLOCK {
      CutPoints(s, e, BLOCK);
      FillDistinct(s4, s32, SECTOR);
      FillDistinct(e32, e4, SECTOR);
      FillsApart(s4, s32, SECTOR, e32, e4, SECTOR);
      DistinctConcat(Fill(s4, s32, SECTOR), Fill(e32, e4, SECTOR));
      FillSize(s4, s32, SECTOR);
      FillSize(e32, e4, SECTOR);
    } else if e >= s + SECTOR {
      FillDistinct(s4, e4, SECTOR);
      FillSize(s4, e4, SECTOR);
    }
  }

  lemma BlocksDistinct(s: nat, e: nat)
    requires Aligned(s, e)
    ensures Distinct(Blocks(s, e)) && forall u :: u in Blocks(s, e) ==> u.size == BLOCK
  {
    FillDistinct(Up(s, BLOCK), Down(e, BLOCK), BLOCK);
    FillSize(Up(s, BLOCK), Down(e, BLOCK), BLOCK);
  }

  lemma FillSize(lo: nat, hi: nat, g: nat)
    requires IsSize(g) && lo % g == 0 && hi % g == 0
    ensures forall u :: u in Fill(lo, hi, g) ==> u.size == g
  {
    forall u | u in Fill(lo, hi, g)
      ensures u.size == g
    {
      FillMembers(lo, hi, g, u);
    }
  }

  lemma PlanDistinct(s: nat, e: nat)
    requires Aligned(s, e)
    ensures Distinct(Plan(s, e))
  {
    BlocksDistinct(s, e);
    SectorsDistinct(s, e);
    PagesDistinct(s, e);
    DistinctConcat(Sectors(s, e), Pages(s, e));
    DistinctConcat(Blocks(s, e), Sectors(s, e) + Pages(s, e));
  }

  /** The plan uses, once each, exactly the coarsest erases that fit the range. */
  lemma PlanIsCoarsestCover(s: nat, e: nat)
    requires Aligned(s, e)
    ensures CoarsestCover(Plan(s, e), s, e)
  {
    forall u: Erase
      ensures u in Plan(s, e) <==> Coarsest(u, s, e)
    {
      PlanMembers(s, e, u);
    }
    PlanDistinct(s, e);
  }

  // ---- Consequences ----

  /** Every address of the range lies in exactly one erase of the plan, and no erase
      reaches outside the range. */
  lemma CoverIsExact(plan: seq<Erase>, s: nat, e: nat, x: nat)
    requires Aligned(s, e) && CoarsestCover(plan, s, e)
    ensures s <= x < e ==> exists i :: 0 <= i < |plan| && Covers(plan[i], x)
    ensures forall i, j :: 0 <= i < |plan| && 0 <= j < |plan| && Covers(plan[i], x) && Covers(plan[j], x) ==> i == j
    ensures forall i :: 0 <= i < |plan| && Covers(plan[i], x) ==> s <= x < e
  {
    if s <= x < e {
      var u := UnitAround(s, e, x);
      assert u in plan;
    }
    forall i, j | 0 <= i < |plan| && 0 <= j < |plan| && Covers(plan[i], x) && Covers(plan[j], x)
      ensures plan[i] == plan[j]
    {
      assert plan[i] in plan && plan[j] in plan;
      CoarsestUnique(plan[i], plan[j], s, e, x);
    }
    forall i | 0 <= i < |plan| && Covers(plan[i], x)
      ensures s <= x < e
    {
      assert plan[i] in plan;
    }
  }

  /** The coarsest erase around an address of the range. */
  lemma UnitAround(s: nat, e: nat, x: nat) returns (u: Erase)
    requires Aligned(s, e) && s <= x < e
    ensures Coarsest(u, s, e) && Covers(u, x)
  {
    UnitUsable(x, PAGE, s, e);
    PageCuts(s, e);
    if Usable(Erase(Down(x, BLOCK), BLOCK), s, e) {
      u := Erase(Down(x, BLOCK), BLOCK);
    } else if Usable(Erase(Down(x, SECTOR), SECTOR), s, e) {
      u := Erase(Down(x, SECTOR), SECTOR);
      SameUnit(x, u.addr);
    } else {
      u := Erase(Down(x, PAGE), PAGE);
      SameUnit(x, u.addr);
    }
    CoarsestMeans(u, s, e);
  }

  /** The larger units around `x` are those around the start of its smaller units. */
  lemma SameUnit(x: nat, d: nat)
    ensures d == Down(x, PAGE) ==> Down(d, SECTOR) == Down(x, SECTOR) && Down(d, BLOCK) == Down(x, BLOCK)
    ensures d == Down(x, SECTOR) ==> Down(d, BLOCK) == Down(x, BLOCK)
  {
    Coarser(Down(x, SECTOR));
    Coarser(Down(x, BLOCK));
    if d == Down(x, PAGE) {
      DownGreatest(x, PAGE, Down(x, SECTOR));
      DownGreatest(x, PAGE, Down(x, BLOCK));
      DownBetween(x, d, SECTOR);
      DownBetween(x, d, BLOCK);
    }
    if d == Down(x, SECTOR) {
      DownGreatest(x, SECTOR, Down(x, BLOCK));
      DownBetween(x, d, BLOCK);
    }
  }

  lemma DownBetween(x: nat, d: nat, g: nat)
    requires g >= 1 && Down(x, g) <= d <= x
    ensures Down(d, g) == Down(x, g)
  {
    DownGreatest(d, g, Down(x, g));
    DownGreatest(x, g, Down(d, g));
  }

  lemma CoarsestUnique(u: Erase, v: Erase, s: nat, e: nat, x: nat)
    requires Coarsest(u, s, e) && Coarsest(v, s, e) && Covers(u, x) && Covers(v, x)
    ensures u == v
  {
    CoveringIsDown(u, x);
    CoveringIsDown(v, x);
    if u.size < v.size {
      CoverNested(u, v, x);
    } else if v.size < u.size {
      CoverNested(v, u, x);
    }
  }

  lemma CoverNested(u: Erase, v: Erase, x: nat)
    requires IsSize(u.size) && IsSize(v.size) && u.size < v.size
    requires u.addr == Down(x, u.size) && v.addr == Down(x, v.size)
    ensures Covers(v, u.addr)
  {
    SameUnit(x, u.addr);
  }

  function CountSize(plan: seq<Erase>, g: nat): nat {
    if plan == [] then 0 else (if plan[0].size == g then 1 else 0) + CountSize(plan[1..], g)
  }

  lemma {:induction false} CountConcat(a: seq<Erase>, b: seq<Erase>, g: nat)
    ensures CountSize(a + b, g) == CountSize(a, g) + CountSize(b, g)
  {
    if a == [] {
      assert a + b == b;
    } else {
      assert (a + b)[1..] == a[1..] + b;
      CountConcat(a[1..], b, g);
    }
  }

  lemma {:induction false} CountErases(addr: nat, cnt: nat, g: nat, g': nat)
    ensures CountSize(Erases(addr, cnt, g), g') == if g == g' then cnt else 0
    decreases cnt
  {
    if cnt > 0 {
      CountErases(addr + g, cnt - 1, g, g');
      assert Erases(addr, cnt, g)[1..] == Erases(addr + g, cnt - 1, g);
    }
  }

  lemma CountFill(lo: nat, hi: nat, g: nat, g': nat, bound: nat)
    requires IsSize(g) && lo % g == 0 && hi % g == 0 && hi < lo + g * (bound + 1)
    ensures g' != g ==> CountSize(Fill(lo, hi, g), g') == 0
    ensures CountSize(Fill(lo, hi, g), g) <= bound
  {
    if lo < hi {
      var n := (hi - lo) / g;
      CountErases(lo, n, g, g');
      CountErases(lo, n, g, g);
      FillCount(lo, hi, g);
      assert n <= bound by {
        assert n > bound ==> g * n == g * (bound + 1) + g * (n - bound - 1);
      }
    }
  }

  lemma PagesCount(s: nat, e: nat)
    requires Aligned(s, e)
    ensures CountSize(Pages(s, e), PAGE) <= 30 && CountSize(Pages(s, e), SECTOR) == 0
  {
    Nesting(s, e);
    if e < s + SECTOR {
      CountFill(s, e, PAGE, SECTOR, 15);
    } else {
      var f, b := Fill(s, Up(s, SECTOR), PAGE), Fill(Down(e, SECTOR), e, PAGE);
      CountFill(s, Up(s, SECTOR), PAGE, SECTOR, 15);
      CountFill(Down(e, SECTOR), e, PAGE, SECTOR, 15);
      CountConcat(f, b, PAGE);
      CountConcat(f, b, SECTOR);
    }
  }

  lemma SectorsCount(s: nat, e: nat)
    requires Aligned(s, e)
    ensures CountSize(Sectors(s, e), SECTOR) <= 14 && CountSize(Sectors(s, e), PAGE) == 0
  {
    var s4, e4, s32, e32 := Up(s, SECTOR), Down(e, SECTOR), Up(s, BLOCK), Down(e, BLOCK);
    Nesting(s, e);
    if e >= s + BLOCK {
      CountFill(s4, s32, SECTOR, PAGE, 7);
      CountFill(e32, e4, SECTOR, PAGE, 7);
      CountConcat(Fill(s4, s32, SECTOR), Fill(e32, e4, SECTOR), SECTOR);
      CountConcat(Fill(s4, s32, SECTOR), Fill(e32, e4, SECTOR), PAGE);
    } else if e >= s + SECTOR {
      CountFill(s4, e4, SECTOR, PAGE, 7);
    }
  }

  /** Whatever the length, at most 14 sector erases and 30 page erases are used. */
  lemma PlanCounts(s: nat, e: nat)
    requires Aligned(s, e)
    ensures CountSize(Plan(s, e), SECTOR) <= 14
    ensures CountSize(Plan(s, e), PAGE) <= 30
  {
    PagesCount(s, e);
    SectorsCount(s, e);
    BlocksDistinct(s, e);
    NoneOfSize(Blocks(s, e), SECTOR);
    NoneOfSize(Blocks(s, e), PAGE);
    CountConcat(Sectors(s, e), Pages(s, e), SECTOR);
    CountConcat(Sectors(s, e), Pages(s, e), PAGE);
    CountConcat(Blocks(s, e), Sectors(s, e) + Pages(s, e), SECTOR);
    CountConcat(Blocks(s, e), Sectors(s, e) + Pages(s, e), PAGE);
  }

  lemma {:induction false} NoneOfSize(a: seq<Erase>, g: nat)
    requires forall u :: u in a ==> u.size != g
    ensures CountSize(a, g) == 0
  {
    if a != [] {
      NoneOfSize(a[1..], g);
    }
  }

  // ---- The plan of a range whose end does not fit uint32_t ----

  /** The erases as the hardware is given them, each address a uint32_t. */
  function Wrapped(ops: seq<Erase>): (r: seq<Erase>)
    ensures |r| == |ops|
  {
    seq(|ops|, i requires 0 <= i < |ops| => Erase(ops[i].addr % U32, ops[i].size))
  }

  lemma WrappedConcat(a: seq<Erase>, b: seq<Erase>)
    ensures Wrapped(a + b) == Wrapped(a) + Wrapped(b)
  {
  }

  /** Wrapping an address keeps its place within a unit. */
  lemma ModSize(v: nat, g: nat)
    requires IsSize(g)
    ensures (v % U32) % g == v % g && U32 % g == 0
  {
    var h := if g == PAGE then 0x100_0000 else if g == SECTOR then 0x10_0000 else 0x2_0000;
    var q, r := v / U32, v % U32;
    assert U32 == g * h;
    ModUnique(U32, g, h, 0);
    DivMod(v, U32);
    DivMod(r, g);
    assert U32 * q == g * (h * q);
    assert v == g * (h * q + r / g) + r % g;
    ModUnique(v, g, h * q + r / g, r % g);
  }

  /** A unit does not reach across 2^32. */
  lemma UnitBelowEnd(addr: nat, g: nat)
    requires IsSize(g) && addr % g == 0
    ensures addr % U32 % g == 0 && addr % U32 + g <= U32
  {
    ModSize(addr, g);
    ModUnique(g, g, 1, 0);
    SumOfMultiples(U32, g, g);
    MultipleGap(U32 - g, addr % U32, g);
  }

  lemma WrappedCovers(u: Erase, x: nat)
    requires IsSize(u.size) && u.addr % u.size == 0 && u.addr < 2 * U32 && x < U32
    ensures Covers(Erase(u.addr % U32, u.size), x) <==> Covers(u, x) || Covers(u, x + U32)
  {
    UnitBelowEnd(u.addr, u.size);
    if u.addr < U32 {
      ModUnique(u.addr, U32, 0, u.addr);
    } else {
      ModUnique(u.addr, U32, 1, u.addr - U32);
    }
  }

  ghost predicate Touches(ops: seq<Erase>, x: nat) {
    exists i :: 0 <= i < |ops| && Covers(ops[i], x)
  }

  /** The erases given to the hardware touch the addresses of the range modulo 2^32, each
      once, and no others. */
  lemma WrappedTouches(s: nat, e: nat, x: nat)
    requires Aligned(s, e) && s < U32 && e <= s + U32 && x < U32
    ensures Touches(Wrapped(Plan(s, e)), x) <==> s <= x < e || s <= x + U32 < e
    ensures var w := Wrapped(Plan(s, e));
            forall i, j :: 0 <= i < |w| && 0 <= j < |w| && Covers(w[i], x) && Covers(w[j], x) ==> i == j
  {
    var plan := Plan(s, e);
    var w := Wrapped(plan);
    PlanIsCoarsestCover(s, e);
    CoverIsExact(plan, s, e, x);
    CoverIsExact(plan, s, e, x + U32);
    forall i | 0 <= i < |plan|
      ensures Covers(w[i], x) <==> Covers(plan[i], x) || Covers(plan[i], x + U32)
    {
      assert plan[i] in plan && Coarsest(plan[i], s, e);
      WrappedCovers(plan[i], x);
    }
  }

  /** Without a wrap they are the plan itself. */
  lemma WrappedPlanSame(s: nat, e: nat)
    requires Aligned(s, e) && e <= U32
    ensures Wrapped(Plan(s, e)) == Plan(s, e)
  {
    var plan := Plan(s, e);
    PlanIsCoarsestCover(s, e);
    forall i | 0 <= i < |plan|
      ensures Wrapped(plan)[i] == plan[i]
    {
      assert plan[i] in plan && Coarsest(plan[i], s, e);
      ModUnique(plan[i].addr, U32, 0, plan[i].addr);
    }
  }
}
