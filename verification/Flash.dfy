/** The erase and write routines of Peripheral/src/ch32v20x_flash.c as they run. */
module Flash {
  import opened CBits
  import opened FlashPlan
  import opened FlashCells

  datatype Status = AdrRangeError | OpRangeError | AlignError | Complete

  /** The shift amounts of the three sizes: PAGE == 2^8, SECTOR == 2^12, BLOCK == 2^15. */
  function Log2(g: nat): nat
    requires IsSize(g)
  {
    if g == PAGE then 8 else if g == SECTOR then 12 else 15
  }

  lemma SizeIsPow2(g: nat)
    requires IsSize(g)
    ensures Pow2(Log2(g)) == g
  {
    assert Pow2(4) == 16;
    assert Pow2(8) == 0x100;
    assert Pow2(12) == 0x1000;
    assert Pow2(15) == 0x8000;
  }

  /** The three alignment tests of the checks. */
  lemma AlignedMeans(startAddr: nat, length: nat)
    requires startAddr < U32 && length < U32
    ensures And(startAddr, PAGE - 1) == 0 && And(length, PAGE - 1) == 0 && length != 0
            <==> Aligned(startAddr, startAddr + length)
  {
    Masks(startAddr, PAGE);
    Masks(length, PAGE);
    PageSums(startAddr, length);
  }

  lemma PageSums(s: nat, n: nat)
    ensures s % PAGE == 0 ==> ((s + n) % PAGE == 0 <==> n % PAGE == 0)
  {
    if s % PAGE == 0 {
      if n % PAGE == 0 {
        SumOfMultiples(s, n, PAGE);
      }
      if (s + n) % PAGE == 0 {
        SumOfMultiples(s + n, s, PAGE);
      }
    }
  }

  /** The masks of a wrapped address. */
  lemma WrapMasks(v: nat, g: nat)
    requires IsSize(g)
    ensures And(v % U32, g - 1) == v - Down(v, g)
    ensures And(v % U32, Not32(g - 1)) == Down(v, g) % U32
  {
    var r := v % U32;
    Masks(r, g);
    ModSize(v, g);
    DivMod(v, U32);
    ModUnique(Down(v, g), U32, v / U32, Down(r, g));
  }

  /** `v & (g - 1)` and `v & ~(g - 1)`. */
  lemma Masks(v: nat, g: nat)
    requires IsSize(g) && v < U32
    ensures And(v, g - 1) == v % g
    ensures And(v, Not32(g - 1)) == Down(v, g)
  {
    SizeIsPow2(g);
    AndLowMask(v, Log2(g));
    AndNotMask(v, Log2(g));
  }

  lemma MaskBelow(v: nat, g: nat)
    requires IsSize(g) && v < U32
    ensures And(v, g - 1) < g
  {
    Masks(v, g);
  }

  /** Carrying out the first of `left` erases. */
  lemma EraseOne(log: seq<Erase>, c: seq<Cell>, addr: nat, left: nat, size: nat)
    requires left >= 1
    ensures var u, rest := Erase(addr % U32, size), Wrapped(Erases(addr + size, left - 1, size));
            && log + Wrapped(Erases(addr, left, size)) == log + [u] + rest
            && Apply(c, Wrapped(Erases(addr, left, size))) == Apply(EraseCells(c, u), rest)
  {
    var all := Erases(addr, left, size);
    assert all == [Erase(addr, size)] + Erases(addr + size, left - 1, size);
    WrappedConcat([Erase(addr, size)], Erases(addr + size, left - 1, size));
    assert Wrapped([Erase(addr, size)]) == [Erase(addr % U32, size)];
    assert Wrapped(all)[1..] == Wrapped(Erases(addr + size, left - 1, size));
  }

  /** The next unit, the sum as uint32_t. */
  lemma NextUnit(addr: nat, size: nat)
    requires IsSize(size) && addr % size == 0
    ensures (addr % U32) % size == 0 && (addr + size) % size == 0
    ensures (addr % U32 + size) % U32 == (addr + size) % U32
  {
    ModSize(addr, size);
    ModUnique(size, size, 1, 0);
    SumOfMultiples(addr, size, size);
    WrapSum(addr, size);
  }

  lemma WrapSum(a: nat, b: nat)
    ensures (a % U32 + b) % U32 == (a + b) % U32
  {
    var q, m := a / U32, a % U32 + b;
    DivMod(a, U32);
    DivMod(m, U32);
    assert a + b == U32 * (q + m / U32) + m % U32;
    ModUnique(a + b, U32, q + m / U32, m % U32);
  }

  class Controller {
    const validStart: nat
    const validEnd: nat

    var cells: array<Cell>
    var log: seq<Erase>  // the erases carried out so far

    ghost predicate Valid()
      reads this
    {
      validEnd <= 4 * cells.Length && validEnd < U32
    }

    constructor (validStart: nat, validEnd: nat, words: nat)
      requires validEnd <= 4 * words && validEnd < U32
      ensures Valid() && log == [] && this.validStart == validStart && this.validEnd == validEnd
      ensures fresh(cells) && cells.Length == words
    {
      this.validStart, this.validEnd := validStart, validEnd;
      cells := new Cell[words](_ => Erased);
      log := [];
    }

    /** One erase carried out by the hardware. */
    method EraseUnit(addr: nat, size: nat)
      requires IsSize(size) && addr % size == 0
      modifies this`log, cells
      ensures log == old(log) + [Erase(addr, size)]
      ensures cells[..] == EraseCells(old(cells[..]), Erase(addr, size))
    {
      forall k | 0 <= k < cells.Length && addr <= 4 * k < addr + size {
        cells[k] := Erased;
      }
      log := log + [Erase(addr, size)];
    }

    /** ROM_ERASE: with a count of at least one the do-while runs exactly `cnt` times.
        The address is that of `a` as a uint32_t. */
    method RomErase(startAddr: nat, cnt: nat, size: nat, ghost a: nat)
      requires 1 <= cnt < U32
      requires IsSize(size) && a % size == 0 && startAddr == a % U32
      modifies this`log, cells
      ensures log == old(log) + Wrapped(Erases(a, cnt, size))
      ensures cells[..] == Apply(old(cells[..]), Wrapped(Erases(a, cnt, size)))
    {
      var addr: nat, left: nat := startAddr, cnt;
      ghost var b: nat := a;
      ghost var all, c := Wrapped(Erases(a, cnt, size)), cells[..];
      while true
        invariant 1 <= left <= cnt && b % size == 0 && addr == b % U32
        invariant log + Wrapped(Erases(b, left, size)) == old(log) + all
        invariant Apply(cells[..], Wrapped(Erases(b, left, size))) == Apply(c, all)
        decreases left
      {
        NextUnit(b, size);
        EraseOne(log, cells[..], b, left, size);
        EraseUnit(addr, size);
        addr := (addr + size) % U32;
        b := b + size;
        left := left - 1;
        if left == 0 {
          break;
        }
      }
    }

    /** The front part: erases what it can of [addr0, addr0 + length0) in units of `g`,
        up to the aligned end of that part, and returns the length left before them. */
    method EraseFront(addr0: nat, length0: nat, g: nat) returns (rest: nat)
      requires IsSize(g) && addr0 < U32 && length0 < U32
      requires length0 >= g ==> (addr0 + length0) % g == 0
      modifies this`log, cells
      ensures rest == FrontRest(addr0, length0, g) && rest < U32
      ensures log == old(log) + Wrapped(FrontPart(addr0, length0, g))
      ensures cells[..] == Apply(old(cells[..]), Wrapped(FrontPart(addr0, length0, g)))
    {
      rest := length0;
      if length0 >= g {
        MaskBelow(addr0, g);
        if And(addr0, g - 1) != 0 {
          rest := g - And(addr0, g - 1);
        } else {
          rest := 0;
        }
        FrontStep(addr0, length0, g, rest);
        RomErase((addr0 + rest) % U32, (length0 - rest) / g, g, addr0 + rest);
      }
    }

    /** The back part: erases what it can of [a1, a1 + length1) in units of `g`, from its
        aligned start, and returns what is left behind them. `addr1` is `a1` as a
        uint32_t. */
    method EraseBack(addr1: nat, length1: nat, g: nat, ghost a1: nat) returns (addr: nat, rest: nat)
      requires IsSize(g) && length1 < U32 && addr1 == a1 % U32
      requires length1 >= g ==> a1 % g == 0
      modifies this`log, cells
      ensures rest == BackRest(a1, length1, g) && rest < U32
      ensures addr == BackAddr(a1, length1, g) % U32
      ensures log == old(log) + Wrapped(BackPart(a1, length1, g))
      ensures cells[..] == Apply(old(cells[..]), Wrapped(BackPart(a1, length1, g)))
    {
      addr, rest := addr1, length1;
      if length1 >= g {
        var end := (addr1 + length1) % U32;
        WrapSum(a1, length1);
        BackLeft(a1, length1, g, end);
        if And(end, g - 1) != 0 {
          addr := And(end, Not32(g - 1));
          rest := And(end, g - 1);
        } else {
          rest := 0;
        }
        BackErases(a1, length1, g, rest);
        RomErase(addr1, (length1 - rest) / g, g, a1);
      }
    }

    /** The front and the back part in turn. */
    method EraseUnits(addr0: nat, length0: nat, addr1: nat, length1: nat, g: nat, ghost a1: nat)
      returns (rest0: nat, addr: nat, rest1: nat)
      requires IsSize(g) && addr0 < U32 && length0 < U32 && length1 < U32 && addr1 == a1 % U32
      requires (length0 >= g ==> (addr0 + length0) % g == 0) && (length1 >= g ==> a1 % g == 0)
      modifies this`log, cells
      ensures rest0 == FrontRest(addr0, length0, g) && rest1 == BackRest(a1, length1, g)
      ensures rest0 < U32 && rest1 < U32 && addr == BackAddr(a1, length1, g) % U32
      ensures log == old(log) + Wrapped(FrontPart(addr0, length0, g) + BackPart(a1, length1, g))
      ensures cells[..] == Apply(old(cells[..]), Wrapped(FrontPart(addr0, length0, g) + BackPart(a1, length1, g)))
    {
      ghost var l, c := log, cells[..];
      rest0 := EraseFront(addr0, length0, g);
      addr, rest1 := EraseBack(addr1, length1, g, a1);
      Compose(l, c, FrontPart(addr0, length0, g), BackPart(a1, length1, g));
    }

    /** The whole pages of [a, a + length), if any. */
    method ErasePages(addr: nat, length: nat, ghost a: nat)
      requires addr == a % U32 && length < U32 && a % PAGE == 0 && length % PAGE == 0
      modifies this`log, cells
      ensures log == old(log) + Wrapped(Fill(a, a + length, PAGE))
      ensures cells[..] == Apply(old(cells[..]), Wrapped(Fill(a, a + length, PAGE)))
    {
      if length != 0 {
        SumOfMultiples(a, length, PAGE);
        FillCount(a, a + length, PAGE);
        RomErase(addr, length / PAGE, PAGE, a);
      }
    }

    method EraseEnds(addr0: nat, length0: nat, addr1: nat, length1: nat, ghost a1: nat)
      requires addr0 < U32 && length0 < U32 && length1 < U32 && addr1 == a1 % U32
      requires addr0 % PAGE == 0 && length0 % PAGE == 0 && a1 % PAGE == 0 && length1 % PAGE == 0
      modifies this`log, cells
      ensures var pages := Fill(addr0, addr0 + length0, PAGE) + Fill(a1, a1 + length1, PAGE);
              log == old(log) + Wrapped(pages) && cells[..] == Apply(old(cells[..]), Wrapped(pages))
    {
      ghost var l, c := log, cells[..];
      ErasePages(addr0, length0, addr0);
      ErasePages(addr1, length1, a1);
      Compose(l, c, Fill(addr0, addr0 + length0, PAGE), Fill(a1, a1 + length1, PAGE));
    }

    /** The parameter checks shared by the two routines, the sum as uint32_t. */
    function Check(startAddr: nat, length: nat): Status {
      if startAddr < validStart || startAddr >= validEnd then AdrRangeError
      else if (startAddr + length) % U32 > validEnd then OpRangeError
      else if And(startAddr, PAGE - 1) != 0 || And(length, PAGE - 1) != 0 || length == 0 then AlignError
      else Complete
    }

    /** What the checks accept: page-aligned, non-empty, and inside the valid window
        exactly when the sum of start and length does not wrap. */
    lemma CheckMeans(startAddr: nat, length: nat)
      requires startAddr < U32 && length < U32 && validEnd < U32
      ensures Check(startAddr, length) == Complete ==>
                Aligned(startAddr, startAddr + length) && validStart <= startAddr < validEnd
      ensures Check(startAddr, length) == Complete ==>
                (startAddr + length <= validEnd <==> startAddr + length < U32)
      ensures Aligned(startAddr, startAddr + length) && validStart <= startAddr && startAddr + length <= validEnd ==>
                Check(startAddr, length) == Complete
    {
      AlignedMeans(startAddr, length);
      if startAddr + length < U32 {
        ModUnique(startAddr + length, U32, 0, startAddr + length);
      }
    }

    /** Which error a refused range gets: its start is outside the window, else its end as
        a uint32_t lies behind it, else it is empty or not made of whole pages. */
    lemma CheckStatus(startAddr: nat, length: nat)
      requires startAddr < U32 && length < U32
      ensures var inside := validStart <= startAddr < validEnd;
              var ends := (startAddr + length) % U32 <= validEnd;
              && (Check(startAddr, length) == AdrRangeError <==> !inside)
              && (Check(startAddr, length) == OpRangeError <==> inside && !ends)
              && (Check(startAddr, length) == AlignError <==>
                    inside && ends && !Aligned(startAddr, startAddr + length))
    {
      AlignedMeans(startAddr, length);
    }

    /** The checks on a range whose sum wraps: accepted, though it ends far outside. */
    lemma WrappedRangeAccepted()
      requires validStart == 0x800_0000 && validEnd == 0x803_8000
      ensures Check(0x800_0000, 0xF800_0100) == Complete
      ensures 0x800_0000 + 0xF800_0100 > validEnd
    {
      AlignedMeans(0x800_0000, 0xF800_0100);
      assert 0x800_0000 % 0x100 == 0;
      assert (0x800_0000 + 0xF800_0100) % 0x100 == 0;
    }

    /** An accepted range is erased inside the window exactly when its sum does not wrap.
        Otherwise the first address behind the window is erased too. */
    lemma StaysInWindowIff(startAddr: nat, length: nat)
      requires startAddr < U32 && length < U32 && validEnd < U32
      requires Check(startAddr, length) == Complete
      ensures var ops := Wrapped(Plan(startAddr, startAddr + length));
              && ((forall x :: 0 <= x < U32 && Touches(ops, x) ==> validStart <= x < validEnd)
                  <==> startAddr + length < U32)
              && (startAddr + length >= U32 ==> Touches(ops, validEnd))
    {
      var s, e := startAddr, startAddr + length;
      CheckMeans(s, length);
      if e < U32 {
        forall x | 0 <= x < U32 && Touches(Wrapped(Plan(s, e)), x)
          ensures validStart <= x < validEnd
        {
          WrappedTouches(s, e, x);
        }
      } else {
        WrappedTouches(s, e, validEnd);
      }
    }

    /** FLASH_ROM_ERASE: the erases, once the range is split into front and back. */
    method EraseRange(ghost s: nat, ghost len: nat, addr0: nat, length0: nat, addr1: nat, length1: nat, ghost a1: nat)
      requires s < U32 && addr0 == s && length0 < U32 && length1 < U32 && addr1 == a1 % U32
      requires Split(s, s + len, length0, a1, length1)
      modifies this`log, cells
      ensures log == old(log) + Wrapped(Plan(s, s + len))
      ensures cells[..] == Apply(old(cells[..]), Wrapped(Plan(s, s + len)))
    {
      ghost var e, l, c := s + len, log, cells[..];
      SplitFacts(s, e, length0, a1, length1);
      // Erase 32KB
      var l0, addr, l1 := EraseUnits(addr0, length0, addr1, length1, BLOCK, a1);
      ghost var a := BackAddr(a1, length1, BLOCK);
      AfterBlocks(s, e, length0, a1, length1, a);
      EraseRest(s, len, addr0, l0, addr, l1, a);
      Compose(l, c, Blocks(s, e), Sectors(s, e) + Pages(s, e));
    }

    /** FLASH_ROM_ERASE: the 4 KB and 256 B erases. */
    method EraseRest(ghost s: nat, ghost len: nat, addr0: nat, length0: nat, addr1: nat, length1: nat, ghost a1: nat)
      requires s < U32 && addr0 == s && length0 < U32 && length1 < U32 && addr1 == a1 % U32
      requires BlocksDone(s, s + len, length0, a1, length1)
      modifies this`log, cells
      ensures log == old(log) + Wrapped(Sectors(s, s + len) + Pages(s, s + len))
      ensures cells[..] == Apply(old(cells[..]), Wrapped(Sectors(s, s + len) + Pages(s, s + len)))
    {
      RestReady(s, s + len, length0, a1, length1);
      EraseSectorsAndPages(addr0, length0, addr1, length1, a1, Sectors(s, s + len), Pages(s, s + len));
    }

    method EraseSectorsAndPages(addr0: nat, length0: nat, addr1: nat, length1: nat, ghost a1: nat,
                                ghost sectors: seq<Erase>, ghost pages: seq<Erase>)
      requires addr0 < U32 && length0 < U32 && length1 < U32 && addr1 == a1 % U32
      requires Ready(addr0, length0, a1, length1)
      requires sectors == FrontPart(addr0, length0, SECTOR) + BackPart(a1, length1, SECTOR)
      requires pages == PagesOf(addr0, length0, a1, length1)
      modifies this`log, cells
      ensures log == old(log) + Wrapped(sectors + pages)
      ensures cells[..] == Apply(old(cells[..]), Wrapped(sectors + pages))
    {
      ghost var l, c := log, cells[..];
      // Erase 4KB
      var l0, addr, l1 := EraseUnits(addr0, length0, addr1, length1, SECTOR, a1);
      // Erase 256B
      EraseEnds(addr0, l0, addr, l1, BackAddr(a1, length1, SECTOR));
      Compose(l, c, sectors, pages);
    }

    /** FLASH_ROM_ERASE: the first split into front and back. The back starts at `a1`. */
    method SplitRange(addr0: nat, length: nat) returns (length0: nat, addr1: nat, length1: nat, ghost a1: nat)
      requires Aligned(addr0, addr0 + length) && addr0 < U32 && length < U32
      ensures Split(addr0, addr0 + length, length0, a1, length1)
      ensures length0 < U32 && length1 < U32 && addr1 == a1 % U32
    {
      length0, addr1, length1, a1 := 0, 0, 0, 0;
      if length >= BLOCK {
        Masks(addr0, BLOCK);
        length0 := BLOCK - And(addr0, BLOCK - 1);
        a1 := addr0 + length0;
        addr1 := (addr0 + length0) % U32;
        length1 := length - length0;
      } else if length >= SECTOR {
        Masks(addr0, SECTOR);
        length0 := SECTOR - And(addr0, SECTOR - 1);
        a1 := addr0 + length0;
        addr1 := (addr0 + length0) % U32;
        length1 := length - length0;
      } else if length >= PAGE {
        length0 := length;
      }
      assert length >= PAGE by { NextMultiple(addr0, addr0 + length, PAGE); }
    }

    /** FLASH_ROM_ERASE, for every start and length. The erases are those of the plan, at
        their addresses as uint32_t; of a range that does not wrap, the plan itself. */
    method FlashRomErase(startAddr: nat, length: nat) returns (status: Status)
      requires Valid() && startAddr < U32 && length < U32
      modifies this`log, cells
      ensures status == Check(startAddr, length)
      ensures status != Complete ==> log == old(log) && cells[..] == old(cells[..])
      ensures status == Complete ==>
                && log == old(log) + Wrapped(Plan(startAddr, startAddr + length))
                && cells[..] == Apply(old(cells[..]), Wrapped(Plan(startAddr, startAddr + length)))
      ensures status == Complete && startAddr + length < U32 ==>
                && log == old(log) + Plan(startAddr, startAddr + length)
                && cells[..] == Apply(old(cells[..]), Plan(startAddr, startAddr + length))
    {
      if startAddr < validStart || startAddr >= validEnd {
        return AdrRangeError;
      }
      if (startAddr + length) % U32 > validEnd {
        return OpRangeError;
      }
      if And(startAddr, PAGE - 1) != 0 || And(length, PAGE - 1) != 0 || length == 0 {
        return AlignError;
      }
      CheckMeans(startAddr, length);
      var addr0 := startAddr;
      var length0, addr1, length1, a1 := SplitRange(startAddr, length);
      EraseRange(startAddr, length, addr0, length0, addr1, length1, a1);
      if startAddr + length < U32 {
        WrappedPlanSame(startAddr, startAddr + length);
      }
      status := Complete;
    }

    /** FLASH_ROM_WRITE, `pbuf` being the words behind the pointer. */
    method FlashRomWrite(startAddr: nat, pbuf: seq<bv32>, length: nat) returns (status: Status)
      requires Valid() && startAddr < U32 && length < U32
      requires Check(startAddr, length) == Complete ==> startAddr + length < U32
      requires Check(startAddr, length) == Complete ==> length <= 4 * |pbuf|
      modifies cells
      ensures status == Check(startAddr, length)
      ensures status != Complete ==> cells[..] == old(cells[..])
      ensures status == Complete ==>
                && startAddr % 4 == 0
                && cells[..] == Write(old(cells[..]), startAddr, startAddr + length, pbuf)
    {
      if startAddr < validStart || startAddr >= validEnd {
        return AdrRangeError;
      }
      if (startAddr + length) % U32 > validEnd {
        return OpRangeError;
      }
      if And(startAddr, PAGE - 1) != 0 || And(length, PAGE - 1) != 0 || length == 0 {
        return AlignError;
      }
      CheckMeans(startAddr, length);
      WordAligned(startAddr);
      SumOfMultiples(startAddr + length, startAddr, PAGE);
      MultipleAtLeastPage(length);
      WritePages(startAddr, pbuf, length / PAGE);
      status := Complete;
    }

    /** One word. */
    method WriteWord(ghost c: seq<Cell>, ghost s: nat, addr: nat, pbuf: seq<bv32>, p: nat)
      requires s % 4 == 0 && addr == s + 4 * p && addr < 4 * cells.Length && p < |pbuf|
      requires |c| == cells.Length && cells[..] == Write(c, s, addr, pbuf)
      modifies cells
      ensures cells[..] == Write(c, s, addr + 4, pbuf)
    {
      WriteOne(c, s, p, pbuf);
      cells[addr / 4] := Program(cells[addr / 4], pbuf[p]);
    }

    /** The 64 words of one page. */
    method WritePage(ghost c: seq<Cell>, ghost s: nat, addr0: nat, pbuf: seq<bv32>, p0: nat)
      requires Valid() && s % 4 == 0 && addr0 == s + 4 * p0 && addr0 + PAGE <= validEnd && p0 + 64 <= |pbuf|
      requires |c| == cells.Length && cells[..] == Write(c, s, addr0, pbuf)
      modifies cells
      ensures cells[..] == Write(c, s, addr0 + PAGE, pbuf)
    {
      var addr, p, size := addr0, p0, 64;
      while size != 0
        modifies cells
        invariant 0 <= size <= 64 && p == p0 + (64 - size) && addr == s + 4 * p
        invariant cells[..] == Write(c, s, addr, pbuf)
        decreases size
      {
        WriteWord(c, s, addr, pbuf, p);
        addr := addr + 4;
        p := p + 1;
        size := size - 1;
      }
    }

    /** The do-while over `pages` pages. */
    method WritePages(startAddr: nat, pbuf: seq<bv32>, pages: nat)
      requires Valid() && pages >= 1 && startAddr % 4 == 0 && startAddr + PAGE * pages <= validEnd
      requires 64 * pages <= |pbuf|
      modifies cells
      ensures cells[..] == Write(old(cells[..]), startAddr, startAddr + PAGE * pages, pbuf)
    {
      ghost var c := cells[..];
      var addr, p, i := startAddr, 0, pages;
      while true
        modifies cells
        invariant 1 <= i <= pages && p == 64 * (pages - i) && addr == startAddr + 4 * p
        invariant cells[..] == Write(c, startAddr, addr, pbuf)
        decreases i
      {
        WritePage(c, startAddr, addr, pbuf, p);
        addr := addr + PAGE;
        p := p + 64;
        i := i - 1;
        if i == 0 {
          break;
        }
      }
    }
  }

  // ---- The pieces the code erases, and the plan they make up ----

  function FrontPart(addr0: nat, length0: nat, g: nat): seq<Erase>
    requires g >= 1
  {
    if length0 >= g then Fill(Up(addr0, g), addr0 + length0, g) else []
  }

  function FrontRest(addr0: nat, length0: nat, g: nat): nat
    requires g >= 1
  {
    if length0 >= g then Up(addr0, g) - addr0 else length0
  }

  function BackPart(addr1: nat, length1: nat, g: nat): seq<Erase>
    requires g >= 1
  {
    if length1 >= g then Fill(addr1, Down(addr1 + length1, g), g) else []
  }

  function BackRest(addr1: nat, length1: nat, g: nat): nat
    requires g >= 1
  {
    if length1 >= g then addr1 + length1 - Down(addr1 + length1, g) else length1
  }

  function BackAddr(addr1: nat, length1: nat, g: nat): nat
    requires g >= 1
  {
    if length1 >= g && BackRest(addr1, length1, g) > 0 then Down(addr1 + length1, g) else addr1
  }

  /** The first split of the range [s, e). */
  ghost predicate Split(s: nat, e: nat, length0: nat, addr1: nat, length1: nat) {
    && Aligned(s, e)
    && if e >= s + BLOCK then
         length0 == BLOCK - s % BLOCK && addr1 == s + length0 && addr1 + length1 == e
       else if e >= s + SECTOR then
         length0 == SECTOR - s % SECTOR && addr1 == s + length0 && addr1 + length1 == e
       else
         length0 == e - s && addr1 == 0 && length1 == 0
  }

  lemma SplitFacts(s: nat, e: nat, length0: nat, addr1: nat, length1: nat)
    requires Split(s, e, length0, addr1, length1)
    ensures s + length0 <= e && addr1 + length1 <= e
    ensures length0 >= BLOCK ==> (s + length0) % BLOCK == 0
    ensures length1 >= BLOCK ==> addr1 % BLOCK == 0
  {
    NextBoundary(s, BLOCK);
    NextBoundary(s, SECTOR);
  }

  /** After the 32 KB erases: what is left in front of and behind the blocks. */
  ghost predicate BlocksDone(s: nat, e: nat, length0: nat, addr1: nat, length1: nat) {
    && Aligned(s, e) && addr1 + length1 <= e && addr1 % PAGE == 0
    && if e >= s + BLOCK then
         && s + length0 == Up(s, BLOCK) && length1 == e - Down(e, BLOCK)
         && (length1 > 0 ==> addr1 == Down(e, BLOCK))
       else
         Split(s, e, length0, addr1, length1)
  }

  lemma AfterBlocks(s: nat, e: nat, length0: nat, addr1: nat, length1: nat, addr: nat)
    requires Split(s, e, length0, addr1, length1)
    requires addr == BackAddr(addr1, length1, BLOCK)
    ensures BlocksDone(s, e, FrontRest(s, length0, BLOCK), addr, BackRest(addr1, length1, BLOCK))
    ensures FrontPart(s, length0, BLOCK) + BackPart(addr1, length1, BLOCK)
            == Blocks(s, e)
  {
    NextBoundary(s, BLOCK);
    NextBoundary(s, SECTOR);
    Coarser(s + (BLOCK - s % BLOCK));
    Coarser(s + (SECTOR - s % SECTOR));
    Nesting(s, e);
    Coarser(Down(e, BLOCK));
    BlocksParts(s, e, length0, addr1, length1);
  }

  lemma BlocksParts(s: nat, e: nat, length0: nat, addr1: nat, length1: nat)
    requires Split(s, e, length0, addr1, length1)
    ensures e >= s + BLOCK ==> addr1 <= Down(e, BLOCK) && (length1 < BLOCK ==> Down(e, BLOCK) == addr1)
    ensures FrontPart(s, length0, BLOCK) + BackPart(addr1, length1, BLOCK) == Blocks(s, e)
  {
    if e >= s + BLOCK {
      FrontAndBack(s, e, BLOCK);
    }
  }

  lemma BlocksDoneFacts(s: nat, e: nat, length0: nat, addr1: nat, length1: nat)
    requires BlocksDone(s, e, length0, addr1, length1)
    ensures s + length0 <= e
    ensures length0 >= SECTOR ==> (s + length0) % SECTOR == 0
    ensures length1 >= SECTOR ==> addr1 % SECTOR == 0
  {
    Nesting(s, e);
    NextBoundary(s, SECTOR);
    CutPoints(s, e, BLOCK);
  }

  /** Carrying out two lists of erases one after the other. */
  lemma Compose(log: seq<Erase>, c: seq<Cell>, x: seq<Erase>, y: seq<Erase>)
    ensures log + Wrapped(x) + Wrapped(y) == log + Wrapped(x + y)
    ensures Apply(Apply(c, Wrapped(x)), Wrapped(y)) == Apply(c, Wrapped(x + y))
  {
    WrappedConcat(x, y);
    ApplyConcat(c, Wrapped(x), Wrapped(y));
  }

  /** What is left after the 4 KB erases is the whole pages outside the sectors. */
  lemma PagesLeft(s: nat, e: nat, length0: nat, addr1: nat, length1: nat, addr: nat)
    requires BlocksDone(s, e, length0, addr1, length1) && e >= s + SECTOR
    requires addr == BackAddr(addr1, length1, SECTOR)
    ensures var rest0, rest1 := FrontRest(s, length0, SECTOR), BackRest(addr1, length1, SECTOR);
            && s + rest0 == Up(s, SECTOR) && rest0 % PAGE == 0
            && rest1 == e - Down(e, SECTOR) && rest1 % PAGE == 0
            && (rest1 > 0 ==> addr == Down(e, SECTOR)) && addr % PAGE == 0 && addr + rest1 <= e
  {
    Nesting(s, e);
    NextBoundary(s, SECTOR);
    SumOfMultiples(Up(s, SECTOR), s, PAGE);
    SumOfMultiples(e, Down(e, SECTOR), PAGE);
    if e >= s + BLOCK {
      if length0 < SECTOR {
        MultipleGap(Up(s, SECTOR), Up(s, BLOCK), SECTOR);
      }
      if length1 < SECTOR {
        MultipleGap(Down(e, BLOCK), Down(e, SECTOR), SECTOR);
      }
    } else {
      FrontAndBack(s, e, SECTOR);
    }
  }

  /** The erases of the smallest size, in what the 4 KB step leaves. */
  function PagesOf(addr0: nat, length0: nat, addr1: nat, length1: nat): seq<Erase> {
    var rest0, rest1 := FrontRest(addr0, length0, SECTOR), BackRest(addr1, length1, SECTOR);
    var addr := BackAddr(addr1, length1, SECTOR);
    Fill(addr0, addr0 + rest0, PAGE) + Fill(addr, addr + rest1, PAGE)
  }

  /** What the 4 KB and 256 B steps need of the two parts. */
  ghost predicate Ready(addr0: nat, length0: nat, addr1: nat, length1: nat) {
    && (length0 >= SECTOR ==> (addr0 + length0) % SECTOR == 0) && (length1 >= SECTOR ==> addr1 % SECTOR == 0)
    && addr0 % PAGE == 0 && FrontRest(addr0, length0, SECTOR) % PAGE == 0
    && BackAddr(addr1, length1, SECTOR) % PAGE == 0 && BackRest(addr1, length1, SECTOR) % PAGE == 0
  }

  lemma RestReady(s: nat, e: nat, length0: nat, addr1: nat, length1: nat)
    requires BlocksDone(s, e, length0, addr1, length1)
    ensures Ready(s, length0, addr1, length1)
    ensures FrontPart(s, length0, SECTOR) + BackPart(addr1, length1, SECTOR) == Sectors(s, e)
    ensures PagesOf(s, length0, addr1, length1) == Pages(s, e)
  {
    BlocksDoneFacts(s, e, length0, addr1, length1);
    AfterSectors(s, e, length0, addr1, length1, BackAddr(addr1, length1, SECTOR));
  }

  lemma AfterSectors(s: nat, e: nat, length0: nat, addr1: nat, length1: nat, addr: nat)
    requires BlocksDone(s, e, length0, addr1, length1)
    requires addr == BackAddr(addr1, length1, SECTOR)
    ensures var rest0, rest1 := FrontRest(s, length0, SECTOR), BackRest(addr1, length1, SECTOR);
            && s + rest0 <= e && addr + rest1 <= e
            && rest0 % PAGE == 0 && rest1 % PAGE == 0 && addr % PAGE == 0
            && FrontPart(s, length0, SECTOR) + BackPart(addr1, length1, SECTOR) == Sectors(s, e)
            && Fill(s, s + rest0, PAGE) + Fill(addr, addr + rest1, PAGE) == Pages(s, e)
  {
    var rest0, rest1 := FrontRest(s, length0, SECTOR), BackRest(addr1, length1, SECTOR);
    if e >= s + SECTOR {
      PagesLeft(s, e, length0, addr1, length1, addr);
      assert Fill(addr, addr + rest1, PAGE) == Fill(Down(e, SECTOR), e, PAGE);
      SectorsDone(s, e, length0, addr1, length1);
    } else {
      SumOfMultiples(e, s, PAGE);
      assert Fill(addr, addr, PAGE) == [];
    }
  }

  lemma SectorsDone(s: nat, e: nat, length0: nat, addr1: nat, length1: nat)
    requires BlocksDone(s, e, length0, addr1, length1) && e >= s + SECTOR
    ensures FrontPart(s, length0, SECTOR) + BackPart(addr1, length1, SECTOR)
            == Sectors(s, e)
  {
    Nesting(s, e);
    if e >= s + BLOCK {
      if length0 < SECTOR {
        MultipleGap(Up(s, SECTOR), Up(s, BLOCK), SECTOR);
      }
      if length1 < SECTOR {
        MultipleGap(Down(e, BLOCK), Down(e, SECTOR), SECTOR);
      }
    } else {
      NextBoundary(s, SECTOR);
      FrontAndBack(s, e, SECTOR);
    }
  }

  lemma FillConcat(lo: nat, mid: nat, hi: nat, g: nat)
    requires IsSize(g) && lo % g == 0 && mid % g == 0 && hi % g == 0 && lo <= mid <= hi
    ensures Fill(lo, mid, g) + Fill(mid, hi, g) == Fill(lo, hi, g)
  {
    FillCount(lo, mid, g);
    FillCount(mid, hi, g);
    FillCount(lo, hi, g);
    var n, m := (mid - lo) / g, (hi - mid) / g;
    assert g * (n + m) == g * n + g * m;
    assert (hi - lo) / g == n + m by { ModUnique(hi - lo, g, n + m, 0); }
    ErasesConcat(lo, n, m, g);
  }

  /** The next boundary of size `g` strictly above `s`. */
  lemma NextBoundary(s: nat, g: nat)
    requires IsSize(g)
    ensures var p := s + (g - s % g);
            p % g == 0 && s < p <= s + g && Up(s, g) == if s % g == 0 then s else p
  {
    SumOfMultiples(Down(s, g), g, g);
  }

  /** With `p` the boundary above `s`, the part below it and the part from it up to
      the last boundary of the range make up the fill between the cut points. */
  lemma FrontAndBack(s: nat, e: nat, g: nat)
    requires IsSize(g) && e >= s + g
    ensures var p := s + (g - s % g);
            var front := if g - s % g >= g then Fill(Up(s, g), p, g) else [];
            var back := if e - p >= g then Fill(p, Down(e, g), g) else [];
            p <= Down(e, g) && (e - p < g ==> Down(e, g) == p)
            && front + back == Fill(Up(s, g), Down(e, g), g)
  {
    var p := s + (g - s % g);
    NextBoundary(s, g);
    DownGreatest(e, g, p);
    if e - p < g {
      MultipleGap(p, Down(e, g), g);
    }
    if s % g == 0 {
      FillConcat(s, p, Down(e, g), g);
    }
  }

  lemma FrontCount(addr0: nat, length0: nat, g: nat)
    requires IsSize(g) && length0 >= g && (addr0 + length0) % g == 0
    ensures var n := (addr0 + length0 - Up(addr0, g)) / g;
            Up(addr0, g) <= addr0 + length0 && n >= 1 && Up(addr0, g) + n * g == addr0 + length0
  {
    var lo, hi := Up(addr0, g), addr0 + length0;
    CutPoints(addr0, hi, g);
    DownGreatest(hi, g, hi);
    FillCount(lo, hi, g);
  }

  lemma BackCount(addr1: nat, length1: nat, g: nat)
    requires IsSize(g) && length1 >= g && addr1 % g == 0
    ensures var d := Down(addr1 + length1, g);
            var n := (d - addr1) / g;
            addr1 < d && n >= 1 && addr1 + n * g == d
  {
    var d := Down(addr1 + length1, g);
    FillCount(addr1, d, g);
  }

  /** The front step in the terms of the code, which computes `r`. */
  lemma FrontStep(addr0: nat, length0: nat, g: nat, r: nat)
    requires IsSize(g) && length0 >= g && (addr0 + length0) % g == 0 && addr0 < U32 && length0 < U32
    requires r == if And(addr0, g - 1) != 0 then g - And(addr0, g - 1) else 0
    ensures r == FrontRest(addr0, length0, g) && r <= length0
    ensures var n := (length0 - r) / g;
            && 1 <= n < U32 && (addr0 + r) % g == 0 && addr0 + r + n * g == addr0 + length0
            && FrontPart(addr0, length0, g) == Erases(addr0 + r, n, g)
  {
    Masks(addr0, g);
    FrontCount(addr0, length0, g);
    CutPoints(addr0, addr0 + length0, g);
    assert addr0 + r == Up(addr0, g);
  }

  /** What the back step leaves, in the terms of the code. */
  lemma BackLeft(addr1: nat, length1: nat, g: nat, v: nat)
    requires IsSize(g) && length1 >= g && v == (addr1 + length1) % U32
    ensures And(v, g - 1) == BackRest(addr1, length1, g)
    ensures BackAddr(addr1, length1, g) % U32 == if And(v, g - 1) != 0 then And(v, Not32(g - 1)) else addr1 % U32
  {
    var d := Down(addr1 + length1, g);
    assert And(v, g - 1) == addr1 + length1 - d && And(v, Not32(g - 1)) == d % U32 by {
      WrapMasks(addr1 + length1, g);
    }
  }

  /** What the back step erases. */
  lemma BackErases(addr1: nat, length1: nat, g: nat, r: nat)
    requires IsSize(g) && length1 >= g && addr1 % g == 0 && length1 < U32
    requires r == BackRest(addr1, length1, g)
    ensures r <= length1 && BackPart(addr1, length1, g) == Erases(addr1, (length1 - r) / g, g)
    ensures 1 <= (length1 - r) / g < U32
  {
    BackCount(addr1, length1, g);
    assert length1 - r == Down(addr1 + length1, g) - addr1;
  }

  lemma MultipleAtLeastPage(length: nat)
    requires length % PAGE == 0 && length > 0
    ensures length / PAGE >= 1 && PAGE * (length / PAGE) == length
  {
    DivMod(length, PAGE);
  }

  /** Programming one more word. */
  lemma WriteOne(c: seq<Cell>, s: nat, p: nat, data: seq<bv32>)
    requires s % 4 == 0 && p < |data| && s + 4 * p < 4 * |c|
    ensures var k := s / 4 + p;
            var w := Write(c, s, s + 4 * p, data);
            && k < |c| && k == (s + 4 * p) / 4 && w[k] == c[k]
            && Write(c, s, s + 4 * (p + 1), data) == w[k := Program(w[k], data[p])]
  {
  }
}
