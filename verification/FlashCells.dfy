/** The words of the flash memory and what erasing and programming do to them. */
module FlashCells {
  import opened CBits
  import opened FlashPlan

  /** Programming a word that is not erased leaves no value one may rely on. */
  datatype Cell = Erased | Word(value: bv32) | Unknown

  function Program(c: Cell, v: bv32): Cell {
    if c.Erased? then Word(v) else Unknown
  }

  /** Cell `k` is the word at byte address 4 * k. */
  function EraseCells(cells: seq<Cell>, u: Erase): (r: seq<Cell>)
    ensures |r| == |cells|
  {
    seq(|cells|, k requires 0 <= k < |cells| => if Covers(u, 4 * k) then Erased else cells[k])
  }

  function Apply(cells: seq<Cell>, ops: seq<Erase>): (r: seq<Cell>)
    ensures |r| == |cells|
    decreases |ops|
  {
    if ops == [] then cells else Apply(EraseCells(cells, ops[0]), ops[1..])
  }

  lemma {:induction false} ApplyConcat(cells: seq<Cell>, a: seq<Erase>, b: seq<Erase>)
    ensures Apply(cells, a + b) == Apply(Apply(cells, a), b)
    decreases |a|
  {
    if a == [] {
      assert a + b == b;
    } else {
      assert (a + b)[1..] == a[1..] + b;
      ApplyConcat(EraseCells(cells, a[0]), a[1..], b);
    }
  }

  lemma {:induction false} ApplyAt(cells: seq<Cell>, ops: seq<Erase>, k: nat)
    requires k < |cells|
    ensures (exists i :: 0 <= i < |ops| && Covers(ops[i], 4 * k)) ==> Apply(cells, ops)[k] == Erased
    ensures (forall i :: 0 <= i < |ops| ==> !Covers(ops[i], 4 * k)) ==> Apply(cells, ops)[k] == cells[k]
    decreases |ops|
  {
    if ops != [] {
      var c1 := EraseCells(cells, ops[0]);
      ApplyAt(c1, ops[1..], k);
      if exists i :: 0 <= i < |ops| && Covers(ops[i], 4 * k) {
        var i :| 0 <= i < |ops| && Covers(ops[i], 4 * k);
        if i > 0 {
          assert Covers(ops[1..][i - 1], 4 * k);
        } else if forall j :: 0 <= j < |ops[1..]| ==> !Covers(ops[1..][j], 4 * k) {
        }
      } else {
        assert forall j :: 0 <= j < |ops[1..]| ==> ops[1..][j] == ops[j + 1];
      }
    }
  }

  /** Carrying out the plan erases exactly the words of the range. */
  lemma PlanErasesRange(cells: seq<Cell>, s: nat, e: nat)
    requires Aligned(s, e)
    ensures var r := Apply(cells, Plan(s, e));
            forall k :: 0 <= k < |cells| ==> r[k] == if s <= 4 * k < e then Erased else cells[k]
  {
    var plan := Plan(s, e);
    PlanIsCoarsestCover(s, e);
    forall k: nat | k < |cells|
      ensures Apply(cells, plan)[k] == if s <= 4 * k < e then Erased else cells[k]
    {
      CoverIsExact(plan, s, e, 4 * k);
      ApplyAt(cells, plan, k);
    }
  }

  /** Programming the words of [s, e) in turn from `data`. */
  function Write(cells: seq<Cell>, s: nat, e: nat, data: seq<bv32>): (r: seq<Cell>)
    requires s % 4 == 0 && e - s <= 4 * |data|
    ensures |r| == |cells|
  {
    seq(|cells|, k requires 0 <= k < |cells| =>
      if s <= 4 * k < e then Program(cells[k], data[k - s / 4]) else cells[k])
  }

  lemma WordAligned(s: nat)
    requires s % PAGE == 0
    ensures s % 4 == 0
  {
    DivMod(s, PAGE);
    MultipleMod(4, 64 * (s / PAGE));
  }

  /** Erase then write: the range holds the data, every word of it programmed while
      erased, and the rest of the memory is as before. */
  lemma EraseThenWrite(cells: seq<Cell>, s: nat, e: nat, data: seq<bv32>)
    requires Aligned(s, e) && e - s <= 4 * |data|
    ensures s % 4 == 0
    ensures var erased := Apply(cells, Plan(s, e));
            var r := Write(erased, s, e, data);
            && (forall k :: 0 <= k < |cells| && s <= 4 * k < e ==> erased[k].Erased? && r[k] == Word(data[k - s / 4]))
            && (forall k :: 0 <= k < |cells| && !(s <= 4 * k < e) ==> r[k] == cells[k])
  {
    WordAligned(s);
    PlanErasesRange(cells, s, e);
  }
}
