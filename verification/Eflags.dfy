/** rtos/os_eflags.c as it runs, with the loop that rotates the wait list while waking
    tasks off it. */
module Eflags {
  import opened OsList
  import opened OsEvent
  import opened EflagsSpec

  /** The list, the tasks woken so far and temp_flags when the waiters `ws[..i]` have
      been examined and `kept` of them put back. */
  datatype Loop = Loop(waiting: seq<Task>, kept: seq<Task>, wakes: seq<Wake>, temp: bv32)

  /** What has been done, together with what is left to do, makes up the whole. */
  ghost predicate Midway(ws: seq<Task>, t: Task -> Option<bv32>, start: Loop, i: nat, l: Loop) {
    && i <= |ws| && |l.kept| <= i
    && l.waiting == ws[i..] + l.kept
    && l.kept + Unsatisfied(ws[i..], t) == Unsatisfied(ws, t)
    && l.wakes + Woken(ws[i..], t) == start.wakes + Woken(ws, t)
    && Residue(ws[i..], t, l.temp) == Residue(ws, t, start.temp)
  }

  /** One turn: the head is woken, or moved to the tail when it is not alone. */
  function Turned(taskCnt: nat, t: Task -> Option<bv32>, l: Loop): Loop
    requires l.waiting != []
  {
    var w, r := l.waiting[0], l.waiting[1..];
    if t(w).Some? then Loop(r, l.kept, l.wakes + WakeOf(w, t(w)), Next(w, t(w), l.temp))
    else Loop(if taskCnt > 1 then r + [w] else l.waiting, l.kept + [w], l.wakes, l.temp)
  }

  /** The head and the rest of what is left to do. */
  lemma {:induction false} LeftToDo(ws: seq<Task>, kept: seq<Task>, i: nat)
    requires i < |ws|
    ensures ws[i..] == [ws[i]] + ws[i + 1..] && ws[i..][1..] == ws[i + 1..]
    ensures (ws[i..] + kept)[0] == ws[i] && (ws[i..] + kept)[1..] == ws[i + 1..] + kept
  {
  }

  lemma {:induction false} WakeKeepsMidway(ws: seq<Task>, t: Task -> Option<bv32>, start: Loop, i: nat, l: Loop)
    requires Midway(ws, t, start, i, l) && i < |ws| && t(ws[i]).Some?
    ensures l.waiting != [] && Midway(ws, t, start, i + 1, Turned(|ws|, t, l))
  {
    var w, r := ws[i], ws[i + 1..];
    LeftToDo(ws, l.kept, i);
    assert Unsatisfied(ws[i..], t) == Unsatisfied(r, t);
    assert l.wakes + (WakeOf(w, t(w)) + Woken(r, t)) == (l.wakes + WakeOf(w, t(w))) + Woken(r, t);
  }

  lemma {:induction false} StayKeepsMidway(ws: seq<Task>, t: Task -> Option<bv32>, start: Loop, i: nat, l: Loop)
    requires Midway(ws, t, start, i, l) && i < |ws| && t(ws[i]).None?
    ensures l.waiting != [] && Midway(ws, t, start, i + 1, Turned(|ws|, t, l))
  {
    var w, r := ws[i], ws[i + 1..];
    LeftToDo(ws, l.kept, i);
    assert Woken(ws[i..], t) == Woken(r, t);
    assert l.kept + ([w] + Unsatisfied(r, t)) == (l.kept + [w]) + Unsatisfied(r, t);
    assert (r + l.kept) + [w] == r + (l.kept + [w]);
    if |ws| <= 1 {
      AloneStays(ws, l, i);
    }
  }

  lemma {:induction false} TurnKeepsMidway(ws: seq<Task>, t: Task -> Option<bv32>, start: Loop, i: nat, l: Loop)
    requires Midway(ws, t, start, i, l) && i < |ws|
    ensures l.waiting != [] && Midway(ws, t, start, i + 1, Turned(|ws|, t, l))
  {
    if t(ws[i]).Some? {
      WakeKeepsMidway(ws, t, start, i, l);
    } else {
      StayKeepsMidway(ws, t, start, i, l);
    }
  }

  lemma {:induction false} AloneStays(ws: seq<Task>, l: Loop, i: nat)
    requires i < |ws| <= 1 && |l.kept| <= i && l.waiting == ws[i..] + l.kept
    ensures l.waiting == ws[i + 1..] + (l.kept + [ws[i]])
  {
  }

  lemma {:induction false} NoneExamined(ws: seq<Task>, t: Task -> Option<bv32>, start: Loop)
    requires start.waiting == ws && start.kept == []
    ensures Midway(ws, t, start, 0, start)
  {
    assert ws[0..] == ws;
  }

  lemma {:induction false} AllExamined(ws: seq<Task>, t: Task -> Option<bv32>, start: Loop, l: Loop)
    requires Midway(ws, t, start, |ws|, l)
    ensures l.waiting == l.kept == Unsatisfied(ws, t)
    ensures l.wakes == start.wakes + Woken(ws, t) && l.temp == Residue(ws, t, start.temp)
  {
    assert ws[|ws|..] == [];
  }

  class EventFlags {
    const clear: bv32       // OS_EFLAGS_CLEAR
    var flags: bv32
    var waiting: seq<Task>  // event.wait_list
    var wakes: seq<Wake>    // the tasks made ready so far

    ghost function View(): State
      reads this
    {
      State(clear, flags, waiting)
    }

    /** eflags_init */
    constructor (clearCode: bv32, initFlags: bv32)
      ensures View() == State(clearCode, initFlags, []) && wakes == [] && Quiet(View())
    {
      clear := clearCode;
      flags := initFlags;
      waiting, wakes := [], [];
    }

    /** The test of os_eflags_wait_bits and of the loop in os_eflags_set_bits: is the
        wait met, with which bits, and what does its exit leave of `temp`? */
    method TestWait(ty: bv32, mask: bv32, temp: bv32) returns (met: bool, bits: bv32, left: bv32)
      ensures var r := Check(clear, ty, mask, flags);
              if met then r == Some(bits) && left == OnExit(ty, bits, temp) else r == None && left == temp
    {
      met, bits, left := false, 0, temp;
      var checkAll := ty & ALL != 0;
      if ty & SET != 0 {
        bits := flags & mask;
        if (checkAll && bits == mask) || (!checkAll && bits != 0) {
          if ty & EXIT_CLEAR != 0 {
            left := temp & !bits;
          }
          met := true;
        }
      } else if ty & clear != 0 {
        bits := !(flags & mask);
        if (checkAll && mask == bits) || (!checkAll && bits != 0) {
          if ty & EXIT_CLEAR != 0 {
            left := temp | bits;
          }
          met := true;
        }
      }
    }

    /** os_eflags_wait_bits, up to the point where the caller is switched out. */
    method WaitBits(task: int, prio: int, ms: int, ty: bv32, mask: bv32) returns (ret: Ret)
      modifies this
      ensures var o := EflagsSpec.WaitBits(old(View()), task, prio, ms, ty, mask);
              View() == o.st && ret == o.ret && wakes == old(wakes) + o.wakes
    {
      if mask == 0 {
        return ErrParam;
      }
      var met, bits, left := TestWait(ty, mask, flags);
      if met {
        flags := left;
        return Flags(bits);
      }
      waiting := InsertTask(waiting, Waiter(task, prio, ms, Wait(ty, mask)));
      return Blocked;
    }

    /** `t` is the wait test on the present flags. */
    ghost predicate IsTester(t: Task -> Option<bv32>)
      reads this
    {
      forall w {:trigger Test(clear, w, flags)} :: t(w) == Test(clear, w, flags)
    }

    /** os_eflags_set_bits, one turn of the loop: the head of the list is woken, or moved
        to the tail when it is not alone. */
    method ExamineFirst(taskCnt: nat, temp: bv32, ghost l: Loop, ghost t: Task -> Option<bv32>)
      returns (tempFlags: bv32)
      requires IsTester(t) && waiting != []
      requires l.waiting == waiting && l.wakes == wakes && l.temp == temp
      modifies this`waiting, this`wakes
      ensures Loop(waiting, Turned(taskCnt, t, l).kept, wakes, tempFlags) == Turned(taskCnt, t, l)
    {
      var first := waiting[0];
      assert t(first) == Test(clear, first, flags);
      var met, bits;
      met, bits, tempFlags := TestWait(first.reason.ty, first.reason.mask, temp);
      if met {
        waiting := waiting[1..];
        wakes := wakes + [Wake(first.task, Ok, bits)];
        return;
      }
      if taskCnt > 1 {
        waiting := waiting[1..] + [first];
      }
    }

    /** os_eflags_set_bits, the loop: each waiter is examined once, at the head of the
        list. */
    method ExamineAll(ghost t: Task -> Option<bv32>) returns (tempFlags: bv32)
      requires IsTester(t)
      modifies this`waiting, this`wakes
      ensures tempFlags == Residue(old(waiting), t, flags)
      ensures waiting == Unsatisfied(old(waiting), t)
      ensures wakes == old(wakes) + Woken(old(waiting), t)
    {
      tempFlags := flags;
      var taskCnt := |waiting|;
      ghost var ws, l := waiting, Loop(waiting, [], wakes, tempFlags);
      ghost var start := l;
      NoneExamined(ws, t, start);
      var i := 0;
      while i < taskCnt
        invariant 0 <= i <= taskCnt == |ws|
        invariant Midway(ws, t, start, i, l)
        invariant l.waiting == waiting && l.wakes == wakes && l.temp == tempFlags
      {
        TurnKeepsMidway(ws, t, start, i, l);
        tempFlags := ExamineFirst(taskCnt, tempFlags, l, t);
        l := Turned(taskCnt, t, l);
        i := i + 1;
      }
      AllExamined(ws, t, start, l);
    }

    method WakeSatisfied() returns (tempFlags: bv32)
      modifies this`waiting, this`wakes
      ensures var t := Tester(clear, flags);
              && tempFlags == Residue(old(waiting), t, flags)
              && waiting == Unsatisfied(old(waiting), t)
              && wakes == old(wakes) + Woken(old(waiting), t)
    {
      tempFlags := ExamineAll(Tester(clear, flags));
    }

    /** os_eflags_set_bits, the update of the flags. */
    method Update(ty: bv32, mask: bv32)
      modifies this`flags
      ensures flags == Snapshot(clear, old(flags), ty, mask)
    {
      if ty & SET != 0 {
        flags := flags | mask;
      } else if ty & clear != 0 {
        flags := flags & !mask;
      }
    }

    /** os_eflags_set_bits */
    method SetBits(ty: bv32, mask: bv32) returns (ret: Ret)
      modifies this
      ensures var o := EflagsSpec.SetBits(old(View()), ty, mask);
              View() == o.st && ret == o.ret && wakes == old(wakes) + o.wakes
    {
      if mask == 0 {
        return ErrParam;
      }
      Update(ty, mask);
      var tempFlags := WakeSatisfied();
      flags := tempFlags;
      ret := Flags(0);
    }

    /** os_eflags_uninit */
    method Uninit()
      modifies this
      ensures var o := EflagsSpec.Uninit(old(View()));
              View() == o.st && wakes == old(wakes) + o.wakes
    {
      while |waiting| > 0
        invariant wakes + WakeAll(waiting) == old(wakes) + WakeAll(old(waiting))
        invariant flags == old(flags)
        decreases |waiting|
      {
        wakes := wakes + [Wake(waiting[0].task, ErrRemove, 0)];
        waiting := waiting[1..];
      }
    }
  }
}
