/** rtos/os_sem.c as it runs. */
module Sem {
  import opened OsList
  import opened OsEvent
  import opened SemSpec

  class Semaphore {
    var currCnt: nat
    const maxCnt: nat
    var waiting: seq<Task>  // event.wait_list
    var wakes: seq<Wake>    // the tasks made ready so far

    ghost function View(): State
      reads this
    {
      State(currCnt, maxCnt, waiting)
    }

    /** sem_init */
    constructor (init: nat, max: nat)
      requires Creatable(init, max)
      ensures View() == Init(init, max) && wakes == []
    {
      var initCnt := init;
      if max > 0 && initCnt > max {
        initCnt := max;
      }
      currCnt := initCnt % 0x100;
      maxCnt := max;
      waiting, wakes := [], [];
    }

    /** os_sem_take, up to the point where the caller is switched out. */
    method Take(who: Caller) returns (ret: Option<Err>)
      modifies this
      ensures var o := SemSpec.Take(old(View()), who);
              View() == o.st && ret == o.ret && wakes == old(wakes) + o.wakes
    {
      if currCnt > maxCnt {
        return Some(ErrParam);
      }
      if who.inIsr {
        return Some(ErrIsr);
      }
      if currCnt > 0 {
        currCnt := currCnt - 1;
        return Some(Ok);
      }
      if who.ms < 0 {
        return Some(CntZero);
      }
      waiting := InsertTask(waiting, Waiter(who.task, who.prio, who.ms, ()));
      return None;
    }

    /** os_sem_release */
    method Release(who: Caller) returns (ret: Option<Err>)
      modifies this
      ensures var o := SemSpec.Release(old(View()), who);
              View() == o.st && ret == o.ret && wakes == old(wakes) + o.wakes
    {
      if who.inIsr {
        return Some(CntZero);
      }
      if |waiting| > 0 {
        var task := waiting[0];
        waiting := waiting[1..];
        wakes := wakes + [Wake(task.task, Ok)];
        return Some(Ok);
      }
      if currCnt < maxCnt {
        currCnt := currCnt + 1;
        return Some(Ok);
      }
      return Some(CntOut);
    }

    /** os_sem_take_from_isr */
    method TakeFromIsr() returns (ret: Option<Err>)
      modifies this
      ensures var o := SemSpec.TakeFromIsr(old(View()));
              View() == o.st && ret == o.ret && wakes == old(wakes) + o.wakes
    {
      if currCnt > 0 {
        currCnt := currCnt - 1;
        return Some(Ok);
      }
      return Some(CntZero);
    }

    /** os_sem_release_from_isr */
    method ReleaseFromIsr() returns (ret: Option<Err>)
      modifies this
      ensures var o := SemSpec.ReleaseFromIsr(old(View()));
              View() == o.st && ret == o.ret && wakes == old(wakes) + o.wakes
    {
      if |waiting| > 0 {
        var task := waiting[0];
        waiting := waiting[1..];
        wakes := wakes + [Wake(task.task, Ok)];
        return Some(Ok);
      }
      if currCnt < maxCnt {
        currCnt := currCnt + 1;
        return Some(Ok);
      }
      return Some(CntOut);
    }

    /** os_sem_uninit */
    method Uninit() returns (ret: Option<Err>)
      modifies this
      ensures var o := SemSpec.Uninit(old(View()));
              View() == o.st && ret == o.ret && wakes == old(wakes) + o.wakes
    {
      while |waiting| > 0
        invariant wakes + WakeAll(waiting) == old(wakes) + WakeAll(old(waiting))
        invariant currCnt == old(currCnt)
        decreases |waiting|
      {
        wakes := wakes + [Wake(waiting[0].task, ErrRemove)];
        waiting := waiting[1..];
      }
      return Some(Ok);
    }
  }
}
