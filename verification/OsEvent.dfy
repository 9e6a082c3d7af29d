/** The wait list of rtos/os_event.c: largest priority number first, first come first
    served among equals. To the scheduler a smaller number is the more urgent task, so
    the head of the list is the least urgent of the waiters. */
module OsEvent {
  import opened OsList

  /** A blocked task with what os_event_wait records for it. */
  datatype Waiter<R> = Waiter(task: int, prio: int, ms: int, reason: R)

  /** os_event_insert_task: before the first waiter with a smaller number. */
  function InsertTask<R>(ws: seq<Waiter<R>>, w: Waiter<R>): (r: seq<Waiter<R>>)
    ensures |r| == |ws| + 1
  {
    if ws == [] || ws[0].prio < w.prio then [w] + ws
    else [ws[0]] + InsertTask(ws[1..], w)
  }

  /** The priority numbers never rise along the list. */
  ghost predicate FallingPrio<R>(ws: seq<Waiter<R>>) {
    forall i, j :: 0 <= i < j < |ws| ==> ws[i].prio >= ws[j].prio
  }

  /** The new waiter goes behind all waiters of its number or a larger one and before
      all of a smaller one; nobody else moves. */
  lemma {:induction false} InsertPlace<R>(ws: seq<Waiter<R>>, w: Waiter<R>) returns (i: nat)
    requires FallingPrio(ws)
    ensures i <= |ws| && InsertTask(ws, w) == ws[..i] + ([w] + ws[i..])
    ensures forall j :: 0 <= j < i ==> ws[j].prio >= w.prio
    ensures forall j :: i <= j < |ws| ==> ws[j].prio < w.prio
  {
    if ws == [] || ws[0].prio < w.prio {
      i := 0;
    } else {
      var t := ws[1..];
      var i' := InsertPlace(t, w);
      i := i' + 1;
      assert ws[..i] == [ws[0]] + t[..i'] && ws[i..] == t[i'..];
      assert forall j :: i <= j < |ws| ==> ws[j] == t[j - 1];
    }
  }

  lemma InsertKeepsFalling<R>(ws: seq<Waiter<R>>, w: Waiter<R>)
    requires FallingPrio(ws)
    ensures FallingPrio(InsertTask(ws, w))
  {
    var i := InsertPlace(ws, w);
  }

  lemma {:induction false} InsertMember<R>(ws: seq<Waiter<R>>, w: Waiter<R>, x: Waiter<R>)
    ensures x in InsertTask(ws, w) <==> x in ws || x == w
  {
    if ws != [] && !(ws[0].prio < w.prio) {
      assert ws == [ws[0]] + ws[1..];
      InsertMember(ws[1..], w, x);
    }
  }

  /** os_event_remove_task, by task identity; without effect when it does not wait. */
  function RemoveTask<R>(ws: seq<Waiter<R>>, task: int): (r: seq<Waiter<R>>)
    ensures |r| <= |ws|
    ensures forall x :: x in r ==> x in ws
  {
    if ws == [] then [] else if ws[0].task == task then ws[1..] else [ws[0]] + RemoveTask(ws[1..], task)
  }

  lemma {:induction false} RemoveKeepsFalling<R>(ws: seq<Waiter<R>>, task: int)
    requires FallingPrio(ws)
    ensures FallingPrio(RemoveTask(ws, task))
  {
    if ws != [] && ws[0].task != task {
      var t := ws[1..];
      RemoveKeepsFalling(t, task);
      var r := RemoveTask(t, task);
      forall j | 0 <= j < |r|
        ensures ws[0].prio >= r[j].prio
      {
        assert r[j] in t;
      }
    }
  }

  lemma {:induction false} RemoveKeeps<R>(ws: seq<Waiter<R>>, task: int, x: Waiter<R>)
    requires x in ws && FindTask(ws, task) != Some(x)
    ensures x in RemoveTask(ws, task)
  {
    if ws[0].task != task && x != ws[0] {
      RemoveKeeps(ws[1..], task, x);
    }
  }

  /** The waiter a tick may time out: it waits, and with a positive delay. */
  predicate CanTimeOut<R>(ws: seq<Waiter<R>>, task: int) {
    exists i :: 0 <= i < |ws| && ws[i].task == task && ws[i].ms > 0
  }

  // ---- Priority inheritance ----

  function FindTask<R>(ws: seq<Waiter<R>>, task: int): (r: Option<Waiter<R>>)
    ensures r.Some? ==> r.value in ws && r.value.task == task
    ensures r.None? ==> RemoveTask(ws, task) == ws
    ensures r.Some? ==> |RemoveTask(ws, task)| == |ws| - 1
  {
    if ws == [] then None else if ws[0].task == task then Some(ws[0]) else FindTask(ws[1..], task)
  }

  /** os_mutex_lock, for an owner that waits here: it inherits a smaller number and is
      inserted anew. */
  function Inherit<R>(ws: seq<Waiter<R>>, task: int, prio: int): (r: seq<Waiter<R>>)
    ensures |r| == |ws|
  {
    var w := FindTask(ws, task);
    if w.Some? && w.value.prio > prio then InsertTask(RemoveTask(ws, task), w.value.(prio := prio))
    else ws
  }

  lemma InheritKeepsFalling<R>(ws: seq<Waiter<R>>, task: int, prio: int)
    requires FallingPrio(ws)
    ensures FallingPrio(Inherit(ws, task, prio))
  {
    var w := FindTask(ws, task);
    if w.Some? && w.value.prio > prio {
      RemoveKeepsFalling(ws, task);
      InsertKeepsFalling(RemoveTask(ws, task), w.value.(prio := prio));
    }
  }

  /** `task` waits for `reason`, at whatever priority. */
  ghost predicate WaitsFor<R>(ws: seq<Waiter<R>>, task: int, reason: R) {
    exists x :: x in ws && x.task == task && x.reason == reason
  }

  /** The same tasks wait for the same reasons. */
  lemma InheritWaitsFor<R>(ws: seq<Waiter<R>>, task: int, prio: int, x: Waiter<R>)
    ensures x in Inherit(ws, task, prio) ==> WaitsFor(ws, x.task, x.reason)
    ensures x in ws ==> WaitsFor(Inherit(ws, task, prio), x.task, x.reason)
  {
    var w := FindTask(ws, task);
    if w.Some? && w.value.prio > prio {
      var w', r := w.value.(prio := prio), RemoveTask(ws, task);
      InsertMember(r, w', x);
      InsertMember(r, w', w');
      if x in ws && x != w.value {
        RemoveKeeps(ws, task, x);
      }
    }
  }

  // ---- Who is served ----

  /** No waiter is more urgent than the head: none has a smaller number. */
  ghost predicate HeadMostUrgent<R>(ws: seq<Waiter<R>>) {
    forall i :: 0 <= i < |ws| ==> ws[0].prio <= ws[i].prio
  }

  ghost predicate OnePrio<R>(ws: seq<Waiter<R>>) {
    forall i, j :: 0 <= i < j < |ws| ==> ws[i].prio == ws[j].prio
  }

  /** On such a list the head is the most urgent waiter exactly when all waiters are
      equally urgent. */
  lemma HeadMostUrgentIff<R>(ws: seq<Waiter<R>>)
    requires FallingPrio(ws)
    ensures HeadMostUrgent(ws) <==> OnePrio(ws)
  {
    if HeadMostUrgent(ws) {
      forall i, j | 0 <= i < j < |ws|
        ensures ws[i].prio == ws[j].prio
      {
        assert ws[0].prio >= ws[i].prio && ws[0].prio <= ws[j].prio;
      }
    }
  }

  // ---- Who waits ----

  /** The tasks on the list, each as often as it is on it. */
  function Tasks<R>(ws: seq<Waiter<R>>): multiset<int> {
    if ws == [] then multiset{} else multiset{ws[0].task} + Tasks(ws[1..])
  }

  lemma {:induction false} InsertTasks<R>(ws: seq<Waiter<R>>, w: Waiter<R>)
    ensures Tasks(InsertTask(ws, w)) == Tasks(ws) + multiset{w.task}
    ensures multiset(InsertTask(ws, w)) == multiset(ws) + multiset{w}
  {
    if ws == [] || ws[0].prio < w.prio {
      assert ([w] + ws)[1..] == ws;
    } else {
      var t := InsertTask(ws[1..], w);
      InsertTasks(ws[1..], w);
      assert ([ws[0]] + t)[1..] == t;
      assert ws == [ws[0]] + ws[1..];
    }
  }

  lemma {:induction false} RemoveTasks<R>(ws: seq<Waiter<R>>, task: int)
    requires FindTask(ws, task).Some?
    ensures Tasks(ws) == Tasks(RemoveTask(ws, task)) + multiset{task}
  {
    if ws[0].task != task {
      var t := RemoveTask(ws[1..], task);
      RemoveTasks(ws[1..], task);
      assert ([ws[0]] + t)[1..] == t;
    }
  }

  lemma InheritTasks<R>(ws: seq<Waiter<R>>, task: int, prio: int)
    ensures Tasks(Inherit(ws, task, prio)) == Tasks(ws)
  {
    var w := FindTask(ws, task);
    if w.Some? && w.value.prio > prio {
      RemoveTasks(ws, task);
      InsertTasks(RemoveTask(ws, task), w.value.(prio := prio));
    }
  }

  lemma {:induction false} FoundIfWaiting<R>(ws: seq<Waiter<R>>, i: nat)
    requires i < |ws|
    ensures FindTask(ws, ws[i].task).Some?
  {
    if ws[0].task != ws[i].task {
      FoundIfWaiting(ws[1..], i - 1);
    }
  }

  lemma TimeOutTasks<R>(ws: seq<Waiter<R>>, task: int)
    requires CanTimeOut(ws, task)
    ensures Tasks(ws) == Tasks(RemoveTask(ws, task)) + multiset{task}
  {
    var i: nat :| i < |ws| && ws[i].task == task && ws[i].ms > 0;
    FoundIfWaiting(ws, i);
    RemoveTasks(ws, task);
  }

  lemma {:induction false} RemoveMember<R>(ws: seq<Waiter<R>>, task: int)
    requires FindTask(ws, task).Some?
    ensures multiset(ws) == multiset(RemoveTask(ws, task)) + multiset{FindTask(ws, task).value}
  {
    assert ws == [ws[0]] + ws[1..];
    if ws[0].task != task {
      RemoveMember(ws[1..], task);
    }
  }

  /** Inheriting changes the number of the one waiter, to the smaller of the two. */
  lemma {:induction false} InheritExact<R>(ws: seq<Waiter<R>>, task: int, prio: int)
    requires FindTask(ws, task).Some?
    ensures var w := FindTask(ws, task).value;
            multiset(Inherit(ws, task, prio)) + multiset{w}
            == multiset(ws) + multiset{w.(prio := if prio < w.prio then prio else w.prio)}
  {
    var w := FindTask(ws, task).value;
    if w.prio > prio {
      RemoveMember(ws, task);
      InsertTasks(RemoveTask(ws, task), w.(prio := prio));
    }
  }
}
