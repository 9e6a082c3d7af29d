/** What callers may rely on in the queue of QueueSpec.dfy, in terms of what they are told:
    which message comes next, that nobody who waits is forgotten, and when a call blocks or
    is refused. */
module QueueLaws {
  import opened OsList
  import opened OsEvent
  import opened QueueSpec

  // ---- Which message comes next ----

  /** Of the messages `inside`, in the order they were accepted, the latest urgent one
      comes out next, and without an urgent one the oldest. */
  predicate IsNext<T>(inside: seq<Send<T>>, i: int) {
    && 0 <= i < |inside|
    && if inside[i].opt == URGENT then forall j :: i < j < |inside| ==> inside[j].opt != URGENT
       else i == 0 && forall j :: 0 <= j < |inside| ==> inside[j].opt != URGENT
  }

  function NextOut<T>(inside: seq<Send<T>>): (i: nat)
    requires inside != []
    ensures IsNext(inside, i)
  {
    var l := |inside| - 1;
    if inside[l].opt == URGENT || l == 0 then l else NextOut(inside[..l])
  }

  function Without<T>(inside: seq<Send<T>>, i: nat): seq<Send<T>>
    requires i < |inside|
  {
    inside[..i] + inside[i + 1..]
  }

  /** Takes out one message for each of `ms`; do they agree? */
  ghost function TakeOut<T>(inside: seq<Send<T>>, ms: seq<T>): (seq<Send<T>>, bool)
    decreases |ms|
  {
    if ms == [] then (inside, true)
    else if inside == [] then (inside, false)
    else
      var i := NextOut(inside);
      var (rest, agree) := TakeOut(Without(inside, i), ms[1..]);
      (rest, agree && inside[i].msg == ms[0])
  }

  /** `inside`: the messages accepted so far that have neither been delivered nor been
      discarded by a clear. `agree`: has every message delivered been the next one? A
      read delivers before it admits a writer, a write hands over what it accepted. */
  datatype Trace<T> = Trace(st: State<T>, inside: seq<Send<T>>, agree: bool)

  ghost function Follow<T>(t: Trace<T>, op: Op<T>): Trace<T> {
    var o := Step(t.st, op);
    if op.OpClear? then Trace(o.st, [], t.agree)
    else if op.OpRead? then
      var (rest, agree) := TakeOut(t.inside, Delivered(o));
      Trace(o.st, rest + Sends(t.st, op), t.agree && agree)
    else
      var (rest, agree) := TakeOut(t.inside + Sends(t.st, op), Delivered(o));
      Trace(o.st, rest, t.agree && agree)
  }

  ghost function FollowAll<T>(t: Trace<T>, ops: seq<Op<T>>): Trace<T>
    decreases |ops|
  {
    if ops == [] then t else FollowAll(Follow(t, ops[0]), ops[1..])
  }

  /** The order in which the messages inside come out. */
  function Arranged<T>(inside: seq<Send<T>>): (r: seq<T>)
    ensures |r| == |inside|
  {
    if inside == [] then []
    else
      var l := |inside| - 1;
      if inside[l].opt == URGENT then [inside[l].msg] + Arranged(inside[..l])
      else Arranged(inside[..l]) + [inside[l].msg]
  }

  lemma ArrangedSnoc<T>(inside: seq<Send<T>>, e: Send<T>)
    ensures Arranged(inside + [e])
            == if e.opt == URGENT then [e.msg] + Arranged(inside) else Arranged(inside) + [e.msg]
  {
    assert (inside + [e])[..|inside|] == inside;
  }

  lemma WithoutSnoc<T>(inside: seq<Send<T>>, e: Send<T>, i: nat)
    requires i < |inside|
    ensures Without(inside + [e], i) == Without(inside, i) + [e] && (inside + [e])[i] == inside[i]
  {
  }

  lemma WithoutLast<T>(inside: seq<Send<T>>, e: Send<T>)
    ensures Without(inside + [e], |inside|) == inside
  {
  }

  lemma NextSnoc<T>(inside: seq<Send<T>>, e: Send<T>)
    ensures NextOut(inside + [e]) == if e.opt == URGENT || inside == [] then |inside| else NextOut(inside)
  {
    assert (inside + [e])[..|inside|] == inside;
  }

  /** `i` comes out next, and leaves the others arranged as they were. */
  ghost predicate ComesOut<T>(inside: seq<Send<T>>, i: nat) {
    i < |inside| && Arranged(inside) == [inside[i].msg] + Arranged(Without(inside, i))
  }

  lemma LastComesOut<T>(front: seq<Send<T>>, e: Send<T>)
    requires e.opt == URGENT || front == []
    ensures ComesOut(front + [e], |front|)
  {
    WithoutLast(front, e);
    ArrangedSnoc(front, e);
  }

  lemma StillComesOut<T>(front: seq<Send<T>>, e: Send<T>, i: nat)
    requires e.opt != URGENT && ComesOut(front, i)
    ensures ComesOut(front + [e], i)
  {
    WithoutSnoc(front, e, i);
    ArrangedSnoc(front, e);
    ArrangedSnoc(Without(front, i), e);
  }

  lemma {:induction false} ArrangedNext<T>(inside: seq<Send<T>>)
    requires inside != []
    ensures ComesOut(inside, NextOut(inside))
    decreases |inside|
  {
    var front, e := inside[..|inside| - 1], inside[|inside| - 1];
    assert inside == front + [e];
    NextSnoc(front, e);
    if e.opt == URGENT || front == [] {
      LastComesOut(front, e);
    } else {
      ArrangedNext(front);
      StillComesOut(front, e, NextOut(front));
    }
  }

  ghost predicate Agrees<T>(t: Trace<T>) {
    t.agree && t.st.items == Arranged(t.inside)
  }

  lemma TakeOutNone<T>(inside: seq<Send<T>>)
    ensures TakeOut(inside, []) == (inside, true)
  {
  }

  lemma TakeOutFirst<T>(inside: seq<Send<T>>)
    requires inside != []
    ensures var r := TakeOut(inside, [Arranged(inside)[0]]);
            r.1 && Arranged(r.0) == Arranged(inside)[1..]
  {
    ArrangedNext(inside);
    var m := Arranged(inside)[0];
    assert [m][1..] == [];
    TakeOutNone(Without(inside, NextOut(inside)));
  }

  lemma FollowRead<T>(t: Trace<T>, who: Caller, opt: int)
    requires Agrees(t) && Safe(t.st)
    ensures Agrees(Follow(t, OpRead(who, opt)))
  {
    var s := t.st;
    ReadParts(s, who, opt);
    if s.items == [] {
      assert t.inside == [];
      TakeOutNone(t.inside);
    } else {
      TakeOutFirst(t.inside);
      var rest := TakeOut(t.inside, [s.items[0]]).0;
      if s.writers == [] {
        assert rest + [] == rest;
      } else {
        assert s.writers[0] in s.writers;
        ArrangedSnoc(rest, s.writers[0].reason);
      }
    }
  }

  /** A message handed to a reader is the next one: nothing else is inside. */
  lemma {:induction false} TakeOutOnly<T>(e: Send<T>)
    ensures TakeOut([e], [e.msg]) == ([], true)
  {
    assert NextOut([e]) == 0 && Without([e], 0) == [] && [e.msg][1..] == [];
    TakeOutNone<T>([]);
  }

  lemma {:induction false} FollowWrite<T>(t: Trace<T>, who: Caller, opt: int, m: T)
    requires Agrees(t) && Safe(t.st) && KnownOpt(opt)
    ensures Agrees(Follow(t, OpWrite(who, opt, m)))
  {
    var s := t.st;
    var e := Send(m, opt);
    WriteParts(s, who, opt, m);
    if s.readers != [] {
      assert t.inside == [] && t.inside + [e] == [e];
      TakeOutOnly(e);
    } else if |s.items| < s.max {
      ArrangedSnoc(t.inside, e);
      TakeOutNone(t.inside + [e]);
    } else {
      assert t.inside + [] == t.inside;
      TakeOutNone(t.inside);
    }
  }

  lemma FollowStep<T>(t: Trace<T>, op: Op<T>)
    requires Agrees(t) && Safe(t.st) && (op.OpWrite? ==> KnownOpt(op.opt))
    ensures Agrees(Follow(t, op))
  {
    match op
    case OpRead(who, opt) => FollowRead(t, who, opt);
    case OpWrite(who, opt, m) => FollowWrite(t, who, opt, m);
    case OpClear =>
    case _ =>
      OthersLeave(t.st, op);
      assert t.inside + [] == t.inside;
      TakeOutNone(t.inside);
  }

  lemma {:induction false} FollowRun<T>(t: Trace<T>, ops: seq<Op<T>>)
    requires Agrees(t) && Safe(t.st) && OnlyKnown(ops)
    ensures Agrees(FollowAll(t, ops))
    decreases |ops|
  {
    if ops != [] {
      FollowStep(t, ops[0]);
      StepSafe(t.st, ops[0]);
      FollowRun(Follow(t, ops[0]), ops[1..]);
    }
  }

  /** Over every run from an empty queue with normal and urgent writes, every message
      delivered, to a caller or to a woken reader, is the latest accepted urgent message
      still inside, or else the oldest normal one; and so is the next one to be read. */
  lemma DeliveryOrder<T>(max: nat, ops: seq<Op<T>>, who: Caller, opt: int)
    requires OnlyKnown(ops)
    ensures var t := FollowAll(Trace(Start<T>(max).st, [], true), ops);
            && t.agree && |t.inside| == |t.st.items|
            && var o := Read(t.st, who, opt);
               if t.inside == [] then o.msg == None
               else o.ret == Some(Ok) && o.msg == Some(t.inside[NextOut(t.inside)].msg)
  {
    var t0 := Trace(Start<T>(max).st, [], true);
    FollowRun(t0, ops);
    var t := FollowAll(t0, ops);
    if t.inside != [] {
      ArrangedNext(t.inside);
    }
  }

  /** An urgent message accepted into the buffer is the next one read, and that read puts
      the queue back as it was before. */
  lemma UrgentIsNext<T>(s: State<T>, m: T, w: Caller, r: Caller, opt: int)
    requires HandOff(s) && s.readers == [] && Write(s, w, URGENT, m).ret == Some(Ok)
    ensures var o := Read(Write(s, w, URGENT, m).st, r, opt);
            o.ret == Some(Ok) && o.msg == Some(m) && o.st == s
  {
  }

  /** So is that of an urgent writer whom a read admits. */
  lemma UrgentWriterIsNext<T>(s: State<T>, r: Caller, opt: int, r': Caller, opt': int)
    requires s.items != [] && s.writers != [] && s.writers[0].reason.opt == URGENT
    ensures Read(Read(s, r, opt).st, r', opt').msg == Some(s.writers[0].reason.msg)
  {
  }

  // ---- Nobody is forgotten ----

  function WokenTasks<T>(ks: seq<Wake<T>>): multiset<int> {
    if ks == [] then multiset{} else multiset{ks[0].task} + WokenTasks(ks[1..])
  }

  /** The caller, when it blocks. */
  function Blocked<T>(who: Caller, o: Outcome<T>): multiset<int> {
    if o.ret == None then multiset{who.task} else multiset{}
  }

  lemma {:induction false} OneWoken<T>(k: Wake<T>)
    ensures WokenTasks([k]) == multiset{k.task}
  {
    assert [k][1..] == [];
  }

  lemma {:induction false} AllWoken<T, R>(ws: seq<Waiter<R>>, err: Err)
    ensures var ks: seq<Wake<T>> := WakeAll(ws, err);
            WokenTasks(ks) == Tasks(ws) && forall k :: k in ks ==> k.err == err && k.msg == None
  {
    if ws != [] {
      AllWoken<T, R>(ws[1..], err);
    }
  }

  lemma {:induction false} ConcatWoken<T>(a: seq<Wake<T>>, b: seq<Wake<T>>)
    ensures WokenTasks(a + b) == WokenTasks(a) + WokenTasks(b)
  {
    if a == [] {
      assert a + b == b;
    } else {
      assert (a + b)[1..] == a[1..] + b;
      ConcatWoken(a[1..], b);
    }
  }

  /** A list without its head, which is woken. */
  lemma {:induction false} HeadWoken<T, R>(ws: seq<Waiter<R>>, k: Wake<T>, after: seq<Waiter<R>>, ks: seq<Wake<T>>)
    requires ws != [] && k.task == ws[0].task && after == ws[1..] && ks == [k]
    ensures Tasks(ws) == Tasks(after) + WokenTasks(ks)
  {
    OneWoken(k);
  }

  lemma {:induction false} NobodyWoken<T, R>(ws: seq<Waiter<R>>, ks: seq<Wake<T>>)
    requires ks == []
    ensures Tasks(ws) == Tasks(ws) + WokenTasks(ks)
  {
  }

  /** A list onto which the caller may have been put. */
  lemma {:induction false} Joined<R>(ws: seq<Waiter<R>>, w: Waiter<R>, after: seq<Waiter<R>>, joins: multiset<int>)
    requires (after == InsertTask(ws, w) && joins == multiset{w.task}) || (after == ws && joins == multiset{})
    ensures Tasks(ws) + joins == Tasks(after)
  {
    InsertTasks(ws, w);
  }

  lemma {:induction false} ReadLists<T>(s: State<T>, who: Caller, opt: int)
    ensures var o := Read(s, who, opt);
            && o.st.readers == (if o.ret == None then InsertTask(s.readers, Waiter(who.task, who.prio, who.ms, opt))
                                else s.readers)
            && if s.items != [] && s.writers != [] then
                 o.st.writers == s.writers[1..] && o.wakes == [Wake(s.writers[0].task, Ok, None)]
               else
                 o.st.writers == s.writers && o.wakes == []
  {
  }

  lemma {:induction false} WriteLists<T>(s: State<T>, who: Caller, opt: int, m: T)
    ensures var o := Write(s, who, opt, m);
            && o.st.writers
               == (if o.ret == None then InsertTask(s.writers, Waiter(who.task, who.prio, who.ms, Send(m, opt)))
                   else s.writers)
            && if opt >= 0 && s.readers != [] then
                 o.st.readers == s.readers[1..] && o.wakes == [Wake(s.readers[0].task, Ok, Some(m))]
               else
                 o.st.readers == s.readers && o.wakes == []
  {
  }

  /** A read wakes none but writers, with Ok and without a message: who was on their list
      is still on it or woken. Readers only join theirs. */
  lemma {:induction false} ReadBalance<T>(s: State<T>, who: Caller, opt: int)
    ensures var o := Read(s, who, opt);
            && Tasks(s.readers) + Blocked(who, o) == Tasks(o.st.readers)
            && Tasks(s.writers) == Tasks(o.st.writers) + WokenTasks(o.wakes)
            && forall k :: k in o.wakes ==> k.err == Ok && k.msg == None
  {
    var o := Read(s, who, opt);
    ReadLists(s, who, opt);
    Joined(s.readers, Waiter(who.task, who.prio, who.ms, opt), o.st.readers, Blocked(who, o));
    if s.items != [] && s.writers != [] {
      HeadWoken(s.writers, Wake(s.writers[0].task, Ok, None), o.st.writers, o.wakes);
    } else {
      NobodyWoken(s.writers, o.wakes);
    }
  }

  /** A write wakes none but readers, with Ok and its message. */
  lemma {:induction false} WriteBalance<T>(s: State<T>, who: Caller, opt: int, m: T)
    ensures var o := Write(s, who, opt, m);
            && Tasks(s.writers) + Blocked(who, o) == Tasks(o.st.writers)
            && Tasks(s.readers) == Tasks(o.st.readers) + WokenTasks(o.wakes)
            && forall k :: k in o.wakes ==> k.err == Ok && k.msg == Some(m)
  {
    var o := Write(s, who, opt, m);
    WriteLists(s, who, opt, m);
    Joined(s.writers, Waiter(who.task, who.prio, who.ms, Send(m, opt)), o.st.writers, Blocked(who, o));
    if opt >= 0 && s.readers != [] {
      HeadWoken(s.readers, Wake(s.readers[0].task, Ok, Some(m)), o.st.readers, o.wakes);
    } else {
      NobodyWoken(s.readers, o.wakes);
    }
  }

  /** A clear and a removal wake everybody, with their own error. */
  lemma {:induction false} ClearBalance<T>(s: State<T>)
    ensures var o := Clear(s);
            && o.ret == Some(Ok) && o.st == State([], s.max, [], [])
            && WokenTasks(o.wakes) == Tasks(s.writers) + Tasks(s.readers)
            && forall k :: k in o.wakes ==> k.err == ErrClear && k.msg == None
    ensures var o := Uninit(s);
            && o.ret == Some(Ok) && o.st == State(s.items, s.max, [], [])
            && WokenTasks(o.wakes) == Tasks(s.writers) + Tasks(s.readers)
            && forall k :: k in o.wakes ==> k.err == ErrRemove && k.msg == None
  {
    AllWoken<T, Send<T>>(s.writers, ErrClear);
    AllWoken<T, int>(s.readers, ErrClear);
    AllWoken<T, Send<T>>(s.writers, ErrRemove);
    AllWoken<T, int>(s.readers, ErrRemove);
    ConcatWoken(WakeAll<T, Send<T>>(s.writers, ErrClear), WakeAll<T, int>(s.readers, ErrClear));
    ConcatWoken(WakeAll<T, int>(s.readers, ErrRemove), WakeAll<T, Send<T>>(s.writers, ErrRemove));
  }

  lemma {:induction false} WokenAt<T, R>(ws: seq<Waiter<R>>, err: Err, i: nat)
    requires i < |ws|
    ensures var ks: seq<Wake<T>> := WakeAll(ws, err);
            |ks| == |ws| && ks[i].task == ws[i].task
  {
    if i > 0 {
      WokenAt<T, R>(ws[1..], err, i - 1);
    } else {
      WokenCount<T, R>(ws, err);
    }
  }

  lemma {:induction false} WokenCount<T, R>(ws: seq<Waiter<R>>, err: Err)
    ensures var ks: seq<Wake<T>> := WakeAll(ws, err); |ks| == |ws|
  {
    if ws != [] {
      WokenCount<T, R>(ws[1..], err);
    }
  }

  /** A clear wakes the writers, in the order of their list, before the readers. */
  lemma {:induction false} ClearOrder<T>(s: State<T>, i: nat)
    ensures i < |s.writers| ==> i < |Clear(s).wakes| && Clear(s).wakes[i].task == s.writers[i].task
    ensures i < |s.readers| ==>
              var k := |s.writers| + i;
              k < |Clear(s).wakes| && Clear(s).wakes[k].task == s.readers[i].task
  {
    WokenCount<T, Send<T>>(s.writers, ErrClear);
    if i < |s.writers| {
      WokenAt<T, Send<T>>(s.writers, ErrClear, i);
    }
    if i < |s.readers| {
      WokenAt<T, int>(s.readers, ErrClear, i);
    }
  }

  /** A time-out wakes exactly a task that waits with a positive delay. */
  lemma {:induction false} TimeOutBalance<T>(s: State<T>, task: int)
    ensures var o := TimeOut(s, task);
            && Tasks(s.readers) + Tasks(s.writers)
               == Tasks(o.st.readers) + Tasks(o.st.writers) + WokenTasks(o.wakes)
            && (forall k :: k in o.wakes ==> k == Wake(task, ErrTimeout, None))
            && (o.wakes != [] <==> CanTimeOut(s.readers, task) || CanTimeOut(s.writers, task))
            && o.st.items == s.items
  {
    OneWoken<T>(Wake(task, ErrTimeout, None));
    if CanTimeOut(s.readers, task) {
      TimeOutTasks(s.readers, task);
    } else if CanTimeOut(s.writers, task) {
      TimeOutTasks(s.writers, task);
    }
  }

  lemma {:induction false} InheritBalance<T>(s: State<T>, task: int, prio: int)
    ensures var o := InheritPrio(s, task, prio);
            && Tasks(s.readers) == Tasks(o.st.readers) && Tasks(s.writers) == Tasks(o.st.writers) && o.wakes == []
  {
    InheritTasks(s.readers, task, prio);
    InheritTasks(s.writers, task, prio);
  }

  /** Who waited before, or blocks now, still waits afterwards or is made ready. */
  ghost predicate Accounted<T>(s: State<T>, o: Outcome<T>, blocked: multiset<int>) {
    Tasks(s.readers) + Tasks(s.writers) + blocked == Tasks(o.st.readers) + Tasks(o.st.writers) + WokenTasks(o.wakes)
  }

  /** No step forgets a waiting task. */
  lemma {:induction false} WaitersBalance<T>(s: State<T>, op: Op<T>)
    ensures Accounted(s, Step(s, op), if op.OpRead? || op.OpWrite? then Blocked(op.who, Step(s, op)) else multiset{})
  {
    var o := Step(s, op);
    match op
    case OpRead(who, opt) =>
      ReadBalance(s, who, opt);
      Rearranged(Tasks(s.readers), Tasks(s.writers), Blocked(who, o),
                 Tasks(o.st.readers), Tasks(o.st.writers), WokenTasks(o.wakes));
    case OpWrite(who, opt, m) =>
      WriteBalance(s, who, opt, m);
      Rearranged(Tasks(s.writers), Tasks(s.readers), Blocked(who, o),
                 Tasks(o.st.writers), Tasks(o.st.readers), WokenTasks(o.wakes));
    case OpClear => ClearBalance(s);
    case OpUninit => ClearBalance(s);
    case OpTimeOut(task) => TimeOutBalance(s, task);
    case OpInherit(task, prio) => InheritBalance(s, task, prio);
  }

  lemma Rearranged(a: multiset<int>, b: multiset<int>, c: multiset<int>,
                   a': multiset<int>, b': multiset<int>, k: multiset<int>)
    requires a + c == a' && b == b' + k
    ensures a + b + c == a' + b' + k && b + a + c == b' + a' + k
  {
    assert a + (b' + k) + c == (a + c) + b' + k;
  }

  /** A writer is woken with Ok exactly when its message is accepted by the step. */
  lemma {:induction false} WriterToldOkIff<T>(s: State<T>, who: Caller, opt: int)
    ensures var o := Read(s, who, opt);
            && |o.wakes| == |Accepted(s, OpRead(who, opt))|
            && (o.wakes != [] <==> s.items != [] && s.writers != [])
            && (o.wakes != [] ==> Accepted(s, OpRead(who, opt)) == [s.writers[0].reason.msg])
  {
    ReadParts(s, who, opt);
    if s.items != [] && s.writers != [] {
      OneSend(s.writers[0].reason);
    }
  }

  // ---- What the calls answer ----

  /** A read returns a message exactly when there is one; else it blocks when the caller
      may, with the caller on the list, and is refused without effect when not. */
  lemma {:induction false} ReadAnswers<T>(s: State<T>, who: Caller, opt: int)
    ensures var o := Read(s, who, opt);
            var may := who.ms >= 0 && !who.inIsr;
            && (o.ret == Some(Ok) <==> s.items != []) && (o.msg.Some? <==> s.items != [])
            && (o.ret == None <==> s.items == [] && may)
            && (o.ret == Some(PoolEmpty) <==> s.items == [] && !may)
            && (o.ret == Some(PoolEmpty) ==> o.st == s && o.wakes == [])
            && (o.ret == None ==>
                  multiset(o.st.readers) == multiset(s.readers) + multiset{Waiter(who.task, who.prio, who.ms, opt)})
  {
    InsertTasks(s.readers, Waiter(who.task, who.prio, who.ms, opt));
  }

  /** A write is refused for its option, or accepted when a reader waits or there is room;
      else it blocks when the caller may, with its message on the list, and is refused
      without effect when not. */
  lemma {:induction false} WriteAnswers<T>(s: State<T>, who: Caller, opt: int, m: T)
    ensures var o := Write(s, who, opt, m);
            var may := who.ms >= 0 && !who.inIsr;
            var takes := s.readers != [] || |s.items| < s.max;
            && (o.ret == Some(ErrParam) <==> opt < 0)
            && (o.ret == Some(Ok) <==> opt >= 0 && takes)
            && (o.ret == None <==> opt >= 0 && !takes && may)
            && (o.ret == Some(PoolFull) <==> opt >= 0 && !takes && !may)
            && (o.ret == Some(ErrParam) || o.ret == Some(PoolFull) ==> o.st == s && o.wakes == [])
            && (o.ret == None ==>
                  multiset(o.st.writers)
                  == multiset(s.writers) + multiset{Waiter(who.task, who.prio, who.ms, Send(m, opt))})
  {
    InsertTasks(s.writers, Waiter(who.task, who.prio, who.ms, Send(m, opt)));
  }
}
