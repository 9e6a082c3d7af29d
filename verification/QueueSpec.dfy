/** The message queue of rtos/os_queue.c as a bounded deque with blocked readers and
    writers. Each call up to its critical section's end is one step; `T` is the type
    of a message. */
module QueueSpec {
  import opened OsList
  import opened OsEvent

  const NORMAL: int := 1  // OS_QUEUE_RELESE_NORMAL
  const URGENT: int := 2  // OS_QUEUE_RELESE_UPGENT

  datatype Err = Ok | ErrParam | PoolFull | PoolEmpty | ErrTimeout | ErrClear | ErrRemove

  /** os_queue_wait_t of a blocked writer. */
  datatype Send<T> = Send(msg: T, opt: int)

  /** A task made ready: its event_info.err and the message copied to it, if any. */
  datatype Wake<T> = Wake(task: int, err: Err, msg: Option<T>)

  datatype State<T> = State(items: seq<T>, max: nat, readers: seq<Waiter<int>>, writers: seq<Waiter<Send<T>>>)

  /** The calling task and its context. */
  datatype Caller = Caller(task: int, prio: int, ms: int, inIsr: bool)

  /** A step's outcome; `ret` is none when the caller blocks. */
  datatype Outcome<T> = Outcome(st: State<T>, ret: Option<Err>, msg: Option<T>, wakes: seq<Wake<T>>)

  predicate KnownOpt(opt: int) {
    opt == NORMAL || opt == URGENT
  }

  /** queue_wirte_in: any other option drops the message. */
  function Push<T>(items: seq<T>, opt: int, m: T): seq<T> {
    if opt == URGENT then [m] + items
    else if opt == NORMAL then items + [m]
    else items
  }

  function Read<T>(s: State<T>, who: Caller, opt: int): Outcome<T> {
    if s.items != [] then
      var m, rest := s.items[0], s.items[1..];
      if s.writers == [] then Outcome(s.(items := rest), Some(Ok), Some(m), [])
      else
        var w := s.writers[0];
        Outcome(s.(items := Push(rest, w.reason.opt, w.reason.msg), writers := s.writers[1..]),
                Some(Ok), Some(m), [Wake(w.task, Ok, None)])
    else if who.ms < 0 || who.inIsr then
      Outcome(s, Some(PoolEmpty), None, [])
    else
      Outcome(s.(readers := InsertTask(s.readers, Waiter(who.task, who.prio, who.ms, opt))), None, None, [])
  }

  function Write<T>(s: State<T>, who: Caller, opt: int, m: T): Outcome<T> {
    if opt < 0 then
      Outcome(s, Some(ErrParam), None, [])
    else if s.readers != [] then
      Outcome(s.(readers := s.readers[1..]), Some(Ok), None, [Wake(s.readers[0].task, Ok, Some(m))])
    else if |s.items| < s.max then
      Outcome(s.(items := Push(s.items, opt, m)), Some(Ok), None, [])
    else if who.ms < 0 || who.inIsr then
      Outcome(s, Some(PoolFull), None, [])
    else
      Outcome(s.(writers := InsertTask(s.writers, Waiter(who.task, who.prio, who.ms, Send(m, opt)))), None, None, [])
  }

  function WakeAll<T, R>(ws: seq<Waiter<R>>, err: Err): seq<Wake<T>> {
    if ws == [] then [] else [Wake(ws[0].task, err, None)] + WakeAll(ws[1..], err)
  }

  function Clear<T>(s: State<T>): Outcome<T> {
    Outcome(State([], s.max, [], []), Some(Ok), None,
            WakeAll<T, Send<T>>(s.writers, ErrClear) + WakeAll<T, int>(s.readers, ErrClear))
  }

  function Uninit<T>(s: State<T>): Outcome<T> {
    Outcome(s.(readers := [], writers := []), Some(Ok), None,
            WakeAll<T, int>(s.readers, ErrRemove) + WakeAll<T, Send<T>>(s.writers, ErrRemove))
  }

  /** A tick times a waiter out. */
  function TimeOut<T>(s: State<T>, task: int): Outcome<T> {
    if CanTimeOut(s.readers, task) then
      Outcome(s.(readers := RemoveTask(s.readers, task)), None, None, [Wake(task, ErrTimeout, None)])
    else if CanTimeOut(s.writers, task) then
      Outcome(s.(writers := RemoveTask(s.writers, task)), None, None, [Wake(task, ErrTimeout, None)])
    else
      Outcome(s, None, None, [])
  }

  /** A waiting task inherits a priority. */
  function InheritPrio<T>(s: State<T>, task: int, prio: int): Outcome<T> {
    if FindTask(s.readers, task).Some? then Outcome(s.(readers := Inherit(s.readers, task, prio)), None, None, [])
    else Outcome(s.(writers := Inherit(s.writers, task, prio)), None, None, [])
  }

  // ---- Hand-off safety ----

  /** A waiting reader means an empty buffer, a waiting writer a full one. */
  ghost predicate HandOff<T>(s: State<T>) {
    && |s.items| <= s.max
    && (s.readers != [] ==> s.items == [])
    && (s.writers != [] ==> |s.items| == s.max)
  }

  ghost predicate KnownOpts<T>(s: State<T>) {
    forall w :: w in s.writers ==> KnownOpt(w.reason.opt)
  }

  lemma NeverBothWaiting<T>(s: State<T>)
    requires HandOff(s)
    ensures s.max > 0 ==> s.readers == [] || s.writers == []
  {
  }

  /** A read keeps hand-off safety unless it admits a writer whose option is unknown
      while others wait behind it. */
  lemma ReadHandOff<T>(s: State<T>, who: Caller, opt: int)
    requires HandOff(s)
    ensures HandOff(Read(s, who, opt).st) <==>
              s.items == [] || |s.writers| <= 1 || KnownOpt(s.writers[0].reason.opt)
  {
    if s.items == [] && s.max > 0 {
      NeverBothWaiting(s);
    }
  }

  lemma WriteHandOff<T>(s: State<T>, who: Caller, opt: int, m: T)
    requires HandOff(s)
    ensures HandOff(Write(s, who, opt, m).st)
  {
  }

  /** With no room for a single message readers and writers do wait for each other. */
  lemma ZeroCapacityBothWait(who: Caller, who': Caller)
    requires who.ms >= 0 && !who.inIsr && who'.ms >= 0 && !who'.inIsr
    ensures var s := Read(Write(State([], 0, [], []), who, NORMAL, 7).st, who', 0).st;
            HandOff(s) && s.readers != [] && s.writers != []
  {
  }

  // ---- Runs and their history ----

  datatype Op<T> =
    | OpRead(who: Caller, opt: int)
    | OpWrite(who: Caller, opt: int, msg: T)
    | OpClear
    | OpUninit
    | OpTimeOut(task: int)
    | OpInherit(task: int, prio: int)

  function Step<T>(s: State<T>, op: Op<T>): Outcome<T> {
    match op
    case OpRead(who, opt) => Read(s, who, opt)
    case OpWrite(who, opt, m) => Write(s, who, opt, m)
    case OpClear => Clear(s)
    case OpUninit => Uninit(s)
    case OpTimeOut(task) => TimeOut(s, task)
    case OpInherit(task, prio) => InheritPrio(s, task, prio)
  }

  /** `accepted`: the messages whose writer was told Ok, in that order. `settled`: the
      messages that left, in order, and whether delivered (or discarded by a clear).
      `lost`: the messages dropped for their option. */
  datatype History<T> = History(st: State<T>, accepted: seq<T>, settled: seq<(T, bool)>, lost: seq<T>)

  function Settle<T>(ms: seq<T>, delivered: bool): (r: seq<(T, bool)>)
    ensures |r| == |ms|
  {
    seq(|ms|, i requires 0 <= i < |ms| => (ms[i], delivered))
  }

  function Messages<T>(settled: seq<(T, bool)>): (r: seq<T>)
    ensures |r| == |settled|
  {
    seq(|settled|, i requires 0 <= i < |settled| => settled[i].0)
  }

  /** The messages that woken readers find copied to them. */
  function Copied<T>(ks: seq<Wake<T>>): seq<T> {
    if ks == [] then [] else (if ks[0].msg.Some? then [ks[0].msg.value] else []) + Copied(ks[1..])
  }

  /** What a writer woken with Ok had waited to send. */
  function AdmittedBy<T>(writers: seq<Waiter<Send<T>>>, k: Wake<T>): seq<Send<T>> {
    var w := FindTask(writers, k.task);
    if k.err == Ok && k.msg.None? && w.Some? then [w.value.reason] else []
  }

  function Admitted<T>(writers: seq<Waiter<Send<T>>>, ks: seq<Wake<T>>): seq<Send<T>> {
    if ks == [] then [] else AdmittedBy(writers, ks[0]) + Admitted(writers, ks[1..])
  }

  /** What the writers told Ok by a step send: the one that called, or those it wakes. */
  function Sends<T>(s: State<T>, op: Op<T>): seq<Send<T>> {
    var o := Step(s, op);
    (if op.OpWrite? && o.ret == Some(Ok) then [Send(op.msg, op.opt)] else []) + Admitted(s.writers, o.wakes)
  }

  function Bodies<T>(es: seq<Send<T>>): seq<T> {
    if es == [] then [] else [es[0].msg] + Bodies(es[1..])
  }

  function Accepted<T>(s: State<T>, op: Op<T>): seq<T> {
    Bodies(Sends(s, op))
  }

  function Unknown<T>(es: seq<Send<T>>): seq<T> {
    if es == [] then [] else (if KnownOpt(es[0].opt) then [] else [es[0].msg]) + Unknown(es[1..])
  }

  /** The messages accepted with an unknown option and not handed to a reader. */
  function Lost<T>(s: State<T>, op: Op<T>): seq<T> {
    if Copied(Step(s, op).wakes) == [] then Unknown(Sends(s, op)) else []
  }

  /** What a step delivers: the message returned and those handed to woken readers. */
  function Delivered<T>(o: Outcome<T>): seq<T> {
    (if o.msg.Some? then [o.msg.value] else []) + Copied(o.wakes)
  }

  function Advance<T>(h: History<T>, op: Op<T>): History<T> {
    var o := Step(h.st, op);
    History(o.st,
            h.accepted + Accepted(h.st, op),
            h.settled + Settle(Delivered(o), true) + Settle(if op.OpClear? then h.st.items else [], false),
            h.lost + Lost(h.st, op))
  }

  function Run<T>(h: History<T>, ops: seq<Op<T>>): History<T>
    decreases |ops|
  {
    if ops == [] then h else Run(Advance(h, ops[0]), ops[1..])
  }

  function Start<T>(max: nat): History<T> {
    History(State([], max, [], []), [], [], [])
  }

  ghost predicate OnlyKnown<T>(ops: seq<Op<T>>) {
    forall i :: 0 <= i < |ops| && ops[i].OpWrite? ==> KnownOpt(ops[i].opt)
  }

  ghost predicate OnlyNormal<T>(ops: seq<Op<T>>) {
    forall i :: 0 <= i < |ops| && ops[i].OpWrite? ==> ops[i].opt == NORMAL
  }

  ghost predicate Safe<T>(s: State<T>) {
    HandOff(s) && KnownOpts(s)
  }

  lemma StepWriter<T>(s: State<T>, op: Op<T>, w: Waiter<Send<T>>)
    requires w in Step(s, op).st.writers
    ensures WaitsFor(s.writers, w.task, w.reason) || (op.OpWrite? && w.reason.opt == op.opt)
  {
    match op
    case OpWrite(who, opt, m) =>
      InsertMember(s.writers, Waiter(who.task, who.prio, who.ms, Send(m, opt)), w);
    case OpInherit(task, prio) =>
      InheritWaitsFor(s.writers, task, prio, w);
    case _ =>
  }

  lemma StepKnownOpts<T>(s: State<T>, op: Op<T>)
    requires KnownOpts(s) && (op.OpWrite? ==> KnownOpt(op.opt))
    ensures KnownOpts(Step(s, op).st)
  {
    forall w | w in Step(s, op).st.writers
      ensures KnownOpt(w.reason.opt)
    {
      StepWriter(s, op, w);
    }
  }

  lemma StepSafe<T>(s: State<T>, op: Op<T>)
    requires Safe(s) && (op.OpWrite? ==> KnownOpt(op.opt))
    ensures Safe(Step(s, op).st)
  {
    StepKnownOpts(s, op);
    match op
    case OpRead(who, opt) =>
      ReadHandOff(s, who, opt);
    case OpWrite(who, opt, m) =>
      WriteHandOff(s, who, opt, m);
    case _ =>
  }

  /** Hand-off safety in every reachable state. */
  lemma {:induction false} RunSafe<T>(h: History<T>, ops: seq<Op<T>>)
    requires Safe(h.st) && OnlyKnown(ops)
    ensures Safe(Run(h, ops).st)
    decreases |ops|
  {
    if ops != [] {
      StepSafe(h.st, ops[0]);
      RunSafe(Advance(h, ops[0]), ops[1..]);
    }
  }

  // ---- Conservation ----

  /** Every accepted message is exactly once delivered, discarded, lost or still
      buffered. */
  ghost predicate Conserved<T>(h: History<T>) {
    multiset(h.accepted) == multiset(Messages(h.settled)) + multiset(h.lost) + multiset(h.st.items)
  }

  /** They left in the order they were accepted. */
  ghost predicate InOrder<T>(h: History<T>) {
    h.accepted == Messages(h.settled) + h.st.items
  }

  lemma MessagesConcat<T>(a: seq<(T, bool)>, b: seq<(T, bool)>)
    ensures Messages(a + b) == Messages(a) + Messages(b)
  {
  }

  lemma MessagesSettle<T>(ms: seq<T>, delivered: bool)
    ensures Messages(Settle(ms, delivered)) == ms
  {
  }

  /** What left in a step, delivered or discarded. */
  function Leaving<T>(s: State<T>, op: Op<T>): seq<T> {
    Delivered(Step(s, op)) + if op.OpClear? then s.items else []
  }

  lemma {:induction false} AdvanceMessages<T>(h: History<T>, op: Op<T>)
    ensures Messages(Advance(h, op).settled) == Messages(h.settled) + Leaving(h.st, op)
  {
    var d := Delivered(Step(h.st, op));
    var c := if op.OpClear? then h.st.items else [];
    MessagesConcat(h.settled + Settle(d, true), Settle(c, false));
    MessagesConcat(h.settled, Settle(d, true));
    MessagesSettle(d, true);
    MessagesSettle(c, false);
  }

  lemma {:induction false} NoMessages<T, R>(ws: seq<Waiter<R>>, err: Err, writers: seq<Waiter<Send<T>>>)
    requires err != Ok
    ensures var ks: seq<Wake<T>> := WakeAll(ws, err);
            Copied(ks) == [] && Admitted(writers, ks) == [] && forall k :: k in ks ==> k.err == err && k.msg == None
  {
    if ws != [] {
      NoMessages<T, R>(ws[1..], err, writers);
    }
  }

  lemma {:induction false} ConcatCopied<T>(a: seq<Wake<T>>, b: seq<Wake<T>>)
    ensures Copied(a + b) == Copied(a) + Copied(b)
  {
    if a == [] {
      assert a + b == b;
    } else {
      assert (a + b)[1..] == a[1..] + b;
      ConcatCopied(a[1..], b);
    }
  }

  lemma {:induction false} ConcatAdmitted<T>(a: seq<Wake<T>>, b: seq<Wake<T>>, writers: seq<Waiter<Send<T>>>)
    ensures Admitted(writers, a + b) == Admitted(writers, a) + Admitted(writers, b)
  {
    if a == [] {
      assert a + b == b;
    } else {
      assert (a + b)[1..] == a[1..] + b;
      ConcatAdmitted(a[1..], b, writers);
    }
  }

  lemma ConcatWakes<T>(a: seq<Wake<T>>, b: seq<Wake<T>>, writers: seq<Waiter<Send<T>>>)
    ensures Copied(a + b) == Copied(a) + Copied(b)
    ensures Admitted(writers, a + b) == Admitted(writers, a) + Admitted(writers, b)
  {
    ConcatCopied(a, b);
    ConcatAdmitted(a, b, writers);
  }

  lemma OneWake<T>(k: Wake<T>, writers: seq<Waiter<Send<T>>>)
    ensures Copied([k]) == if k.msg.Some? then [k.msg.value] else []
    ensures Admitted(writers, [k]) == AdmittedBy(writers, k)
  {
    assert [k][1..] == [];
  }

  lemma OneSend<T>(e: Send<T>)
    ensures Bodies([e]) == [e.msg] && Unknown([e]) == if KnownOpt(e.opt) then [] else [e.msg]
  {
    assert [e][1..] == [];
  }

  /** The balance of a step: buffered before + accepted = left + lost + buffered after. */
  ghost predicate Balanced<T>(items: seq<T>, accepted: seq<T>, left: seq<T>, lost: seq<T>, items': seq<T>) {
    multiset(items) + multiset(accepted) == multiset(left) + multiset(lost) + multiset(items')
  }

  lemma PopBalanced<T>(items: seq<T>)
    requires items != []
    ensures Balanced(items, [], [items[0]], [], items[1..])
  {
    assert items == [items[0]] + items[1..];
  }

  lemma PopPushBalanced<T>(items: seq<T>, opt: int, m: T)
    requires items != []
    ensures Balanced(items, [m], [items[0]], if KnownOpt(opt) then [] else [m], Push(items[1..], opt, m))
  {
    assert items == [items[0]] + items[1..];
  }

  lemma PushBalanced<T>(items: seq<T>, opt: int, m: T)
    ensures Balanced(items, [m], [], if KnownOpt(opt) then [] else [m], Push(items, opt, m))
  {
  }

  lemma HandOverBalanced<T>(items: seq<T>, m: T)
    ensures Balanced(items, [m], [m], [], items)
  {
  }

  lemma NothingBalanced<T>(items: seq<T>)
    ensures Balanced(items, [], [], [], items)
  {
  }

  lemma ReadParts<T>(s: State<T>, who: Caller, opt: int)
    ensures var op := OpRead(who, opt);
            && Leaving(s, op) == (if s.items == [] then [] else [s.items[0]])
            && Copied(Read(s, who, opt).wakes) == []
            && Sends(s, op) == if s.items != [] && s.writers != [] then [s.writers[0].reason] else []
  {
    if s.items != [] && s.writers != [] {
      OneWake(Wake(s.writers[0].task, Ok, None), s.writers);
    }
  }

  lemma ReadConserves<T>(s: State<T>, who: Caller, opt: int)
    ensures var op := OpRead(who, opt);
            Balanced(s.items, Accepted(s, op), Leaving(s, op), Lost(s, op), Read(s, who, opt).st.items)
  {
    ReadParts(s, who, opt);
    if s.items != [] {
      if s.writers == [] {
        PopBalanced(s.items);
      } else {
        OneSend(s.writers[0].reason);
        PopPushBalanced(s.items, s.writers[0].reason.opt, s.writers[0].reason.msg);
      }
    }
  }

  lemma WriteParts<T>(s: State<T>, who: Caller, opt: int, m: T)
    requires opt >= 0
    ensures var op := OpWrite(who, opt, m);
            && Leaving(s, op) == (if s.readers == [] then [] else [m])
            && Copied(Write(s, who, opt, m).wakes) == (if s.readers == [] then [] else [m])
            && Sends(s, op) == if s.readers != [] || |s.items| < s.max then [Send(m, opt)] else []
    ensures Write(s, who, opt, m).st.items
            == if s.readers == [] && |s.items| < s.max then Push(s.items, opt, m) else s.items
  {
    if s.readers != [] {
      OneWake(Wake(s.readers[0].task, Ok, Some(m)), s.writers);
    }
  }

  lemma WriteConserves<T>(s: State<T>, who: Caller, opt: int, m: T)
    ensures var op := OpWrite(who, opt, m);
            Balanced(s.items, Accepted(s, op), Leaving(s, op), Lost(s, op), Write(s, who, opt, m).st.items)
  {
    if opt >= 0 {
      WriteParts(s, who, opt, m);
      OneSend(Send(m, opt));
      PushBalanced(s.items, opt, m);
      HandOverBalanced(s.items, m);
    }
    NothingBalanced(s.items);
  }

  lemma StepConserves<T>(s: State<T>, op: Op<T>)
    ensures Balanced(s.items, Accepted(s, op), Leaving(s, op), Lost(s, op), Step(s, op).st.items)
  {
    match op
    case OpRead(who, opt) =>
      ReadConserves(s, who, opt);
    case OpWrite(who, opt, m) =>
      WriteConserves(s, who, opt, m);
    case OpClear =>
      ClearLeaving(s);
    case _ =>
      OthersLeave(s, op);
      NothingBalanced(s.items);
  }

  lemma ClearLeaving<T>(s: State<T>)
    ensures Leaving(s, OpClear) == s.items && Sends(s, OpClear) == []
  {
    NoMessages<T, Send<T>>(s.writers, ErrClear, s.writers);
    NoMessages<T, int>(s.readers, ErrClear, s.writers);
    ConcatWakes(WakeAll<T, Send<T>>(s.writers, ErrClear), WakeAll<T, int>(s.readers, ErrClear), s.writers);
  }

  lemma UninitLeaving<T>(s: State<T>)
    ensures Leaving(s, OpUninit) == [] && Sends(s, OpUninit) == []
  {
    NoMessages<T, int>(s.readers, ErrRemove, s.writers);
    NoMessages<T, Send<T>>(s.writers, ErrRemove, s.writers);
    ConcatWakes(WakeAll<T, int>(s.readers, ErrRemove), WakeAll<T, Send<T>>(s.writers, ErrRemove), s.writers);
  }

  lemma OthersLeave<T>(s: State<T>, op: Op<T>)
    requires op.OpUninit? || op.OpTimeOut? || op.OpInherit?
    ensures Leaving(s, op) == [] && Sends(s, op) == [] && Step(s, op).st.items == s.items
  {
    match op
    case OpUninit => UninitLeaving(s);
    case OpTimeOut(task) => OneWake<T>(Wake(task, ErrTimeout, None), s.writers);
    case OpInherit(_, _) =>
  }

  lemma AdvanceConserves<T>(h: History<T>, op: Op<T>)
    requires Conserved(h)
    ensures Conserved(Advance(h, op))
  {
    StepConserves(h.st, op);
    AdvanceMessages(h, op);
    var m := Messages(h.settled);
    Account(h.accepted, m, h.lost, h.st.items,
            Accepted(h.st, op), Leaving(h.st, op), Lost(h.st, op), Step(h.st, op).st.items);
  }

  lemma Account<T>(accepted: seq<T>, m: seq<T>, lost: seq<T>, items: seq<T>,
                   a: seq<T>, l: seq<T>, d: seq<T>, items': seq<T>)
    requires multiset(accepted) == multiset(m) + multiset(lost) + multiset(items)
    requires Balanced(items, a, l, d, items')
    ensures multiset(accepted + a) == multiset(m + l) + multiset(lost + d) + multiset(items')
  {
    forall x: T
      ensures multiset(accepted + a)[x] == (multiset(m + l) + multiset(lost + d) + multiset(items'))[x]
    {
      assert (multiset(items) + multiset(a))[x] == (multiset(l) + multiset(d) + multiset(items'))[x];
    }
  }

  lemma {:induction false} RunConserves<T>(h: History<T>, ops: seq<Op<T>>)
    requires Conserved(h)
    ensures Conserved(Run(h, ops))
    decreases |ops|
  {
    if ops != [] {
      AdvanceConserves(h, ops[0]);
      RunConserves(Advance(h, ops[0]), ops[1..]);
    }
  }

  lemma StepLoses<T>(s: State<T>, op: Op<T>)
    requires KnownOpts(s) && (op.OpWrite? ==> KnownOpt(op.opt))
    ensures Lost(s, op) == []
  {
    match op
    case OpRead(who, opt) =>
      ReadParts(s, who, opt);
      if s.writers != [] {
        assert s.writers[0] in s.writers;
        OneSend(s.writers[0].reason);
      }
    case OpWrite(who, opt, m) =>
      WriteParts(s, who, opt, m);
      OneSend(Send(m, opt));
    case OpClear =>
      ClearLeaving(s);
    case _ =>
      OthersLeave(s, op);
  }

  /** With known options nothing is lost. */
  lemma {:induction false} RunLoses<T>(h: History<T>, ops: seq<Op<T>>)
    requires Safe(h.st) && OnlyKnown(ops) && h.lost == []
    ensures Run(h, ops).lost == []
    decreases |ops|
  {
    if ops != [] {
      var s := h.st;
      StepLoses(s, ops[0]);
      StepSafe(s, ops[0]);
      RunLoses(Advance(h, ops[0]), ops[1..]);
    }
  }

  // ---- Order ----

  ghost predicate NormalWriters<T>(s: State<T>) {
    forall w :: w in s.writers ==> w.reason.opt == NORMAL
  }

  lemma StepNormal<T>(s: State<T>, op: Op<T>)
    requires NormalWriters(s) && (op.OpWrite? ==> op.opt == NORMAL)
    ensures NormalWriters(Step(s, op).st)
  {
    forall w | w in Step(s, op).st.writers
      ensures w.reason.opt == NORMAL
    {
      StepWriter(s, op, w);
    }
  }

  lemma ReadInOrder<T>(s: State<T>, who: Caller, opt: int)
    requires NormalWriters(s)
    ensures var op := OpRead(who, opt);
            s.items + Accepted(s, op) == Leaving(s, op) + Read(s, who, opt).st.items
  {
    ReadParts(s, who, opt);
    if s.items != [] {
      assert s.items == [s.items[0]] + s.items[1..];
      if s.writers != [] {
        assert s.writers[0] in s.writers;
        OneSend(s.writers[0].reason);
      }
    }
  }

  lemma WriteInOrder<T>(s: State<T>, who: Caller, opt: int, m: T)
    requires HandOff(s) && opt == NORMAL
    ensures var op := OpWrite(who, opt, m);
            s.items + Accepted(s, op) == Leaving(s, op) + Write(s, who, opt, m).st.items
  {
    WriteParts(s, who, opt, m);
    OneSend(Send(m, opt));
  }

  lemma StepInOrder<T>(s: State<T>, op: Op<T>)
    requires Safe(s) && NormalWriters(s) && (op.OpWrite? ==> op.opt == NORMAL)
    ensures s.items + Accepted(s, op) == Leaving(s, op) + Step(s, op).st.items
  {
    match op
    case OpRead(who, opt) =>
      ReadInOrder(s, who, opt);
    case OpWrite(who, opt, m) =>
      WriteInOrder(s, who, opt, m);
    case OpClear =>
      ClearLeaving(s);
    case _ =>
      OthersLeave(s, op);
  }

  lemma AdvanceInOrder<T>(h: History<T>, op: Op<T>)
    requires Safe(h.st) && NormalWriters(h.st) && InOrder(h) && (op.OpWrite? ==> op.opt == NORMAL)
    ensures InOrder(Advance(h, op))
  {
    StepInOrder(h.st, op);
    AdvanceMessages(h, op);
    Regroup(Messages(h.settled), h.st.items, Accepted(h.st, op), Leaving(h.st, op), Step(h.st, op).st.items);
  }

  lemma Regroup<T>(m: seq<T>, items: seq<T>, a: seq<T>, l: seq<T>, items': seq<T>)
    requires items + a == l + items'
    ensures (m + items) + a == (m + l) + items'
  {
    assert (m + items) + a == m + (items + a);
    assert m + (l + items') == (m + l) + items';
  }

  lemma {:induction false} RunInOrder<T>(h: History<T>, ops: seq<Op<T>>)
    requires Safe(h.st) && NormalWriters(h.st) && InOrder(h) && OnlyNormal(ops)
    ensures InOrder(Run(h, ops))
    decreases |ops|
  {
    if ops != [] {
      StepSafe(h.st, ops[0]);
      StepNormal(h.st, ops[0]);
      AdvanceInOrder(h, ops[0]);
      RunInOrder(Advance(h, ops[0]), ops[1..]);
    }
  }

  /** Over every run from an empty queue each accepted message is exactly once
      delivered, discarded by a clear, lost for its option, or buffered. With known
      options nothing is lost, and readers and writers never wait at once. */
  lemma QueueConservation<T>(max: nat, ops: seq<Op<T>>)
    ensures var h := Run(Start<T>(max), ops);
            multiset(h.accepted) == multiset(Messages(h.settled)) + multiset(h.lost) + multiset(h.st.items)
    ensures var h := Run(Start<T>(max), ops);
            OnlyKnown(ops) ==>
              && h.lost == [] && HandOff(h.st) && h.st.max == max
              && (max > 0 ==> h.st.readers == [] || h.st.writers == [])
  {
    RunConserves(Start<T>(max), ops);
    if OnlyKnown(ops) {
      RunLoses(Start<T>(max), ops);
      RunSafe(Start<T>(max), ops);
      RunMax(Start<T>(max), ops);
      NeverBothWaiting(Run(Start<T>(max), ops).st);
    }
  }

  lemma {:induction false} RunMax<T>(h: History<T>, ops: seq<Op<T>>)
    ensures Run(h, ops).st.max == h.st.max
    decreases |ops|
  {
    if ops != [] {
      StepMax(h.st, ops[0]);
      RunMax(Advance(h, ops[0]), ops[1..]);
    }
  }

  lemma StepMax<T>(s: State<T>, op: Op<T>)
    ensures Step(s, op).st.max == s.max
  {
  }

  /** With normal writes only, messages leave in the order they were accepted, through
      blocked writers and direct hand-offs alike. */
  lemma QueueOrder<T>(max: nat, ops: seq<Op<T>>)
    requires OnlyNormal(ops)
    ensures var h := Run(Start<T>(max), ops);
            h.accepted == Messages(h.settled) + h.st.items
  {
    RunInOrder(Start<T>(max), ops);
  }

  /** A write told Ok loses its message exactly when the option is unknown and no
      reader waits: it is then neither handed to a reader nor buffered. */
  lemma {:induction false} UnknownOptionLosesMessage<T>(s: State<T>, who: Caller, opt: int, m: T)
    requires Write(s, who, opt, m).ret == Some(Ok)
    ensures var o := Write(s, who, opt, m);
            && (multiset(Delivered(o)) + multiset(o.st.items) == multiset(s.items) + multiset{m}
                <==> KnownOpt(opt) || s.readers != [])
            && (!KnownOpt(opt) && s.readers == [] ==> Delivered(o) == [] && o.st.items == s.items)
  {
    WriteParts(s, who, opt, m);
    if !KnownOpt(opt) && s.readers == [] {
      assert |multiset(s.items) + multiset{m}| == |multiset(s.items)| + 1;
    }
  }

  /** Unknown options can leave a reader and a writer waiting for each other. */
  lemma UnknownOptionsBothWait<T>(m: T, w: Caller, r: Caller)
    requires w.ms >= 0 && !w.inIsr && r.ms >= 0 && !r.inIsr
    ensures var s := State([m], 1, [], []);
            var t := Write(Write(s, w, 0, m).st, w, 0, m).st;
            var u := Read(Read(t, r, 0).st, r, 0).st;
            HandOff(s) && u.readers != [] && u.writers != []
  {
    var s := State([m], 1, [], []);
    var t := Write(Write(s, w, 0, m).st, w, 0, m).st;
    assert |t.writers| == 2;
    forall x | x in t.writers
      ensures x.reason.opt == 0
    {
      var x0 := Waiter(w.task, w.prio, w.ms, Send(m, 0));
      InsertMember([], x0, x);
      InsertMember(InsertTask([], x0), x0, x);
    }
    assert t.writers[0] in t.writers;
    assert t.items == [m] && Read(t, r, 0).st.items == [];
  }

  ghost predicate Ordered<T>(s: State<T>) {
    FallingPrio(s.readers) && FallingPrio(s.writers)
  }

  lemma StepKeepsOrder<T>(s: State<T>, op: Op<T>)
    requires Ordered(s)
    ensures Ordered(Step(s, op).st)
  {
    match op
    case OpRead(who, opt) =>
      InsertKeepsFalling(s.readers, Waiter(who.task, who.prio, who.ms, opt));
    case OpWrite(who, opt, m) =>
      InsertKeepsFalling(s.writers, Waiter(who.task, who.prio, who.ms, Send(m, opt)));
    case OpTimeOut(task) =>
      RemoveKeepsFalling(s.readers, task);
      RemoveKeepsFalling(s.writers, task);
    case OpInherit(task, prio) =>
      InheritKeepsFalling(s.readers, task, prio);
      InheritKeepsFalling(s.writers, task, prio);
    case _ =>
  }

  /** Over every run the priority numbers fall along both wait lists. */
  lemma {:induction false} RunKeepsFalling<T>(h: History<T>, ops: seq<Op<T>>)
    requires Ordered(h.st)
    ensures Ordered(Run(h, ops).st)
    decreases |ops|
  {
    if ops != [] {
      StepKeepsOrder(h.st, ops[0]);
      RunKeepsFalling(Advance(h, ops[0]), ops[1..]);
    }
  }

  /** In every reachable state the reader a write serves, and the writer a read admits,
      has the largest priority number of its list; it is the most urgent one there
      exactly when all of them are equally urgent. */
  lemma {:induction false} LargestNumberServed<T>(max: nat, ops: seq<Op<T>>, who: Caller, opt: int, m: T)
    requires opt >= 0
    ensures var s := Run(Start<T>(max), ops).st;
            && (forall i :: 0 <= i < |s.readers| ==> s.readers[0].prio >= s.readers[i].prio)
            && (forall i :: 0 <= i < |s.writers| ==> s.writers[0].prio >= s.writers[i].prio)
            && (HeadMostUrgent(s.readers) <==> OnePrio(s.readers))
            && (HeadMostUrgent(s.writers) <==> OnePrio(s.writers))
            && (s.readers != [] ==> Write(s, who, opt, m).wakes == [Wake(s.readers[0].task, Ok, Some(m))])
            && (s.items != [] && s.writers != [] ==>
                  Read(s, who, opt).wakes == [Wake(s.writers[0].task, Ok, None)])
  {
    RunKeepsFalling(Start<T>(max), ops);
    HeadMostUrgentIff(Run(Start<T>(max), ops).st.readers);
    HeadMostUrgentIff(Run(Start<T>(max), ops).st.writers);
  }
}
