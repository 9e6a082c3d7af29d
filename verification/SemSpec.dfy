/** The counting semaphore of rtos/os_sem.c: its steps, and the balance of takes and
    releases over every run of task calls, interrupt calls, time-outs and inherited
    priorities. */
module SemSpec {
  import opened OsList
  import opened OsEvent

  datatype Err = Ok | ErrParam | ErrIsr | CntZero | CntOut | ErrTimeout | ErrRemove

  type Task = Waiter<()>

  /** A task made ready, with its event_info.err. */
  datatype Wake = Wake(task: int, err: Err)

  datatype State = State(curr: nat, max: nat, waiting: seq<Task>)

  /** `ret` is none when the caller blocks. */
  datatype Outcome = Outcome(st: State, ret: Option<Err>, wakes: seq<Wake>)

  datatype Caller = Caller(task: int, prio: int, ms: int, inIsr: bool)

  /** The counts the create functions let through. */
  predicate Creatable(init: int, max: int) {
    init >= 0 && 0 <= max <= 255
  }

  /** sem_init: clamped when there is a maximum, then stored in a uint8_t. */
  function Init(init: nat, max: nat): State {
    State((if max > 0 && init > max then max else init) % 0x100, max, [])
  }

  /** os_sem_take */
  function Take(s: State, who: Caller): Outcome {
    if s.curr > s.max then Outcome(s, Some(ErrParam), [])
    else if who.inIsr then Outcome(s, Some(ErrIsr), [])
    else if s.curr > 0 then Outcome(s.(curr := s.curr - 1), Some(Ok), [])
    else if who.ms < 0 then Outcome(s, Some(CntZero), [])
    else Outcome(s.(waiting := InsertTask(s.waiting, Waiter(who.task, who.prio, who.ms, ()))), None, [])
  }

  /** os_sem_take_from_isr */
  function TakeFromIsr(s: State): Outcome {
    if s.curr > 0 then Outcome(s.(curr := s.curr - 1), Some(Ok), [])
    else Outcome(s, Some(CntZero), [])
  }

  /** os_sem_release_from_isr: a waiter gets the count handed over. */
  function ReleaseFromIsr(s: State): Outcome {
    if s.waiting != [] then Outcome(s.(waiting := s.waiting[1..]), Some(Ok), [Wake(s.waiting[0].task, Ok)])
    else if s.curr < s.max then Outcome(s.(curr := s.curr + 1), Some(Ok), [])
    else Outcome(s, Some(CntOut), [])
  }

  /** os_sem_release */
  function Release(s: State, who: Caller): Outcome {
    if who.inIsr then Outcome(s, Some(CntZero), []) else ReleaseFromIsr(s)
  }

  function WakeAll(ws: seq<Task>): seq<Wake> {
    if ws == [] then [] else [Wake(ws[0].task, ErrRemove)] + WakeAll(ws[1..])
  }

  /** os_sem_uninit */
  function Uninit(s: State): Outcome {
    Outcome(s.(waiting := []), Some(Ok), WakeAll(s.waiting))
  }

  function TimeOut(s: State, task: int): Outcome {
    if CanTimeOut(s.waiting, task) then
      Outcome(s.(waiting := RemoveTask(s.waiting, task)), None, [Wake(task, ErrTimeout)])
    else Outcome(s, None, [])
  }

  /** A waiting task inherits a priority. */
  function InheritPrio(s: State, task: int, prio: int): Outcome {
    Outcome(s.(waiting := Inherit(s.waiting, task, prio)), None, [])
  }

  // ---- Runs ----

  datatype Op =
    | OpTake(who: Caller)
    | OpTakeIsr
    | OpRelease(who: Caller)
    | OpReleaseIsr
    | OpTimeOut(task: int)
    | OpInherit(task: int, prio: int)
    | OpUninit

  function Step(s: State, op: Op): Outcome {
    match op
    case OpTake(who) => Take(s, who)
    case OpTakeIsr => TakeFromIsr(s)
    case OpRelease(who) => Release(s, who)
    case OpReleaseIsr => ReleaseFromIsr(s)
    case OpTimeOut(task) => TimeOut(s, task)
    case OpInherit(task, prio) => InheritPrio(s, task, prio)
    case OpUninit => Uninit(s)
  }

  /** The calls and woken callers that were told Ok, a hand-off counting as a release
      and a take. */
  datatype Ledger = Ledger(st: State, takes: nat, releases: nat)

  function OkWakes(ws: seq<Wake>): nat {
    if ws == [] then 0 else (if ws[0].err == Ok then 1 else 0) + OkWakes(ws[1..])
  }

  function Advance(l: Ledger, op: Op): Ledger {
    var o := Step(l.st, op);
    var ok := if o.ret == Some(Ok) then 1 else 0;
    Ledger(o.st,
           l.takes + OkWakes(o.wakes) + (if op.OpTake? || op.OpTakeIsr? then ok else 0),
           l.releases + (if op.OpRelease? || op.OpReleaseIsr? then ok else 0))
  }

  function Run(l: Ledger, ops: seq<Op>): Ledger
    decreases |ops|
  {
    if ops == [] then l else Run(Advance(l, ops[0]), ops[1..])
  }

  /** The count is within its maximum, and nobody waits while it is positive. */
  ghost predicate Sound(s: State) {
    s.curr <= s.max && (s.curr > 0 ==> s.waiting == [])
  }

  ghost predicate Balanced(l: Ledger, initial: int) {
    initial + l.releases - l.takes == l.st.curr
  }

  /** A created semaphore is sound exactly when it has a maximum or starts at zero
      (modulo the uint8_t it is stored in). */
  lemma InitSoundIff(init: nat, max: nat)
    requires Creatable(init, max)
    ensures Sound(Init(init, max)) <==> max > 0 || init % 0x100 == 0
    ensures max > 0 ==> Init(init, max).curr == if init > max then max else init
  {
  }

  /** The interrupt takes of a run that were told Ok. */
  function IsrTakes(l: Ledger, ops: seq<Op>): nat
    decreases |ops|
  {
    if ops == [] then 0
    else
      (if ops[0].OpTakeIsr? && Step(l.st, ops[0]).ret == Some(Ok) then 1 else 0)
      + IsrTakes(Advance(l, ops[0]), ops[1..])
  }

  /** Without a maximum only interrupt takes move the count, down to zero. */
  lemma {:induction false} DrainedByIsr(l: Ledger, ops: seq<Op>)
    requires l.st.max == 0
    ensures Run(l, ops).st.max == 0
    ensures Run(l, ops).st.curr == l.st.curr - IsrTakes(l, ops)
    decreases |ops|
  {
    if ops != [] {
      DrainedByIsr(Advance(l, ops[0]), ops[1..]);
    }
  }

  lemma {:induction false} NoOkWakes(ws: seq<Task>)
    ensures OkWakes(WakeAll(ws)) == 0
  {
    if ws != [] {
      NoOkWakes(ws[1..]);
    }
  }

  lemma StepSound(l: Ledger, op: Op, initial: int)
    requires Sound(l.st) && Balanced(l, initial)
    ensures Sound(Advance(l, op).st) && Balanced(Advance(l, op), initial)
    ensures Advance(l, op).st.max == l.st.max
  {
    match op
    case OpUninit =>
      NoOkWakes(l.st.waiting);
    case OpTimeOut(task) =>
      OneWake(Wake(task, ErrTimeout));
    case _ =>
      if l.st.waiting != [] {
        OneWake(Wake(l.st.waiting[0].task, Ok));
      }
  }

  lemma OneWake(k: Wake)
    ensures OkWakes([k]) == if k.err == Ok then 1 else 0
  {
    assert [k][1..] == [];
  }

  lemma {:induction false} RunSound(l: Ledger, ops: seq<Op>, initial: int)
    requires Sound(l.st) && Balanced(l, initial)
    ensures Sound(Run(l, ops).st) && Balanced(Run(l, ops), initial)
    ensures Run(l, ops).st.max == l.st.max
    decreases |ops|
  {
    if ops != [] {
      StepSound(l, ops[0], initial);
      RunSound(Advance(l, ops[0]), ops[1..], initial);
    }
  }

  /** Over every run the count stays within bounds, is positive only when nobody
      waits, and equals the initial count plus releases minus takes; so never more
      takes succeed than the initial count and the releases allow. */
  lemma SemConservation(init: nat, max: nat, ops: seq<Op>)
    requires Creatable(init, max) && (max > 0 || init % 0x100 == 0)
    ensures var s0 := Init(init, max);
            var l := Run(Ledger(s0, 0, 0), ops);
            && l.st.max == max && 0 <= l.st.curr <= max
            && (l.st.curr > 0 ==> l.st.waiting == [])
            && s0.curr + l.releases - l.takes == l.st.curr
            && l.takes <= s0.curr + l.releases
  {
    var s0 := Init(init, max);
    InitSoundIff(init, max);
    RunSound(Ledger(s0, 0, 0), ops, s0.curr);
  }

  /** A take by a task is refused with the parameter error exactly when there is no
      maximum and fewer interrupt takes than the initial count have succeeded. */
  lemma TakesRefusedIff(init: nat, max: nat, ops: seq<Op>, who: Caller)
    requires Creatable(init, max)
    ensures var l := Ledger(Init(init, max), 0, 0);
            Take(Run(l, ops).st, who).ret == Some(ErrParam) <==> max == 0 && IsrTakes(l, ops) < init % 0x100
  {
    if max == 0 {
      DrainedByIsr(Ledger(Init(init, 0), 0, 0), ops);
    } else {
      SemConservation(init, max, ops);
    }
  }

  lemma {:induction false} RunKeepsFalling(l: Ledger, ops: seq<Op>)
    requires FallingPrio(l.st.waiting)
    ensures FallingPrio(Run(l, ops).st.waiting)
    decreases |ops|
  {
    if ops != [] {
      match ops[0] {
        case OpTake(who) => InsertKeepsFalling(l.st.waiting, Waiter(who.task, who.prio, who.ms, ()));
        case OpTimeOut(task) => RemoveKeepsFalling(l.st.waiting, task);
        case OpInherit(task, prio) => InheritKeepsFalling(l.st.waiting, task, prio);
        case _ =>
      }
      RunKeepsFalling(Advance(l, ops[0]), ops[1..]);
    }
  }

  /** In every reachable state a release hands over to a waiter with the largest
      priority number, which is the most urgent one exactly when all waiters are
      equally urgent. */
  lemma ReleaseServesLargestNumber(init: nat, max: nat, ops: seq<Op>)
    requires Run(Ledger(Init(init, max), 0, 0), ops).st.waiting != []
    ensures var s := Run(Ledger(Init(init, max), 0, 0), ops).st;
            && ReleaseFromIsr(s).wakes == [Wake(s.waiting[0].task, Ok)]
            && (forall i :: 0 <= i < |s.waiting| ==> s.waiting[0].prio >= s.waiting[i].prio)
            && (HeadMostUrgent(s.waiting) <==> OnePrio(s.waiting))
  {
    var l := Ledger(Init(init, max), 0, 0);
    RunKeepsFalling(l, ops);
    HeadMostUrgentIff(Run(l, ops).st.waiting);
  }

  /** A task of number 1 blocks first, then one of number 5, to the scheduler the less
      urgent one. The release wakes the latter. */
  lemma ReleasePassesUrgentTask()
    ensures var calls := [OpTake(Caller(1, 1, 0, false)), OpTake(Caller(2, 5, 0, false))];
            var l := Run(Ledger(Init(0, 1), 0, 0), calls);
            Release(l.st, Caller(3, 0, 0, false)).wakes == [Wake(2, Ok)]
  {
    var a, b := OpTake(Caller(1, 1, 0, false)), OpTake(Caller(2, 5, 0, false));
    var l := Ledger(Init(0, 1), 0, 0);
    assert [a, b][1..] == [b] && [b][1..] == [];
    assert Run(l, [a, b]) == Run(Advance(l, a), [b]) == Run(Advance(Advance(l, a), b), []);
  }

  // ---- What the calls answer ----

  /** A release outside an interrupt is told Ok exactly when somebody waits or the count
      is below the maximum; from an interrupt only os_sem_release_from_isr works. */
  lemma ReleaseAnswers(s: State, who: Caller)
    ensures Release(s, who).ret == Some(Ok) <==> !who.inIsr && (s.waiting != [] || s.curr < s.max)
    ensures ReleaseFromIsr(s).ret == Some(Ok) <==> s.waiting != [] || s.curr < s.max
    ensures Release(s, who).ret != Some(Ok) ==> Release(s, who).st == s && Release(s, who).wakes == []
    ensures ReleaseFromIsr(s).ret != Some(Ok) ==> ReleaseFromIsr(s).st == s && ReleaseFromIsr(s).wakes == []
  {
  }

  /** With nobody waiting a release that is told Ok, from wherever, and a take undo each
      other. */
  lemma ReleaseTakeRoundTrip(s: State, who: Caller, other: Caller)
    requires s.waiting == [] && !who.inIsr
    ensures ReleaseFromIsr(s).ret == Some(Ok) ==>
              var t := Take(ReleaseFromIsr(s).st, who);
              t.ret == Some(Ok) && t.st == s && TakeFromIsr(ReleaseFromIsr(s).st) == t
    ensures Release(s, other).ret == Some(Ok) ==> Release(s, other) == ReleaseFromIsr(s)
    ensures Take(s, who).ret == Some(Ok) ==>
              ReleaseFromIsr(Take(s, who).st) == Outcome(s, Some(Ok), [])
  {
  }

  /** What a take of a count within bounds answers. A refused one changes nothing, a
      blocked one puts the caller on the list. */
  lemma TakeAnswers(s: State, who: Caller)
    requires s.curr <= s.max
    ensures var o := Take(s, who);
            && (o.ret == Some(ErrIsr) <==> who.inIsr)
            && (o.ret == Some(Ok) <==> !who.inIsr && s.curr > 0)
            && (o.ret == Some(CntZero) <==> !who.inIsr && s.curr == 0 && who.ms < 0)
            && (o.ret == None <==> !who.inIsr && s.curr == 0 && who.ms >= 0)
            && (o.ret == Some(Ok) || o.ret == None || o.st == s)
            && (o.ret == None ==>
                  multiset(o.st.waiting) == multiset(s.waiting) + multiset{Waiter(who.task, who.prio, who.ms, ())})
  {
    InsertTasks(s.waiting, Waiter(who.task, who.prio, who.ms, ()));
  }

  /** Over every run from a sound creation: a take is told Ok exactly when the balance of
      releases and takes leaves a count, and a release is refused exactly when it leaves
      the maximum and nobody waits. */
  lemma RunAnswers(init: nat, max: nat, ops: seq<Op>, who: Caller)
    requires Creatable(init, max) && (max > 0 || init % 0x100 == 0) && !who.inIsr
    ensures var s0 := Init(init, max);
            var l := Run(Ledger(s0, 0, 0), ops);
            var left := s0.curr + l.releases - l.takes;
            && (Take(l.st, who).ret == Some(Ok) <==> left > 0)
            && (TakeFromIsr(l.st).ret == Some(Ok) <==> left > 0)
            && (Release(l.st, who).ret == Some(CntOut) <==> left == max && l.st.waiting == [])
            && (ReleaseFromIsr(l.st).ret == Some(CntOut) <==> left == max && l.st.waiting == [])
  {
    SemConservation(init, max, ops);
    TakeAnswers(Run(Ledger(Init(init, max), 0, 0), ops).st, who);
  }

  // ---- Nobody is forgotten ----

  function WokenTasks(ks: seq<Wake>): multiset<int> {
    if ks == [] then multiset{} else multiset{ks[0].task} + WokenTasks(ks[1..])
  }

  /** What the tasks woken by a step are told. */
  function Cause(op: Op): Err {
    match op
    case OpTimeOut(_) => ErrTimeout
    case OpUninit => ErrRemove
    case _ => Ok
  }

  lemma {:induction false} RemovedAreWoken(ws: seq<Task>)
    ensures WokenTasks(WakeAll(ws)) == Tasks(ws)
    ensures forall k :: k in WakeAll(ws) ==> k.err == ErrRemove
  {
    if ws != [] {
      RemovedAreWoken(ws[1..]);
    }
  }

  /** Who waited before, or blocks now, still waits afterwards or is made ready, and is
      told why. */
  ghost predicate Accounted(s: State, o: Outcome, blocked: multiset<int>, cause: Err) {
    && Tasks(s.waiting) + blocked == Tasks(o.st.waiting) + WokenTasks(o.wakes)
    && forall k :: k in o.wakes ==> k.err == cause
  }

  lemma {:induction false} TakeAccounted(s: State, who: Caller)
    ensures var o := Take(s, who);
            Accounted(s, o, if o.ret == None then multiset{who.task} else multiset{}, Ok)
  {
    var o := Take(s, who);
    assert o.wakes == [] && WokenTasks(o.wakes) == multiset{};
    if o.ret == None {
      InsertTasks(s.waiting, Waiter(who.task, who.prio, who.ms, ()));
    } else {
      assert o.st.waiting == s.waiting;
    }
  }

  lemma {:induction false} ReleaseAccounted(s: State)
    ensures Accounted(s, ReleaseFromIsr(s), multiset{}, Ok)
  {
    if s.waiting != [] {
      OneWoken(Wake(s.waiting[0].task, Ok));
    }
  }

  lemma {:induction false} TimeOutAccounted(s: State, task: int)
    ensures Accounted(s, TimeOut(s, task), multiset{}, ErrTimeout)
  {
    if CanTimeOut(s.waiting, task) {
      TimeOutTasks(s.waiting, task);
      OneWoken(Wake(task, ErrTimeout));
    }
  }

  /** No step forgets a waiting task. */
  lemma {:induction false} WaitersBalance(s: State, op: Op)
    ensures var o := Step(s, op);
            Accounted(s, o, if op.OpTake? && o.ret == None then multiset{op.who.task} else multiset{}, Cause(op))
  {
    match op
    case OpTake(who) => TakeAccounted(s, who);
    case OpTakeIsr =>
    case OpRelease(who) => ReleaseAccounted(s);
    case OpReleaseIsr => ReleaseAccounted(s);
    case OpTimeOut(task) => TimeOutAccounted(s, task);
    case OpInherit(task, prio) => InheritTasks(s.waiting, task, prio);
    case OpUninit => RemovedAreWoken(s.waiting);
  }

  lemma {:induction false} OneWoken(k: Wake)
    ensures WokenTasks([k]) == multiset{k.task}
  {
    assert [k][1..] == [];
  }

  /** A time-out wakes exactly a task that waits with a positive delay. */
  lemma TimesOutIff(s: State, task: int)
    ensures TimeOut(s, task).wakes == [Wake(task, ErrTimeout)] <==>
            exists i :: 0 <= i < |s.waiting| && s.waiting[i].task == task && s.waiting[i].ms > 0
    ensures TimeOut(s, task).wakes == [] ==> TimeOut(s, task).st == s
  {
  }
}
