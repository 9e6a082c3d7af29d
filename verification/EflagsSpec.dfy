/** The event flags of rtos/os_eflags.c: what a wait and a set mean, independent of the
    rotating wait-list loop, and what holds over every run. */
module EflagsSpec {
  import opened OsList
  import opened OsEvent

  // The option bits of rtos/os_eflags.h. OS_EFLAGS_CLEAR is a part of the state: the
  // header gives it no bit of its own, which decides what CLEAR does.
  const SET: bv32 := 0x1
  const ALL: bv32 := 0x2
  const EXIT_CLEAR: bv32 := 0x80

  /** os_eflags_wait_t of a blocked task. */
  datatype Wait = Wait(ty: bv32, mask: bv32)

  type Task = Waiter<Wait>

  datatype Err = Ok | ErrTimeout | ErrRemove

  /** A task made ready, with its event_info.err and its result. */
  datatype Wake = Wake(task: int, err: Err, result: bv32)

  datatype Ret = Flags(value: bv32) | ErrParam | Blocked

  /** `clear` is the value of OS_EFLAGS_CLEAR. */
  datatype State = State(clear: bv32, flags: bv32, waiting: seq<Task>)

  datatype Outcome = Outcome(st: State, ret: Ret, wakes: seq<Wake>)

  predicate Has(ty: bv32, bit: bv32) {
    ty & bit != 0
  }

  /** The bits with which `flags` satisfy a wait, none when they do not. */
  function Check(clear: bv32, ty: bv32, mask: bv32, flags: bv32): Option<bv32> {
    if Has(ty, SET) then
      var bits := flags & mask;
      if (Has(ty, ALL) && bits == mask) || (!Has(ty, ALL) && bits != 0) then Some(bits) else None
    else if Has(ty, clear) then
      var bits := !(flags & mask);
      if (Has(ty, ALL) && mask == bits) || (!Has(ty, ALL) && bits != 0) then Some(bits) else None
    else None
  }

  /** The flags after a wait satisfied with `bits`. */
  function OnExit(ty: bv32, bits: bv32, flags: bv32): bv32 {
    if !Has(ty, EXIT_CLEAR) then flags
    else if Has(ty, SET) then flags & !bits
    else flags | bits
  }

  /** os_eflags_wait_bits */
  function WaitBits(s: State, task: int, prio: int, ms: int, ty: bv32, mask: bv32): Outcome {
    if mask == 0 then Outcome(s, ErrParam, [])
    else
      match Check(s.clear, ty, mask, s.flags)
      case Some(bits) => Outcome(s.(flags := OnExit(ty, bits, s.flags)), Flags(bits), [])
      case None => Outcome(s.(waiting := InsertTask(s.waiting, Waiter(task, prio, ms, Wait(ty, mask)))), Blocked, [])
  }

  function Test(clear: bv32, w: Task, flags: bv32): Option<bv32> {
    Check(clear, w.reason.ty, w.reason.mask, flags)
  }

  /** The wait test against one snapshot, for every task. */
  function Tester(clear: bv32, snap: bv32): Task -> Option<bv32> {
    (w: Task) => Test(clear, w, snap)
  }

  /** The tasks whose wait `t` does not satisfy, in their order. */
  function Unsatisfied(ws: seq<Task>, t: Task -> Option<bv32>): seq<Task> {
    if ws == [] then []
    else if t(ws[0]).None? then [ws[0]] + Unsatisfied(ws[1..], t)
    else Unsatisfied(ws[1..], t)
  }

  /** What one task adds to the woken ones: itself with its own bits of the snapshot. */
  function WakeOf(w: Task, r: Option<bv32>): seq<Wake> {
    match r
    case None => []
    case Some(bits) => [Wake(w.task, Ok, bits)]
  }

  /** The others, woken in their order. */
  function Woken(ws: seq<Task>, t: Task -> Option<bv32>): seq<Wake> {
    if ws == [] then [] else WakeOf(ws[0], t(ws[0])) + Woken(ws[1..], t)
  }

  /** The bits a woken task that clears on exit takes off the flags. */
  function ExitOf(w: Task, r: Option<bv32>): bv32 {
    match r
    case None => 0
    case Some(bits) => if Has(w.reason.ty, EXIT_CLEAR) then bits else 0
  }

  function ExitBits(ws: seq<Task>, t: Task -> Option<bv32>): bv32 {
    if ws == [] then 0 else ExitOf(ws[0], t(ws[0])) | ExitBits(ws[1..], t)
  }

  /** temp_flags after task `w` has been examined with outcome `r`. */
  function Next(w: Task, r: Option<bv32>, temp: bv32): bv32 {
    match r
    case None => temp
    case Some(bits) => OnExit(w.reason.ty, bits, temp)
  }

  /** temp_flags after the tasks `ws` have been examined in turn. */
  function Residue(ws: seq<Task>, t: Task -> Option<bv32>, temp: bv32): bv32 {
    if ws == [] then temp else Residue(ws[1..], t, Next(ws[0], t(ws[0]), temp))
  }

  function Snapshot(clear: bv32, flags: bv32, ty: bv32, mask: bv32): bv32 {
    if Has(ty, SET) then flags | mask
    else if Has(ty, clear) then flags & !mask
    else flags
  }

  /** os_eflags_set_bits: the snapshot decides who wakes; the exits change the flags
      afterwards. */
  function SetBits(s: State, ty: bv32, mask: bv32): Outcome {
    if mask == 0 then Outcome(s, ErrParam, [])
    else
      var snap := Snapshot(s.clear, s.flags, ty, mask);
      var t := Tester(s.clear, snap);
      Outcome(State(s.clear, Residue(s.waiting, t, snap), Unsatisfied(s.waiting, t)), Flags(0), Woken(s.waiting, t))
  }

  /** A tick times a waiting task out. */
  function TimeOut(s: State, task: int): Outcome {
    if CanTimeOut(s.waiting, task) then
      Outcome(s.(waiting := RemoveTask(s.waiting, task)), Flags(0), [Wake(task, ErrTimeout, 0)])
    else Outcome(s, Flags(0), [])
  }

  /** A waiting task inherits a priority. */
  function InheritPrio(s: State, task: int, prio: int): Outcome {
    Outcome(s.(waiting := Inherit(s.waiting, task, prio)), Flags(0), [])
  }

  function WakeAll(ws: seq<Task>): seq<Wake> {
    if ws == [] then [] else [Wake(ws[0].task, ErrRemove, 0)] + WakeAll(ws[1..])
  }

  /** os_eflags_uninit */
  function Uninit(s: State): Outcome {
    Outcome(s.(waiting := []), Flags(0), WakeAll(s.waiting))
  }

  // ---- Bits ----

  /** The condition of a SET wait, in the words of the documentation: all, or any, of
      the bits of the mask are set. */
  predicate Satisfied(ty: bv32, mask: bv32, flags: bv32) {
    && Has(ty, SET)
    && if Has(ty, ALL) then mask & !flags == 0 else mask & flags != 0
  }

  /** A type for which the CLEAR branch is not taken. */
  predicate Plain(clear: bv32, ty: bv32) {
    Has(ty, SET) || !Has(ty, clear)
  }

  ghost predicate AllPlain(s: State) {
    forall i :: 0 <= i < |s.waiting| ==> Plain(s.clear, s.waiting[i].reason.ty)
  }

  /** Every type is plain when OS_EFLAGS_CLEAR has no bit, as the header has it. */
  lemma NoClearBitIsPlain(ty: bv32)
    ensures !Has(ty, 0) && Plain(0, ty)
  {
  }

  /** Of the plain waits only SET waits are ever satisfied, exactly when their condition
      holds. */
  lemma OnlySetIsSatisfied(clear: bv32, ty: bv32, mask: bv32, flags: bv32)
    requires Plain(clear, ty)
    ensures Check(clear, ty, mask, flags).Some?
            ==> Has(ty, SET) && Check(clear, ty, mask, flags).value == flags & mask
    ensures Check(clear, ty, mask, flags).Some? <==> Satisfied(ty, mask, flags)
  {
    MaskMeans(mask, flags);
  }

  lemma MaskMeans(mask: bv32, flags: bv32)
    ensures flags & mask == mask <==> mask & !flags == 0
    ensures flags & mask == mask & flags
  {
    if flags & mask == mask {
      MaskInside(mask, flags);
    }
    if mask & !flags == 0 {
      InsideMask(mask, flags);
    }
    AndCommutes(flags, mask);
  }

  lemma MaskInside(mask: bv32, flags: bv32)
    requires flags & mask == mask
    ensures mask & !flags == 0
  {
  }

  lemma InsideMask(mask: bv32, flags: bv32)
    requires mask & !flags == 0
    ensures flags & mask == mask
  {
  }

  lemma AndCommutes(a: bv32, b: bv32)
    ensures a & b == b & a
  {
  }

  /** `a` has no bit outside `m`. */
  predicate Within(a: bv32, m: bv32) {
    a & !m == 0
  }

  lemma FewerAll(mask: bv32, flags: bv32, fewer: bv32)
    requires Within(fewer, flags) && mask & !fewer == 0
    ensures mask & !flags == 0
  {
  }

  lemma FewerAny(mask: bv32, flags: bv32, fewer: bv32)
    requires Within(fewer, flags) && mask & flags == 0
    ensures mask & fewer == 0
  {
  }

  lemma SatisfiedAntitone(ty: bv32, mask: bv32, flags: bv32, fewer: bv32)
    requires Within(fewer, flags) && Satisfied(ty, mask, fewer)
    ensures Satisfied(ty, mask, flags)
  {
    if Has(ty, ALL) {
      FewerAll(mask, flags, fewer);
    } else if mask & flags == 0 {
      FewerAny(mask, flags, fewer);
    }
  }

  /** Clearing flags satisfies nobody. */
  lemma CheckAntitone(clear: bv32, ty: bv32, mask: bv32, flags: bv32, fewer: bv32)
    requires Plain(clear, ty)
    requires Within(fewer, flags) && Check(clear, ty, mask, flags).None?
    ensures Check(clear, ty, mask, fewer).None?
  {
    OnlySetIsSatisfied(clear, ty, mask, flags);
    OnlySetIsSatisfied(clear, ty, mask, fewer);
    if Satisfied(ty, mask, fewer) {
      SatisfiedAntitone(ty, mask, flags, fewer);
    }
  }

  lemma NextIsMask(w: Task, r: Option<bv32>, temp: bv32)
    requires r.Some? ==> Has(w.reason.ty, SET)
    ensures Next(w, r, temp) == temp & !ExitOf(w, r)
  {
    match r
    case None => MaskZero(temp, ExitOf(w, None));
    case Some(bits) => WokenMask(w, bits, temp);
  }

  lemma WokenMask(w: Task, bits: bv32, temp: bv32)
    requires Has(w.reason.ty, SET)
    ensures Next(w, Some(bits), temp) == temp & !ExitOf(w, Some(bits))
  {
    if Has(w.reason.ty, EXIT_CLEAR) {
      ClearsOnExit(w.reason.ty, bits, temp);
    } else {
      MaskZero(temp, ExitOf(w, Some(bits)));
    }
  }

  lemma ClearsOnExit(ty: bv32, bits: bv32, temp: bv32)
    requires Has(ty, SET) && Has(ty, EXIT_CLEAR)
    ensures OnExit(ty, bits, temp) == temp & !bits
  {
  }

  lemma MaskZero(temp: bv32, e: bv32)
    requires e == 0
    ensures temp & !e == temp
  {
  }

  lemma MaskTwice(temp: bv32, a: bv32, b: bv32)
    ensures (temp & !a) & !b == temp & !(a | b)
  {
  }

  /** What SET waiters examined in turn leave of the flags is the flags without the
      union of the exit bits. */
  lemma {:induction false} ResidueIsMask(ws: seq<Task>, t: Task -> Option<bv32>, temp: bv32)
    requires forall i :: 0 <= i < |ws| && t(ws[i]).Some? ==> Has(ws[i].reason.ty, SET)
    ensures Residue(ws, t, temp) == temp & !ExitBits(ws, t)
  {
    if ws == [] {
      MaskZero(temp, ExitBits(ws, t));
    } else {
      var w := ws[0];
      ResidueIsMask(ws[1..], t, Next(w, t(w), temp));
      NextIsMask(w, t(w), temp);
      MaskTwice(temp, ExitOf(w, t(w)), ExitBits(ws[1..], t));
    }
  }

  /** `t` is satisfied with SET waits only, as far as plain types go. */
  ghost predicate SetOnly(clear: bv32, t: Task -> Option<bv32>) {
    forall w: Task :: Plain(clear, w.reason.ty) && t(w).Some? ==> Has(w.reason.ty, SET)
  }

  lemma TesterSetOnly(clear: bv32, snap: bv32)
    ensures SetOnly(clear, Tester(clear, snap))
  {
    forall w: Task | Plain(clear, w.reason.ty) && Tester(clear, snap)(w).Some?
      ensures Has(w.reason.ty, SET)
    {
      OnlySetIsSatisfied(clear, w.reason.ty, w.reason.mask, snap);
    }
  }

  /** `flags` is `snap` without the bits of `exit`. */
  predicate Leaves(flags: bv32, snap: bv32, exit: bv32) {
    flags == snap & !exit
  }

  lemma PlainResidue(s: State, t: Task -> Option<bv32>, snap: bv32)
    requires AllPlain(s) && SetOnly(s.clear, t)
    ensures Leaves(Residue(s.waiting, t, snap), snap, ExitBits(s.waiting, t))
  {
    ResidueIsMask(s.waiting, t, snap);
  }

  /** The flags a set leaves: the updated ones without the bits of the woken waiters
      that clear on exit. */
  lemma SetBitsLeaves(s: State, ty: bv32, mask: bv32)
    requires AllPlain(s) && mask != 0
    ensures var snap := Snapshot(s.clear, s.flags, ty, mask);
            Leaves(SetBits(s, ty, mask).st.flags, snap, ExitBits(s.waiting, Tester(s.clear, snap)))
  {
    var snap := Snapshot(s.clear, s.flags, ty, mask);
    TesterSetOnly(s.clear, snap);
    PlainResidue(s, Tester(s.clear, snap), snap);
  }

  // ---- No lost wakeup ----

  /** No task waits for a condition that holds. */
  ghost predicate Quiet(s: State) {
    forall i :: 0 <= i < |s.waiting| ==> Test(s.clear, s.waiting[i], s.flags).None?
  }

  lemma {:induction false} UnsatisfiedMember(ws: seq<Task>, t: Task -> Option<bv32>, w: Task)
    ensures w in Unsatisfied(ws, t) <==> w in ws && t(w).None?
  {
    if ws != [] {
      assert ws == [ws[0]] + ws[1..];
      UnsatisfiedMember(ws[1..], t, w);
    }
  }

  lemma LeavesWithin(flags: bv32, snap: bv32, exit: bv32)
    requires Leaves(flags, snap, exit)
    ensures Within(flags, snap)
  {
  }

  lemma ExitWithin(ty: bv32, bits: bv32, flags: bv32)
    requires Has(ty, SET)
    ensures Within(OnExit(ty, bits, flags), flags)
  {
    if Has(ty, EXIT_CLEAR) {
      ClearsOnExit(ty, bits, flags);
      LeavesWithin(OnExit(ty, bits, flags), flags, bits);
    } else {
      MaskZero(flags, 0);
      LeavesWithin(flags, flags, 0);
    }
  }

  /** The waiters of `ws` were not satisfied by `snap`, nor are they by fewer flags. */
  lemma QuietBelow(clear: bv32, ws: seq<Task>, snap: bv32, flags: bv32)
    requires AllPlain(State(clear, snap, ws)) && Within(flags, snap)
    requires Quiet(State(clear, snap, ws))
    ensures Quiet(State(clear, flags, ws))
  {
    forall i | 0 <= i < |ws|
      ensures Test(clear, ws[i], flags).None?
    {
      assert Test(clear, ws[i], snap).None?;
      CheckAntitone(clear, ws[i].reason.ty, ws[i].reason.mask, snap, flags);
    }
  }

  lemma QuietUnsatisfied(s: State, snap: bv32)
    requires AllPlain(s)
    ensures var r := State(s.clear, snap, Unsatisfied(s.waiting, Tester(s.clear, snap)));
            AllPlain(r) && Quiet(r)
  {
    var t := Tester(s.clear, snap);
    var ws := Unsatisfied(s.waiting, t);
    forall i | 0 <= i < |ws|
      ensures ws[i] in s.waiting && t(ws[i]).None?
    {
      UnsatisfiedMember(s.waiting, t, ws[i]);
    }
  }

  lemma QuietAfterSet(s: State, ty: bv32, mask: bv32)
    requires AllPlain(s) && mask != 0
    ensures AllPlain(SetBits(s, ty, mask).st) && Quiet(SetBits(s, ty, mask).st)
  {
    var snap := Snapshot(s.clear, s.flags, ty, mask);
    var st := SetBits(s, ty, mask).st;
    SetBitsLeaves(s, ty, mask);
    LeavesWithin(st.flags, snap, ExitBits(s.waiting, Tester(s.clear, snap)));
    QuietUnsatisfied(s, snap);
    QuietBelow(s.clear, st.waiting, snap, st.flags);
  }

  lemma QuietInsert(s: State, w: Task)
    requires AllPlain(s) && Quiet(s) && Plain(s.clear, w.reason.ty) && Test(s.clear, w, s.flags).None?
    ensures var r := s.(waiting := InsertTask(s.waiting, w));
            AllPlain(r) && Quiet(r)
  {
    var ws := InsertTask(s.waiting, w);
    forall i | 0 <= i < |ws|
      ensures ws[i] in s.waiting || ws[i] == w
    {
      InsertMember(s.waiting, w, ws[i]);
    }
  }

  lemma QuietAfterWait(s: State, task: int, prio: int, ms: int, ty: bv32, mask: bv32)
    requires AllPlain(s) && Quiet(s) && Plain(s.clear, ty)
    ensures AllPlain(WaitBits(s, task, prio, ms, ty, mask).st) && Quiet(WaitBits(s, task, prio, ms, ty, mask).st)
  {
    if mask != 0 {
      match Check(s.clear, ty, mask, s.flags)
      case Some(bits) =>
        OnlySetIsSatisfied(s.clear, ty, mask, s.flags);
        ExitWithin(ty, bits, s.flags);
        QuietBelow(s.clear, s.waiting, s.flags, OnExit(ty, bits, s.flags));
      case None =>
        QuietInsert(s, Waiter(task, prio, ms, Wait(ty, mask)));
    }
  }

  lemma QuietAfterInherit(s: State, task: int, prio: int)
    requires AllPlain(s) && Quiet(s)
    ensures AllPlain(InheritPrio(s, task, prio).st) && Quiet(InheritPrio(s, task, prio).st)
  {
    var ws := Inherit(s.waiting, task, prio);
    forall i | 0 <= i < |ws|
      ensures Plain(s.clear, ws[i].reason.ty) && Test(s.clear, ws[i], s.flags).None?
    {
      InheritWaitsFor(s.waiting, task, prio, ws[i]);
      var x :| x in s.waiting && x.task == ws[i].task && x.reason == ws[i].reason;
    }
  }

  // ---- Runs ----

  datatype Op =
    | OpWait(task: int, prio: int, ms: int, ty: bv32, mask: bv32)
    | OpSet(ty: bv32, mask: bv32)
    | OpTimeOut(task: int)
    | OpInherit(task: int, prio: int)
    | OpUninit

  function Step(s: State, op: Op): Outcome {
    match op
    case OpWait(task, prio, ms, ty, mask) => WaitBits(s, task, prio, ms, ty, mask)
    case OpSet(ty, mask) => SetBits(s, ty, mask)
    case OpTimeOut(task) => TimeOut(s, task)
    case OpInherit(task, prio) => InheritPrio(s, task, prio)
    case OpUninit => Uninit(s)
  }

  function Run(s: State, ops: seq<Op>): State
    decreases |ops|
  {
    if ops == [] then s else Run(Step(s, ops[0]).st, ops[1..])
  }

  /** Whoever waits, waits with a plain type. */
  predicate PlainOp(clear: bv32, op: Op) {
    op.OpWait? ==> Plain(clear, op.ty)
  }

  lemma StepQuiet(s: State, op: Op)
    requires AllPlain(s) && Quiet(s) && PlainOp(s.clear, op)
    ensures AllPlain(Step(s, op).st) && Quiet(Step(s, op).st) && Step(s, op).st.clear == s.clear
  {
    match op
    case OpWait(task, prio, ms, ty, mask) => QuietAfterWait(s, task, prio, ms, ty, mask);
    case OpSet(ty, mask) =>
      if mask != 0 {
        QuietAfterSet(s, ty, mask);
      }
    case OpTimeOut(task) =>
      var ws := Step(s, op).st.waiting;
      forall i | 0 <= i < |ws|
        ensures Plain(s.clear, ws[i].reason.ty) && Test(s.clear, ws[i], s.flags).None?
      {
        assert ws[i] in s.waiting;
      }
    case OpInherit(task, prio) =>
      QuietAfterInherit(s, task, prio);
    case OpUninit =>
  }

  /** No lost wakeup: in no reachable state does a task wait for a condition that holds. */
  lemma {:induction false} NoLostWakeup(s: State, ops: seq<Op>)
    requires AllPlain(s) && Quiet(s)
    requires forall i :: 0 <= i < |ops| ==> PlainOp(s.clear, ops[i])
    ensures Quiet(Run(s, ops))
    decreases |ops|
  {
    if ops != [] {
      StepQuiet(s, ops[0]);
      NoLostWakeup(Step(s, ops[0]).st, ops[1..]);
    }
  }

  lemma {:induction false} UnsatisfiedKeepsFalling(ws: seq<Task>, t: Task -> Option<bv32>)
    requires FallingPrio(ws)
    ensures FallingPrio(Unsatisfied(ws, t))
  {
    if ws != [] {
      var r := Unsatisfied(ws[1..], t);
      UnsatisfiedKeepsFalling(ws[1..], t);
      forall j | 0 <= j < |r|
        ensures ws[0].prio >= r[j].prio
      {
        UnsatisfiedMember(ws[1..], t, r[j]);
      }
    }
  }

  /** Over every run, rotations included, the priority numbers fall along the list. */
  lemma {:induction false} RunKeepsFalling(s: State, ops: seq<Op>)
    requires FallingPrio(s.waiting)
    ensures FallingPrio(Run(s, ops).waiting)
    decreases |ops|
  {
    if ops != [] {
      match ops[0] {
        case OpWait(task, prio, ms, ty, mask) =>
          InsertKeepsFalling(s.waiting, Waiter(task, prio, ms, Wait(ty, mask)));
        case OpSet(ty, mask) =>
          UnsatisfiedKeepsFalling(s.waiting, Tester(s.clear, Snapshot(s.clear, s.flags, ty, mask)));
        case OpTimeOut(task) =>
          RemoveKeepsFalling(s.waiting, task);
        case OpInherit(task, prio) =>
          InheritKeepsFalling(s.waiting, task, prio);
        case OpUninit =>
      }
      RunKeepsFalling(Step(s, ops[0]).st, ops[1..]);
    }
  }

  // ---- The order of the wait list does not matter ----

  lemma {:induction false} SplitExitBits(ws: seq<Task>, w: Task, r: seq<Task>, t: Task -> Option<bv32>)
    ensures ExitBits(ws + ([w] + r), t) == ExitOf(w, t(w)) | ExitBits(ws + r, t)
  {
    var all := ws + ([w] + r);
    if ws == [] {
      assert all[1..] == r && ws + r == r;
    } else {
      assert all[1..] == ws[1..] + ([w] + r) && (ws + r)[1..] == ws[1..] + r;
      SplitExitBits(ws[1..], w, r, t);
      OrSwap(ExitOf(ws[0], t(ws[0])), ExitOf(w, t(w)), ExitBits(ws[1..] + r, t));
    }
  }

  lemma OrSwap(a: bv32, b: bv32, c: bv32)
    ensures a | (b | c) == b | (a | c)
  {
  }

  lemma {:induction false} SplitWoken(ws: seq<Task>, w: Task, r: seq<Task>, t: Task -> Option<bv32>)
    ensures multiset(Woken(ws + ([w] + r), t)) == multiset(WakeOf(w, t(w))) + multiset(Woken(ws + r, t))
  {
    var all := ws + ([w] + r);
    if ws == [] {
      assert all[1..] == r && ws + r == r;
    } else {
      assert all[1..] == ws[1..] + ([w] + r) && (ws + r)[1..] == ws[1..] + r;
      SplitWoken(ws[1..], w, r, t);
    }
  }

  /** Whatever order the tasks wait in, the same flags remain and the same tasks are
      woken with the same results. */
  lemma {:induction false} OrderIrrelevant(ws: seq<Task>, ws': seq<Task>, t: Task -> Option<bv32>)
    requires multiset(ws) == multiset(ws')
    ensures ExitBits(ws, t) == ExitBits(ws', t)
    ensures multiset(Woken(ws, t)) == multiset(Woken(ws', t))
    decreases |ws|
  {
    if ws == [] {
      assert |multiset(ws')| == 0;
      assert ws' == [];
    } else {
      var w, r := ws[0], ws[1..];
      var l, z := PickOut(ws, ws');
      OrderIrrelevant(r, l + z, t);
      SplitExitBits(l, w, z, t);
      SplitWoken(l, w, z, t);
    }
  }

  /** The first task of `ws` somewhere in a list with the same members. */
  lemma PickOut(ws: seq<Task>, ws': seq<Task>) returns (l: seq<Task>, t: seq<Task>)
    requires ws != [] && multiset(ws) == multiset(ws')
    ensures ws' == l + ([ws[0]] + t) && multiset(ws[1..]) == multiset(l + t)
  {
    var w, r := ws[0], ws[1..];
    assert ws == [w] + r;
    assert w in multiset(ws');
    var i :| 0 <= i < |ws'| && ws'[i] == w;
    l, t := ws'[..i], ws'[i + 1..];
    assert ws' == l + ([w] + t);
    assert multiset(ws') == multiset([w]) + (multiset(l) + multiset(t));
    assert multiset(ws) == multiset([w]) + multiset(r);
    Cancel(multiset([w]), multiset(r), multiset(l) + multiset(t));
  }

  lemma Cancel<T>(a: multiset<T>, b: multiset<T>, c: multiset<T>)
    requires a + b == a + c
    ensures b == c
  {
    assert b == (a + b) - a;
    assert c == (a + c) - a;
  }

  lemma {:induction false} UnsatisfiedParts(a: seq<Task>, b: seq<Task>, t: Task -> Option<bv32>)
    ensures Unsatisfied(a + b, t) == Unsatisfied(a, t) + Unsatisfied(b, t)
  {
    if a == [] {
      assert a + b == b;
    } else {
      assert (a + b)[1..] == a[1..] + b;
      UnsatisfiedParts(a[1..], b, t);
    }
  }

  lemma {:induction false} WokenParts(a: seq<Task>, b: seq<Task>, t: Task -> Option<bv32>)
    ensures Woken(a + b, t) == Woken(a, t) + Woken(b, t)
  {
    if a == [] {
      assert a + b == b;
    } else {
      assert (a + b)[1..] == a[1..] + b;
      WokenParts(a[1..], b, t);
    }
  }

  /** Those who stay keep their order, and those who are woken are woken in theirs: what
      becomes of a part of the list does not depend on the rest. */
  lemma {:induction false} OrderKept(a: seq<Task>, b: seq<Task>, t: Task -> Option<bv32>)
    ensures Unsatisfied(a + b, t) == Unsatisfied(a, t) + Unsatisfied(b, t)
    ensures Woken(a + b, t) == Woken(a, t) + Woken(b, t)
  {
    UnsatisfiedParts(a, b, t);
    WokenParts(a, b, t);
  }

  lemma SetBitsOrderIrrelevant(s: State, ws: seq<Task>, ty: bv32, mask: bv32)
    requires AllPlain(s) && multiset(ws) == multiset(s.waiting)
    ensures var o, o' := SetBits(s, ty, mask), SetBits(s.(waiting := ws), ty, mask);
            o.st.flags == o'.st.flags && multiset(o.wakes) == multiset(o'.wakes)
  {
    if mask != 0 {
      var s' := s.(waiting := ws);
      forall i | 0 <= i < |ws|
        ensures Plain(s.clear, ws[i].reason.ty)
      {
        assert ws[i] in multiset(s.waiting);
      }
      SetBitsLeaves(s, ty, mask);
      SetBitsLeaves(s', ty, mask);
      OrderIrrelevant(s.waiting, ws, Tester(s.clear, Snapshot(s.clear, s.flags, ty, mask)));
    }
  }

  // ---- Who wakes, with what, and what is cleared ----

  predicate Holds(w: Task, flags: bv32) {
    Satisfied(w.reason.ty, w.reason.mask, flags)
  }

  /** The test of the code is the condition, with the matching bits. */
  lemma TestMeans(clear: bv32, w: Task, flags: bv32)
    requires Plain(clear, w.reason.ty)
    ensures Test(clear, w, flags).Some? <==> Holds(w, flags)
    ensures Test(clear, w, flags).Some? ==> Test(clear, w, flags).value == flags & w.reason.mask
  {
    OnlySetIsSatisfied(clear, w.reason.ty, w.reason.mask, flags);
  }

  lemma {:induction false} WokenFrom(ws: seq<Task>, t: Task -> Option<bv32>, k: Wake) returns (i: nat)
    requires k in Woken(ws, t)
    ensures i < |ws| && t(ws[i]).Some? && k == Wake(ws[i].task, Ok, t(ws[i]).value)
  {
    if k in WakeOf(ws[0], t(ws[0])) {
      i := 0;
    } else {
      var i' := WokenFrom(ws[1..], t, k);
      i := i' + 1;
    }
  }

  lemma {:induction false} WokenHas(ws: seq<Task>, t: Task -> Option<bv32>, i: nat)
    requires i < |ws| && t(ws[i]).Some?
    ensures Wake(ws[i].task, Ok, t(ws[i]).value) in Woken(ws, t)
  {
    if i > 0 {
      WokenHas(ws[1..], t, i - 1);
    }
  }

  /** Whoever set_bits wakes had a condition that holds on the updated flags, and gets
      its mask applied to them. */
  lemma WokenHadCause(s: State, ty: bv32, mask: bv32, k: Wake) returns (i: nat)
    requires AllPlain(s) && k in SetBits(s, ty, mask).wakes
    ensures var snap := Snapshot(s.clear, s.flags, ty, mask);
            i < |s.waiting| && Holds(s.waiting[i], snap)
            && k == Wake(s.waiting[i].task, Ok, snap & s.waiting[i].reason.mask)
  {
    var snap := Snapshot(s.clear, s.flags, ty, mask);
    i := WokenFrom(s.waiting, Tester(s.clear, snap), k);
    TestMeans(s.clear, s.waiting[i], snap);
  }

  /** And everybody whose condition holds on the updated flags is woken. */
  lemma SatisfiedAreWoken(s: State, ty: bv32, mask: bv32, i: nat)
    requires mask != 0 && i < |s.waiting| && Holds(s.waiting[i], Snapshot(s.clear, s.flags, ty, mask))
    ensures var snap := Snapshot(s.clear, s.flags, ty, mask);
            Wake(s.waiting[i].task, Ok, snap & s.waiting[i].reason.mask) in SetBits(s, ty, mask).wakes
    ensures s.waiting[i] !in SetBits(s, ty, mask).st.waiting
  {
    var snap := Snapshot(s.clear, s.flags, ty, mask);
    var t := Tester(s.clear, snap);
    TestMeans(s.clear, s.waiting[i], snap);
    WokenHas(s.waiting, t, i);
    UnsatisfiedMember(s.waiting, t, s.waiting[i]);
  }

  lemma OrCovers(a: bv32, b: bv32, c: bv32)
    ensures Within(a, a | b)
    ensures Within(c, b) ==> Within(c, a | b)
  {
  }

  lemma OrWithin(a: bv32, b: bv32, m: bv32)
    requires Within(a, m) && Within(b, m)
    ensures Within(a | b, m)
  {
  }

  lemma ZeroWithin(z: bv32, m: bv32)
    requires z == 0
    ensures Within(z, m)
  {
  }

  /** Each woken task that clears on exit takes off all the bits that woke it ... */
  lemma {:induction false} ExitBitsHave(ws: seq<Task>, t: Task -> Option<bv32>, i: nat)
    requires i < |ws|
    ensures Within(ExitOf(ws[i], t(ws[i])), ExitBits(ws, t))
  {
    OrCovers(ExitOf(ws[0], t(ws[0])), ExitBits(ws[1..], t), ExitOf(ws[i], t(ws[i])));
    if i > 0 {
      ExitBitsHave(ws[1..], t, i - 1);
    }
  }

  /** ... and nothing else is taken off. */
  lemma {:induction false} ExitBitsLeast(ws: seq<Task>, t: Task -> Option<bv32>, m: bv32)
    requires forall w :: w in ws ==> Within(ExitOf(w, t(w)), m)
    ensures Within(ExitBits(ws, t), m)
  {
    if ws == [] {
      ZeroWithin(ExitBits(ws, t), m);
    } else {
      ExitBitsLeast(ws[1..], t, m);
      OrWithin(ExitOf(ws[0], t(ws[0])), ExitBits(ws[1..], t), m);
    }
  }

  // ---- What CLEAR does ----

  lemma {:induction false} QuietList(ws: seq<Task>, t: Task -> Option<bv32>, temp: bv32)
    requires forall i :: 0 <= i < |ws| ==> t(ws[i]).None?
    ensures Unsatisfied(ws, t) == ws && Woken(ws, t) == [] && Residue(ws, t, temp) == temp
  {
    if ws != [] {
      QuietList(ws[1..], t, temp);
      assert ws == [ws[0]] + ws[1..];
    }
  }

  /** A set_bits call with neither the SET nor the CLEAR bit changes nothing and wakes
      nobody; without a CLEAR bit, that is every call without SET. */
  lemma IdleRequestDoesNothing(s: State, ty: bv32, mask: bv32)
    requires Quiet(s) && !Has(ty, SET) && !Has(ty, s.clear)
    ensures SetBits(s, ty, mask).st == s && SetBits(s, ty, mask).wakes == []
  {
    QuietList(s.waiting, Tester(s.clear, s.flags), s.flags);
  }

  predicate Cleared(flags: bv32, mask: bv32) {
    flags & mask == 0
  }

  lemma ClearedBelow(left: bv32, flags: bv32, mask: bv32)
    requires Leaves(left, flags, mask)
    ensures Cleared(left, mask)
  {
  }

  /** A set_bits call without SET leaves the bits of its mask clear exactly when its type
      has the CLEAR bit or they were clear before. */
  lemma ClearRequestClearsIff(s: State, ty: bv32, mask: bv32)
    requires AllPlain(s) && Quiet(s) && !Has(ty, SET) && mask != 0
    ensures Cleared(SetBits(s, ty, mask).st.flags, mask) <==> Has(ty, s.clear) || Cleared(s.flags, mask)
  {
    if Has(ty, s.clear) {
      ClearRequestTakesMask(s, ty, mask);
      ClearedBelow(SetBits(s, ty, mask).st.flags, s.flags, mask);
    } else {
      IdleRequestDoesNothing(s, ty, mask);
    }
  }

  /** With the CLEAR bit it takes off exactly the bits of its mask, and wakes nobody. */
  lemma ClearRequestTakesMask(s: State, ty: bv32, mask: bv32)
    requires AllPlain(s) && Quiet(s) && !Has(ty, SET) && Has(ty, s.clear) && mask != 0
    ensures var o := SetBits(s, ty, mask);
            Leaves(o.st.flags, s.flags, mask) && o.st.waiting == s.waiting && o.wakes == []
  {
    var snap := Snapshot(s.clear, s.flags, ty, mask);
    assert Leaves(snap, s.flags, mask);
    LeavesWithin(snap, s.flags, mask);
    QuietBelow(s.clear, s.waiting, s.flags, snap);
    QuietList(s.waiting, Tester(s.clear, snap), snap);
  }

  /** With the value of the header the call that clears a bit leaves it set. */
  lemma ClearRequestExample()
    ensures SetBits(State(0, 1, []), 0, 1).st.flags == 1
  {
    NoClearBitIsPlain(0);
    assert !Has(0, SET);
  }

  /** The documented condition of a CLEAR wait: all, or any, of the bits of the mask
      are clear. */
  predicate IntendedClear(ty: bv32, mask: bv32, flags: bv32) {
    if Has(ty, ALL) then flags & mask == 0 else mask & !flags != 0
  }

  ghost predicate MeetsIntent(clear: bv32, ty: bv32, mask: bv32) {
    forall flags :: Check(clear, ty, mask, flags).Some? <==> IntendedClear(ty, mask, flags)
  }

  /** What a taken CLEAR branch tests: for ALL, that the mask is full and no flag is
      set; for ANY, that not all flags are set or the mask is not full. */
  lemma ClearWaitTests(clear: bv32, ty: bv32, mask: bv32, flags: bv32)
    requires !Plain(clear, ty)
    ensures Has(ty, ALL) ==> (Check(clear, ty, mask, flags).Some? <==> mask == FULL && flags == 0)
    ensures !Has(ty, ALL) ==> (Check(clear, ty, mask, flags).Some? <==> mask != FULL || flags != FULL)
  {
    OwnComplement(flags, mask);
    NoComplement(flags, mask);
  }

  const FULL: bv32 := 0xFFFF_FFFF

  lemma OwnComplement(flags: bv32, mask: bv32)
    ensures mask == !(flags & mask) <==> mask == FULL && flags == 0
  {
    if mask == !(flags & mask) {
      ComplementIsFull(flags, mask);
    }
  }

  lemma ComplementIsFull(flags: bv32, mask: bv32)
    requires mask == !(flags & mask)
    ensures mask == FULL && flags == 0
  {
  }

  lemma NoComplement(flags: bv32, mask: bv32)
    ensures !(flags & mask) == 0 <==> mask == FULL && flags == FULL
  {
    if !(flags & mask) == 0 {
      NoComplementIsFull(flags, mask);
    }
  }

  lemma NoComplementIsFull(flags: bv32, mask: bv32)
    requires !(flags & mask) == 0
    ensures mask == FULL && flags == FULL
  {
  }

  /** The CLEAR branch means what is documented exactly for the full mask. */
  lemma ClearMeetsIntentIff(clear: bv32, ty: bv32, mask: bv32)
    requires !Plain(clear, ty)
    ensures MeetsIntent(clear, ty, mask) <==> mask == FULL
  {
    if mask == FULL {
      forall flags
        ensures Check(clear, ty, mask, flags).Some? <==> IntendedClear(ty, mask, flags)
      {
        ClearWaitTests(clear, ty, mask, flags);
        FullIntent(flags);
      }
    } else {
      var flags := if Has(ty, ALL) then 0 else mask;
      ClearWaitTests(clear, ty, mask, flags);
      PartialIntent(ty, mask);
      assert Check(clear, ty, mask, flags).Some? != IntendedClear(ty, mask, flags);
    }
  }

  lemma AndFull(x: bv32)
    ensures x & FULL == x
  {
  }

  lemma NotZero(x: bv32)
    requires !x == 0
    ensures x == FULL
  {
  }

  lemma FullIntent(flags: bv32)
    ensures flags & FULL == 0 <==> flags == 0
    ensures FULL & !flags == 0 <==> flags == FULL
  {
    AndFull(flags);
    FullAny(flags);
  }

  lemma FullAny(flags: bv32)
    ensures FULL & !flags == 0 <==> flags == FULL
  {
    AndFull(!flags);
    AndCommutes(FULL, !flags);
    if !flags == 0 {
      NotZero(flags);
    }
  }

  lemma PartialIntent(ty: bv32, mask: bv32)
    ensures Has(ty, ALL) ==> IntendedClear(ty, mask, 0)
    ensures !Has(ty, ALL) ==> !IntendedClear(ty, mask, mask)
  {
  }

  /** A wait with neither bit always blocks, even when all bits of its mask are clear. */
  lemma IdleWaitBlocks(s: State, task: int, prio: int, ms: int, ty: bv32, mask: bv32)
    requires !Has(ty, SET) && !Has(ty, s.clear) && mask != 0
    ensures WaitBits(s, task, prio, ms, ty, mask).ret == Blocked
    ensures WaitBits(s, task, prio, ms, ty, mask).st.flags == s.flags
  {
    OnlySetIsSatisfied(s.clear, ty, mask, s.flags);
  }

  /** ... and waits until its own time-out or until the object is removed. */
  lemma {:induction false} IdleWaiterStays(s: State, task: int, wait: Wait, ops: seq<Op>)
    requires WaitsFor(s.waiting, task, wait) && !Has(wait.ty, SET) && !Has(wait.ty, s.clear)
    requires forall i :: 0 <= i < |ops| ==> !ops[i].OpUninit? && (ops[i].OpTimeOut? ==> ops[i].task != task)
    ensures WaitsFor(Run(s, ops).waiting, task, wait)
    decreases |ops|
  {
    if ops != [] {
      var w :| w in s.waiting && w.task == task && w.reason == wait;
      IdleWaiterKept(s, w, ops[0]);
      IdleWaiterStays(Step(s, ops[0]).st, task, wait, ops[1..]);
    }
  }

  lemma IdleWaiterKept(s: State, w: Task, op: Op)
    requires w in s.waiting && !Has(w.reason.ty, SET) && !Has(w.reason.ty, s.clear)
    requires !op.OpUninit? && (op.OpTimeOut? ==> op.task != w.task)
    ensures WaitsFor(Step(s, op).st.waiting, w.task, w.reason) && Step(s, op).st.clear == s.clear
  {
    match op {
      case OpWait(task, prio, ms, ty, mask) =>
        InsertMember(s.waiting, Waiter(task, prio, ms, Wait(ty, mask)), w);
      case OpSet(ty, mask) =>
        var snap := Snapshot(s.clear, s.flags, ty, mask);
        IdleIsUnsatisfied(s.clear, w, snap);
        UnsatisfiedMember(s.waiting, Tester(s.clear, snap), w);
      case OpTimeOut(task) =>
        RemoveKeeps(s.waiting, task, w);
      case OpInherit(task, prio) =>
        InheritWaitsFor(s.waiting, task, prio, w);
    }
  }

  lemma IdleIsUnsatisfied(clear: bv32, w: Task, snap: bv32)
    requires !Has(w.reason.ty, SET) && !Has(w.reason.ty, clear)
    ensures Tester(clear, snap)(w).None?
  {
  }

  // ---- SET and CLEAR waiters together ----

  lemma {:induction false} OrHas(a: bv32, b: bv32)
    ensures (a | b) & a == a
  {
  }

  lemma {:induction false} OrHasNot(a: bv32, b: bv32, c: bv32)
    requires a & c == 0 && b & c == 0
    ensures (a | b) & c == 0
  {
  }

  lemma OrSwaps(a: bv32, b: bv32)
    ensures a | b == b | a
  {
  }

  lemma NoSetBit(clear: bv32)
    requires clear & SET == 0
    ensures !Has(clear | ALL, SET)
  {
    OrHasNot(clear, ALL, SET);
  }

  lemma HasClearBit(clear: bv32)
    requires clear != 0
    ensures Has(clear | ALL, clear)
  {
    OrHas(clear, ALL);
  }

  lemma HasAllBit(clear: bv32)
    ensures Has(clear | ALL, ALL)
  {
    OrHas(ALL, clear);
    OrSwaps(clear, ALL);
  }

  lemma ClearAllBits(clear: bv32)
    requires clear != 0 && clear & SET == 0
    ensures !Plain(clear, clear | ALL) && Has(clear | ALL, ALL)
  {
    NoSetBit(clear);
    HasClearBit(clear);
    HasAllBit(clear);
  }

  /** The exit of a SET waiter can satisfy a CLEAR waiter that is not looked at again:
      with a CLEAR bit a wakeup can be lost. */
  lemma MixedWaitersLoseWakeup(clear: bv32) returns (s: State)
    requires clear != 0 && clear & SET == 0
    ensures s.clear == clear && Quiet(s) && !Quiet(SetBits(s, SET, 1).st)
  {
    var a := Waiter(1, 0, 0, Wait(SET | ALL | EXIT_CLEAR, 3));
    var b := Waiter(2, 0, 0, Wait(clear | ALL, FULL));
    s := State(clear, 2, [a, b]);
    var t := Tester(clear, 3);
    ClearAllBits(clear);
    ClearWaitTests(clear, clear | ALL, FULL, 2);
    ClearWaitTests(clear, clear | ALL, FULL, 3);
    ClearWaitTests(clear, clear | ALL, FULL, 0);
    assert Test(clear, a, 2).None?;
    assert Snapshot(clear, 2, SET, 1) == 3;
    assert t(a) == Some(3) && t(b) == None && Next(a, Some(3), 3) == 0;
    SetTwo(s, SET, 1, a, b, t);
    assert SetBits(s, SET, 1).st.waiting[0] == b;
    assert Test(clear, b, 0).Some?;
  }

  ghost predicate NeverLosesWakeup(clear: bv32) {
    forall s: State, ops: seq<Op> :: s.clear == clear && Quiet(s) ==> Quiet(Run(s, ops))
  }

  /** Over runs of waits of every type, no wakeup is lost exactly when OS_EFLAGS_CLEAR
      has no bit. */
  lemma NeverLosesWakeupIff(clear: bv32)
    requires clear & SET == 0
    ensures NeverLosesWakeup(clear) <==> clear == 0
  {
    if clear == 0 {
      forall s: State, ops: seq<Op> | s.clear == clear && Quiet(s)
        ensures Quiet(Run(s, ops))
      {
        forall ty: bv32
          ensures Plain(0, ty)
        {
          NoClearBitIsPlain(ty);
        }
        NoLostWakeup(s, ops);
      }
    } else {
      var s := MixedWaitersLoseWakeup(clear);
      var op := OpSet(SET, 1);
      assert Run(s, [op]) == Run(Step(s, op).st, []) == SetBits(s, SET, 1).st;
    }
  }

  lemma SetTwo(s: State, ty: bv32, mask: bv32, a: Task, b: Task, t: Task -> Option<bv32>)
    requires s.waiting == [a, b] && mask != 0
    requires t == Tester(s.clear, Snapshot(s.clear, s.flags, ty, mask))
    ensures var snap := Snapshot(s.clear, s.flags, ty, mask);
            SetBits(s, ty, mask).st.flags == Next(b, t(b), Next(a, t(a), snap))
    ensures SetBits(s, ty, mask).st.waiting
            == (if t(a).None? then [a] else []) + (if t(b).None? then [b] else [])
  {
    ExamineTwo(a, b, t, Snapshot(s.clear, s.flags, ty, mask));
  }

  lemma ExamineTwo(a: Task, b: Task, t: Task -> Option<bv32>, snap: bv32)
    ensures Residue([a, b], t, snap) == Next(b, t(b), Next(a, t(a), snap))
    ensures Unsatisfied([a, b], t) == (if t(a).None? then [a] else []) + (if t(b).None? then [b] else [])
  {
    assert [a, b][1..] == [b] && [b][1..] == [];
    assert Unsatisfied([b], t) == if t(b).None? then [b] else [];
    assert Residue([b], t, Next(a, t(a), snap)) == Next(b, t(b), Next(a, t(a), snap));
  }

  const CLEAR_BIT: bv32 := 0x4

  /** With a CLEAR bit, what remains of the flags can depend on the order of the list. */
  lemma MixedExitsDependOnOrder() returns (a: Task, b: Task)
    ensures SetBits(State(CLEAR_BIT, 0, [a, b]), SET, 1).st.flags
            != SetBits(State(CLEAR_BIT, 0, [b, a]), SET, 1).st.flags
  {
    a := Waiter(1, 0, 0, Wait(SET | EXIT_CLEAR, 1));
    b := Waiter(2, 0, 0, Wait(CLEAR_BIT | EXIT_CLEAR, 2));
    var t := Tester(CLEAR_BIT, 1);
    assert Snapshot(CLEAR_BIT, 0, SET, 1) == 1;
    assert Test(CLEAR_BIT, a, 1) == Some(1) && Test(CLEAR_BIT, b, 1) == Some(FULL);
    assert t(a) == Some(1) && t(b) == Some(FULL);
    assert Next(a, Some(1), 1) == 0 && Next(b, Some(FULL), 0) == FULL;
    assert Next(b, Some(FULL), 1) == FULL && Next(a, Some(1), FULL) == 0xFFFF_FFFE;
    SetTwo(State(CLEAR_BIT, 0, [a, b]), SET, 1, a, b, t);
    SetTwo(State(CLEAR_BIT, 0, [b, a]), SET, 1, b, a, t);
  }

  // ---- What a SET request and a wait do, on the flags themselves ----

  /** A set call is refused, without effect, exactly for an empty mask. */
  lemma SetAnswers(s: State, ty: bv32, mask: bv32)
    ensures SetBits(s, ty, mask).ret == ErrParam <==> mask == 0
    ensures SetBits(s, ty, mask).ret == ErrParam ==> SetBits(s, ty, mask).st == s && SetBits(s, ty, mask).wakes == []
  {
  }

  lemma SetSnapshot(clear: bv32, flags: bv32, ty: bv32, mask: bv32)
    requires Has(ty, SET)
    ensures Snapshot(clear, flags, ty, mask) == flags | mask
  {
  }

  /** Nobody whose wait holds on `flags` clears on exit. */
  ghost predicate NoExitOn(ws: seq<Task>, flags: bv32) {
    forall i :: 0 <= i < |ws| && Holds(ws[i], flags) ==> !Has(ws[i].reason.ty, EXIT_CLEAR)
  }

  lemma SnapshotLeft(s: State, ty: bv32, mask: bv32, snap: bv32)
    requires AllPlain(s) && mask != 0 && snap == Snapshot(s.clear, s.flags, ty, mask)
    ensures Within(SetBits(s, ty, mask).st.flags, snap)
    ensures NoExitOn(s.waiting, snap) ==> SetBits(s, ty, mask).st.flags == snap
  {
    var exit := ExitBits(s.waiting, Tester(s.clear, snap));
    SetBitsLeaves(s, ty, mask);
    LeavesWithin(SetBits(s, ty, mask).st.flags, snap, exit);
    if NoExitOn(s.waiting, snap) {
      NoExitBits(s, snap);
      MaskZero(snap, exit);
    }
  }

  /** A SET request adds no bits but those of its mask, and when nobody woken by it
      clears on exit, it adds them all and takes none off. */
  lemma SetRequestSets(s: State, ty: bv32, mask: bv32, both: bv32)
    requires AllPlain(s) && Has(ty, SET) && mask != 0 && both == s.flags | mask
    ensures Within(SetBits(s, ty, mask).st.flags, both)
    ensures NoExitOn(s.waiting, both) ==> SetBits(s, ty, mask).st.flags == both
  {
    SetSnapshot(s.clear, s.flags, ty, mask);
    SnapshotLeft(s, ty, mask, both);
  }

  lemma NoExitBits(s: State, snap: bv32)
    requires AllPlain(s)
    requires NoExitOn(s.waiting, snap)
    ensures ExitBits(s.waiting, Tester(s.clear, snap)) == 0
  {
    var t := Tester(s.clear, snap);
    forall w | w in s.waiting
      ensures ExitOf(w, t(w)) == 0
    {
      TestMeans(s.clear, w, snap);
    }
    NoExits(s.waiting, t);
  }

  lemma {:induction false} NoExits(ws: seq<Task>, t: Task -> Option<bv32>)
    requires forall w :: w in ws ==> ExitOf(w, t(w)) == 0
    ensures ExitBits(ws, t) == 0
  {
    if ws != [] {
      NoExits(ws[1..], t);
      OrZero(ExitOf(ws[0], t(ws[0])), ExitBits(ws[1..], t));
    }
  }

  lemma OrZero(a: bv32, b: bv32)
    requires a == 0 && b == 0
    ensures a | b == 0
  {
  }

  predicate Meets(m: bv32, x: bv32) {
    m & x != 0
  }

  /** `x` is the union of `a` and `b`: a mask meets it when it meets either. */
  ghost predicate IsUnion(x: bv32, a: bv32, b: bv32) {
    forall m {:trigger Meets(m, x)} :: Meets(m, x) <==> Meets(m, a) || Meets(m, b)
  }

  lemma OrMeets(m: bv32, a: bv32, b: bv32)
    requires !Meets(m, a | b)
    ensures !Meets(m, a)
  {
  }

  lemma OrMeetsOnly(m: bv32, a: bv32, b: bv32)
    requires !Meets(m, a) && !Meets(m, b)
    ensures !Meets(m, a | b)
  {
  }

  lemma OrIsUnion(a: bv32, b: bv32)
    ensures IsUnion(a | b, a, b)
  {
    forall m: bv32
      ensures Meets(m, a | b) <==> Meets(m, a) || Meets(m, b)
    {
      OrIsUnionAt(m, a, b);
    }
  }

  lemma OrIsUnionAt(m: bv32, a: bv32, b: bv32)
    ensures Meets(m, a | b) <==> Meets(m, a) || Meets(m, b)
  {
    OrSwaps(a, b);
    if !Meets(m, a | b) {
      OrMeets(m, a, b);
      OrMeets(m, b, a);
    } else if !Meets(m, a) && !Meets(m, b) {
      OrMeetsOnly(m, a, b);
    }
  }

  /** The condition of a SET wait on the flags `a` and `b` together. */
  predicate HoldsOnBoth(w: Wait, a: bv32, b: bv32, both: bv32) {
    if Has(w.ty, ALL) then Within(w.mask, both) else Meets(w.mask, a) || Meets(w.mask, b)
  }

  lemma HoldsOnUnion(w: Task, a: bv32, b: bv32, both: bv32)
    requires Has(w.reason.ty, SET) && IsUnion(both, a, b)
    ensures Holds(w, both) <==> HoldsOnBoth(w.reason, a, b, both)
  {
    assert Meets(w.reason.mask, both) <==> Meets(w.reason.mask, a) || Meets(w.reason.mask, b);
  }

  lemma HolderIsWoken(s: State, ty: bv32, mask: bv32, i: nat, snap: bv32)
    requires mask != 0 && i < |s.waiting| && snap == Snapshot(s.clear, s.flags, ty, mask)
    requires Has(s.waiting[i].reason.ty, SET)
    ensures var w, o := s.waiting[i], SetBits(s, ty, mask);
            && (Holds(w, snap) ==> Wake(w.task, Ok, snap & w.reason.mask) in o.wakes && w !in o.st.waiting)
            && (!Holds(w, snap) ==> w in o.st.waiting)
  {
    var w := s.waiting[i];
    if Holds(w, snap) {
      SatisfiedAreWoken(s, ty, mask, i);
    } else {
      TestMeans(s.clear, w, snap);
      UnsatisfiedMember(s.waiting, Tester(s.clear, snap), w);
    }
  }

  /** Every SET waiter with a bit of its mask in the old flags or in the request (any),
      or all of them (all), is woken with those bits; the others stay. */
  lemma SetRequestWakes(s: State, ty: bv32, mask: bv32, i: nat, both: bv32)
    requires Has(ty, SET) && mask != 0 && i < |s.waiting| && Has(s.waiting[i].reason.ty, SET)
    requires both == s.flags | mask
    ensures var w, o := s.waiting[i], SetBits(s, ty, mask);
            if HoldsOnBoth(w.reason, s.flags, mask, both) then
              Wake(w.task, Ok, both & w.reason.mask) in o.wakes && w !in o.st.waiting
            else
              w in o.st.waiting
  {
    SetSnapshot(s.clear, s.flags, ty, mask);
    OrIsUnion(s.flags, mask);
    HoldsOnUnion(s.waiting[i], s.flags, mask, both);
    HolderIsWoken(s, ty, mask, i, both);
  }

  /** What a wait of a plain type answers: refused without a mask, the matching bits when
      its condition holds, taken off the flags when it clears on exit; else the caller is
      put on the list and the flags stay. */
  lemma WaitAnswers(s: State, task: int, prio: int, ms: int, ty: bv32, mask: bv32)
    requires Plain(s.clear, ty)
    ensures var o := WaitBits(s, task, prio, ms, ty, mask);
            && o.wakes == [] && o.st.clear == s.clear
            && (mask == 0 ==> o.ret == ErrParam && o.st == s)
            && (mask != 0 && Satisfied(ty, mask, s.flags) ==>
                  && o.ret == Flags(mask & s.flags) && o.st.waiting == s.waiting
                  && Leaves(o.st.flags, s.flags, if Has(ty, EXIT_CLEAR) then mask & s.flags else 0))
            && (mask != 0 && !Satisfied(ty, mask, s.flags) ==>
                  && o.ret == Blocked && o.st.flags == s.flags
                  && multiset(o.st.waiting)
                     == multiset(s.waiting) + multiset{Waiter(task, prio, ms, Wait(ty, mask))})
  {
    InsertTasks(s.waiting, Waiter(task, prio, ms, Wait(ty, mask)));
    if mask != 0 {
      OnlySetIsSatisfied(s.clear, ty, mask, s.flags);
      match Check(s.clear, ty, mask, s.flags)
      case Some(bits) =>
        AndCommutes(mask, s.flags);
        ExitLeaves(ty, bits, s.flags);
      case None =>
    }
  }

  lemma ExitLeaves(ty: bv32, bits: bv32, flags: bv32)
    requires Has(ty, SET)
    ensures Leaves(OnExit(ty, bits, flags), flags, if Has(ty, EXIT_CLEAR) then bits else 0)
  {
    if Has(ty, EXIT_CLEAR) {
      ClearsOnExit(ty, bits, flags);
    } else {
      MaskZero(flags, 0);
    }
  }

  // ---- Nobody is forgotten ----

  function WokenTasks(ks: seq<Wake>): multiset<int> {
    if ks == [] then multiset{} else multiset{ks[0].task} + WokenTasks(ks[1..])
  }

  /** What the tasks woken by a step are told. */
  function Cause(op: Op): Err {
    match op
    case OpTimeOut(_) => ErrTimeout
    case OpUninit => ErrRemove
    case _ => Ok
  }

  /** Who waited before, or blocks now, still waits afterwards or is made ready, and is
      told why. */
  ghost predicate Accounted(s: State, o: Outcome, blocked: multiset<int>, cause: Err) {
    && Tasks(s.waiting) + blocked == Tasks(o.st.waiting) + WokenTasks(o.wakes)
    && forall k :: k in o.wakes ==> k.err == cause
  }

  lemma {:induction false} RemovedAreWoken(ws: seq<Task>)
    ensures WokenTasks(WakeAll(ws)) == Tasks(ws)
    ensures forall k :: k in WakeAll(ws) ==> k.err == ErrRemove
  {
    if ws != [] {
      RemovedAreWoken(ws[1..]);
    }
  }

  lemma {:induction false} OneWoken(k: Wake)
    ensures WokenTasks([k]) == multiset{k.task}
  {
    assert [k][1..] == [];
  }

  lemma {:induction false} WokenTold(ws: seq<Task>, t: Task -> Option<bv32>)
    ensures forall k :: k in Woken(ws, t) ==> k.err == Ok
  {
    if ws != [] {
      WokenTold(ws[1..], t);
    }
  }

  lemma {:induction false} SatisfiedOrNot(ws: seq<Task>, t: Task -> Option<bv32>)
    ensures Tasks(ws) == Tasks(Unsatisfied(ws, t)) + WokenTasks(Woken(ws, t))
  {
    if ws != [] {
      SatisfiedOrNot(ws[1..], t);
      OneSatisfiedOrNot(ws[0], ws[1..], t(ws[0]), Unsatisfied(ws[1..], t), Woken(ws[1..], t));
    }
  }

  lemma {:induction false} OneSatisfiedOrNot(w: Task, r: seq<Task>, o: Option<bv32>, u: seq<Task>, k: seq<Wake>)
    requires Tasks(r) == Tasks(u) + WokenTasks(k)
    ensures multiset{w.task} + Tasks(r)
            == Tasks(if o.None? then [w] + u else u) + WokenTasks(WakeOf(w, o) + k)
  {
    match o
    case None =>
      TasksCons(w, u);
      assert WakeOf(w, o) + k == k;
    case Some(bits) =>
      WokenCons(Wake(w.task, Ok, bits), k);
  }

  lemma {:induction false} TasksCons(w: Task, ws: seq<Task>)
    ensures Tasks([w] + ws) == multiset{w.task} + Tasks(ws)
  {
    assert ([w] + ws)[1..] == ws;
  }

  lemma {:induction false} WokenCons(k: Wake, ks: seq<Wake>)
    ensures WokenTasks([k] + ks) == multiset{k.task} + WokenTasks(ks)
  {
    assert ([k] + ks)[1..] == ks;
  }

  lemma {:induction false} WaitAccounted(s: State, task: int, prio: int, ms: int, ty: bv32, mask: bv32)
    ensures var o := WaitBits(s, task, prio, ms, ty, mask);
            Accounted(s, o, if o.ret == Blocked then multiset{task} else multiset{}, Ok)
  {
    InsertTasks(s.waiting, Waiter(task, prio, ms, Wait(ty, mask)));
  }

  lemma {:induction false} TimeOutAccounted(s: State, task: int)
    ensures Accounted(s, TimeOut(s, task), multiset{}, ErrTimeout)
  {
    if CanTimeOut(s.waiting, task) {
      TimeOutTasks(s.waiting, task);
      OneWoken(Wake(task, ErrTimeout, 0));
    }
  }

  /** No step forgets a waiting task. */
  lemma {:induction false} WaitersBalance(s: State, op: Op)
    ensures var o := Step(s, op);
            Accounted(s, o, if op.OpWait? && o.ret == Blocked then multiset{op.task} else multiset{}, Cause(op))
  {
    match op
    case OpWait(task, prio, ms, ty, mask) =>
      WaitAccounted(s, task, prio, ms, ty, mask);
    case OpSet(ty, mask) =>
      var t := Tester(s.clear, Snapshot(s.clear, s.flags, ty, mask));
      SatisfiedOrNot(s.waiting, t);
      WokenTold(s.waiting, t);
    case OpTimeOut(task) =>
      TimeOutAccounted(s, task);
    case OpInherit(task, prio) =>
      InheritTasks(s.waiting, task, prio);
    case OpUninit =>
      RemovedAreWoken(s.waiting);
  }

  /** A time-out wakes exactly a task that waits with a positive delay, and leaves the
      flags alone. */
  lemma TimesOutIff(s: State, task: int)
    ensures TimeOut(s, task).wakes == [Wake(task, ErrTimeout, 0)] <==>
            exists i :: 0 <= i < |s.waiting| && s.waiting[i].task == task && s.waiting[i].ms > 0
    ensures TimeOut(s, task).st.flags == s.flags
  {
  }
}
