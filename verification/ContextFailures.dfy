/** What a failure does. A fail routine makes the completing system call of its mode, so the thread
    goes on at the return point of a cross-mode call, with the registers of whatever frame is on top
    of the region the call saves to. */
module ContextFailures {
  import opened ContextStack
  import opened ContextRuns

  // ---------------------------------------------------------------- innermost frames

  /** The innermost frame of a region; -1 if it is empty. */
  function LastIn(stack: seq<Saved>, inM: bool): (j: int)
    ensures -1 <= j < |stack|
    ensures j >= 0 ==> InM(stack[j]) == inM
    ensures forall k :: j < k < |stack| ==> InM(stack[k]) != inM
  {
    if |stack| == 0 then -1
    else if InM(stack[|stack| - 1]) == inM then |stack| - 1
    else LastIn(stack[..|stack| - 1], inM)
  }

  /** The stack below the innermost frame of a region: one frame fewer there, and all the frames of
      the other region above it gone. */
  lemma {:induction false} CountsBelow(stack: seq<Saved>, inM: bool)
    ensures LastIn(stack, inM) < 0 <==> Count(stack, inM) == 0
    ensures var j := LastIn(stack, inM);
            j >= 0 ==>
              && Count(stack, inM) == Count(stack[..j], inM) + 1
              && Count(stack, !inM) == Count(stack[..j], !inM) + (|stack| - 1 - j)
  {
    if |stack| > 0 {
      var n, j := |stack| - 1, LastIn(stack, inM);
      CountsBelow(stack[..n], inM);
      if 0 <= j < n {
        assert stack[..n][..j] == stack[..j];
      }
    }
  }

  /** A frame that is anywhere on a stored stack is in memory. */
  lemma {:induction false} StoredAt(m: Memory, layout: Layout, stack: seq<Saved>, j: nat)
    requires Stored(m, layout, stack) && j < |stack|
    ensures Stored(m, layout, stack[..j])
    ensures FrameAt(m, Area(layout, stack[..j], InM(stack[j])), stack[j], Where(stack[..j]))
    ensures stack[j].CallFrame? ==> Where(stack[..j]) == CallerMode(stack[j].f)
  {
    hide FrameAt, Count;
    var n := |stack| - 1;
    if j < n {
      StoredAt(m, layout, stack[..n], j);
      assert stack[..n][..j] == stack[..j];
    }
  }

  /** Below M mode, the innermost frame of the M region is that of a run_function_in_smode. */
  lemma {:induction false} InnermostCall(m: Memory, layout: Layout, stack: seq<Saved>)
    requires Stored(m, layout, stack) && Where(stack).priv != M
    ensures var j := LastIn(stack, true); j >= 0 && stack[j].CallFrame? && stack[j].f == FnS
  {
    hide FrameAt, Count;
    var n := |stack| - 1;
    if !InM(stack[n]) {
      InnermostCall(m, layout, stack[..n]);
    }
  }

  // ---------------------------------------------------------------- memory

  /** A word of a region's slice. */
  predicate InSlice(layout: Layout, inM: bool, x: nat) {
    var start := if inM then layout.mStart else layout.sStart;
    start <= x < start + MAX_SAVES * FRAME
  }

  ghost predicate SliceKept(m: Memory, n: Memory, layout: Layout, inM: bool) {
    forall x :: InSlice(layout, inM, x) ==> Load(n, x) == Load(m, x)
  }

  /** The memory of a fail routine: the system call's frame on top of the innermost one of the region,
      and then the status in that one's a0. The innermost frame is restored with the status, what is
      below it is still stored, and the other region is not touched. */
  lemma {:induction false} RoutineMemory(m: Memory, entered: Memory, layout: Layout, stack: seq<Saved>, call: Saved,
      was: Mode, inM: bool)
    requires layout.Valid() && Stored(m, layout, stack)
    requires 0 < Count(stack, inM) < MAX_SAVES && Count(stack, !inM) <= MAX_SAVES
    requires SameOutside(m, entered, Area(layout, stack, inM))
    requires FrameAt(entered, Area(layout, stack, inM), call, was)
    ensures var j := LastIn(stack, inM);
            && j >= 0
            && var area, status := Area(layout, stack[..j], inM), call.regs[A0];
               var after := entered[area + 8 * A0 := Int(status)];
            && Area(layout, stack, inM) == area + FRAME
            && LoadInt(entered, area + FRAME + 8 * A0) == status
            && RestoreGprs(after, area) == stack[j].regs[A0 := status]
            && Stored(after, layout, stack[..j])
            && SliceKept(m, after, layout, !inM)
  {
    hide Stored, Count, FrameAt, Load, LoadInt, RestoreGprs, SameOutside;
    CountsBelow(stack, inM);
    var j := LastIn(stack, inM);
    var below, area, status := stack[..j], Area(layout, stack[..j], inM), call.regs[A0];
    var after := entered[area + 8 * A0 := Int(status)];
    StoredAt(m, layout, stack, j);
    FrameGprs(entered, area + FRAME, call, was);
    GprsKept(m, entered, area, stack[j], Where(below));
    RestoreDelivered(entered, area, stack[j].regs, status);
    StoredElsewhere(m, entered, layout, below, area + FRAME, inM);
    OneWordChanged(entered, area + 8 * A0, Int(status), area);
    StoredElsewhere(entered, after, layout, below, area, inM);
    OtherSlice(m, entered, layout, inM, area + FRAME);
    OtherSlice(entered, after, layout, inM, area);
  }

  lemma {:induction false} GprsKept(m: Memory, n: Memory, area: nat, f: Saved, below: Mode)
    requires FrameAt(m, area, f, below) && SameOutside(m, n, area + FRAME)
    ensures forall i :: 0 <= i < GPRS ==> Load(n, area + 8 * i) == Int(f.regs[i])
  {
    hide Load;
  }

  /** A frame written in one region's slice changes nothing of the other's. */
  lemma {:induction false} OtherSlice(m: Memory, n: Memory, layout: Layout, inM: bool, area: nat)
    requires layout.Valid() && SameOutside(m, n, area)
    requires var start := if inM then layout.mStart else layout.sStart;
             start <= area && area + FRAME <= start + MAX_SAVES * FRAME
    ensures SliceKept(m, n, layout, !inM)
  {
    hide Load;
  }

  // ---------------------------------------------------------------- the routine of S mode

  /** The thread goes on in M mode, at the return point of the innermost run_function_in_smode, with
      its caller's registers and the status DIAG_FAILED. The M region is as it was at that call. The
      S region is not touched: every frame taken since the call stays taken. */
  predicate BackInM(t: Thread, r: Thread, stack: seq<Saved>, layout: Layout)
    requires LastIn(stack, true) >= 0
  {
    var j := LastIn(stack, true);
    && r.regs == stack[j].regs[A0 := DIAG_FAILED] && r.pc == layout.resume(FnS)
    && r.priv == M && !r.virt && r.attr.mode == M && !r.attr.vbit && r.csr.delegation == BOOT
    && r.attr.mArea == Area(layout, stack[..j], true) && r.attr.mLeft == MAX_SAVES - Count(stack[..j], true)
    && r.attr.sArea == t.attr.sArea && r.attr.sLeft == t.attr.sLeft
    && Stored(r.memory, layout, stack[..j])
  }

  lemma {:induction false} SmodeFail(t: Thread, stack: seq<Saved>, layout: Layout)
    requires Regions(t, stack, layout) && t.priv == S && !t.virt && Where(stack).priv != M
    requires Count(stack, true) < MAX_SAVES
    ensures var j := LastIn(stack, true); j >= 0 && stack[j].CallFrame? && stack[j].f == FnS
    ensures var o := FailRoutine(t, ByHS, layout);
            o.Running? && BackInM(t, o.thread, stack, layout) && SliceKept(t.memory, o.thread.memory, layout, false)
  {
    hide Stored, Count, FrameAt, Load, LoadInt, RestoreGprs, SameOutside, SaveGprs, StackBelow, FrameM, SliceKept;
    InnermostCall(t.memory, layout, stack);
    CountsBelow(stack, true);
    var failing := t.(regs := t.regs[A0 := DIAG_FAILED]);
    var u := TakeTrap(failing, ByM, 0);
    FrameMIs(u, t.attr.mArea, Mode(S, false));
    var call := TrapFrame(ByM, u.regs, u.csr.mepc, SeenOf(u.csr));
    RoutineMemory(t.memory, FrameM(u), layout, stack, call, Mode(S, false), true);
  }

  /** With no frame of the M region left the system call fails in M mode, which ends the diagnostic. */
  lemma {:induction false} SmodeFailEnds(t: Thread, stack: seq<Saved>, layout: Layout)
    requires Regions(t, stack, layout) && t.priv == S && !t.virt && Count(stack, true) == MAX_SAVES
    ensures var o := FailRoutine(t, ByHS, layout); o.Failed? && o.routine == ByM
  {
    hide Stored, Count;
  }

  // ---------------------------------------------------------------- the routine of VS mode

  /** The thread goes on in S mode, at the return point of run_function_in_vsmode, with the registers
      of the innermost frame of the S region, whoever saved it, and the status DIAG_FAILED. That
      frame is free again; the M region is not touched. */
  predicate BackInS(t: Thread, r: Thread, stack: seq<Saved>, layout: Layout)
    requires LastIn(stack, false) >= 0
  {
    var j := LastIn(stack, false);
    && r.regs == stack[j].regs[A0 := DIAG_FAILED] && r.pc == layout.resume(FnVS)
    && r.priv == S && !r.virt && r.attr.mode == S && !r.attr.vbit && r.csr.delegation == BOOT
    && r.attr.sArea == Area(layout, stack[..j], false) && r.attr.sLeft == MAX_SAVES - Count(stack[..j], false)
    && r.attr.mArea == t.attr.mArea && r.attr.mLeft == t.attr.mLeft
    && Stored(r.memory, layout, stack[..j])
  }

  lemma {:induction false} VsmodeFail(t: Thread, stack: seq<Saved>, layout: Layout)
    requires Regions(t, stack, layout) && t.priv == S && t.virt
    requires 0 < Count(stack, false) < MAX_SAVES
    ensures LastIn(stack, false) >= 0
    ensures var o := FailRoutine(t, ByVS, layout);
            o.Running? && BackInS(t, o.thread, stack, layout) && SliceKept(t.memory, o.thread.memory, layout, true)
  {
    hide Stored, Count, FrameAt, Load, LoadInt, RestoreGprs, SameOutside, SaveGprs, StackBelow, FrameHS, SliceKept;
    CountsBelow(stack, false);
    var failing := t.(regs := t.regs[A0 := DIAG_FAILED]);
    var u := TakeTrap(failing, ByHS, 0);
    FrameHSIs(u, t.attr.sArea, Mode(S, true));
    var call := TrapFrame(ByHS, u.regs, u.csr.sepc, SeenOf(u.csr));
    RoutineMemory(t.memory, FrameHS(u), layout, stack, call, Mode(S, true), false);
  }

  /** With no frame of the S region left the system call fails in S mode. */
  lemma {:induction false} VsmodeFailFails(t: Thread, stack: seq<Saved>, layout: Layout)
    requires Regions(t, stack, layout) && t.priv == S && t.virt && Count(stack, false) == MAX_SAVES
    ensures var o := FailRoutine(t, ByVS, layout);
            && o.Failed? && o.routine == ByHS && o.thread.priv == S && !o.thread.virt
            && Regions(o.thread, stack, layout) && o.thread.memory == t.memory
            && o.thread.attr.sArea == t.attr.sArea && o.thread.attr.sLeft == t.attr.sLeft
  {
    hide Stored, Count;
  }

  // ---------------------------------------------------------------- every failure

  /** A handler's entry below M mode: its frame is on the stack, or there was none left and the thread
      is in the handler's mode with the regions as they were. */
  lemma {:induction false} Entry(t: Thread, a: Abstract, layout: Layout, h: Handler, tval: int)
    requires Refines(t, a, layout) && h != ByM && Delegable(h, t.priv, t.virt)
    ensures var o := Enter(TakeTrap(t, h, tval), h);
            && Mode(o.thread.priv, o.thread.virt) == HandlerMode(h)
            && if Count(a.stack, false) == MAX_SAVES
               then o == Failed(o.thread, h) && Regions(o.thread, a.stack, layout)
               else o.Running? && Regions(o.thread, Interrupted(a, h, tval).stack, layout)
                    && o.thread.attr.vbit == (h == ByVS && a.vbit)
    ensures Count(a.stack, false) <= MAX_SAVES && HandlerOn(a, Interrupted(a, h, tval).stack, h)
    ensures Where(Interrupted(a, h, tval).stack) == HandlerMode(h) && Where(a.stack).priv != M
  {
    hide Stored, Count, StackBelow, FrameAt, SaveGprs, Load;
    if Count(a.stack, false) < MAX_SAVES {
      match h {
        case ByHS => EnterHSPushes(t, a, layout, tval);
        case ByVS => EnterVSPushes(t, a, layout, tval);
      }
    }
  }

  /** A failing event below M mode leaves the thread in the mode of the routine it fails to, with both
      regions those of a stack. */
  ghost predicate FailsTo(s: Outcome, a: Abstract, stack: seq<Saved>, layout: Layout) {
    && s.Failed?
    && (s.routine != ByM ==>
          && Mode(s.thread.priv, s.thread.virt) == HandlerMode(s.routine)
          && Regions(s.thread, stack, layout) && Where(stack).priv != M
          && (stack == a.stack || HandlerOn(a, stack, s.routine)))
  }

  /** The frame of a handler on top of the stack. */
  predicate HandlerOn(a: Abstract, stack: seq<Saved>, h: Handler) {
    && |stack| == |a.stack| + 1 && stack[..|a.stack|] == a.stack
    && stack[|a.stack|].TrapFrame? && stack[|a.stack|].handler == h && stack[|a.stack|].regs == a.regs
  }

  lemma {:induction false} TrapFails(t: Thread, a: Abstract, layout: Layout, e: Event) returns (stack: seq<Saved>)
    requires Refines(t, a, layout) && Nested(a.stack, e) && e.Trap? && !CanGo(a, e)
    ensures FailsTo(Step(t, e, layout), a, stack, layout)
  {
    hide Enter, TakeTrap, Stored, Count, Regions, HandlerOn;
    stack := a.stack;
    if e.handler == ByM {
      Hindered(t, a, layout, e);
      EntryM(t, e.tval);
    } else {
      Entry(t, a, layout, e.handler, e.tval);
      if Count(a.stack, false) < MAX_SAVES {
        stack := Interrupted(a, e.handler, e.tval).stack;
      }
    }
  }

  lemma {:induction false} EntryM(t: Thread, tval: int)
    ensures var o := Enter(TakeTrap(t, ByM, tval), ByM); o.Failed? ==> o.routine == ByM
  {
  }

  lemma {:induction false} CallFails(t: Thread, a: Abstract, layout: Layout, f: Target)
    requires Refines(t, a, layout) && Nested(a.stack, Calling(f)) && !CanGo(a, Calling(f))
    ensures FailsTo(Step(t, Calling(f), layout), a, a.stack, layout)
    ensures Step(t, Calling(f), layout).thread == t
  {
    hide Stored, SaveGprs, AtCall, AtFunction;
  }

  lemma {:induction false} CompletionFails(t: Thread, a: Abstract, layout: Layout, f: Target)
      returns (stack: seq<Saved>)
    requires Refines(t, a, layout) && Nested(a.stack, Complete(f)) && !CanGo(a, Complete(f))
    ensures FailsTo(Step(t, Complete(f), layout), a, stack, layout)
    ensures EcallHandler(t.priv, t.virt, BOOT) != ByM ==>
              && Step(t, Complete(f), layout).routine == EcallHandler(t.priv, t.virt, BOOT)
              && |stack| == |a.stack| + (if Count(a.stack, false) == MAX_SAVES then 0 else 1)
  {
    hide Enter, TakeTrap, Stored, Count, Finish, HandlerOn, Area;
    stack := a.stack;
    var h := EcallHandler(t.priv, t.virt, BOOT);
    Hindered(t, a, layout, Complete(f));
    if h == ByM {
      EntryM(t, 0);
      FinishFailsInM(t, layout, f);
    } else {
      Entry(t, a, layout, h, 0);
      Completing(t, a, layout, f);
      if Count(a.stack, false) < MAX_SAVES {
        stack := Interrupted(a, h, 0).stack;
      }
    }
  }

  /** A completion in M mode that fails does so there. */
  lemma {:induction false} FinishFailsInM(t: Thread, layout: Layout, f: Target)
    requires EcallHandler(t.priv, t.virt, t.csr.delegation) == ByM && Step(t, Complete(f), layout).Failed?
    ensures Step(t, Complete(f), layout).routine == ByM
  {
    hide FrameM, StackBelow, FinishM, FinishHS, FinishVS;
  }

  lemma {:induction false} Failing(t: Thread, a: Abstract, layout: Layout, e: Event) returns (stack: seq<Saved>)
    requires Refines(t, a, layout) && Nested(a.stack, e) && !CanGo(a, e)
    ensures FailsTo(Step(t, e, layout), a, stack, layout)
  {
    hide Refines, Nested, Step, FailsTo;
    if e.Trap? {
      stack := TrapFails(t, a, layout, e);
    } else if e.Calling? {
      CallFails(t, a, layout, e.f);
      stack := a.stack;
    } else {
      stack := CompletionFails(t, a, layout, e.f);
    }
  }

  /** Where a failure in a mode leads. */
  predicate Settled(s: Outcome, o: Outcome, stack: seq<Saved>, layout: Layout)
    requires s.Failed?
    requires s.routine == ByVS ==> LastIn(stack, false) >= 0
    requires s.routine != ByM ==> LastIn(stack, true) >= 0
  {
    if s.routine == ByM then o == s
    else if s.routine == ByVS && Count(stack, false) < MAX_SAVES then
      o.Running? && BackInS(s.thread, o.thread, stack, layout)
    else if Count(stack, true) < MAX_SAVES then
      o.Running? && BackInM(s.thread, o.thread, stack, layout)
    else o.Failed? && o.routine == ByM
  }

  lemma {:induction false} Settles(s: Outcome, a: Abstract, stack: seq<Saved>, layout: Layout)
    requires FailsTo(s, a, stack, layout) && (s.routine == ByVS ==> Count(stack, false) > 0)
    ensures s.routine == ByVS ==> LastIn(stack, false) >= 0
    ensures s.routine != ByM ==> LastIn(stack, true) >= 0
    ensures Settled(s, Settle(s, layout), stack, layout)
  {
    hide Stored, Count, FailRoutine, BackInM, BackInS;
    if s.routine != ByM {
      CountsBelow(stack, false);
      InnermostCall(s.thread.memory, layout, stack);
      var t := s.thread;
      if s.routine == ByVS {
        if Count(stack, false) < MAX_SAVES {
          VsmodeFail(t, stack, layout);
        } else {
          VsmodeFailFails(t, stack, layout);
          SettlesInS(FailRoutine(t, ByVS, layout).thread, stack, layout);
          SameFrames(t, FailRoutine(t, ByVS, layout).thread, stack, layout);
        }
      } else {
        SettlesInS(t, stack, layout);
      }
    }
  }

  lemma {:induction false} SettlesInS(t: Thread, stack: seq<Saved>, layout: Layout)
    requires Regions(t, stack, layout) && t.priv == S && !t.virt && Where(stack).priv != M
    ensures LastIn(stack, true) >= 0
    ensures var o := Settle(Failed(t, ByHS), layout);
            if Count(stack, true) < MAX_SAVES then o.Running? && BackInM(t, o.thread, stack, layout)
            else o.Failed? && o.routine == ByM
  {
    hide Stored, Count, FailRoutine, BackInM;
    InnermostCall(t.memory, layout, stack);
    if Count(stack, true) < MAX_SAVES {
      SmodeFail(t, stack, layout);
    } else {
      SmodeFailEnds(t, stack, layout);
    }
  }

  lemma {:induction false} SameFrames(t: Thread, u: Thread, stack: seq<Saved>, layout: Layout)
    requires LastIn(stack, true) >= 0
    requires t.attr.sArea == u.attr.sArea && t.attr.sLeft == u.attr.sLeft
    ensures forall r :: BackInM(u, r, stack, layout) ==> BackInM(t, r, stack, layout)
  {
  }

  /** A failure in VS mode finds a frame in the S region. */
  lemma {:induction false} FrameForVS(t: Thread, a: Abstract, layout: Layout, e: Event, stack: seq<Saved>)
    requires Refines(t, a, layout) && Nested(a.stack, e) && !CanGo(a, e)
    requires Count(a.stack, false) > 0 || e != Calling(FnVU)
    requires FailsTo(Step(t, e, layout), a, stack, layout)
    ensures Step(t, e, layout).routine == ByVS ==> Count(stack, false) > 0
  {
    hide Stored, Step, Regions, Count;
    if stack != a.stack && Step(t, e, layout).routine == ByVS {
      var f := stack[|a.stack|];
      CountPushed(a.stack, f, false);
      assert stack == a.stack + [f];
    } else if stack == a.stack {
      match e {
        case Trap(_, _, _, _) =>
          TrapHasFrame(t, a, layout, e);
        case Calling(f) =>
          CallRoutine(t, layout, f);
        case Complete(f) =>
          TopIsCounted(a.stack);
          EcallRoutine(t, layout, f);
        case Compute(_, _) =>
        case SetEpc(_, _) =>
        case Return(_) =>
      }
    }
  }

  lemma {:induction false} TrapHasFrame(t: Thread, a: Abstract, layout: Layout, e: Event)
    requires Refines(t, a, layout) && Nested(a.stack, e) && e.Trap? && !CanGo(a, e)
    requires FailsTo(Step(t, e, layout), a, a.stack, layout)
    ensures Step(t, e, layout).routine == ByVS ==> Count(a.stack, false) > 0
  {
    hide Stored, Count, FrameVS, FrameHS, FrameM, StackBelow;
  }

  lemma {:induction false} CallRoutine(t: Thread, layout: Layout, f: Target)
    requires Step(t, Calling(f), layout).Failed?
    ensures Step(t, Calling(f), layout).routine == ByVS <==> f == FnVU
  {
    hide SaveGprs, AtCall, AtFunction;
  }

  lemma {:induction false} EcallRoutine(t: Thread, layout: Layout, f: Target)
    requires Step(t, Complete(f), layout).Failed?
    ensures Step(t, Complete(f), layout).routine == ByVS ==> t.priv == U
  {
    hide FrameVS, FrameHS, FrameM, StackBelow, FinishM, FinishHS, FinishVS;
  }

  lemma {:induction false} TopIsCounted(stack: seq<Saved>)
    requires |stack| > 0
    ensures Count(stack, InM(stack[|stack| - 1])) > 0
  {
  }

  /** Every event that fails in a properly nested run, and what its fail routines lead to. In M mode
      the diagnostic ends. In S mode the caller of the innermost run_function_in_smode gets its
      registers and mode back, with DIAG_FAILED, and the S region keeps all frames taken since. In VS
      mode the innermost frame of the S region is taken for that of run_function_in_vsmode. */
  lemma {:induction false} FailureSettles(t: Thread, a: Abstract, layout: Layout, e: Event)
      returns (stack: seq<Saved>)
    requires Refines(t, a, layout) && Nested(a.stack, e) && !CanGo(a, e)
    requires Count(a.stack, false) > 0 || e != Calling(FnVU)
    ensures var s := Step(t, e, layout);
            && FailsTo(s, a, stack, layout)
            && (s.routine == ByVS ==> LastIn(stack, false) >= 0)
            && (s.routine != ByM ==> LastIn(stack, true) >= 0)
            && Settled(s, Settle(s, layout), stack, layout)
  {
    hide Step, Refines, Settled, Settle, LastIn;
    stack := Failing(t, a, layout, e);
    FrameForVS(t, a, layout, e, stack);
    Settles(Step(t, e, layout), a, stack, layout);
  }

  // ---------------------------------------------------------------- after a failure

  /** The stack machine resumed on a stack. */
  function Resumed(r: Thread, stack: seq<Saved>): Abstract {
    Abstract(r.regs, r.pc, SeenOf(r.csr), r.attr.vbit, stack)
  }

  /** After the fail routine of S mode the thread is again in a state of the stack machine, the one
      before the call, if and only if no frame of the S region was taken since the call. Then every
      statement about properly nested runs holds of what follows. */
  lemma {:induction false} GoesOnFromM(t: Thread, r: Thread, stack: seq<Saved>, layout: Layout)
    requires Regions(t, stack, layout) && Where(stack).priv != M
    requires LastIn(stack, true) >= 0 && BackInM(t, r, stack, layout)
    ensures var below := stack[..LastIn(stack, true)];
            Refines(r, Resumed(r, below), layout) <==> Count(below, false) == Count(stack, false)
  {
    hide Stored, Count;
    InnermostCall(t.memory, layout, stack);
    StoredAt(t.memory, layout, stack, LastIn(stack, true));
    CountsBelow(stack, true);
  }

  /** After that of VS mode, if and only if the frame it took was saved in S mode, as the one of
      run_function_in_vsmode is, and no frame of the M region was taken since. */
  lemma {:induction false} GoesOnFromS(t: Thread, r: Thread, stack: seq<Saved>, layout: Layout)
    requires Regions(t, stack, layout)
    requires LastIn(stack, false) >= 0 && BackInS(t, r, stack, layout)
    ensures var below := stack[..LastIn(stack, false)];
            Refines(r, Resumed(r, below), layout)
            <==> Where(below) == Mode(S, false) && Count(below, true) == Count(stack, true)
  {
    hide Stored, Count;
    StoredAt(t.memory, layout, stack, LastIn(stack, false));
    CountsBelow(stack, false);
  }

  // ---------------------------------------------------------------- calls

  /** What a call finds when its function comes to its end: the stack as the call left it. */
  lemma {:induction false} AtTheEnd(t: Thread, a: Abstract, layout: Layout, f: Target, body: seq<Event>)
    requires Refines(t, a, layout) && Nested(a.stack, Calling(f)) && CanGo(a, Calling(f))
    requires Body(AbstractStep(a, Calling(f), layout), body, layout)
    requires CanRun(AbstractStep(a, Calling(f), layout), body, layout)
    requires forall e <- [Calling(f)] + body :: WellFormed(e)
    ensures var u := Run(t, [Calling(f)] + body, layout);
            var b := AbstractRun(AbstractStep(a, Calling(f), layout), body, layout);
            && u.Running? && Refines(u.thread, b, layout) && Nested(b.stack, Complete(f))
            && b.stack == a.stack + [CallFrame(f, AtCall(t.regs, f), Landing(a.seen, f))]
  {
    hide Refines, NestedRun, CanRun, AbstractRun, StaysAbove, Run, AtCall, AtFunction, Called;
    var entered := AbstractStep(a, Calling(f), layout);
    BodyKeeps(entered, body, layout);
    var b := AbstractRun(entered, body, layout);
    StepRefines(t, a, layout, Calling(f));
    var t1 := Step(t, Calling(f), layout).thread;
    assert forall e <- body :: WellFormed(e) by {
      Tail(Calling(f), body);
    }
    RunRefines(t1, entered, layout, body);
    RunsOn(t, layout, Calling(f), body);
    SameRegs(t, a, layout);
    assert entered.stack[..|a.stack|] == a.stack && b.stack[..|a.stack|] == a.stack;
    assert b.stack == b.stack[..|a.stack|] + [b.stack[|a.stack|]];
  }

  lemma {:induction false} Tail(e: Event, body: seq<Event>)
    requires forall x <- [e] + body :: WellFormed(x)
    ensures forall x <- body :: WellFormed(x)
  {
    forall x | x in body
      ensures WellFormed(x)
    {
      assert x in [e] + body;
    }
  }

  lemma {:induction false} RunsOn(t: Thread, layout: Layout, e: Event, body: seq<Event>)
    requires (forall x <- [e] + body :: WellFormed(x)) && (forall x <- body :: WellFormed(x))
    requires WellFormed(e) && Step(t, e, layout).Running?
    ensures Run(t, [e] + body, layout) == Run(Step(t, e, layout).thread, body, layout)
  {
    hide Step;
    assert ([e] + body)[1..] == body;
  }

  lemma {:induction false} SameRegs(t: Thread, a: Abstract, layout: Layout)
    requires Refines(t, a, layout)
    ensures t.regs == a.regs && SeenOf(t.csr) == a.seen && t.csr.delegation == BOOT
  {
  }

  /** A call whose function comes to its end delivers the function's own status if and only if the
      previous-virtualization bit that it returned through was clear and a frame is left for the
      completing system call; with the fail routines taken into account, and for every status but
      the one they deliver themselves. */
  lemma {:induction false} DeliversExactly(t: Thread, a: Abstract, layout: Layout, f: Target, body: seq<Event>)
    requires Refines(t, a, layout) && Nested(a.stack, Calling(f)) && CanGo(a, Calling(f))
    requires Body(AbstractStep(a, Calling(f), layout), body, layout)
    requires CanRun(AbstractStep(a, Calling(f), layout), body, layout)
    requires forall e <- [Calling(f)] + body :: WellFormed(e)
    requires AbstractRun(AbstractStep(a, Calling(f), layout), body, layout).regs[A0] != DIAG_FAILED
    ensures Run(t, [Calling(f)] + body, layout).Running?
    ensures var u := Run(t, [Calling(f)] + body, layout).thread;
            var o := Settle(Step(u, Complete(f), layout), layout);
            var status := AbstractRun(AbstractStep(a, Calling(f), layout), body, layout).regs[A0];
            o.Running? && o.thread.regs[A0] == status
            <==> NoStaleMode(SeenOf(t.csr), Calling(f))
                 && (if f == FnS then t.attr.mLeft else t.attr.sLeft) >= 2
  {
    hide Refines, NestedRun, CanRun, AbstractRun, StaysAbove, Run, AtCall, AtFunction, Step, Settled, FailsTo;
    AtTheEnd(t, a, layout, f, body);
    var u := Run(t, [Calling(f)] + body, layout).thread;
    var b := AbstractRun(AbstractStep(a, Calling(f), layout), body, layout);
    CompletionCanGo(t, a, layout, f, body);
    StepRefines(u, b, layout, Complete(f));
    if CanGo(b, Complete(f)) {
      StatusIs(u, b, layout, f);
    } else {
      var stack := FailureSettles(u, b, layout, Complete(f));
      SettledStatus(Step(u, Complete(f), layout), Settle(Step(u, Complete(f), layout), layout), stack, layout);
    }
  }

  /** When the completing system call has what it needs. */
  lemma {:induction false} CompletionCanGo(t: Thread, a: Abstract, layout: Layout, f: Target, body: seq<Event>)
    requires Refines(t, a, layout) && Nested(a.stack, Calling(f)) && CanGo(a, Calling(f))
    requires Body(AbstractStep(a, Calling(f), layout), body, layout)
    requires CanRun(AbstractStep(a, Calling(f), layout), body, layout)
    requires forall e <- [Calling(f)] + body :: WellFormed(e)
    ensures CanGo(AbstractRun(AbstractStep(a, Calling(f), layout), body, layout), Complete(f))
            <==> NoStaleMode(SeenOf(t.csr), Calling(f))
                 && (if f == FnS then t.attr.mLeft else t.attr.sLeft) >= 2
  {
    hide NestedRun, CanRun, AbstractRun, StaysAbove, Run, AtCall, AtFunction, Stored, Count;
    AtTheEnd(t, a, layout, f, body);
    CountPushed(a.stack, CallFrame(f, AtCall(t.regs, f), Landing(a.seen, f)), f == FnS);
    if f == FnVU {
      StepRefines(t, a, layout, Calling(f));
      BodyKeepsVBit(Step(t, Calling(f), layout).thread, AbstractStep(a, Calling(f), layout), body, layout);
    }
  }

  lemma {:induction false} StatusIs(u: Thread, b: Abstract, layout: Layout, f: Target)
    requires Refines(u, b, layout) && Nested(b.stack, Complete(f)) && CanGo(b, Complete(f))
    ensures Settle(Step(u, Complete(f), layout), layout) == Step(u, Complete(f), layout)
    ensures Step(u, Complete(f), layout).Running? && Step(u, Complete(f), layout).thread.regs[A0] == b.regs[A0]
  {
    hide Step, Regions, CanGo;
    StepRefines(u, b, layout, Complete(f));
  }

  lemma {:induction false} SettledStatus(s: Outcome, o: Outcome, stack: seq<Saved>, layout: Layout)
    requires s.Failed?
    requires s.routine == ByVS ==> LastIn(stack, false) >= 0
    requires s.routine != ByM ==> LastIn(stack, true) >= 0
    requires Settled(s, o, stack, layout)
    ensures o.Running? ==> o.thread.regs[A0] == DIAG_FAILED
  {
    hide Stored, Count;
  }

  // ---------------------------------------------------------------- calls under a left-over virtual mode

  /** The frame of registers at an area. */
  ghost predicate Holds(m: Memory, area: nat, regs: Gprs) {
    forall i :: 0 <= i < GPRS ==> Load(m, area + 8 * i) == Int(regs[i])
  }

  /** run_function_in_smode called with mstatus.MPV set. Its function runs in VS mode; the completing
      system call fails in S mode, whose fail routine completes the call instead. So the caller gets
      its registers, mode and M region back, with DIAG_FAILED for whatever the function returned. But
      the frame that the failing handler took of the S region, with the function's registers, stays
      taken; only if there was none left to take is everything as it was. */
  lemma {:induction false} StaleSmode(t: Thread, a: Abstract, layout: Layout, body: seq<Event>)
    requires Refines(t, a, layout) && Nested(a.stack, Calling(FnS)) && t.csr.mpv && t.attr.mLeft >= 2
    requires Body(AbstractStep(a, Calling(FnS), layout), body, layout)
    requires CanRun(AbstractStep(a, Calling(FnS), layout), body, layout)
    requires forall e <- [Calling(FnS)] + body :: WellFormed(e)
    ensures CanGo(a, Calling(FnS)) && Run(t, [Calling(FnS)] + body, layout).Running?
    ensures var u := Run(t, [Calling(FnS)] + body, layout).thread;
            var s := Step(u, Complete(FnS), layout);
            var o := Settle(s, layout);
            && s.Failed? && s.routine == ByHS && o.Running?
            && var r := o.thread;
            && r.regs == AtCall(t.regs, FnS)[A0 := DIAG_FAILED] && r.pc == layout.resume(FnS)
            && r.priv == t.priv && r.virt == t.virt && r.attr.mode == t.attr.mode && r.attr.vbit == t.attr.vbit
            && r.csr.delegation == BOOT
            && r.attr.mArea == t.attr.mArea && r.attr.mLeft == t.attr.mLeft
            && Stored(r.memory, layout, a.stack)
            && (t.attr.sLeft == 0 ==> r.attr.sArea == t.attr.sArea && r.attr.sLeft == 0)
            && (t.attr.sLeft > 0 ==>
                  && r.attr.sArea == t.attr.sArea + FRAME && r.attr.sLeft == t.attr.sLeft - 1
                  && Holds(r.memory, t.attr.sArea, u.regs))
  {
    hide NestedRun, CanRun, AbstractRun, StaysAbove, Run, AtCall, AtFunction, Step, FailsTo, Stored, Count, Settle,
         FailRoutine, Load;
    StaleCallGoes(t, a, layout);
    AtTheEnd(t, a, layout, FnS, body);
    var u := Run(t, [Calling(FnS)] + body, layout).thread;
    var b := AbstractRun(AbstractStep(a, Calling(FnS), layout), body, layout);
    CompletionCanGo(t, a, layout, FnS, body);
    CountPushed(a.stack, b.stack[|a.stack|], true);
    StaleEnds(u, b, a, layout);
  }

  lemma {:induction false} StaleCallGoes(t: Thread, a: Abstract, layout: Layout)
    requires Refines(t, a, layout) && Nested(a.stack, Calling(FnS)) && t.csr.mpv && t.attr.mLeft >= 2
    ensures CanGo(a, Calling(FnS)) && !NoStaleMode(SeenOf(t.csr), Calling(FnS)) && Landing(a.seen, FnS)
    ensures t.priv == M && !t.virt && t.attr.mode == M && !t.attr.vbit
    ensures t.attr.mArea == Area(layout, a.stack, true) && t.attr.mLeft == MAX_SAVES - Count(a.stack, true)
    ensures t.attr.sArea == Area(layout, a.stack, false) && t.attr.sLeft == MAX_SAVES - Count(a.stack, false)
  {
    hide Stored, Count;
  }

  /** The completing system call of a stale run_function_in_smode, on the stack `a.stack` with that
      call on top. */
  lemma {:induction false} StaleEnds(u: Thread, b: Abstract, a: Abstract, layout: Layout)
    requires Refines(u, b, layout) && Nested(b.stack, Complete(FnS)) && !CanGo(b, Complete(FnS))
    requires |b.stack| == |a.stack| + 1 && b.stack[..|a.stack|] == a.stack && b.stack[|a.stack|].virt
    requires Count(b.stack, true) < MAX_SAVES
    ensures var s := Step(u, Complete(FnS), layout);
            var o := Settle(s, layout);
            && s.Failed? && s.routine == ByHS && o.Running?
            && var r := o.thread;
            && r.regs == b.stack[|a.stack|].regs[A0 := DIAG_FAILED] && r.pc == layout.resume(FnS)
            && r.priv == M && !r.virt && r.attr.mode == M && !r.attr.vbit && r.csr.delegation == BOOT
            && r.attr.mArea == Area(layout, a.stack, true) && r.attr.mLeft == MAX_SAVES - Count(a.stack, true)
            && Stored(r.memory, layout, a.stack)
            && (if Count(a.stack, false) == MAX_SAVES
                then r.attr.sArea == u.attr.sArea && r.attr.sLeft == u.attr.sLeft
                else r.attr.sArea == u.attr.sArea + FRAME && r.attr.sLeft == u.attr.sLeft - 1
                     && Holds(r.memory, u.attr.sArea, u.regs))
            && u.attr.sArea == Area(layout, a.stack, false) && u.attr.sLeft == MAX_SAVES - Count(a.stack, false)
  {
    hide Stored, Step, FailRoutine, Load, Settle, FrameAt, SliceKept;
    var stack := CompletionFails(u, b, layout, FnS);
    var s := Step(u, Complete(FnS), layout);
    StaleStack(b, a, stack);
    SmodeFail(s.thread, stack, layout);
    SettledAtOnce(s, layout);
    if Count(a.stack, false) < MAX_SAVES {
      FrameInSlice(s.thread, FailRoutine(s.thread, ByHS, layout).thread.memory, stack, layout);
    }
  }

  lemma {:induction false} SettledAtOnce(s: Outcome, layout: Layout)
    requires s.Failed? && s.routine == ByHS && FailRoutine(s.thread, ByHS, layout).Running?
    ensures Settle(s, layout) == FailRoutine(s.thread, ByHS, layout)
  {
    hide FailRoutine;
  }

  /** The stale call is the innermost frame of the M region, whether or not the S handler took a frame. */
  lemma {:induction false} StaleStack(b: Abstract, a: Abstract, stack: seq<Saved>)
    requires |b.stack| == |a.stack| + 1 && b.stack[..|a.stack|] == a.stack
    requires b.stack[|a.stack|].CallFrame? && b.stack[|a.stack|].f == FnS
    requires stack == b.stack || HandlerOn(b, stack, ByHS)
    ensures LastIn(stack, true) == |a.stack| && stack[..|a.stack|] == a.stack && stack[|a.stack|] == b.stack[|a.stack|]
    ensures Count(stack, true) == Count(b.stack, true) == Count(a.stack, true) + 1
    ensures Count(b.stack, false) == Count(a.stack, false)
    ensures Count(stack, false) == Count(a.stack, false) + |stack| - |b.stack|
  {
    if stack != b.stack {
      assert stack[..|b.stack|] == b.stack;
      assert stack[..|a.stack|] == stack[..|b.stack|][..|a.stack|];
    }
  }

  /** The innermost S frame of a stack, in memory of which the S slice is kept. */
  lemma {:induction false} FrameInSlice(t: Thread, n: Memory, stack: seq<Saved>, layout: Layout)
    requires Regions(t, stack, layout) && |stack| > 0 && !InM(stack[|stack| - 1])
    requires SliceKept(t.memory, n, layout, false)
    ensures t.attr.sArea == Area(layout, stack[..|stack| - 1], false) + FRAME
    ensures Holds(n, Area(layout, stack[..|stack| - 1], false), stack[|stack| - 1].regs)
  {
    hide Stored, Count, Load;
    Top(t.memory, layout, stack);
  }

  /** The completion of run_function_in_vsmode takes the innermost frame of the S region for its
      caller's, whatever that frame is. */
  lemma {:induction false} CompletionTakesTop(t: Thread, layout: Layout, regs: Gprs)
    requires t.priv == S && t.virt && t.csr.delegation == BOOT && t.attr.sLeft > 0 && t.attr.sArea >= FRAME
    requires Holds(t.memory, t.attr.sArea - FRAME, regs)
    ensures var o := Step(t, Complete(FnVS), layout);
            && o.Running?
            && o.thread.regs == regs[A0 := t.regs[A0]] && o.thread.pc == layout.resume(FnVS)
            && o.thread.priv == S && !o.thread.virt
            && o.thread.attr.sArea == t.attr.sArea - FRAME && o.thread.attr.sLeft == t.attr.sLeft + 1
  {
    hide FrameHS, Load, LoadInt, RestoreGprs, StackBelow, SameOutside, FrameAt;
    var u := TakeTrap(t, ByHS, 0);
    var area := t.attr.sArea - FRAME;
    FrameHSIs(u, t.attr.sArea, Mode(S, true));
    var call := TrapFrame(ByHS, u.regs, u.csr.sepc, SeenOf(u.csr));
    FrameGprs(FrameHS(u), area + FRAME, call, Mode(S, true));
    HoldsOn(t.memory, FrameHS(u), area, regs);
    RestoreDelivered(FrameHS(u), area, regs, t.regs[A0]);
  }

  lemma {:induction false} HoldsOn(m: Memory, n: Memory, area: nat, regs: Gprs)
    requires Holds(m, area, regs) && SameOutside(m, n, area + FRAME)
    ensures Holds(n, area, regs)
  {
    hide Load;
  }

  /** The return of the M handler from which the stale call was made. */
  lemma {:induction false} ReturnsToVS(r: Thread, layout: Layout, stack: seq<Saved>)
    requires layout.Valid() && Stored(r.memory, layout, stack) && |stack| > 1
    requires var n := |stack| - 1;
             && stack[n].TrapFrame? && stack[n].handler == ByM && Where(stack[..n]) == Mode(S, true)
    requires r.attr.mArea == Area(layout, stack, true)
    ensures var o := Step(r, Return(ByM), layout);
            && o.Running?
            && o.thread.regs == stack[|stack| - 1].regs && o.thread.pc == stack[|stack| - 1].epc
            && o.thread.priv == S && o.thread.virt && o.thread.attr.vbit
            && o.thread.memory == r.memory && o.thread.csr.delegation == r.csr.delegation
            && o.thread.attr.sArea == r.attr.sArea && o.thread.attr.sLeft == r.attr.sLeft
  {
    hide RestoreGprs, Stored, Count, Delegable;
    var below := stack[..|stack| - 1];
    Top(r.memory, layout, stack);
    RestoreIs(r.memory, Area(layout, below, true), stack[|stack| - 1], Where(below));
  }

  /** And then the frame that is left over is taken for another's. A VS function was interrupted by a
      trap to M mode, whose handler makes the stale call and returns; the VS function completes. The
      caller of run_function_in_vsmode is resumed with the registers of the stale function, and one
      frame of the S region more is in use than when it called. */
  lemma {:induction false} OrphanIsTaken(t: Thread, a: Abstract, layout: Layout, body: seq<Event>)
    requires Refines(t, a, layout) && Nested(a.stack, Calling(FnS)) && t.csr.mpv && t.attr.mLeft >= 2
    requires t.attr.sLeft >= 2
    requires var n := |a.stack| - 1;
             && n > 0 && a.stack[n].TrapFrame? && a.stack[n].handler == ByM && Where(a.stack[..n]) == Mode(S, true)
    requires Body(AbstractStep(a, Calling(FnS), layout), body, layout)
    requires CanRun(AbstractStep(a, Calling(FnS), layout), body, layout)
    requires forall e <- [Calling(FnS)] + body :: WellFormed(e)
    ensures Run(t, [Calling(FnS)] + body, layout).Running?
    ensures var u := Run(t, [Calling(FnS)] + body, layout).thread;
            var back := Settle(Step(u, Complete(FnS), layout), layout);
            && back.Running?
            && var vs := Step(back.thread, Return(ByM), layout);
            && vs.Running?
            && var end := Step(vs.thread, Complete(FnVS), layout);
            && end.Running? && end.thread.pc == layout.resume(FnVS) && end.thread.priv == S && !end.thread.virt
            && end.thread.regs == u.regs[A0 := a.stack[|a.stack| - 1].regs[A0]]
            && end.thread.attr.sArea == t.attr.sArea && end.thread.attr.sLeft == t.attr.sLeft
  {
    hide NestedRun, CanRun, AbstractRun, StaysAbove, Run, AtCall, AtFunction, Step, Stored, Count, Settle, Holds, Body;
    StaleSmode(t, a, layout, body);
    StaleCallGoes(t, a, layout);
    var u := Run(t, [Calling(FnS)] + body, layout).thread;
    var back := Settle(Step(u, Complete(FnS), layout), layout).thread;
    ReturnsToVS(back, layout, a.stack);
    CompletionTakesTop(Step(back, Return(ByM), layout).thread, layout, u.regs);
  }

  // ---------------------------------------------------------------- the stale call into user mode

  /** run_function_in_umode called with hstatus.SPV set: its function runs in VU mode, the completing
      system call fails in VS mode, and the fail routine's call frees the failing handler's frame, with
      the user function's own registers in it. So S mode goes on at the return point of
      run_function_in_vsmode, on the user function's registers and stack, and the call's frame stays
      taken. With fewer than three frames left the failure goes on into S mode and from there to M. */
  lemma {:induction false} StaleUmode(t: Thread, a: Abstract, layout: Layout, body: seq<Event>)
    requires Refines(t, a, layout) && Nested(a.stack, Calling(FnU)) && t.csr.spv && t.attr.sLeft > 0
    requires Body(AbstractStep(a, Calling(FnU), layout), body, layout)
    requires CanRun(AbstractStep(a, Calling(FnU), layout), body, layout)
    requires forall e <- [Calling(FnU)] + body :: WellFormed(e)
    ensures Run(t, [Calling(FnU)] + body, layout).Running?
    ensures var u := Run(t, [Calling(FnU)] + body, layout).thread;
            var s := Step(u, Complete(FnU), layout);
            var o := Settle(s, layout);
            && s.Failed? && s.routine == ByVS
            && (if t.attr.sLeft >= 3 then
                  && o.Running?
                  && o.thread.regs == u.regs[A0 := DIAG_FAILED] && o.thread.pc == layout.resume(FnVS)
                  && o.thread.priv == S && !o.thread.virt
                  && o.thread.attr.sArea == t.attr.sArea + FRAME && o.thread.attr.sLeft == t.attr.sLeft - 1
                else if o.Running? then o.thread.priv == M && o.thread.pc == layout.resume(FnS)
                else o.routine == ByM)
  {
    hide NestedRun, CanRun, AbstractRun, StaysAbove, Run, AtCall, AtFunction, Step, FailsTo, Stored, Count, Settle,
         Settled;
    StaleUserGoes(t, a, layout);
    AtTheEnd(t, a, layout, FnU, body);
    CompletionCanGo(t, a, layout, FnU, body);
    var u := Run(t, [Calling(FnU)] + body, layout).thread;
    var b := AbstractRun(AbstractStep(a, Calling(FnU), layout), body, layout);
    StaleUserEnds(u, b, a, layout);
  }

  lemma {:induction false} StaleUserGoes(t: Thread, a: Abstract, layout: Layout)
    requires Refines(t, a, layout) && Nested(a.stack, Calling(FnU)) && t.csr.spv && t.attr.sLeft > 0
    ensures CanGo(a, Calling(FnU)) && !NoStaleMode(SeenOf(t.csr), Calling(FnU)) && Landing(a.seen, FnU)
    ensures t.attr.sArea == Area(layout, a.stack, false) && t.attr.sLeft == MAX_SAVES - Count(a.stack, false)
  {
    hide Stored, Count;
  }

  lemma {:induction false} StaleUserEnds(u: Thread, b: Abstract, a: Abstract, layout: Layout)
    requires Refines(u, b, layout) && Nested(b.stack, Complete(FnU)) && !CanGo(b, Complete(FnU))
    requires |b.stack| == |a.stack| + 1 && b.stack[..|a.stack|] == a.stack && b.stack[|a.stack|].virt
    ensures var s := Step(u, Complete(FnU), layout);
            var o := Settle(s, layout);
            var left := MAX_SAVES - Count(a.stack, false);
            && s.Failed? && s.routine == ByVS
            && (if left >= 3 then
                  && o.Running?
                  && o.thread.regs == u.regs[A0 := DIAG_FAILED] && o.thread.pc == layout.resume(FnVS)
                  && o.thread.priv == S && !o.thread.virt
                  && o.thread.attr.sArea == Area(layout, a.stack, false) + FRAME && o.thread.attr.sLeft == left - 1
                else if o.Running? then o.thread.priv == M && o.thread.pc == layout.resume(FnS)
                else o.routine == ByM)
  {
    hide Stored, Step, Settle, Count, FrameAt;
    var stack := CompletionFails(u, b, layout, FnU);
    var s := Step(u, Complete(FnU), layout);
    var below := b.stack[..|a.stack|];
    assert b.stack == a.stack + [b.stack[|a.stack|]];
    CountPushed(a.stack, b.stack[|a.stack|], false);
    if stack != b.stack {
      assert stack == b.stack + [stack[|b.stack|]];
      assert stack[..|b.stack|] == b.stack;
      CountPushed(b.stack, stack[|b.stack|], false);
    }
    Settles(s, b, stack, layout);
  }

  // ---------------------------------------------------------------- from set-up

  /** The handler of the run from set-up, and a call from it that does nothing but complete. */
  lemma {:induction false} InHandler(t: Thread, layout: Layout, h: Handler, f: Target, temps: seq<int>)
      returns (t3: Thread, a3: Abstract)
    requires Fresh(t, layout) && !t.csr.mpv && |temps| == GPRS - T0
    requires (h == ByHS && f == FnU) || (h == ByM && f == FnS)
    ensures forall e <- IntoHandler(h, temps) + [Calling(f)] :: WellFormed(e)
    ensures Refines(t3, a3, layout) && Nested(a3.stack, Calling(f)) && CanGo(a3, Calling(f))
    ensures Run(t, IntoHandler(h, temps) + [Calling(f)], layout) == Run(t3, [Calling(f)] + [], layout)
    ensures Body(AbstractStep(a3, Calling(f), layout), [], layout)
    ensures |a3.stack| == 3 && a3.stack[2].TrapFrame? && a3.stack[2].handler == h
    ensures Where(a3.stack[..2]) == Mode(S, true) && (if h == ByM then t3.csr.mpv else t3.csr.spv)
    ensures t3.attr.mLeft == MAX_SAVES - (if h == ByM then 2 else 1)
    ensures t3.attr.sLeft == MAX_SAVES - (if h == ByM then 1 else 2)
  {
    hide Run, NestedRun, AbstractRun, CanRun, AtCall, AtFunction, Stored, Begin, IntoHandler, Count;
    HandlerIsReachable(t, layout, h, temps);
    HandlerEvents(h, f, temps);
    FreshRefines(t, layout);
    RunInTwo(t, layout, IntoHandler(h, temps), [Calling(f)]);
    RunRefines(t, Begin(t), layout, IntoHandler(h, temps));
    a3 := AbstractRun(Begin(t), IntoHandler(h, temps), layout);
    t3 := Run(t, IntoHandler(h, temps), layout).thread;
    assert [Calling(f)] + [] == [Calling(f)];
    NoBody(AbstractStep(a3, Calling(f), layout), layout);
  }

  lemma {:induction false} NoBody(a: Abstract, layout: Layout)
    requires |a.stack| > 0
    ensures Body(a, [], layout) && CanRun(a, [], layout)
  {
  }

  /** From set-up: a trap from VS mode into M mode, whose handler calls run_function_in_smode. The call
      comes back with DIAG_FAILED; when the handler has returned and the VS function completes, S mode
      goes on with the registers of the function that failed, and although no call is left that has
      not completed, only four frames of the S region are free. */
  lemma {:induction false} StaleSmodeRun(t: Thread, layout: Layout, temps: seq<int>)
    requires Fresh(t, layout) && !t.csr.mpv && |temps| == GPRS - T0
    ensures forall e <- IntoHandler(ByM, temps) + [Calling(FnS)] :: WellFormed(e)
    ensures var u := Run(t, IntoHandler(ByM, temps) + [Calling(FnS)], layout);
            && u.Running?
            && var back := Settle(Step(u.thread, Complete(FnS), layout), layout);
            && back.Running? && back.thread.priv == M && back.thread.pc == layout.resume(FnS)
            && back.thread.regs[A0] == DIAG_FAILED
            && var vs := Step(back.thread, Return(ByM), layout);
            && vs.Running?
            && var end := Step(vs.thread, Complete(FnVS), layout);
            && end.Running? && end.thread.priv == S && !end.thread.virt && end.thread.pc == layout.resume(FnVS)
            && end.thread.regs == u.thread.regs[A0 := vs.thread.regs[A0]]
            && end.thread.attr.sLeft == MAX_SAVES - 1
  {
    hide Run, Step, Settle, IntoHandler, Refines, Fresh, Nested, Body, AtCall, AtFunction, Where, CanGo;
    var t3, a3 := InHandler(t, layout, ByM, FnS, temps);
    var none: seq<Event> := [];
    NoBody(AbstractStep(a3, Calling(FnS), layout), layout);
    StaleSmode(t3, a3, layout, none);
    StaleCallGoes(t3, a3, layout);
    OrphanIsTaken(t3, a3, layout, none);
    ReturnGives(t3, a3, layout);
    var back := Settle(Step(Run(t3, [Calling(FnS)] + none, layout).thread, Complete(FnS), layout), layout).thread;
    ReturnsToVS(back, layout, a3.stack);
  }

  lemma {:induction false} ReturnGives(t: Thread, a: Abstract, layout: Layout)
    requires Refines(t, a, layout)
    ensures layout.Valid() && t.attr.mArea == Area(layout, a.stack, true)
  {
  }

  /** From set-up: a trap from VS mode into S mode, whose handler calls run_function_in_umode. S mode
      goes on at the return point of run_function_in_vsmode with the registers of the user function. */
  lemma {:induction false} StaleUmodeRun(t: Thread, layout: Layout, temps: seq<int>)
    requires Fresh(t, layout) && !t.csr.mpv && |temps| == GPRS - T0
    ensures forall e <- IntoHandler(ByHS, temps) + [Calling(FnU)] :: WellFormed(e)
    ensures var u := Run(t, IntoHandler(ByHS, temps) + [Calling(FnU)], layout);
            && u.Running?
            && var o := Settle(Step(u.thread, Complete(FnU), layout), layout);
            && o.Running? && o.thread.priv == S && !o.thread.virt && o.thread.pc == layout.resume(FnVS)
            && o.thread.regs == u.thread.regs[A0 := DIAG_FAILED]
            && o.thread.attr.sLeft == MAX_SAVES - 3
  {
    hide Run, Step, Settle, IntoHandler, Refines, Fresh, Nested, Body, AtCall, AtFunction, Where, CanGo;
    var t3, a3 := InHandler(t, layout, ByHS, FnU, temps);
    var none: seq<Event> := [];
    NoBody(AbstractStep(a3, Calling(FnU), layout), layout);
    StaleUmode(t3, a3, layout, none);
  }
}
