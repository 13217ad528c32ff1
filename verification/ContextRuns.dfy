/** The save regions implement a stack. An abstract machine keeps the saved contexts on a
    stack, and the mode each of them ran in with it, and knows neither save memory, counters,
    pointers nor the mode field; every properly nested run of the thread of ContextStack does
    what that machine does. */
module ContextRuns {
  import opened ContextStack

  /** What later code can see of the trap registers: the previous-privilege and the two
      previous-virtualization bits that return instructions use, and the trap values. */
  datatype Seen = Seen(spp: bool, spv: bool, mpv: bool, mtval: int, stval: int, vstval: int)

  /** A saved context: of the interrupted code, with what its handler saw on entry, or of the
      caller of a cross-mode call, with the virtual mode in which the function was entered. */
  datatype Saved =
    | TrapFrame(handler: Handler, regs: Gprs, epc: int, seen: Seen)
    | CallFrame(f: Target, regs: Gprs, virt: bool)

  /** The V bit here is the software's own record of it. */
  datatype Abstract = Abstract(regs: Gprs, pc: int, seen: Seen, vbit: bool, stack: seq<Saved>)

  datatype Mode = Mode(priv: Priv, virt: bool)

  function HandlerMode(h: Handler): Mode {
    match h
    case ByM => Mode(M, false)
    case ByHS => Mode(S, false)
    case ByVS => Mode(S, true)
  }

  function TargetMode(f: Target): Mode {
    match f
    case FnS => Mode(S, false)
    case FnU => Mode(U, false)
    case FnVS => Mode(S, true)
    case FnVU => Mode(U, true)
  }

  /** The mode a call is made from. */
  function CallerMode(f: Target): Mode {
    match f
    case FnS => Mode(M, false)
    case FnU | FnVS => Mode(S, false)
    case FnVU => Mode(S, true)
  }

  /** The mode the thread runs in: that of its innermost handler, or the one its innermost called
      function was entered in. */
  function Where(stack: seq<Saved>): Mode {
    if |stack| == 0 then Mode(M, false)
    else match stack[|stack| - 1]
         case TrapFrame(h, _, _, _) => HandlerMode(h)
         case CallFrame(f, _, virt) => Mode(TargetMode(f).priv, virt)
  }

  /** M-mode frames go to the M region; all others share the S region. */
  predicate InM(f: Saved) {
    match f
    case TrapFrame(h, _, _, _) => h == ByM
    case CallFrame(f, _, _) => f == FnS
  }

  function Count(stack: seq<Saved>, inM: bool): nat {
    if |stack| == 0 then 0
    else Count(stack[..|stack| - 1], inM) + (if InM(stack[|stack| - 1]) == inM then 1 else 0)
  }

  /** Which region an event takes a frame of, if any. */
  predicate TakesFrame(e: Event) { e.Trap? || e.Calling? || e.Complete? }

  predicate TakesInM(e: Event)
    requires TakesFrame(e)
  {
    match e
    case Trap(h, _, _, _) => h == ByM
    case Calling(f) => f == FnS
    case Complete(f) => f == FnS
  }

  predicate HasRoom(stack: seq<Saved>, e: Event) {
    TakesFrame(e) ==> Count(stack, TakesInM(e)) < MAX_SAVES
  }

  /** What an event needs: a frame if it takes one, the V bit where VS mode relies on it, and for
      a completion that the function runs in the mode its call names. */
  predicate CanGo(a: Abstract, e: Event) {
    && HasRoom(a.stack, e)
    && match e
       case Trap(h, _, _, _) => h == ByVS ==> a.vbit
       case Calling(f) => f == FnVU ==> a.vbit
       case Complete(f) => Where(a.stack) == TargetMode(f) && (f == FnVU ==> a.vbit)
       case _ => true
  }

  /** Properly nested: traps go where they can be handled, calls are made from the mode they
      are for, and returns and completions match the innermost frame. */
  predicate Nested(stack: seq<Saved>, e: Event) {
    && WellFormed(e)
    && match e
       case Compute(_, _) => true
       case Trap(h, _, _, _) => Delegable(h, Where(stack).priv, Where(stack).virt)
       case SetEpc(h, _) => |stack| > 0 && stack[|stack| - 1].TrapFrame? && stack[|stack| - 1].handler == h
       case Return(h) => |stack| > 0 && stack[|stack| - 1].TrapFrame? && stack[|stack| - 1].handler == h
       case Calling(f) => Where(stack) == CallerMode(f)
       case Complete(f) => |stack| > 0 && stack[|stack| - 1].CallFrame? && stack[|stack| - 1].f == f
  }

  /** Taking a trap from a mode; returning from one; calling; completing a call. */
  function Trapped(s: Seen, h: Handler, tval: int, was: Mode): Seen {
    match h
    case ByM => s.(mpv := was.virt, mtval := tval)
    case ByHS => s.(spp := was.priv == S, spv := was.virt, stval := tval)
    case ByVS => s.(vstval := tval)
  }

  function Returned(s: Seen, h: Handler, entry: Seen): Seen {
    match h
    case ByM => s.(spp := entry.spp, spv := entry.spv, mpv := false, mtval := entry.mtval)
    case ByHS => s.(spp := false, spv := false, stval := entry.stval)
    case ByVS => s.(vstval := entry.vstval)
  }

  function Called(s: Seen, f: Target): Seen {
    match f
    case FnS => s.(mpv := false)
    case FnU | FnVS => s.(spp := false, spv := false)
    case FnVU => s
  }

  function Completed(s: Seen, f: Target): Seen {
    match f
    case FnS => s.(mpv := false, mtval := 0)
    case FnU | FnVS => s.(spp := false, spv := false, stval := 0)
    case FnVU => s.(vstval := 0)
  }

  /** The abstract machine after a handler's entry: the context is pushed, and a handler of a
      trap from user mode is on the stack of the code that called into user mode. */
  function Interrupted(a: Abstract, h: Handler, tval: int): Abstract {
    var seen := Trapped(a.seen, h, tval, Where(a.stack));
    Abstract(if Where(a.stack).priv == U then a.regs[SP := a.stack[|a.stack| - 1].regs[SP]] else a.regs,
             a.pc, seen, h == ByVS && a.vbit, a.stack + [TrapFrame(h, a.regs, a.pc, seen)])
  }

  /** The virtual mode a called function is entered in: the V bit its return instruction finds. */
  predicate Landing(s: Seen, f: Target) {
    match f
    case FnS => s.mpv
    case FnU => s.spv
    case FnVS | FnVU => true
  }

  /** The abstract machine. */
  function AbstractStep(a: Abstract, e: Event, layout: Layout): Abstract
    requires Nested(a.stack, e)
  {
    var n := |a.stack|;
    match e
    case Compute(regs, pc) => a.(regs := regs, pc := pc)
    case Trap(h, tval, temps, pc) =>
      var entered := Interrupted(a, h, tval);
      entered.(regs := Clobber(entered.regs, temps), pc := pc)
    case SetEpc(h, epc) => a.(stack := a.stack[n - 1 := a.stack[n - 1].(epc := epc)])
    case Return(h) =>
      var top, below := a.stack[n - 1], a.stack[..n - 1];
      Abstract(top.regs, top.epc, Returned(a.seen, h, top.seen), if h == ByVS then a.vbit else Where(below).virt,
               below)
    case Calling(f) =>
      Abstract(AtFunction(a.regs, f, layout), a.regs[A0], Called(a.seen, f), a.vbit || f == FnVS,
               a.stack + [CallFrame(f, AtCall(a.regs, f), Landing(a.seen, f))])
    case Complete(f) =>
      Abstract(a.stack[n - 1].regs[A0 := a.regs[A0]], layout.resume(f), Completed(a.seen, f), f == FnVU && a.vbit,
               a.stack[..n - 1])
  }

  /** A call enters the mode it names: no virtual mode is left over from an earlier trap. */
  predicate NoStaleMode(s: Seen, e: Event) {
    && (e == Calling(FnU) ==> !s.spv)
    && (e == Calling(FnS) ==> !s.mpv)
  }

  // ---------------------------------------------------------------- the relation

  function Area(layout: Layout, stack: seq<Saved>, inM: bool): nat {
    (if inM then layout.mStart else layout.sStart) + FRAME * Count(stack, inM)
  }

  /** Frame f, saved on top of `below`, is in memory at `area`. */
  predicate FrameAt(m: Memory, area: nat, f: Saved, below: Mode) {
    && (forall i :: 0 <= i < GPRS ==> Load(m, area + 8 * i) == Int(f.regs[i]))
    && match f
       case CallFrame(_, _, _) => true
       case TrapFrame(ByM, _, epc, seen) =>
         && Load(m, area + EPC) == Int(epc)
         && Load(m, area + TVAL) == Int(seen.mtval)
         && Load(m, area + HSTATUS) == HFlags(seen.spv)
         && Load(m, area + STATUS) == MFlags(seen.spp, below.priv, below.virt)
       case TrapFrame(ByHS, _, epc, seen) =>
         && Load(m, area + EPC) == Int(epc)
         && Load(m, area + TVAL) == Int(seen.stval)
         && Load(m, area + HSTATUS) == HFlags(below.virt)
         && Load(m, area + STATUS) == SFlags(below.priv == S)
       case TrapFrame(ByVS, _, epc, seen) =>
         && Load(m, area + EPC) == Int(epc)
         && Load(m, area + TVAL) == Int(seen.vstval)
         && Load(m, area + STATUS) == SFlags(below.priv == S)
  }

  /** The whole stack is in memory, and every frame was saved where it could be. */
  predicate Stored(m: Memory, layout: Layout, stack: seq<Saved>) {
    |stack| > 0 ==>
      var below, top := stack[..|stack| - 1], stack[|stack| - 1];
      && Stored(m, layout, below)
      && FrameAt(m, Area(layout, below, InM(top)), top, Where(below))
      && (match top
          case TrapFrame(h, _, _, _) => Delegable(h, Where(below).priv, Where(below).virt)
          case CallFrame(f, _, _) => Where(below) == CallerMode(f))
  }

  function SeenOf(c: Csrs): Seen { Seen(c.spp, c.spv, c.mpv, c.mtval, c.stval, c.vstval) }

  /** Counters, pointers and save memory of the thread are those of the stack. */
  predicate Regions(t: Thread, stack: seq<Saved>, layout: Layout) {
    && layout.Valid() && t.csr.delegation == BOOT
    && Count(stack, true) <= MAX_SAVES && Count(stack, false) <= MAX_SAVES
    && t.attr.mLeft == MAX_SAVES - Count(stack, true)
    && t.attr.sLeft == MAX_SAVES - Count(stack, false)
    && t.attr.mArea == Area(layout, stack, true)
    && t.attr.sArea == Area(layout, stack, false)
    && Stored(t.memory, layout, stack)
  }

  /** The thread is in the state the abstract machine is in. */
  predicate Refines(t: Thread, a: Abstract, layout: Layout) {
    && Regions(t, a.stack, layout)
    && t.regs == a.regs && t.pc == a.pc && SeenOf(t.csr) == a.seen
    && Mode(t.priv, t.virt) == Where(a.stack)
    && t.attr.mode == t.priv && t.attr.vbit == a.vbit && (a.vbit ==> t.virt)
  }

  // ---------------------------------------------------------------- save memory

  ghost predicate SameOutside(m: Memory, n: Memory, area: nat) {
    forall x: nat :: x < area || x >= area + FRAME ==> Load(n, x) == Load(m, x)
  }

  lemma {:induction false} SaveGprsIs(m: Memory, area: nat, regs: Gprs, n: nat, x: nat)
    requires n <= GPRS
    ensures x < area || x >= area + 8 * n ==> Load(SaveGprs(m, area, regs, n), x) == Load(m, x)
    ensures forall i :: 0 <= i < n ==> Load(SaveGprs(m, area, regs, n), area + 8 * i) == Int(regs[i])
  {
    if n > 0 {
      SaveGprsIs(m, area, regs, n - 1, x);
    }
  }

  lemma {:induction false} SavedFrame(m: Memory, area: nat, regs: Gprs)
    ensures SameOutside(m, SaveGprs(m, area, regs, GPRS), area)
    ensures forall i :: 0 <= i < GPRS ==> Load(SaveGprs(m, area, regs, GPRS), area + 8 * i) == Int(regs[i])
  {
    hide SaveGprs;
    SaveGprsIs(m, area, regs, GPRS, 0);
    forall x: nat | x < area || x >= area + FRAME
      ensures Load(SaveGprs(m, area, regs, GPRS), x) == Load(m, x)
    {
      SaveGprsIs(m, area, regs, GPRS, x);
    }
  }

  lemma {:induction false} RestoreIs(m: Memory, area: nat, f: Saved, below: Mode)
    requires FrameAt(m, area, f, below)
    ensures RestoreGprs(m, area) == f.regs
  {
  }

  /** Frames of the stack lie below the next free frame of their region and inside their slice. */
  lemma {:induction false} StoredElsewhere(m: Memory, n: Memory, layout: Layout, stack: seq<Saved>, area: nat,
      inM: bool)
    requires layout.Valid() && Stored(m, layout, stack) && SameOutside(m, n, area)
    requires Area(layout, stack, inM) <= area
    requires area + FRAME <= (if inM then layout.mStart else layout.sStart) + MAX_SAVES * FRAME
    requires Count(stack, !inM) <= MAX_SAVES
    ensures Stored(n, layout, stack)
  {
    hide Load;
    if |stack| > 0 {
      var below, top := stack[..|stack| - 1], stack[|stack| - 1];
      StoredElsewhere(m, n, layout, below, area, inM);
      var at := Area(layout, below, InM(top));
      assert at + FRAME <= area || area + FRAME <= at;
      assert forall x: nat :: at <= x < at + FRAME ==> Load(n, x) == Load(m, x);
      assert FrameAt(n, at, top, Where(below));
    }
  }

  /** A new frame written in the next free area. */
  lemma {:induction false} Pushed(m: Memory, n: Memory, layout: Layout, stack: seq<Saved>, f: Saved)
    requires layout.Valid() && Stored(m, layout, stack)
    requires Count(stack, InM(f)) < MAX_SAVES && Count(stack, !InM(f)) <= MAX_SAVES
    requires SameOutside(m, n, Area(layout, stack, InM(f)))
    requires FrameAt(n, Area(layout, stack, InM(f)), f, Where(stack))
    requires match f
             case TrapFrame(h, _, _, _) => Delegable(h, Where(stack).priv, Where(stack).virt)
             case CallFrame(g, _, _) => Where(stack) == CallerMode(g)
    ensures Stored(n, layout, stack + [f])
    ensures Stored(n, layout, stack)
    ensures forall b :: Count(stack + [f], b) == Count(stack, b) + (if InM(f) == b then 1 else 0)
  {
    hide FrameAt, SameOutside;
    StoredElsewhere(m, n, layout, stack, Area(layout, stack, InM(f)), InM(f));
    assert (stack + [f])[..|stack + [f]| - 1] == stack;
  }

  // ---------------------------------------------------------------- traps

  /** Whose stack a handler entered from user mode gets. */
  lemma {:induction false} CallerStack(m: Memory, layout: Layout, stack: seq<Saved>)
    requires Stored(m, layout, stack) && Where(stack).priv == U
    ensures |stack| > 0 && !InM(stack[|stack| - 1])
    ensures StackBelow(m, Area(layout, stack, false)) == stack[|stack| - 1].regs[SP]
  {
    hide Load;
    var below, top := stack[..|stack| - 1], stack[|stack| - 1];
    assert Load(m, Area(layout, below, false) + 8 * SP) == Int(top.regs[SP]);
  }

  /** What the entry code of each handler leaves in memory, after a trap from `was`. */
  lemma {:induction false} FrameMIs(t: Thread, area: nat, was: Mode)
    requires t.attr.mArea == area && t.csr.mpp == was.priv && t.csr.mpv == was.virt
    ensures SameOutside(t.memory, FrameM(t), area)
    ensures FrameAt(FrameM(t), area, TrapFrame(ByM, t.regs, t.csr.mepc, SeenOf(t.csr)), was)
  {
    hide SaveGprs;
    SavedFrame(t.memory, area, t.regs);
  }

  lemma {:induction false} FrameHSIs(t: Thread, area: nat, was: Mode)
    requires t.attr.sArea == area && t.csr.spp == (was.priv == S) && t.csr.spv == was.virt
    ensures SameOutside(t.memory, FrameHS(t), area)
    ensures FrameAt(FrameHS(t), area, TrapFrame(ByHS, t.regs, t.csr.sepc, SeenOf(t.csr)), was)
  {
    hide SaveGprs;
    SavedFrame(t.memory, area, t.regs);
  }

  lemma {:induction false} FrameVSIs(t: Thread, area: nat, was: Mode)
    requires t.attr.sArea == area && t.csr.vsSpp == (was.priv == S)
    ensures SameOutside(t.memory, FrameVS(t), area)
    ensures FrameAt(FrameVS(t), area, TrapFrame(ByVS, t.regs, t.csr.vsepc, SeenOf(t.csr)), was)
  {
    hide SaveGprs;
    SavedFrame(t.memory, area, t.regs);
  }

  lemma {:induction false} EnterMPushes(t: Thread, a: Abstract, layout: Layout, tval: int)
    requires Refines(t, a, layout) && Delegable(ByM, t.priv, t.virt) && Count(a.stack, true) < MAX_SAVES
    ensures var o := Enter(TakeTrap(t, ByM, tval), ByM);
            && o.Running? && Refines(o.thread, Interrupted(a, ByM, tval), layout)
            && SameOutside(t.memory, o.thread.memory, t.attr.mArea)
  {
    hide Load, SaveGprs, Stored, FrameAt, SameOutside, StackBelow, Count;
    var u := TakeTrap(t, ByM, tval);
    var m := FrameM(u);
    FrameMIs(u, t.attr.mArea, Where(a.stack));
    Pushed(t.memory, m, layout, a.stack, TrapFrame(ByM, t.regs, t.pc, SeenOf(u.csr)));
    if t.priv == U {
      CallerStack(m, layout, a.stack);
    }
  }

  lemma {:induction false} EnterHSPushes(t: Thread, a: Abstract, layout: Layout, tval: int)
    requires Refines(t, a, layout) && Delegable(ByHS, t.priv, t.virt) && Count(a.stack, false) < MAX_SAVES
    ensures var o := Enter(TakeTrap(t, ByHS, tval), ByHS);
            && o.Running? && Refines(o.thread, Interrupted(a, ByHS, tval), layout)
            && SameOutside(t.memory, o.thread.memory, t.attr.sArea)
  {
    hide Load, SaveGprs, Stored, FrameAt, SameOutside, StackBelow, Count;
    var u := TakeTrap(t, ByHS, tval);
    var m := FrameHS(u);
    FrameHSIs(u, t.attr.sArea, Where(a.stack));
    Pushed(t.memory, m, layout, a.stack, TrapFrame(ByHS, t.regs, t.pc, SeenOf(u.csr)));
    if t.priv == U {
      CallerStack(m, layout, a.stack);
    }
  }

  lemma {:induction false} EnterVSPushes(t: Thread, a: Abstract, layout: Layout, tval: int)
    requires Refines(t, a, layout) && Delegable(ByVS, t.priv, t.virt) && Count(a.stack, false) < MAX_SAVES
    ensures var o := Enter(TakeTrap(t, ByVS, tval), ByVS);
            && o.Running? && Refines(o.thread, Interrupted(a, ByVS, tval), layout)
            && SameOutside(t.memory, o.thread.memory, t.attr.sArea)
  {
    hide Load, SaveGprs, Stored, FrameAt, SameOutside, StackBelow, Count;
    var u := TakeTrap(t, ByVS, tval);
    var m := FrameVS(u);
    FrameVSIs(u, t.attr.sArea, Where(a.stack));
    Pushed(t.memory, m, layout, a.stack, TrapFrame(ByVS, t.regs, t.pc, SeenOf(u.csr)));
    if t.priv == U {
      CallerStack(m, layout, a.stack);
    }
  }

  // ---------------------------------------------------------------- returns

  /** The innermost frame of a stored stack. */
  lemma {:induction false} Top(m: Memory, layout: Layout, stack: seq<Saved>)
    requires Stored(m, layout, stack) && |stack| > 0
    ensures var below, top := stack[..|stack| - 1], stack[|stack| - 1];
            && Stored(m, layout, below)
            && FrameAt(m, Area(layout, below, InM(top)), top, Where(below))
            && (forall b :: Count(stack, b) == Count(below, b) + (if InM(top) == b then 1 else 0))
            && Area(layout, stack, InM(top)) == Area(layout, below, InM(top)) + FRAME
            && Area(layout, stack, !InM(top)) == Area(layout, below, !InM(top))
            && (top.CallFrame? ==> Where(below) == CallerMode(top.f))
  {
  }

  /** The mode below a handler's frame: one the handler takes traps from. */
  lemma {:induction false} ModeBelow(layout: Layout, m: Memory, stack: seq<Saved>)
    requires Stored(m, layout, stack) && |stack| > 0 && stack[|stack| - 1].TrapFrame?
    ensures var was, h := Where(stack[..|stack| - 1]), stack[|stack| - 1].handler;
            && (was.priv == M ==> !was.virt)
            && (h != ByM ==> was.priv != M)
            && (h == ByVS ==> was.virt)
  {
  }

  lemma {:induction false} ReturnMPops(t: Thread, a: Abstract, layout: Layout)
    requires Refines(t, a, layout) && Nested(a.stack, Return(ByM))
    ensures Step(t, Return(ByM), layout).Running?
    ensures Refines(Step(t, Return(ByM), layout).thread, AbstractStep(a, Return(ByM), layout), layout)
  {
    hide RestoreGprs, Stored, Count, Delegable;
    var below := a.stack[..|a.stack| - 1];
    Top(t.memory, layout, a.stack);
    RestoreIs(t.memory, Area(layout, below, true), a.stack[|a.stack| - 1], Where(below));
    ModeBelow(layout, t.memory, a.stack);
  }

  lemma {:induction false} ReturnHSPops(t: Thread, a: Abstract, layout: Layout)
    requires Refines(t, a, layout) && Nested(a.stack, Return(ByHS))
    ensures Step(t, Return(ByHS), layout).Running?
    ensures Refines(Step(t, Return(ByHS), layout).thread, AbstractStep(a, Return(ByHS), layout), layout)
  {
    hide RestoreGprs, Stored, Count, Delegable;
    var below := a.stack[..|a.stack| - 1];
    Top(t.memory, layout, a.stack);
    RestoreIs(t.memory, Area(layout, below, false), a.stack[|a.stack| - 1], Where(below));
    ModeBelow(layout, t.memory, a.stack);
  }

  lemma {:induction false} ReturnVSPops(t: Thread, a: Abstract, layout: Layout)
    requires Refines(t, a, layout) && Nested(a.stack, Return(ByVS))
    ensures Step(t, Return(ByVS), layout).Running?
    ensures Refines(Step(t, Return(ByVS), layout).thread, AbstractStep(a, Return(ByVS), layout), layout)
  {
    hide RestoreGprs, Stored, Count, Delegable;
    var below := a.stack[..|a.stack| - 1];
    Top(t.memory, layout, a.stack);
    RestoreIs(t.memory, Area(layout, below, false), a.stack[|a.stack| - 1], Where(below));
    ModeBelow(layout, t.memory, a.stack);
  }

  // ---------------------------------------------------------------- calls

  lemma {:induction false} CallPushes(t: Thread, a: Abstract, layout: Layout, f: Target)
    requires Refines(t, a, layout) && Nested(a.stack, Calling(f)) && CanGo(a, Calling(f))
    ensures Step(t, Calling(f), layout).Running?
    ensures Refines(Step(t, Calling(f), layout).thread, AbstractStep(a, Calling(f), layout), layout)
  {
    hide Load, SaveGprs, Stored, FrameAt, SameOutside, Count, AtFunction, AtCall;
    var area := if f == FnS then t.attr.mArea else t.attr.sArea;
    var frame := CallFrame(f, AtCall(t.regs, f), Landing(a.seen, f));
    SavedCall(t.memory, area, frame, Where(a.stack));
    Pushed(t.memory, SaveGprs(t.memory, area, frame.regs, GPRS), layout, a.stack, frame);
  }

  lemma {:induction false} SavedCall(m: Memory, area: nat, call: Saved, was: Mode)
    requires call.CallFrame?
    ensures SameOutside(m, SaveGprs(m, area, call.regs, GPRS), area)
    ensures FrameAt(SaveGprs(m, area, call.regs, GPRS), area, call, was)
  {
    hide SaveGprs, Load;
    SavedFrame(m, area, call.regs);
  }

  // ---------------------------------------------------------------- completions

  /** A frame whose a0 has been overwritten restores the same registers but for that. */
  lemma {:induction false} RestoreDelivered(m: Memory, area: nat, regs: Gprs, a0: int)
    requires forall i :: 0 <= i < GPRS ==> Load(m, area + 8 * i) == Int(regs[i])
    ensures RestoreGprs(m[area + 8 * A0 := Int(a0)], area) == regs[A0 := a0]
  {
    var changed := m[area + 8 * A0 := Int(a0)];
    var restored := RestoreGprs(changed, area);
    forall i | 0 <= i < GPRS
      ensures restored[i] == regs[A0 := a0][i]
    {
      assert LoadInt(changed, area + 8 * i) == if i == A0 then a0 else LoadInt(m, area + 8 * i);
    }
  }

  /** The frames of a call and of the trap above it. */
  lemma {:induction false} TopTwo(m: Memory, layout: Layout, below: seq<Saved>, call: Saved, trap: Saved)
    requires InM(call) == InM(trap) && call.CallFrame?
    requires Stored(m, layout, below + [call] + [trap])
    ensures var area := Area(layout, below, InM(call));
            && Stored(m, layout, below)
            && FrameAt(m, area, call, Where(below))
            && FrameAt(m, area + FRAME, trap, Where(below + [call]))
            && Area(layout, below + [call] + [trap], InM(call)) == area + 2 * FRAME
            && Where(below) == CallerMode(call.f)
  {
    hide Stored, Count, FrameAt, Load;
    assert (below + [call] + [trap])[..|below| + 1] == below + [call];
    assert (below + [call])[..|below|] == below;
    Top(m, layout, below + [call] + [trap]);
    Top(m, layout, below + [call]);
  }

  lemma {:induction false} FrameGprs(m: Memory, area: nat, f: Saved, below: Mode)
    requires FrameAt(m, area, f, below)
    ensures forall i :: 0 <= i < GPRS ==> Load(m, area + 8 * i) == Int(f.regs[i])
    ensures LoadInt(m, area + 8 * A0) == f.regs[A0]
  {
  }

  lemma {:induction false} OneWordChanged(m: Memory, a: nat, w: Word, area: nat)
    requires area <= a < area + FRAME
    ensures SameOutside(m, m[a := w], area)
  {
  }

  /** The two frames a completion frees: the callee's a0 goes from the upper into the lower. */
  lemma {:induction false} Delivered(m: Memory, layout: Layout, below: seq<Saved>, call: Saved, trap: Saved)
    requires layout.Valid() && InM(call) == InM(trap) && call.CallFrame?
    requires Stored(m, layout, below + [call] + [trap])
    requires Count(below, InM(call)) < MAX_SAVES && Count(below, !InM(call)) <= MAX_SAVES
    ensures var area := Area(layout, below, InM(call));
            && Area(layout, below + [call] + [trap], InM(call)) == area + 2 * FRAME
            && LoadInt(m, area + FRAME + 8 * A0) == trap.regs[A0]
            && RestoreGprs(m[area + 8 * A0 := Int(trap.regs[A0])], area) == call.regs[A0 := trap.regs[A0]]
            && Stored(m[area + 8 * A0 := Int(trap.regs[A0])], layout, below)
            && Where(below) == CallerMode(call.f)
  {
    hide Stored, Count, FrameAt, Load, LoadInt, RestoreGprs, SameOutside;
    var area := Area(layout, below, InM(call));
    TopTwo(m, layout, below, call, trap);
    FrameGprs(m, area, call, Where(below));
    FrameGprs(m, area + FRAME, trap, Where(below + [call]));
    RestoreDelivered(m, area, call.regs, trap.regs[A0]);
    var word := Int(trap.regs[A0]);
    OneWordChanged(m, area + 8 * A0, word, area);
    StoredElsewhere(m, m[area + 8 * A0 := word], layout, below, area, InM(call));
  }

  /** Room below two frames of the same region. */
  lemma {:induction false} TwoFrames(m: Memory, layout: Layout, below: seq<Saved>, call: Saved, trap: Saved)
    requires InM(call) == InM(trap)
    ensures forall b :: Count(below + [call] + [trap], b) == Count(below, b) + (if InM(call) == b then 2 else 0)
  {
    assert (below + [call] + [trap])[..|below| + 1] == below + [call];
    assert (below + [call])[..|below|] == below;
  }

  /** The completion code itself leaves the trap value of its handler. */
  function Freed(s: Seen, f: Target): Seen {
    match f
    case FnS => s.(mpv := false)
    case FnU | FnVS => s.(spp := false, spv := false)
    case FnVU => s
  }

  lemma {:induction false} FinishMPops(u: Thread, layout: Layout, a: Abstract, below: seq<Saved>, call: Saved,
      trap: Saved)
    requires call.CallFrame? && call.f == FnS
    requires a.stack == below + [call] + [trap] && trap.TrapFrame? && trap.handler == ByM
    requires Refines(u, a, layout) && !a.vbit
    ensures u.attr.mArea >= 2 * FRAME
    ensures FinishM(u, layout.resume(call.f)).memory
            == u.memory[Area(layout, below, true) + 8 * A0 := Int(trap.regs[A0])]
    ensures var regs, resume := call.regs[A0 := trap.regs[A0]], layout.resume(call.f);
            Refines(FinishM(u, resume),
                    Abstract(regs, resume, Freed(a.seen, call.f), false, below), layout)
  {
    hide LoadInt, RestoreGprs, Stored, Count;
    assert Where(a.stack) == HandlerMode(ByM);
    TwoFrames(u.memory, layout, below, call, trap);
    Delivered(u.memory, layout, below, call, trap);
  }

  lemma {:induction false} FinishHSPops(u: Thread, layout: Layout, a: Abstract, below: seq<Saved>, call: Saved,
      trap: Saved)
    requires call.CallFrame? && (call.f == FnU || call.f == FnVS)
    requires a.stack == below + [call] + [trap] && trap.TrapFrame? && trap.handler == ByHS
    requires Refines(u, a, layout) && !a.vbit && a.seen.spv == (call.f == FnVS)
    ensures u.attr.sArea >= 2 * FRAME
    ensures FinishHS(u, layout.resume(call.f), call.f == FnVS).memory
            == u.memory[Area(layout, below, false) + 8 * A0 := Int(trap.regs[A0])]
    ensures var regs, resume := call.regs[A0 := trap.regs[A0]], layout.resume(call.f);
            Refines(FinishHS(u, resume, call.f == FnVS),
                    Abstract(regs, resume, Freed(a.seen, call.f), false, below), layout)
  {
    hide LoadInt, RestoreGprs, Stored, Count;
    assert Where(a.stack) == HandlerMode(ByHS);
    TwoFrames(u.memory, layout, below, call, trap);
    Delivered(u.memory, layout, below, call, trap);
  }

  lemma {:induction false} FinishVSPops(u: Thread, layout: Layout, a: Abstract, below: seq<Saved>, call: Saved,
      trap: Saved)
    requires call.CallFrame? && call.f == FnVU
    requires a.stack == below + [call] + [trap] && trap.TrapFrame? && trap.handler == ByVS
    requires Refines(u, a, layout)
    ensures u.attr.sArea >= 2 * FRAME
    ensures FinishVS(u, layout.resume(call.f)).memory
            == u.memory[Area(layout, below, false) + 8 * A0 := Int(trap.regs[A0])]
    ensures var regs, resume := call.regs[A0 := trap.regs[A0]], layout.resume(call.f);
            Refines(FinishVS(u, resume),
                    Abstract(regs, resume, Freed(a.seen, call.f), a.vbit, below), layout)
  {
    hide LoadInt, RestoreGprs, Stored, Count;
    assert Where(a.stack) == HandlerMode(ByVS);
    TwoFrames(u.memory, layout, below, call, trap);
    Delivered(u.memory, layout, below, call, trap);
  }

  /** Which handler a function in its own mode completes through. */
  function CompletedBy(f: Target): Handler {
    match f
    case FnS => ByM
    case FnU | FnVS => ByHS
    case FnVU => ByVS
  }

  /** The completing system call of a function reaches the one handler that knows it exactly when
      the function runs in the mode its call names. */
  lemma {:induction false} Completing(t: Thread, a: Abstract, layout: Layout, f: Target)
    requires Refines(t, a, layout) && Nested(a.stack, Complete(f))
    ensures Answers(EcallHandler(t.priv, t.virt, BOOT), t.priv, f) <==> Mode(t.priv, t.virt) == TargetMode(f)
    ensures Mode(t.priv, t.virt) == TargetMode(f) ==>
              EcallHandler(t.priv, t.virt, BOOT) == CompletedBy(f) && Delegable(CompletedBy(f), t.priv, t.virt)
  {
  }

  lemma {:induction false} CompleteMPops(t: Thread, a: Abstract, layout: Layout, f: Target)
    requires CompletedBy(f) == ByM
    requires Refines(t, a, layout) && Nested(a.stack, Complete(f)) && CanGo(a, Complete(f))
    ensures Step(t, Complete(f), layout).Running?
    ensures Refines(Step(t, Complete(f), layout).thread, AbstractStep(a, Complete(f), layout), layout)
  {
    hide Stored, Count, Enter, TakeTrap, FinishM, FinishHS, FinishVS, Load, FrameAt;
    Completing(t, a, layout, f);
    EnterMPushes(t, a, layout, 0);
    var below, call := a.stack[..|a.stack| - 1], a.stack[|a.stack| - 1];
    assert a.stack == below + [call];
    var u, entered := Enter(TakeTrap(t, ByM, 0), ByM).thread, Interrupted(a, ByM, 0);
    FinishMPops(u, layout, entered, below, call, TrapFrame(ByM, a.regs, a.pc, entered.seen));
  }

  lemma {:induction false} CompleteHSPops(t: Thread, a: Abstract, layout: Layout, f: Target)
    requires CompletedBy(f) == ByHS
    requires Refines(t, a, layout) && Nested(a.stack, Complete(f)) && CanGo(a, Complete(f))
    ensures Step(t, Complete(f), layout).Running?
    ensures Refines(Step(t, Complete(f), layout).thread, AbstractStep(a, Complete(f), layout), layout)
  {
    hide Stored, Count, Enter, TakeTrap, FinishM, FinishHS, FinishVS, Load, FrameAt;
    Completing(t, a, layout, f);
    EnterHSPushes(t, a, layout, 0);
    var below, call := a.stack[..|a.stack| - 1], a.stack[|a.stack| - 1];
    assert a.stack == below + [call];
    var u, entered := Enter(TakeTrap(t, ByHS, 0), ByHS).thread, Interrupted(a, ByHS, 0);
    FinishHSPops(u, layout, entered, below, call, TrapFrame(ByHS, a.regs, a.pc, entered.seen));
  }

  lemma {:induction false} CompleteVSPops(t: Thread, a: Abstract, layout: Layout, f: Target)
    requires CompletedBy(f) == ByVS
    requires Refines(t, a, layout) && Nested(a.stack, Complete(f)) && CanGo(a, Complete(f))
    ensures Step(t, Complete(f), layout).Running?
    ensures Refines(Step(t, Complete(f), layout).thread, AbstractStep(a, Complete(f), layout), layout)
  {
    hide Stored, Count, Enter, TakeTrap, FinishM, FinishHS, FinishVS, Load, FrameAt;
    Completing(t, a, layout, f);
    EnterVSPushes(t, a, layout, 0);
    var below, call := a.stack[..|a.stack| - 1], a.stack[|a.stack| - 1];
    assert a.stack == below + [call];
    var u, entered := Enter(TakeTrap(t, ByVS, 0), ByVS).thread, Interrupted(a, ByVS, 0);
    FinishVSPops(u, layout, entered, below, call, TrapFrame(ByVS, a.regs, a.pc, entered.seen));
  }

  // ---------------------------------------------------------------- one step

  lemma {:induction false} TrapPushes(t: Thread, a: Abstract, layout: Layout, e: Event)
    requires Refines(t, a, layout) && e.Trap? && Nested(a.stack, e) && CanGo(a, e)
    ensures Step(t, e, layout).Running?
    ensures Refines(Step(t, e, layout).thread, AbstractStep(a, e, layout), layout)
  {
    hide Stored, Count, Enter, TakeTrap, SameOutside;
    match e.handler {
      case ByM => EnterMPushes(t, a, layout, e.tval);
      case ByHS => EnterHSPushes(t, a, layout, e.tval);
      case ByVS => EnterVSPushes(t, a, layout, e.tval);
    }
  }

  /** What a handler starts with: its own mode, the s registers of the interrupted code, and its stack
      pointer or, after a trap from user mode, that of the code which called into user mode. */
  lemma {:induction false} TrapRegisters(t: Thread, a: Abstract, layout: Layout, e: Event)
    requires Refines(t, a, layout) && e.Trap? && Nested(a.stack, e) && CanGo(a, e)
    ensures Step(t, e, layout).Running? && (t.priv == U ==> |a.stack| > 0)
    ensures var u := Step(t, e, layout).thread;
            && u.pc == e.pc
            && u.priv == (if e.handler == ByM then M else S) && (u.virt <==> e.handler == ByVS)
            && (forall i :: S0 <= i < T0 ==> u.regs[i] == t.regs[i])
            && (forall i :: T0 <= i < GPRS ==> u.regs[i] == e.temps[i - T0])
            && u.regs[SP] == if t.priv == U then a.stack[|a.stack| - 1].regs[SP] else t.regs[SP]
  {
    hide Stored, Count, Step;
    TrapPushes(t, a, layout, e);
  }

  lemma {:induction false} SetEpcKeeps(t: Thread, a: Abstract, layout: Layout, e: Event)
    requires Refines(t, a, layout) && e.SetEpc? && Nested(a.stack, e)
    ensures Step(t, e, layout).Running?
    ensures Refines(Step(t, e, layout).thread, AbstractStep(a, e, layout), layout)
  {
    hide Stored, Count, FrameAt, Load, SameOutside;
    var top := a.stack[|a.stack| - 1];
    var area := Area(layout, a.stack[..|a.stack| - 1], InM(top));
    var m := t.memory[area + EPC := Int(e.epc)];
    Top(t.memory, layout, a.stack);
    EpcFrame(t.memory, layout, a.stack, e.epc);
    ReplaceTop(m, layout, a.stack, top.(epc := e.epc));
  }

  /** Writing the saved return address changes nothing else of the stack. */
  lemma {:induction false} EpcFrame(m: Memory, layout: Layout, stack: seq<Saved>, epc: int)
    requires layout.Valid() && |stack| > 0 && stack[|stack| - 1].TrapFrame? && Stored(m, layout, stack)
    requires Count(stack, true) <= MAX_SAVES && Count(stack, false) <= MAX_SAVES
    ensures var top, below := stack[|stack| - 1], stack[..|stack| - 1];
            var area := Area(layout, below, InM(top));
            var changed := m[area + EPC := Int(epc)];
            && Stored(changed, layout, below)
            && FrameAt(changed, area, top.(epc := epc), Where(below))
            && Delegable(top.handler, Where(below).priv, Where(below).virt)
  {
    hide Stored, Count;
    var top, below := stack[|stack| - 1], stack[..|stack| - 1];
    var area := Area(layout, below, InM(top));
    Top(m, layout, stack);
    StoredElsewhere(m, m[area + EPC := Int(epc)], layout, below, area, InM(top));
    ModeBelow(layout, m, stack);
  }

  lemma {:induction false} ReplaceTop(m: Memory, layout: Layout, stack: seq<Saved>, top: Saved)
    requires |stack| > 0 && Stored(m, layout, stack[..|stack| - 1])
    requires var prev, below := stack[|stack| - 1], stack[..|stack| - 1];
             && prev.TrapFrame? && top.TrapFrame? && top == prev.(epc := top.epc)
             && FrameAt(m, Area(layout, below, InM(top)), top, Where(below))
             && Delegable(top.handler, Where(below).priv, Where(below).virt)
    ensures Stored(m, layout, stack[|stack| - 1 := top])
    ensures forall b :: Count(stack[|stack| - 1 := top], b) == Count(stack, b)
  {
    assert stack[|stack| - 1 := top][..|stack| - 1] == stack[..|stack| - 1];
  }

  /** A properly nested event: the thread fails exactly when the event lacks what it needs, and
      otherwise does what the stack machine does. */
  lemma {:induction false} StepRefines(t: Thread, a: Abstract, layout: Layout, e: Event)
    requires Refines(t, a, layout) && Nested(a.stack, e)
    ensures Step(t, e, layout).Running? <==> CanGo(a, e)
    ensures Step(t, e, layout).Running? ==>
              Refines(Step(t, e, layout).thread, AbstractStep(a, e, layout), layout)
  {
    hide Refines, AbstractStep, Step, Nested, CanGo;
    if !CanGo(a, e) {
      Hindered(t, a, layout, e);
    } else {
      match e {
        case Compute(_, _) => ComputeKeeps(t, a, layout, e);
        case Trap(_, _, _, _) => TrapPushes(t, a, layout, e);
        case SetEpc(_, _) => SetEpcKeeps(t, a, layout, e);
        case Return(h) =>
          match h {
            case ByM => ReturnMPops(t, a, layout);
            case ByHS => ReturnHSPops(t, a, layout);
            case ByVS => ReturnVSPops(t, a, layout);
          }
        case Calling(f) => CallPushes(t, a, layout, f);
        case Complete(f) =>
          match CompletedBy(f) {
            case ByM => CompleteMPops(t, a, layout, f);
            case ByHS => CompleteHSPops(t, a, layout, f);
            case ByVS => CompleteVSPops(t, a, layout, f);
          }
      }
    }
  }

  lemma {:induction false} Hindered(t: Thread, a: Abstract, layout: Layout, e: Event)
    requires Refines(t, a, layout) && Nested(a.stack, e) && !CanGo(a, e)
    ensures Step(t, e, layout).Failed?
  {
    hide Stored, Count, FrameM, FrameHS, FrameVS, StackBelow, SaveGprs, AtFunction;
    if e.Complete? {
      Completing(t, a, layout, e.f);
    }
  }

  lemma {:induction false} ComputeKeeps(t: Thread, a: Abstract, layout: Layout, e: Event)
    requires Refines(t, a, layout) && Nested(a.stack, e) && e.Compute?
    ensures Step(t, e, layout).Running?
    ensures Refines(Step(t, e, layout).thread, AbstractStep(a, e, layout), layout)
  {
    hide Stored, Count;
  }

  // ---------------------------------------------------------------- runs

  function Run(t: Thread, events: seq<Event>, layout: Layout): Outcome
    requires forall e <- events :: WellFormed(e)
    decreases |events|
  {
    if |events| == 0 then Running(t)
    else
      var o := Step(t, events[0], layout);
      if o.Failed? then o else Run(o.thread, events[1..], layout)
  }

  /** Every event of the run is properly nested. */
  predicate NestedRun(a: Abstract, events: seq<Event>, layout: Layout)
    decreases |events|
  {
    |events| > 0 ==>
      Nested(a.stack, events[0]) && NestedRun(AbstractStep(a, events[0], layout), events[1..], layout)
  }

  function AbstractRun(a: Abstract, events: seq<Event>, layout: Layout): Abstract
    requires NestedRun(a, events, layout)
    decreases |events|
  {
    if |events| == 0 then a else AbstractRun(AbstractStep(a, events[0], layout), events[1..], layout)
  }

  /** Every event of the run has what it needs. */
  predicate CanRun(a: Abstract, events: seq<Event>, layout: Layout)
    requires NestedRun(a, events, layout)
    decreases |events|
  {
    |events| > 0 ==>
      CanGo(a, events[0]) && CanRun(AbstractStep(a, events[0], layout), events[1..], layout)
  }

  /** Every call of the run enters the mode it names. */
  predicate FreshRun(a: Abstract, events: seq<Event>, layout: Layout)
    requires NestedRun(a, events, layout)
    decreases |events|
  {
    |events| > 0 ==>
      NoStaleMode(a.seen, events[0]) && FreshRun(AbstractStep(a, events[0], layout), events[1..], layout)
  }

  lemma {:induction false} NestedIsWellFormed(a: Abstract, events: seq<Event>, layout: Layout)
    requires NestedRun(a, events, layout)
    ensures forall e <- events :: WellFormed(e)
    decreases |events|
  {
    if |events| > 0 {
      NestedIsWellFormed(AbstractStep(a, events[0], layout), events[1..], layout);
    }
  }

  /** Every properly nested run, of any length and at every point: the thread fails exactly when
      an event lacks what it needs, and otherwise its registers, mode, V bit, counters, pointers
      and save memory are those of the stack machine. */
  lemma {:induction false} RunRefines(t: Thread, a: Abstract, layout: Layout, events: seq<Event>)
    requires Refines(t, a, layout) && NestedRun(a, events, layout)
    requires forall e <- events :: WellFormed(e)
    ensures Run(t, events, layout).Running? <==> CanRun(a, events, layout)
    ensures Run(t, events, layout).Running? ==>
              Refines(Run(t, events, layout).thread, AbstractRun(a, events, layout), layout)
    decreases |events|
  {
    hide Refines, AbstractStep, Step, Nested, CanGo;
    if |events| > 0 {
      StepRefines(t, a, layout, events[0]);
      if CanGo(a, events[0]) {
        RunRefines(Step(t, events[0], layout).thread, AbstractStep(a, events[0], layout), layout, events[1..]);
      }
    }
  }

  /** The thread attributes as set up for a CPU, before anything is saved, and the delegation as
      M mode sets it up. */
  predicate Fresh(t: Thread, layout: Layout) {
    && layout.Valid()
    && t.priv == M && !t.virt && t.attr.mode == M && !t.attr.vbit && t.csr.delegation == BOOT
    && t.attr.mLeft == MAX_SAVES && t.attr.sLeft == MAX_SAVES
    && t.attr.mArea == layout.mStart && t.attr.sArea == layout.sStart
  }

  /** Nothing saved yet. */
  function Begin(t: Thread): Abstract { Abstract(t.regs, t.pc, SeenOf(t.csr), t.attr.vbit, []) }

  /** In every run the save pointers are where the counters say, and inside the thread's slices; the
      mode field is the hardware's mode and the V bit is set only in a virtual mode. */
  lemma {:induction false} PointersFollowCounters(t: Thread, layout: Layout, events: seq<Event>)
    requires Fresh(t, layout) && NestedRun(Begin(t), events, layout)
    requires forall e <- events :: WellFormed(e)
    requires Run(t, events, layout).Running?
    ensures var r := Run(t, events, layout).thread;
            && r.attr.mLeft <= 5 && r.attr.sLeft <= 5
            && r.attr.mArea == layout.mStart + (5 - r.attr.mLeft) * 264
            && r.attr.sArea == layout.sStart + (5 - r.attr.sLeft) * 264
            && r.attr.mode == r.priv && (r.attr.vbit ==> r.virt)
  {
    hide Stored, Count, Run, NestedRun, AbstractRun, CanRun;
    var a := Begin(t);
    FreshRefines(t, layout);
    RunRefines(t, a, layout, events);
  }

  lemma {:induction false} FreshRefines(t: Thread, layout: Layout)
    requires Fresh(t, layout)
    ensures Refines(t, Begin(t), layout)
  {
  }

  // ---------------------------------------------------------------- containment

  /** The addresses of this thread's slices of the two save regions. */
  predicate InSlices(layout: Layout, x: nat) {
    || layout.mStart <= x < layout.mStart + MAX_SAVES * FRAME
    || layout.sStart <= x < layout.sStart + MAX_SAVES * FRAME
  }

  lemma {:induction false} CompleteWritesInside(t: Thread, a: Abstract, layout: Layout, f: Target, x: nat)
    requires Refines(t, a, layout) && Nested(a.stack, Complete(f)) && CanGo(a, Complete(f))
    requires !InSlices(layout, x)
    ensures Step(t, Complete(f), layout).Running?
    ensures Load(Step(t, Complete(f), layout).thread.memory, x) == Load(t.memory, x)
  {
    hide Stored, Enter, TakeTrap, FinishM, FinishHS, FinishVS, FrameAt, RestoreGprs, StackBelow;
    var below, call := a.stack[..|a.stack| - 1], a.stack[|a.stack| - 1];
    var h := CompletedBy(f);
    assert a.stack == below + [call];
    Completing(t, a, layout, f);
    var o := Enter(TakeTrap(t, h, 0), h);
    var trap := TrapFrame(h, a.regs, a.pc, Interrupted(a, h, 0).seen);
    match h {
      case ByM =>
        EnterMPushes(t, a, layout, 0);
        FinishMPops(o.thread, layout, Interrupted(a, h, 0), below, call, trap);
      case ByHS =>
        EnterHSPushes(t, a, layout, 0);
        FinishHSPops(o.thread, layout, Interrupted(a, h, 0), below, call, trap);
      case ByVS =>
        EnterVSPushes(t, a, layout, 0);
        FinishVSPops(o.thread, layout, Interrupted(a, h, 0), below, call, trap);
    }
  }

  lemma {:induction false} TrapWritesInside(t: Thread, a: Abstract, layout: Layout, e: Event, x: nat)
    requires Refines(t, a, layout) && e.Trap? && Nested(a.stack, e) && CanGo(a, e)
    requires !InSlices(layout, x)
    ensures Step(t, e, layout).Running?
    ensures Load(Step(t, e, layout).thread.memory, x) == Load(t.memory, x)
  {
    hide Stored, Enter, TakeTrap, FrameAt, StackBelow, Clobber;
    match e.handler {
      case ByM => EnterMPushes(t, a, layout, e.tval);
      case ByHS => EnterHSPushes(t, a, layout, e.tval);
      case ByVS => EnterVSPushes(t, a, layout, e.tval);
    }
  }

  lemma {:induction false} CallWritesInside(t: Thread, a: Abstract, layout: Layout, f: Target, x: nat)
    requires Refines(t, a, layout) && Nested(a.stack, Calling(f)) && CanGo(a, Calling(f))
    requires !InSlices(layout, x)
    ensures Step(t, Calling(f), layout).Running?
    ensures Load(Step(t, Calling(f), layout).thread.memory, x) == Load(t.memory, x)
  {
    hide Stored, SaveGprs, FrameAt, AtFunction, AtCall;
    SavedFrame(t.memory, if f == FnS then t.attr.mArea else t.attr.sArea, AtCall(t.regs, f));
  }

  lemma {:induction false} EpcWritesInside(t: Thread, a: Abstract, layout: Layout, e: Event, x: nat)
    requires Refines(t, a, layout) && e.SetEpc? && Nested(a.stack, e) && !InSlices(layout, x)
    ensures Step(t, e, layout).Running?
    ensures Load(Step(t, e, layout).thread.memory, x) == Load(t.memory, x)
  {
    hide Stored, Count, FrameAt;
    Top(t.memory, layout, a.stack);
  }

  lemma {:induction false} ReturnMWritesNothing(t: Thread)
    requires t.attr.mArea >= FRAME
    ensures ReturnM(t).memory == t.memory
  {
    hide RestoreGprs, Load, LoadInt;
  }

  lemma {:induction false} ReturnSWritesNothing(t: Thread)
    requires t.attr.sArea >= FRAME
    ensures ReturnHS(t).memory == t.memory && ReturnVS(t).memory == t.memory
  {
    hide RestoreGprs, Load, LoadInt;
  }

  lemma {:induction false} OthersWriteNothing(t: Thread, layout: Layout, e: Event)
    requires (e.Compute? || e.Return?) && Step(t, e, layout).Running?
    ensures Step(t, e, layout).thread.memory == t.memory
  {
    hide ReturnM, ReturnHS, ReturnVS;
    if e.Return? {
      if e.handler == ByM {
        ReturnMWritesNothing(t);
      } else {
        ReturnSWritesNothing(t);
      }
    }
  }

  /** No event stores anything outside the thread's own slices of the save regions. */
  lemma {:induction false} WritesInside(t: Thread, a: Abstract, layout: Layout, e: Event, x: nat)
    requires Refines(t, a, layout) && Nested(a.stack, e) && Step(t, e, layout).Running?
    requires !InSlices(layout, x)
    ensures Load(Step(t, e, layout).thread.memory, x) == Load(t.memory, x)
  {
    hide Refines, Nested, Step, InSlices, CanGo;
    if !CanGo(a, e) {
      Hindered(t, a, layout, e);
    } else {
      match e {
        case Trap(_, _, _, _) => TrapWritesInside(t, a, layout, e, x);
        case Calling(f) => CallWritesInside(t, a, layout, f, x);
        case Complete(f) => CompleteWritesInside(t, a, layout, f, x);
        case SetEpc(_, _) => EpcWritesInside(t, a, layout, e, x);
        case Compute(_, _) => OthersWriteNothing(t, layout, e);
        case Return(_) => OthersWriteNothing(t, layout, e);
      }
    }
  }

  /** No run does. */
  lemma {:induction false} RunWritesInside(t: Thread, a: Abstract, layout: Layout, events: seq<Event>, x: nat)
    requires Refines(t, a, layout) && NestedRun(a, events, layout)
    requires forall e <- events :: WellFormed(e)
    requires Run(t, events, layout).Running? && !InSlices(layout, x)
    ensures Load(Run(t, events, layout).thread.memory, x) == Load(t.memory, x)
    decreases |events|
  {
    hide Refines, AbstractStep, Step, Nested, CanGo, Load, InSlices;
    if |events| > 0 {
      StepRefines(t, a, layout, events[0]);
      WritesInside(t, a, layout, events[0], x);
      RunWritesInside(Step(t, events[0], layout).thread, AbstractStep(a, events[0], layout), layout, events[1..], x);
    }
  }

  // ---------------------------------------------------------------- matching returns

  /** The stack never gets shorter than k during the run. */
  predicate StaysAbove(a: Abstract, events: seq<Event>, layout: Layout, k: nat)
    requires NestedRun(a, events, layout)
    decreases |events|
  {
    && |a.stack| >= k
    && (|events| > 0 ==> StaysAbove(AbstractStep(a, events[0], layout), events[1..], layout, k))
  }

  /** Two frames that differ at most in the return address. */
  predicate SameButEpc(f: Saved, g: Saved) {
    match f
    case TrapFrame(h, regs, _, seen) => g.TrapFrame? && g == TrapFrame(h, regs, g.epc, seen)
    case CallFrame(_, _, _) => f == g
  }

  /** The return address that the k-th frame of the stack ends up with: the last one set while it was
      the innermost frame, or the one it had. */
  function LastEpc(a: Abstract, events: seq<Event>, layout: Layout, k: nat, epc: int): int
    requires NestedRun(a, events, layout)
    decreases |events|
  {
    if |events| == 0 then epc
    else
      LastEpc(AbstractStep(a, events[0], layout), events[1..], layout, k,
              if events[0].SetEpc? && |a.stack| == k then events[0].epc else epc)
  }

  function EpcOf(f: Saved): int { if f.TrapFrame? then f.epc else 0 }

  /** A step that stays above a frame leaves it and everything below it alone. */
  lemma {:induction false} StepKeepsBelow(a: Abstract, layout: Layout, e: Event, k: nat)
    requires Nested(a.stack, e) && 0 < k <= |a.stack| && k <= |AbstractStep(a, e, layout).stack|
    ensures var b := AbstractStep(a, e, layout);
            && b.stack[..k - 1] == a.stack[..k - 1]
            && SameButEpc(a.stack[k - 1], b.stack[k - 1])
            && (!(e.SetEpc? && |a.stack| == k) ==> b.stack[k - 1] == a.stack[k - 1])
            && (e.SetEpc? && |a.stack| == k ==> EpcOf(b.stack[k - 1]) == e.epc)
  {
  }

  lemma {:induction false} RunKeepsBelow(a: Abstract, layout: Layout, events: seq<Event>, k: nat)
    requires NestedRun(a, events, layout) && StaysAbove(a, events, layout, k) && k > 0
    ensures var b := AbstractRun(a, events, layout);
            && |b.stack| >= k
            && b.stack[..k - 1] == a.stack[..k - 1]
            && SameButEpc(a.stack[k - 1], b.stack[k - 1])
            && EpcOf(b.stack[k - 1]) == LastEpc(a, events, layout, k, EpcOf(a.stack[k - 1]))
    decreases |events|
  {
    hide AbstractStep, Nested;
    if |events| > 0 {
      var next := AbstractStep(a, events[0], layout);
      assert |next.stack| >= k;
      StepKeepsBelow(a, layout, events[0], k);
      RunKeepsBelow(next, layout, events[1..], k);
    }
  }

  lemma {:induction false} RunInTwo(t: Thread, layout: Layout, x: seq<Event>, y: seq<Event>)
    requires forall e <- x + y :: WellFormed(e)
    ensures forall e <- x :: WellFormed(e)
    ensures forall e <- y :: WellFormed(e)
    ensures Run(t, x + y, layout)
            == (var o := Run(t, x, layout); if o.Failed? then o else Run(o.thread, y, layout))
    decreases |x|
  {
    hide Step;
    assert forall e :: e in x || e in y ==> e in x + y;
    if |x| == 0 {
      assert x + y == y;
    } else {
      assert (x + y)[1..] == x[1..] + y;
      var o := Step(t, x[0], layout);
      if o.Running? {
        RunInTwo(o.thread, layout, x[1..], y);
      }
    }
  }

  lemma {:induction false} AbstractInTwo(a: Abstract, layout: Layout, x: seq<Event>, y: seq<Event>)
    requires NestedRun(a, x, layout) && NestedRun(AbstractRun(a, x, layout), y, layout)
    ensures NestedRun(a, x + y, layout)
    ensures AbstractRun(a, x + y, layout) == AbstractRun(AbstractRun(a, x, layout), y, layout)
    decreases |x|
  {
    hide AbstractStep, Nested;
    if |x| == 0 {
      assert x + y == y;
    } else {
      assert (x + y)[1..] == x[1..] + y;
      AbstractInTwo(AbstractStep(a, x[0], layout), layout, x[1..], y);
    }
  }

  /** A body run between a push and the matching pop: it keeps the pushed frame and leaves
      nothing above it. */
  predicate Body(a: Abstract, body: seq<Event>, layout: Layout) {
    && |a.stack| > 0
    && NestedRun(a, body, layout)
    && StaysAbove(a, body, layout, |a.stack|)
    && |AbstractRun(a, body, layout).stack| == |a.stack|
  }

  /** What a return or completion finds: the stack below the pushed frame, and that frame. */
  lemma {:induction false} BodyKeeps(a: Abstract, body: seq<Event>, layout: Layout)
    requires Body(a, body, layout)
    ensures var b, n := AbstractRun(a, body, layout), |a.stack|;
            && |b.stack| == n
            && b.stack[..n - 1] == a.stack[..n - 1]
            && SameButEpc(a.stack[n - 1], b.stack[n - 1])
            && EpcOf(b.stack[n - 1]) == LastEpc(a, body, layout, n, EpcOf(a.stack[n - 1]))
  {
    RunKeepsBelow(a, layout, body, |a.stack|);
  }

  lemma {:induction false} CanRunInTwo(a: Abstract, layout: Layout, x: seq<Event>, y: seq<Event>)
    requires NestedRun(a, x, layout) && NestedRun(AbstractRun(a, x, layout), y, layout)
    requires NestedRun(a, x + y, layout)
    ensures CanRun(a, x + y, layout) <==> CanRun(a, x, layout) && CanRun(AbstractRun(a, x, layout), y, layout)
    decreases |x|
  {
    hide AbstractStep, Nested, CanGo;
    if |x| == 0 {
      assert x + y == y;
    } else {
      assert (x + y)[1..] == x[1..] + y;
      CanRunInTwo(AbstractStep(a, x[0], layout), layout, x[1..], y);
    }
  }

  /** A run between two brackets. */
  lemma {:induction false} Bracketed(a: Abstract, layout: Layout, open: Event, body: seq<Event>, close: Event)
    requires Nested(a.stack, open) && NestedRun(AbstractStep(a, open, layout), body, layout)
    requires Nested(AbstractRun(AbstractStep(a, open, layout), body, layout).stack, close)
    ensures NestedRun(a, [open] + body + [close], layout)
    ensures AbstractRun(a, [open] + body + [close], layout)
            == AbstractStep(AbstractRun(AbstractStep(a, open, layout), body, layout), close, layout)
    ensures CanRun(a, [open] + body + [close], layout)
            <==> CanGo(a, open) && CanRun(AbstractStep(a, open, layout), body, layout)
                 && CanGo(AbstractRun(AbstractStep(a, open, layout), body, layout), close)
  {
    hide AbstractStep, Nested, CanGo;
    var entered := AbstractStep(a, open, layout);
    var left := AbstractRun(entered, body, layout);
    assert [close][1..] == [];
    AbstractInTwo(entered, layout, body, [close]);
    assert ([open] + body + [close])[1..] == body + [close];
    CanRunInTwo(entered, layout, body, [close]);
  }

  /** A function that runs in another virtual mode than the one its call names. */
  predicate Stale(f: Saved) { f.CallFrame? && f.virt != TargetMode(f.f).virt }

  /** The completing system call of such a function fails, so while nothing fails its frame stays. */
  lemma {:induction false} StaleStays(a: Abstract, events: seq<Event>, layout: Layout, j: nat)
    requires NestedRun(a, events, layout) && CanRun(a, events, layout)
    requires j < |a.stack| && Stale(a.stack[j])
    ensures |AbstractRun(a, events, layout).stack| > j
    decreases |events|
  {
    hide AbstractStep, Nested, CanGo, Stale;
    if |events| > 0 {
      StaleStaysOneStep(a, events[0], layout, j);
      StaleStays(AbstractStep(a, events[0], layout), events[1..], layout, j);
    }
  }

  lemma {:induction false} StaleStaysOneStep(a: Abstract, e: Event, layout: Layout, j: nat)
    requires Nested(a.stack, e) && CanGo(a, e) && j < |a.stack| && Stale(a.stack[j])
    ensures var b := AbstractStep(a, e, layout); j < |b.stack| && b.stack[j] == a.stack[j]
  {
    hide Count, HasRoom, Clobber, AtFunction, AtCall;
  }

  /** So in a run in which nothing fails and that ends where it started every call entered the mode it
      names. */
  lemma {:induction false} ReturningIsFresh(a: Abstract, events: seq<Event>, layout: Layout, k: nat)
    requires NestedRun(a, events, layout) && CanRun(a, events, layout)
    requires StaysAbove(a, events, layout, k) && |AbstractRun(a, events, layout).stack| == k
    ensures FreshRun(a, events, layout)
    decreases |events|
  {
    hide Nested, CanGo, AtFunction, AtCall;
    if |events| > 0 {
      var b := AbstractStep(a, events[0], layout);
      if !NoStaleMode(a.seen, events[0]) {
        StaleStays(b, events[1..], layout, |a.stack|);
      }
      ReturningIsFresh(b, events[1..], layout, k);
    }
  }

  /** While every call enters the mode it names, the V bit is that of the hardware. */
  lemma {:induction false} StepKeepsVBit(t: Thread, a: Abstract, layout: Layout, e: Event)
    requires Refines(t, a, layout) && Nested(a.stack, e) && CanGo(a, e) && NoStaleMode(a.seen, e)
    requires a.vbit == Where(a.stack).virt
    ensures var b := AbstractStep(a, e, layout); b.vbit == Where(b.stack).virt
  {
    hide Count, HasRoom, Clobber, AtFunction, AtCall, FrameAt, Stored;
    if |a.stack| > 0 {
      Top(t.memory, layout, a.stack);
      if e.Return? {
        ModeBelow(layout, t.memory, a.stack);
      }
    }
  }

  lemma {:induction false} FreshRunKeepsVBit(t: Thread, a: Abstract, layout: Layout, events: seq<Event>)
    requires Refines(t, a, layout) && NestedRun(a, events, layout)
    requires CanRun(a, events, layout) && FreshRun(a, events, layout)
    requires forall e <- events :: WellFormed(e)
    requires a.vbit == Where(a.stack).virt
    ensures var b := AbstractRun(a, events, layout); b.vbit == Where(b.stack).virt
    decreases |events|
  {
    hide Refines, AbstractStep, Step, Nested, CanGo, NoStaleMode;
    if |events| > 0 {
      StepKeepsVBit(t, a, layout, events[0]);
      StepRefines(t, a, layout, events[0]);
      FreshRunKeepsVBit(Step(t, events[0], layout).thread, AbstractStep(a, events[0], layout), layout, events[1..]);
    }
  }

  /** From set-up on, in a run whose calls all enter the mode they name, the V-bit attribute is
      the hardware's V bit. */
  lemma {:induction false} ModeFieldsAreTrue(t: Thread, layout: Layout, events: seq<Event>)
    requires Fresh(t, layout) && NestedRun(Begin(t), events, layout) && FreshRun(Begin(t), events, layout)
    requires forall e <- events :: WellFormed(e)
    requires Run(t, events, layout).Running?
    ensures var r := Run(t, events, layout).thread; r.attr.mode == r.priv && r.attr.vbit == r.virt
  {
    hide Stored, Count, Run, NestedRun, AbstractRun, CanRun, FreshRun;
    FreshRefines(t, layout);
    RunRefines(t, Begin(t), layout, events);
    FreshRunKeepsVBit(t, Begin(t), layout, events);
  }

  lemma {:induction false} BodyKeepsVBit(t: Thread, a: Abstract, body: seq<Event>, layout: Layout)
    requires Refines(t, a, layout) && Body(a, body, layout) && CanRun(a, body, layout)
    requires a.vbit == Where(a.stack).virt
    ensures var b := AbstractRun(a, body, layout); b.vbit == Where(b.stack).virt
  {
    hide Refines, NestedRun, CanRun, StaysAbove, FreshRun;
    ReturningIsFresh(a, body, layout, |a.stack|);
    NestedIsWellFormed(a, body, layout);
    FreshRunKeepsVBit(t, a, layout, body);
  }

  /** The handler and the code it interrupted: after the matching return the interrupted code has
      its registers, mode and V bit back, both regions are as they were, and it resumes at the last
      return address that this handler set, or where it stopped if it set none. The trap value is the trap's own
      whatever was nested inside, and M mode leaves the supervisor's pending return as it was.
      The V-bit attribute is then the hardware's, which is what it was unless the code had been
      called under a left-over virtual mode. */
  lemma {:induction false} MatchingReturnRestores(t: Thread, a: Abstract, layout: Layout, trap: Event, body: seq<Event>)
    requires Refines(t, a, layout) && trap.Trap? && Nested(a.stack, trap)
    requires Body(AbstractStep(a, trap, layout), body, layout)
    requires var run := [trap] + body + [Return(trap.handler)];
             (forall e <- run :: WellFormed(e)) && Run(t, run, layout).Running?
    ensures var r := Run(t, [trap] + body + [Return(trap.handler)], layout).thread;
            && r.regs == t.regs
            && r.priv == t.priv && r.virt == t.virt && r.attr.mode == t.attr.mode && r.attr.vbit == t.virt
            && r.attr.mArea == t.attr.mArea && r.attr.mLeft == t.attr.mLeft && r.attr.sArea == t.attr.sArea
            && r.attr.sLeft == t.attr.sLeft
            && r.pc == LastEpc(AbstractStep(a, trap, layout), body, layout, |a.stack| + 1, t.pc)
            && (match trap.handler
                case ByM => r.csr.mtval == trap.tval && r.csr.spp == t.csr.spp && r.csr.spv == t.csr.spv
                case ByHS => r.csr.stval == trap.tval
                case ByVS => r.csr.vstval == trap.tval)
  {
    hide Stored, Count, Run, NestedRun, CanRun, AbstractRun, StaysAbove, FrameAt;
    var entered := AbstractStep(a, trap, layout);
    BodyKeeps(entered, body, layout);
    var left := AbstractRun(entered, body, layout);
    var back := Return(trap.handler);
    Bracketed(a, layout, trap, body, back);
    RunRefines(t, a, layout, [trap] + body + [back]);
    assert entered.stack[..|entered.stack| - 1] == a.stack;
    assert AbstractStep(left, back, layout).stack == a.stack;
    if trap.handler == ByVS {
      StepRefines(t, a, layout, trap);
      BodyKeepsVBit(Step(t, trap, layout).thread, entered, body, layout);
    }
  }

  /** A caller's registers after a call: the status in a0, sp and s0 moved for the two words pushed, t0
      and t1 open, and all others as they were. */
  predicate CallerBack(regs: Gprs, before: Gprs, status: int) {
    && regs[A0] == status && regs[SP] == before[SP] - 16 && regs[S0] == before[SP]
    && forall i :: 0 <= i < GPRS && i != SP && i != S0 && i != T0 && i != T1 && i != A0 ==> regs[i] == before[i]
  }

  lemma {:induction false} CallerIsBack(before: Gprs, f: Target, status: int)
    ensures CallerBack(AtCall(before, f)[A0 := status], before, status)
  {
    hide AtCall;
    AtCallIs(before, f);
  }

  lemma {:induction false} CalledStack(t: Thread, a: Abstract, layout: Layout, f: Target)
    requires Refines(t, a, layout) && Nested(a.stack, Calling(f))
    ensures var stack, n := AbstractStep(a, Calling(f), layout).stack, |a.stack|;
            && |stack| == n + 1 && stack[..n] == a.stack
            && stack[n] == CallFrame(f, AtCall(t.regs, f), Landing(a.seen, f))
  {
    hide AtCall, AtFunction, Regions;
  }

  lemma {:induction false} MayComplete(left: Abstract, f: Target)
    requires left.stack != [] && left.stack[|left.stack| - 1].CallFrame? && left.stack[|left.stack| - 1].f == f
    ensures Nested(left.stack, Complete(f))
  {
  }

  /** What is back when the stack is what it was at the call. */
  lemma {:induction false} CompletedThread(t: Thread, a: Abstract, r: Thread, left: Abstract, layout: Layout, f: Target)
    requires Refines(t, a, layout) && Nested(a.stack, Calling(f)) && Nested(left.stack, Complete(f))
    requires |left.stack| == |a.stack| + 1 && left.stack[..|a.stack|] == a.stack
    requires left.stack[|a.stack|].regs == AtCall(t.regs, f)
    requires CanGo(a, Calling(f)) && CanGo(left, Complete(f))
    requires Refines(r, AbstractStep(left, Complete(f), layout), layout)
    ensures r.regs == AtCall(t.regs, f)[A0 := left.regs[A0]] && r.pc == layout.resume(f)
    ensures r.priv == t.priv && r.virt == t.virt && r.attr.mode == t.attr.mode
    ensures r.attr.vbit == t.attr.vbit
    ensures r.attr.mArea == t.attr.mArea && r.attr.mLeft == t.attr.mLeft
    ensures r.attr.sArea == t.attr.sArea && r.attr.sLeft == t.attr.sLeft
  {
    hide Stored, Count, AtCall;
  }

  /** A cross-mode call that completes: the caller has its registers back as they were saved, which are
      those of the call but for sp, s0, t0, t1 and a0, and a0 is the callee's; its mode, V bit and both
      regions are as they were at the call. */
  lemma {:induction false} MatchingCompletionRestores(t: Thread, a: Abstract, layout: Layout, f: Target,
      body: seq<Event>)
    requires Refines(t, a, layout) && Nested(a.stack, Calling(f))
    requires Body(AbstractStep(a, Calling(f), layout), body, layout)
    requires var run := [Calling(f)] + body + [Complete(f)];
             (forall e <- run :: WellFormed(e)) && Run(t, run, layout).Running?
    ensures var r := Run(t, [Calling(f)] + body + [Complete(f)], layout).thread;
            var status := AbstractRun(AbstractStep(a, Calling(f), layout), body, layout).regs[A0];
            && r.regs == AtCall(t.regs, f)[A0 := status] && CallerBack(r.regs, t.regs, status)
            && r.pc == layout.resume(f)
            && r.priv == t.priv && r.virt == t.virt && r.attr.mode == t.attr.mode && r.attr.vbit == t.attr.vbit
            && r.attr.mArea == t.attr.mArea && r.attr.mLeft == t.attr.mLeft && r.attr.sArea == t.attr.sArea
            && r.attr.sLeft == t.attr.sLeft
  {
    hide Stored, Count, Run, NestedRun, CanRun, AbstractRun, StaysAbove, AbstractStep, Refines, Nested, CanGo, AtCall,
         CallerBack;
    var entered := AbstractStep(a, Calling(f), layout);
    CalledStack(t, a, layout, f);
    BodyKeeps(entered, body, layout);
    var left := AbstractRun(entered, body, layout);
    MayComplete(left, f);
    Bracketed(a, layout, Calling(f), body, Complete(f));
    RunRefines(t, a, layout, [Calling(f)] + body + [Complete(f)]);
    CompletedThread(t, a, Run(t, [Calling(f)] + body + [Complete(f)], layout).thread, left, layout, f);
    CallerIsBack(t.regs, f, left.regs[A0]);
  }

  /** The completing system call of a function that comes to its end is answered, and does not fail,
      exactly when the region has a frame left for it and the previous-virtualization bit that the
      call returned through was clear. What a failing one leads to is in ContextFailures. */
  lemma {:induction false} CompletesExactly(t: Thread, a: Abstract, layout: Layout, f: Target, body: seq<Event>)
    requires Refines(t, a, layout) && Nested(a.stack, Calling(f))
    requires Body(AbstractStep(a, Calling(f), layout), body, layout)
    requires CanGo(a, Calling(f)) && CanRun(AbstractStep(a, Calling(f), layout), body, layout)
    requires forall e <- [Calling(f)] + body + [Complete(f)] :: WellFormed(e)
    ensures Run(t, [Calling(f)] + body + [Complete(f)], layout).Running?
            <==> NoStaleMode(SeenOf(t.csr), Calling(f))
                 && (if f == FnS then t.attr.mLeft else t.attr.sLeft) >= 2
  {
    hide Stored, Run, NestedRun, CanRun, AbstractRun, StaysAbove, FrameAt, AtCall, AtFunction;
    var entered := AbstractStep(a, Calling(f), layout);
    BodyKeeps(entered, body, layout);
    var left := AbstractRun(entered, body, layout);
    Bracketed(a, layout, Calling(f), body, Complete(f));
    RunRefines(t, a, layout, [Calling(f)] + body + [Complete(f)]);
    assert entered.stack[..|entered.stack| - 1] == a.stack;
    assert left.stack[..|left.stack| - 1] == a.stack;
    if f == FnVU {
      StepRefines(t, a, layout, Calling(f));
      BodyKeepsVBit(Step(t, Calling(f), layout).thread, entered, body, layout);
    }
  }

  // ---------------------------------------------------------------- the left-over virtual mode

  /** Somewhere on the stack handler h interrupted a virtual mode. */
  predicate TookVirtual(stack: seq<Saved>, h: Handler) {
    exists i :: 0 <= i < |stack| && stack[i].TrapFrame? && stack[i].handler == h && Where(stack[..i]).virt
  }

  /** A left-over virtual mode has its cause on the stack, now and in every saved M-mode frame. */
  predicate Caused(a: Abstract) {
    && (a.seen.spv ==> TookVirtual(a.stack, ByHS))
    && (a.seen.mpv ==> TookVirtual(a.stack, ByM))
    && forall i :: 0 <= i < |a.stack| ==> FrameCaused(a.stack[i], a.stack[..i])
  }

  predicate FrameCaused(f: Saved, below: seq<Saved>) {
    f.TrapFrame? && f.handler == ByM && f.seen.spv ==> TookVirtual(below, ByHS)
  }

  lemma {:induction false} TookVirtualLonger(stack: seq<Saved>, f: Saved, h: Handler)
    ensures TookVirtual(stack, h) ==> TookVirtual(stack + [f], h)
    ensures f.TrapFrame? && f.handler == h && Where(stack).virt ==> TookVirtual(stack + [f], h)
  {
    forall i | 0 <= i <= |stack|
      ensures (stack + [f])[..i] == stack[..i]
    {
    }
    assert stack[..|stack|] == stack;
    if TookVirtual(stack, h) {
      var i :| 0 <= i < |stack| && stack[i].TrapFrame? && stack[i].handler == h && Where(stack[..i]).virt;
      assert (stack + [f])[i] == stack[i];
    }
    if f.TrapFrame? && f.handler == h && Where(stack).virt {
      assert (stack + [f])[|stack|] == f;
    }
  }

  /** Pushing a frame keeps the causes. */
  lemma {:induction false} PushCaused(a: Abstract, b: Abstract, f: Saved)
    requires Caused(a) && b.stack == a.stack + [f]
    requires b.seen.spv ==> a.seen.spv || (f.TrapFrame? && f.handler == ByHS && Where(a.stack).virt)
    requires b.seen.mpv ==> a.seen.mpv || (f.TrapFrame? && f.handler == ByM && Where(a.stack).virt)
    requires f.TrapFrame? && f.handler == ByM && f.seen.spv ==> a.seen.spv
    ensures Caused(b)
  {
    hide TookVirtual;
    TookVirtualLonger(a.stack, f, ByHS);
    TookVirtualLonger(a.stack, f, ByM);
    forall i | 0 <= i < |b.stack|
      ensures FrameCaused(b.stack[i], b.stack[..i])
    {
      if i < |a.stack| {
        assert b.stack[..i] == a.stack[..i] && FrameCaused(a.stack[i], a.stack[..i]);
      } else {
        assert b.stack[..i] == a.stack;
      }
    }
  }

  /** Only the innermost frame may go without taking a cause with it, if it is not one itself. */
  lemma {:induction false} TookVirtualBelow(stack: seq<Saved>, h: Handler)
    requires |stack| > 0 && TookVirtual(stack, h)
    requires !(stack[|stack| - 1].TrapFrame? && stack[|stack| - 1].handler == h)
    ensures TookVirtual(stack[..|stack| - 1], h)
  {
    var below := stack[..|stack| - 1];
    var i :| 0 <= i < |stack| && stack[i].TrapFrame? && stack[i].handler == h && Where(stack[..i]).virt;
    assert below[i] == stack[i] && below[..i] == stack[..i];
  }

  lemma {:induction false} PopCaused(a: Abstract, b: Abstract)
    requires Caused(a) && |a.stack| > 0 && b.stack == a.stack[..|a.stack| - 1]
    requires var top := a.stack[|a.stack| - 1];
             && (b.seen.spv ==> if top.TrapFrame? && top.handler == ByM then top.seen.spv
                                else a.seen.spv && !(top.TrapFrame? && top.handler == ByHS))
             && (b.seen.mpv ==> a.seen.mpv && !(top.TrapFrame? && top.handler == ByM))
    ensures Caused(b)
  {
    hide TookVirtual;
    var n := |a.stack| - 1;
    assert FrameCaused(a.stack[n], a.stack[..n]);
    if b.seen.spv && !(a.stack[n].TrapFrame? && a.stack[n].handler == ByM) {
      TookVirtualBelow(a.stack, ByHS);
    }
    if b.seen.mpv {
      TookVirtualBelow(a.stack, ByM);
    }
    forall i | 0 <= i < n
      ensures FrameCaused(b.stack[i], b.stack[..i])
    {
      assert FrameCaused(a.stack[i], a.stack[..i]) && b.stack[..i] == a.stack[..i];
    }
  }

  /** Changing the return address of the innermost frame changes no cause. */
  lemma {:induction false} EpcCaused(a: Abstract, b: Abstract)
    requires Caused(a) && b.seen == a.seen && |b.stack| == |a.stack| > 0
    requires a.stack[|a.stack| - 1].TrapFrame? && SameButEpc(a.stack[|a.stack| - 1], b.stack[|a.stack| - 1])
    requires b.stack[..|a.stack| - 1] == a.stack[..|a.stack| - 1]
    ensures Caused(b)
  {
    var n := |a.stack| - 1;
    forall i | 0 <= i <= n
      ensures b.stack[..i] == a.stack[..i]
      ensures i < n ==> b.stack[i] == a.stack[i]
    {
      assert b.stack[..n][..i] == b.stack[..i] && a.stack[..n][..i] == a.stack[..i];
      assert i < n ==> b.stack[..n][i] == a.stack[..n][i];
    }
    forall h | TookVirtual(a.stack, h)
      ensures TookVirtual(b.stack, h)
    {
      var i :| 0 <= i < |a.stack| && a.stack[i].TrapFrame? && a.stack[i].handler == h && Where(a.stack[..i]).virt;
      assert b.stack[i].TrapFrame? && b.stack[i].handler == h && Where(b.stack[..i]).virt;
    }
    forall i | 0 <= i <= n
      ensures FrameCaused(b.stack[i], b.stack[..i])
    {
      assert FrameCaused(a.stack[i], a.stack[..i]);
    }
  }

  lemma {:induction false} StepCaused(a: Abstract, e: Event, layout: Layout)
    requires Nested(a.stack, e) && Caused(a)
    ensures Caused(AbstractStep(a, e, layout))
  {
    hide TookVirtual, Where, Count, Clobber, ShiftArguments;
    var b, n := AbstractStep(a, e, layout), |a.stack|;
    match e {
      case Trap(h, tval, _, _) => PushCaused(a, b, b.stack[n]);
      case Calling(f) => PushCaused(a, b, b.stack[n]);
      case Compute(_, _) =>
      case SetEpc(_, _) => EpcCaused(a, b);
      case Return(_) => PopCaused(a, b);
      case Complete(_) => PopCaused(a, b);
    }
  }

  /** In every properly nested run the left-over mode occurs only while a handler of a trap taken
      from VS or VU mode is active: elsewhere every call enters the mode it names. */
  lemma {:induction false} StaleOnlyInHandlers(a: Abstract, events: seq<Event>, layout: Layout)
    requires NestedRun(a, events, layout) && Caused(a)
    ensures var b := AbstractRun(a, events, layout);
            && Caused(b)
            && (!TookVirtual(b.stack, ByHS) && !TookVirtual(b.stack, ByM) ==>
                  NoStaleMode(b.seen, Calling(FnU)) && NoStaleMode(b.seen, Calling(FnS)))
    decreases |events|
  {
    hide TookVirtual, AbstractStep, Nested;
    if |events| > 0 {
      StepCaused(a, events[0], layout);
      StaleOnlyInHandlers(AbstractStep(a, events[0], layout), events[1..], layout);
    }
  }

  /** run_function_in_smode and run_function_in_umode enter the mode they name exactly when the
      previous-virtualization bit their return instruction uses is clear; they do not clear it. */
  lemma {:induction false} CallLandsExactly(t: Thread, a: Abstract, layout: Layout, f: Target)
    requires Refines(t, a, layout) && Nested(a.stack, Calling(f)) && CanGo(a, Calling(f))
    ensures Step(t, Calling(f), layout).Running?
    ensures var r := Step(t, Calling(f), layout).thread;
            Mode(r.priv, r.virt) == TargetMode(f) <==> NoStaleMode(SeenOf(t.csr), Calling(f))
  {
    hide Stored, Count, SaveGprs, Load, AtCall, AtFunction;
  }

  /** A run with one more event. */
  lemma {:induction false} OneMore(t: Thread, layout: Layout, events: seq<Event>, e: Event)
    requires layout.Valid() && NestedRun(Begin(t), events, layout)
    requires Nested(AbstractRun(Begin(t), events, layout).stack, e)
    requires forall x <- events + [e] :: WellFormed(x)
    ensures NestedRun(Begin(t), events + [e], layout)
    ensures AbstractRun(Begin(t), events + [e], layout)
            == AbstractStep(AbstractRun(Begin(t), events, layout), e, layout)
    ensures CanRun(Begin(t), events + [e], layout)
            <==> CanRun(Begin(t), events, layout) && CanGo(AbstractRun(Begin(t), events, layout), e)
  {
    hide AbstractStep, Nested, CanGo, Begin;
    assert [e][1..] == [];
    AbstractInTwo(Begin(t), layout, events, [e]);
    CanRunInTwo(Begin(t), layout, events, [e]);
  }

  /** From M mode into S mode, on into VS mode, and a trap from there. */
  function IntoHandler(h: Handler, temps: seq<int>): seq<Event> {
    [Calling(FnS)] + [Calling(FnVS)] + [Trap(h, 0, temps, 0)]
  }

  lemma {:induction false} CountPushed(stack: seq<Saved>, f: Saved, b: bool)
    ensures Count(stack + [f], b) == Count(stack, b) + (if InM(f) == b then 1 else 0)
  {
    assert (stack + [f])[..|stack + [f]| - 1] == stack;
  }

  /** That run, up to the handler: it still has frames, the bit is set and the V bit is clear. */
  lemma {:induction false} HandlerIsReachable(t: Thread, layout: Layout, h: Handler, temps: seq<int>)
    requires Fresh(t, layout) && !t.csr.mpv && |temps| == GPRS - T0 && h != ByVS
    ensures NestedRun(Begin(t), IntoHandler(h, temps), layout) && CanRun(Begin(t), IntoHandler(h, temps), layout)
    ensures var b := AbstractRun(Begin(t), IntoHandler(h, temps), layout);
            && Where(b.stack) == HandlerMode(h) && !b.vbit
            && (if h == ByM then b.seen.mpv else b.seen.spv)
            && |b.stack| == 3 && b.stack[2].TrapFrame? && b.stack[2].handler == h
            && Where(b.stack[..2]) == Mode(S, true)
            && Count(b.stack, h == ByM) == 2 && Count(b.stack, h != ByM) == 1
  {
    hide NestedRun, AbstractRun, CanRun, AtCall, AtFunction, Clobber, Stored, Count;
    var a, trap := Begin(t), Trap(h, 0, temps, 0);
    var none: seq<Event> := [];
    Nothing(a, layout);
    OneMore(t, layout, none, Calling(FnS));
    assert none + [Calling(FnS)] == [Calling(FnS)];
    assert forall b :: Count([], b) == 0 by {
      NoneCounted();
    }
    var a1 := AbstractRun(a, [Calling(FnS)], layout);
    CountPushed([], a1.stack[0], true);
    CountPushed([], a1.stack[0], false);
    assert [] + [a1.stack[0]] == a1.stack;
    OneMore(t, layout, [Calling(FnS)], Calling(FnVS));
    var a2 := AbstractRun(a, [Calling(FnS)] + [Calling(FnVS)], layout);
    CountPushed(a1.stack, a2.stack[1], true);
    CountPushed(a1.stack, a2.stack[1], false);
    OneMore(t, layout, [Calling(FnS)] + [Calling(FnVS)], trap);
    var f := AbstractStep(a2, trap, layout).stack[2];
    CountPushed(a2.stack, f, true);
    CountPushed(a2.stack, f, false);
    assert AbstractStep(a2, trap, layout).stack == a2.stack + [f];
  }

  lemma {:induction false} NoneCounted()
    ensures forall b :: Count([], b) == 0
  {
  }

  /** The bit can be set. A handler of a trap taken from VS mode that calls run_function_in_umode
      (in S mode) or run_function_in_smode (in M mode) runs the function in VU or VS mode with
      the V-bit attribute clear, and the function's completing system call fails. How these runs go
      on is in ContextFailures. */
  lemma {:induction false} StaleModeIsReachable(t: Thread, layout: Layout, h: Handler, f: Target, temps: seq<int>)
    requires Fresh(t, layout) && !t.csr.mpv && |temps| == GPRS - T0
    requires (h == ByHS && f == FnU) || (h == ByM && f == FnS)
    ensures var call := IntoHandler(h, temps) + [Calling(f)];
            && (forall e <- call + [Complete(f)] :: WellFormed(e))
            && NestedRun(Begin(t), call + [Complete(f)], layout)
            && Run(t, call, layout).Running?
            && Run(t, call, layout).thread.priv == TargetMode(f).priv
            && Run(t, call, layout).thread.virt && !Run(t, call, layout).thread.attr.vbit
            && Run(t, call + [Complete(f)], layout).Failed?
  {
    hide Run, NestedRun, AbstractRun, CanRun, AtCall, AtFunction, Stored, Begin, IntoHandler;
    var a, call := Begin(t), IntoHandler(h, temps) + [Calling(f)];
    HandlerIsReachable(t, layout, h, temps);
    HandlerEvents(h, f, temps);
    OneMore(t, layout, IntoHandler(h, temps), Calling(f));
    OneMore(t, layout, call, Complete(f));
    FreshRefines(t, layout);
    RunRefines(t, a, layout, call);
    RunRefines(t, a, layout, call + [Complete(f)]);
  }

  lemma {:induction false} HandlerEvents(h: Handler, f: Target, temps: seq<int>)
    requires |temps| == GPRS - T0
    ensures forall e <- IntoHandler(h, temps) + [Calling(f)] + [Complete(f)] :: WellFormed(e)
    ensures forall e <- IntoHandler(h, temps) + [Calling(f)] :: WellFormed(e)
  {
  }

  lemma {:induction false} Nothing(a: Abstract, layout: Layout)
    ensures NestedRun(a, [], layout) && CanRun(a, [], layout) && AbstractRun(a, [], layout) == a
  {
  }

  /** The delegation M mode sets up is what makes those completions fail. Without it the system
      call of a function in VU mode reaches the S handler, which resumes the caller of
      run_function_in_umode in the virtual mode that hstatus.SPV gave at the call. */
  lemma {:induction false} UndelegatedUmode(t: Thread, layout: Layout)
    requires t.priv == S && !t.virt && t.attr.mode == S && t.attr.sLeft >= 2 && !t.csr.delegation.vuEcall
    ensures var o := Step(t, Calling(FnU), layout);
            && o.Running?
            && var r := Step(o.thread, Complete(FnU), layout);
               r.Running? && r.thread.priv == S && r.thread.virt == t.csr.spv && !r.thread.attr.vbit
  {
    hide SaveGprs, AtCall, AtFunction, RestoreGprs, FrameHS, Delivering, StackBelow;
  }

  /** The caller of run_function_in_smode is resumed in M mode all the same. */
  lemma {:induction false} UndelegatedSmode(t: Thread, layout: Layout)
    requires t.priv == M && !t.virt && t.attr.mode == M && t.attr.mLeft >= 2 && !t.csr.delegation.vsEcall
    ensures var o := Step(t, Calling(FnS), layout);
            && o.Running?
            && var r := Step(o.thread, Complete(FnS), layout);
               r.Running? && r.thread.priv == M && !r.thread.virt && !r.thread.attr.vbit
  {
    hide SaveGprs, AtCall, AtFunction, RestoreGprs, FrameM, Delivering, StackBelow;
  }
}
