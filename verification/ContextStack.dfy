/** The register-context save regions of one thread: what the trap handlers of M, S (HS) and
    VS mode and the run_function_in_* calls do to registers, mode fields, control registers
    and save memory, one function per routine, and the stack discipline they implement. */
module ContextStack {

  datatype Priv = U | S | M

  /** Who handles a trap; what function a cross-mode call enters. */
  datatype Handler = ByM | ByHS | ByVS
  datatype Target = FnS | FnU | FnVS | FnVU

  /** A doubleword of save memory: a register value or a status register's saved fields. */
  datatype Word = Int(i: int) | MFlags(spp: bool, mpp: Priv, mpv: bool) | SFlags(spp: bool) | HFlags(spv: bool)

  type Memory = map<nat, Word>

  /** Saved registers in frame order: sp, s0-s11, t0-t6, a0-a7, ra; then epc, tval, status, hstatus. */
  const GPRS: nat := 29
  const SP: nat := 0
  const S0: nat := 1
  const T0: nat := 13
  const T1: nat := 14
  const T2: nat := 15
  const A0: nat := 20
  const RA: nat := 28
  const EPC: nat := 232
  const TVAL: nat := 240
  const STATUS: nat := 248
  const HSTATUS: nat := 256
  const FRAME: nat := 264
  const MAX_SAVES: nat := 5

  type Gprs = r: seq<int> | |r| == 29 witness seq(29, _ => 0)

  /** Which environment calls of the virtual modes are delegated: those of VS mode to HS mode
      (medeleg) and those of VU mode to VS mode (hedeleg). Both are, once M mode has set up. */
  datatype Delegation = Delegation(vsEcall: bool, vuEcall: bool)

  const BOOT := Delegation(true, true)

  /** The trap fields of the control registers: sstatus.SPP, mstatus.MPP and MPV, hstatus.SPV,
      vsstatus.SPP, the exception addresses and values of the three trap-taking modes, and the
      delegation of environment calls. */
  datatype Csrs = Csrs(
    spp: bool, mpp: Priv, mpv: bool, spv: bool, vsSpp: bool,
    mepc: int, mtval: int, sepc: int, stval: int, vsepc: int, vstval: int, delegation: Delegation)

  /** The thread attributes kept in memory: the mode and V bit the software thinks it is in, and
      for each region where the next frame goes and how many are left. */
  datatype Attributes = Attributes(mode: Priv, vbit: bool, mArea: nat, mLeft: nat, sArea: nat, sLeft: nat)

  /** One thread: registers and privilege as the hardware has them, and the save memory. */
  datatype Thread = Thread(
    regs: Gprs, pc: int, priv: Priv, virt: bool,
    csr: Csrs, attr: Attributes, memory: Memory)

  /** A routine that fails jumps to the fail routine of a mode, with the thread as it is then but for
      scratch registers. */
  datatype Outcome = Running(thread: Thread) | Failed(thread: Thread, routine: Handler)

  const DIAG_FAILED: int := 1

  /** Fixed at link time: this thread's slices of the two save regions, the user-mode stacks and
      the thread's CPU, and for each call the code that jumps to the function, where the
      function returns to, and where the completed call resumes. */
  datatype Layout = Layout(mStart: nat, sStart: nat, stackTop: int, stackBytes: int, cpu: nat,
                           stub: Target -> int, link: Target -> int, resume: Target -> int) {
    predicate Valid() {
      mStart + MAX_SAVES * FRAME <= sStart || sStart + MAX_SAVES * FRAME <= mStart
    }

    /** The bottom of the CPU's user-mode stack, where its stack pointer starts. */
    function UserStack(): int { stackTop + cpu * stackBytes + stackBytes }
  }

  // ---------------------------------------------------------------- save memory

  function Load(m: Memory, a: nat): Word { if a in m then m[a] else Int(0) }

  function LoadInt(m: Memory, a: nat): int {
    var w := Load(m, a);
    if w.Int? then w.i else 0
  }

  /** The first n registers stored from `area` up. */
  function SaveGprs(m: Memory, area: nat, regs: Gprs, n: nat): Memory
    requires n <= GPRS
  {
    if n == 0 then m else SaveGprs(m, area, regs, n - 1)[area + 8 * (n - 1) := Int(regs[n - 1])]
  }

  function RestoreGprs(m: Memory, area: nat): Gprs {
    seq(GPRS, i requires 0 <= i < GPRS => LoadInt(m, area + 8 * i))
  }

  // ---------------------------------------------------------------- the hardware

  predicate Delegable(h: Handler, priv: Priv, virt: bool) {
    match h
    case ByM => true
    case ByHS => priv != M
    case ByVS => virt && priv != M
  }

  function TakeTrap(t: Thread, h: Handler, tval: int): Thread {
    match h
    case ByM => t.(priv := M, virt := false,
       csr := t.csr.(mpp := t.priv, mpv := t.virt, mepc := t.pc, mtval := tval))
    case ByHS => t.(priv := S, virt := false,
       csr := t.csr.(spp := t.priv == S, spv := t.virt, sepc := t.pc, stval := tval))
    case ByVS => t.(priv := S, csr := t.csr.(vsSpp := t.priv == S, vsepc := t.pc, vstval := tval))
  }

  // ---------------------------------------------------------------- trap handlers

  /** What each handler's entry code stores at the save pointer. */
  function FrameM(t: Thread): Memory {
    var m := SaveGprs(t.memory, t.attr.mArea, t.regs, GPRS);
    var m := m[t.attr.mArea + TVAL := Int(t.csr.mtval)][t.attr.mArea + EPC := Int(t.csr.mepc)];
    m[t.attr.mArea + HSTATUS := HFlags(t.csr.spv)][t.attr.mArea + STATUS := MFlags(t.csr.spp, t.csr.mpp, t.csr.mpv)]
  }

  function FrameHS(t: Thread): Memory {
    var m := SaveGprs(t.memory, t.attr.sArea, t.regs, GPRS);
    var m := m[t.attr.sArea + HSTATUS := HFlags(t.csr.spv)][t.attr.sArea + TVAL := Int(t.csr.stval)];
    m[t.attr.sArea + EPC := Int(t.csr.sepc)][t.attr.sArea + STATUS := SFlags(t.csr.spp)]
  }

  function FrameVS(t: Thread): Memory {
    var m := SaveGprs(t.memory, t.attr.sArea, t.regs, GPRS);
    var m := m[t.attr.sArea + TVAL := Int(t.csr.vstval)][t.attr.sArea + EPC := Int(t.csr.vsepc)];
    m[t.attr.sArea + STATUS := SFlags(t.csr.vsSpp)]
  }

  /** The handlers' entry code, up to the point where the save pointer has been moved. */
  function EnterM(t: Thread): Outcome {
    if t.attr.mLeft == 0 then Failed(t.(attr := t.attr.(mode := M, vbit := false)), ByM)
    else Running(t.(memory := FrameM(t),
       regs := if t.csr.mpp == U then t.regs[SP := StackBelow(FrameM(t), t.attr.sArea)] else t.regs,
       attr := t.attr.(mode := M, vbit := false, mLeft := t.attr.mLeft - 1, mArea := t.attr.mArea + FRAME)))
  }

  function EnterHS(t: Thread): Outcome {
    if t.attr.sLeft == 0 then Failed(t.(attr := t.attr.(mode := S, vbit := false)), ByHS)
    else Running(t.(memory := FrameHS(t),
       regs := if !t.csr.spp then t.regs[SP := StackBelow(FrameHS(t), t.attr.sArea)] else t.regs,
       attr := t.attr.(mode := S, vbit := false, sLeft := t.attr.sLeft - 1, sArea := t.attr.sArea + FRAME)))
  }

  function EnterVS(t: Thread): Outcome {
    if t.attr.sLeft == 0 then Failed(t.(attr := t.attr.(mode := S)), ByVS)
    else Running(t.(memory := FrameVS(t),
       regs := if !t.csr.vsSpp then t.regs[SP := StackBelow(FrameVS(t), t.attr.sArea)] else t.regs,
       attr := t.attr.(mode := S, sLeft := t.attr.sLeft - 1, sArea := t.attr.sArea + FRAME)))
  }

  /** The stack pointer saved in the frame just below an area. */
  function StackBelow(m: Memory, area: nat): int {
    if area < FRAME then 0 else LoadInt(m, area - FRAME)
  }

  function Enter(t: Thread, h: Handler): Outcome {
    match h
    case ByM => EnterM(t)
    case ByHS => EnterHS(t)
    case ByVS => EnterVS(t)
  }

  /** The status fields saved in the frame at an area. */
  function SavedMFlags(m: Memory, area: nat): (w: Word)
    ensures w.MFlags?
  {
    var w := Load(m, area + STATUS);
    if w.MFlags? then w else MFlags(false, U, false)
  }

  predicate SavedSpp(m: Memory, area: nat) {
    var w := Load(m, area + STATUS);
    w.SFlags? && w.spp
  }

  predicate SavedSpv(m: Memory, area: nat) {
    var w := Load(m, area + HSTATUS);
    w.HFlags? && w.spv
  }

  /** restore_context and the return instruction: back to where the trap was taken. */
  function ReturnM(t: Thread): Thread
    requires t.attr.mArea >= FRAME
  {
    var area := t.attr.mArea - FRAME;
    var saved := SavedMFlags(t.memory, area);
    t.(regs := RestoreGprs(t.memory, area),
       priv := saved.mpp, virt := saved.mpp != M && saved.mpv, pc := LoadInt(t.memory, area + EPC),
       csr := t.csr.(spv := SavedSpv(t.memory, area), spp := saved.spp, mpp := U, mpv := false,
                     mtval := LoadInt(t.memory, area + TVAL), mepc := LoadInt(t.memory, area + EPC)),
       attr := t.attr.(mArea := area, mLeft := t.attr.mLeft + 1, vbit := saved.mpv,
                       mode := if saved.mpp != M then saved.mpp else t.attr.mode))
  }

  /** The S-mode handler's return, an sret with V = 0. */
  function ReturnHS(t: Thread): Thread
    requires t.attr.sArea >= FRAME
  {
    var area := t.attr.sArea - FRAME;
    var fromS, fromV := SavedSpp(t.memory, area), SavedSpv(t.memory, area);
    t.(regs := RestoreGprs(t.memory, area),
       priv := if fromS then S else U, virt := fromV, pc := LoadInt(t.memory, area + EPC),
       csr := t.csr.(spp := false, spv := false,
                     stval := LoadInt(t.memory, area + TVAL), sepc := LoadInt(t.memory, area + EPC)),
       attr := t.attr.(sArea := area, sLeft := t.attr.sLeft + 1, vbit := fromV,
                       mode := if fromS then t.attr.mode else U))
  }

  /** The VS-mode handler's return, an sret with V = 1. */
  function ReturnVS(t: Thread): Thread
    requires t.attr.sArea >= FRAME
  {
    var area := t.attr.sArea - FRAME;
    var fromS := SavedSpp(t.memory, area);
    t.(regs := RestoreGprs(t.memory, area),
       priv := if fromS then S else U, pc := LoadInt(t.memory, area + EPC),
       csr := t.csr.(vsSpp := false, vstval := LoadInt(t.memory, area + TVAL), vsepc := LoadInt(t.memory, area + EPC)),
       attr := t.attr.(sArea := area, sLeft := t.attr.sLeft + 1, mode := if fromS then t.attr.mode else U))
  }

  // ---------------------------------------------------------------- cross-mode calls

  /** jump_to_function_in_*: the function's address was the first argument, the rest move down;
      the jump goes through t0 and links in ra. */
  function ShiftArguments(r: Gprs, link: int): Gprs {
    r[T0 := r[A0]][..A0] + r[A0 + 1..RA] + [r[RA - 1], link]
  }

  /** The code of a privilege mode in the thread's attributes. */
  function Code(p: Priv): int { match p case U => 0 case S => 1 case M => 3 }

  /** The mode a call checks that it is made from. */
  function CallerPriv(f: Target): Priv { if f == FnS then M else S }

  /** The registers a call saves: two words have been pushed, of which s0 points to the end; the
      checks before leave the code of the mode in t0 and t1, the one for VU mode the V bit, which is
      1 as well, in t0. */
  function AtCall(r: Gprs, f: Target): Gprs {
    r[SP := r[SP] - 16][S0 := r[SP]][T0 := Code(CallerPriv(f))][T1 := Code(CallerPriv(f))]
  }

  /** On the user-mode stack, whose computation leaves its size in t1 and the top of the stacks
      in t2. */
  function OnUserStack(r: Gprs, layout: Layout): Gprs {
    r[SP := layout.UserStack()][T1 := layout.stackBytes][T2 := layout.stackTop]
  }

  /** The registers with which a called function starts. */
  function AtFunction(r: Gprs, f: Target, layout: Layout): Gprs {
    var saved := AtCall(r, f);
    ShiftArguments(if f == FnU || f == FnVU then OnUserStack(saved, layout) else saved, layout.link(f))
  }

  /** run_function_in_*: check the mode, take a frame, save the registers, and arrive at the
      function in the target mode. The return instruction goes to the virtual mode its
      previous-virtualization bit says. */
  function Call(t: Thread, f: Target, layout: Layout): Outcome {
    match f
    case FnS =>
      if t.attr.mode != M || t.attr.mLeft == 0 then Failed(t, ByM)
      else Running(t.(memory := SaveGprs(t.memory, t.attr.mArea, AtCall(t.regs, f), GPRS),
       priv := S, virt := t.csr.mpv, pc := t.regs[A0],
       regs := AtFunction(t.regs, f, layout),
       csr := t.csr.(mpp := U, mpv := false, mepc := layout.stub(f)),
       attr := t.attr.(mLeft := t.attr.mLeft - 1, mArea := t.attr.mArea + FRAME, mode := S)))
    case FnU =>
      if t.attr.mode != S || t.attr.sLeft == 0 then Failed(t, ByHS)
      else Running(t.(memory := SaveGprs(t.memory, t.attr.sArea, AtCall(t.regs, f), GPRS),
       priv := U, virt := t.csr.spv, pc := t.regs[A0],
       regs := AtFunction(t.regs, f, layout),
       csr := t.csr.(spp := false, spv := false, sepc := layout.stub(f)),
       attr := t.attr.(sLeft := t.attr.sLeft - 1, sArea := t.attr.sArea + FRAME, mode := U)))
    case FnVS =>
      if t.attr.mode != S || t.attr.sLeft == 0 then Failed(t, ByHS)
      else Running(t.(memory := SaveGprs(t.memory, t.attr.sArea, AtCall(t.regs, f), GPRS),
       priv := S, virt := true, pc := t.regs[A0],
       regs := AtFunction(t.regs, f, layout),
       csr := t.csr.(spp := false, spv := false, sepc := layout.stub(f)),
       attr := t.attr.(sLeft := t.attr.sLeft - 1, sArea := t.attr.sArea + FRAME, vbit := true)))
    case FnVU =>
      if t.attr.mode != S || !t.attr.vbit || t.attr.sLeft == 0 then Failed(t, ByVS)
      else Running(t.(memory := SaveGprs(t.memory, t.attr.sArea, AtCall(t.regs, f), GPRS),
       priv := U, pc := t.regs[A0],
       regs := AtFunction(t.regs, f, layout),
       csr := t.csr.(vsSpp := false, vsepc := layout.stub(f)),
       attr := t.attr.(sLeft := t.attr.sLeft - 1, sArea := t.attr.sArea + FRAME, mode := U)))
  }

  /** Which handler a system call reaches, by the mode it is made from and the delegation. */
  function EcallHandler(priv: Priv, virt: bool, d: Delegation): Handler {
    if priv == M || (priv == S && !virt) then ByM
    else if priv == U && virt && d.vuEcall then ByVS
    else if priv == S && !d.vsEcall then ByM
    else ByHS
  }

  /** Whether that handler knows the completion of a function among the calls from that mode. */
  predicate Answers(h: Handler, priv: Priv, f: Target) {
    match h
    case ByM => priv == S && f == FnS
    case ByHS => f == if priv == U then FnU else FnVS
    case ByVS => priv == U && f == FnVU
  }

  /** The handlers look up what a program registered for the trap; in VS mode the look-up fails
      unless the V bit says VS mode. */
  predicate LookUpFails(t: Thread, h: Handler) { h == ByVS && !t.attr.vbit }

  /** The completion system call, after the handler's entry: deliver a0 into the caller's frame,
      restore the caller's registers from it and free both frames. */
  function FinishM(t: Thread, resume: int): Thread
    requires t.attr.mArea >= 2 * FRAME
  {
    var area := t.attr.mArea - 2 * FRAME;
    var m := Delivering(t.memory, area);
    t.(memory := m,
       regs := RestoreGprs(m, area),
       priv := M, virt := false, pc := resume,
       csr := t.csr.(mpp := U, mpv := false, mepc := resume),
       attr := t.attr.(mArea := area, mLeft := t.attr.mLeft + 2))
  }

  function FinishHS(t: Thread, resume: int, fromVS: bool): Thread
    requires t.attr.sArea >= 2 * FRAME
  {
    var area := t.attr.sArea - 2 * FRAME;
    var m := Delivering(t.memory, area);
    t.(memory := m,
       regs := RestoreGprs(m, area),
       priv := S, virt := t.csr.spv && !fromVS, pc := resume,
       csr := t.csr.(spp := false, spv := false, sepc := resume),
       attr := t.attr.(sArea := area, sLeft := t.attr.sLeft + 2))
  }

  function FinishVS(t: Thread, resume: int): Thread
    requires t.attr.sArea >= 2 * FRAME
  {
    var area := t.attr.sArea - 2 * FRAME;
    var m := Delivering(t.memory, area);
    t.(memory := m,
       regs := RestoreGprs(m, area),
       priv := S, pc := resume,
       csr := t.csr.(vsSpp := false, vsepc := resume),
       attr := t.attr.(sArea := area, sLeft := t.attr.sLeft + 2))
  }

  /** The a0 of the frame above an area, stored as the a0 of the frame at the area. */
  function Delivering(m: Memory, area: nat): Memory {
    m[area + 8 * A0 := Int(LoadInt(m, area + FRAME + 8 * A0))]
  }

  // ---------------------------------------------------------------- events

  /** What a thread does next: compute in its current mode; take a trap, whose handler starts
      with the caller-saved registers it is given; change the return address of the exception
      being handled; return from a handler; call into another mode; complete such a call. */
  datatype Event =
    | Compute(regs: Gprs, pc: int)
    | Trap(handler: Handler, tval: int, temps: seq<int>, pc: int)
    | SetEpc(handler: Handler, epc: int)
    | Return(handler: Handler)
    | Calling(f: Target)
    | Complete(f: Target)

  /** Entry and the handler look-up leave sp and s0-s11 alone and clobber the rest. */
  function Clobber(r: Gprs, temps: seq<int>): Gprs
    requires |temps| == GPRS - T0
  {
    r[..T0] + temps
  }

  predicate WellFormed(e: Event) {
    e.Trap? ==> |e.temps| == GPRS - T0
  }

  function Step(t: Thread, e: Event, layout: Layout): Outcome
    requires WellFormed(e)
  {
    match e
    case Compute(regs, pc) => Running(t.(regs := regs, pc := pc))
    case Trap(h, tval, temps, pc) =>
      var o := Enter(TakeTrap(t, h, tval), h);
      if o.Failed? then o
      else if LookUpFails(o.thread, h) then Failed(o.thread, h)
      else Running(o.thread.(regs := Clobber(o.thread.regs, temps), pc := pc))
    case SetEpc(h, epc) =>
      if h == ByM then
        if t.attr.mLeft == MAX_SAVES || t.attr.mArea < FRAME then Failed(t, ByM)
        else Running(t.(memory := t.memory[t.attr.mArea - FRAME + EPC := Int(epc)]))
      else
        if t.attr.sLeft == MAX_SAVES || t.attr.sArea < FRAME then Failed(t, ByHS)
        else Running(t.(memory := t.memory[t.attr.sArea - FRAME + EPC := Int(epc)]))
    case Return(h) =>
      if h == ByM then if t.attr.mArea < FRAME then Failed(t, h) else Running(ReturnM(t))
      else if t.attr.sArea < FRAME then Failed(t, h)
      else Running(if h == ByHS then ReturnHS(t) else ReturnVS(t))
    case Calling(f) => Call(t, f, layout)
    case Complete(f) =>
      var h := EcallHandler(t.priv, t.virt, t.csr.delegation);
      var o := Enter(TakeTrap(t, h, 0), h);
      if o.Failed? then o
      else if LookUpFails(o.thread, h) || !Answers(h, t.priv, f) then Failed(o.thread, h)
      else Finish(o.thread, h, f, layout)
  }

  function Finish(t: Thread, h: Handler, f: Target, layout: Layout): Outcome {
    if (if h == ByM then t.attr.mArea else t.attr.sArea) < 2 * FRAME then Failed(t, h)
    else Running(match h
                 case ByM => FinishM(t, layout.resume(f))
                 case ByHS => FinishHS(t, layout.resume(f), f == FnVS)
                 case ByVS => FinishVS(t, layout.resume(f)))
  }

  // ---------------------------------------------------------------- registers across a call

  /** What a called function finds: its arguments one register further down, the return point, sp
      below the two words pushed or at the bottom of its CPU's user-mode stack, and every other
      callee-saved register as its caller had it. */
  lemma {:induction false} CallRegisters(t: Thread, f: Target, layout: Layout)
    requires Step(t, Calling(f), layout).Running?
    ensures var u := Step(t, Calling(f), layout).thread;
            && u.pc == t.regs[A0]
            && (forall i :: A0 <= i < A0 + 7 ==> u.regs[i] == t.regs[i + 1])
            && u.regs[RA] == layout.link(f)
            && u.regs[SP] == (if f == FnU || f == FnVU then layout.stackTop + (layout.cpu + 1) * layout.stackBytes
                              else t.regs[SP] - 16)
            && u.regs[S0] == t.regs[SP]
            && (forall i :: S0 < i < T0 ==> u.regs[i] == t.regs[i])
  {
    hide SaveGprs, AtFunction;
    AtFunctionIs(t.regs, f, layout);
    CalledThread(t, f, layout);
  }

  lemma {:induction false} CalledThread(t: Thread, f: Target, layout: Layout)
    requires Step(t, Calling(f), layout).Running?
    ensures var u := Step(t, Calling(f), layout).thread;
            u.pc == t.regs[A0] && u.regs == AtFunction(t.regs, f, layout)
  {
    hide SaveGprs, AtFunction, AtCall;
  }

  lemma {:induction false} AtFunctionIs(r: Gprs, f: Target, layout: Layout)
    ensures var u := AtFunction(r, f, layout);
            && (forall i :: A0 <= i < A0 + 7 ==> u[i] == r[i + 1])
            && u[RA] == layout.link(f)
            && u[SP] == (if f == FnU || f == FnVU then layout.stackTop + (layout.cpu + 1) * layout.stackBytes
                         else r[SP] - 16)
            && u[S0] == r[SP]
            && (forall i :: S0 < i < T0 ==> u[i] == r[i])
  {
    assert (layout.cpu + 1) * layout.stackBytes == layout.cpu * layout.stackBytes + layout.stackBytes;
  }

  /** What a call saves: sp and s0 as moved for the two words pushed, the mode checked for in t0 and
      t1, and every other register as it was. */
  lemma {:induction false} AtCallIs(r: Gprs, f: Target)
    ensures var saved := AtCall(r, f);
            && saved[SP] == r[SP] - 16 && saved[S0] == r[SP]
            && saved[T0] == saved[T1] == (if f == FnS then 3 else 1)
            && forall i :: 0 <= i < GPRS && i != SP && i != S0 && i != T0 && i != T1 ==> saved[i] == r[i]
  {
  }

  // ---------------------------------------------------------------- the fail routines

  /** jumpstart_smode_fail and jumpstart_vsmode_fail: the completing system call of a function of
      their mode, with the status DIAG_FAILED. That of M mode ends the diagnostic. */
  function FailRoutine(t: Thread, h: Handler, layout: Layout): Outcome
    requires h != ByM
  {
    Step(t.(regs := t.regs[A0 := DIAG_FAILED]), Complete(if h == ByHS then FnS else FnVS), layout)
  }

  /** A system call goes up: from user mode to a supervisor mode, from VS to S, from S to M. */
  function Rank(t: Thread): nat {
    match t.priv
    case U => if t.virt then 0 else 1
    case S => if t.virt then 1 else 2
    case M => 3
  }

  lemma {:induction false} FailureRises(t: Thread, h: Handler, layout: Layout)
    requires h != ByM
    ensures var o := FailRoutine(t, h, layout);
            o.Failed? && o.routine != ByM ==> Rank(o.thread) > Rank(t)
  {
    hide FrameM, FrameHS, FrameVS, FinishM, FinishHS, FinishVS, StackBelow;
  }

  /** From a failure through fail routines, each of which may fail in turn, to where the thread runs
      again or the diagnostic ends. */
  function Settle(o: Outcome, layout: Layout): Outcome
    decreases if o.Running? || o.routine == ByM then 0 else 4 - Rank(o.thread)
  {
    if o.Running? || o.routine == ByM then o
    else
      FailureRises(o.thread, o.routine, layout);
      Settle(FailRoutine(o.thread, o.routine, layout), layout)
  }
}
