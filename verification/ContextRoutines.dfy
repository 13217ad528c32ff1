/** The routines of ContextStack as the assembly performs them, one update after another on the
    thread's registers, attributes and save memory, each proved to compute the function of the
    same routine. The handlers' scratch register t0 is a local: it is saved before its first use,
    and loaded again by the return or counted among the registers that entry clobbers. The calls
    use t0, t1 and t2 before the function starts, so there they are registers. */
module ContextRoutines {
  import opened ContextStack

  class Hart {
    var regs: Gprs
    var pc: int
    var priv: Priv
    var virt: bool
    var csr: Csrs
    var attr: Attributes
    var memory: Memory

    function Value(): Thread
      reads this
    {
      Thread(regs, pc, priv, virt, csr, attr, memory)
    }

    constructor (t: Thread)
      ensures Value() == t
    {
      regs, pc, priv, virt, csr, attr, memory := t.regs, t.pc, t.priv, t.virt, t.csr, t.attr, t.memory;
    }

    /** One store for each saved register. */
    method SaveAllGprs(gp: nat)
      modifies this`memory
      ensures memory == SaveGprs(old(memory), gp, regs, GPRS)
    {
      for i := 0 to GPRS
        invariant memory == SaveGprs(old(memory), gp, regs, i)
      {
        memory := memory[gp + 8 * i := Int(regs[i])];
      }
    }

    /** One load for each saved register; all loads are from the frame at gp. */
    method RestoreAllGprs(gp: nat)
      modifies this`regs
      ensures regs == RestoreGprs(memory, gp)
    {
      for i := 0 to GPRS
        invariant forall k :: 0 <= k < i ==> regs[k] == LoadInt(memory, gp + 8 * k)
      {
        regs := regs[i := LoadInt(memory, gp + 8 * i)];
      }
    }

    /** The return instruction of M mode. */
    method Mret()
      modifies this`pc, this`priv, this`virt, this`csr
      ensures pc == csr.mepc && priv == old(csr.mpp) && virt == (old(csr.mpp) != M && old(csr.mpv))
      ensures csr == old(csr).(mpp := U, mpv := false)
    {
      pc := csr.mepc;
      virt := csr.mpp != M && csr.mpv;
      priv := csr.mpp;
      csr := csr.(mpp := U, mpv := false);
    }

    /** The return instruction of S mode, with V = 0. */
    method Sret()
      modifies this`pc, this`priv, this`virt, this`csr
      ensures pc == csr.sepc && priv == (if old(csr.spp) then S else U) && virt == old(csr.spv)
      ensures csr == old(csr).(spp := false, spv := false)
    {
      pc := csr.sepc;
      virt := csr.spv;
      priv := if csr.spp then S else U;
      csr := csr.(spp := false, spv := false);
    }

    /** The return instruction of S mode, with V = 1. */
    method SretVirtual()
      modifies this`pc, this`priv, this`csr
      ensures pc == csr.vsepc && priv == (if old(csr.vsSpp) then S else U)
      ensures csr == old(csr).(vsSpp := false)
    {
      pc := csr.vsepc;
      priv := if csr.vsSpp then S else U;
      csr := csr.(vsSpp := false);
    }

    method MtvecTrapHandler() returns (ok: bool)
      modifies this
      ensures ok == EnterM(old(Value())).Running?
      ensures Value() == EnterM(old(Value())).thread
    {
      hide SaveGprs;
      attr := attr.(mode := M);
      attr := attr.(vbit := false);
      var gp := attr.mLeft;
      if gp == 0 {
        return false;
      }
      attr := attr.(mLeft := gp - 1);
      gp := attr.mArea;
      SaveAllGprs(gp);
      memory := memory[gp + TVAL := Int(csr.mtval)];
      memory := memory[gp + EPC := Int(csr.mepc)];
      memory := memory[gp + HSTATUS := HFlags(csr.spv)];
      memory := memory[gp + STATUS := MFlags(csr.spp, csr.mpp, csr.mpv)];
      if csr.mpp == U {
        regs := regs[SP := StackBelow(memory, attr.sArea)];
      }
      attr := attr.(mArea := gp + FRAME);
      return true;
    }

    method StvecTrapHandler() returns (ok: bool)
      modifies this
      ensures ok == EnterHS(old(Value())).Running?
      ensures Value() == EnterHS(old(Value())).thread
    {
      hide SaveGprs;
      attr := attr.(mode := S);
      attr := attr.(vbit := false);
      var gp := attr.sLeft;
      if gp == 0 {
        return false;
      }
      attr := attr.(sLeft := gp - 1);
      gp := attr.sArea;
      SaveAllGprs(gp);
      memory := memory[gp + HSTATUS := HFlags(csr.spv)];
      memory := memory[gp + TVAL := Int(csr.stval)];
      memory := memory[gp + EPC := Int(csr.sepc)];
      memory := memory[gp + STATUS := SFlags(csr.spp)];
      if !csr.spp {
        regs := regs[SP := StackBelow(memory, gp)];
      }
      attr := attr.(sArea := gp + FRAME);
      return true;
    }

    method VstvecTrapHandler() returns (ok: bool)
      modifies this
      ensures ok == EnterVS(old(Value())).Running?
      ensures Value() == EnterVS(old(Value())).thread
    {
      hide SaveGprs;
      attr := attr.(mode := S);
      var gp := attr.sLeft;
      if gp == 0 {
        return false;
      }
      attr := attr.(sLeft := gp - 1);
      gp := attr.sArea;
      SaveAllGprs(gp);
      memory := memory[gp + TVAL := Int(csr.vstval)];
      memory := memory[gp + EPC := Int(csr.vsepc)];
      memory := memory[gp + STATUS := SFlags(csr.vsSpp)];
      if !csr.vsSpp {
        regs := regs[SP := StackBelow(memory, gp)];
      }
      attr := attr.(sArea := gp + FRAME);
      return true;
    }

    /** The frames from gp on are free again: the save pointer, then the counter. */
    method ReleaseM(gp: nat, frames: nat)
      modifies this`attr
      ensures attr == old(attr).(mArea := gp, mLeft := old(attr).mLeft + frames)
    {
      attr := attr.(mArea := gp);
      attr := attr.(mLeft := attr.mLeft + frames);
    }

    method ReleaseS(gp: nat, frames: nat)
      modifies this`attr
      ensures attr == old(attr).(sArea := gp, sLeft := old(attr).sLeft + frames)
    {
      attr := attr.(sArea := gp);
      attr := attr.(sLeft := attr.sLeft + frames);
    }

    /** restore_context of the M-mode handler. */
    method RestoreContextM()
      requires attr.mArea >= FRAME
      modifies this
      ensures Value() == ReturnM(old(Value()))
    {
      hide RestoreGprs, LoadInt, SavedMFlags, SavedSpp, SavedSpv;
      var gp := attr.mArea - FRAME;
      csr := csr.(spv := SavedSpv(memory, gp));
      csr := csr.(mtval := LoadInt(memory, gp + TVAL));
      csr := csr.(mepc := LoadInt(memory, gp + EPC));
      var status := SavedMFlags(memory, gp);
      csr := csr.(spp := status.spp, mpp := status.mpp, mpv := status.mpv);
      attr := attr.(vbit := csr.mpv);
      if csr.mpp != M {
        attr := attr.(mode := csr.mpp);
      }
      RestoreAllGprs(gp);
      ReleaseM(gp, 1);
      Mret();
    }

    /** restore_context of the S-mode handler. */
    method RestoreContextS()
      requires !virt && attr.sArea >= FRAME
      modifies this
      ensures Value() == ReturnHS(old(Value()))
    {
      hide RestoreGprs, LoadInt, SavedMFlags, SavedSpp, SavedSpv;
      var gp := attr.sArea - FRAME;
      csr := csr.(stval := LoadInt(memory, gp + TVAL));
      csr := csr.(sepc := LoadInt(memory, gp + EPC));
      csr := csr.(spv := SavedSpv(memory, gp));
      attr := attr.(vbit := csr.spv);
      csr := csr.(spp := SavedSpp(memory, gp));
      if !csr.spp {
        attr := attr.(mode := U);
      }
      RestoreAllGprs(gp);
      ReleaseS(gp, 1);
      Sret();
    }

    /** restore_context of the VS-mode handler. */
    method RestoreContextVS()
      requires virt && attr.sArea >= FRAME
      modifies this
      ensures Value() == ReturnVS(old(Value()))
    {
      hide RestoreGprs, LoadInt, SavedMFlags, SavedSpp, SavedSpv;
      var gp := attr.sArea - FRAME;
      csr := csr.(vstval := LoadInt(memory, gp + TVAL));
      csr := csr.(vsepc := LoadInt(memory, gp + EPC));
      csr := csr.(vsSpp := SavedSpp(memory, gp));
      if !csr.vsSpp {
        attr := attr.(mode := U);
      }
      RestoreAllGprs(gp);
      ReleaseS(gp, 1);
      SretVirtual();
    }

    /** jump_to_function_in_*, from the point where the mode has been recorded in t0: whatever t0
        is, the function's arguments are those of the saved registers. */
    method JumpToFunction(link: int, ghost saved: Gprs)
      requires regs[T0 := saved[T0]] == saved
      modifies this`pc, this`regs
      ensures pc == saved[A0] && regs == ShiftArguments(saved, link)
    {
      regs := regs[T0 := regs[A0]];
      for i := A0 to RA - 1
        invariant regs[..A0] == old(regs)[T0 := old(regs)[A0]][..A0] && regs[i..] == old(regs)[i..]
        invariant forall k :: A0 <= k < i ==> regs[k] == old(regs)[k + 1]
      {
        regs := regs[i := regs[i + 1]];
      }
      regs := regs[RA := link];
      pc := regs[T0];
      assert forall k :: 0 <= k < GPRS && k != T0 ==> old(regs)[k] == saved[k] by {
        assert forall k :: 0 <= k < GPRS && k != T0 ==> old(regs)[k] == old(regs)[T0 := saved[T0]][k];
      }
      assert forall k :: 0 <= k < GPRS ==> regs[k] == ShiftArguments(saved, link)[k];
    }

    /** How every call begins: the registers for the two words pushed, and the check of the mode. */
    method CheckMode(f: Target) returns (ok: bool)
      modifies this`regs
      ensures ok == (attr.mode == CallerPriv(f)) && (ok ==> regs == AtCall(old(regs), f))
      ensures regs[A0] == old(regs)[A0] && (ok ==> regs[T0] == Code(CallerPriv(f)))
    {
      regs := regs[SP := regs[SP] - 16];
      regs := regs[S0 := regs[SP] + 16];
      regs := regs[T0 := Code(attr.mode)];
      regs := regs[T1 := Code(CallerPriv(f))];
      ok := regs[T0] == regs[T1];
    }

    /** The check of the V bit, which leaves t0 as it was if it passes. */
    method CheckVBit()
      requires regs[T0] == 1
      modifies this`regs
      ensures regs[A0] == old(regs)[A0] && (regs[T0] == 0 <==> !attr.vbit) && (attr.vbit ==> regs == old(regs))
    {
      regs := regs[T0 := if attr.vbit then 1 else 0];
    }

    /** A frame of the region a call saves to: the counter, the registers, the pointer. */
    method TakeFrame(f: Target) returns (ok: bool)
      modifies this`attr, this`memory
      ensures ok == ((if f == FnS then old(attr).mLeft else old(attr).sLeft) != 0)
      ensures ok && f == FnS ==>
                && memory == SaveGprs(old(memory), old(attr).mArea, regs, GPRS)
                && attr == old(attr).(mLeft := old(attr).mLeft - 1, mArea := old(attr).mArea + FRAME)
      ensures ok && f != FnS ==>
                && memory == SaveGprs(old(memory), old(attr).sArea, regs, GPRS)
                && attr == old(attr).(sLeft := old(attr).sLeft - 1, sArea := old(attr).sArea + FRAME)
    {
      hide SaveGprs;
      var gp := if f == FnS then attr.mLeft else attr.sLeft;
      if gp == 0 {
        return false;
      }
      attr := if f == FnS then attr.(mLeft := gp - 1) else attr.(sLeft := gp - 1);
      gp := if f == FnS then attr.mArea else attr.sArea;
      SaveAllGprs(gp);
      attr := if f == FnS then attr.(mArea := gp + FRAME) else attr.(sArea := gp + FRAME);
      return true;
    }

    /** The switch to the user-mode stack of the thread's CPU. */
    method SwitchToUserStack(layout: Layout)
      modifies this`regs
      ensures regs[T0 := old(regs)[T0]] == OnUserStack(old(regs), layout)
      ensures OnUserStack(old(regs), layout)[A0] == old(regs)[A0]
      ensures OnUserStack(old(regs), layout)[T0] == old(regs)[T0]
    {
      regs := regs[T0 := layout.cpu];
      regs := regs[T1 := layout.stackBytes];
      regs := regs[T0 := regs[T0] * regs[T1]];
      regs := regs[T2 := layout.stackTop];
      regs := regs[SP := regs[T2] + regs[T0]];
      regs := regs[SP := regs[SP] + regs[T1]];
    }

    method RunFunctionInSmode(layout: Layout) returns (ok: bool)
      modifies this
      ensures ok == Call(old(Value()), FnS, layout).Running?
      ensures ok ==> Value() == Call(old(Value()), FnS, layout).thread
    {
      hide SaveGprs, ShiftArguments, AtCall;
      var allowed := CheckMode(FnS);
      if !allowed {
        return false;
      }
      ghost var saved := regs;
      var taken := TakeFrame(FnS);
      if !taken {
        return false;
      }
      csr := csr.(mpp := S);
      regs := regs[T0 := layout.stub(FnS)];
      csr := csr.(mepc := regs[T0]);
      Mret();
      regs := regs[T0 := Code(S)];
      attr := attr.(mode := S);
      assert regs[T0 := saved[T0]] == saved;
      JumpToFunction(layout.link(FnS), saved);
      return true;
    }

    method RunFunctionInUmode(layout: Layout) returns (ok: bool)
      requires !virt
      modifies this
      ensures ok == Call(old(Value()), FnU, layout).Running?
      ensures ok ==> Value() == Call(old(Value()), FnU, layout).thread
    {
      hide SaveGprs, ShiftArguments, AtCall, OnUserStack;
      var allowed := CheckMode(FnU);
      if !allowed {
        return false;
      }
      ghost var saved := regs;
      var taken := TakeFrame(FnU);
      if !taken {
        return false;
      }
      csr := csr.(spp := false);
      SwitchToUserStack(layout);
      regs := regs[T0 := Code(U)];
      attr := attr.(mode := U);
      regs := regs[T0 := layout.stub(FnU)];
      csr := csr.(sepc := regs[T0]);
      Sret();
      ghost var switched := OnUserStack(saved, layout);
      assert regs[T0 := switched[T0]] == switched;
      JumpToFunction(layout.link(FnU), switched);
      return true;
    }

    method RunFunctionInVsmode(layout: Layout) returns (ok: bool)
      requires !virt
      modifies this
      ensures ok == Call(old(Value()), FnVS, layout).Running?
      ensures ok ==> Value() == Call(old(Value()), FnVS, layout).thread
    {
      hide SaveGprs, ShiftArguments, AtCall, OnUserStack;
      var allowed := CheckMode(FnVS);
      if !allowed {
        return false;
      }
      ghost var saved := regs;
      var taken := TakeFrame(FnVS);
      if !taken {
        return false;
      }
      csr := csr.(spv := true);
      csr := csr.(spp := true);
      regs := regs[T0 := layout.stub(FnVS)];
      csr := csr.(sepc := regs[T0]);
      Sret();
      regs := regs[T0 := 1];
      attr := attr.(vbit := true);
      assert regs[T0 := saved[T0]] == saved;
      JumpToFunction(layout.link(FnVS), saved);
      return true;
    }

    method RunFunctionInVumode(layout: Layout) returns (ok: bool)
      requires virt
      modifies this
      ensures ok == Call(old(Value()), FnVU, layout).Running?
      ensures ok ==> Value() == Call(old(Value()), FnVU, layout).thread
    {
      hide SaveGprs, ShiftArguments, AtCall, OnUserStack;
      var allowed := CheckMode(FnVU);
      if !allowed {
        return false;
      }
      CheckVBit();
      if regs[T0] == 0 {
        return false;
      }
      ghost var saved := regs;
      var taken := TakeFrame(FnVU);
      if !taken {
        return false;
      }
      csr := csr.(vsSpp := false);
      SwitchToUserStack(layout);
      regs := regs[T0 := Code(U)];
      attr := attr.(mode := U);
      regs := regs[T0 := layout.stub(FnVU)];
      csr := csr.(vsepc := regs[T0]);
      SretVirtual();
      ghost var switched := OnUserStack(saved, layout);
      assert regs[T0 := switched[T0]] == switched;
      JumpToFunction(layout.link(FnVU), switched);
      return true;
    }

    /** The completion of run_function_in_smode, after the M-mode handler's entry. */
    method CompleteSmode(resume: int)
      requires attr.mArea >= 2 * FRAME
      modifies this
      ensures Value() == FinishM(old(Value()), resume)
    {
      hide RestoreGprs, LoadInt, SavedMFlags, SavedSpp, SavedSpv;
      csr := csr.(mpp := M);
      csr := csr.(mepc := resume);
      var gp := attr.mArea - FRAME;
      var t0 := LoadInt(memory, gp + 8 * A0);
      gp := gp - FRAME;
      memory := memory[gp + 8 * A0 := Int(t0)];
      RestoreAllGprs(gp);
      ReleaseM(gp, 2);
      Mret();
    }

    /** The completions of run_function_in_umode and run_function_in_vsmode. */
    method CompleteUmodeOrVsmode(resume: int, fromVS: bool)
      requires !virt && attr.sArea >= 2 * FRAME
      modifies this
      ensures Value() == FinishHS(old(Value()), resume, fromVS)
    {
      hide RestoreGprs, LoadInt, SavedMFlags, SavedSpp, SavedSpv;
      csr := csr.(spp := true);
      if fromVS {
        csr := csr.(spv := false);
      }
      csr := csr.(sepc := resume);
      var gp := attr.sArea - FRAME;
      var t0 := LoadInt(memory, gp + 8 * A0);
      gp := gp - FRAME;
      memory := memory[gp + 8 * A0 := Int(t0)];
      RestoreAllGprs(gp);
      ReleaseS(gp, 2);
      Sret();
    }

    /** The completion of run_function_in_vumode. */
    method CompleteVumode(resume: int)
      requires virt && attr.sArea >= 2 * FRAME
      modifies this
      ensures Value() == FinishVS(old(Value()), resume)
    {
      hide RestoreGprs, LoadInt, SavedMFlags, SavedSpp, SavedSpv;
      csr := csr.(vsSpp := true);
      csr := csr.(vsepc := resume);
      var gp := attr.sArea - FRAME;
      var t0 := LoadInt(memory, gp + 8 * A0);
      gp := gp - FRAME;
      memory := memory[gp + 8 * A0 := Int(t0)];
      RestoreAllGprs(gp);
      ReleaseS(gp, 2);
      SretVirtual();
    }
  }

  // ---------------------------------------------------------------- set-up

  /** A region is emitted with one slice for each supported CPU; CPU c's starts here. */
  function SliceOf(c: nat, region: nat): nat { region + c * (FRAME * MAX_SAVES) }

  /** The slices of the supported CPUs fill the region, and no two of them overlap. */
  lemma {:induction false} SlicesAreApart(cpus: nat, region: nat, c: nat, d: nat)
    ensures SliceOf(c, region) < SliceOf(cpus, region) <==> c < cpus
    ensures c < cpus ==> SliceOf(c, region) + MAX_SAVES * FRAME <= SliceOf(cpus, region)
    ensures c < d ==> SliceOf(c, region) + MAX_SAVES * FRAME <= SliceOf(d, region)
  {
  }

  /** Set-up of a thread's save pointer and counter: the bound check against the end of the
      region passes exactly for the supported CPUs. */
  method SetUpArea(cpu: nat, cpus: nat, region: nat) returns (area: nat, left: nat, ok: bool)
    ensures ok <==> cpu < cpus
    ensures ok ==> left == MAX_SAVES && area == SliceOf(cpu, region) && area + left * FRAME <= SliceOf(cpus, region)
    ensures ok ==> left == 5 && area == region + cpu * 1320
  {
    area := cpu * (FRAME * MAX_SAVES);
    area := region + area;
    left := MAX_SAVES;
    ok := area < SliceOf(cpus, region);
    SlicesAreApart(cpus, region, cpu, cpus);
  }
}
