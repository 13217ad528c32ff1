/** What every run of the barrier guarantees: safety in all interleavings and over any number of
    rounds, progress, and exactly which masks let anyone through. */
module BarrierRuns {
  import opened Bits
  import opened Interleaving
  import opened SyncWord
  import opened Barrier

  // ---------------------------------------------------------------- safety

  /** In every interleaving, for CPUs of the mask: one has returned from a round only if the other
      has set its bit for that round, no two are more than one round apart, and none of them
      reaches the fail routine: the consistency checks hold. */
  lemma {:induction false} BarrierIsSafe(mask: nat, s: State, who: seq<nat>, c: nat, d: nat)
    requires Start(s) && MaskOk(mask, |s.cpus|) && Schedule(who, |s.cpus|)
    requires c < |s.cpus| && d < |s.cpus| && Bit(mask, c) && Bit(mask, d)
    ensures var r := Run(mask, s, who);
            && r.cpus[c].left <= r.cpus[d].arrived <= r.cpus[d].entered
            && r.cpus[c].left <= r.cpus[d].left + 1
            && r.cpus[c].entered <= r.cpus[d].entered + 1
            && r.cpus[c].place != Failed
  {
    hide Step, Bit, Ctz, Run;
    StartInv(mask, s);
    RunKeeps(mask, s, who);
    var r := Run(mask, s, who);
    assert CpuOk(mask, r.word, r.cpus[c], c, Rounds(mask, r));
    assert CpuOk(mask, r.word, r.cpus[d], d, Rounds(mask, r));
  }

  /** A CPU that is not in the mask fails exactly when it calls. */
  lemma {:induction false} OutsidersFail(mask: nat, s: State, who: seq<nat>, c: nat)
    requires Start(s) && MaskOk(mask, |s.cpus|) && Schedule(who, |s.cpus|)
    requires c < |s.cpus| && !Bit(mask, c)
    ensures Run(mask, s, who).cpus[c].place == (if c in who then Failed else Outside)
  {
    hide Inv, Bit, Ctz, LoadWord, Or, And, ShiftLeft;
    if |who| > 0 {
      var m := |who| - 1;
      OutsidersFail(mask, s, who[..m], c);
      StartInv(mask, s);
      RunKeeps(mask, s, who[..m]);
      WordBound(mask, Run(mask, s, who[..m]));
      StepIs(mask, Run(mask, s, who[..m]), who[m]);
      assert who == who[..m] + [who[m]];
    }
  }

  lemma {:induction false} WordBound(mask: nat, s: State)
    requires Inv(mask, s)
    ensures s.word < 0x1_0000_0000 && MaskOk(mask, |s.cpus|)
  {
  }

  // ---------------------------------------------------------------- progress

  /** A reachable state is never stuck: some CPU of the mask has a step that is not a spin. */
  lemma {:induction false} SomeoneCanMove(mask: nat, s: State) returns (c: nat)
    requires Inv(mask, s)
    ensures c < |s.cpus| && Bit(mask, c) && Step(mask, s, c) != s
  {
    hide Ctz, LoadWord, Or, And, ShiftLeft, Bit;
    c := Ctz(mask);
    StepIs(mask, s, c);
    assert CpuOk(mask, s.word, s.cpus[c], c, Rounds(mask, s));
    if Step(mask, s, c) == s {
      assert s.cpus[c].place == Gathering && s.word != mask;
      c := MissingBit(mask, s.word);
      StepIs(mask, s, c);
      assert CpuOk(mask, s.word, s.cpus[c], c, Rounds(mask, s));
    }
  }

  /** A word inside the mask but different from it lacks a bit of the mask. */
  lemma {:induction false} MissingBit(mask: nat, word: nat) returns (i: nat)
    requires word != mask && forall j: nat :: Bit(word, j) ==> Bit(mask, j)
    ensures Bit(mask, i) && !Bit(word, i)
  {
    hide Bit;
    if forall j: nat :: Bit(mask, j) ==> Bit(word, j) {
      SameBits(mask, word);
    }
    i :| Bit(mask, i) && !Bit(word, i);
  }

  /** How far a CPU has come: four places a round. */
  function Progress(cpu: Cpu): nat {
    4 * cpu.left + match cpu.place
                   case Outside => 0
                   case Checked => 1
                   case Failed => 1
                   case Gathering => 2
                   case Waiting => 2
                   case Swapping => 3
  }

  /** How far all CPUs have come. */
  function Total(cpus: seq<Cpu>): nat {
    Sum(seq(|cpus|, c requires 0 <= c < |cpus| => Progress(cpus[c])))
  }

  lemma {:induction false} TotalUpdate(cpus: seq<Cpu>, c: nat, cpu: Cpu)
    requires c < |cpus|
    ensures Total(cpus[c := cpu]) == Total(cpus) + Progress(cpu) - Progress(cpus[c])
  {
    hide Progress;
    var all := seq(|cpus|, d requires 0 <= d < |cpus| => Progress(cpus[d]));
    var changed := cpus[c := cpu];
    assert seq(|changed|, d requires 0 <= d < |changed| => Progress(changed[d])) == all[c := Progress(cpu)];
    SumUpdate(all, c, Progress(cpu));
  }

  lemma {:induction false} TotalBound(cpus: seq<Cpu>, most: nat)
    requires forall c :: 0 <= c < |cpus| ==> Progress(cpus[c]) <= most
    ensures Total(cpus) <= |cpus| * most
  {
    SumBound(seq(|cpus|, c requires 0 <= c < |cpus| => Progress(cpus[c])), most);
  }

  lemma {:induction false} MovesCount(mask: nat, s: State, who: seq<nat>)
    requires Inv(mask, s) && Schedule(who, |s.cpus|)
    ensures Moves(mask, s, who) <= Total(Run(mask, s, who).cpus)
  {
    hide Inv, Bit, Ctz, LoadWord, Or, And, ShiftLeft;
    if |who| > 0 {
      var before := Run(mask, s, who[..|who| - 1]);
      var c := who[|who| - 1];
      MovesCount(mask, s, who[..|who| - 1]);
      RunKeeps(mask, s, who[..|who| - 1]);
      if Step(mask, before, c) != before {
        MoveGrows(mask, before, c);
      }
    }
  }

  lemma {:induction false} MoveGrows(mask: nat, s: State, c: nat)
    requires Inv(mask, s) && c < |s.cpus| && Step(mask, s, c) != s
    ensures Total(Step(mask, s, c).cpus) > Total(s.cpus)
  {
    hide Bit, Ctz, LoadWord, Or, And, ShiftLeft, Total;
    StepIs(mask, s, c);
    assert CpuOk(mask, s.word, s.cpus[c], c, Rounds(mask, s));
    TotalUpdate(s.cpus, c, Step(mask, s, c).cpus[c]);
  }

  /** Every step that is not a spin brings the round closer to its end: in k completed rounds
      n CPUs make at most n(4k + 3) such steps, whatever the interleaving. */
  lemma {:induction false} RoundsComplete(mask: nat, s: State, who: seq<nat>)
    requires Start(s) && MaskOk(mask, |s.cpus|) && Schedule(who, |s.cpus|)
    ensures Ctz(mask) < |s.cpus|
    ensures Moves(mask, s, who) <= |s.cpus| * (4 * Rounds(mask, Run(mask, s, who)) + 3)
  {
    hide Bit, Ctz, Step, Total, Run, Moves;
    StartInv(mask, s);
    RunKeeps(mask, s, who);
    MovesCount(mask, s, who);
    var r := Run(mask, s, who);
    var k := Rounds(mask, r);
    forall c | 0 <= c < |r.cpus|
      ensures Progress(r.cpus[c]) <= 4 * k + 3
    {
      assert CpuOk(mask, r.word, r.cpus[c], c, k);
    }
    TotalBound(r.cpus, 4 * k + 3);
  }

  /** From any reachable state there is a run with as many moves as one likes. */
  lemma {:induction false} SomeRun(mask: nat, s: State, moves: nat) returns (who: seq<nat>)
    requires Inv(mask, s)
    ensures Schedule(who, |s.cpus|) && Moves(mask, s, who) == moves
  {
    hide Inv, Bit, Ctz, LoadWord, Or, And, ShiftLeft, Step;
    if moves == 0 {
      who := [];
    } else {
      var first := SomeRun(mask, s, moves - 1);
      RunKeeps(mask, s, first);
      var c := SomeoneCanMove(mask, Run(mask, s, first));
      who := first + [c];
      assert who[..|who| - 1] == first;
    }
  }

  // ---------------------------------------------------------------- bit 31

  /** With bit 31 in the mask the loaded word is sign-extended and never equals it. */
  predicate Blocked(s: State) {
    && s.word < 0x1_0000_0000
    && forall c :: 0 <= c < |s.cpus| ==>
         && s.cpus[c].left == 0
         && s.cpus[c].place != Swapping
         && (s.cpus[c].place == Waiting ==> Bit(s.word, c))
  }

  lemma {:induction false} BlockedKeeps(mask: nat, s: State, c: nat)
    requires Blocked(s) && |s.cpus| <= 32 && c < |s.cpus| && 0x8000_0000 <= mask < 0x1_0000_0000
    ensures Blocked(Step(mask, s, c))
  {
    hide Bit, Ctz, Or, And, ShiftLeft;
    assert LoadWord(s.word) != mask;
    LoadedBit(s.word, c);
    Pow2Is32();
    ShiftOne(c);
    Pow2Strict(c, 32);
    OrBelow(s.word, ShiftLeft(1, c), 32);
    forall d: nat
      ensures Bit(Or(s.word, ShiftLeft(1, c)), d) <==> Bit(s.word, d) || c == d
    {
      SetBit(s.word, c, d);
    }
  }

  lemma {:induction false} BlockedRun(mask: nat, s: State, who: seq<nat>)
    requires Blocked(s) && |s.cpus| <= 32 && Schedule(who, |s.cpus|) && 0x8000_0000 <= mask < 0x1_0000_0000
    ensures Blocked(Run(mask, s, who))
  {
    hide Blocked, Step;
    if |who| > 0 {
      BlockedRun(mask, s, who[..|who| - 1]);
      BlockedKeeps(mask, Run(mask, s, who[..|who| - 1]), who[|who| - 1]);
    }
  }

  ghost predicate SomeoneLeaves(mask: nat, s: State) {
    exists who, c :: Schedule(who, |s.cpus|) && 0 <= c < |s.cpus| && Run(mask, s, who).cpus[c].left > 0
  }

  /** Exactly when the barrier can be passed at all: a non-empty mask of existing CPUs lets
      someone through in some run if and only if it leaves bit 31 clear. */
  lemma {:induction false} PassableExactlyBelowBit31(mask: nat, s: State)
    requires Start(s)
    requires 0 < mask < 0x1_0000_0000 && forall i: nat :: Bit(mask, i) ==> i < |s.cpus|
    ensures SomeoneLeaves(mask, s) <==> mask < 0x8000_0000
  {
    hide Bit, Ctz, Or, And, ShiftLeft, Step;
    if mask < 0x8000_0000 {
      StartInv(mask, s);
      var who := SomeRun(mask, s, 3 * |s.cpus| + 1);
      RoundsComplete(mask, s, who);
      assert Run(mask, s, who).cpus[Ctz(mask)].left > 0;
    } else {
      forall who, c | Schedule(who, |s.cpus|) && 0 <= c < |s.cpus|
        ensures Run(mask, s, who).cpus[c].left == 0
      {
        BlockedRun(mask, s, who);
      }
    }
  }
}
