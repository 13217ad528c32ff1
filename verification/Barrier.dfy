/** The multi-CPU barrier `sync_cpus_in_mask`, as a state machine whose steps are the
    atomic accesses to the shared sync word, run in any interleaving and re-entered for
    any number of rounds.

    One 32-bit word is shared. Each CPU sets its own bit; the lowest CPU of the mask is the
    primary, waits until the word equals the mask and clears it; the others wait until their
    own bit is clear. */
module Barrier {
  import opened Bits
  import opened Interleaving
  import opened SyncWord

  /** Where a CPU is between two of its shared-memory accesses. */
  datatype Place =
    | Outside    // not in the barrier
    | Checked    // passed the mask checks, has not touched the word yet
    | Gathering  // the primary, spinning until the word equals the mask
    | Swapping   // the primary, about to swap zero into the word
    | Waiting    // not the primary, spinning until its own bit is clear
    | Failed     // took a branch to the fail routine

  /** A CPU: its place, and how often it called the barrier, set its bit, and returned. */
  datatype Cpu = Cpu(place: Place, entered: nat, arrived: nat, left: nat)

  datatype State = State(word: nat, cpus: seq<Cpu>)

  predicate Start(s: State) {
    && s.word == 0
    && |s.cpus| <= 32
    && forall c :: 0 <= c < |s.cpus| ==> s.cpus[c] == Cpu(Outside, 0, 0, 0)
  }

  /** CPU c makes its next step. A spinning CPU whose condition is not met stays where it is. */
  function Step(mask: nat, s: State, c: nat): State
    requires c < |s.cpus|
  {
    var cpu := s.cpus[c];
    var own := ShiftLeft(1, c);
    var primary := ShiftLeft(1, Ctz(mask) % 64);
    match cpu.place
    case Outside =>
      if And(own, mask) == 0 || And(primary, mask) == 0
      then s.(cpus := s.cpus[c := cpu.(place := Failed)])
      else s.(cpus := s.cpus[c := cpu.(place := Checked, entered := cpu.entered + 1)])
    case Checked =>
      var next := if And(own, LoadWord(s.word)) != 0 then Failed
                  else if primary != own then Waiting else Gathering;
      State(Or(s.word, own), s.cpus[c := cpu.(place := next, arrived := cpu.arrived + 1)])
    case Gathering =>
      if LoadWord(s.word) != mask then s
      else s.(cpus := s.cpus[c := cpu.(place := Swapping)])
    case Swapping =>
      if LoadWord(s.word) != mask then State(0, s.cpus[c := cpu.(place := Failed)])
      else State(0, s.cpus[c := cpu.(place := Outside, left := cpu.left + 1)])
    case Waiting =>
      if Bit(LoadWord(s.word), c) then s
      else s.(cpus := s.cpus[c := cpu.(place := Outside, left := cpu.left + 1)])
    case Failed => s
  }

  function Run(mask: nat, s: State, who: seq<nat>): (r: State)
    requires Schedule(who, |s.cpus|)
    ensures |r.cpus| == |s.cpus|
  {
    if |who| == 0 then s
    else
      var before := Run(mask, s, who[..|who| - 1]);
      Step(mask, before, who[|who| - 1])
  }

  /** The number of steps of a run that changed the state. */
  function Moves(mask: nat, s: State, who: seq<nat>): nat
    requires Schedule(who, |s.cpus|)
  {
    if |who| == 0 then 0
    else
      var before := Run(mask, s, who[..|who| - 1]);
      Moves(mask, s, who[..|who| - 1]) + (if Step(mask, before, who[|who| - 1]) != before then 1 else 0)
  }

  /** The mask names CPUs that exist, and leaves bit 31 clear. */
  ghost predicate MaskOk(mask: nat, n: nat) {
    && 0 < mask < 0x8000_0000
    && n <= 32
    && forall i: nat :: Bit(mask, i) ==> i < n
  }

  /** What the branches of a step compute, in terms of bits and CPU numbers. */
  lemma {:induction false} StepIs(mask: nat, s: State, c: nat)
    requires MaskOk(mask, |s.cpus|) && c < |s.cpus| && s.word < 0x1_0000_0000
    ensures And(ShiftLeft(1, c), mask) == 0 || And(ShiftLeft(1, Ctz(mask) % 64), mask) == 0 <==> !Bit(mask, c)
    ensures And(ShiftLeft(1, c), LoadWord(s.word)) != 0 <==> Bit(s.word, c)
    ensures ShiftLeft(1, Ctz(mask) % 64) == ShiftLeft(1, c) <==> Ctz(mask) == c
    ensures Bit(LoadWord(s.word), c) <==> Bit(s.word, c)
    ensures LoadWord(s.word) == mask <==> s.word == mask
    ensures Or(s.word, ShiftLeft(1, c)) < 0x1_0000_0000
    ensures Bit(mask, Ctz(mask)) && Ctz(mask) < |s.cpus|
  {
    hide Bit, Ctz, Or, And, ShiftLeft, Pow2;
    LowestIsSet(mask);
    TestBit(mask, c);
    TestBit(mask, Ctz(mask));
    TestBit(LoadWord(s.word), c);
    LoadedBit(s.word, c);
    OneBitWords(Ctz(mask), c);
    Pow2Is32();
    ShiftOne(c);
    Pow2Strict(c, 32);
    OrBelow(s.word, ShiftLeft(1, c), 32);
  }

  // ---------------------------------------------------------------- the invariant

  /** Rounds completed so far: how often the primary has returned. */
  function Rounds(mask: nat, s: State): nat
    requires Ctz(mask) < |s.cpus|
  {
    s.cpus[Ctz(mask)].left
  }

  predicate Inside(p: Place) { p == Gathering || p == Swapping || p == Waiting }

  /** CPU c when k rounds are complete: its bit tells whether it has arrived for round k + 1. */
  predicate CpuOk(mask: nat, word: nat, cpu: Cpu, c: nat, k: nat) {
    if Bit(mask, c) then
      && cpu.place != Failed
      && cpu.arrived == k + (if Bit(word, c) then 1 else 0)
      && cpu.left <= k
      && cpu.arrived == cpu.left + (if Inside(cpu.place) then 1 else 0)
      && cpu.entered == cpu.arrived + (if cpu.place == Checked then 1 else 0)
      && (cpu.place == Gathering || cpu.place == Swapping ==> c == Ctz(mask))
      && (cpu.place == Waiting ==> c != Ctz(mask))
      && (cpu.place == Swapping ==> word == mask)
    else
      && (cpu.place == Outside || cpu.place == Failed)
      && cpu.entered == 0 && cpu.arrived == 0 && cpu.left == 0
  }

  ghost predicate Inv(mask: nat, s: State) {
    && MaskOk(mask, |s.cpus|)
    && Ctz(mask) < |s.cpus|
    && s.word < 0x1_0000_0000
    && (forall i: nat :: Bit(s.word, i) ==> Bit(mask, i))
    && forall c :: 0 <= c < |s.cpus| ==> CpuOk(mask, s.word, s.cpus[c], c, Rounds(mask, s))
  }

  lemma {:induction false} StartInv(mask: nat, s: State)
    requires Start(s) && MaskOk(mask, |s.cpus|)
    ensures Inv(mask, s)
  {
    LowestIsSet(mask);
    forall i: nat
      ensures !Bit(0, i)
    {
      NoBits(i);
    }
  }

  /** Setting one's own bit. */
  lemma {:induction false} ArriveKeeps(mask: nat, s: State, c: nat)
    requires Inv(mask, s) && c < |s.cpus| && s.cpus[c].place == Checked
    ensures Inv(mask, Step(mask, s, c))
  {
    hide Bit, Ctz, LoadWord, Or, And, ShiftLeft;
    StepIs(mask, s, c);
    var r := Step(mask, s, c);
    assert CpuOk(mask, s.word, s.cpus[c], c, Rounds(mask, s));
    assert Bit(mask, c) && !Bit(s.word, c) && s.word != mask;
    forall i: nat
      ensures Bit(r.word, i) <==> Bit(s.word, i) || i == c
    {
      SetBit(s.word, c, i);
    }
    assert Rounds(mask, r) == Rounds(mask, s);
    forall d | 0 <= d < |r.cpus|
      ensures CpuOk(mask, r.word, r.cpus[d], d, Rounds(mask, r))
    {
      assert CpuOk(mask, s.word, s.cpus[d], d, Rounds(mask, s));
    }
  }

  /** The primary clears the word: everyone has arrived, and the next round begins. */
  lemma {:induction false} ClearKeeps(mask: nat, s: State, c: nat)
    requires Inv(mask, s) && c < |s.cpus| && s.cpus[c].place == Swapping
    ensures Inv(mask, Step(mask, s, c))
  {
    hide Bit, Ctz, LoadWord, Or, And, ShiftLeft;
    StepIs(mask, s, c);
    var r := Step(mask, s, c);
    assert CpuOk(mask, s.word, s.cpus[c], c, Rounds(mask, s));
    forall i: nat
      ensures !Bit(0, i)
    {
      NoBits(i);
    }
    assert Rounds(mask, r) == Rounds(mask, s) + 1;
    forall d | 0 <= d < |r.cpus|
      ensures CpuOk(mask, r.word, r.cpus[d], d, Rounds(mask, r))
    {
      assert CpuOk(mask, s.word, s.cpus[d], d, Rounds(mask, s));
    }
  }

  /** Every other step leaves the word and the round alone. */
  lemma {:induction false} OtherStepKeeps(mask: nat, s: State, c: nat)
    requires Inv(mask, s) && c < |s.cpus|
    requires s.cpus[c].place != Checked && s.cpus[c].place != Swapping
    ensures Inv(mask, Step(mask, s, c))
  {
    hide Bit, Ctz, LoadWord, Or, And, ShiftLeft;
    StepIs(mask, s, c);
    var r := Step(mask, s, c);
    assert CpuOk(mask, s.word, s.cpus[c], c, Rounds(mask, s));
    assert Rounds(mask, r) == Rounds(mask, s);
    forall d | 0 <= d < |r.cpus|
      ensures CpuOk(mask, r.word, r.cpus[d], d, Rounds(mask, r))
    {
      assert CpuOk(mask, s.word, s.cpus[d], d, Rounds(mask, s));
    }
  }

  lemma {:induction false} StepKeeps(mask: nat, s: State, c: nat)
    requires Inv(mask, s) && c < |s.cpus|
    ensures Inv(mask, Step(mask, s, c))
  {
    hide Inv, Step;
    if s.cpus[c].place == Checked {
      ArriveKeeps(mask, s, c);
    } else if s.cpus[c].place == Swapping {
      ClearKeeps(mask, s, c);
    } else {
      OtherStepKeeps(mask, s, c);
    }
  }

  lemma {:induction false} RunKeeps(mask: nat, s: State, who: seq<nat>)
    requires Inv(mask, s) && Schedule(who, |s.cpus|)
    ensures Inv(mask, Run(mask, s, who))
  {
    hide Inv, Step;
    if |who| > 0 {
      RunKeeps(mask, s, who[..|who| - 1]);
      StepKeeps(mask, Run(mask, s, who[..|who| - 1]), who[|who| - 1]);
    }
  }
}
