/** The race to set up a heap. CPUs call `setup_heap`, in any order and at any time, and then
    allocate under the heap's spinlock. Each step is one access to shared memory; every
    interleaving is a run. The first look at `setup_done` is taken without the lock. */
module HeapSetup {
  import opened Interleaving

  /** Arguments of a CPU's call: the heap's start and size, and whether the translation and
      memory-type checks on both of its ends pass. */
  datatype Args = Args(start: nat, size: nat, usable: bool)

  datatype Purpose = Setup | Use

  /** Where a CPU is between two accesses to shared memory. */
  datatype Place =
    | Called                  // about to read setup_done without the lock
    | FastHead                // saw it set, about to compare the head
    | Test(why: Purpose)      // spinning: about to load the lock
    | Swap(why: Purpose)      // about to swap one into the lock
    | Recheck                 // has the lock, about to read setup_done again
    | WriteHead
    | WriteChunk              // the initial chunk and last_allocated
    | WriteSize
    | WriteDone
    | CompareHead
    | CompareSize
    | Release(why: Purpose)   // about to swap zero into the lock
    | Ready                   // setup_heap has returned
    | Reading                 // inside an allocation, about to read the chunk list
    | Writing(seen: nat)      // inside an allocation, about to write what it computed
    | Failed

  /** What a call found: nothing yet; `setup_done` set at its unlocked look; set, or clear, under
      the lock. */
  datatype Found = Nothing | SetUnlocked | SetLocked | ClearLocked

  /** A CPU: its arguments and its place; as bookkeeping, what its call found, how often it saw the
      lock free, and how many allocations it has made. */
  datatype Cpu = Cpu(args: Args, place: Place, found: Found, tries: nat, made: nat)

  /** The heap's record. `chunks` stands for the chunk list: the number of allocations it
      reflects. `holder`, `setups`, `winner` and `taken` are bookkeeping: who took the lock last,
      how many initialisations began, who began the last one, and how often the lock was taken. */
  datatype State = State(lock: nat, setupDone: bool, head: nat, size: nat, chunks: nat,
                         holder: nat, setups: nat, winner: nat, taken: nat, cpus: seq<Cpu>)

  ghost predicate Start(s: State) {
    && s.lock == 0 && !s.setupDone && s.setups == 0 && s.holder == 0 && s.winner == 0 && s.taken == 0
    && forall c :: 0 <= c < |s.cpus| ==> s.cpus[c] == Cpu(s.cpus[c].args, Called, Nothing, 0, 0)
  }

  function At(s: State, c: nat, p: Place): State
    requires c < |s.cpus|
  {
    s.(cpus := s.cpus[c := s.cpus[c].(place := p)])
  }

  /** A CPU finds `setup_done` set or clear and acts on it. */
  function Finds(s: State, c: nat, p: Place, found: Found): State
    requires c < |s.cpus|
  {
    s.(cpus := s.cpus[c := s.cpus[c].(place := p, found := found)])
  }

  /** CPU c makes its next step. */
  function Step(s: State, c: nat): (r: State)
    requires c < |s.cpus|
    ensures |r.cpus| == |s.cpus|
  {
    var a := s.cpus[c].args;
    match s.cpus[c].place
    case Called => if s.setupDone then Finds(s, c, FastHead, SetUnlocked) else At(s, c, Test(Setup))
    case FastHead => At(s, c, if s.head != a.start then Failed else Ready)
    case Test(why) =>
      if s.lock != 0 then s
      else s.(cpus := s.cpus[c := s.cpus[c].(place := Swap(why), tries := s.cpus[c].tries + 1)])
    case Swap(why) =>
      if s.lock != 0 then At(s, c, Test(why))
      else At(s.(lock := 1, holder := c, taken := s.taken + 1), c, if why == Setup then Recheck else Reading)
    case Recheck =>
      if s.setupDone then Finds(s, c, CompareHead, SetLocked)
      else Finds(s, c, if a.usable then WriteHead else Failed, ClearLocked)
    case WriteHead => At(s.(head := a.start, setups := s.setups + 1, winner := c), c, WriteChunk)
    case WriteChunk => At(s.(chunks := 0), c, WriteSize)
    case WriteSize => At(s.(size := a.size), c, WriteDone)
    case WriteDone => At(s.(setupDone := true), c, Release(Setup))
    case CompareHead => At(s, c, if s.head != a.start then Failed else CompareSize)
    case CompareSize => At(s, c, if s.size != a.size then Failed else Release(Setup))
    case Release(why) => At(s.(lock := 0), c, Ready)
    case Ready => At(s, c, Test(Use))
    case Reading => At(s, c, Writing(s.chunks))
    case Writing(seen) =>
      s.(chunks := seen + 1, cpus := s.cpus[c := s.cpus[c].(place := Release(Use), made := s.cpus[c].made + 1)])
    case Failed => s
  }

  function Run(s: State, who: seq<nat>): (r: State)
    requires Schedule(who, |s.cpus|)
    ensures |r.cpus| == |s.cpus|
  {
    if |who| == 0 then s else Step(Run(s, who[..|who| - 1]), who[|who| - 1])
  }

  /** Between taking the lock and releasing it. */
  predicate Locked(p: Place) {
    match p
    case Recheck | WriteHead | WriteChunk | WriteSize | WriteDone => true
    case CompareHead | CompareSize | Release(_) | Reading | Writing(_) => true
    case _ => false
  }

  /** Past the initialisation: has seen `setup_done` set, or has set it. */
  predicate Past(p: Place) {
    match p
    case FastHead | CompareHead | CompareSize | Ready => true
    case Test(why) => why == Use
    case Swap(why) => why == Use
    case Release(_) | Reading | Writing(_) => true
    case _ => false
  }

  /** setup_heap has returned to this CPU. */
  predicate Returned(p: Place) {
    match p
    case Ready | Test(Use) | Swap(Use) | Release(Use) | Reading | Writing(_) => true
    case _ => false
  }

  predicate Initialising(p: Place) { p == WriteChunk || p == WriteSize || p == WriteDone }

  /** How many allocations all CPUs have made. */
  function Made(cpus: seq<Cpu>): nat {
    Sum(seq(|cpus|, c requires 0 <= c < |cpus| => cpus[c].made))
  }

  // ---------------------------------------------------------------- the invariant

  /** What holds of CPU c. */
  predicate CpuOk(s: State, c: nat)
    requires c < |s.cpus| && s.winner < |s.cpus|
  {
    var p, a, w := s.cpus[c].place, s.cpus[c].args, s.cpus[s.winner].args;
    && (Locked(p) ==> s.lock == 1 && s.holder == c)
    && (Past(p) ==> s.setupDone)
    && (p == WriteHead ==> s.setups == 0)
    && (Initialising(p) ==> !s.setupDone && s.setups == 1 && s.winner == c)
    && (Initialising(p) && p != WriteChunk ==> s.chunks == 0)
    && (p == WriteHead || Initialising(p) ==> a.usable)
    && (p == WriteDone ==> s.size == a.size)
    && (p.Writing? ==> p.seen == s.chunks)
    && (Returned(p) || p == Release(Setup) || p == CompareSize ==> a.start == w.start)
    && (p == Failed ==> !a.usable || (s.setupDone && (a.start != w.start || a.size != w.size)))
    && (!s.setupDone ==> s.cpus[c].made == 0)
  }

  predicate Inv(s: State) {
    && (|s.cpus| > 0 ==> s.winner < |s.cpus| && s.holder < |s.cpus|)
    && (s.lock == 0 || s.lock == 1)
    && s.setups <= 1
    && (forall c :: 0 <= c < |s.cpus| ==> CpuOk(s, c))
    && (s.lock == 1 ==> |s.cpus| > 0 && (Locked(s.cpus[s.holder].place) || s.cpus[s.holder].place == Failed))
    && (s.setupDone ==> s.setups == 1)
    && (s.setups == 1 ==> |s.cpus| > 0 && s.head == s.cpus[s.winner].args.start && s.cpus[s.winner].args.usable)
    && (s.setups == 1 && !s.setupDone ==> Initialising(s.cpus[s.winner].place))
    && (s.setupDone ==> s.size == s.cpus[s.winner].args.size && s.chunks == Made(s.cpus))
  }

  lemma {:induction false} MadeMore(cpus: seq<Cpu>, c: nat, cpu: Cpu)
    requires c < |cpus|
    ensures Made(cpus[c := cpu]) == Made(cpus) + cpu.made - cpus[c].made
  {
    var all := seq(|cpus|, d requires 0 <= d < |cpus| => cpus[d].made);
    var changed := cpus[c := cpu];
    assert seq(|changed|, d requires 0 <= d < |changed| => changed[d].made) == all[c := cpu.made];
    SumUpdate(all, c, cpu.made);
  }

  lemma {:induction false} MadeNone(cpus: seq<Cpu>)
    requires forall c :: 0 <= c < |cpus| ==> cpus[c].made == 0
    ensures Made(cpus) == 0
  {
    SumBound(seq(|cpus|, c requires 0 <= c < |cpus| => cpus[c].made), 0);
  }

  /** A step changes the sum of the allocations made only by the one allocation it completes. */
  lemma {:induction false} MadeStep(s: State, c: nat)
    requires c < |s.cpus|
    ensures Made(Step(s, c).cpus) == Made(s.cpus) + (if s.cpus[c].place.Writing? then 1 else 0)
  {
    hide Made;
    var r := Step(s, c);
    MadeMore(s.cpus, c, r.cpus[c]);
    assert r.cpus == s.cpus[c := r.cpus[c]];
  }

  lemma {:induction false} OwnKeepsUnlocked(s: State, c: nat)
    requires Inv(s) && c < |s.cpus| && !Locked(s.cpus[c].place)
    ensures Step(s, c).winner < |s.cpus| && CpuOk(Step(s, c), c)
  {
    hide Made;
    assert CpuOk(s, c) && CpuOk(s, s.winner);
  }

  lemma {:induction false} OwnKeepsLocked(s: State, c: nat)
    requires Inv(s) && c < |s.cpus| && Locked(s.cpus[c].place)
    ensures Step(s, c).winner < |s.cpus| && CpuOk(Step(s, c), c)
  {
    hide Made;
    assert CpuOk(s, c) && CpuOk(s, s.winner);
  }

  /** The lock keeps the others out, so a step of one CPU does not disturb what holds of another. */
  lemma {:induction false} OtherKeeps(s: State, c: nat, d: nat)
    requires Inv(s) && c < |s.cpus| && d < |s.cpus| && c != d
    ensures Step(s, c).winner < |s.cpus| && CpuOk(Step(s, c), d)
  {
    hide Made;
    assert CpuOk(s, c) && CpuOk(s, d);
    var r := Step(s, c);
    assert r.cpus[d] == s.cpus[d];
    assert Locked(s.cpus[d].place) ==> r == s.(cpus := r.cpus);
  }

  lemma {:induction false} StepKeeps(s: State, c: nat)
    requires Inv(s) && c < |s.cpus|
    ensures Inv(Step(s, c))
  {
    hide Made;
    var r := Step(s, c);
    forall d | 0 <= d < |r.cpus|
      ensures r.winner < |r.cpus| && CpuOk(r, d)
    {
      if d == c {
        if Locked(s.cpus[c].place) {
          OwnKeepsLocked(s, c);
        } else {
          OwnKeepsUnlocked(s, c);
        }
      } else {
        OtherKeeps(s, c, d);
      }
    }
    HeapKeeps(s, c);
  }

  lemma {:induction false} HeapKeeps(s: State, c: nat)
    requires Inv(s) && c < |s.cpus|
    ensures var r := Step(s, c);
            && r.winner < |r.cpus| && r.holder < |r.cpus|
            && (r.lock == 0 || r.lock == 1) && r.setups <= 1
            && (r.lock == 1 ==> Locked(r.cpus[r.holder].place) || r.cpus[r.holder].place == Failed)
            && (r.setupDone ==> r.setups == 1)
            && (r.setups == 1 ==> r.head == r.cpus[r.winner].args.start && r.cpus[r.winner].args.usable)
            && (r.setups == 1 && !r.setupDone ==> Initialising(r.cpus[r.winner].place))
            && (r.setupDone ==> r.size == r.cpus[r.winner].args.size && r.chunks == Made(r.cpus))
  {
    hide Made, Past, Returned;
    ChunksKeep(s, c);
    assert CpuOk(s, c) && CpuOk(s, s.winner);
  }

  /** The list reflects every completed allocation: no update is lost. */
  lemma {:induction false} ChunksKeep(s: State, c: nat)
    requires Inv(s) && c < |s.cpus|
    ensures Step(s, c).setupDone ==> Step(s, c).chunks == Made(Step(s, c).cpus)
  {
    hide Made, Past, Returned;
    MadeStep(s, c);
    assert CpuOk(s, c);
    if s.cpus[c].place == WriteDone {
      forall d | 0 <= d < |s.cpus|
        ensures s.cpus[d].made == 0
      {
        assert CpuOk(s, d);
      }
      MadeNone(s.cpus);
    }
  }

  lemma {:induction false} StartInv(s: State)
    requires Start(s)
    ensures Inv(s)
  {
  }

  lemma {:induction false} RunKeeps(s: State, who: seq<nat>)
    requires Inv(s) && Schedule(who, |s.cpus|)
    ensures Inv(Run(s, who))
  {
    hide Inv, Step;
    if |who| > 0 {
      RunKeeps(s, who[..|who| - 1]);
      StepKeeps(Run(s, who[..|who| - 1]), who[|who| - 1]);
    }
  }

  // ---------------------------------------------------------------- what every run guarantees

  /** A CPU's arguments never change. */
  lemma {:induction false} ArgsKept(s: State, who: seq<nat>, c: nat)
    requires Schedule(who, |s.cpus|) && c < |s.cpus|
    ensures Run(s, who).cpus[c].args == s.cpus[c].args
  {
    hide Step;
    if |who| > 0 {
      ArgsKept(s, who[..|who| - 1], c);
      StepArgs(Run(s, who[..|who| - 1]), who[|who| - 1], c);
    }
  }

  lemma {:induction false} StepArgs(s: State, c: nat, d: nat)
    requires c < |s.cpus| && d < |s.cpus|
    ensures Step(s, c).cpus[d].args == s.cpus[d].args
  {
  }

  /** In every interleaving: at most one initialisation begins; at most one CPU is in a locked
      region; a CPU to which setup_heap has returned finds the list set up, with its own start
      address; every completed allocation is in the list. */
  lemma {:induction false} SetupIsSafe(s: State, who: seq<nat>, c: nat, d: nat)
    requires Start(s) && Schedule(who, |s.cpus|) && c < |s.cpus| && d < |s.cpus|
    ensures var r := Run(s, who);
            && r.setups <= 1
            && (Locked(r.cpus[c].place) && Locked(r.cpus[d].place) ==> c == d)
            && (Returned(r.cpus[c].place) ==> r.setupDone && r.setups == 1 && r.head == s.cpus[c].args.start)
            && (r.setupDone ==> r.chunks == Made(r.cpus))
  {
    hide Made, Step;
    StartInv(s);
    RunKeeps(s, who);
    ArgsKept(s, who, c);
    var r := Run(s, who);
    assert CpuOk(r, c) && CpuOk(r, d);
  }

  /** When all CPUs pass the same start, size and a usable range, no CPU takes a failure branch,
      and no state is a deadlock: the CPU that took the lock last can move, and if the lock is
      taken it is inside the locked region. */
  lemma {:induction false} EqualArgumentsNeverFail(s: State, who: seq<nat>, a: Args) returns (c: nat)
    requires Start(s) && Schedule(who, |s.cpus|) && |s.cpus| > 0
    requires a.usable && forall d :: 0 <= d < |s.cpus| ==> s.cpus[d].args == a
    ensures forall d :: 0 <= d < |s.cpus| ==> Run(s, who).cpus[d].place != Failed
    ensures c < |s.cpus| && Step(Run(s, who), c) != Run(s, who)
    ensures Run(s, who).lock != 0 ==> Locked(Run(s, who).cpus[c].place)
  {
    hide Made, Run;
    StartInv(s);
    RunKeeps(s, who);
    var r := Run(s, who);
    forall d | 0 <= d < |s.cpus|
      ensures r.cpus[d].place != Failed
    {
      ArgsKept(s, who, d);
      ArgsKept(s, who, r.winner);
      assert CpuOk(r, d);
    }
    c := r.holder;
    assert CpuOk(r, c);
  }

  /** Once setup_heap has returned to some CPU, nothing any CPU does later touches the heap's
      record again, except that allocations are added to the list. */
  lemma {:induction false} NoLateSetup(s: State, who: seq<nat>, c: nat)
    requires Inv(s) && Schedule(who, |s.cpus|) && c < |s.cpus| && Returned(s.cpus[c].place)
    ensures var r := Run(s, who);
            r.setupDone && r.setups == s.setups && r.head == s.head && r.size == s.size && r.chunks >= s.chunks
  {
    hide Made;
    if |who| == 0 {
      assert CpuOk(s, c);
    } else {
      NoLateSetup(s, who[..|who| - 1], c);
      RunKeeps(s, who[..|who| - 1]);
      var before := Run(s, who[..|who| - 1]);
      assert CpuOk(before, who[|who| - 1]);
    }
  }

  // ---------------------------------------------------------------- who fails

  /** The call is past its comparisons. */
  predicate Judged(cpu: Cpu) {
    cpu.found != Nothing && cpu.place != FastHead && cpu.place != CompareHead && cpu.place != CompareSize
  }

  /** What the call of a CPU is refused for, by what it found. */
  predicate Refused(found: Found, a: Args, w: Args) {
    match found
    case Nothing => false
    case SetUnlocked => a.start != w.start
    case SetLocked => a.start != w.start || a.size != w.size
    case ClearLocked => !a.usable
  }

  /** A CPU that failed was refused, one past its comparisons was not, and one that found the heap
      set up found the winner's. */
  predicate Fair(s: State, c: nat)
    requires c < |s.cpus| && s.winner < |s.cpus|
  {
    var cpu, w := s.cpus[c], s.cpus[s.winner].args;
    && (Judged(cpu) ==> (cpu.place == Failed <==> Refused(cpu.found, cpu.args, w)))
    && (!Judged(cpu) ==> cpu.place != Failed)
    && (cpu.found == Nothing <==> cpu.place == Called || cpu.place == Test(Setup) || cpu.place == Swap(Setup)
                                  || cpu.place == Recheck)
    && (cpu.place == FastHead ==> cpu.found == SetUnlocked)
    && (cpu.place == CompareHead || cpu.place == CompareSize ==> cpu.found == SetLocked)
    && (cpu.place == CompareSize ==> cpu.args.start == w.start)
    && (cpu.found == SetUnlocked || cpu.found == SetLocked ==> s.setupDone)
  }

  lemma {:induction false} JudgingIsFair(s: State, c: nat)
    requires Inv(s) && c < |s.cpus| && Fair(s, c) && !Judged(s.cpus[c])
    ensures Step(s, c).winner < |s.cpus| && Fair(Step(s, c), c)
  {
    hide Made, Past, Returned, Initialising, Locked;
    assert CpuOk(s, c);
  }

  lemma {:induction false} JudgedStaysFair(s: State, c: nat)
    requires Inv(s) && c < |s.cpus| && Fair(s, c) && Judged(s.cpus[c])
    ensures Step(s, c).winner < |s.cpus| && Fair(Step(s, c), c)
  {
    hide Made, Past, Returned, Refused, Locked, Initialising;
    assert CpuOk(s, c);
    var r := Step(s, c);
    StepArgs(s, c, s.winner);
    if s.cpus[c].place == WriteHead {
      NotSetUp(s.cpus[c].found, s.cpus[c].args, s.cpus[s.winner].args, r.cpus[r.winner].args);
    }
  }

  lemma {:induction false} OwnStaysFair(s: State, c: nat)
    requires Inv(s) && c < |s.cpus| && Fair(s, c)
    ensures Step(s, c).winner < |s.cpus| && Fair(Step(s, c), c)
  {
    hide Inv, Fair, Step, Judged;
    if Judged(s.cpus[c]) {
      JudgedStaysFair(s, c);
    } else {
      JudgingIsFair(s, c);
    }
  }

  /** Once somebody has found the heap set up, the winner is settled. */
  lemma {:induction false} OtherStaysFair(s: State, c: nat, d: nat)
    requires Inv(s) && c < |s.cpus| && d < |s.cpus| && c != d && Fair(s, d)
    ensures Step(s, c).winner < |s.cpus| && Fair(Step(s, c), d)
  {
    hide Made, Past, Returned, Refused;
    assert CpuOk(s, c) && CpuOk(s, d);
    var r := Step(s, c);
    assert r.cpus[d] == s.cpus[d];
    StepArgs(s, c, s.winner);
    if s.setupDone {
      assert r.setupDone && r.winner == s.winner;
    } else {
      assert !(s.cpus[d].found == SetUnlocked || s.cpus[d].found == SetLocked);
      NotSetUp(s.cpus[d].found, s.cpus[d].args, s.cpus[s.winner].args, r.cpus[r.winner].args);
    }
  }

  lemma {:induction false} NotSetUp(found: Found, a: Args, v: Args, w: Args)
    requires found != SetUnlocked && found != SetLocked
    ensures Refused(found, a, v) == Refused(found, a, w)
  {
  }

  lemma {:induction false} RunIsFair(s: State, who: seq<nat>, c: nat)
    requires Start(s) && Schedule(who, |s.cpus|) && c < |s.cpus|
    ensures Inv(Run(s, who)) && Fair(Run(s, who), c)
  {
    hide Inv, Step;
    StartInv(s);
    RunKeeps(s, who);
    if |who| == 0 {
      Inside(s);
    } else {
      RunIsFair(s, who[..|who| - 1], c);
      var before, d := Run(s, who[..|who| - 1]), who[|who| - 1];
      if c == d {
        OwnStaysFair(before, c);
      } else {
        OtherStaysFair(before, d, c);
      }
    }
  }

  lemma {:induction false} Inside(s: State)
    requires Inv(s) && |s.cpus| > 0
    ensures s.winner < |s.cpus|
  {
  }

  /** Exactly who fails, in every interleaving. A call that saw `setup_done` without the lock fails
      if and only if its start is not that of the CPU that set the heap up; one that saw it set
      under the lock, if and only if its start or its size is not; one that saw it clear under the
      lock, if and only if its range is unusable. Before its comparisons no call has failed. */
  lemma {:induction false} FailsExactly(s: State, who: seq<nat>, c: nat)
    requires Start(s) && Schedule(who, |s.cpus|) && c < |s.cpus|
    ensures var r := Run(s, who);
            && r.winner < |s.cpus|
            && (Judged(r.cpus[c]) ==>
                  (r.cpus[c].place == Failed
                   <==> Refused(r.cpus[c].found, s.cpus[c].args, s.cpus[r.winner].args)))
            && (!Judged(r.cpus[c]) ==> r.cpus[c].place != Failed)
            && (r.cpus[c].found == SetUnlocked || r.cpus[c].found == SetLocked ==>
                  r.setupDone && r.head == s.cpus[r.winner].args.start && r.size == s.cpus[r.winner].args.size)
  {
    hide Made, Step, Run;
    RunIsFair(s, who, c);
    ArgsKept(s, who, c);
    ArgsKept(s, who, Run(s, who).winner);
  }

  lemma {:induction false} RunOn(s: State, who: seq<nat>, c: nat)
    requires Schedule(who, |s.cpus|) && c < |s.cpus|
    ensures Schedule(who + [c], |s.cpus|) && Run(s, who + [c]) == Step(Run(s, who), c)
  {
    assert (who + [c])[..|who + [c]| - 1] == who;
  }

  /** The first CPU alone sets the heap up in eight steps. */
  lemma {:induction false} SetsUpAlone(s: State, d: nat) returns (who: seq<nat>)
    requires Start(s) && d < |s.cpus| && s.cpus[d].args.usable
    ensures Schedule(who, |s.cpus|)
    ensures var r, a := Run(s, who), s.cpus[d].args;
            && r.setupDone && r.winner == d && r.head == a.start && r.size == a.size
            && forall c :: 0 <= c < |s.cpus| && c != d ==> r.cpus[c] == s.cpus[c]
  {
    hide Run;
    who := [];
    assert Run(s, who) == s by {
      NoSteps(s);
    }
    for i := 0 to 8
      invariant Schedule(who, |s.cpus|)
      invariant var r, a := Run(s, who), s.cpus[d].args;
                && (forall c :: 0 <= c < |s.cpus| && c != d ==> r.cpus[c] == s.cpus[c])
                && r.cpus[d].args == a
                && r.cpus[d].place == [Called, Test(Setup), Swap(Setup), Recheck, WriteHead, WriteChunk, WriteSize,
                                       WriteDone, Release(Setup)][i]
                && (i <= 2 ==> r.lock == 0) && (i < 8 ==> !r.setupDone)
                && (i >= 5 ==> r.head == a.start && r.winner == d)
                && (i >= 7 ==> r.size == a.size)
                && (i == 8 ==> r.setupDone)
    {
      RunOn(s, who, d);
      who := who + [d];
    }
  }

  lemma {:induction false} NoSteps(s: State)
    ensures Run(s, []) == s
  {
  }

  /** The missed mismatch: a CPU whose call comes after the set-up, with the same start and any
      other size, returns with a heap of the wrong size. */
  lemma {:induction false} OtherSizeReturns(s: State, d: nat, c: nat) returns (who: seq<nat>)
    requires Start(s) && c < |s.cpus| && d < |s.cpus| && c != d && s.cpus[d].args.usable
    requires s.cpus[c].args.start == s.cpus[d].args.start && s.cpus[c].args.size != s.cpus[d].args.size
    ensures Schedule(who, |s.cpus|)
    ensures Run(s, who).cpus[c].place == Ready && Run(s, who).size != s.cpus[c].args.size
  {
    hide Run;
    who := SetsUpAlone(s, d);
    RunOn(s, who, c);
    who := who + [c];
    RunOn(s, who, c);
    who := who + [c];
  }

  // ---------------------------------------------------------------- the lock is not spun on for ever

  /** How many steps of the run change the state; the others are spins on the lock. */
  function Moves(s: State, who: seq<nat>): nat
    requires Schedule(who, |s.cpus|)
  {
    if |who| == 0 then 0
    else
      var before := Run(s, who[..|who| - 1]);
      Moves(s, who[..|who| - 1]) + (if Step(before, who[|who| - 1]) != before then 1 else 0)
  }

  /** A CPU that sees the lock free gets it, or somebody else has got it since. */
  predicate TriesOk(s: State, c: nat)
    requires c < |s.cpus|
  {
    s.cpus[c].tries <= s.taken + (if s.cpus[c].place.Swap? && s.lock == 0 then 1 else 0)
  }

  /** How far a CPU has come: every step but a spin brings it further. */
  function Stage(p: Place): nat {
    match p
    case Called | Swap(_) => 0
    case FastHead | Recheck | Reading => 1
    case CompareHead | WriteHead | Writing(_) => 2
    case CompareSize | WriteChunk => 3
    case WriteSize => 4
    case WriteDone => 5
    case Release(_) => 6
    case Ready => 7
    case Failed => 8
    case Test(_) => 11
  }

  function Progress(cpu: Cpu): nat { 12 * cpu.tries + Stage(cpu.place) }

  /** How far all CPUs have come. */
  function Total(cpus: seq<Cpu>): nat {
    Sum(seq(|cpus|, c requires 0 <= c < |cpus| => Progress(cpus[c])))
  }

  lemma {:induction false} TotalUpdate(cpus: seq<Cpu>, c: nat, cpu: Cpu)
    requires c < |cpus|
    ensures Total(cpus[c := cpu]) == Total(cpus) + Progress(cpu) - Progress(cpus[c])
  {
    hide Progress;
    var all := seq(|cpus|, d requires 0 <= d < |cpus| => Progress(cpus[d]));
    var changed := cpus[c := cpu];
    assert seq(|changed|, d requires 0 <= d < |changed| => Progress(changed[d])) == all[c := Progress(cpu)];
    SumUpdate(all, c, Progress(cpu));
  }

  lemma {:induction false} TotalBound(cpus: seq<Cpu>, most: nat)
    requires forall c :: 0 <= c < |cpus| ==> Progress(cpus[c]) <= most
    ensures Total(cpus) <= |cpus| * most
  {
    SumBound(seq(|cpus|, c requires 0 <= c < |cpus| => Progress(cpus[c])), most);
  }

  lemma {:induction false} StepIsMine(s: State, c: nat)
    requires c < |s.cpus|
    ensures Step(s, c).cpus == s.cpus[c := Step(s, c).cpus[c]]
  {
  }

  lemma {:induction false} MoveAdvances(s: State, c: nat)
    requires c < |s.cpus| && Step(s, c) != s
    ensures Progress(Step(s, c).cpus[c]) > Progress(s.cpus[c])
  {
    if s.cpus[c].place.Test? {
      assert Step(s, c).cpus[c].tries == s.cpus[c].tries + 1;
    } else {
      assert Step(s, c).cpus[c].tries == s.cpus[c].tries;
    }
  }

  lemma {:induction false} MoveGrows(s: State, c: nat)
    requires c < |s.cpus| && Step(s, c) != s
    ensures Total(Step(s, c).cpus) > Total(s.cpus)
  {
    hide Total, Step, Progress;
    StepIsMine(s, c);
    MoveAdvances(s, c);
    TotalUpdate(s.cpus, c, Step(s, c).cpus[c]);
  }

  lemma {:induction false} TriesKept(s: State, c: nat, d: nat)
    requires c < |s.cpus| && d < |s.cpus| && TriesOk(s, d)
    ensures TriesOk(Step(s, c), d)
  {
  }

  lemma {:induction false} MovesCount(s: State, who: seq<nat>)
    requires Start(s) && Schedule(who, |s.cpus|)
    ensures Moves(s, who) <= Total(Run(s, who).cpus)
    ensures forall c :: 0 <= c < |s.cpus| ==> TriesOk(Run(s, who), c)
  {
    hide Step, TriesOk, Total;
    if |who| == 0 {
      StartTries(s);
    } else {
      var before, c := Run(s, who[..|who| - 1]), who[|who| - 1];
      MovesCount(s, who[..|who| - 1]);
      if Step(before, c) != before {
        MoveGrows(before, c);
      }
      forall d | 0 <= d < |s.cpus|
        ensures TriesOk(Run(s, who), d)
      {
        TriesKept(before, c, d);
      }
    }
  }

  lemma {:induction false} StartTries(s: State)
    requires Start(s)
    ensures forall c :: 0 <= c < |s.cpus| ==> TriesOk(s, c)
  {
  }

  /** Bounces between test and swap included, n CPUs make at most 12n(k + 1) moves while the lock is
      taken k times: moves cannot go on without somebody getting the lock. */
  lemma {:induction false} MovesTakeTheLock(s: State, who: seq<nat>)
    requires Start(s) && Schedule(who, |s.cpus|)
    ensures Moves(s, who) <= |s.cpus| * (12 * (Run(s, who).taken + 1))
  {
    hide Total, Run, Moves;
    MovesCount(s, who);
    var r := Run(s, who);
    forall c | 0 <= c < |r.cpus|
      ensures Progress(r.cpus[c]) <= 12 * (r.taken + 1)
    {
      assert TriesOk(r, c);
    }
    TotalBound(r.cpus, 12 * (r.taken + 1));
  }

  /** So with equal arguments, where some CPU can always move, there are runs in which the lock is
      taken as often as one likes. */
  lemma {:induction false} LockGoesRound(s: State, a: Args, times: nat) returns (who: seq<nat>)
    requires Start(s) && |s.cpus| > 0
    requires a.usable && forall d :: 0 <= d < |s.cpus| ==> s.cpus[d].args == a
    ensures Schedule(who, |s.cpus|) && Run(s, who).taken >= times
  {
    hide Run, Moves, Step;
    who := [];
    assert Moves(s, who) == 0 by {
      NoMoves(s);
    }
    var n := |s.cpus| * (12 * times);
    for i := 0 to n + 1
      invariant Schedule(who, |s.cpus|) && Moves(s, who) == i
    {
      var c := EqualArgumentsNeverFail(s, who, a);
      OneMove(s, who, c);
      who := who + [c];
    }
    MovesTakeTheLock(s, who);
    var taken := Run(s, who).taken;
    if taken < times {
      Monotone(|s.cpus|, 12 * (taken + 1), 12 * times);
    }
  }

  lemma {:induction false} Monotone(n: nat, x: nat, y: nat)
    requires x <= y
    ensures n * x <= n * y
  {
  }

  lemma {:induction false} NoMoves(s: State)
    ensures Moves(s, []) == 0
  {
  }

  lemma {:induction false} OneMove(s: State, who: seq<nat>, c: nat)
    requires Schedule(who, |s.cpus|) && c < |s.cpus|
    ensures Schedule(who + [c], |s.cpus|)
    ensures Moves(s, who + [c])
            == Moves(s, who) + (if Step(Run(s, who), c) != Run(s, who) then 1 else 0)
  {
    assert (who + [c])[..|who + [c]| - 1] == who;
  }
}
