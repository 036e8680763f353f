/** How the debugger drives the debuggee: turning a stop into register and flag
    updates, single-stepping over a breakpoint, stepping a source line, continuing,
    and `ToNextLine`, which plants temporary traps for the next line, continues and
    retires them again. The debuggee's execution is not modelled: every resume is
    answered by a `Stop` given as input, and the debuggee does not write the words
    the debugger patches. */
module Flow {
  import opened Wrappers
  import opened Machine
  import opened Breakpoints
  import opened Symbols
  import opened LinePlan

  // Signal numbers and `si_code` values of Linux on x86-64.
  const SIGTRAP := 5
  const SIGSEGV := 11
  const SI_KERNEL := 0x80
  const TRAP_BRKPT := 1
  const TRAP_TRACE := 2

  /** A stop as `waitpid` and `PTRACE_GETSIGINFO` report it, with the register file
      the kernel holds for the debuggee at that moment. */
  datatype Stop = Stop(exited: bool, signo: int, code: int, regs: Registers)

  /** What the stepping code reads and never changes: the debuggee's process id, the
      line table, the function table, the compile units and the disassembler. */
  datatype Program = Program(
    pid: int, lines: seq<LineEntry>, functions: seq<Function>, units: seq<CompileUnit>, decode: Decoder)

  /** What the stepping code changes: debuggee memory, the debugger's copy of the
      registers (`Regs`), the debuggee's own register file, the child-exited flag and
      the breakpoint table. */
  datatype Session = Session(
    mem: Memory, regs: Registers, cpu: Registers, exited: bool, breakpoints: seq<Breakpoint>)

  /** A stop caused by an executed INT3. */
  predicate IsBreakpointTrap(stop: Stop) {
    stop.signo == SIGTRAP && (stop.code == SI_KERNEL || stop.code == TRAP_BRKPT)
  }

  /** `WaitForSignal` as a transition. On a breakpoint trap the registers are read,
      rip is moved back by one in `u64` and written back to the debuggee; any other
      stop leaves the debugger's registers alone. */
  function AfterStop(s: Session, stop: Stop): Session {
    var t := s.(exited := s.exited || stop.exited, cpu := stop.regs);
    if IsBreakpointTrap(stop) then
      var back := stop.regs.(rip := Wrap(stop.regs.rip - 1));
      t.(regs := back, cpu := back)
    else t
  }

  /** A breakpoint trap moves rip back by exactly one and changes no other register;
      a single-step trap, or any other stop, leaves the debugger's registers as they
      were; an exit sets the flag and nothing clears it. */
  lemma WaitForSignalEffect(s: Session, stop: Stop)
    ensures var t := AfterStop(s, stop);
      && t.mem == s.mem && t.breakpoints == s.breakpoints
      && (t.exited <==> s.exited || stop.exited)
      && (IsBreakpointTrap(stop) ==>
            && t.regs == t.cpu
            && t.regs.(rip := stop.regs.rip) == stop.regs
            && (stop.regs.rip > 0 ==> t.regs.rip == stop.regs.rip - 1)
            && (stop.regs.rip == 0 ==> t.regs.rip == WordModulus - 1))
      && (!IsBreakpointTrap(stop) ==> t.regs == s.regs && t.cpu == stop.regs)
      && (stop.code == TRAP_TRACE ==> t.regs == s.regs)
  {
  }

  /** `StepInstruction`: the first enabled breakpoint at rip, if its saved byte has not
      just been executed, is disabled across the single step and enabled again after
      it; a found breakpoint always has its flag flipped; the registers are read back. */
  function StepInstructionSpec(s: Session, pid: int, stop: Stop): Session {
    match FirstEnabledAt(s.breakpoints, s.regs.rip, pid)
    case None =>
      var t := AfterStop(s, stop);
      t.(regs := t.cpu)
    case Some(i) =>
      var bp := s.breakpoints[i];
      if bp.executedSavedOpCode then
        var t := AfterStop(s, stop);
        t.(regs := t.cpu, breakpoints := t.breakpoints[i := bp.(executedSavedOpCode := false)])
      else
        var off := bp.(enabled := false);
        var t := AfterStop(s.(mem := DisarmedMemory(s.mem, bp), breakpoints := s.breakpoints[i := off]), stop);
        var on := Armed(t.mem, off).(executedSavedOpCode := true);
        t.(mem := ArmedMemory(t.mem, bp.address), regs := t.cpu, breakpoints := t.breakpoints[i := on])
  }

  /** The breakpoint table after a single step: only the breakpoint found at rip
      changes, it stays enabled at its address, and its flag is flipped. */
  lemma StepInstructionTable(s: Session, pid: int, stop: Stop)
    ensures var t := StepInstructionSpec(s, pid, stop);
      && |t.breakpoints| == |s.breakpoints|
      && t.regs == t.cpu == AfterStop(s, stop).cpu
      && (t.exited <==> s.exited || stop.exited)
      && match FirstEnabledAt(s.breakpoints, s.regs.rip, pid)
         case None => t.breakpoints == s.breakpoints && t.mem == s.mem
         case Some(i) =>
           && (forall j :: 0 <= j < |s.breakpoints| && j != i ==> t.breakpoints[j] == s.breakpoints[j])
           && t.breakpoints[i].enabled
           && t.breakpoints[i].address == s.breakpoints[i].address == s.regs.rip
           && t.breakpoints[i].pid == s.breakpoints[i].pid == pid
           && t.breakpoints[i].executedSavedOpCode == !s.breakpoints[i].executedSavedOpCode
  {
  }

  /** Every enabled breakpoint at a mapped address has INT3 in the low byte of its word. */
  predicate TrapsInPlace(mem: Memory, table: seq<Breakpoint>) {
    forall i :: 0 <= i < |table| && table[i].enabled && table[i].address in mem ==>
      mem[table[i].address].low == TrapOpcode
  }

  /** Two tables with the same breakpoints enabled at the same addresses. */
  predicate SameTraps(a: seq<Breakpoint>, b: seq<Breakpoint>) {
    |a| == |b| && forall j :: 0 <= j < |a| ==> a[j].enabled == b[j].enabled && a[j].address == b[j].address
  }

  /** With every trap in place, a single step leaves memory exactly as it was, keeps
      every trap in place, and the breakpoint it stepped over saves the same byte. */
  lemma StepInstructionKeepsTraps(s: Session, pid: int, stop: Stop)
    requires TrapsInPlace(s.mem, s.breakpoints)
    ensures var t := StepInstructionSpec(s, pid, stop);
      && t.mem == s.mem
      && TrapsInPlace(t.mem, t.breakpoints)
      && SameTraps(s.breakpoints, t.breakpoints)
      && (forall j :: 0 <= j < |s.breakpoints| && s.breakpoints[j].address in s.mem ==>
            t.breakpoints[j].savedOpCode == s.breakpoints[j].savedOpCode)
  {
    var t := StepInstructionSpec(s, pid, stop);
    StepInstructionTable(s, pid, stop);
    match FirstEnabledAt(s.breakpoints, s.regs.rip, pid)
    case None =>
    case Some(i) =>
      var bp := s.breakpoints[i];
      if !bp.executedSavedOpCode {
        DisableEnableRoundTrip(s.mem, bp);
      }
  }

  /** The state after one transition per stop in `stops`, oldest first. */
  function Run(step: (Session, Stop) -> Session, s: Session, stops: seq<Stop>): Session
    decreases |stops|
  {
    if |stops| == 0 then s
    else step(Run(step, s, stops[..|stops| - 1]), stops[|stops| - 1])
  }

  lemma RunSnoc(step: (Session, Stop) -> Session, s: Session, stops: seq<Stop>, k: nat)
    requires k < |stops|
    ensures Run(step, s, stops[..k + 1]) == step(Run(step, s, stops[..k]), stops[k])
  {
    assert stops[..k + 1][..k] == stops[..k];
  }

  /** A single step of process `pid`, as a transition. */
  function StepFn(pid: int): (Session, Stop) -> Session {
    (s: Session, stop: Stop) => StepInstructionSpec(s, pid, stop)
  }

  /** The state after single-stepping once per stop in `stops`. */
  function Steps(s: Session, pid: int, stops: seq<Stop>): Session {
    Run(StepFn(pid), s, stops)
  }

  lemma StepsSnoc(s: Session, pid: int, stops: seq<Stop>, k: nat)
    requires k < |stops|
    ensures Steps(s, pid, stops[..k + 1]) == StepInstructionSpec(Steps(s, pid, stops[..k]), pid, stops[k])
  {
    RunSnoc(StepFn(pid), s, stops, k);
  }

  /** However many single steps are taken, memory is unchanged and every trap stays in place. */
  lemma {:induction false} StepsKeepTraps(s: Session, pid: int, stops: seq<Stop>)
    requires TrapsInPlace(s.mem, s.breakpoints)
    ensures Steps(s, pid, stops).mem == s.mem
    ensures TrapsInPlace(Steps(s, pid, stops).mem, Steps(s, pid, stops).breakpoints)
    ensures SameTraps(s.breakpoints, Steps(s, pid, stops).breakpoints)
    decreases |stops|
  {
    if |stops| > 0 {
      var k := |stops| - 1;
      StepsKeepTraps(s, pid, stops[..k]);
      StepInstructionKeepsTraps(Steps(s, pid, stops[..k]), pid, stops[k]);
      StepsSnoc(s, pid, stops, k);
      assert stops[..k + 1] == stops;
    }
  }

  /** The debugger's rip lies on an entry of the line table whose line number is not `line`. */
  predicate OnOtherLine(lines: seq<LineEntry>, line: nat, s: Session) {
    match LineTableFindByAddress(lines, s.regs.rip)
    case None => false
    case Some(c) => lines[c].lineNum != line
  }

  /** Why `StepLine` ends without reaching another line. */
  datatype StepLineFault = NoLineAtRip | OutOfStops

  /** Whether rip has reached an entry for a line other than `line`, as a test on states. */
  function LineTest(lines: seq<LineEntry>, line: nat): Session -> bool {
    (s: Session) => OnOtherLine(lines, line, s)
  }

  /** `StepLine`'s loop from the `k`-th stop on, in state `s`: take a transition and
      stop as soon as `reached` holds. The result is the final state and how many
      stops were used, or `OutOfStops`. */
  function StepLineFrom(step: (Session, Stop) -> Session, reached: Session -> bool, s: Session, stops: seq<Stop>, k: nat)
    : (Session, Result<nat, StepLineFault>)
    requires k <= |stops|
    decreases |stops| - k
  {
    if k == |stops| then (s, Failure(OutOfStops))
    else
      var t := step(s, stops[k]);
      if reached(t) then (t, Success(k + 1))
      else StepLineFrom(step, reached, t, stops, k + 1)
  }

  /** `StepLine`: no line entry at rip is the source's assertion; otherwise the loop
      single-steps until rip is on another line than the one it starts on. */
  function StepLineSpec(prog: Program, s: Session, stops: seq<Stop>): (Session, Result<nat, StepLineFault>) {
    match LineTableFindByAddress(prog.lines, s.regs.rip)
    case None => (s, Failure(NoLineAtRip))
    case Some(c) => StepLineFrom(StepFn(prog.pid), LineTest(prog.lines, prog.lines[c].lineNum), s, stops, 0)
  }

  /** From the `k`-th stop on, the loop ends after the first transition that reaches
      its goal, in the state of that many transitions, or uses up every stop
      without ever reaching it. */
  lemma {:induction false} StepLineFromRuns(step: (Session, Stop) -> Session, reached: Session -> bool, s0: Session, stops: seq<Stop>, k: nat)
    requires k <= |stops|
    ensures var (t, r) := StepLineFrom(step, reached, Run(step, s0, stops[..k]), stops, k);
      && (r.Success? ==>
            && k < r.value <= |stops|
            && t == Run(step, s0, stops[..r.value])
            && reached(t)
            && forall j :: k < j < r.value ==> !reached(Run(step, s0, stops[..j])))
      && (r.Failure? ==>
            && r.error == OutOfStops
            && t == Run(step, s0, stops)
            && forall j :: k < j <= |stops| ==> !reached(Run(step, s0, stops[..j])))
    decreases |stops| - k
  {
    if k == |stops| {
      assert stops[..k] == stops;
    } else {
      RunSnoc(step, s0, stops, k);
      if !reached(step(Run(step, s0, stops[..k]), stops[k])) {
        StepLineFromRuns(step, reached, s0, stops, k + 1);
      }
    }
  }

  /** `StepLine` fails, changing nothing, exactly when rip is on no line entry;
      otherwise it stops after the first single step that reaches another line, in
      the state of that many steps, or uses every stop without reaching one. */
  lemma StepLineStops(prog: Program, s: Session, stops: seq<Stop>)
    ensures var (t, r) := StepLineSpec(prog, s, stops);
      && (LineTableFindByAddress(prog.lines, s.regs.rip).None? <==> r == Failure(NoLineAtRip))
      && (r == Failure(NoLineAtRip) ==> t == s)
      && (r != Failure(NoLineAtRip) ==>
            var line := prog.lines[LineTableFindByAddress(prog.lines, s.regs.rip).value].lineNum;
            && (r.Success? ==>
                  && 0 < r.value <= |stops|
                  && t == Steps(s, prog.pid, stops[..r.value])
                  && OnOtherLine(prog.lines, line, t)
                  && forall k :: 0 < k < r.value ==> !OnOtherLine(prog.lines, line, Steps(s, prog.pid, stops[..k])))
            && (r.Failure? ==>
                  && r.error == OutOfStops
                  && t == Steps(s, prog.pid, stops)
                  && forall k :: 0 < k <= |stops| ==> !OnOtherLine(prog.lines, line, Steps(s, prog.pid, stops[..k]))))
  {
    match LineTableFindByAddress(prog.lines, s.regs.rip)
    case None =>
    case Some(c) =>
      var line := prog.lines[c].lineNum;
      assert Run(StepFn(prog.pid), s, stops[..0]) == s;
      StepLineFromRuns(StepFn(prog.pid), LineTest(prog.lines, line), s, stops, 0);
  }

  /** `ContinueProgram`: a single step first when any breakpoint exists, then a resume until the next stop. */
  function ContinueSpec(s: Session, pid: int, stepStop: Stop, contStop: Stop): Session {
    var t := if |s.breakpoints| > 0 then StepInstructionSpec(s, pid, stepStop) else s;
    AfterStop(t, contStop)
  }

  /** Continuing leaves memory as it was and every trap in place. */
  lemma ContinueKeepsTraps(s: Session, pid: int, stepStop: Stop, contStop: Stop)
    requires TrapsInPlace(s.mem, s.breakpoints)
    ensures ContinueSpec(s, pid, stepStop, contStop).mem == s.mem
    ensures SameTraps(s.breakpoints, ContinueSpec(s, pid, stepStop, contStop).breakpoints)
  {
    if |s.breakpoints| > 0 {
      StepInstructionKeepsTraps(s, pid, stepStop);
    }
  }

  /** Why `ToNextLine` fails: no range for the current line, or an operand assertion. */
  datatype NextLineFault = NoRange(rangeFault: RangeFault) | BadOperand(planFault: PlanFault)

  /** The line context `ToNextLine` plans with in state `s`. */
  function ContextAt(prog: Program, s: Session, range: AddressRange, stepInto: bool): LineContext {
    LineContext(prog.units, range, s.regs.rbp, prog.pid, stepInto)
  }

  /** The order the temporary traps are retired in: the source's planting order,
      or most recent first. */
  datatype RetireOrder = PlantingOrder | MostRecentFirst

  /** Retiring `traps` over `mem` in the given order. */
  function Retire(order: RetireOrder, mem: Memory, traps: seq<TempTrap>): Memory {
    if order.PlantingOrder? then RetireInOrder(mem, traps) else RetireInReverse(mem, traps)
  }

  /** `ToNextLine` with its temporary traps retired in the given order. With no
      range nothing happens; a failed operand assertion leaves the traps planted so
      far in memory; otherwise the program is continued and the traps are retired.
      The source's own is `ToNextLineSpec(PlantingOrder, ...)`. */
  function ToNextLineSpec(order: RetireOrder, prog: Program, s: Session, stepInto: bool, stepStop: Stop, contStop: Stop)
    : (Session, Outcome<NextLineFault>)
  {
    match CurrentLineRange(prog.lines, prog.functions, s.regs.rip)
    case Failure(e) => (s, Fail(NoRange(e)))
    case Success(range) =>
      var plan := PlanLine(s.mem, s.breakpoints, ContextAt(prog, s, range, stepInto), prog.decode);
      if plan.fault.Some? then (s.(mem := plan.planting.mem), Fail(BadOperand(plan.fault.value)))
      else
        var t := ContinueSpec(s.(mem := plan.planting.mem), prog.pid, stepStop, contStop);
        (t.(mem := Retire(order, t.mem, plan.planting.traps)), Pass)
  }

  /** Planting temporary traps keeps the breakpoints' traps in place. */
  lemma PlantingKeepsTraps(mem0: Memory, p: Planting, table: seq<Breakpoint>)
    requires PlantedOver(mem0, p) && TrapsInPlace(mem0, table)
    ensures TrapsInPlace(p.mem, table)
  {
    PlantedOverMemory(mem0, p);
    forall i | 0 <= i < |table| && table[i].enabled && table[i].address in p.mem
      ensures p.mem[table[i].address].low == TrapOpcode
    {
      var a := table[i].address;
      if TrapAt(p.traps, a) {
        var j :| 0 <= j < |p.traps| && p.traps[j].bp.address == a;
        assert p.mem[p.traps[j].bp.address] == mem0[a].(low := TrapOpcode);
      }
    }
  }

  /** With the traps retired most recent first, when `ToNextLine` completes debuggee
      memory is exactly what it was before: every temporary trap is gone, even
      where several were planted at one address, and every breakpoint's trap is
      still in place. Without a line range nothing changes at all. */
  lemma ToNextLineRestoresMemory(prog: Program, s: Session, stepInto: bool, stepStop: Stop, contStop: Stop)
    requires TrapsInPlace(s.mem, s.breakpoints)
    ensures var (t, out) := ToNextLineSpec(MostRecentFirst, prog, s, stepInto, stepStop, contStop);
      && (out.Pass? ==> t.mem == s.mem && TrapsInPlace(t.mem, t.breakpoints))
      && (out.Fail? && out.error.NoRange? ==> t == s)
  {
    match CurrentLineRange(prog.lines, prog.functions, s.regs.rip)
    case Failure(e) =>
    case Success(range) =>
      var ctx := ContextAt(prog, s, range, stepInto);
      var plan := PlanLine(s.mem, s.breakpoints, ctx, prog.decode);
      PlanLinePlantsOver(s.mem, s.breakpoints, ctx, prog.decode);
      if plan.fault.None? {
        PlantingKeepsTraps(s.mem, plan.planting, s.breakpoints);
        var u := s.(mem := plan.planting.mem);
        ContinueKeepsTraps(u, prog.pid, stepStop, contStop);
        ReverseRetireRestores(s.mem, plan.planting);
      }
  }

  /** The source's `ToNextLine`, retiring in planting order, restores memory when
      the line's temporary traps all lie at different addresses; where two share a
      mapped address whose byte is not INT3, that address keeps an INT3 afterwards. */
  lemma ToNextLineInOrder(prog: Program, s: Session, stepInto: bool, stepStop: Stop, contStop: Stop)
    requires TrapsInPlace(s.mem, s.breakpoints)
    ensures var (t, out) := ToNextLineSpec(PlantingOrder, prog, s, stepInto, stepStop, contStop);
      match CurrentLineRange(prog.lines, prog.functions, s.regs.rip)
      case Failure(_) => t == s
      case Success(range) =>
        var p := PlanLine(s.mem, s.breakpoints, ContextAt(prog, s, range, stepInto), prog.decode).planting;
        && (out.Pass? && DistinctTrapAddresses(p.traps) ==> t.mem == s.mem)
        && (forall i, j ::
              (out.Pass? && 0 <= i < j < |p.traps| && p.traps[i].bp.address == p.traps[j].bp.address &&
               p.traps[i].bp.address in s.mem && s.mem[p.traps[i].bp.address].low != TrapOpcode)
              ==> p.traps[i].bp.address in t.mem && t.mem[p.traps[i].bp.address].low == TrapOpcode)
  {
    match CurrentLineRange(prog.lines, prog.functions, s.regs.rip)
    case Failure(e) =>
    case Success(range) =>
      var ctx := ContextAt(prog, s, range, stepInto);
      var plan := PlanLine(s.mem, s.breakpoints, ctx, prog.decode);
      var p := plan.planting;
      PlanLinePlantsOver(s.mem, s.breakpoints, ctx, prog.decode);
      if plan.fault.None? {
        PlantingKeepsTraps(s.mem, p, s.breakpoints);
        ContinueKeepsTraps(s.(mem := p.mem), prog.pid, stepStop, contStop);
        if DistinctTrapAddresses(p.traps) {
          InOrderRestoresDistinct(s.mem, p);
        }
        forall i, j | 0 <= i < j < |p.traps| && p.traps[i].bp.address == p.traps[j].bp.address &&
            p.traps[i].bp.address in s.mem && s.mem[p.traps[i].bp.address].low != TrapOpcode
          ensures p.traps[i].bp.address in RetireInOrder(p.mem, p.traps)
          ensures RetireInOrder(p.mem, p.traps)[p.traps[i].bp.address].low == TrapOpcode
        {
          DuplicateTrapLeftArmed(s.mem, p, i, j);
        }
      }
  }

  /** The debugger's globals that the stepping code updates in place: `Regs`, the
      debuggee's memory and register file, the child-exited flag and the
      breakpoint table. */
  class Debugger {
    const prog: Program
    var mem: Memory
    var regs: Registers
    var cpu: Registers
    var exited: bool
    var breakpoints: seq<Breakpoint>

    /** The state the stepping code changes, as a value. */
    function State(): Session
      reads this
    {
      Session(mem, regs, cpu, exited, breakpoints)
    }

    constructor (prog: Program, s: Session)
      ensures this.prog == prog && State() == s
    {
      this.prog := prog;
      mem := s.mem;
      regs := s.regs;
      cpu := s.cpu;
      exited := s.exited;
      breakpoints := s.breakpoints;
    }

    /** `WaitForSignal`, with the stop it waits for given as input. */
    method WaitForSignal(stop: Stop)
      modifies this`regs, this`cpu, this`exited
      ensures State() == AfterStop(old(State()), stop)
    {
      if stop.exited {
        exited := true;
      }
      cpu := stop.regs;
      if stop.signo == SIGTRAP {
        if stop.code == SI_KERNEL || stop.code == TRAP_BRKPT {
          regs := cpu;
          regs := regs.(rip := Wrap(regs.rip - 1));
          cpu := regs;
          return;
        }
      }
    }

    /** `BreakpointFind`: the index of the first enabled record at `address` for `pid`. */
    method BreakpointFind(address: int, pid: int) returns (r: Option<nat>)
      ensures r == FirstEnabledAt(breakpoints, address, pid)
    {
      var i := 0;
      while i < |breakpoints|
        invariant 0 <= i <= |breakpoints|
        invariant FirstEnabledFrom(breakpoints, address, pid, i) == FirstEnabledAt(breakpoints, address, pid)
      {
        var bp := breakpoints[i];
        if bp.address == address && bp.pid == pid && bp.enabled {
          return Some(i);
        }
        i := i + 1;
      }
      return None;
    }

    /** `BreakpointEnable`: saves the low byte at the breakpoint's address and writes INT3 there. */
    method BreakpointEnable(bp: Breakpoint) returns (r: Breakpoint)
      modifies this`mem
      ensures r == Armed(old(mem), bp)
      ensures mem == ArmedMemory(old(mem), bp.address)
    {
      var opCodes := Peek(mem, bp.address);
      r := bp.(enabled := true, savedOpCode := opCodes.low);
      mem := Poke(mem, bp.address, opCodes.(low := TrapOpcode));
    }

    /** `BreakpointDisable`: puts the saved byte back under the word's current upper bytes. */
    method BreakpointDisable(bp: Breakpoint) returns (r: Breakpoint)
      modifies this`mem
      ensures r == bp.(enabled := false)
      ensures mem == DisarmedMemory(old(mem), bp)
    {
      r := bp.(enabled := false);
      var opCodes := Peek(mem, bp.address);
      mem := Poke(mem, bp.address, opCodes.(low := bp.savedOpCode));
    }

    /** `StepInstruction`, with the single-step's stop given as input. */
    method StepInstruction(stop: Stop)
      modifies this
      ensures State() == StepInstructionSpec(old(State()), prog.pid, stop)
    {
      var found := BreakpointFind(regs.rip, prog.pid);
      if found.Some? && !breakpoints[found.value].executedSavedOpCode {
        var off := BreakpointDisable(breakpoints[found.value]);
        breakpoints := breakpoints[found.value := off];
      }
      WaitForSignal(stop);
      if found.Some? && !breakpoints[found.value].executedSavedOpCode {
        var on := BreakpointEnable(breakpoints[found.value]);
        breakpoints := breakpoints[found.value := on];
      }
      if found.Some? {
        var i := found.value;
        breakpoints := breakpoints[i := breakpoints[i].(executedSavedOpCode := !breakpoints[i].executedSavedOpCode)];
      }
      regs := cpu;
    }

    /** `StepLine`: single steps, one per stop in `stops`, until rip reaches a line
        table entry for another line. The source's assertion that rip starts on an
        entry is `NoLineAtRip`; running out of stops is `OutOfStops`. */
    method StepLine(stops: seq<Stop>) returns (r: Result<nat, StepLineFault>)
      modifies this
      ensures (State(), r) == StepLineSpec(prog, old(State()), stops)
    {
      var entry := LineTableFindByAddress(prog.lines, regs.rip);
      if entry.None? {
        return Failure(NoLineAtRip);
      }
      var line := prog.lines[entry.value].lineNum;
      ghost var goal := StepLineFrom(StepFn(prog.pid), LineTest(prog.lines, line), State(), stops, 0);
      var k := 0;
      while k < |stops|
        invariant 0 <= k <= |stops|
        invariant StepLineFrom(StepFn(prog.pid), LineTest(prog.lines, line), State(), stops, k) == goal
        decreases |stops| - k
      {
        StepInstruction(stops[k]);
        k := k + 1;
        var current := LineTableFindByAddress(prog.lines, regs.rip);
        if current.Some? && prog.lines[current.value].lineNum != line {
          return Success(k);
        }
      }
      return Failure(OutOfStops);
    }

    /** `ContinueProgram`, with the stops of its single step and of the resume given as input. */
    method ContinueProgram(stepStop: Stop, contStop: Stop)
      modifies this
      ensures State() == ContinueSpec(old(State()), prog.pid, stepStop, contStop)
    {
      if |breakpoints| > 0 {
        StepInstruction(stepStop);
      }
      WaitForSignal(contStop);
    }

    /** Creates and enables a temporary trap at `address` and appends it to `temps`. */
    method PlantTemp(temps: seq<TempTrap>, reason: TrapReason, address: Word) returns (temps': seq<TempTrap>)
      modifies this`mem
      ensures Planting(mem, temps') == Plant(Planting(old(mem), temps), reason, address, prog.pid)
    {
      var bp := BreakpointEnable(BreakpointCreate(address, prog.pid));
      temps' := temps + [TempTrap(reason, bp)];
    }

    /** The body of the planting loop for one decoded instruction: the call, return
        and jump checks, in the source's order. */
    method PlantInstruction(temps: seq<TempTrap>, insn: Insn, cur: int, ctx: LineContext)
      returns (temps': seq<TempTrap>, fault: Option<PlanFault>)
      requires ctx.pid == prog.pid
      modifies this`mem
      ensures var st := PlanInstruction(Planting(old(mem), temps), insn, cur, ctx);
        Planting(mem, temps') == st.planting && fault == st.fault
    {
      var k := ClassifyGroups(insn.groups);
      assert k == Classify(insn.groups);
      temps' := temps;
      if k.call && ctx.stepInto {
        if insn.opCount != 1 {
          return temps', Some(CallOperandNotSingle);
        }
        if insn.imm <= 0x100 {
          return temps', Some(CallOperandNotAbove0x100);
        }
        var inUnit := InSomeCompileUnit(ctx.units, insn.imm);
        if inUnit {
          temps' := PlantTemp(temps', CallTarget, insn.imm);
        }
      }
      ghost var p1 := Planting(mem, temps');
      assert CallStep(Planting(old(mem), temps), insn, k, ctx) == Success(p1);
      if k.ret {
        var returnAddress := ValueOf(Peek(mem, Wrap(ctx.rbp + 8)));
        var inUnit := InSomeCompileUnit(ctx.units, returnAddress);
        if inUnit {
          temps' := PlantTemp(temps', ReturnAddress, returnAddress);
        }
      }
      ghost var p2 := Planting(mem, temps');
      assert p2 == RetStep(p1, k, ValueOf(Peek(p1.mem, Wrap(ctx.rbp + 8))), ctx);
      if k.relativeBranch && k.jump {
        if insn.opCount != 1 {
          return temps', Some(JumpOperandNotSingle);
        }
        if insn.imm <= 0x100 {
          return temps', Some(JumpOperandNotAbove0x100);
        }
        if !AddressBetween(insn.imm, ctx.range.start, ctx.range.end) {
          temps' := PlantTemp(temps', JumpTarget, insn.imm);
        }
      }
      fault := None;
    }

    /** The planting loop of `ToNextLine`: a trap at the range end, then each
        instruction from the range start is read with breakpoint bytes masked,
        decoded and planted for, until the range end, a failed decode or a failed
        operand assertion. */
    method PlantLine(ctx: LineContext) returns (temps: seq<TempTrap>, fault: Option<PlanFault>)
      requires ctx.pid == prog.pid
      modifies this`mem
      ensures var plan := PlanLine(old(mem), breakpoints, ctx, prog.decode);
        Planting(mem, temps) == plan.planting && fault == plan.fault
    {
      ghost var plan := PlanLine(mem, breakpoints, ctx, prog.decode);
      ghost var fetch := LineFetch(breakpoints, prog.pid, prog.decode);
      ghost var step := LineStep(ctx);
      temps := PlantTemp([], LineEnd, ctx.range.end);
      fault := None;
      var cur: int := ctx.range.start;
      while cur < ctx.range.end
        invariant fault.None?
        invariant var w := Walk(fetch, step, ctx.range.end, cur, Planting(mem, temps));
          w.planting == plan.planting && w.fault == plan.fault
        decreases ctx.range.end - cur
      {
        var decoded := FetchMasked(cur);
        if decoded.None? {
          break;
        }
        var insn := decoded.value;
        WalkOnce(fetch, step, ctx.range.end, cur, Planting(mem, temps), insn);
        assert step(Planting(mem, temps), insn, cur) == PlanInstruction(Planting(mem, temps), insn, cur, ctx);
        temps, fault := PlantInstruction(temps, insn, cur, ctx);
        if fault.Some? {
          break;
        }
        cur := cur + insn.size;
      }
    }

    /** One read of the planting loop: the word at `cur` with the saved byte of a
        breakpoint there put back, given to the decoder. */
    method FetchMasked(cur: int) returns (decoded: Option<Insn>)
      ensures decoded == LineFetch(breakpoints, prog.pid, prog.decode)(mem, cur)
    {
      var word := Peek(mem, cur);
      var bp := BreakpointFind(cur, prog.pid);
      if bp.Some? {
        word := word.(low := breakpoints[bp.value].savedOpCode);
      }
      assert word == MaskedWord(mem, breakpoints, cur, prog.pid);
      decoded := prog.decode(word, cur);
    }

    /** The loop retiring the temporary traps, in planting order. */
    method RetireTemps(temps: seq<TempTrap>)
      modifies this`mem
      ensures mem == RetireInOrder(old(mem), temps)
    {
      ghost var armed := mem;
      for i := 0 to |temps|
        invariant RetireInOrder(mem, temps[i..]) == RetireInOrder(armed, temps)
      {
        assert temps[i..][1..] == temps[i + 1..];
        var off := BreakpointDisable(temps[i].bp);
      }
      assert temps[|temps|..] == [];
    }

    /** `ToNextLine`, with the stops of the final continue given as input. */
    method ToNextLine(stepInto: bool, stepStop: Stop, contStop: Stop) returns (out: Outcome<NextLineFault>)
      modifies this
      ensures (State(), out) == ToNextLineSpec(PlantingOrder, prog, old(State()), stepInto, stepStop, contStop)
    {
      var found := AddressRangeCurrentAndNextLine(prog.lines, prog.functions, regs.rip);
      if found.Failure? {
        return Fail(NoRange(found.error));
      }
      var ctx := ContextAt(prog, State(), found.value, stepInto);
      var temps, fault := PlantLine(ctx);
      if fault.Some? {
        return Fail(BadOperand(fault.value));
      }
      ContinueProgram(stepStop, contStop);
      RetireTemps(temps);
      return Pass;
    }
  }
}
