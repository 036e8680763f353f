/** Where `ToNextLine` plants its temporary traps. It walks the instructions of
    the current line's address range, decoding each one from the word at its
    address (trap bytes of permanent breakpoints masked). The walk plants a trap
    at the range end, at call targets inside a compile unit when stepping into
    functions, at the return address `[rbp+8]` when it lies in a compile unit, and
    at relative-jump targets outside the range. After the debuggee has run, every
    temporary trap is disarmed again. The instruction decoder is a parameter. */
module LinePlan {
  import opened Wrappers
  import opened Machine
  import opened Breakpoints
  import opened Symbols

  // Instruction groups as the disassembler numbers them.
  const GroupJump := 1
  const GroupCall := 2
  const GroupRet := 3
  const GroupBranchRelative := 7

  /** The decoder sees at most one word, so an instruction it returns is 1 to 8 bytes long. */
  type InsnSize = n: int | 1 <= n <= 8 witness 1

  /** A signed 64-bit immediate. */
  type I64 = x: int | -0x8000_0000_0000_0000 <= x < 0x8000_0000_0000_0000

  /** A decoded instruction: its size, its groups, its operand count and its first operand's immediate. */
  datatype Insn = Insn(size: InsnSize, groups: seq<int>, opCount: nat, imm: I64)

  /** The disassembler: the word fetched at an address, and that address, give one
      instruction or nothing. */
  type Decoder = (MemWord, int) -> Option<Insn>

  /** `inst_type`: the flags an instruction's groups set. */
  datatype InstType = InstType(jump: bool, call: bool, ret: bool, relativeBranch: bool)

  /** The flags of a set of groups: each flag is set when its group is present. */
  function Classify(groups: seq<int>): InstType {
    InstType(GroupJump in groups, GroupCall in groups, GroupRet in groups, GroupBranchRelative in groups)
  }

  /** The group loop of `ToNextLine`: or-ing one flag per group seen. */
  method ClassifyGroups(groups: seq<int>) returns (k: InstType)
    ensures k.jump <==> GroupJump in groups
    ensures k.call <==> GroupCall in groups
    ensures k.ret <==> GroupRet in groups
    ensures k.relativeBranch <==> GroupBranchRelative in groups
  {
    k := InstType(false, false, false, false);
    for i := 0 to |groups|
      invariant k == Classify(groups[..i])
    {
      assert groups[..i + 1] == groups[..i] + [groups[i]];
      var g := groups[i];
      if g == GroupJump {
        k := k.(jump := true);
      } else if g == GroupCall {
        k := k.(call := true);
      } else if g == GroupRet {
        k := k.(ret := true);
      } else if g == GroupBranchRelative {
        k := k.(relativeBranch := true);
      }
    }
    assert groups[..|groups|] == groups;
  }

  /** Whether `a` lies in the closed pc interval of some compile unit. */
  predicate InSomeUnit(units: seq<CompileUnit>, a: int) {
    exists i :: 0 <= i < |units| && AddressBetween(a, units[i].lowPC, units[i].highPC)
  }

  /** The compile-unit loop of `ToNextLine`, which stops at the first unit holding `a`. */
  method InSomeCompileUnit(units: seq<CompileUnit>, a: int) returns (b: bool)
    ensures b <==> exists i :: 0 <= i < |units| && units[i].lowPC <= a <= units[i].highPC
  {
    var i := 0;
    while i < |units|
      invariant 0 <= i <= |units|
      invariant forall j :: 0 <= j < i ==> !AddressBetween(a, units[j].lowPC, units[j].highPC)
    {
      if AddressBetween(a, units[i].lowPC, units[i].highPC) {
        return true;
      }
      i := i + 1;
    }
    return false;
  }

  // ---------------------------------------------------------------------
  // Planting

  datatype TrapReason = LineEnd | CallTarget | ReturnAddress | JumpTarget

  /** A temporary breakpoint and why it was planted. */
  datatype TempTrap = TempTrap(reason: TrapReason, bp: Breakpoint)

  /** Debuggee memory and the temporary traps planted so far, in planting order. */
  datatype Planting = Planting(mem: Memory, traps: seq<TempTrap>)

  /** The source's assertions on call and jump operands. */
  datatype PlanFault =
    | CallOperandNotSingle | CallOperandNotAbove0x100
    | JumpOperandNotSingle | JumpOperandNotAbove0x100

  /** What the parts of `ToNextLine` need besides memory: the compile units, the
      line's range, the frame pointer, the process and the stepping mode. */
  datatype LineContext = LineContext(
    units: seq<CompileUnit>, range: AddressRange, rbp: Word, pid: int, stepInto: bool)

  /** One decoded instruction of the walk, with the return-address word read for it. */
  datatype Visit = Visit(address: int, insn: Insn, kind: InstType, returnAddress: Word)

  /** The outcome of the walk: memory and traps, the failed assertion if any, and the instructions visited. */
  datatype Plan = Plan(planting: Planting, fault: Option<PlanFault>, visits: seq<Visit>)

  /** `BreakpointCreate` and `BreakpointEnable` of a temporary trap, then its append. */
  function Plant(p: Planting, reason: TrapReason, address: Word, pid: int): Planting {
    Planting(ArmedMemory(p.mem, address),
             p.traps + [TempTrap(reason, Armed(p.mem, BreakpointCreate(address, pid)))])
  }

  function CallStep(p: Planting, insn: Insn, k: InstType, ctx: LineContext): Result<Planting, PlanFault> {
    if k.call && ctx.stepInto then
      if insn.opCount != 1 then Failure(CallOperandNotSingle)
      else if insn.imm <= 0x100 then Failure(CallOperandNotAbove0x100)
      else if InSomeUnit(ctx.units, insn.imm) then Success(Plant(p, CallTarget, insn.imm, ctx.pid))
      else Success(p)
    else Success(p)
  }

  function RetStep(p: Planting, k: InstType, returnAddress: Word, ctx: LineContext): Planting {
    if k.ret && InSomeUnit(ctx.units, returnAddress) then Plant(p, ReturnAddress, returnAddress, ctx.pid)
    else p
  }

  function JumpStep(p: Planting, insn: Insn, k: InstType, ctx: LineContext): Result<Planting, PlanFault> {
    if k.relativeBranch && k.jump then
      if insn.opCount != 1 then Failure(JumpOperandNotSingle)
      else if insn.imm <= 0x100 then Failure(JumpOperandNotAbove0x100)
      else if !AddressBetween(insn.imm, ctx.range.start, ctx.range.end) then Success(Plant(p, JumpTarget, insn.imm, ctx.pid))
      else Success(p)
    else Success(p)
  }

  /** The result of planting for one decoded instruction. */
  datatype StepOutcome = StepOutcome(planting: Planting, fault: Option<PlanFault>, visit: Visit)

  /** One pass of the planting loop's body for the instruction at `cur`: the call
      check, the return check (reading `[rbp+8]` after any call trap is planted),
      then the jump check. */
  function PlanInstruction(p: Planting, insn: Insn, cur: int, ctx: LineContext): StepOutcome {
    var k := Classify(insn.groups);
    match CallStep(p, insn, k, ctx)
    case Failure(e) => StepOutcome(p, Some(e), Visit(cur, insn, k, ValueOf(Peek(p.mem, Wrap(ctx.rbp + 8)))))
    case Success(p1) =>
      var ra := ValueOf(Peek(p1.mem, Wrap(ctx.rbp + 8)));
      var p2 := RetStep(p1, k, ra, ctx);
      match JumpStep(p2, insn, k, ctx)
      case Failure(e) => StepOutcome(p2, Some(e), Visit(cur, insn, k, ra))
      case Success(p3) => StepOutcome(p3, None, Visit(cur, insn, k, ra))
  }

  /** A planting step: the planting so far, a decoded instruction and its address give the step's outcome. */
  type Stepper = (Planting, Insn, int) -> StepOutcome

  /** The step `ToNextLine` takes for each instruction of a line. */
  function LineStep(ctx: LineContext): Stepper {
    (p: Planting, insn: Insn, cur: int) => PlanInstruction(p, insn, cur, ctx)
  }

  /** How the walk reads an instruction: the memory and an address give a decoded instruction or nothing. */
  type Fetcher = (Memory, int) -> Option<Insn>

  /** `ToNextLine`'s fetch: the word at the address with breakpoint bytes masked, given to the decoder. */
  function LineFetch(table: seq<Breakpoint>, pid: int, decode: Decoder): Fetcher {
    (mem: Memory, a: int) => decode(MaskedWord(mem, table, a, pid), a)
  }

  /** The planting loop of `ToNextLine` from address `cur` on, returning the
      instructions it visits from `cur`. It stops at the range end `end`, when the
      decoder returns nothing, or at a failed operand assertion. */
  function Walk(fetch: Fetcher, step: Stepper, end: int, cur: int, p: Planting): Plan
    decreases end - cur
  {
    if cur >= end then Plan(p, None, [])
    else
      match fetch(p.mem, cur)
      case None => Plan(p, None, [])
      case Some(insn) =>
        var st := step(p, insn, cur);
        if st.fault.Some? then Plan(st.planting, st.fault, [st.visit])
        else
          var rest := Walk(fetch, step, end, cur + insn.size, st.planting);
          Plan(rest.planting, rest.fault, [st.visit] + rest.visits)
  }

  /** The planting half of `ToNextLine`: a trap at the range end, then the walk from the range start. */
  function PlanLine(mem: Memory, table: seq<Breakpoint>, ctx: LineContext, decode: Decoder): Plan {
    var first := Plant(Planting(mem, []), LineEnd, ctx.range.end, ctx.pid);
    Walk(LineFetch(table, ctx.pid, decode), LineStep(ctx), ctx.range.end, ctx.range.start, first)
  }

  /** One instruction of the walk: a faulting step ends it with that step's
      planting, fault and visit; any other step's visit comes before those of the
      walk from the next instruction. */
  lemma WalkOnce(fetch: Fetcher, step: Stepper, end: int, cur: int, p: Planting, insn: Insn)
    requires cur < end && fetch(p.mem, cur) == Some(insn)
    ensures var st := step(p, insn, cur);
      var rest := Walk(fetch, step, end, cur + insn.size, st.planting);
      Walk(fetch, step, end, cur, p) ==
        if st.fault.Some? then Plan(st.planting, st.fault, [st.visit])
        else Plan(rest.planting, rest.fault, [st.visit] + rest.visits)
  {
  }

  // ---------------------------------------------------------------------
  // Which traps the walk plants, stated per visited instruction

  /** A planted trap seen by its reason and address. */
  datatype Site = Site(reason: TrapReason, address: int)

  function Sites(traps: seq<TempTrap>): (s: seq<Site>)
    ensures |s| == |traps|
  {
    if |traps| == 0 then [] else [Site(traps[0].reason, traps[0].bp.address)] + Sites(traps[1..])
  }

  /** The assertion an instruction fails, if any: call operands are checked only when stepping into calls. */
  function FaultOf(v: Visit, ctx: LineContext): Option<PlanFault> {
    if v.kind.call && ctx.stepInto && v.insn.opCount != 1 then Some(CallOperandNotSingle)
    else if v.kind.call && ctx.stepInto && v.insn.imm <= 0x100 then Some(CallOperandNotAbove0x100)
    else if v.kind.relativeBranch && v.kind.jump && v.insn.opCount != 1 then Some(JumpOperandNotSingle)
    else if v.kind.relativeBranch && v.kind.jump && v.insn.imm <= 0x100 then Some(JumpOperandNotAbove0x100)
    else None
  }

  predicate CallFails(v: Visit, ctx: LineContext) {
    v.kind.call && ctx.stepInto && (v.insn.opCount != 1 || v.insn.imm <= 0x100)
  }

  function CallSites(v: Visit, ctx: LineContext): seq<Site> {
    if v.kind.call && ctx.stepInto && InSomeUnit(ctx.units, v.insn.imm) then [Site(CallTarget, v.insn.imm)] else []
  }

  function RetSites(v: Visit, ctx: LineContext): seq<Site> {
    if v.kind.ret && InSomeUnit(ctx.units, v.returnAddress) then [Site(ReturnAddress, v.returnAddress)] else []
  }

  function JumpSites(v: Visit, ctx: LineContext): seq<Site> {
    if v.kind.relativeBranch && v.kind.jump && v.insn.opCount == 1 && v.insn.imm > 0x100 &&
       !AddressBetween(v.insn.imm, ctx.range.start, ctx.range.end)
    then [Site(JumpTarget, v.insn.imm)] else []
  }

  /** The traps an instruction calls for, in the order they are planted. A failed
      call assertion plants nothing; a failed jump assertion still lets the
      return-address trap through, because that one is planted first. */
  function SitesOf(v: Visit, ctx: LineContext): seq<Site> {
    if CallFails(v, ctx) then [] else CallSites(v, ctx) + RetSites(v, ctx) + JumpSites(v, ctx)
  }

  function AllSites(vs: seq<Visit>, ctx: LineContext): seq<Site> {
    if |vs| == 0 then [] else SitesOf(vs[0], ctx) + AllSites(vs[1..], ctx)
  }

  /** Why a trap at a site is allowed to be there. */
  predicate Justified(s: Site, ctx: LineContext) {
    match s.reason
    case LineEnd => s.address == ctx.range.end
    case CallTarget => ctx.stepInto && s.address > 0x100 && InSomeUnit(ctx.units, s.address)
    case ReturnAddress => InSomeUnit(ctx.units, s.address)
    case JumpTarget => s.address > 0x100 && !AddressBetween(s.address, ctx.range.start, ctx.range.end)
  }

  /** The visited instructions follow each other from `start`, all below `end`. */
  predicate Chained(vs: seq<Visit>, start: int, end: int) {
    && (|vs| > 0 ==> vs[0].address == start)
    && (forall i :: 0 <= i < |vs| ==> vs[i].address < end)
    && (forall i :: 0 <= i < |vs| - 1 ==> vs[i + 1].address == vs[i].address + vs[i].insn.size)
  }

  lemma {:induction false} SitesIndex(traps: seq<TempTrap>, i: nat)
    requires i < |traps|
    ensures Sites(traps)[i] == Site(traps[i].reason, traps[i].bp.address)
  {
    if i > 0 {
      SitesIndex(traps[1..], i - 1);
    }
  }

  lemma {:induction false} SitesAppend(a: seq<TempTrap>, b: seq<TempTrap>)
    ensures Sites(a + b) == Sites(a) + Sites(b)
  {
    if |a| == 0 {
      assert a + b == b;
    } else {
      assert (a + b)[1..] == a[1..] + b;
      SitesAppend(a[1..], b);
    }
  }

  lemma PlantSites(p: Planting, reason: TrapReason, address: Word, pid: int)
    ensures Appends(p.traps, Plant(p, reason, address, pid).traps, [Site(reason, address)])
  {
    SitesAppend(p.traps, [TempTrap(reason, Armed(p.mem, BreakpointCreate(address, pid)))]);
  }

  lemma AppendsNone(traps: seq<TempTrap>)
    ensures Appends(traps, traps, [])
  {
    assert Sites(traps) + [] == Sites(traps);
  }

  lemma AppendsChain(a: seq<TempTrap>, b: seq<TempTrap>, c: seq<TempTrap>, s1: seq<Site>, s2: seq<Site>)
    requires Appends(a, b, s1) && Appends(b, c, s2)
    ensures Appends(a, c, s1 + s2)
  {
    ConcatAssoc(Sites(a), s1, s2);
  }

  lemma CallStepSites(p: Planting, v: Visit, ctx: LineContext)
    ensures CallStep(p, v.insn, v.kind, ctx).Failure? <==> CallFails(v, ctx)
    ensures CallStep(p, v.insn, v.kind, ctx).Failure? ==> Some(CallStep(p, v.insn, v.kind, ctx).error) == FaultOf(v, ctx)
    ensures CallStep(p, v.insn, v.kind, ctx).Success? ==>
      Appends(p.traps, CallStep(p, v.insn, v.kind, ctx).value.traps, CallSites(v, ctx))
  {
    if CallStep(p, v.insn, v.kind, ctx).Success? {
      if CallSites(v, ctx) != [] {
        PlantSites(p, CallTarget, v.insn.imm, ctx.pid);
      } else {
        AppendsNone(p.traps);
      }
    }
  }

  lemma RetStepSites(p: Planting, v: Visit, ctx: LineContext)
    ensures Appends(p.traps, RetStep(p, v.kind, v.returnAddress, ctx).traps, RetSites(v, ctx))
  {
    if RetSites(v, ctx) != [] {
      PlantSites(p, ReturnAddress, v.returnAddress, ctx.pid);
    } else {
      AppendsNone(p.traps);
    }
  }

  lemma JumpStepSites(p: Planting, v: Visit, ctx: LineContext)
    requires !CallFails(v, ctx)
    ensures JumpStep(p, v.insn, v.kind, ctx).Failure? ==> Some(JumpStep(p, v.insn, v.kind, ctx).error) == FaultOf(v, ctx)
    ensures JumpStep(p, v.insn, v.kind, ctx).Failure? ==> JumpSites(v, ctx) == []
    ensures JumpStep(p, v.insn, v.kind, ctx).Success? ==> FaultOf(v, ctx).None?
    ensures JumpStep(p, v.insn, v.kind, ctx).Success? ==>
      Appends(p.traps, JumpStep(p, v.insn, v.kind, ctx).value.traps, JumpSites(v, ctx))
  {
    if JumpStep(p, v.insn, v.kind, ctx).Success? {
      if JumpSites(v, ctx) != [] {
        PlantSites(p, JumpTarget, v.insn.imm, ctx.pid);
      } else {
        AppendsNone(p.traps);
      }
    }
  }

  /** One step of the walk plants exactly the traps the instruction calls for, and
      fails exactly when its operands break an assertion. */
  lemma PlanInstructionSites(p: Planting, insn: Insn, cur: int, ctx: LineContext)
    ensures var st := PlanInstruction(p, insn, cur, ctx);
      && st.visit.address == cur && st.visit.insn == insn
      && st.fault == FaultOf(st.visit, ctx)
      && Appends(p.traps, st.planting.traps, SitesOf(st.visit, ctx))
  {
    var k := Classify(insn.groups);
    var st := PlanInstruction(p, insn, cur, ctx);
    var v := st.visit;
    CallStepSites(p, v, ctx);
    if CallStep(p, insn, k, ctx).Success? {
      var p1 := CallStep(p, insn, k, ctx).value;
      var p2 := RetStep(p1, k, v.returnAddress, ctx);
      RetStepSites(p1, v, ctx);
      JumpStepSites(p2, v, ctx);
      AppendsChain(p.traps, p1.traps, p2.traps, CallSites(v, ctx), RetSites(v, ctx));
      if JumpStep(p2, insn, k, ctx).Success? {
        var p3 := JumpStep(p2, insn, k, ctx).value;
        AppendsChain(p.traps, p2.traps, p3.traps, CallSites(v, ctx) + RetSites(v, ctx), JumpSites(v, ctx));
      } else {
        assert CallSites(v, ctx) + RetSites(v, ctx) + JumpSites(v, ctx) == CallSites(v, ctx) + RetSites(v, ctx);
      }
    } else {
      AppendsNone(p.traps);
    }
  }

  /** A step taken on purpose in a proof: quantifiers over steps fire on this
      term only, and not on every step a walk unfolds to. */
  function StepAt(step: Stepper, q: Planting, insn: Insn, c: int): StepOutcome {
    step(q, insn, c)
  }

  /** A planting step visits the instruction it is given, at the address it is given. */
  ghost predicate StepVisits(step: Stepper) {
    forall q: Planting, insn: Insn, c: int {:trigger StepAt(step, q, insn, c)} ::
      StepAt(step, q, insn, c).visit.address == c && StepAt(step, q, insn, c).visit.insn == insn
  }

  /** A planting step fails exactly on a broken operand assertion. */
  ghost predicate StepFaults(step: Stepper, ctx: LineContext) {
    forall q: Planting, insn: Insn, c: int {:trigger StepAt(step, q, insn, c)} ::
      StepAt(step, q, insn, c).fault == FaultOf(StepAt(step, q, insn, c).visit, ctx)
  }

  /** `after` is `before` followed by traps at `sites`. */
  predicate Appends(before: seq<TempTrap>, after: seq<TempTrap>, sites: seq<Site>) {
    Sites(after) == Sites(before) + sites
  }

  /** A planting step appends the traps its instruction calls for. */
  ghost predicate StepPlants(step: Stepper, ctx: LineContext) {
    forall q: Planting, insn: Insn, c: int {:trigger StepAt(step, q, insn, c)} ::
      Appends(q.traps, StepAt(step, q, insn, c).planting.traps, SitesOf(StepAt(step, q, insn, c).visit, ctx))
  }

  /** The step of `ToNextLine` does what a planting step must. */
  lemma LineStepPlants(ctx: LineContext)
    ensures StepVisits(LineStep(ctx)) && StepFaults(LineStep(ctx), ctx) && StepPlants(LineStep(ctx), ctx)
  {
    forall q: Planting, insn: Insn, c: int
      ensures var st := LineStep(ctx)(q, insn, c);
        && st.visit.address == c && st.visit.insn == insn
        && st.fault == FaultOf(st.visit, ctx)
        && StepAt(LineStep(ctx), q, insn, c) == st
        && Appends(q.traps, st.planting.traps, SitesOf(st.visit, ctx))
    {
      PlanInstructionSites(q, insn, c, ctx);
    }
  }

  lemma ConcatAssoc<T>(a: seq<T>, b: seq<T>, c: seq<T>)
    ensures a + b + c == a + (b + c)
  {
  }

  lemma AllSitesCons(v: Visit, vs: seq<Visit>, ctx: LineContext)
    ensures AllSites([v] + vs, ctx) == SitesOf(v, ctx) + AllSites(vs, ctx)
  {
    assert ([v] + vs)[1..] == vs;
  }

  /** The walk plants, after the traps it started with, exactly the traps its
      visited instructions call for. */
  lemma {:induction false} WalkSites(fetch: Fetcher, step: Stepper, ctx: LineContext, cur: int, p: Planting)
    requires StepPlants(step, ctx)
    ensures var r := Walk(fetch, step, ctx.range.end, cur, p);
      Appends(p.traps, r.planting.traps, AllSites(r.visits, ctx))
    decreases ctx.range.end - cur
  {
    if cur < ctx.range.end && fetch(p.mem, cur).Some? {
      var insn := fetch(p.mem, cur).value;
      var st := step(p, insn, cur);
      WalkOnce(fetch, step, ctx.range.end, cur, p, insn);
      if st.fault.None? {
        WalkSites(fetch, step, ctx, cur + insn.size, st.planting);
      }
      SitesStep(step, ctx, p, insn, cur, Walk(fetch, step, ctx.range.end, cur + insn.size, st.planting),
                Walk(fetch, step, ctx.range.end, cur, p));
    }
  }

  /** One instruction of `WalkSites`: the step's traps, then the rest's. */
  lemma SitesStep(step: Stepper, ctx: LineContext, p: Planting, insn: Insn, cur: int, rest: Plan, r: Plan)
    requires StepPlants(step, ctx)
    requires var st := step(p, insn, cur);
      r == if st.fault.Some? then Plan(st.planting, st.fault, [st.visit])
           else Plan(rest.planting, rest.fault, [st.visit] + rest.visits)
    requires step(p, insn, cur).fault.None? ==>
      Appends(step(p, insn, cur).planting.traps, rest.planting.traps, AllSites(rest.visits, ctx))
    ensures Appends(p.traps, r.planting.traps, AllSites(r.visits, ctx))
  {
    var st := StepAt(step, p, insn, cur);
    assert Appends(p.traps, st.planting.traps, SitesOf(st.visit, ctx));
    if st.fault.Some? {
      SitesLast(p, st, r, ctx);
    } else {
      SitesCompose(p, st, rest, r, ctx);
    }
  }

  lemma SitesLast(p: Planting, st: StepOutcome, r: Plan, ctx: LineContext)
    requires r == Plan(st.planting, st.fault, [st.visit])
    requires Appends(p.traps, st.planting.traps, SitesOf(st.visit, ctx))
    ensures Appends(p.traps, r.planting.traps, AllSites(r.visits, ctx))
  {
    AllSitesCons(st.visit, [], ctx);
  }

  lemma SitesCompose(p: Planting, st: StepOutcome, rest: Plan, r: Plan, ctx: LineContext)
    requires r == Plan(rest.planting, rest.fault, [st.visit] + rest.visits)
    requires Appends(st.planting.traps, rest.planting.traps, AllSites(rest.visits, ctx))
    requires Appends(p.traps, st.planting.traps, SitesOf(st.visit, ctx))
    ensures Appends(p.traps, r.planting.traps, AllSites(r.visits, ctx))
  {
    AllSitesCons(st.visit, rest.visits, ctx);
    ConcatAssoc(Sites(p.traps), SitesOf(st.visit, ctx), AllSites(rest.visits, ctx));
  }

  /** The walk visits instructions that follow each other from its start address, all inside the range. */
  lemma {:induction false} WalkChained(fetch: Fetcher, step: Stepper, ctx: LineContext, cur: int, p: Planting)
    requires StepVisits(step)
    ensures Chained(Walk(fetch, step, ctx.range.end, cur, p).visits, cur, ctx.range.end)
    decreases ctx.range.end - cur
  {
    if cur < ctx.range.end && fetch(p.mem, cur).Some? {
      var insn := fetch(p.mem, cur).value;
      var st := StepAt(step, p, insn, cur);
      WalkOnce(fetch, step, ctx.range.end, cur, p, insn);
      if st.fault.None? {
        var rest := Walk(fetch, step, ctx.range.end, cur + insn.size, st.planting);
        WalkChained(fetch, step, ctx, cur + insn.size, st.planting);
        ChainedCons(st.visit, rest.visits, cur, ctx.range.end);
      }
    }
  }

  lemma ChainedCons(v: Visit, vs: seq<Visit>, start: int, end: int)
    requires v.address == start < end && Chained(vs, start + v.insn.size, end)
    ensures Chained([v] + vs, start, end)
  {
    var ws := [v] + vs;
    forall i | 0 < i < |ws| ensures ws[i] == vs[i - 1] {
    }
  }

  /** The walk fails exactly at an instruction whose operands break an assertion,
      and that instruction is the last it visits. */
  lemma {:induction false} WalkFaults(fetch: Fetcher, step: Stepper, ctx: LineContext, cur: int, p: Planting)
    requires StepFaults(step, ctx)
    ensures FaultsLast(Walk(fetch, step, ctx.range.end, cur, p), ctx)
    decreases ctx.range.end - cur
  {
    if cur < ctx.range.end && fetch(p.mem, cur).Some? {
      var insn := fetch(p.mem, cur).value;
      var st := StepAt(step, p, insn, cur);
      WalkOnce(fetch, step, ctx.range.end, cur, p, insn);
      if st.fault.None? {
        WalkFaults(fetch, step, ctx, cur + insn.size, st.planting);
      }
      FaultsStep(step, ctx, p, insn, cur, Walk(fetch, step, ctx.range.end, cur + insn.size, st.planting),
                 Walk(fetch, step, ctx.range.end, cur, p));
    }
  }

  /** The walk's visits fail only at the end, and its fault is the last visit's. */
  predicate FaultsLast(r: Plan, ctx: LineContext) {
    && (forall i :: 0 <= i < |r.visits| - 1 ==> FaultOf(r.visits[i], ctx).None?)
    && (r.fault.None? ==> |r.visits| == 0 || FaultOf(r.visits[|r.visits| - 1], ctx).None?)
    && (r.fault.Some? ==> |r.visits| > 0 && r.fault == FaultOf(r.visits[|r.visits| - 1], ctx))
  }

  /** One instruction of `WalkFaults`. */
  lemma FaultsStep(step: Stepper, ctx: LineContext, p: Planting, insn: Insn, cur: int, rest: Plan, r: Plan)
    requires StepFaults(step, ctx)
    requires var st := step(p, insn, cur);
      r == if st.fault.Some? then Plan(st.planting, st.fault, [st.visit])
           else Plan(rest.planting, rest.fault, [st.visit] + rest.visits)
    requires step(p, insn, cur).fault.None? ==> FaultsLast(rest, ctx)
    ensures FaultsLast(r, ctx)
  {
    var st := StepAt(step, p, insn, cur);
    assert st.fault == FaultOf(st.visit, ctx);
    if st.fault.None? {
      FaultsCons(st.visit, rest.visits, rest.fault, ctx);
    }
  }

  lemma FaultsCons(v: Visit, vs: seq<Visit>, fault: Option<PlanFault>, ctx: LineContext)
    requires FaultOf(v, ctx).None?
    requires forall i :: 0 <= i < |vs| - 1 ==> FaultOf(vs[i], ctx).None?
    requires fault.None? ==> |vs| == 0 || FaultOf(vs[|vs| - 1], ctx).None?
    requires fault.Some? ==> |vs| > 0 && fault == FaultOf(vs[|vs| - 1], ctx)
    ensures var ws := [v] + vs;
      && (forall i :: 0 <= i < |ws| - 1 ==> FaultOf(ws[i], ctx).None?)
      && (fault.None? ==> FaultOf(ws[|ws| - 1], ctx).None?)
      && (fault.Some? ==> fault == FaultOf(ws[|ws| - 1], ctx))
  {
    var ws := [v] + vs;
    forall i | 0 < i < |ws| ensures ws[i] == vs[i - 1] {
    }
  }

  lemma {:induction false} AllSitesJustified(vs: seq<Visit>, ctx: LineContext)
    ensures forall i :: 0 <= i < |AllSites(vs, ctx)| ==> Justified(AllSites(vs, ctx)[i], ctx) && AllSites(vs, ctx)[i].reason != LineEnd
  {
    if |vs| > 0 {
      AllSitesJustified(vs[1..], ctx);
    }
  }

  /** The traps of a line plan: the first at the range end, and after it exactly
      the traps the visited instructions call for, each one justified by its
      reason; in particular no call target is planted unless stepping into calls. */
  lemma PlanLineSites(mem: Memory, table: seq<Breakpoint>, ctx: LineContext, decode: Decoder)
    ensures var r := PlanLine(mem, table, ctx, decode);
      && Sites(r.planting.traps) == [Site(LineEnd, ctx.range.end)] + AllSites(r.visits, ctx)
      && Chained(r.visits, ctx.range.start, ctx.range.end)
      && (forall i :: 0 <= i < |r.planting.traps| ==>
            Justified(Site(r.planting.traps[i].reason, r.planting.traps[i].bp.address), ctx))
      && (forall i :: 1 <= i < |r.planting.traps| ==> r.planting.traps[i].reason != LineEnd)
      && (!ctx.stepInto ==> forall i :: 0 <= i < |r.planting.traps| ==> r.planting.traps[i].reason != CallTarget)
  {
    var r := PlanLine(mem, table, ctx, decode);
    var first := Plant(Planting(mem, []), LineEnd, ctx.range.end, ctx.pid);
    LineStepPlants(ctx);
    WalkSites(LineFetch(table, ctx.pid, decode), LineStep(ctx), ctx, ctx.range.start, first);
    WalkChained(LineFetch(table, ctx.pid, decode), LineStep(ctx), ctx, ctx.range.start, first);
    PlantSites(Planting(mem, []), LineEnd, ctx.range.end, ctx.pid);
    AppendsChain([], first.traps, r.planting.traps, [Site(LineEnd, ctx.range.end)], AllSites(r.visits, ctx));
    assert Sites([]) + ([Site(LineEnd, ctx.range.end)] + AllSites(r.visits, ctx))
        == [Site(LineEnd, ctx.range.end)] + AllSites(r.visits, ctx);
    AllSitesJustified(r.visits, ctx);
    var s := Sites(r.planting.traps);
    forall i | 0 <= i < |r.planting.traps|
      ensures Justified(Site(r.planting.traps[i].reason, r.planting.traps[i].bp.address), ctx)
      ensures i >= 1 ==> r.planting.traps[i].reason != LineEnd
    {
      SitesIndex(r.planting.traps, i);
      if i >= 1 {
        assert s[i] == AllSites(r.visits, ctx)[i - 1];
      }
    }
  }

  // ---------------------------------------------------------------------
  // The memory effect of planting

  /** Some trap of `traps` sits at `a`. */
  predicate TrapAt(traps: seq<TempTrap>, a: int) {
    exists i :: 0 <= i < |traps| && traps[i].bp.address == a
  }

  lemma TrapAtPrefix(traps: seq<TempTrap>, n: nat, a: int)
    requires n <= |traps|
    ensures TrapAt(traps[..n], a) ==> TrapAt(traps, a)
  {
    if TrapAt(traps[..n], a) {
      var j :| 0 <= j < n && traps[..n][j].bp.address == a;
      assert traps[j] == traps[..n][j];
    }
  }

  /** `p` comes from `mem0` by enabling its traps one after the other: the last trap
      is enabled and saved the low byte it found, and disabling it gives back the
      memory it was planted over, from which the earlier traps were planted in turn. */
  predicate PlantedOver(mem0: Memory, p: Planting)
    decreases |p.traps|
  {
    if |p.traps| == 0 then p.mem == mem0
    else
      var n := |p.traps| - 1;
      var t := p.traps[n].bp;
      var before := DisarmedMemory(p.mem, t);
      && t.enabled
      && t.savedOpCode == Peek(before, t.address).low
      && p.mem == ArmedMemory(before, t.address)
      && PlantedOver(mem0, Planting(before, p.traps[..n]))
  }

  lemma PlantKeepsPlantedOver(mem0: Memory, p: Planting, reason: TrapReason, a: Word, pid: int)
    requires PlantedOver(mem0, p)
    ensures PlantedOver(mem0, Plant(p, reason, a, pid))
  {
    var q := Plant(p, reason, a, pid);
    EnableDisableRoundTrip(p.mem, BreakpointCreate(a, pid));
    assert q.traps[..|p.traps|] == p.traps;
  }

  lemma {:induction false} PlantedOverKeys(mem0: Memory, p: Planting)
    requires PlantedOver(mem0, p)
    ensures p.mem.Keys == mem0.Keys
    decreases |p.traps|
  {
    if |p.traps| > 0 {
      var n := |p.traps| - 1;
      PlantedOverKeys(mem0, Planting(DisarmedMemory(p.mem, p.traps[n].bp), p.traps[..n]));
    }
  }

  lemma {:induction false} PlantedOverUpper(mem0: Memory, p: Planting, a: int)
    requires PlantedOver(mem0, p) && a in mem0
    ensures a in p.mem && p.mem[a].upper == mem0[a].upper
    decreases |p.traps|
  {
    PlantedOverKeys(mem0, p);
    if |p.traps| > 0 {
      var n := |p.traps| - 1;
      PlantedOverUpper(mem0, Planting(DisarmedMemory(p.mem, p.traps[n].bp), p.traps[..n]), a);
    }
  }

  lemma {:induction false} PlantedOverEnabled(mem0: Memory, p: Planting, i: nat)
    requires PlantedOver(mem0, p) && i < |p.traps|
    ensures p.traps[i].bp.enabled
    decreases |p.traps|
  {
    var n := |p.traps| - 1;
    if i < n {
      var pre := Planting(DisarmedMemory(p.mem, p.traps[n].bp), p.traps[..n]);
      assert pre.traps[i] == p.traps[i];
      PlantedOverEnabled(mem0, pre, i);
    }
  }

  lemma {:induction false} PlantedOverTrapped(mem0: Memory, p: Planting, i: nat)
    requires PlantedOver(mem0, p) && i < |p.traps| && p.traps[i].bp.address in mem0
    ensures p.traps[i].bp.address in p.mem && p.mem[p.traps[i].bp.address].low == TrapOpcode
    decreases |p.traps|
  {
    var n := |p.traps| - 1;
    var pre := Planting(DisarmedMemory(p.mem, p.traps[n].bp), p.traps[..n]);
    PlantedOverKeys(mem0, p);
    if i < n {
      assert pre.traps[i] == p.traps[i];
      PlantedOverTrapped(mem0, pre, i);
    }
  }

  lemma {:induction false} PlantedOverUntouched(mem0: Memory, p: Planting, a: int)
    requires PlantedOver(mem0, p) && a in mem0 && !TrapAt(p.traps, a)
    ensures a in p.mem && p.mem[a] == mem0[a]
    decreases |p.traps|
  {
    PlantedOverKeys(mem0, p);
    if |p.traps| > 0 {
      var n := |p.traps| - 1;
      assert p.traps[n].bp.address != a;
      TrapAtPrefix(p.traps, n, a);
      PlantedOverUntouched(mem0, Planting(DisarmedMemory(p.mem, p.traps[n].bp), p.traps[..n]), a);
    }
  }

  /** A trap planted where an earlier trap already sits saves INT3, not the original byte. */
  lemma {:induction false} PlantedOverSavesTrap(mem0: Memory, p: Planting, i: nat, j: nat)
    requires PlantedOver(mem0, p) && i < j < |p.traps|
    requires p.traps[i].bp.address == p.traps[j].bp.address && p.traps[i].bp.address in mem0
    ensures p.traps[j].bp.savedOpCode == TrapOpcode
    decreases |p.traps|
  {
    var n := |p.traps| - 1;
    var pre := Planting(DisarmedMemory(p.mem, p.traps[n].bp), p.traps[..n]);
    assert pre.traps[i] == p.traps[i];
    if j < n {
      assert pre.traps[j] == p.traps[j];
      PlantedOverSavesTrap(mem0, pre, i, j);
    } else {
      PlantedOverTrapped(mem0, pre, i);
    }
  }

  /** The first trap planted at an address saves the byte originally there. */
  lemma {:induction false} PlantedOverSavesOriginal(mem0: Memory, p: Planting, j: nat)
    requires PlantedOver(mem0, p) && j < |p.traps|
    requires !TrapAt(p.traps[..j], p.traps[j].bp.address)
    ensures p.traps[j].bp.savedOpCode == Peek(mem0, p.traps[j].bp.address).low
    decreases |p.traps|
  {
    var n := |p.traps| - 1;
    var pre := Planting(DisarmedMemory(p.mem, p.traps[n].bp), p.traps[..n]);
    var a := p.traps[j].bp.address;
    if j < n {
      assert pre.traps[j] == p.traps[j];
      assert pre.traps[..j] == p.traps[..j];
      PlantedOverSavesOriginal(mem0, pre, j);
    } else {
      PlantedOverKeys(mem0, pre);
      if a in mem0 {
        PlantedOverUntouched(mem0, pre, a);
      }
    }
  }

  /** What planting leaves in memory: INT3 in the low byte at every mapped trap
      address with the upper bytes kept, every other word untouched; every trap is
      enabled, the first at an address saves the original byte and every later one
      saves INT3. */
  lemma PlantedOverMemory(mem0: Memory, p: Planting)
    requires PlantedOver(mem0, p)
    ensures p.mem.Keys == mem0.Keys
    ensures forall a :: a in mem0 && !TrapAt(p.traps, a) ==> p.mem[a] == mem0[a]
    ensures forall i :: 0 <= i < |p.traps| && p.traps[i].bp.address in mem0 ==>
      p.mem[p.traps[i].bp.address] == mem0[p.traps[i].bp.address].(low := TrapOpcode)
    ensures forall i :: 0 <= i < |p.traps| ==> p.traps[i].bp.enabled
    ensures forall i, j ::
      0 <= i < j < |p.traps| && p.traps[i].bp.address == p.traps[j].bp.address && p.traps[i].bp.address in mem0
      ==> p.traps[j].bp.savedOpCode == TrapOpcode
    ensures forall j :: 0 <= j < |p.traps| && !TrapAt(p.traps[..j], p.traps[j].bp.address) ==>
      p.traps[j].bp.savedOpCode == Peek(mem0, p.traps[j].bp.address).low
  {
    PlantedOverKeys(mem0, p);
    forall a | a in mem0 && !TrapAt(p.traps, a) ensures p.mem[a] == mem0[a] {
      PlantedOverUntouched(mem0, p, a);
    }
    forall i | 0 <= i < |p.traps| && p.traps[i].bp.address in mem0
      ensures p.mem[p.traps[i].bp.address] == mem0[p.traps[i].bp.address].(low := TrapOpcode)
    {
      PlantedOverTrapped(mem0, p, i);
      PlantedOverUpper(mem0, p, p.traps[i].bp.address);
    }
    forall i | 0 <= i < |p.traps| ensures p.traps[i].bp.enabled {
      PlantedOverEnabled(mem0, p, i);
    }
    forall i, j | 0 <= i < j < |p.traps| && p.traps[i].bp.address == p.traps[j].bp.address &&
      p.traps[i].bp.address in mem0
      ensures p.traps[j].bp.savedOpCode == TrapOpcode
    {
      PlantedOverSavesTrap(mem0, p, i, j);
    }
    forall j | 0 <= j < |p.traps| && !TrapAt(p.traps[..j], p.traps[j].bp.address)
      ensures p.traps[j].bp.savedOpCode == Peek(mem0, p.traps[j].bp.address).low
    {
      PlantedOverSavesOriginal(mem0, p, j);
    }
  }

  lemma CallStepPlantsOver(mem0: Memory, p: Planting, insn: Insn, k: InstType, ctx: LineContext)
    requires PlantedOver(mem0, p)
    ensures CallStep(p, insn, k, ctx).Success? ==> PlantedOver(mem0, CallStep(p, insn, k, ctx).value)
  {
    if k.call && ctx.stepInto && insn.opCount == 1 && insn.imm > 0x100 && InSomeUnit(ctx.units, insn.imm) {
      PlantKeepsPlantedOver(mem0, p, CallTarget, insn.imm, ctx.pid);
    }
  }

  lemma RetStepPlantsOver(mem0: Memory, p: Planting, k: InstType, returnAddress: Word, ctx: LineContext)
    requires PlantedOver(mem0, p)
    ensures PlantedOver(mem0, RetStep(p, k, returnAddress, ctx))
  {
    if k.ret && InSomeUnit(ctx.units, returnAddress) {
      PlantKeepsPlantedOver(mem0, p, ReturnAddress, returnAddress, ctx.pid);
    }
  }

  lemma JumpStepPlantsOver(mem0: Memory, p: Planting, insn: Insn, k: InstType, ctx: LineContext)
    requires PlantedOver(mem0, p)
    ensures JumpStep(p, insn, k, ctx).Success? ==> PlantedOver(mem0, JumpStep(p, insn, k, ctx).value)
  {
    if k.relativeBranch && k.jump && insn.opCount == 1 && insn.imm > 0x100 &&
       !AddressBetween(insn.imm, ctx.range.start, ctx.range.end) {
      PlantKeepsPlantedOver(mem0, p, JumpTarget, insn.imm, ctx.pid);
    }
  }

  /** The planting one instruction leaves: the call check's, the return check's
      after it, or the jump check's after that, whichever step is the last to succeed. */
  lemma PlanInstructionPlanting(p: Planting, insn: Insn, cur: int, ctx: LineContext)
    ensures var k := Classify(insn.groups);
      var q := PlanInstruction(p, insn, cur, ctx).planting;
      && (CallStep(p, insn, k, ctx).Failure? ==> q == p)
      && (CallStep(p, insn, k, ctx).Success? ==>
            var p1 := CallStep(p, insn, k, ctx).value;
            var p2 := RetStep(p1, k, ValueOf(Peek(p1.mem, Wrap(ctx.rbp + 8))), ctx);
            q == if JumpStep(p2, insn, k, ctx).Success? then JumpStep(p2, insn, k, ctx).value else p2)
  {
  }

  lemma PlanInstructionPlantsOver(mem0: Memory, p: Planting, insn: Insn, cur: int, ctx: LineContext)
    requires PlantedOver(mem0, p)
    ensures PlantedOver(mem0, PlanInstruction(p, insn, cur, ctx).planting)
  {
    var k := Classify(insn.groups);
    PlanInstructionPlanting(p, insn, cur, ctx);
    CallStepPlantsOver(mem0, p, insn, k, ctx);
    if CallStep(p, insn, k, ctx).Success? {
      var p1 := CallStep(p, insn, k, ctx).value;
      var ra := ValueOf(Peek(p1.mem, Wrap(ctx.rbp + 8)));
      RetStepPlantsOver(mem0, p1, k, ra, ctx);
      JumpStepPlantsOver(mem0, RetStep(p1, k, ra, ctx), insn, k, ctx);
    }
  }

  /** A step that keeps every planting it is given planted over `mem0`. */
  ghost predicate StepKeepsPlantedOver(step: Stepper, mem0: Memory) {
    forall q: Planting, insn: Insn, c: int ::
      PlantedOver(mem0, q) ==> PlantedOver(mem0, step(q, insn, c).planting)
  }

  lemma {:induction false} WalkPlantsOver(mem0: Memory, fetch: Fetcher, step: Stepper, ctx: LineContext, cur: int, p: Planting)
    requires StepKeepsPlantedOver(step, mem0) && PlantedOver(mem0, p)
    ensures PlantedOver(mem0, Walk(fetch, step, ctx.range.end, cur, p).planting)
    decreases ctx.range.end - cur
  {
    if cur < ctx.range.end && fetch(p.mem, cur).Some? {
      var insn := fetch(p.mem, cur).value;
      var st := step(p, insn, cur);
      if st.fault.None? {
        WalkPlantsOver(mem0, fetch, step, ctx, cur + insn.size, st.planting);
      }
    }
  }

  /** A line plan, whether or not it fails part-way, leaves memory with INT3 at
      every mapped trap address and untouched everywhere else; the first trap at an
      address saves the original byte and every later one at that address saves INT3. */
  lemma PlanLinePlantsOver(mem: Memory, table: seq<Breakpoint>, ctx: LineContext, decode: Decoder)
    ensures PlantedOver(mem, PlanLine(mem, table, ctx, decode).planting)
  {
    forall q: Planting, insn: Insn, c: int | PlantedOver(mem, q)
      ensures PlantedOver(mem, LineStep(ctx)(q, insn, c).planting)
    {
      PlanInstructionPlantsOver(mem, q, insn, c, ctx);
    }
    PlantKeepsPlantedOver(mem, Planting(mem, []), LineEnd, ctx.range.end, ctx.pid);
    WalkPlantsOver(mem, LineFetch(table, ctx.pid, decode), LineStep(ctx), ctx, ctx.range.start,
                   Plant(Planting(mem, []), LineEnd, ctx.range.end, ctx.pid));
  }

  // ---------------------------------------------------------------------
  // Retiring the temporary traps

  /** `BreakpointDisable` on each temporary trap in planting order, as the source does. */
  function RetireInOrder(mem: Memory, traps: seq<TempTrap>): Memory
    decreases |traps|
  {
    if |traps| == 0 then mem else RetireInOrder(DisarmedMemory(mem, traps[0].bp), traps[1..])
  }

  /** `BreakpointDisable` on each temporary trap, the most recently planted first. */
  function RetireInReverse(mem: Memory, traps: seq<TempTrap>): Memory
    decreases |traps|
  {
    if |traps| == 0 then mem
    else RetireInReverse(DisarmedMemory(mem, traps[|traps| - 1].bp), traps[..|traps| - 1])
  }

  /** Retiring the traps in reverse planting order gives back the memory they were
      planted over, exactly, even when several traps share an address. */
  lemma {:induction false} ReverseRetireRestores(mem0: Memory, p: Planting)
    requires PlantedOver(mem0, p)
    ensures RetireInReverse(p.mem, p.traps) == mem0
    decreases |p.traps|
  {
    if |p.traps| > 0 {
      var n := |p.traps| - 1;
      ReverseRetireRestores(mem0, Planting(DisarmedMemory(p.mem, p.traps[n].bp), p.traps[..n]));
    }
  }

  /** Planning a line and then retiring its traps in reverse leaves memory exactly as it was. */
  lemma PlanThenReverseRetireIsIdentity(mem: Memory, table: seq<Breakpoint>, ctx: LineContext, decode: Decoder)
    ensures var p := PlanLine(mem, table, ctx, decode).planting;
      RetireInReverse(p.mem, p.traps) == mem
  {
    PlanLinePlantsOver(mem, table, ctx, decode);
    ReverseRetireRestores(mem, PlanLine(mem, table, ctx, decode).planting);
  }

  lemma {:induction false} InOrderUntouched(mem: Memory, traps: seq<TempTrap>, a: int)
    requires a in mem && !TrapAt(traps, a)
    ensures a in RetireInOrder(mem, traps) && RetireInOrder(mem, traps)[a] == mem[a]
    decreases |traps|
  {
    if |traps| > 0 {
      forall j | 0 <= j < |traps[1..]| ensures traps[1..][j].bp.address != a {
        assert traps[1..][j] == traps[j + 1];
      }
      InOrderUntouched(DisarmedMemory(mem, traps[0].bp), traps[1..], a);
    }
  }

  /** Retiring in planting order leaves at each address the byte saved by the last
      trap planted there. */
  lemma {:induction false} InOrderLastWins(mem: Memory, traps: seq<TempTrap>, a: int, k: nat)
    requires a in mem && k < |traps| && traps[k].bp.address == a
    requires forall j :: k < j < |traps| ==> traps[j].bp.address != a
    ensures a in RetireInOrder(mem, traps) && RetireInOrder(mem, traps)[a].low == traps[k].bp.savedOpCode
    decreases |traps|
  {
    var m := DisarmedMemory(mem, traps[0].bp);
    if k == 0 {
      forall j | 0 <= j < |traps[1..]| ensures traps[1..][j].bp.address != a {
        assert traps[1..][j] == traps[j + 1];
      }
      InOrderUntouched(m, traps[1..], a);
    } else {
      InOrderLastWins(m, traps[1..], a, k - 1);
    }
  }

  function LastAt(traps: seq<TempTrap>, a: int, from: nat): (k: nat)
    requires from < |traps| && traps[from].bp.address == a
    decreases |traps| - from
    ensures from <= k < |traps| && traps[k].bp.address == a
    ensures forall j :: k < j < |traps| ==> traps[j].bp.address != a
  {
    if exists j :: from < j < |traps| && traps[j].bp.address == a then
      var j :| from < j < |traps| && traps[j].bp.address == a;
      LastAt(traps, a, j)
    else from
  }

  /** When two temporary traps share a mapped address whose original byte is not
      INT3, retiring them in planting order leaves INT3 there: the debuggee keeps a
      stray trap in its code. */
  lemma DuplicateTrapLeftArmed(mem0: Memory, p: Planting, i: nat, j: nat)
    requires PlantedOver(mem0, p)
    requires i < j < |p.traps| && p.traps[i].bp.address == p.traps[j].bp.address
    requires p.traps[i].bp.address in mem0 && mem0[p.traps[i].bp.address].low != TrapOpcode
    ensures var a := p.traps[i].bp.address;
      a in RetireInOrder(p.mem, p.traps) &&
      RetireInOrder(p.mem, p.traps)[a].low == TrapOpcode &&
      RetireInOrder(p.mem, p.traps)[a] != mem0[a]
  {
    var a := p.traps[i].bp.address;
    var k := LastAt(p.traps, a, j);
    PlantedOverSavesTrap(mem0, p, i, k);
    PlantedOverKeys(mem0, p);
    InOrderLastWins(p.mem, p.traps, a, k);
  }

  /** No two temporary traps share an address. */
  predicate DistinctTrapAddresses(traps: seq<TempTrap>) {
    forall i, j :: 0 <= i < j < |traps| ==> traps[i].bp.address != traps[j].bp.address
  }

  /** Retiring in planting order keeps the domain and the upper bytes of every word. */
  lemma {:induction false} InOrderKeepsUpper(mem: Memory, traps: seq<TempTrap>)
    ensures RetireInOrder(mem, traps).Keys == mem.Keys
    ensures forall a :: a in mem ==> RetireInOrder(mem, traps)[a].upper == mem[a].upper
    decreases |traps|
  {
    if |traps| > 0 {
      var m := DisarmedMemory(mem, traps[0].bp);
      InOrderKeepsUpper(m, traps[1..]);
      forall a | a in mem ensures m[a].upper == mem[a].upper {
        if a != traps[0].bp.address {
          assert m[a] == mem[a];
        }
      }
    }
  }

  /** Retiring in planting order gives back the memory the traps were planted over
      when no two of them share an address: the defect needs a duplicate. */
  lemma InOrderRestoresDistinct(mem0: Memory, p: Planting)
    requires PlantedOver(mem0, p) && DistinctTrapAddresses(p.traps)
    ensures RetireInOrder(p.mem, p.traps) == mem0
  {
    var r := RetireInOrder(p.mem, p.traps);
    PlantedOverMemory(mem0, p);
    InOrderKeepsUpper(p.mem, p.traps);
    forall a | a in mem0 ensures r[a] == mem0[a] {
      if TrapAt(p.traps, a) {
        var k :| 0 <= k < |p.traps| && p.traps[k].bp.address == a;
        assert !TrapAt(p.traps[..k], a);
        assert p.mem[a] == mem0[a].(low := TrapOpcode);
        InOrderLastWins(p.mem, p.traps, a, k);
      } else {
        InOrderUntouched(p.mem, p.traps, a);
      }
    }
  }

  /** A line at 0x1000..0x1004 made of two conditional jumps to the label 0x2000
      outside it, as `if (a && b)` compiles to, with `w` the word at the label. */
  function TwoJumpsContext(): LineContext {
    LineContext([], AddressRange(0x1000, 0x1004), 0, 7, false)
  }

  function TwoJumpsDecoder(): Decoder {
    var jcc := Insn(2, [GroupJump, GroupBranchRelative], 1, 0x2000);
    (word: MemWord, at: int) => if at == 0x1000 || at == 0x1002 then Some(jcc) else None
  }

  function TwoJumpsMemory(w: MemWord): Memory {
    map[0x1000 := MemWord(0, 0), 0x1002 := MemWord(0, 0), 0x1004 := MemWord(0, 0), 0x2000 := w]
  }

  /** The plan of that line holds the line-end trap and one trap per jump, both at the label. */
  lemma TwoJumpsTraps(w: MemWord)
    ensures var p := PlanLine(TwoJumpsMemory(w), [], TwoJumpsContext(), TwoJumpsDecoder()).planting;
      |p.traps| == 3 && p.traps[1].bp.address == 0x2000 && p.traps[2].bp.address == 0x2000
  {
    var jcc := Insn(2, [GroupJump, GroupBranchRelative], 1, 0x2000);
    var r := PlanLine(TwoJumpsMemory(w), [], TwoJumpsContext(), TwoJumpsDecoder());
    PlanLineSites(TwoJumpsMemory(w), [], TwoJumpsContext(), TwoJumpsDecoder());
    assert Classify(jcc.groups) == InstType(true, false, false, true);
    assert |r.visits| == 2;
  }

  /** Two conditional jumps of one line to the same label outside it make the plan
      hold two traps at that label, and retiring them in planting order leaves INT3
      at the label. */
  lemma TwoJumpsToOneLabel(w: MemWord)
    requires w.low != TrapOpcode
    ensures var p := PlanLine(TwoJumpsMemory(w), [], TwoJumpsContext(), TwoJumpsDecoder()).planting;
      |p.traps| == 3 && p.traps[1].bp.address == 0x2000 && p.traps[2].bp.address == 0x2000 &&
      0x2000 in RetireInOrder(p.mem, p.traps) && RetireInOrder(p.mem, p.traps)[0x2000].low == TrapOpcode
  {
    var mem := TwoJumpsMemory(w);
    var p := PlanLine(mem, [], TwoJumpsContext(), TwoJumpsDecoder()).planting;
    TwoJumpsTraps(w);
    PlanLinePlantsOver(mem, [], TwoJumpsContext(), TwoJumpsDecoder());
    DuplicateTrapLeftArmed(mem, p, 1, 2);
  }
}
