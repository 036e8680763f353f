/** The debug-information model and its queries: compile units, functions, the
    line table and frame description entries are tables loaded once (their
    loading through libdwarf is not part of this model); the queries are the
    linear scans the debugger runs over them. */
module Symbols {
  import opened Wrappers
  import opened Machine
  import opened CStrings

  datatype CompileUnit = CompileUnit(name: CString, lowPC: Word, highPC: Word, hasRanges: bool)

  /** A local variable: a frame-base-relative offset when `usesFrameBase`, otherwise unresolved. */
  datatype Variable = Variable(name: CString, typeOffset: Word, usesFrameBase: bool, offset: int)

  datatype Function = Function(
    name: CString, lowPC: Word, highPC: Word, frameBaseIsCFA: bool, variables: seq<Variable>)

  /** A row of the line table: address, 1-based line number, index into the source-file table. */
  datatype LineEntry = LineEntry(address: Word, lineNum: nat, srcFileIndex: nat)

  datatype AddressRange = AddressRange(start: Word, end: Word)

  /** A frame description entry: the code it covers starts at `lowPC` and is `length` bytes long. */
  datatype Fde = Fde(lowPC: Word, length: Word)

  /** The CFA rule libdwarf reports for a pc inside an FDE: `offsetRelevant` is set
      when the rule is "register plus offset". */
  datatype CfaRule = CfaRule(offsetRelevant: bool, offset: int, regnum: nat)

  // ---------------------------------------------------------------------
  // DWARF register numbers (System V AMD64 psABI, section 3.6.2, "DWARF Register Number Mapping")

  datatype Gpr = Rax | Rdx | Rcx | Rbx | Rsi | Rdi | Rbp | Rsp
               | R8 | R9 | R10 | R11 | R12 | R13 | R14 | R15

  /** The psABI's number for each general-purpose register. */
  function DwarfNumber(g: Gpr): nat {
    match g
    case Rax => 0 case Rdx => 1 case Rcx => 2 case Rbx => 3
    case Rsi => 4 case Rdi => 5 case Rbp => 6 case Rsp => 7
    case R8 => 8 case R9 => 9 case R10 => 10 case R11 => 11
    case R12 => 12 case R13 => 13 case R14 => 14 case R15 => 15
  }

  function RegisterValue(regs: Registers, g: Gpr): Word {
    match g
    case Rax => regs.rax case Rdx => regs.rdx case Rcx => regs.rcx case Rbx => regs.rbx
    case Rsi => regs.rsi case Rdi => regs.rdi case Rbp => regs.rbp case Rsp => regs.rsp
    case R8 => regs.r8 case R9 => regs.r9 case R10 => regs.r10 case R11 => regs.r11
    case R12 => regs.r12 case R13 => regs.r13 case R14 => regs.r14 case R15 => regs.r15
  }

  /** `GetRegisterByABINumber`: defined on 0..15 only; any other number is an assertion failure. */
  function GetRegisterByABINumber(regs: Registers, n: nat): (r: Option<Word>)
    ensures r.None? <==> n >= 16
  {
    if n == 0 then Some(regs.rax) else if n == 1 then Some(regs.rdx)
    else if n == 2 then Some(regs.rcx) else if n == 3 then Some(regs.rbx)
    else if n == 4 then Some(regs.rsi) else if n == 5 then Some(regs.rdi)
    else if n == 6 then Some(regs.rbp) else if n == 7 then Some(regs.rsp)
    else if n == 8 then Some(regs.r8) else if n == 9 then Some(regs.r9)
    else if n == 10 then Some(regs.r10) else if n == 11 then Some(regs.r11)
    else if n == 12 then Some(regs.r12) else if n == 13 then Some(regs.r13)
    else if n == 14 then Some(regs.r14) else if n == 15 then Some(regs.r15)
    else None
  }

  /** The lookup follows the psABI numbering exactly: every register is found under
      its own number, distinct registers have distinct numbers, and every number the
      lookup accepts is some register's number. */
  lemma RegisterLookupFollowsABI(regs: Registers)
    ensures forall g :: GetRegisterByABINumber(regs, DwarfNumber(g)) == Some(RegisterValue(regs, g))
    ensures forall g, h :: DwarfNumber(g) == DwarfNumber(h) ==> g == h
    ensures forall n: nat :: GetRegisterByABINumber(regs, n).Some? ==>
      exists g :: DwarfNumber(g) == n && GetRegisterByABINumber(regs, n) == Some(RegisterValue(regs, g))
  {
    var gs := [Rax, Rdx, Rcx, Rbx, Rsi, Rdi, Rbp, Rsp, R8, R9, R10, R11, R12, R13, R14, R15];
    forall n: nat | GetRegisterByABINumber(regs, n).Some?
      ensures exists g :: DwarfNumber(g) == n && GetRegisterByABINumber(regs, n) == Some(RegisterValue(regs, g))
    {
      assert DwarfNumber(gs[n]) == n;
    }
  }

  // ---------------------------------------------------------------------
  // Line table

  predicate SortedByAddress(t: seq<LineEntry>) {
    forall i, j :: 0 <= i < j < |t| ==> t[i].address <= t[j].address
  }

  /** Entry `i` covers `a`: an exact hit, or `a` lies strictly between it and the next entry. */
  predicate Covers(t: seq<LineEntry>, i: nat, a: int)
    requires i < |t|
  {
    t[i].address == a || (i + 1 < |t| && t[i].address < a < t[i + 1].address)
  }

  function FindByAddressFrom(t: seq<LineEntry>, a: int, from: nat): (r: Option<nat>)
    requires from <= |t|
    decreases |t| - from
    ensures r.Some? ==> from <= r.value < |t| && Covers(t, r.value, a)
    ensures r.Some? ==> forall j :: from <= j < r.value ==> !Covers(t, j, a)
    ensures r.None? ==> forall j :: from <= j < |t| ==> !Covers(t, j, a)
  {
    if from == |t| then None
    else if t[from].address == a then Some(from)
    else if from + 1 < |t| && t[from].address < a < t[from + 1].address then Some(from)
    else FindByAddressFrom(t, a, from + 1)
  }

  /** `LineTableFindByAddress`: the first covering entry, or null. */
  function LineTableFindByAddress(t: seq<LineEntry>, a: int): (r: Option<nat>)
    ensures r.Some? ==> r.value < |t| && Covers(t, r.value, a)
    ensures r.Some? ==> forall j :: 0 <= j < r.value ==> !Covers(t, j, a)
    ensures r.None? <==> forall j :: 0 <= j < |t| ==> !Covers(t, j, a)
  {
    FindByAddressFrom(t, a, 0)
  }

  /** In a table sorted by address, every address from an entry's own address up to
      (not including) the next entry's address finds that entry, provided it is the
      first entry at its address. */
  lemma FindByAddressWithinEntry(t: seq<LineEntry>, i: nat, a: int)
    requires SortedByAddress(t) && i + 1 < |t|
    requires i == 0 || t[i - 1].address < t[i].address
    requires t[i].address <= a < t[i + 1].address
    ensures LineTableFindByAddress(t, a) == Some(i)
  {
    forall j | 0 <= j < i ensures !Covers(t, j, a) {
      assert t[j].address <= t[i - 1].address;
      assert t[j + 1].address <= t[i].address;
    }
    assert Covers(t, i, a);
  }

  /** In a sorted table, an address above the last entry (or below the first) finds nothing. */
  lemma FindByAddressOutside(t: seq<LineEntry>, a: int)
    requires SortedByAddress(t) && |t| > 0
    requires a > t[|t| - 1].address || a < t[0].address
    ensures LineTableFindByAddress(t, a).None?
  {
    forall j | 0 <= j < |t| ensures !Covers(t, j, a) {
      assert t[0].address <= t[j].address <= t[|t| - 1].address;
      if j + 1 < |t| {
        assert t[j + 1].address <= t[|t| - 1].address;
      }
    }
  }

  function FindByLineNumFrom(t: seq<LineEntry>, line: nat, from: nat): (r: Option<nat>)
    requires from <= |t|
    decreases |t| - from
    ensures r.Some? ==> from <= r.value < |t| && t[r.value].lineNum == line
    ensures r.Some? ==> forall j :: from <= j < r.value ==> t[j].lineNum != line
    ensures r.None? ==> forall j :: from <= j < |t| ==> t[j].lineNum != line
  {
    if from == |t| then None
    else if t[from].lineNum == line then Some(from)
    else FindByLineNumFrom(t, line, from + 1)
  }

  /** `LineTableFindByLineNum`: the first entry for a line number, or null. */
  function LineTableFindByLineNum(t: seq<LineEntry>, line: nat): (r: Option<nat>)
    ensures r.Some? ==> r.value < |t| && t[r.value].lineNum == line
    ensures r.Some? ==> forall j :: 0 <= j < r.value ==> t[j].lineNum != line
    ensures r.None? <==> forall j :: 0 <= j < |t| ==> t[j].lineNum != line
  {
    FindByLineNumFrom(t, line, 0)
  }

  /** `LineAddressRangeBetween`: from one entry's address to another's. */
  function LineAddressRangeBetween(startLine: LineEntry, endLine: LineEntry): AddressRange {
    AddressRange(startLine.address, endLine.address)
  }

  // ---------------------------------------------------------------------
  // Functions

  function FindFunctionFrom(fs: seq<Function>, a: int, from: nat): (r: Option<nat>)
    requires from <= |fs|
    decreases |fs| - from
    ensures r.Some? ==> from <= r.value < |fs| && AddressBetween(a, fs[r.value].lowPC, fs[r.value].highPC)
    ensures r.Some? ==> forall j :: from <= j < r.value ==> !AddressBetween(a, fs[j].lowPC, fs[j].highPC)
    ensures r.None? ==> forall j :: from <= j < |fs| ==> !AddressBetween(a, fs[j].lowPC, fs[j].highPC)
  {
    if from == |fs| then None
    else if AddressBetween(a, fs[from].lowPC, fs[from].highPC) then Some(from)
    else FindFunctionFrom(fs, a, from + 1)
  }

  /** `FindFunctionConfiningAddress`: the first function whose closed interval
      `[LowPC, HighPC]` holds the address, or null. */
  function FindFunctionConfiningAddress(fs: seq<Function>, a: int): (r: Option<nat>)
    ensures r.Some? ==> r.value < |fs| && fs[r.value].lowPC <= a <= fs[r.value].highPC
    ensures r.Some? ==> forall j :: 0 <= j < r.value ==> !AddressBetween(a, fs[j].lowPC, fs[j].highPC)
    ensures r.None? <==> forall j :: 0 <= j < |fs| ==> !(fs[j].lowPC <= a <= fs[j].highPC)
  {
    FindFunctionFrom(fs, a, 0)
  }

  function FindNamedFrom(fs: seq<Function>, name: CString, from: nat): (r: Option<nat>)
    requires from <= |fs|
    decreases |fs| - from
    ensures r.Some? ==> from <= r.value < |fs| && StringsMatch(fs[r.value].name, name)
    ensures r.Some? ==> forall j :: from <= j < r.value ==> !StringsMatch(fs[j].name, name)
    ensures r.None? ==> forall j :: from <= j < |fs| ==> !StringsMatch(fs[j].name, name)
  {
    if from == |fs| then None
    else if StringsMatch(fs[from].name, name) then Some(from)
    else FindNamedFrom(fs, name, from + 1)
  }

  /** `FindEntryPointAddress`: the low pc of the first function whose name
      `StringsMatch`es "main", or 0 when there is none. */
  function FindEntryPointAddress(fs: seq<Function>): (r: Word)
    ensures (exists j :: 0 <= j < |fs| && StringsMatch(fs[j].name, "main")) ==>
      exists j :: 0 <= j < |fs| && StringsMatch(fs[j].name, "main") && r == fs[j].lowPC &&
        forall k :: 0 <= k < j ==> !StringsMatch(fs[k].name, "main")
    ensures (forall j :: 0 <= j < |fs| ==> !StringsMatch(fs[j].name, "main")) ==> r == 0
  {
    match FindNamedFrom(fs, "main", 0)
    case Some(i) => fs[i].lowPC
    case None => 0
  }

  /** Because `StringsMatch` is a prefix test, a function named "mainloop" declared
      before `main`, or a function with no name at all, is taken for the entry point. */
  lemma EntryPointPrefixMatch(other: CString, low: Word, mainLow: Word)
    requires other == "mainloop" || other == ""
    ensures FindEntryPointAddress([Function(other, low, low, false, []), Function("main", mainLow, mainLow, false, [])]) == low
  {
    assert StringsMatch(other, "main") by {
      StringsMatchIsPrefixRelation(other, "main");
      assert IsPrefix("main", "mainloop") by { assert "mainloop"[..4] == "main"; }
    }
  }

  function FindExactFrom(fs: seq<Function>, name: CString, from: nat): (r: Option<nat>)
    requires from <= |fs|
    decreases |fs| - from
    ensures r.Some? ==> from <= r.value < |fs| && fs[r.value].name == name
    ensures r.Some? ==> forall j :: from <= j < r.value ==> fs[j].name != name
    ensures r.None? ==> forall j :: from <= j < |fs| ==> fs[j].name != name
  {
    if from == |fs| then None
    else if fs[from].name == name then Some(from)
    else FindExactFrom(fs, name, from + 1)
  }

  /** The entry-point lookup with an exact name comparison: it yields the low pc of
      the first function named exactly "main", and functions with other names,
      prefixes of "main" or extensions of it, never affect the result. */
  function FindEntryPointExact(fs: seq<Function>): (r: Word)
    ensures (exists j :: 0 <= j < |fs| && fs[j].name == "main") ==>
      exists j :: 0 <= j < |fs| && fs[j].name == "main" && r == fs[j].lowPC &&
        forall k :: 0 <= k < j ==> fs[k].name != "main"
    ensures (forall j :: 0 <= j < |fs| ==> fs[j].name != "main") ==> r == 0
  {
    match FindExactFrom(fs, "main", 0)
    case Some(i) => fs[i].lowPC
    case None => 0
  }

  /** Prepending functions that are not named exactly "main" does not move the entry point. */
  lemma {:induction false} EntryPointExactIgnoresOthers(others: seq<Function>, fs: seq<Function>)
    requires forall j :: 0 <= j < |others| ==> others[j].name != "main"
    ensures FindEntryPointExact(others + fs) == FindEntryPointExact(fs)
  {
    var all := others + fs;
    forall k | 0 <= k < |others| ensures all[k].name != "main" {
      assert all[k] == others[k];
    }
    forall k | 0 <= k < |fs| ensures all[|others| + k] == fs[k] {
    }
    FindExactShift(others, fs, 0);
  }

  lemma {:induction false} FindExactShift(others: seq<Function>, fs: seq<Function>, from: nat)
    requires from <= |fs|
    requires forall j :: 0 <= j < |others| ==> others[j].name != "main"
    ensures FindExactFrom(others + fs, "main", |others| + from) ==
      (match FindExactFrom(fs, "main", from) case None => None case Some(k) => Some(|others| + k))
    ensures FindExactFrom(others + fs, "main", 0) == FindExactFrom(others + fs, "main", |others|)
    decreases |fs| - from
  {
    var all := others + fs;
    if from < |fs| {
      assert all[|others| + from] == fs[from];
      FindExactShift(others, fs, from + 1);
    }
    SkipOthers(others, fs, 0);
  }

  lemma {:induction false} SkipOthers(others: seq<Function>, fs: seq<Function>, from: nat)
    requires from <= |others|
    requires forall j :: 0 <= j < |others| ==> others[j].name != "main"
    ensures FindExactFrom(others + fs, "main", from) == FindExactFrom(others + fs, "main", |others|)
    decreases |others| - from
  {
    if from < |others| {
      assert (others + fs)[from] == others[from];
      SkipOthers(others, fs, from + 1);
    }
  }

  // ---------------------------------------------------------------------
  // The current line's address range

  /** The first index at or after `from` with address `a`. */
  function FirstAtAddress(t: seq<LineEntry>, a: int, from: nat): (r: nat)
    requires from <= |t| && exists k :: from <= k < |t| && t[k].address == a
    decreases |t| - from
    ensures from <= r < |t| && t[r].address == a
    ensures forall j :: from <= j < r ==> t[j].address != a
  {
    if t[from].address == a then from else FirstAtAddress(t, a, from + 1)
  }

  /** The first index `j`, at or after `from` and before the last index, whose line
      number differs from `line`; the last entry of the table is never examined. */
  function NextLineFrom(t: seq<LineEntry>, line: nat, from: nat): (r: Option<nat>)
    requires from < |t|
    decreases |t| - from
    ensures r.Some? ==> from <= r.value < |t| - 1 && t[r.value].lineNum != line
    ensures r.Some? ==> forall j :: from <= j < r.value ==> t[j].lineNum == line
    ensures r.None? ==> forall j :: from <= j < |t| - 1 ==> t[j].lineNum == line
  {
    if from == |t| - 1 then None
    else if t[from].lineNum != line then Some(from)
    else NextLineFrom(t, line, from + 1)
  }

  datatype RangeFault = NoLineAtPc | NoFunctionAtPc

  /** The address range of the source line holding `pc`: it starts at the covering
      entry's address; it ends at the address of the first later entry with another
      line number, scanning from the first entry at the start address and stopping
      before the last entry, or else at the high pc of the function holding the start.
      An empty table gives the zeroed range, as the scan never runs. In a table
      with entries, a pc with no covering entry, or a start inside no function, is
      a fault (the source dereferences a null pointer there). */
  function CurrentLineRange(t: seq<LineEntry>, fs: seq<Function>, pc: Word): (r: Result<AddressRange, RangeFault>)
    ensures |t| == 0 ==> r == Success(AddressRange(0, 0))
    ensures |t| > 0 && LineTableFindByAddress(t, pc).None? ==> r == Failure(NoLineAtPc)
    ensures LineTableFindByAddress(t, pc).Some? ==>
      var c := LineTableFindByAddress(t, pc).value;
      var i0 := FirstAtAddress(t, t[c].address, 0);
      match NextLineFrom(t, t[c].lineNum, i0)
      case Some(j) => r == Success(AddressRange(t[c].address, t[j].address))
      case None =>
        match FindFunctionConfiningAddress(fs, t[c].address)
        case None => r == Failure(NoFunctionAtPc)
        case Some(f) => r == Success(AddressRange(t[c].address, fs[f].highPC))
  {
    if |t| == 0 then Success(AddressRange(0, 0))
    else match LineTableFindByAddress(t, pc)
    case None => Failure(NoLineAtPc)
    case Some(c) =>
      var current := t[c];
      var i0 := FirstAtAddress(t, current.address, 0);
      match NextLineFrom(t, current.lineNum, i0)
      case Some(j) => Success(LineAddressRangeBetween(current, t[j]))
      case None =>
        match FindFunctionConfiningAddress(fs, current.address)
        case None => Failure(NoFunctionAtPc)
        case Some(f) => Success(AddressRange(current.address, fs[f].highPC))
  }

  /** In a sorted table the range is never inverted: its start is the covering
      entry's address and its end is no smaller. */
  lemma {:induction false} CurrentLineRangeOrdered(t: seq<LineEntry>, fs: seq<Function>, pc: Word)
    requires SortedByAddress(t)
    ensures CurrentLineRange(t, fs, pc).Success? ==> CurrentLineRange(t, fs, pc).value.start <= CurrentLineRange(t, fs, pc).value.end
    ensures CurrentLineRange(t, fs, pc).Success? && |t| > 0 ==>
      CurrentLineRange(t, fs, pc).value.start == t[LineTableFindByAddress(t, pc).value].address
  {
    var r := CurrentLineRange(t, fs, pc);
    if r.Success? && |t| > 0 {
      var c := LineTableFindByAddress(t, pc).value;
      var i0 := FirstAtAddress(t, t[c].address, 0);
      match NextLineFrom(t, t[c].lineNum, i0)
      case Some(j) =>
        assert t[i0].address <= t[j].address;
      case None =>
    }
  }

  /** `AddressRangeCurrentAndNextLine`, the two nested scans of the source. */
  method AddressRangeCurrentAndNextLine(t: seq<LineEntry>, fs: seq<Function>, pc: Word)
    returns (r: Result<AddressRange, RangeFault>)
    ensures r == CurrentLineRange(t, fs, pc)
  {
    if |t| == 0 {
      return Success(AddressRange(0, 0));
    }
    var found := LineTableFindByAddress(t, pc);
    if found.None? {
      return Failure(NoLineAtPc);
    }
    var current := t[found.value];
    var i := 0;
    while t[i].address != current.address
      invariant 0 <= i <= found.value
      invariant forall j :: 0 <= j < i ==> t[j].address != current.address
      decreases found.value - i
    {
      i := i + 1;
    }
    assert i == FirstAtAddress(t, current.address, 0);
    ghost var i0 := i;
    while true
      invariant i0 <= i < |t|
      invariant NextLineFrom(t, current.lineNum, i0) == NextLineFrom(t, current.lineNum, i)
      decreases |t| - i
    {
      if |t| == i + 1 {
        var f := FindFunctionConfiningAddress(fs, current.address);
        if f.None? {
          return Failure(NoFunctionAtPc);
        }
        return Success(AddressRange(current.address, fs[f.value].highPC));
      } else if t[i].lineNum != current.lineNum {
        return Success(LineAddressRangeBetween(current, t[i]));
      }
      i := i + 1;
    }
  }

  // ---------------------------------------------------------------------
  // Canonical frame address

  /** The last byte an FDE covers, computed in `u64` as `LowPC + Length - 1`. */
  function FdeLastByte(fde: Fde): Word {
    Wrap(fde.lowPC + fde.length - 1)
  }

  function FirstFdeFrom(fdes: seq<Fde>, pc: Word, from: nat): (r: Option<nat>)
    requires from <= |fdes|
    decreases |fdes| - from
    ensures r.Some? ==> from <= r.value < |fdes| && AddressBetween(pc, fdes[r.value].lowPC, FdeLastByte(fdes[r.value]))
    ensures r.Some? ==> forall j :: from <= j < r.value ==> !AddressBetween(pc, fdes[j].lowPC, FdeLastByte(fdes[j]))
    ensures r.None? ==> forall j :: from <= j < |fdes| ==> !AddressBetween(pc, fdes[j].lowPC, FdeLastByte(fdes[j]))
  {
    if from == |fdes| then None
    else if AddressBetween(pc, fdes[from].lowPC, FdeLastByte(fdes[from])) then Some(from)
    else FirstFdeFrom(fdes, pc, from + 1)
  }

  datatype CfaFault = NoFdeForPc | CfaRuleNotRegisterOffset | UnknownRegister(regnum: nat)

  /** `DWARFGetCFA`: the first FDE covering `pc` supplies a rule (`ruleAt` stands for
      libdwarf's row query); the CFA is the rule's register plus its signed offset,
      added in `u64`. */
  function DWARFGetCFA(fdes: seq<Fde>, ruleAt: (Fde, Word) -> CfaRule, regs: Registers, pc: Word)
    : (r: Result<Word, CfaFault>)
    ensures r == Failure(NoFdeForPc) <==>
      forall j :: 0 <= j < |fdes| ==> !AddressBetween(pc, fdes[j].lowPC, FdeLastByte(fdes[j]))
  {
    match FirstFdeFrom(fdes, pc, 0)
    case None => Failure(NoFdeForPc)
    case Some(i) =>
      var rule := ruleAt(fdes[i], pc);
      if !rule.offsetRelevant then Failure(CfaRuleNotRegisterOffset)
      else
        match GetRegisterByABINumber(regs, rule.regnum)
        case None => Failure(UnknownRegister(rule.regnum))
        case Some(v) => Success(Wrap(v + rule.offset))
  }

  /** Once the first FDE covering `pc` is known, its rule alone decides the CFA: a
      rule that is not "register plus offset" and a register number outside the
      psABI's sixteen general-purpose registers are faults, and otherwise the CFA is
      that register's value plus the offset, modulo 2^64. */
  lemma CfaFromFirstCoveringFde(fdes: seq<Fde>, ruleAt: (Fde, Word) -> CfaRule, regs: Registers, pc: Word, i: nat)
    requires i < |fdes| && AddressBetween(pc, fdes[i].lowPC, FdeLastByte(fdes[i]))
    requires forall j :: 0 <= j < i ==> !AddressBetween(pc, fdes[j].lowPC, FdeLastByte(fdes[j]))
    ensures !ruleAt(fdes[i], pc).offsetRelevant ==>
      DWARFGetCFA(fdes, ruleAt, regs, pc) == Failure(CfaRuleNotRegisterOffset)
    ensures ruleAt(fdes[i], pc).offsetRelevant && ruleAt(fdes[i], pc).regnum >= 16 ==>
      DWARFGetCFA(fdes, ruleAt, regs, pc) == Failure(UnknownRegister(ruleAt(fdes[i], pc).regnum))
    ensures forall g :: ruleAt(fdes[i], pc).offsetRelevant && DwarfNumber(g) == ruleAt(fdes[i], pc).regnum ==>
      DWARFGetCFA(fdes, ruleAt, regs, pc) == Success(Wrap(RegisterValue(regs, g) + ruleAt(fdes[i], pc).offset))
  {
    assert FirstFdeFrom(fdes, pc, 0) == Some(i);
    RegisterLookupFollowsABI(regs);
  }

  /** The `DW_AT_high_pc` rule of DWARF 4, section 2.17.2: a value of constant class
      is an offset from the low pc, a value of address class is the address itself. */
  function HighPcValue(lowPC: Word, value: Word, constantClass: bool): (h: Word)
    ensures constantClass && lowPC + value < WordModulus ==> h - lowPC == value
    ensures !constantClass ==> h == value
  {
    if constantClass then Wrap(lowPC + value) else value
  }
}
