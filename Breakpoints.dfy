/** Software breakpoints: a record per breakpoint, the memory effect of arming
    (the low byte of the word at the address becomes INT3, the old byte is
    saved) and of disarming (the saved byte is written back), the lookup of the
    first enabled record at an address, and the masking of trap bytes before
    instructions are decoded. */
module Breakpoints {
  import opened Wrappers
  import opened Machine

  /** `breakpoint`: the source spells the last field `ExectuedSavedOpCode`. */
  datatype Breakpoint = Breakpoint(
    address: Word,
    pid: int,
    enabled: bool,
    savedOpCode: Byte,
    executedSavedOpCode: bool)

  /** `BreakpointCreate`: a zeroed record for `address` and `pid`; memory is not read or written. */
  function BreakpointCreate(address: Word, pid: int): (bp: Breakpoint)
    ensures bp.address == address && bp.pid == pid
    ensures !bp.enabled && !bp.executedSavedOpCode && bp.savedOpCode == 0
  {
    Breakpoint(address, pid, false, 0, false)
  }

  /** Memory after `BreakpointEnable` at `a`: the low byte of the word there becomes INT3. */
  function ArmedMemory(mem: Memory, a: Word): (m: Memory)
    ensures m.Keys == mem.Keys
    ensures a in mem ==> m[a].low == TrapOpcode && m[a].upper == mem[a].upper
  {
    Poke(mem, a, Peek(mem, a).(low := TrapOpcode))
  }

  /** The record after `BreakpointEnable`: enabled, remembering the byte that was at its address. */
  function Armed(mem: Memory, bp: Breakpoint): (r: Breakpoint)
    ensures r.enabled && r.address == bp.address && r.pid == bp.pid
    ensures r.executedSavedOpCode == bp.executedSavedOpCode
    ensures r.savedOpCode == Peek(mem, bp.address).low
  {
    bp.(enabled := true, savedOpCode := Peek(mem, bp.address).low)
  }

  /** Memory after `BreakpointDisable`: the saved byte is put back under the current upper bytes. */
  function DisarmedMemory(mem: Memory, bp: Breakpoint): (m: Memory)
    ensures m.Keys == mem.Keys
    ensures bp.address in mem ==>
      m[bp.address].low == bp.savedOpCode && m[bp.address].upper == mem[bp.address].upper
  {
    Poke(mem, bp.address, Peek(mem, bp.address).(low := bp.savedOpCode))
  }

  /** Enabling and then disabling the same record restores memory exactly, at every address. */
  lemma EnableDisableRoundTrip(mem: Memory, bp: Breakpoint)
    ensures DisarmedMemory(ArmedMemory(mem, bp.address), Armed(mem, bp)) == mem
  {
    var m := DisarmedMemory(ArmedMemory(mem, bp.address), Armed(mem, bp));
    assert m.Keys == mem.Keys;
  }

  /** Disabling an armed breakpoint and enabling it again leaves memory as it was,
      and the record saves the same byte again, when the trap byte is in place. */
  lemma DisableEnableRoundTrip(mem: Memory, bp: Breakpoint)
    requires bp.address in mem ==> mem[bp.address].low == TrapOpcode
    ensures ArmedMemory(DisarmedMemory(mem, bp), bp.address) == mem
    ensures bp.address in mem ==> Armed(DisarmedMemory(mem, bp), bp).savedOpCode == bp.savedOpCode
  {
    var m := ArmedMemory(DisarmedMemory(mem, bp), bp.address);
    assert m.Keys == mem.Keys;
    if bp.address in mem {
      assert m[bp.address] == mem[bp.address];
    }
  }

  /** A second enable without a disable in between saves the trap byte itself, so
      disabling the second record leaves the trap in memory. */
  lemma DoubleEnableSavesTrap(mem: Memory, bp: Breakpoint, again: Breakpoint)
    requires again.address == bp.address && bp.address in mem
    ensures Armed(ArmedMemory(mem, bp.address), again).savedOpCode == TrapOpcode
    ensures var m := DisarmedMemory(ArmedMemory(mem, bp.address), Armed(ArmedMemory(mem, bp.address), again));
      m[bp.address].low == TrapOpcode
  {
  }

  /** `BreakpointFind`'s test: same address, same process, enabled. */
  predicate MatchesAt(bp: Breakpoint, address: int, pid: int) {
    bp.address == address && bp.pid == pid && bp.enabled
  }

  /** The first index at or after `from` whose record matches, scanning upward as `BreakpointFind` does. */
  function FirstEnabledFrom(table: seq<Breakpoint>, address: int, pid: int, from: nat): (r: Option<nat>)
    requires from <= |table|
    decreases |table| - from
    ensures r.Some? ==> from <= r.value < |table| && MatchesAt(table[r.value], address, pid)
  {
    if from == |table| then None
    else if MatchesAt(table[from], address, pid) then Some(from)
    else FirstEnabledFrom(table, address, pid, from + 1)
  }

  /** The index found is the first match at or after `from`, and nothing is found only when nothing matches. */
  lemma {:induction false} FirstEnabledFromIsFirst(table: seq<Breakpoint>, address: int, pid: int, from: nat)
    requires from <= |table|
    decreases |table| - from
    ensures var r := FirstEnabledFrom(table, address, pid, from);
      && (r.Some? ==> forall j :: from <= j < r.value ==> !MatchesAt(table[j], address, pid))
      && (r.None? <==> forall j :: from <= j < |table| ==> !MatchesAt(table[j], address, pid))
  {
    if from < |table| {
      if !MatchesAt(table[from], address, pid) {
        FirstEnabledFromIsFirst(table, address, pid, from + 1);
      }
    }
  }

  /** The index of the first enabled record at `address` for `pid`, if any. */
  function FirstEnabledAt(table: seq<Breakpoint>, address: int, pid: int): (r: Option<nat>)
    ensures r.Some? ==> r.value < |table| && MatchesAt(table[r.value], address, pid)
  {
    FirstEnabledFrom(table, address, pid, 0)
  }

  /** The record `BreakpointFind` points to, or null. */
  function FoundRecord(table: seq<Breakpoint>, address: int, pid: int): Option<Breakpoint> {
    match FirstEnabledAt(table, address, pid)
    case None => None
    case Some(i) => Some(table[i])
  }

  /** `BreakpointEnabled`: a non-null record that is enabled. */
  predicate BreakpointEnabled(bp: Option<Breakpoint>) {
    bp.Some? && bp.value.enabled
  }

  /** `BreakpointEnabled` applied to the result of the lookup: it holds exactly when
      an enabled record matches, and the lookup never yields a disabled record. */
  lemma {:induction false} FoundIsEnabled(table: seq<Breakpoint>, address: int, pid: int)
    ensures BreakpointEnabled(FoundRecord(table, address, pid)) <==>
      exists j :: 0 <= j < |table| && MatchesAt(table[j], address, pid)
    ensures FirstEnabledAt(table, address, pid).Some? <==>
      exists j :: 0 <= j < |table| && MatchesAt(table[j], address, pid)
    ensures FirstEnabledAt(table, address, pid).Some? ==>
      var bp := table[FirstEnabledAt(table, address, pid).value];
      bp.enabled && bp.address == address && bp.pid == pid
  {
    var r := FirstEnabledAt(table, address, pid);
    FirstEnabledFromIsFirst(table, address, pid, 0);
    if r.Some? {
      assert MatchesAt(table[r.value], address, pid);
    }
  }

  /** The word the decoder is given at `address`: when an enabled breakpoint sits
      there, the trap byte is replaced by the byte it saved. */
  function MaskedWord(mem: Memory, table: seq<Breakpoint>, address: int, pid: int): (w: MemWord)
    ensures FirstEnabledAt(table, address, pid).None? ==> w == Peek(mem, address)
    ensures FirstEnabledAt(table, address, pid).Some? ==>
      w.low == table[FirstEnabledAt(table, address, pid).value].savedOpCode &&
      w.upper == Peek(mem, address).upper
  {
    match FirstEnabledAt(table, address, pid)
    case None => Peek(mem, address)
    case Some(i) => Peek(mem, address).(low := table[i].savedOpCode)
  }

  /** Masking undoes arming: after a breakpoint is enabled and recorded, the decoder sees the original word. */
  lemma {:induction false} MaskUndoesArm(mem: Memory, table: seq<Breakpoint>, bp: Breakpoint)
    requires forall j :: 0 <= j < |table| ==> !MatchesAt(table[j], bp.address, bp.pid)
    ensures MaskedWord(ArmedMemory(mem, bp.address), table + [Armed(mem, bp)], bp.address, bp.pid)
         == Peek(mem, bp.address)
  {
    var t := table + [Armed(mem, bp)];
    var r := FirstEnabledAt(t, bp.address, bp.pid);
    FirstEnabledFromIsFirst(t, bp.address, bp.pid, 0);
    assert MatchesAt(t[|table|], bp.address, bp.pid);
    assert r == Some(|table|);
  }
}
