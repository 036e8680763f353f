/** The debuggee as the debugger sees it through the tracing interface:
    64-bit words of memory addressed by integers, and the register file
    (`user_regs_struct` on x86-64 Linux). */
module Machine {

  const WordModulus: int := 0x1_0000_0000_0000_0000

  /** An unsigned 64-bit machine word (`u64`, `size_t`). */
  type Word = x: int | 0 <= x < WordModulus

  type Byte = x: int | 0 <= x < 256

  /** The one-byte x86 breakpoint instruction `INT3`. */
  const TrapOpcode: Byte := 0xCC

  /** Reduction modulo 2^64: unsigned arithmetic that wraps around. */
  function Wrap(x: int): (w: Word)
    ensures 0 <= x < WordModulus ==> w == x
  {
    x % WordModulus
  }

  /** The seven bytes of a word above its lowest-addressed byte, read as one number. */
  type Upper = x: int | 0 <= x < 0x100_0000_0000_0000

  /** A word of debuggee memory, split into the byte at its own address (x86 is
      little-endian, so that is `w & 0xff`) and the seven bytes after it. Replacing
      the low byte, `(w & ~0xff) | b`, is `m.(low := b)`. */
  datatype MemWord = MemWord(low: Byte, upper: Upper)

  /** The `u64` a memory word holds. */
  function ValueOf(m: MemWord): (w: Word)
    ensures w % 256 == m.low && w / 256 == m.upper
  {
    m.upper * 256 + m.low
  }

  /** The memory word holding a `u64`. */
  function WordOf(w: Word): (m: MemWord)
    ensures ValueOf(m) == w
  {
    MemWord(w % 256, w / 256)
  }

  /** The split is a bijection between memory words and `u64` values. */
  lemma WordOfValue(m: MemWord)
    ensures WordOf(ValueOf(m)) == m
  {
  }

  /** Debuggee memory: the word stored at each mapped address. */
  type Memory = map<int, MemWord>

  /** What `PTRACE_PEEKDATA` returns for an address that is not mapped (-1, all bits set). */
  const PeekFailed: MemWord := MemWord(0xFF, 0xFF_FFFF_FFFF_FFFF)

  lemma PeekFailedIsAllOnes()
    ensures ValueOf(PeekFailed) == WordModulus - 1
  {
  }

  /** `PTRACE_PEEKDATA`: the word at `a`, or all ones when `a` is unmapped. */
  function Peek(m: Memory, a: int): (w: MemWord)
    ensures a in m ==> w == m[a]
    ensures a !in m ==> w == PeekFailed
  {
    if a in m then m[a] else PeekFailed
  }

  /** `PTRACE_POKEDATA`: writes `w` at `a`; a write to an unmapped address fails and changes nothing. */
  function Poke(m: Memory, a: int, w: MemWord): (m': Memory)
    ensures m'.Keys == m.Keys
    ensures a in m ==> m'[a] == w
  {
    if a in m then m[a := w] else m
  }

  /** `AddressBetween`: the closed interval test `Lower <= Address <= Upper`. */
  predicate AddressBetween(address: int, lower: int, upper: int) {
    lower <= address <= upper
  }

  /** The general-purpose, flags and segment registers, in the field order of `user_regs_struct`. */
  datatype Registers = Registers(
    r15: Word, r14: Word, r13: Word, r12: Word, rbp: Word, rbx: Word, r11: Word, r10: Word,
    r9: Word, r8: Word, rax: Word, rcx: Word, rdx: Word, rsi: Word, rdi: Word, orig_rax: Word,
    rip: Word, cs: Word, eflags: Word, rsp: Word, ss: Word, fs_base: Word, gs_base: Word,
    ds: Word, es: Word, fs: Word, gs: Word)
}
