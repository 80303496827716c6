/**
 * ADS131M08 command words of libraries/ads131m08/src/command.rs.
 *
 * A register command is laid out as `0bccca_aaaa_annn_nnnn`: a three-bit
 * opcode, a seven-bit register address and six bits holding the register
 * count minus one.
 */
module AdsCommand {
  import opened Common

  /** No operation. */
  const NULL: u16 := 0x0000
  /** Reset the device. */
  const RESET: u16 := 0x0011
  /** Enter standby. */
  const STANDBY: u16 := 0x0022
  /** Leave standby for conversion mode. */
  const WAKEUP: u16 := 0x0033
  /** Lock the interface. */
  const LOCK: u16 := 0x0555
  /** Unlock the interface. */
  const UNLOCK: u16 := 0x0666
  /** Read registers. */
  const RREG: u16 := 0xA000
  /** Write registers. */
  const WREG: u16 := 0x6000

  /** Width of the address field (ADDR_BITS). */
  const AddrBits: nat := 7
  /** Width of the count field (N_BITS). */
  const NBits: nat := 6

  /** Bits 15 to 13 of a command word. */
  function Opcode(w: u16): u16 {
    w >> 13
  }

  /** Bits 12 to 6 of a command word. */
  function AddrField(w: u16): u16 {
    (w >> NBits) & 0x7F
  }

  /** Bits 5 to 0 of a command word. */
  function CountField(w: u16): u16 {
    w & 0x3F
  }

  /**
   * xreg: packs an opcode, an address below 2^7 and a count of 1 to 2^6
   * registers; the debug assertions of the source are the preconditions
   * (a count of 0 would underflow `n - 1`).
   */
  function Xreg(cmd: u16, addr: u16, n: u16): (r: u16)
    requires addr < 1 << AddrBits
    requires 1 <= n && n - 1 < 1 << NBits
    ensures cmd & 0x1FFF == 0 ==>
      Opcode(r) == Opcode(cmd) && AddrField(r) == addr && CountField(r) + 1 == n
  {
    cmd | (addr << NBits) | (n - 1)
  }

  /** rreg: read `n` registers from `addr`. */
  function Rreg(addr: byte, n: byte): (r: u16)
    requires addr < 0x80 && 1 <= n <= 0x40
    ensures Opcode(r) == 0x5
    ensures AddrField(r) == addr as u16 && CountField(r) + 1 == n as u16
  {
    Xreg(RREG, addr as u16, n as u16)
  }

  /** wreg: write `n` registers from `addr`. */
  function Wreg(addr: byte, n: byte): (r: u16)
    requires addr < 0x80 && 1 <= n <= 0x40
    ensures Opcode(r) == 0x3
    ensures AddrField(r) == addr as u16 && CountField(r) + 1 == n as u16
  {
    Xreg(WREG, addr as u16, n as u16)
  }

  /** The address and count fields together stay below the opcode bits, so packing loses nothing. */
  lemma FieldsBelowOpcode(addr: u16, n: u16)
    requires addr < 1 << AddrBits
    requires 1 <= n && n - 1 < 1 << NBits
    ensures (addr << NBits) | (n - 1) < 0x2000
  {
  }

  /** A command word is determined by its three fields. */
  lemma FieldsDetermine(w: u16)
    ensures w == (Opcode(w) << 13) | (AddrField(w) << NBits) | CountField(w)
  {
  }

  /** Widening a byte to 16 bits keeps it apart from every other byte. */
  lemma WidenInjective(a: byte, b: byte)
    ensures a as u16 == b as u16 ==> a == b
  {
  }

  /** rreg is injective in its address and count. */
  lemma RregInjective(a: byte, n: byte, a': byte, n': byte)
    requires a < 0x80 && 1 <= n <= 0x40 && a' < 0x80 && 1 <= n' <= 0x40
    requires Rreg(a, n) == Rreg(a', n')
    ensures a == a' && n == n'
  {
    WidenInjective(a, a');
    WidenInjective(n, n');
  }

  /** wreg is injective in its address and count. */
  lemma WregInjective(a: byte, n: byte, a': byte, n': byte)
    requires a < 0x80 && 1 <= n <= 0x40 && a' < 0x80 && 1 <= n' <= 0x40
    requires Wreg(a, n) == Wreg(a', n')
    ensures a == a' && n == n'
  {
    WidenInjective(a, a');
    WidenInjective(n, n');
  }

  /** No read command equals a write command: their opcodes differ. */
  lemma ReadWriteDisjoint(a: byte, n: byte, a': byte, n': byte)
    requires a < 0x80 && 1 <= n <= 0x40 && a' < 0x80 && 1 <= n' <= 0x40
    ensures Rreg(a, n) != Wreg(a', n')
  {
  }

  /** The fixed commands are distinct and none of them carries the RREG or WREG opcode. */
  lemma FixedCommandsDistinct()
    ensures |{NULL, RESET, STANDBY, WAKEUP, LOCK, UNLOCK}| == 6
    ensures forall c :: c in {NULL, RESET, STANDBY, WAKEUP, LOCK, UNLOCK} ==>
      Opcode(c) != Opcode(RREG) && Opcode(c) != Opcode(WREG)
  {
  }
}
