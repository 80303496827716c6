/**
 * ADS131M08 register map arithmetic of libraries/ads131m08/src/register.rs:
 * the global register addresses, the per-channel register blocks and the
 * lock bit of the STATUS register.
 */
module AdsRegister {
  import opened Common

  const ID: byte := 0x00
  const STATUS: byte := 0x01
  const MODE: byte := 0x02
  const CLOCK: byte := 0x03
  const GAIN1: byte := 0x04
  const GAIN2: byte := 0x05
  const CFG: byte := 0x06
  const THRESHOLD_MSB: byte := 0x07
  const THRESHOLD_LSB: byte := 0x08

  /** First channel register, and the size of each channel's block. */
  const ChBase: byte := 0x09
  const ChStride: byte := 0x05

  const ChCfgOffset: byte := 0x00
  const ChOcalMsbOffset: byte := 0x01
  const ChOcalLsbOffset: byte := 0x02
  const ChGcalMsbOffset: byte := 0x03
  const ChGcalLsbOffset: byte := 0x04

  /**
   * ch_reg: register `offset` of channel `channel`'s block, computed in
   * `u8`; the debug assertions of the source are the preconditions.  The
   * result is the exact integer value (no `u8` overflow) and lies above the
   * global registers.
   */
  function ChReg(channel: byte, offset: byte): (r: byte)
    requires channel < 8 && offset < ChStride
    ensures r as int == ChBase as int + channel as int * ChStride as int + offset as int
    ensures THRESHOLD_LSB < r <= 0x30
  {
    ChBase + channel * ChStride + offset
  }

  /** ch_cfg: the CHn_CFG register, first of the block. */
  function ChCfg(channel: byte): (r: byte)
    requires channel < 8
    ensures r as int == 0x09 + 5 * channel as int
  {
    ChReg(channel, ChCfgOffset)
  }

  /** ch_ocal_msb: the CHn_OCAL_MSB register, second of the block. */
  function ChOcalMsb(channel: byte): (r: byte)
    requires channel < 8
    ensures r as int == 0x09 + 5 * channel as int + 1
  {
    ChReg(channel, ChOcalMsbOffset)
  }

  /** ch_gcal_msb: the CHn_GCAL_MSB register, fourth of the block. */
  function ChGcalMsb(channel: byte): (r: byte)
    requires channel < 8
    ensures r as int == 0x09 + 5 * channel as int + 3
  {
    ChReg(channel, ChGcalMsbOffset)
  }

  /** Channel and offset are recovered from a channel register address: the map is injective. */
  lemma ChRegInjective(c: byte, o: byte, c': byte, o': byte)
    requires c < 8 && o < ChStride && c' < 8 && o' < ChStride
    requires ChReg(c, o) == ChReg(c', o')
    ensures c == c' && o == o'
  {
    ByteInjective(c, c');
    ByteInjective(o, o');
  }

  /** The STATUS register value. */
  datatype Status = Status(bits: u16)
  {
    /** Status::locked: the interface is locked exactly when bit 15 is set. */
    predicate Locked()
      ensures Locked() <==> bits >= 0x8000
    {
      bits & LockMask != 0
    }
  }

  /** Status::LOCK_MASK */
  const LockMask: u16 := 1 << 15

  /** The lock bit is independent of the other fifteen bits. */
  lemma LockedIgnoresLowBits(s: Status, low: u16)
    requires low < 0x8000
    ensures Status((s.bits & LockMask) | low).Locked() == s.Locked()
  {
  }
}
