/**
 * P3T1755 register values of libraries/p3t1755/src/register.rs: the
 * register pointers, the configuration byte with its bit fields, and the
 * temperature fixed-point format (1/16 degree Celsius in a signed 12-bit
 * range, stored left-aligned in a big-endian 16-bit register).
 *
 * Rust's `>>` on `i16` rounds toward minus infinity, which is Dafny's `/` by
 * a positive divisor; Rust's `/` on `i32` truncates toward zero, written out
 * as `TruncDiv`.
 */
module P3tRegister {
  import opened Common

  // ---------------------------------------------------------------------
  // Register pointers

  const TEMP_REG: byte := 0x00
  const CONF_REG: byte := 0x01
  const T_LOW_REG: byte := 0x02
  const T_HIGH_REG: byte := 0x03

  datatype Register = Temp | Conf | TLow | THigh
  {
    /** Register::get: the pointer byte. */
    function Get(): (r: byte)
      ensures r < 4
    {
      match this
      case Temp => TEMP_REG
      case Conf => CONF_REG
      case TLow => T_LOW_REG
      case THigh => T_HIGH_REG
    }
  }

  /** The pointer byte of each register. */
  lemma PointerBytes()
    ensures Temp.Get() == 0x00 && Conf.Get() == 0x01
    ensures TLow.Get() == 0x02 && THigh.Get() == 0x03
  {
  }

  /** Distinct registers have distinct pointer bytes. */
  lemma RegisterGetInjective(a: Register, b: Register)
    ensures a.Get() == b.Get() ==> a == b
  {
  }

  // ---------------------------------------------------------------------
  // Configuration fields

  /** The fault queue length, bits 4 and 3. */
  datatype FaultQueue = One | Two | Four | Six
  {
    /** The discriminant (`fq as u8`). */
    function Bits(): (b: byte)
      ensures b & !FaultQueueMask == 0
    {
      match this
      case One => 0x00
      case Two => 0x08
      case Four => 0x10
      case Six => 0x18
    }
  }

  /** FaultQueue::MASK */
  const FaultQueueMask: byte := 0x18

  /** FaultQueue::from_reg: the variant whose discriminant is the masked bits. */
  function FaultQueueFromReg(value: byte): (fq: FaultQueue)
    ensures fq.Bits() == value & FaultQueueMask
  {
    var bits := value & FaultQueueMask;
    if bits == 0x00 then One
    else if bits == 0x08 then Two
    else if bits == 0x10 then Four
    else Six
  }

  /** The conversion time, bits 6 and 5. */
  datatype ConversionTime = Ms27_5 | Ms55 | Ms110 | Ms220
  {
    /** The discriminant (`ct as u8`). */
    function Bits(): (b: byte)
      ensures b & !ConversionTimeMask == 0
    {
      match this
      case Ms27_5 => 0x00
      case Ms55 => 0x20
      case Ms110 => 0x40
      case Ms220 => 0x60
    }
  }

  /** ConversionTime::MASK */
  const ConversionTimeMask: byte := 0x60

  /** ConversionTime::from_reg: the variant whose discriminant is the masked bits. */
  function ConversionTimeFromReg(value: byte): (ct: ConversionTime)
    ensures ct.Bits() == value & ConversionTimeMask
  {
    var bits := value & ConversionTimeMask;
    if bits == 0x00 then Ms27_5
    else if bits == 0x20 then Ms55
    else if bits == 0x40 then Ms110
    else Ms220
  }

  /** Each discriminant names one variant. */
  lemma DiscriminantsInjective(a: FaultQueue, b: FaultQueue, c: ConversionTime, d: ConversionTime)
    ensures a.Bits() == b.Bits() ==> a == b
    ensures c.Bits() == d.Bits() ==> c == d
  {
  }

  /** Shutdown mode bit. */
  const SdBit: byte := 0x01
  /** Thermostat mode bit. */
  const TmBit: byte := 0x02
  /** Polarity bit. */
  const PolBit: byte := 0x04
  /** One-shot bit. */
  const OsBit: byte := 0x80

  /** The configuration register value. */
  datatype Config = Config(bits: byte)
  {
    /** Config::to_reg: the byte carries every flag and both fields where the sensor expects them. */
    function ToReg(): (v: byte)
      ensures v & SdBit != 0 <==> ShutdownMode()
      ensures v & TmBit != 0 <==> ThermostatMode()
      ensures v & PolBit != 0 <==> Polarity()
      ensures v & OsBit != 0 <==> OneShot()
      ensures v & FaultQueueMask == FaultQueue().Bits()
      ensures v & ConversionTimeMask == ConversionTime().Bits()
    {
      bits
    }

    /** Config::bit: whether any bit of `bit` is set, i.e. whether clearing them changes the byte. */
    predicate Bit(bit: byte): (r: bool)
      ensures r <==> WithBit(bit, false) != this
    {
      bits & bit != 0
    }

    /** Config::with_bit: sets or clears the bits of `bit` and keeps every other bit. */
    function WithBit(bit: byte, enable: bool): (c: Config)
      ensures c.bits & bit == (if enable then bit else 0)
      ensures c.bits & !bit == bits & !bit
    {
      if enable then Config(bits | bit) else Config(bits & !bit)
    }

    /** Config::shutdown_mode: bit 0. */
    predicate ShutdownMode(): (r: bool)
      ensures r <==> bits as int % 2 == 1
    {
      Bit(SdBit)
    }

    /** Config::with_shutdown_mode: bit 0 reads back as set; every other bit is kept. */
    function WithShutdownMode(enable: bool): (c: Config)
      ensures c.ShutdownMode() == enable
      ensures c.bits & !SdBit == bits & !SdBit
    {
      WithBit(SdBit, enable)
    }

    /** Config::thermostat_mode: bit 1. */
    predicate ThermostatMode(): (r: bool)
      ensures r <==> bits as int / 2 % 2 == 1
    {
      Bit(TmBit)
    }

    /** Config::with_thermostat_mode: bit 1 reads back as set; every other bit is kept. */
    function WithThermostatMode(enable: bool): (c: Config)
      ensures c.ThermostatMode() == enable
      ensures c.bits & !TmBit == bits & !TmBit
    {
      WithBit(TmBit, enable)
    }

    /** Config::polarity: bit 2, set for an active-high alert output. */
    predicate Polarity(): (r: bool)
      ensures r <==> bits as int / 4 % 2 == 1
    {
      Bit(PolBit)
    }

    /** Config::with_polarity: bit 2 reads back as set; every other bit is kept. */
    function WithPolarity(high: bool): (c: Config)
      ensures c.Polarity() == high
      ensures c.bits & !PolBit == bits & !PolBit
    {
      WithBit(PolBit, high)
    }

    /** Config::one_shot: bit 7. */
    predicate OneShot(): (r: bool)
      ensures r <==> bits as int >= 0x80
    {
      Bit(OsBit)
    }

    /** Config::with_one_shot: bit 7 reads back as set; every other bit is kept. */
    function WithOneShot(enable: bool): (c: Config)
      ensures c.OneShot() == enable
      ensures c.bits & !OsBit == bits & !OsBit
    {
      WithBit(OsBit, enable)
    }

    /** Config::fault_queue: the variant whose discriminant is bits 4 and 3. */
    function FaultQueue(): (fq: FaultQueue)
      ensures fq.Bits() == bits & FaultQueueMask
    {
      FaultQueueFromReg(bits)
    }

    /** Config::with_fault_queue: replaces bits 4 and 3 and keeps every other bit. */
    function WithFaultQueue(fq: FaultQueue): (c: Config)
      ensures c.bits & !FaultQueueMask == bits & !FaultQueueMask
      ensures c.FaultQueue() == fq
    {
      var value := bits & !FaultQueueMask;
      DiscriminantsInjective(FaultQueueFromReg(value | fq.Bits()), fq, Ms55, Ms55);
      Config(value | fq.Bits())
    }

    /** Config::conversion_time: the variant whose discriminant is bits 6 and 5. */
    function ConversionTime(): (ct: ConversionTime)
      ensures ct.Bits() == bits & ConversionTimeMask
    {
      ConversionTimeFromReg(bits)
    }

    /** Config::with_conversion_time: replaces bits 6 and 5 and keeps every other bit. */
    function WithConversionTime(ct: ConversionTime): (c: Config)
      ensures c.bits & !ConversionTimeMask == bits & !ConversionTimeMask
      ensures c.ConversionTime() == ct
    {
      var value := bits & !ConversionTimeMask;
      DiscriminantsInjective(One, One, ConversionTimeFromReg(value | ct.Bits()), ct);
      Config(value | ct.Bits())
    }
  }

  /** Config::from_reg */
  function ConfigFromReg(value: byte): (c: Config)
    ensures c.ToReg() == value
  {
    Config(value)
  }

  /** `from_reg` and `to_reg` are inverse to each other. */
  lemma ConfigRoundTrip(value: byte, c: Config)
    ensures ConfigFromReg(value).ToReg() == value
    ensures ConfigFromReg(c.ToReg()) == c
  {
  }

  /** Config::RESET */
  const RESET: Config := Config(0x28)

  /** The single-bit flags of the configuration byte. */
  predicate IsFlag(bit: byte) {
    bit == SdBit || bit == TmBit || bit == PolBit || bit == OsBit
  }

  /** A flag reads back what its setter stored, and setting it leaves the other flags and both fields alone. */
  lemma FlagSetGet(c: Config, bit: byte, other: byte, enable: bool)
    requires IsFlag(bit) && IsFlag(other) && other != bit
    ensures c.WithBit(bit, enable).Bit(bit) == enable
    ensures c.WithBit(bit, enable).Bit(other) == c.Bit(other)
    ensures c.WithBit(bit, enable).FaultQueue() == c.FaultQueue()
    ensures c.WithBit(bit, enable).ConversionTime() == c.ConversionTime()
  {
    var d := c.WithBit(bit, enable);
    assert d.bits & other == c.bits & other;
    assert d.bits & FaultQueueMask == c.bits & FaultQueueMask;
    assert d.bits & ConversionTimeMask == c.bits & ConversionTimeMask;
    DiscriminantsInjective(d.FaultQueue(), c.FaultQueue(), d.ConversionTime(), c.ConversionTime());
  }

  /** Setting the fault queue leaves every flag and the conversion time alone. */
  lemma FaultQueueKeepsRest(c: Config, fq: FaultQueue, bit: byte)
    requires IsFlag(bit)
    ensures c.WithFaultQueue(fq).Bit(bit) == c.Bit(bit)
    ensures c.WithFaultQueue(fq).ConversionTime() == c.ConversionTime()
  {
    var d := c.WithFaultQueue(fq);
    assert d.bits & ConversionTimeMask == c.bits & ConversionTimeMask;
    DiscriminantsInjective(One, One, d.ConversionTime(), c.ConversionTime());
  }

  /** Setting the conversion time leaves every flag and the fault queue alone. */
  lemma ConversionTimeKeepsRest(c: Config, ct: ConversionTime, bit: byte)
    requires IsFlag(bit)
    ensures c.WithConversionTime(ct).Bit(bit) == c.Bit(bit)
    ensures c.WithConversionTime(ct).FaultQueue() == c.FaultQueue()
  {
    var d := c.WithConversionTime(ct);
    assert d.bits & FaultQueueMask == c.bits & FaultQueueMask;
    DiscriminantsInjective(d.FaultQueue(), c.FaultQueue(), Ms55, Ms55);
  }

  /** config_default_bits: RESET has every flag off, two faults and 55 ms. */
  lemma ResetDecodes()
    ensures !RESET.ShutdownMode() && !RESET.ThermostatMode() && !RESET.Polarity() && !RESET.OneShot()
    ensures RESET.FaultQueue() == Two && RESET.ConversionTime() == Ms55
  {
  }

  /** The configuration written by the driver's write test: 0x55. */
  lemma WriteConfigVector()
    ensures RESET.WithShutdownMode(true).WithPolarity(true).WithFaultQueue(Four)
      .WithConversionTime(Ms110).ToReg() == 0x55
  {
  }

  /** Every option set gives 0xFF. */
  lemma AllFeaturesVector()
    ensures RESET.WithShutdownMode(true).WithThermostatMode(true).WithPolarity(true)
      .WithFaultQueue(Six).WithConversionTime(Ms220).WithOneShot(true).ToReg() == 0xFF
  {
  }

  // ---------------------------------------------------------------------
  // Temperature

  /** Rust `i8`, `i16` and `i32`. */
  type i8 = x: int | -0x80 <= x < 0x80
  type i16 = x: int | -0x8000 <= x < 0x8000

  /** Temperature::MIN and Temperature::MAX in 1/16 degree Celsius. */
  const MinRaw: int := -2048
  const MaxRaw: int := 2047

  /** A temperature in 1/16 degree Celsius; every constructor keeps it within MIN..MAX. */
  datatype Temperature = Temperature(raw: i16)
  {
    predicate Valid() {
      MinRaw <= raw <= MaxRaw
    }
  }

  const MIN: Temperature := Temperature(MinRaw)
  const MAX: Temperature := Temperature(MaxRaw)

  /** Rust's `/` on integers: the quotient truncated toward zero. */
  function TruncDiv(a: int, b: int): (q: int)
    requires b > 0
    ensures a >= 0 ==> 0 <= q * b <= a < q * b + b
    ensures a < 0 ==> q * b - b < a <= q * b <= 0
  {
    if a >= 0 then
      DivBounds(a, b);
      a / b
    else
      DivBounds(-a, b);
      NegMul(-a / b, b);
      -((-a) / b)
  }

  /** The quotient of a natural number brackets it between two multiples of the divisor. */
  lemma DivBounds(a: nat, b: int)
    requires b > 0
    ensures 0 <= (a / b) * b <= a < (a / b) * b + b
  {
    var q := a / b;
    assert a == q * b + a % b;
    assert q >= 0;
    MulNonneg(q, b);
  }

  lemma MulNonneg(x: int, y: int)
    requires x >= 0 && y >= 0
    ensures x * y >= 0
  {
  }

  lemma NegMul(x: int, y: int)
    ensures (-x) * y == -(x * y)
  {
  }

  /** i16::from_be_bytes: the two's complement value of a big-endian byte pair. */
  function I16FromBe(hi: byte, lo: byte): (x: i16)
    ensures x == (if hi >= 0x80 then hi as int * 256 + lo as int - 0x10000 else hi as int * 256 + lo as int)
  {
    var v := hi as int * 256 + lo as int;
    if v >= 0x8000 then v - 0x10000 else v
  }

  /** i16::to_be_bytes: the big-endian bytes of its two's complement. */
  function I16ToBe(x: i16): (r: seq<byte>)
    ensures |r| == 2 && I16FromBe(r[0], r[1]) == x
  {
    var u := if x < 0 then x + 0x10000 else x;
    SplitWord(u);
    var hi := ByteOf(u / 256);
    var lo := ByteOf(u % 256);
    assert (hi >= 0x80) == (x < 0) by {
      assert hi >= 0x80 <==> hi as int >= 0x80;
    }
    [hi, lo]
  }

  /** A 16-bit value is its high byte times 256 plus its low byte. */
  lemma SplitWord(u: int)
    requires 0 <= u < 0x10000
    ensures 0 <= u / 256 < 256 && 0 <= u % 256 < 256
    ensures u == (u / 256) * 256 + u % 256
    ensures u >= 0x8000 <==> u / 256 >= 0x80
  {
  }

  /** Temperature::from_regs: the register's 16 bits, arithmetically shifted right by 4. */
  function FromRegs(regs: seq<byte>): (t: Temperature)
    requires |regs| == 2
    ensures t.Valid()
    ensures t.raw * 16 <= I16FromBe(regs[0], regs[1]) < t.raw * 16 + 16
  {
    Temperature(I16FromBe(regs[0], regs[1]) / 16)
  }

  /** Temperature::to_regs: the value shifted left by 4 (no bit of a valid value is lost), big-endian. */
  function ToRegs(t: Temperature): (r: seq<byte>)
    requires t.Valid()
    ensures |r| == 2 && I16FromBe(r[0], r[1]) == t.raw * 16
  {
    I16ToBe(t.raw * 16)
  }

  /** Temperature::from_raw: `Some` exactly for raw values within MIN..MAX. */
  function FromRaw(raw: i16): (r: Option<Temperature>)
    ensures r.Some? <==> MinRaw <= raw <= MaxRaw
    ensures r.Some? ==> r.value.raw == raw && r.value.Valid()
  {
    if raw < MIN.raw || raw > MAX.raw then None else Some(Temperature(raw))
  }

  /** How far apart two values are. */
  function Distance(a: int, b: int): nat {
    if a < b then b - a else a - b
  }

  /** Temperature::saturating_from_raw: the valid temperature nearest to `raw`. */
  function SaturatingFromRaw(raw: i16): (t: Temperature)
    ensures t.Valid()
    ensures forall v: int :: MinRaw <= v <= MaxRaw ==> Distance(raw, t.raw) <= Distance(raw, v)
  {
    if raw < MIN.raw then MIN
    else if raw > MAX.raw then MAX
    else Temperature(raw)
  }

  /** Temperature::from_degrees_celsius: whole degrees shifted left by 4. */
  function FromDegreesCelsius(degC: i8): (t: Temperature)
    ensures t.Valid() && t.raw == degC * 16
  {
    Temperature(degC * 16)
  }

  /**
   * Temperature::from_centi_degrees_celsius: `c * 16 / 100` in `i32` (truncated), saturated.
   * In range the result is within one LSB (1/16 degree) of the input, rounded toward zero.
   */
  function FromCentiDegreesCelsius(centiDegC: i16): (t: Temperature)
    ensures t.Valid()
    ensures centiDegC * 16 >= 204800 ==> t == MAX
    ensures centiDegC * 16 <= -204900 ==> t == MIN
    ensures -204900 < centiDegC * 16 < 204800 && centiDegC >= 0 ==>
      t.raw * 100 <= centiDegC * 16 < t.raw * 100 + 100
    ensures -204900 < centiDegC * 16 < 204800 && centiDegC < 0 ==>
      t.raw * 100 - 100 < centiDegC * 16 <= t.raw * 100
  {
    var raw := TruncDiv(centiDegC * 16, 100);
    SaturatingFromRaw(raw)
  }

  /** Temperature::degrees_celsius: the value shifted right by 4, rounded toward minus infinity. */
  function DegreesCelsius(t: Temperature): (d: i8)
    requires t.Valid()
    ensures d * 16 <= t.raw < d * 16 + 16
  {
    t.raw / 16
  }

  /** Temperature::centi_degrees_celsius: `raw * 625 / 100` in `i32`, truncated toward zero. */
  function CentiDegreesCelsius(t: Temperature): (c: i16)
    requires t.Valid()
    ensures t.raw >= 0 ==> 0 <= c * 100 <= t.raw * 625 < c * 100 + 100
    ensures t.raw < 0 ==> c * 100 - 100 < t.raw * 625 <= c * 100 <= 0
  {
    TruncDiv(t.raw * 625, 100)
  }

  /** Writing a valid temperature to a register and reading it back gives the same temperature. */
  lemma RegsRoundTrip(t: Temperature)
    requires t.Valid()
    ensures FromRegs(ToRegs(t)) == t
  {
    var r := ToRegs(t);
    assert I16FromBe(r[0], r[1]) / 16 == t.raw;
  }

  /** The four low bits of the register, below the 12 valid bits, do not affect the temperature read. */
  lemma FromRegsIgnoresLowNibble(hi: byte, lo: byte, lo': byte)
    requires lo as int / 16 == lo' as int / 16
    ensures FromRegs([hi, lo]) == FromRegs([hi, lo'])
  {
    var k := if hi >= 0x80 then hi as int * 16 - 0x1000 else hi as int * 16;
    assert I16FromBe(hi, lo) == 16 * k + lo as int;
    assert I16FromBe(hi, lo') == 16 * k + lo' as int;
    ShiftAdd(k, lo as int);
    ShiftAdd(k, lo' as int);
  }

  /** Adding a value below 256 to a multiple of 16 adds its own upper nibble to the quotient. */
  lemma ShiftAdd(k: int, n: int)
    requires 0 <= n < 256
    ensures (16 * k + n) / 16 == k + n / 16
  {
    assert 16 * k + n == 16 * (k + n / 16) + n % 16;
  }

  /** Whole degrees survive the conversion to a temperature and back. */
  lemma DegreesRoundTrip(d: i8)
    ensures DegreesCelsius(FromDegreesCelsius(d)) == d
  {
  }

  /** saturating_from_raw agrees with from_raw wherever from_raw succeeds, and clamps to MIN or MAX elsewhere. */
  lemma SaturatingAgreesWithFromRaw(raw: i16)
    ensures FromRaw(raw).Some? ==> SaturatingFromRaw(raw) == FromRaw(raw).value
    ensures raw < MinRaw ==> SaturatingFromRaw(raw) == MIN
    ensures raw > MaxRaw ==> SaturatingFromRaw(raw) == MAX
  {
    var t := SaturatingFromRaw(raw);
    if raw < MinRaw {
      assert Distance(raw, t.raw) <= Distance(raw, MinRaw);
    } else if raw > MaxRaw {
      assert Distance(raw, t.raw) <= Distance(raw, MaxRaw);
    } else {
      assert Distance(raw, t.raw) <= Distance(raw, raw);
    }
  }

  /**
   * Centi-degrees and back lose at most one sixteenth of a degree, always
   * toward zero: 401 becomes 2506 and then 400.
   */
  lemma CentiRoundTrip(t: Temperature)
    requires t.Valid()
    ensures t.raw >= 0 ==> t.raw - 1 <= FromCentiDegreesCelsius(CentiDegreesCelsius(t)).raw <= t.raw
    ensures t.raw < 0 ==> t.raw <= FromCentiDegreesCelsius(CentiDegreesCelsius(t)).raw <= t.raw + 1
  {
    var c: int := CentiDegreesCelsius(t);
    var q := TruncDiv(c * 16, 100);
    assert MinRaw <= q <= MaxRaw;
    SaturatingAgreesWithFromRaw(q);
  }

  /** temperature_from_raw_bounds and temperature_saturating */
  lemma RawBoundVectors()
    ensures FromRaw(MinRaw).Some? && FromRaw(MaxRaw).Some?
    ensures FromRaw(MinRaw - 1).None? && FromRaw(MaxRaw + 1).None?
    ensures SaturatingFromRaw(MinRaw - 100) == MIN && SaturatingFromRaw(MaxRaw + 100) == MAX
    ensures SaturatingFromRaw(100).raw == 100
  {
    SaturatingAgreesWithFromRaw(MinRaw - 100);
    SaturatingAgreesWithFromRaw(MaxRaw + 100);
    SaturatingAgreesWithFromRaw(100);
  }

  /** temperature_roundtrip_positive: 401 is 0x1910, 25 degrees and 2506 centi-degrees. */
  lemma PositiveVector()
    ensures ToRegs(Temperature(401)) == [0x19, 0x10]
    ensures FromRegs([0x19, 0x10]).raw == 401
    ensures DegreesCelsius(Temperature(401)) == 25
    ensures CentiDegreesCelsius(Temperature(401)) == 2506
  {
    ByteOfIs(0x19, 0x19);
    ByteOfIs(0x10, 0x10);
  }

  /** temperature_roundtrip_negative: -168 is 0xF580, -11 degrees (rounded down) and -1050 centi-degrees. */
  lemma NegativeVector()
    ensures ToRegs(Temperature(-168)) == [0xF5, 0x80]
    ensures FromRegs([0xF5, 0x80]).raw == -168
    ensures DegreesCelsius(Temperature(-168)) == -11
    ensures CentiDegreesCelsius(Temperature(-168)) == -1050
  {
    ByteOfIs(0xF5, 0xF5);
    ByteOfIs(0x80, 0x80);
  }

  /** from_centi_degrees_behavior */
  lemma CentiVectors()
    ensures FromCentiDegreesCelsius(2506).raw == 400
    ensures FromCentiDegreesCelsius(-1050).raw == -168
    ensures FromCentiDegreesCelsius(-12800) == MIN
    ensures FromCentiDegreesCelsius(12794) == MAX
  {
    SaturatingAgreesWithFromRaw(400);
    SaturatingAgreesWithFromRaw(-168);
    SaturatingAgreesWithFromRaw(-2048);
    SaturatingAgreesWithFromRaw(2047);
  }

  /** The register values of the driver's accessor tests: T_LOW, T_HIGH and whole degrees written. */
  lemma AccessorVectors()
    ensures DegreesCelsius(FromRegs([0x4B, 0x00])) == 75
    ensures DegreesCelsius(FromRegs([0x50, 0x00])) == 80
    ensures ToRegs(FromDegreesCelsius(50)) == [0x32, 0x00]
    ensures ToRegs(FromDegreesCelsius(85)) == [0x55, 0x00]
  {
    ByteOfIs(0x32, 0x32);
    ByteOfIs(0x55, 0x55);
    ByteOfIs(0, 0);
  }

  /** The ends of the range as the sensor reports them: -128 degrees and just below 128. */
  lemma FullRangeVectors()
    ensures DegreesCelsius(FromRegs([0x80, 0x00])) == -128
    ensures DegreesCelsius(FromRegs([0x7F, 0xF0])) == 127
    ensures CentiDegreesCelsius(FromRegs([0x7F, 0xF0])) == 12793
  {
  }
}
