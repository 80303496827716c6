/**
 * The P3T1755 driver of libraries/p3t1755/src/lib.rs.
 *
 * The sensor keeps a pointer register: the first byte written in a transfer
 * selects the register that later reads return. The driver remembers the
 * register it last pointed at (`latchedReg`) and leaves out the pointer write
 * when it reads that register again.
 *
 * `P3t1755` is the driver object over an I2C `Controller`. The functions
 * before it describe one exchange on values (the operations sent, the latch
 * kept, the sensor's pointer afterwards) so that the latch can be compared
 * with the sensor. After a failed transfer the driver keeps its old latch,
 * although the pointer write may already have reached the sensor; the
 * `Corrected` variant forgets the latch instead.
 */
module P3tDriver {
  import opened Common
  import opened I2c
  import opened P3tRegister
  import P3tAddress

  /** How the latch reacts to a failed transfer: kept, as the driver does, or forgotten. */
  datatype Variant = AsWritten | Corrected

  /** The operations of read_register: the pointer write is left out when the latch already holds `reg`. */
  function ReadOps(latched: Option<Register>, reg: Register, len: nat): (ops: seq<Operation>)
    ensures |ops| > 0 && ops[|ops| - 1] == Read(len)
    ensures |ops| == 1 <==> latched == Some(reg)
    ensures |ops| != 1 ==> ops == [Write([reg.Get()]), Read(len)]
  {
    if latched == Some(reg) then [Read(len)] else [Write([reg.Get()]), Read(len)]
  }

  /** The operations of write_register: the pointer, then the data, whatever the latch holds. */
  function WriteOps(reg: Register, bytes: seq<byte>): (ops: seq<Operation>)
    ensures |ops| == 2 && ops[0] == Write([reg.Get()]) && ops[1] == Write(bytes)
  {
    [Write([reg.Get()]), Write(bytes)]
  }

  /** The latch after a transfer on `reg`: `Some(reg)` on success; after a failure, kept or forgotten. */
  function LatchAfter(variant: Variant, latched: Option<Register>, reg: Register, ok: bool): (l: Option<Register>)
    ensures ok ==> l == Some(reg)
    ensures !ok ==> l == (if variant == AsWritten then latched else None)
  {
    if ok then Some(reg) else if variant == AsWritten then latched else None
  }

  // ---------------------------------------------------------------------
  // The sensor's pointer register

  /** Whether a transfer begins by writing a pointer byte. */
  predicate WritesPointer(ops: seq<Operation>) {
    |ops| > 0 && ops[0].Write? && |ops[0].bytes| > 0
  }

  /** The pointer the transfer's later operations see: the one it writes, else the one already set. */
  function PointerSeen(p: Option<byte>, ops: seq<Operation>): Option<byte> {
    if WritesPointer(ops) then Some(ops[0].bytes[0]) else p
  }

  /**
   * The sensor's pointer after a transfer: set by the transfer's first
   * write once that operation has completed, which a failure after it does
   * not undo.
   */
  function PointerAfter(p: Option<byte>, ops: seq<Operation>, reply: Reply): (q: Option<byte>)
    ensures reply.Ack? ==> q == PointerSeen(p, ops)
    ensures reply.Fail? && reply.done == 0 ==> q == p
    ensures reply.Fail? && reply.done > 0 ==> q == PointerSeen(p, ops)
  {
    if WritesPointer(ops) && (reply.Ack? || reply.done > 0) then Some(ops[0].bytes[0]) else p
  }

  /** The latch is true to the sensor: whenever the driver believes a register is selected, it is. */
  predicate Agrees(latched: Option<Register>, p: Option<byte>) {
    latched.Some? ==> p == Some(latched.value.Get())
  }

  /** What the driver asks of the sensor. */
  datatype Request = ReadReg(reg: Register, len: nat) | WriteReg(reg: Register, bytes: seq<byte>)

  /** The operations the driver sends for a request. */
  function Ops(latched: Option<Register>, req: Request): seq<Operation> {
    match req
    case ReadReg(reg, len) => ReadOps(latched, reg, len)
    case WriteReg(reg, bytes) => WriteOps(reg, bytes)
  }

  /** The driver's latch together with the sensor's pointer. */
  datatype System = System(latched: Option<Register>, pointer: Option<byte>)
  {
    predicate Synced() {
      Agrees(latched, pointer)
    }

    /** One request and the bus's answer to it. */
    function Step(variant: Variant, req: Request, reply: Reply): System {
      System(LatchAfter(variant, latched, req.reg, reply.Ack?), PointerAfter(pointer, Ops(latched, req), reply))
    }
  }

  /** A sequence of requests, each with the bus's answer. */
  function Run(variant: Variant, s: System, steps: seq<(Request, Reply)>): System
    decreases |steps|
  {
    if steps == [] then s
    else Run(variant, s.Step(variant, steps[0].0, steps[0].1), steps[1..])
  }

  /** While the latch is true to the sensor, every read selects the register it means to read. */
  lemma ReadTargetsRegister(latched: Option<Register>, p: Option<byte>, reg: Register, len: nat)
    requires Agrees(latched, p)
    ensures PointerSeen(p, ReadOps(latched, reg, len)) == Some(reg.Get())
  {
  }

  /** A successful transfer leaves the latch true to the sensor, in either variant. */
  lemma SuccessKeepsSync(variant: Variant, s: System, req: Request, data: seq<byte>)
    requires s.Synced()
    ensures s.Step(variant, req, Ack(data)).Synced()
  {
    ReadTargetsRegister(s.latched, s.pointer, req.reg, if req.ReadReg? then req.len else 0);
  }

  /** Forgetting the latch after a failure keeps it true to the sensor whatever the bus answers. */
  lemma CorrectedKeepsSync(s: System, req: Request, reply: Reply)
    requires s.Synced()
    ensures s.Step(Corrected, req, reply).Synced()
  {
    if reply.Ack? {
      SuccessKeepsSync(Corrected, s, req, reply.data);
    }
  }

  /** Over any run of the corrected driver, the latch stays true to the sensor. */
  lemma {:induction false} CorrectedRunSynced(s: System, steps: seq<(Request, Reply)>)
    requires s.Synced()
    ensures Run(Corrected, s, steps).Synced()
    decreases |steps|
  {
    if steps != [] {
      CorrectedKeepsSync(s, steps[0].0, steps[0].1);
      CorrectedRunSynced(s.Step(Corrected, steps[0].0, steps[0].1), steps[1..]);
    }
  }

  /** On a bus that never fails, the driver as written keeps the latch true to the sensor. */
  lemma {:induction false} ReliableRunSynced(s: System, steps: seq<(Request, Reply)>)
    requires s.Synced()
    requires forall i :: 0 <= i < |steps| ==> steps[i].1.Ack?
    ensures Run(AsWritten, s, steps).Synced()
    decreases |steps|
  {
    if steps != [] {
      SuccessKeepsSync(AsWritten, s, steps[0].0, steps[0].1.data);
      ReliableRunSynced(s.Step(AsWritten, steps[0].0, steps[0].1), steps[1..]);
    }
  }

  /**
   * The driver as written loses track of the pointer: with the temperature
   * register latched, a configuration read whose pointer write completes but
   * whose read fails keeps the latch on the temperature register, so the next
   * temperature read sends no pointer and gets the configuration register.
   */
  lemma StaleLatchAfterFailedRead()
    ensures var s := System(Some(Temp), Some(TEMP_REG));
      var t := s.Step(AsWritten, ReadReg(Conf, 1), Fail(Bus, 1));
      s.Synced() && !t.Synced() &&
      PointerSeen(t.pointer, Ops(t.latched, ReadReg(Temp, 2))) == Some(CONF_REG)
  {
  }

  /** The same after a register write whose data byte is not acknowledged. */
  lemma StaleLatchAfterFailedWrite()
    ensures var s := System(Some(Temp), Some(TEMP_REG));
      var t := s.Step(AsWritten, WriteReg(Conf, [0x55]), Fail(NoAcknowledge(Data), 1));
      s.Synced() && !t.Synced() &&
      PointerSeen(t.pointer, Ops(t.latched, ReadReg(Temp, 2))) == Some(CONF_REG)
  {
  }

  // ---------------------------------------------------------------------
  // The driver object

  /** P3t1755: the driver, generic over the bus, with the register it last pointed at. */
  class P3t1755 {
    const i2c: Controller
    const addr: P3tAddress.Address
    var latchedReg: Option<Register>

    /** P3t1755::new: nothing latched yet. */
    constructor (i2c: Controller, addr: P3tAddress.Address)
      ensures this.i2c == i2c && this.addr == addr && latchedReg == None
    {
      this.i2c := i2c;
      this.addr := addr;
      latchedReg := None;
    }

    /** read_register: one transfer to the sensor's address; the latch moves to `reg` only on success. */
    method ReadRegister(reg: Register, len: nat, reply: Reply) returns (r: Result<seq<byte>, ErrorKind>)
      modifies this, i2c
      ensures i2c.log == old(i2c.log) + [Exchange(Transfer(addr.Get(), ReadOps(old(latchedReg), reg, len)), reply)]
      ensures latchedReg == LatchAfter(AsWritten, old(latchedReg), reg, reply.Ack?)
      ensures r.Ok? <==> reply.Ack?
      ensures r.Ok? ==> r.value == Fit(reply.data, len)
      ensures r.Err? ==> r.error == reply.kind
    {
      var ops: seq<Operation>;
      if latchedReg == Some(reg) {
        ops := [Read(len)];
      } else {
        ops := [Write([reg.Get()]), Read(len)];
      }
      r := i2c.Transaction(addr.Get(), ops, reply);
      ReadOpsLength(latchedReg, reg, len);
      if r.Err? {
        return;
      }
      latchedReg := Some(reg);
    }

    /** write_register: the pointer and the data in one transfer; the latch moves to `reg` only on success. */
    method WriteRegister(reg: Register, bytes: seq<byte>, reply: Reply) returns (r: Result<(), ErrorKind>)
      modifies this, i2c
      ensures i2c.log == old(i2c.log) + [Exchange(Transfer(addr.Get(), WriteOps(reg, bytes)), reply)]
      ensures latchedReg == LatchAfter(AsWritten, old(latchedReg), reg, reply.Ack?)
      ensures r.Ok? <==> reply.Ack?
      ensures r.Err? ==> r.error == reply.kind
    {
      var t := i2c.Transaction(addr.Get(), [Write([reg.Get()]), Write(bytes)], reply);
      if t.Err? {
        return Err(t.error);
      }
      latchedReg := Some(reg);
      r := Ok(());
    }

    /** read_temperature: two bytes of the temperature register. */
    method ReadTemperature(reply: Reply) returns (r: Result<Temperature, ErrorKind>)
      modifies this, i2c
      ensures i2c.log == old(i2c.log) + [Exchange(Transfer(addr.Get(), ReadOps(old(latchedReg), Temp, 2)), reply)]
      ensures latchedReg == LatchAfter(AsWritten, old(latchedReg), Temp, reply.Ack?)
      ensures reply.Ack? ==> r == Ok(FromRegs(Fit(reply.data, 2)))
      ensures reply.Fail? ==> r == Err(reply.kind)
    {
      var bytes := ReadRegister(Temp, 2, reply);
      if bytes.Err? {
        return Err(bytes.error);
      }
      r := Ok(FromRegs(bytes.value));
    }

    /** read_config: one byte of the configuration register. */
    method ReadConfig(reply: Reply) returns (r: Result<Config, ErrorKind>)
      modifies this, i2c
      ensures i2c.log == old(i2c.log) + [Exchange(Transfer(addr.Get(), ReadOps(old(latchedReg), Conf, 1)), reply)]
      ensures latchedReg == LatchAfter(AsWritten, old(latchedReg), Conf, reply.Ack?)
      ensures reply.Ack? ==> r == Ok(ConfigFromReg(Fit(reply.data, 1)[0]))
      ensures reply.Fail? ==> r == Err(reply.kind)
    {
      var bytes := ReadRegister(Conf, 1, reply);
      if bytes.Err? {
        return Err(bytes.error);
      }
      r := Ok(ConfigFromReg(bytes.value[0]));
    }

    /** write_config: the configuration as one byte. */
    method WriteConfig(config: Config, reply: Reply) returns (r: Result<(), ErrorKind>)
      modifies this, i2c
      ensures i2c.log == old(i2c.log) + [Exchange(Transfer(addr.Get(), WriteOps(Conf, [config.ToReg()])), reply)]
      ensures latchedReg == LatchAfter(AsWritten, old(latchedReg), Conf, reply.Ack?)
      ensures r.Ok? <==> reply.Ack?
      ensures r.Err? ==> r.error == reply.kind
    {
      r := WriteRegister(Conf, [config.ToReg()], reply);
    }

    /** read_t_low: two bytes of the T_LOW register. */
    method ReadTLow(reply: Reply) returns (r: Result<Temperature, ErrorKind>)
      modifies this, i2c
      ensures i2c.log == old(i2c.log) + [Exchange(Transfer(addr.Get(), ReadOps(old(latchedReg), TLow, 2)), reply)]
      ensures latchedReg == LatchAfter(AsWritten, old(latchedReg), TLow, reply.Ack?)
      ensures reply.Ack? ==> r == Ok(FromRegs(Fit(reply.data, 2)))
      ensures reply.Fail? ==> r == Err(reply.kind)
    {
      var bytes := ReadRegister(TLow, 2, reply);
      if bytes.Err? {
        return Err(bytes.error);
      }
      r := Ok(FromRegs(bytes.value));
    }

    /** write_t_low: the threshold in register format. */
    method WriteTLow(temp: Temperature, reply: Reply) returns (r: Result<(), ErrorKind>)
      requires temp.Valid()
      modifies this, i2c
      ensures i2c.log == old(i2c.log) + [Exchange(Transfer(addr.Get(), WriteOps(TLow, ToRegs(temp))), reply)]
      ensures latchedReg == LatchAfter(AsWritten, old(latchedReg), TLow, reply.Ack?)
      ensures r.Ok? <==> reply.Ack?
      ensures r.Err? ==> r.error == reply.kind
    {
      r := WriteRegister(TLow, ToRegs(temp), reply);
    }

    /** read_t_high: two bytes of the T_HIGH register. */
    method ReadTHigh(reply: Reply) returns (r: Result<Temperature, ErrorKind>)
      modifies this, i2c
      ensures i2c.log == old(i2c.log) + [Exchange(Transfer(addr.Get(), ReadOps(old(latchedReg), THigh, 2)), reply)]
      ensures latchedReg == LatchAfter(AsWritten, old(latchedReg), THigh, reply.Ack?)
      ensures reply.Ack? ==> r == Ok(FromRegs(Fit(reply.data, 2)))
      ensures reply.Fail? ==> r == Err(reply.kind)
    {
      var bytes := ReadRegister(THigh, 2, reply);
      if bytes.Err? {
        return Err(bytes.error);
      }
      r := Ok(FromRegs(bytes.value));
    }

    /** write_t_high: the threshold in register format. */
    method WriteTHigh(temp: Temperature, reply: Reply) returns (r: Result<(), ErrorKind>)
      requires temp.Valid()
      modifies this, i2c
      ensures i2c.log == old(i2c.log) + [Exchange(Transfer(addr.Get(), WriteOps(THigh, ToRegs(temp))), reply)]
      ensures latchedReg == LatchAfter(AsWritten, old(latchedReg), THigh, reply.Ack?)
      ensures r.Ok? <==> reply.Ack?
      ensures r.Err? ==> r.error == reply.kind
    {
      r := WriteRegister(THigh, ToRegs(temp), reply);
    }
  }

  /** A read transfer asks for exactly the bytes of its buffer. */
  lemma ReadOpsLength(latched: Option<Register>, reg: Register, len: nat)
    ensures ReadLength(ReadOps(latched, reg, len)) == len
  {
    var ops := ReadOps(latched, reg, len);
    if |ops| == 2 {
      assert ops[..1][..0] == [];
      assert ReadLength(ops[..1]) == 0;
    } else {
      assert ops[..0] == [];
    }
  }

  /** The latching test: a second temperature read sends no pointer write. */
  method ReadTemperatureTwice(i2c: Controller, first: seq<byte>, second: seq<byte>)
    returns (t1: Result<Temperature, ErrorKind>, t2: Result<Temperature, ErrorKind>)
    modifies i2c
    ensures i2c.log == old(i2c.log) + [
      Exchange(Transfer(0x48, [Write([0x00]), Read(2)]), Ack(first)),
      Exchange(Transfer(0x48, [Read(2)]), Ack(second))]
    ensures t1 == Ok(FromRegs(Fit(first, 2))) && t2 == Ok(FromRegs(Fit(second, 2)))
  {
    var sensor := new P3t1755(i2c, P3tAddress.Addr9);
    t1 := sensor.ReadTemperature(Ack(first));
    t2 := sensor.ReadTemperature(Ack(second));
  }

  /** Reading different registers one after another writes the pointer before each read. */
  method ReadSequence(i2c: Controller, temp: seq<byte>, conf: seq<byte>, tLow: seq<byte>)
    modifies i2c
    ensures i2c.log == old(i2c.log) + [
      Exchange(Transfer(0x48, [Write([0x00]), Read(2)]), Ack(temp)),
      Exchange(Transfer(0x48, [Write([0x01]), Read(1)]), Ack(conf)),
      Exchange(Transfer(0x48, [Write([0x02]), Read(2)]), Ack(tLow))]
  {
    var sensor := new P3t1755(i2c, P3tAddress.Addr9);
    var _ := sensor.ReadTemperature(Ack(temp));
    var _ := sensor.ReadConfig(Ack(conf));
    var _ := sensor.ReadTLow(Ack(tLow));
  }

  /** A register write latches the pointer too: reading the register back sends no pointer write. */
  method WriteThenRead(i2c: Controller, config: Config, reply: seq<byte>) returns (c: Result<Config, ErrorKind>)
    modifies i2c
    ensures i2c.log == old(i2c.log) + [
      Exchange(Transfer(0x48, [Write([0x01]), Write([config.ToReg()])]), Ack([])),
      Exchange(Transfer(0x48, [Read(1)]), Ack(reply))]
    ensures c == Ok(ConfigFromReg(Fit(reply, 1)[0]))
  {
    var sensor := new P3t1755(i2c, P3tAddress.Addr9);
    var _ := sensor.WriteConfig(config, Ack([]));
    c := sensor.ReadConfig(Ack(reply));
  }
}
