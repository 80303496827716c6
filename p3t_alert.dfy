/**
 * Alert handling of the P3T1755 from libraries/p3t1755/src/alert.rs, after
 * the SMBus Alert Response mechanism of the System Management Bus
 * Specification: the host reads one byte from the Alert Response Address
 * 0x0C; the alerting device answers with its own 7-bit address in the upper
 * bits and the alert condition in bit 0.
 */
module P3tAlert {
  import opened Common
  import opened I2c
  import P3tAddress

  /** The SMBus Alert Response Address. */
  const AlertResponseAddress: byte := 0x0C

  /** AlertCondition */
  datatype AlertCondition = OverTemperature | UnderTemperature

  /** Alert: the byte answered to the alert response; only bytes that name a valid sensor address are alerts. */
  datatype Alert = Alert(raw: byte)
  {
    /** What every constructor of an alert establishes: its address bits are a valid address. */
    predicate Valid() {
      P3tAddress.New(raw >> 1).Some?
    }

    /** Alert::address: the device that raised the alert. */
    function Address(): (a: P3tAddress.Address)
      requires Valid()
      ensures a.Get() == raw >> 1
    {
      P3tAddress.NewThenGet(raw >> 1);
      P3tAddress.New(raw >> 1).value
    }

    /** Alert::condition: bit 0 set means above T_HIGH, clear means below T_LOW. */
    function Condition(): (c: AlertCondition)
      ensures c == OverTemperature <==> raw & 0x01 == 0x01
      ensures c == UnderTemperature <==> raw & 0x01 == 0x00
    {
      if raw & 0x01 == 0 then UnderTemperature else OverTemperature
    }
  }

  /** Alert::from_byte: an alert exactly when the upper seven bits form a valid address. */
  function FromByte(b: byte): (r: Option<Alert>)
    ensures r.Some? <==> 0x80 <= b <= 0xBF
    ensures r.Some? ==> r.value.raw == b && r.value.Valid()
  {
    var addressBits := b >> 1;
    assert (0x40 <= addressBits < 0x60) == (0x80 <= b <= 0xBF);
    if P3tAddress.New(addressBits).Some? then Some(Alert(b)) else None
  }

  /** What `process` makes of the bus's answer to the one-byte read. */
  function Respond(r: Result<seq<byte>, ErrorKind>): (a: Result<Option<Alert>, ErrorKind>)
    requires r.Ok? ==> |r.value| == 1
    ensures r.Err? && r.error == NoAcknowledge(Address) ==> a == Ok(None)
    ensures r.Err? && r.error != NoAcknowledge(Address) ==> a == Err(r.error)
    ensures r.Ok? ==> a == Ok(FromByte(r.value[0]))
  {
    match r
    case Err(e) => if e.NoAcknowledge? && e.source == Address then Ok(None) else Err(e)
    case Ok(bytes) => Ok(FromByte(bytes[0]))
  }

  /** alert::process: read the alert response; no acknowledge of the address means no alert is pending. */
  method Process(bus: Controller, reply: Reply) returns (a: Result<Option<Alert>, ErrorKind>)
    modifies bus
    ensures bus.log == old(bus.log) + [Exchange(Transfer(AlertResponseAddress, [Read(1)]), reply)]
    ensures a == Respond(Outcome([Read(1)], reply))
  {
    var r := bus.Read(AlertResponseAddress, 1, reply);
    assert ReadLength([Read(1)]) == 1 by {
      assert [Read(1)][..0] == [];
    }
    if r.Err? {
      if r.error.NoAcknowledge? && r.error.source == Address {
        return Ok(None);
      }
      return Err(r.error);
    }
    a := Ok(FromByte(r.value[0]));
  }

  /**
   * An alert is reported exactly when the bus acknowledged and the byte names
   * a sensor; its address is the byte's upper seven bits.
   */
  lemma RespondReportsAlert(reply: Reply)
    ensures var a := Respond(Outcome([Read(1)], reply));
      a.Ok? && a.value.Some? <==> reply.Ack? && 0x80 <= Fit(reply.data, 1)[0] <= 0xBF
    ensures var a := Respond(Outcome([Read(1)], reply));
      a.Ok? && a.value.Some? ==> a.value.value.Valid() && a.value.value.Address().Get() == Fit(reply.data, 1)[0] >> 1
  {
    assert ReadLength([Read(1)]) == 1 by {
      assert [Read(1)][..0] == [];
    }
  }

  /** An alert's byte is its address shifted left by one, with the condition in bit 0. */
  lemma AlertByteLayout(a: Alert)
    requires a.Valid()
    ensures a.raw == (a.Address().Get() << 1) | (if a.Condition() == OverTemperature then 0x01 else 0x00)
  {
  }

  /** The alert tests: Addr9 over temperature, Addr1 under temperature, no device, and a byte of 0x00. */
  lemma AlertVectors()
    ensures FromByte(0x91).Some? && FromByte(0x91).value.Address() == P3tAddress.Addr9
    ensures FromByte(0x91).value.Condition() == OverTemperature
    ensures FromByte(0x80).Some? && FromByte(0x80).value.Address() == P3tAddress.Addr1
    ensures FromByte(0x80).value.Condition() == UnderTemperature
    ensures Respond(Err(NoAcknowledge(Address))) == Ok(None)
    ensures Respond(Ok([0x00])) == Ok(None)
    ensures FromByte(0x7F).None? && FromByte(0xC0).None?
  {
    P3tAddress.GetThenNew(P3tAddress.Addr9);
    P3tAddress.GetThenNew(P3tAddress.Addr1);
  }
}
