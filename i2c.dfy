/**
 * The I2C bus as the P3T1755 driver and the alert handler see it: the
 * `embedded_hal::i2c::I2c` interface they are generic over.
 *
 * The bus itself is foreign code. Here a `Controller` records every
 * transfer it is asked to make, and what the bus answers to a transfer is a
 * parameter (`Reply`) chosen by the caller, as a test's mock bus would be
 * programmed: the bytes the device sends back, or the error that stopped the
 * transfer after some of its operations had completed.
 */
module I2c {
  import opened Common

  /** embedded_hal::i2c::NoAcknowledgeSource */
  datatype NoAcknowledgeSource = Address | Data | Unknown

  /** embedded_hal::i2c::ErrorKind; an error here is identified with its kind. */
  datatype ErrorKind =
    | Bus
    | ArbitrationLoss
    | NoAcknowledge(source: NoAcknowledgeSource)
    | Overrun
    | Other

  /** embedded_hal::i2c::Operation: bytes to write, or the length of a buffer to read into. */
  datatype Operation = Write(bytes: seq<byte>) | Read(len: nat)

  /** One call of `I2c::transaction`: a device address and the operations in order. */
  datatype Transfer = Transfer(address: byte, ops: seq<Operation>)

  /**
   * What the bus answers: `Ack(data)` with the bytes the device sends for the
   * reads, or `Fail(kind, done)` after the first `done` operations completed.
   */
  datatype Reply = Ack(data: seq<byte>) | Fail(kind: ErrorKind, done: nat)

  /** A transfer and the answer it received, as the controller's log keeps them. */
  datatype Exchange = Exchange(transfer: Transfer, reply: Reply)

  /** The number of bytes the read operations of `ops` ask for. */
  function ReadLength(ops: seq<Operation>): nat {
    if ops == [] then 0
    else ReadLength(ops[..|ops| - 1]) + (if ops[|ops| - 1].Read? then ops[|ops| - 1].len else 0)
  }

  /** The read buffers after the device sent `data`: its first bytes, zeros where it sent fewer. */
  function Fit(data: seq<byte>, n: nat): (r: seq<byte>)
    ensures |r| == n
    ensures forall i :: 0 <= i < n ==> r[i] == (if i < |data| then data[i] else 0)
  {
    if |data| >= n then data[..n] else data + Zeros(n - |data|)
  }

  /** What `I2c::transaction` returns, with the bytes read on success. */
  function Outcome(ops: seq<Operation>, reply: Reply): (r: Result<seq<byte>, ErrorKind>)
    ensures r.Ok? <==> reply.Ack?
    ensures r.Ok? ==> |r.value| == ReadLength(ops)
    ensures r.Err? ==> r.error == reply.kind
  {
    match reply
    case Ack(data) => Ok(Fit(data, ReadLength(ops)))
    case Fail(kind, _) => Err(kind)
  }

  /** The bus controller: it keeps a log of every transfer and its answer. */
  class Controller {
    var log: seq<Exchange>

    constructor ()
      ensures log == []
    {
      log := [];
    }

    /** I2c::transaction */
    method Transaction(address: byte, ops: seq<Operation>, reply: Reply) returns (r: Result<seq<byte>, ErrorKind>)
      modifies this
      ensures log == old(log) + [Exchange(Transfer(address, ops), reply)]
      ensures r == Outcome(ops, reply)
    {
      log := log + [Exchange(Transfer(address, ops), reply)];
      r := Outcome(ops, reply);
    }

    /** I2c::read: a transfer made of one read of `len` bytes. */
    method Read(address: byte, len: nat, reply: Reply) returns (r: Result<seq<byte>, ErrorKind>)
      modifies this
      ensures log == old(log) + [Exchange(Transfer(address, [Operation.Read(len)]), reply)]
      ensures r.Ok? <==> reply.Ack?
      ensures r.Ok? ==> r.value == Fit(reply.data, len)
      ensures r.Err? ==> r.error == reply.kind
    {
      r := Transaction(address, [Operation.Read(len)], reply);
      assert ReadLength([Operation.Read(len)]) == len by {
        assert [Operation.Read(len)][..0] == [];
      }
    }
  }
}
