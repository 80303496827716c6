/**
 * I2C addresses of the TCA9535 port expander, from
 * libraries/tca9535/src/address.rs: the levels of pins A2, A1 and A0 select
 * one of the bus addresses 0x20 to 0x27.
 */
module TcaAddress {
  import opened Common

  /** A2, A1 and A0 low (L) or high (H), in that order. */
  datatype Address = Lll | Llh | Lhl | Lhh | Hll | Hlh | Hhl | Hhh
  {
    /** Address::get: the variant's discriminant. */
    function Get(): (v: byte)
      ensures 0x20 <= v < 0x28
    {
      match this
      case Lll => 0x20
      case Llh => 0x21
      case Lhl => 0x22
      case Lhh => 0x23
      case Hll => 0x24
      case Hlh => 0x25
      case Hhl => 0x26
      case Hhh => 0x27
    }
  }

  /** The variant whose discriminant is `0x20 + i`: what the transmute of Address::new picks. */
  function VariantAt(i: int): Address
    requires 0 <= i < 8
  {
    match i
    case 0 => Lll
    case 1 => Llh
    case 2 => Lhl
    case 3 => Lhh
    case 4 => Hll
    case 5 => Hlh
    case 6 => Hhl
    case 7 => Hhh
    case _ => assert false; Lll
  }

  /** Address::RANGE */
  const RangeStart: byte := 0x20
  const RangeEnd: byte := 0x28

  /** Address::new: the variant whose discriminant is `value`, for a value within RANGE. */
  function New(value: byte): (r: Option<Address>)
    ensures r.Some? <==> 0x20 <= value < 0x28
  {
    if value >= RangeStart && value < RangeEnd then Some(VariantAt((value - RangeStart) as int)) else None
  }

  /** `VariantAt` numbers the variants by discriminant, from 0x20 up. */
  lemma VariantsInOrder(i: int)
    requires 0 <= i < 8
    ensures VariantAt(i).Get() as int == 0x20 + i
  {
  }

  /** For a valid `value`, `new(value).get() == value`. */
  lemma NewThenGet(value: byte)
    requires New(value).Some?
    ensures New(value).value.Get() == value
  {
    var i := (value - RangeStart) as int;
    VariantsInOrder(i);
    ByteInjective(New(value).value.Get(), value);
  }

  /** Every variant is found again from its discriminant. */
  lemma GetThenNew(a: Address)
    ensures New(a.Get()) == Some(a)
  {
    var i := (a.Get() - RangeStart) as int;
    assert VariantAt(i) == a;
  }

  /** Distinct variants have distinct discriminants. */
  lemma GetInjective(a: Address, b: Address)
    ensures a.Get() == b.Get() ==> a == b
  {
    GetThenNew(a);
    GetThenNew(b);
  }

  /** The values the address tests reject, either side of the range. */
  lemma RejectedValues()
    ensures New(0x00).None? && New(0x1F).None? && New(0x28).None? && New(0xFF).None?
    ensures New(0x20) == Some(Lll) && New(0x27) == Some(Hhh)
  {
  }
}
