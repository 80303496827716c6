/**
 * I2C addresses of the P3T1755 temperature sensor, from
 * libraries/p3t1755/src/address.rs: 32 variants, one per pin strapping,
 * whose discriminants are the bus addresses 0x40 to 0x5F.
 */
module P3tAddress {
  import opened Common

  datatype Address =
    Addr1 | Addr2 | Addr3 | Addr4 | Addr5 | Addr6 | Addr7 | Addr8 | Addr9 | Addr10 | Addr11 | Addr12 | Addr13 | Addr14 | Addr15 | Addr16
    | Addr17 | Addr18 | Addr19 | Addr20 | Addr21 | Addr22 | Addr23 | Addr24 | Addr25 | Addr26 | Addr27 | Addr28 | Addr29 | Addr30 | Addr31 | Addr32
  {
    /** Address::get: the variant's discriminant. */
    function Get(): (v: byte)
      ensures 0x40 <= v < 0x60
    {
      match this
      case Addr1 => 0x40
      case Addr2 => 0x41
      case Addr3 => 0x42
      case Addr4 => 0x43
      case Addr5 => 0x44
      case Addr6 => 0x45
      case Addr7 => 0x46
      case Addr8 => 0x47
      case Addr9 => 0x48
      case Addr10 => 0x49
      case Addr11 => 0x4A
      case Addr12 => 0x4B
      case Addr13 => 0x4C
      case Addr14 => 0x4D
      case Addr15 => 0x4E
      case Addr16 => 0x4F
      case Addr17 => 0x50
      case Addr18 => 0x51
      case Addr19 => 0x52
      case Addr20 => 0x53
      case Addr21 => 0x54
      case Addr22 => 0x55
      case Addr23 => 0x56
      case Addr24 => 0x57
      case Addr25 => 0x58
      case Addr26 => 0x59
      case Addr27 => 0x5A
      case Addr28 => 0x5B
      case Addr29 => 0x5C
      case Addr30 => 0x5D
      case Addr31 => 0x5E
      case Addr32 => 0x5F
    }
  }

  /** The variant whose discriminant is `0x40 + i`: what the transmute of Address::new picks. */
  function VariantAt(i: int): Address
    requires 0 <= i < 32
  {
    match i
    case 0 => Addr1
    case 1 => Addr2
    case 2 => Addr3
    case 3 => Addr4
    case 4 => Addr5
    case 5 => Addr6
    case 6 => Addr7
    case 7 => Addr8
    case 8 => Addr9
    case 9 => Addr10
    case 10 => Addr11
    case 11 => Addr12
    case 12 => Addr13
    case 13 => Addr14
    case 14 => Addr15
    case 15 => Addr16
    case 16 => Addr17
    case 17 => Addr18
    case 18 => Addr19
    case 19 => Addr20
    case 20 => Addr21
    case 21 => Addr22
    case 22 => Addr23
    case 23 => Addr24
    case 24 => Addr25
    case 25 => Addr26
    case 26 => Addr27
    case 27 => Addr28
    case 28 => Addr29
    case 29 => Addr30
    case 30 => Addr31
    case 31 => Addr32
    case _ => assert false; Addr1
  }

  /** Address::RANGE */
  const RangeStart: byte := 0x40
  const RangeEnd: byte := 0x60

  /** Address::new: the variant whose discriminant is `value`, for a value within RANGE. */
  function New(value: byte): (r: Option<Address>)
    ensures r.Some? <==> 0x40 <= value < 0x60
  {
    if value >= RangeStart && value < RangeEnd then Some(VariantAt((value - RangeStart) as int)) else None
  }

  /** `VariantAt` numbers the variants by discriminant, from 0x40 up. */
  lemma VariantsInOrder(i: int)
    requires 0 <= i < 32
    ensures VariantAt(i).Get() as int == 0x40 + i
  {
  }

  /** For a valid `value`, `new(value).get() == value`. */
  lemma NewThenGet(value: byte)
    requires New(value).Some?
    ensures New(value).value.Get() == value
  {
    var i := (value - RangeStart) as int;
    VariantsInOrder(i);
    ByteInjective(New(value).value.Get(), value);
  }

  /** Every variant is found again from its discriminant. */
  lemma GetThenNew(a: Address)
    ensures New(a.Get()) == Some(a)
  {
    var i := (a.Get() - RangeStart) as int;
    assert VariantAt(i) == a;
  }

  /** Distinct variants have distinct discriminants. */
  lemma GetInjective(a: Address, b: Address)
    ensures a.Get() == b.Get() ==> a == b
  {
    GetThenNew(a);
    GetThenNew(b);
  }

  /** The addresses the driver tests use. */
  lemma AddressVectors()
    ensures Addr1.Get() == 0x40 && Addr9.Get() == 0x48 && Addr16.Get() == 0x4F && Addr32.Get() == 0x5F
    ensures New(0x3F).None? && New(0x60).None?
  {
  }
}
