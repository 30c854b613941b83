/** `PrivilegeLevel`: the four protection rings and their conversion from
    a u16. */
module Privilege {
  import opened Common

  datatype PrivilegeLevel = Ring0 | Ring1 | Ring2 | Ring3

  /** The `#[repr(u8)]` discriminant of a ring. */
  function Discriminant(r: PrivilegeLevel): (v: U8)
    ensures v <= 3
  {
    match r
    case Ring0 => 0
    case Ring1 => 1
    case Ring2 => 2
    case Ring3 => 3
  }

  /** `From<u16>`: 0 to 3 give the ring with that discriminant, anything
      else panics. */
  function PrivilegeFrom(v: U16): (r: Outcome<PrivilegeLevel>)
    ensures r.Value? <==> v <= 3
    ensures r.Value? ==> Discriminant(r.value) == v
  {
    if v == 0 then Value(Ring0)
    else if v == 1 then Value(Ring1)
    else if v == 2 then Value(Ring2)
    else if v == 3 then Value(Ring3)
    else Panic("Invalid privilege level")
  }

  /** Converting a ring to its discriminant and back gives the ring. */
  lemma PrivilegeRoundTrip(r: PrivilegeLevel)
    ensures PrivilegeFrom(Discriminant(r)) == Value(r)
  {}
}
