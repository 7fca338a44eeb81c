/** Packet records: the source-type enumeration, the parsed header and a
    packet as one header plus its payload words. */
module Packets {
  import opened Results

  /** The traced unit a packet comes from; `TypeCode` gives its wire code. */
  datatype PacketType = Core | Mem | Intfc | MemTile

  function TypeCode(t: PacketType): (c: nat)
    ensures c < 4
  {
    match t
    case Core => 0
    case Mem => 1
    case Intfc => 2
    case MemTile => 3
  }

  /** `PacketType(code)`: a member only for the codes 0..3. */
  function TypeFromCode(c: nat): (r: Option<PacketType>)
    ensures r.Some? <==> c < 4
    ensures r.Some? ==> TypeCode(r.value) == c
  {
    if c == 0 then Some(Core)
    else if c == 1 then Some(Mem)
    else if c == 2 then Some(Intfc)
    else if c == 3 then Some(MemTile)
    else None
  }

  /** Member name, as `str(PacketType.X)` prints it after the class name. */
  function TypeName(t: PacketType): string {
    match t
    case Core => "CORE"
    case Mem => "MEM"
    case Intfc => "INTFC"
    case MemTile => "MEMTILE"
  }

  /** type -> code -> type is the identity, and distinct types have distinct codes. */
  lemma TypeCodeRoundTrip(t: PacketType, u: PacketType)
    ensures TypeFromCode(TypeCode(t)) == Some(t)
    ensures TypeCode(t) == TypeCode(u) ==> t == u
  {
  }

  /** Header fields of a packet. `valid` is the odd-parity flag; it is only
      recorded and never constrains the other fields. */
  datatype PacketHeader = PacketHeader(id: nat, ptype: PacketType, row: nat, col: nat, valid: bool)

  /** One header plus an ordered, possibly empty, list of payload words. */
  datatype TracePacket = TracePacket(header: PacketHeader, dwords: seq<nat>)
}
