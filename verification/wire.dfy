/**
 The values that cross the wire between a Sphaira client and server: 16-bit
 message codes, the fields a message body is written as, the delivery modes
 of the transport, and the small Option/Result wrappers the model uses for
 lookups that can fail.
 */
module Wire {

  /** An unsigned 16-bit integer, the width of message codes, counts and player ids. */
  newtype u16 = x: int | 0 <= x < 0x1_0000

  /** A signed 32-bit integer (the world seed). */
  newtype i32 = x: int | -0x8000_0000 <= x < 0x8000_0000

  /** The reserved code that requests (client to server) or carries (server to client) the message-type table. */
  const Sentinel: u16 := 0xffff

  /** The raw bit pattern of a single-precision float. */
  newtype Bits32 = x: int | 0 <= x < 0x1_0000_0000

  /** The raw bit pattern of a double-precision float. */
  newtype Bits64 = x: int | 0 <= x < 0x1_0000_0000_0000_0000

  /** A transport-level connection, compared by identity only. */
  type Conn = nat

  /** A position; its three floats are carried as raw bit patterns and never computed on. */
  datatype Vec3 = Vec3(x: Bits32, y: Bits32, z: Bits32)

  /** The zero vector, the initial position of a fresh player record. */
  const Origin: Vec3 := Vec3(0, 0, 0)

  /** One value written to (or read from) a message body, in write order. */
  datatype Field =
    | U16(v: u16)
    | I32(i: i32)
    | F32(single: Bits32)
    | F64(double: Bits64)
    | Str(s: string)

  /** The transport's delivery modes; a client caller may pick any of them. */
  datatype Delivery = Unreliable | UnreliableSequenced | ReliableUnordered | ReliableSequenced | ReliableOrdered

  /**
   An outgoing application message: the message-type name whose negotiated
   code leads it, the recipients, the body written after the code, and how
   it is delivered.
   */
  datatype Send = Send(ident: string, to: seq<Conn>, body: seq<Field>, mode: Delivery, channel: nat)

  datatype Option<T> = None | Some(value: T)

  /** The exceptions the source's dictionary and array accesses raise. */
  datatype Error = KeyNotFound(key: string) | NullReference

  datatype Result<T> = Ok(value: T) | Err(error: Error)

  /** No element occurs twice. */
  ghost predicate Distinct<T>(s: seq<T>)
  {
    forall i, j :: 0 <= i < j < |s| ==> s[i] != s[j]
  }
}
