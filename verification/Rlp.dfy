/**
 Symbolic byte strings and RLP values. RLP marshalling and keccak are constructors, so both are
 injective, and a hash determines what was hashed.
 */
module Rlp {
  import opened Nibbles

  /** A byte string: given bytes, the keccak of a marshalled value, or a marshalled value. */
  datatype Buf = Raw(bytes: seq<Byte>) | Keccak(pre: Value) | Marshal(body: Value)

  datatype Value = Bytes(buf: Buf) | List(items: seq<Value>)

  const EMPTY := Raw([])
}
