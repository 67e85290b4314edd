/** Shared vocabulary: optional values, bytes, digests and powers of two. */
module Prelude {

  datatype Option<+T> = None | Some(value: T) {
    function GetOr(default: T): T {
      match this
      case Some(v) => v
      case None => default
    }
  }

  type Byte = bv8
  type Bytes = seq<Byte>
  type Digest = string
  type Url = string

  /** Python truthiness of an optional header: present and not the empty string. */
  predicate Truthy(s: Option<string>) {
    s.Some? && s.value != ""
  }

  /** `fresh if fresh is not None else old` */
  function Coalesce<T>(sent: Option<T>, kept: Option<T>): Option<T> {
    if sent.Some? then sent else kept
  }

  function Pow2(n: nat): (p: nat)
    ensures p >= 1
  {
    if n == 0 then 1 else 2 * Pow2(n - 1)
  }

  function Concat(chunks: seq<Bytes>): Bytes {
    if chunks == [] then [] else Concat(chunks[..|chunks| - 1]) + chunks[|chunks| - 1]
  }

  ghost predicate Injective(h: Bytes -> Digest) {
    forall a: Bytes, b: Bytes :: h(a) == h(b) ==> a == b
  }
}
