/** Hash functions, of which only the digest length is known, and big-endian
    numbers in what they hash. */
module Hashing {
  import opened Results
  import opened Bytes

  /** A hash function, or HMAC with its key, on the concatenated input. */
  type Hash = seq<byte> -> seq<byte>

  ghost predicate IsHash(h: Hash, len: nat) { len > 0 && forall x {:trigger h(x)} :: |h(x)| == len }

  function Be32(n: nat): seq<byte> { ToBE(n, 4) }
  function OptBytes(x: Option<seq<byte>>): seq<byte> { if x.Some? then x.value else [] }
}
