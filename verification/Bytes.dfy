/** Bytes and the effect of a write at an offset, as RADOS objects and POSIX files share it. */
module Bytes {
  type Byte = bv8

  /** A write at off extends the content and fills any gap with zeros. */
  function WriteAt(content: seq<Byte>, off: nat, data: seq<Byte>): seq<Byte> {
    seq(if |content| < off + |data| then off + |data| else |content|,
        i requires 0 <= i =>
          if off <= i < off + |data| then data[i - off] else if i < |content| then content[i] else 0)
  }
}
