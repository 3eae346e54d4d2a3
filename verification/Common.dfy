/** Vocabulary shared by the models: optional values, bytes, error numbers and machine limits. */
module Common {

  datatype Option<+T> = None | Some(value: T)

  type byte = x: nat | x < 256

  const U32: nat := 0x1_0000_0000
  const U64: nat := 0x1_0000_0000_0000_0000
  const PAGE_SIZE: nat := 4096

  const EIO: int := 5
  const ENOMEM: int := 12
  const EFAULT: int := 14
  const EBUSY: int := 16
  const EEXIST: int := 17
  const ENODEV: int := 19
  const EINVAL: int := 22
  const ETIMEDOUT: int := 110

  /** The bytes of a sequence of fragments. */
  function Flatten(frags: seq<seq<byte>>): seq<byte>
  {
    if frags == [] then [] else frags[0] + Flatten(frags[1..])
  }
}
