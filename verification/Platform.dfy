/** What the code takes from its platform: error numbers, the range of an unsigned integer, and the
    string terminator. */
module Platform {
  const EACCES := 0x02
  const EINVAL := 0x1c
  const EIO := 0x1d
  const ENOENT := 0x2d
  const ENOMEM := 0x31
  const ENOTSUP := 0x3c
  const ENOTTY := 0x3d
  const ENXIO := 0x3e
  const ERANGE := 0x46
  const ESTALE := 0x4a

  /** A distinguishable case of an error number. */
  function Distinct(error: int, code: nat): int { 0x100 * error + code }

  /** Number of values of an `unsigned int`. */
  const UINT_MOD: nat := 0x1_0000_0000

  const NUL: char := '\0'
}
