/** Constants and small types shared by the test_rpi firmware (common.h) and
    the error numbers its callbacks return. */
module Common {

  /** One C `char` / `uint8_t` cell of a buffer. */
  type Byte = b: int | 0 <= b < 256

  /** PROC_MSG_SIZE: the size of every message buffer (str_data, i2cbuffer,
      data_out and the out_msgq slot). */
  const MsgSize: nat := 8

  /** I2C_REG_UPTIME, which is also I2C_REG_DEFAULT. Any other register byte
      is unsupported. */
  const RegUptime: Byte := 0

  /** The positive errno values the I2C callbacks return negated. */
  const EIO: int := 5
  const ENOMEM: int := 12

  /** INT_MAX of the 32-bit target: the largest value `%d` prints unchanged. */
  const IntMax: nat := 0x7FFF_FFFF

  /** The ASCII code of the character '0'. */
  const Zero: Byte := 48

  datatype Option<+T> = None | Some(value: T)

  /** `n` zero bytes. */
  function Zeros(n: nat): (z: seq<Byte>)
    ensures |z| == n && forall i :: 0 <= i < n ==> z[i] == 0
  {
    seq(n, _ => 0)
  }

  function Min(a: int, b: int): int
  {
    if a <= b then a else b
  }
}
