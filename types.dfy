/** Machine types, kernel error numbers and the constants of the driver's header. */
module Types {

  /** One byte of the event FIFO. */
  type Byte = b: int | 0 <= b < 256

  /** A 32-bit unsigned register or event word. */
  type U32 = x: int | 0 <= x < 0x1_0000_0000

  /** Linux error numbers; functions of the driver return their negation. */
  const EAGAIN := 11
  const ENOMEM := 12
  const EFAULT := 14
  const EBUSY := 16
  const EINVAL := 22
  const ERANGE := 34

  /** Offsets of the register window. */
  const ASIC_STATUS_REG := 0x00
  const ASIC_CONTROL_REG := 0x04
  const ASIC_DATA_REG := 0x08
  const ASIC_INT_MASK_REG := 0x0C

  /** Byte capacity of the event FIFO. */
  const EVENT_BUFFER_SIZE := 1024

  /** What an interrupt handler tells the kernel. */
  datatype IrqReturn = IrqNone | IrqHandled

  datatype Option<+T> = None | Some(value: T)

  /** A value or a negative error number. */
  datatype Result<+T> = Ok(value: T) | Err(code: int)

  function Min(a: int, b: int): (m: int)
    ensures m <= a && m <= b && (m == a || m == b)
  {
    if a <= b then a else b
  }

  lemma AppendAssoc<T>(a: seq<T>, b: seq<T>, c: seq<T>)
    ensures a + (b + c) == (a + b) + c
  {
  }
}
