/** Shared vocabulary of the xengfx model: machine integer ranges, the page
    geometry, optional values and the kernel's negative errno convention. */
module Types {

  /** Unsigned machine words. Arithmetic on them is written out explicitly
      with `% Pow32` / `% Pow64` wherever the C code wraps. */
  const Pow32: int := 0x1_0000_0000
  const Pow64: int := 0x1_0000_0000_0000_0000

  type u32 = x: int | 0 <= x < 0x1_0000_0000
  type u64 = x: int | 0 <= x < 0x1_0000_0000_0000_0000

  /** Page geometry of the (x86) guest kernel. */
  const PageShift: nat := 12
  const PageSize: nat := 4096

  /** Reduction of an arbitrary C integer expression to `u32`, as an
      assignment to a `u32` variable does (two's complement wrap). */
  function U32(x: int): (r: u32)
    ensures (r - x) % Pow32 == 0
  {
    x % Pow32
  }

  /** Conversion of a `u32` to a signed `int`, as the C assignment of an
      unsigned value to an `int` does on two's-complement machines. */
  function ToInt32(u: u32): (r: int)
    ensures -0x8000_0000 <= r < 0x8000_0000
    ensures U32(r) == u
  {
    if u < 0x8000_0000 then u else u - Pow32
  }

  datatype Option<+T> = None | Some(value: T)

  /** A kernel error number, returned negated (`-ENOSPC`, ...). Any value an
      `ERR_PTR` can carry is in range. */
  type Errno = e: int | -4095 <= e <= -1 witness -1

  const EINTR: Errno := -4
  const EIO: Errno := -5
  const E2BIG: Errno := -7
  const EAGAIN: Errno := -11
  const ENOMEM: Errno := -12
  const EINVAL: Errno := -22
  const ENOSPC: Errno := -28
  const ERESTARTSYS: Errno := -512

  /** The `int` a kernel function returns: zero or a negated errno. */
  datatype Status = Ok | Err(errno: Errno)
}
