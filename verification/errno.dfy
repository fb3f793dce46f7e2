/** Linux error numbers that the message box system calls return, negated. */
module ErrNo {

  /** Out of memory: a kmalloc returned NULL. */
  const ENOMEM: int := 12

  /** Bad address: access_ok rejected the user buffer. */
  const EFAULT: int := 14

  /** Invalid argument: a negative length, or a capacity below the message length. */
  const EINVAL: int := 22

  /** Message too long: the copy across the user boundary left bytes behind. */
  const EMSGSIZE: int := 90

  /** The literal status returned by a get on an empty box (not an errno). */
  const EMPTY_STATUS: int := -1
}
