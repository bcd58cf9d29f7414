/** The error codes the modelled functions return. */
module Errno {

  const ENOENT: int := -2
  const ENOMEM: int := -12
  const EINVAL: int := -22
  const ENOSPC: int := -28
  const EOVERFLOW: int := -75
  const ENOTSUP: int := -95
  const ETIMEDOUT: int := -110
}
