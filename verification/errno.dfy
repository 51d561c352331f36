/** The errno values the modelled code sets or inspects (Linux numbering). */
module Errno {
  const EINTR: nat := 4
  const EIO: nat := 5
  const ENOENT: nat := 2
  const EACCES: nat := 13
  const EFAULT: nat := 14
  const EEXIST: nat := 17
  const ENOTDIR: nat := 20
  const EINVAL: nat := 22
  const ERANGE: nat := 34
}
