// Error numbers; functions return them negated.
module Errno {
  const ENOENT := 2
  const ESRCH := 3
  const EIO := 5
  const EBADF := 9
  const EAGAIN := 11
  const ENOMEM := 12
  const EACCES := 13
  const ENODEV := 19
  const ENOTDIR := 20
  const EISDIR := 21
  const EINVAL := 22
  const EMFILE := 24
  const EMLINK := 31
}
