/** status.h: error numbers, returned negated. */
module StatusCodes {
  const EIO := 1
  const EINVARG := 2
  const ENOMEM := 3
  const EUNIMP := 7
}
