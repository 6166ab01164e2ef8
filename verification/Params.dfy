/** The C types and the constants of types.h, param.h and stat.h that several modules use. */
module Params {

  const FSSIZE: nat := 1000  // blocks of the file system image
  const NPROC: nat := 64

  const T_DIR: nat := 1
  const T_FILE: nat := 2

  type Byte = b: int | 0 <= b < 256
  type Word = w: int | 0 <= w < 0x1_0000_0000

  datatype Option<T> = None | Some(value: T)
}
