/** Types that several of the modules share. */
module Common {

  type Byte = n: int | 0 <= n < 256
  type Bytes = seq<Byte>

  datatype Option<+T> = None | Some(value: T)
}
