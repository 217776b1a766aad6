/** Types that several parts of the model share. */
module Common {

  type Byte = x: int | 0 <= x < 0x100

  type Word16 = x: int | 0 <= x < 0x1_0000

  datatype Option<T> = None | Some(value: T)
}
