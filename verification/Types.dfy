// Fixed-width values and the optional value shared by every module.
module Types {
  const TWO_TO_THE_32 := 0x1_0000_0000

  type Word = x: int | 0 <= x < TWO_TO_THE_32
  type Byte = x: int | 0 <= x < 256

  datatype Option<+T> = None | Some(value: T)

  const SECTOR_SIZE := 512
  const SECTORS_PER_PAGE := 8

  // The least verdict that is a crash.
  const VERI_EREQUEST := 5
}
