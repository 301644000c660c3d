/** The sizes of machine words. */
module Words {

  const TWO31 := 0x8000_0000
  const TWO32 := 0x1_0000_0000
  const TWO63 := 0x8000_0000_0000_0000
  const TWO64 := 0x1_0000_0000_0000_0000
  const MAX_INT64: int := TWO63 - 1

  type Int64 = x: int | -TWO63 <= x < TWO63
}
