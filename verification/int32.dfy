/** The range of the C++ `int` the program uses for sizes, counts and converted names. */
module Int32 {

  const IntMin: int := -0x8000_0000
  const IntMax: int := 0x7FFF_FFFF
}
