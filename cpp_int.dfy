/** The range of the C++ `int` the program computes with (32 bits on the
    platforms it targets). Dafny integers are unbounded, so every place where
    the program could leave this range is bounded explicitly. */
module CppInt {

  const IntMin: int := -0x8000_0000
  const IntMax: int := 0x7FFF_FFFF

  predicate IsInt32(v: int) {
    IntMin <= v <= IntMax
  }
}
