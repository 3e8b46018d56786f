/** What the modelled C code takes for granted: integer widths, the size of the coverage map, and
    operations that may end the program. */
module Platform {
  const U32: nat := 0x1_0000_0000
  const INT_MAX: nat := 0x7fff_ffff
  const MAP_SIZE: nat := 0x1_0000

  /** The largest block `ck_alloc` and `ck_realloc` give out. */
  const MAX_ALLOC: nat := 0x4000_0000

  /** `Fatal` is a FATAL or PFATAL that ends the fuzzer. */
  datatype Outcome<T> = Done(value: T) | Fatal
}
