/** Fixed-width machine integers. Every arithmetic step on these types carries the proof
    obligation that it stays in range, so a verified body never wraps around or truncates. */
module Machine {
  newtype u8 = x: int | 0 <= x < 0x100
  newtype u64 = x: int | 0 <= x < 0x1_0000_0000_0000_0000
  newtype u128 = x: int | 0 <= x < 0x1_0000_0000_0000_0000_0000_0000_0000_0000
  newtype s32 = x: int | -0x8000_0000 <= x < 0x8000_0000
  newtype s64 = x: int | -0x8000_0000_0000_0000 <= x < 0x8000_0000_0000_0000
}
