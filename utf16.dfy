/** JavaScript strings are sequences of UTF-16 code units: `length` counts
    units and `s[i]` reads one unit. */
module Utf16 {

  newtype CodeUnit = x: int | 0 <= x < 0x1_0000

  type Text = seq<CodeUnit>
}
