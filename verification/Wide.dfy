/** UTF-16 code units and the machine words the console uses. */
module Wide {
  type wchar = x: int | 0 <= x < 0x1_0000
  type wstring = seq<wchar>
  type word = x: int | 0 <= x < 0x1_0000
  type byte = x: int | 0 <= x < 0x100

  predicate IsSurrogate(c: wchar) { 0xD800 <= c < 0xE000 }
  predicate IsLeading(c: wchar) { 0xD800 <= c < 0xDC00 }
  predicate IsTrailing(c: wchar) { 0xDC00 <= c < 0xE000 }
}
