/** JavaScript strings as the handlers see them: sequences of UTF-16 code units. */
module JsText {

  /** One UTF-16 code unit (what `charCodeAt` returns). */
  newtype CodeUnit = x: int | 0 <= x < 0x1_0000

  /** A JavaScript string. */
  type JsString = seq<CodeUnit>

  const Slash: CodeUnit := 0x2F
  const Dot: CodeUnit := 0x2E
  const Hyphen: CodeUnit := 0x2D
  const Underscore: CodeUnit := 0x5F

  predicate IsAsciiUpper(c: CodeUnit) { 0x41 <= c <= 0x5A }
  predicate IsAsciiLower(c: CodeUnit) { 0x61 <= c <= 0x7A }
  predicate IsAsciiDigit(c: CodeUnit) { 0x30 <= c <= 0x39 }
  predicate IsAscii(c: CodeUnit) { c < 0x80 }

  /** `s.startsWith(prefix)`: a comparison of code units, not of path segments. */
  predicate StartsWith(s: JsString, prefix: JsString)
  {
    |prefix| <= |s| && s[..|prefix|] == prefix
  }

  /** JavaScript truthiness of an optional string field: present and non-empty. */
  predicate IsTruthy(s: Option<JsString>)
  {
    s.Some? && s.value != []
  }

  /** `s || ''` on an optional string field. */
  function OrEmpty(s: Option<JsString>): (r: JsString)
    ensures IsTruthy(s) ==> r == s.value
    ensures !IsTruthy(s) ==> r == []
  {
    if s.Some? then s.value else []
  }

  /** A value that may be absent (`undefined` in the source). */
  datatype Option<+T> = None | Some(value: T)
}
