/** Tag bytes, offset tables, value types and the pure helpers shared by the
    SCSU encoder and decoder (Unicode Technical Standard #6, section 5). */
module ScsuTables {

  /** One byte of an SCSU stream. */
  type Byte = b: int | 0 <= b < 0x100

  /** One UTF-16 code unit, as returned by `charCodeAt`. */
  type Unit = u: int | 0 <= u < 0x10000

  /** The failures the coder raises, each with its numeric code. */
  datatype Error =
    | Internal               // 0x00: a helper was called outside its domain
    | EndedPrematurely       // 0x11
    | UnpairedLowSurrogate   // 0x12
    | UnpairedHighSurrogate  // 0x13
    | ZeroOffset             // 0x14
    | BadOffset              // 0x15
    | ReservedByte           // 0x16: the byte SRS (0x0C) was found
  {
    function Code(): (c: int)
      ensures c == 0 || 0x11 <= c <= 0x16
      ensures this == Internal <==> c == 0
    {
      match this
      case Internal => 0x00
      case EndedPrematurely => 0x11
      case UnpairedLowSurrogate => 0x12
      case UnpairedHighSurrogate => 0x13
      case ZeroOffset => 0x14
      case BadOffset => 0x15
      case ReservedByte => 0x16
    }
  }

  datatype Result<T> = Ok(value: T) | Err(error: Error)

  /** The outcome of an operation that returns nothing but may throw. */
  datatype Outcome = Pass | Fail(error: Error)

  datatype Option<T> = None | Some(value: T)

  // Single-byte mode tags
  const SQ0: Byte := 0x01  // quote from window 0; SQ1..SQ7 are 0x02..0x08
  const SDX: Byte := 0x0B  // define extended
  const Srs: Byte := 0x0C  // reserved
  const SQU: Byte := 0x0E  // quote one Unicode character
  const SCU: Byte := 0x0F  // change to Unicode mode
  const SC0: Byte := 0x10  // select window 0; SC1..SC7 are 0x11..0x17
  const SD0: Byte := 0x18  // define window 0; SD1..SD7 are 0x19..0x1F

  // Unicode mode tags
  const UC0: Byte := 0xE0  // select window 0 and change to single-byte mode
  const UD0: Byte := 0xE8  // define window 0 and change to single-byte mode
  const UQU: Byte := 0xF0  // quote one Unicode character
  const UDX: Byte := 0xF1  // define extended and change to single-byte mode
  const Urs: Byte := 0xF2  // reserved

  const GapThreshold := 0x68
  const GapOffset := 0xAC00
  const ReservedStart := 0xA8
  const FixedThreshold := 0xF9

  const FixedOffset: seq<int> := [0x00C0, 0x0250, 0x0370, 0x0530, 0x3040, 0x30A0, 0xFF60]
  const StaticOffset: seq<int> := [0x0000, 0x0080, 0x0100, 0x0300, 0x2000, 0x2080, 0x2100, 0x3000]
  const InitialDynamicOffset: seq<int> := [0x0080, 0x00C0, 0x0400, 0x0600, 0x0900, 0x3040, 0x30A0, 0xFF00]

  /** The 128-code-point window starting at `offset` holds `ch`. */
  predicate InWindow(ch: int, offset: int) {
    offset <= ch < offset + 0x80
  }

  /** Outside the CJK and Hangul gap [0x3400, 0xE000) that no window covers. */
  predicate IsCompressible(ch: int) {
    ch < 0x3400 || ch >= 0xE000
  }

  /** Printable ASCII, DEL, or one of TAB, LF, CR. */
  predicate IsAsciiCrLfOrTab(ch: int) {
    (0x20 <= ch <= 0x7F) || ch == 0x09 || ch == 0x0A || ch == 0x0D
  }

  /** `(ch & 0xF800) == 0xD800` on a code unit. */
  predicate IsSurrogate(ch: int) {
    0xD800 <= ch < 0xE000
  }

  /** `(ch & 0xFC00) == 0xDC00` on a code unit. */
  predicate IsLowSurrogate(ch: int) {
    0xDC00 <= ch < 0xE000
  }

  predicate NoSurrogates(s: seq<Unit>) {
    forall i :: 0 <= i < |s| ==> !IsSurrogate(s[i])
  }

  /** The big-endian 16-bit value of two bytes; its bytes are `hi` and `lo` again. */
  function CharFromTwoBytes(hi: Byte, lo: Byte): (c: Unit)
    ensures c / 0x100 == hi && c % 0x100 == lo
  {
    hi * 0x100 + lo
  }

  /** `String.fromCharCode`: the value is reduced modulo 2^16 (ToUint16). */
  function FromCharCode(x: int): (u: Unit)
    ensures 0 <= x < 0x10000 ==> u == x
  {
    x % 0x10000
  }

  /** The code point of a high/low surrogate pair. */
  function CombineSurrogates(hi: int, lo: int): (cp: int)
    requires 0xD800 <= hi < 0xDC00 && IsLowSurrogate(lo)
    ensures 0x10000 <= cp <= 0x10FFFF
    ensures (cp - 0x10000) / 0x400 == hi - 0xD800 && (cp - 0x10000) % 0x400 == lo - 0xDC00
  {
    (hi - 0xD800) * 0x400 + (lo - 0xDC00) + 0x10000
  }
}
