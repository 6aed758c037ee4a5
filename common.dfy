/**
 * Shared vocabulary of the PawPass admission engine: the C integer widths the
 * firmware relies on, the 12-byte tag identifier, and the unsigned 32-bit
 * clock arithmetic of `millis()`.
 */
module Common {

  /** Result of an operation that may have nothing to report. */
  datatype Option<+T> = None | Some(value: T)

  /** What an optional event contributes to a log of events: nothing or one entry. */
  function AsSeq<T>(o: Option<T>): (s: seq<T>)
    ensures o.None? ==> s == []
    ensures o.Some? ==> s == [o.value]
  {
    if o.Some? then [o.value] else []
  }

  /** `unsigned long` on the AVR target: 32 bits. */
  const TWO_POW_32: int := 0x1_0000_0000
  type u32 = x: int | 0 <= x < TWO_POW_32

  /** `uint8_t`. */
  const TWO_POW_8: int := 0x100
  type u8 = x: int | 0 <= x < TWO_POW_8

  /** `uint16_t`. */
  const TWO_POW_16: int := 0x1_0000
  type u16 = x: int | 0 <= x < TWO_POW_16

  /** Length of an EPC tag identifier, in bytes. */
  const EPC_LENGTH: nat := 12

  /** A complete tag identifier: exactly twelve bytes, compared byte for byte. */
  type Epc = s: seq<bv8> | |s| == EPC_LENGTH witness [0, 0, 0, 0, 0, 0, 0, 0, 0, 0, 0, 0]

  const ZERO_EPC: Epc := [0, 0, 0, 0, 0, 0, 0, 0, 0, 0, 0, 0]

  /**
   * `now - since` computed on `unsigned long`: the difference modulo 2^32, so an
   * earlier `since` that is numerically larger (the clock wrapped) still gives the
   * time that passed.
   */
  function Elapsed(now: u32, since: u32): (d: u32)
    ensures since <= now ==> d == now - since
    ensures now < since ==> d == now - since + TWO_POW_32
  {
    (now - since) % TWO_POW_32
  }

  /** Casting an `int` to `uint16_t`: reduction modulo 2^16. */
  function ToU16(x: int): (r: u16)
    ensures 0 <= x < TWO_POW_16 ==> r == x
    ensures -TWO_POW_16 <= x < 0 ==> r == x + TWO_POW_16
  {
    x % TWO_POW_16
  }

  /** C's `/` on `int`: the quotient is truncated toward zero. */
  function CDiv(a: int, b: int): int
    requires b > 0
  {
    if a >= 0 then a / b else -((-a) / b)
  }

  /** C's `%` on `int`: the remainder takes the sign of the dividend. */
  function CRem(a: int, b: int): (r: int)
    requires b > 0
    ensures a == b * CDiv(a, b) + r
    ensures a >= 0 ==> 0 <= r < b
    ensures a < 0 ==> -b < r <= 0
  {
    if a >= 0 then a % b else -((-a) % b)
  }

  /** `isspace` in the "C" locale. */
  predicate IsSpace(c: char)
  {
    c == ' ' || c == '\t' || c == '\n' || c == '\r' || c == '\U{B}' || c == '\U{C}'
  }

  /** `isdigit`. */
  predicate IsDigit(c: char)
  {
    '0' <= c <= '9'
  }

  function DigitValue(c: char): (d: nat)
    requires IsDigit(c)
    ensures d < 10
  {
    (c - '0') as nat
  }

  /** `tolower` in the "C" locale: only ASCII capitals change. */
  function ToLower(c: char): (r: char)
    ensures 'A' <= c <= 'Z' ==> 'a' <= r <= 'z'
    ensures !('A' <= c <= 'Z') ==> r == c
  {
    if 'A' <= c <= 'Z' then (c - 'A' + 'a') else c
  }
}
