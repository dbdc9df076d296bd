/** Bytes, and the ways a machine lays numbers out in them. */
module Bytes {

  type Byte = x: int | 0 <= x < 256
  const TWO16: int := 0x1_0000
  const TWO32: int := 0x1_0000_0000

  /** The byte order of the machine the program runs on. */
  datatype Order = LittleEndian | BigEndian

  /** A number of two digits to the base 256. */
  function Digits(high: int, low: int): int {
    256 * high + low
  }

  /** A 16-bit number loaded from two adjacent bytes. */
  function Load16(order: Order, a: Byte, b: Byte): (w: int)
    ensures 0 <= w < 0x1_0000
  {
    match order
    case LittleEndian => a + 256 * b
    case BigEndian => 256 * a + b
  }

  function Store16(order: Order, w: int): (s: seq<Byte>)
    requires 0 <= w < 0x1_0000
    ensures |s| == 2 && Load16(order, s[0], s[1]) == w
  {
    match order
    case LittleEndian => [w % 256, w / 256]
    case BigEndian => [w / 256, w % 256]
  }

  function Store32(order: Order, n: int): (s: seq<Byte>)
    requires 0 <= n < 0x1_0000_0000
    ensures |s| == 4
  {
    match order
    case LittleEndian => Store16(order, n % 0x1_0000) + Store16(order, n / 0x1_0000)
    case BigEndian => Store16(order, n / 0x1_0000) + Store16(order, n % 0x1_0000)
  }

  function Load32(order: Order, s: seq<Byte>): (n: int)
    requires |s| == 4
    ensures 0 <= n < 0x1_0000_0000
  {
    match order
    case LittleEndian => Load16(order, s[0], s[1]) + 0x1_0000 * Load16(order, s[2], s[3])
    case BigEndian => 0x1_0000 * Load16(order, s[0], s[1]) + Load16(order, s[2], s[3])
  }

  lemma LoadStore32(order: Order, n: int)
    requires 0 <= n < 0x1_0000_0000
    ensures Load32(order, Store32(order, n)) == n
  {
    var s := Store32(order, n);
    var lo, hi := Store16(order, n % 0x1_0000), Store16(order, n / 0x1_0000);
    match order
    case LittleEndian => assert s[0] == lo[0] && s[1] == lo[1] && s[2] == hi[0] && s[3] == hi[1];
    case BigEndian => assert s[0] == hi[0] && s[1] == hi[1] && s[2] == lo[0] && s[3] == lo[1];
  }

  lemma Assoc(a: seq<Byte>, b: seq<Byte>, c: seq<Byte>)
    ensures (a + b) + c == a + (b + c)
  {
  }

  lemma NextPrefix<T>(s: seq<T>, i: nat)
    requires i < |s|
    ensures s[..i + 1] == s[..i] + [s[i]]
  {
  }
}
