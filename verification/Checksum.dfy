/**
 The Internet checksum (RFC 1071) as the TCP dump writer computes it: 16-bit words
 loaded in the byte order of the machine, added up in 32 bits, folded twice.
 */
module Checksum {
  import opened Bytes

  /** Adds the upper half of a sum to its lower half. */
  function Fold(sum: int): int {
    sum / TWO16 + sum % TWO16
  }

  /** The words of the data added up; an odd byte at the end is padded with zero. */
  function WordSum(order: Order, data: seq<Byte>): (s: nat) {
    if |data| == 0 then 0
    else if |data| == 1 then Load16(order, data[0], 0)
    else Load16(order, data[0], data[1]) + WordSum(order, data[2..])
  }

  /** The ones' complement value of a sum: 0 only for 0, otherwise 1 to 0xffff. */
  function Canon(s: nat): (c: nat)
    ensures c < TWO16
  {
    if s == 0 then 0 else (s - 1) % 65535 + 1
  }

  /** The checksum of the data, on top of a start value. */
  function Cksum(order: Order, data: seq<Byte>, start: nat): (c: nat)
    ensures c < TWO16
  {
    Canon(start + WordSum(order, data))
  }

  function Swap16(w: int): (r: int)
    requires 0 <= w < TWO16
    ensures 0 <= r < TWO16
  {
    256 * (w % 256) + w / 256
  }

  /** A value in network order, loaded by the machine. */
  function Ntohs(order: Order, w: int): (r: int)
    requires 0 <= w < TWO16
    ensures 0 <= r < TWO16
  {
    match order
    case LittleEndian => Swap16(w)
    case BigEndian => w
  }

  // -------------------------------------------------------------- the loop

  lemma ModAdd(x: int, q: int)
    ensures (x + TWO32 * q) % TWO32 == x % TWO32
  {
    var r := x / TWO32;
    assert x + TWO32 * q == TWO32 * (r + q) + x % TWO32;
  }

  lemma AddWrapped(a: int, b: int)
    ensures (a % TWO32 + b) % TWO32 == (a + b) % TWO32
  {
    var q := a / TWO32;
    assert a == TWO32 * q + a % TWO32;
    ModAdd(a % TWO32 + b, q);
  }

  /** The loop over the words, with its wrapping additions. */
  method AddWords(order: Order, data: seq<Byte>, start: nat) returns (sum: nat)
    requires start < TWO32
    ensures sum == (start + WordSum(order, data)) % TWO32
  {
    sum := start;
    var rest := data;
    while |rest| >= 2
      invariant sum < TWO32
      invariant (sum + WordSum(order, rest)) % TWO32 == (start + WordSum(order, data)) % TWO32
      decreases |rest|
    {
      AddWrapped(sum + Load16(order, rest[0], rest[1]), WordSum(order, rest[2..]));
      sum := (sum + Load16(order, rest[0], rest[1])) % TWO32;
      rest := rest[2..];
    }
    if |rest| == 1 {
      var part: int := rest[0];
      sum := (sum + Ntohs(order, part * 256)) % TWO32;
    }
  }

  /** Sums that differ by a multiple of 0xffff have the same value, zero aside. */
  lemma CanonUnique(s: nat, x: nat, k: int)
    requires s == x + 65535 * k
    requires 0 < x <= 65535 && 0 < s
    ensures Canon(s) == x
  {
    assert s - 1 == 65535 * k + (x - 1);
  }

  /** Two folds of any 32-bit sum fit in 16 bits and keep its value. */
  lemma FoldTwice(s: int)
    requires 0 <= s < TWO32
    ensures 0 <= Fold(Fold(s)) < TWO16
    ensures Fold(Fold(s)) == Canon(s)
  {
    var h, l := s / TWO16, s % TWO16;
    var t := h + l;
    assert s == TWO16 * h + l && t < 2 * TWO16 - 1;
    var u := t / TWO16 + t % TWO16;
    if s > 0 {
      assert s == u + 65535 * (h + t / TWO16);
      CanonUnique(s, u, h + t / TWO16);
    }
  }

  /**
   The sum of the words, folded twice.  The result always fits in 16 bits; it is the
   checksum unless the sum has wrapped at 32 bits.
   */
  method ComputeCksum(order: Order, data: seq<Byte>, start: nat) returns (sum: nat)
    requires start < TWO32
    ensures sum < TWO16
    ensures sum == Canon((start + WordSum(order, data)) % TWO32)
    ensures start + WordSum(order, data) < TWO32 ==> sum == Cksum(order, data, start)
  {
    sum := AddWords(order, data, start);
    FoldTwice(sum);
    sum := Fold(sum);
    sum := Fold(sum);
  }

  // ------------------------------------------------- ones' complement value

  lemma CanonParts(s: nat) returns (k: nat)
    ensures s == Canon(s) + 65535 * k
    ensures s == 0 <==> Canon(s) == 0
  {
    k := if s == 0 then 0 else (s - 1) / 65535;
  }

  /** A part of a sum may be folded before the rest is added. */
  lemma CanonAdd(a: nat, b: nat)
    ensures Canon(Canon(a) + b) == Canon(a + b)
  {
    var k := CanonParts(a);
    var m := CanonParts(Canon(a) + b);
    if a + b > 0 {
      CanonUnique(a + b, Canon(Canon(a) + b), k + m);
    }
  }

  lemma CanonCongruent(a: nat, b: nat, k: int)
    requires a == b + 65535 * k && (a == 0 <==> b == 0)
    ensures Canon(a) == Canon(b)
  {
    var m := CanonParts(b);
    if b > 0 {
      CanonUnique(a, Canon(b), k + m);
    }
  }

  /** Adding the complement of a sum's value gives all ones. */
  lemma CanonComplement(s: nat)
    ensures Canon(s + (65535 - Canon(s))) == 65535
  {
    var k := CanonParts(s);
    CanonUnique(s + (65535 - Canon(s)), 65535, k);
  }

  // ----------------------------------------------------- sums over the data

  /** The bytes added up with weights 256 and 1 in turn, beginning with 256 or with 1. */
  function Weighted(data: seq<Byte>, high: bool): nat {
    if data == [] then 0 else (if high then 256 else 1) * data[0] + Weighted(data[1..], !high)
  }

  /**
   The sum of the words is that of the single bytes, each by its place in its word: the
   first byte of a word counts 256-fold in network order, also one that ends the data.
   */
  lemma {:induction false} WordSumIs(order: Order, data: seq<Byte>)
    ensures WordSum(order, data) == Weighted(data, order == BigEndian)
    decreases |data|
  {
    var high := order == BigEndian;
    if data == [] {
      assert Weighted(data, high) == 0;
    } else if |data| == 1 {
      assert data[1..] == [];
    } else {
      assert data[1..][1..] == data[2..];
      assert Weighted(data, high) ==
             (if high then 256 else 1) * data[0] + (if high then 1 else 256) * data[1] + Weighted(data[2..], high);
      WordSumIs(order, data[2..]);
    }
  }

  lemma {:induction false} WeightedZero(data: seq<Byte>, high: bool)
    ensures Weighted(data + [0], high) == Weighted(data, high)
  {
    if data == [] {
      assert (data + [0])[1..] == [];
    } else {
      assert (data + [0])[1..] == data[1..] + [0];
      WeightedZero(data[1..], !high);
    }
  }

  /** A zero byte at the end changes neither sum nor checksum. */
  lemma PaddedByte(order: Order, data: seq<Byte>, start: nat)
    ensures WordSum(order, data + [0]) == WordSum(order, data)
    ensures Cksum(order, data + [0], start) == Cksum(order, data, start)
  {
    WordSumIs(order, data);
    WordSumIs(order, data + [0]);
    WeightedZero(data, order == BigEndian);
  }

  /** A checksum of all ones: the sum in network order is a positive multiple of 0xffff. */
  lemma AllOnesMeans(data: seq<Byte>)
    ensures Cksum(BigEndian, data, 0) == 0xffff <==> Weighted(data, true) > 0 && Weighted(data, true) % 0xffff == 0
  {
    WordSumIs(BigEndian, data);
  }

  lemma {:induction false} WordSumBound(order: Order, data: seq<Byte>)
    ensures WordSum(order, data) <= 65535 * ((|data| + 1) / 2)
  {
    if |data| >= 2 { WordSumBound(order, data[2..]); }
  }

  /** On data no longer than 65534 words no addition overflows. */
  lemma NoOverflow(order: Order, data: seq<Byte>, start: nat)
    requires start <= 0x1fffe && |data| <= 0x1fffc
    ensures start + WordSum(order, data) < TWO32
  {
    WordSumBound(order, data);
  }

  lemma {:induction false} WordSumConcat(order: Order, a: seq<Byte>, b: seq<Byte>)
    requires |a| % 2 == 0
    ensures WordSum(order, a + b) == WordSum(order, a) + WordSum(order, b)
  {
    if a == [] {
      assert a + b == b;
    } else {
      WordSumConcat(order, a[2..], b);
      assert (a + b)[2..] == a[2..] + b;
    }
  }

  lemma WordSumPair(order: Order, w: seq<Byte>)
    requires |w| == 2
    ensures WordSum(order, w) == Load16(order, w[0], w[1])
  {
    assert w[2..] == [];
  }

  /** Two calls in a chain give what one call over the joined data gives. */
  lemma CksumChain(order: Order, a: seq<Byte>, b: seq<Byte>, start: nat)
    requires |a| % 2 == 0
    ensures Cksum(order, b, Cksum(order, a, start)) == Cksum(order, a + b, start)
  {
    WordSumConcat(order, a, b);
    CanonAdd(start + WordSum(order, a), WordSum(order, b));
  }

  lemma SplitSum(order: Order, a: seq<Byte>, w: seq<Byte>, b: seq<Byte>)
    requires |a| % 2 == 0 && |w| == 2
    ensures WordSum(order, a + w + b) == WordSum(order, a) + Load16(order, w[0], w[1]) + WordSum(order, b)
  {
    WordSumConcat(order, a + w, b);
    WordSumConcat(order, a, w);
    WordSumPair(order, w);
  }

  /** A word added to a checksum stands for two more bytes of data. */
  lemma CksumWord(order: Order, a: seq<Byte>, w: seq<Byte>, b: seq<Byte>)
    requires |a| % 2 == 0 && |w| == 2
    ensures Cksum(order, b, Cksum(order, a, 0) + Load16(order, w[0], w[1])) == Cksum(order, a + w + b, 0)
  {
    SplitSum(order, a, w, b);
    CanonAdd(WordSum(order, a), Load16(order, w[0], w[1]) + WordSum(order, b));
  }

  // ------------------------------------------------------------ byte order

  /** Words in one order are the words in the other, 256-fold, up to multiples of 0xffff. */
  lemma {:induction false} WordSumSwapped(data: seq<Byte>) returns (k: int)
    ensures 256 * WordSum(BigEndian, data) == WordSum(LittleEndian, data) + 65535 * k
    ensures WordSum(BigEndian, data) == 0 <==> WordSum(LittleEndian, data) == 0
  {
    if |data| == 0 {
      k := 0;
    } else if |data| == 1 {
      k := data[0];
    } else {
      k := WordSumSwapped(data[2..]);
      k := k + data[0];
    }
  }

  lemma CanonTimes256(s: nat)
    ensures Canon(256 * s) == Swap16(Canon(s))
  {
    var k := CanonParts(s);
    var c := Canon(s);
    assert 256 * c == Swap16(c) + 65535 * (c / 256);
    assert 256 * s == Swap16(c) + 65535 * (c / 256 + 256 * k);
    if s > 0 {
      CanonUnique(256 * s, Swap16(c), c / 256 + 256 * k);
    }
  }

  /** Machines of the two byte orders compute checksums that are byte swaps of each other. */
  lemma CksumByteOrder(data: seq<Byte>)
    ensures Cksum(LittleEndian, data, 0) == Swap16(Cksum(BigEndian, data, 0))
  {
    var k := WordSumSwapped(data);
    CanonTimes256(WordSum(BigEndian, data));
    CanonCongruent(256 * WordSum(BigEndian, data), WordSum(LittleEndian, data), k);
  }

  lemma SwapOnes(w: int)
    requires 0 <= w < TWO16
    ensures Swap16(w) == 0xffff <==> w == 0xffff
  {
  }

  lemma AllOnesInEitherOrder(data: seq<Byte>, a: Order, b: Order)
    requires Cksum(a, data, 0) == 0xffff
    ensures Cksum(b, data, 0) == 0xffff
  {
    CksumByteOrder(data);
    SwapOnes(Cksum(BigEndian, data, 0));
  }

  // ------------------------------------------------------- stored checksums

  /** Storing a word over two zero bytes adds it to the sum. */
  lemma StoredWordAdds(order: Order, a: seq<Byte>, w: int, b: seq<Byte>)
    requires |a| % 2 == 0 && 0 <= w < TWO16
    ensures WordSum(order, a + Store16(order, w) + b) == WordSum(order, a + [0, 0] + b) + w
  {
    var zeros: seq<Byte> := [0, 0];
    SplitSum(order, a, zeros, b);
    SplitSum(order, a, Store16(order, w), b);
  }

  /**
   Data with two zero bytes at an even place: with the complement of the data's checksum
   stored there, in the machine's own order, the whole folds to all ones in either order.
   */
  lemma StoredChecksumVerifies(order: Order, a: seq<Byte>, b: seq<Byte>, verifier: Order)
    requires |a| % 2 == 0
    ensures var sum := Cksum(order, a + [0, 0] + b, 0);
            Cksum(verifier, a + Store16(order, 0xffff - sum) + b, 0) == 0xffff
  {
    var sum := Cksum(order, a + [0, 0] + b, 0);
    StoredWordAdds(order, a, 0xffff - sum, b);
    CanonComplement(WordSum(order, a + [0, 0] + b));
    AllOnesInEitherOrder(a + Store16(order, 0xffff - sum) + b, order, verifier);
  }
}
