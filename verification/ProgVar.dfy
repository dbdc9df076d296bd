/**
 How many bytes of a program variable a bulk copy takes.  A variable may have a length
 prefix, a maximum length and a terminator; the shortest of them counts.
 */
module ProgVar {
  import opened Bytes
  import opened TermScan
  import opened HostCodec

  /** A bound variable: `bindLen` -1 means no maximum; `fixedSize` is the size of a fixed type, or 0. */
  datatype Bound = Bound(prefixLen: int, bindLen: int, term: seq<Byte>, fixedSize: nat)
  {
    ghost predicate Valid() {
      -1 <= bindLen
    }
  }

  /** The bytes to convert, from behind the prefix on, or NULL. */
  datatype Taken = NullData | Take(len: int)

  /** The length in the variable's prefix; a width that is not known counts as 0. */
  function PrefixValue(order: Order, width: int, p: seq<Byte>): int
    requires |p| == PrefixBytes(width)
  {
    if width == 1 then p[0]
    else if width == 2 then Signed(Load16(order, p[0], p[1]), 0x1_0000)
    else if width == 4 then Signed(Load32(order, p), 0x1_0000_0000)
    else 0
  }

  /** The number in a prefix: one byte unsigned, two and four bytes signed, in the machine's order. */
  lemma PrefixValueIs(order: Order, width: int, p: seq<Byte>)
    requires |p| == PrefixBytes(width)
    ensures width == 1 ==> PrefixValue(order, width, p) == p[0]
    ensures width == 2 ==>
              var n := if order == BigEndian then Digits(p[0], p[1]) else Digits(p[1], p[0]);
              PrefixValue(order, width, p) == if n >= 0x8000 then n - 0x1_0000 else n
    ensures width == 4 ==>
              var hi := if order == BigEndian then Digits(p[0], p[1]) else Digits(p[3], p[2]);
              var lo := if order == BigEndian then Digits(p[2], p[3]) else Digits(p[1], p[0]);
              var n := hi * 0x1_0000 + lo;
              PrefixValue(order, width, p) == if n >= 0x8000_0000 then n - 0x1_0000_0000 else n
    ensures width !in {1, 2, 4} ==> PrefixValue(order, width, p) == 0
  {
  }

  /** Looks for the terminator byte by byte. */
  method GetTermVar(data: seq<Byte>, term: seq<Byte>) returns (bufpos: nat)
    requires term != [] && TermAt(data, term) >= 0
    ensures bufpos == TermAt(data, term)
  {
    bufpos := 0;
    var rest := data;
    while !(term <= rest)
      invariant bufpos + TermAt(rest, term) == TermAt(data, term) && TermAt(rest, term) >= 0
      decreases |rest|
    {
      rest := rest[1..];
      bufpos := bufpos + 1;
    }
  }

  /** The memory holds the prefix and, if there is one, the terminator. */
  ghost predicate Readable(b: Bound, mem: seq<Byte>) {
    && PrefixBytes(b.prefixLen) <= |mem|
    && (b.term != [] ==> TermAt(mem[PrefixBytes(b.prefixLen)..], b.term) >= 0)
  }

  /** The limits that are given for a variable: prefix, maximum, place of the terminator. */
  ghost function Limits(order: Order, b: Bound, mem: seq<Byte>): seq<int>
    requires Readable(b, mem)
  {
    var w := PrefixBytes(b.prefixLen);
    (if b.prefixLen > 0 then [PrefixValue(order, b.prefixLen, mem[..w])] else [])
    + (if b.bindLen >= 0 then [b.bindLen] else [])
    + (if b.term != [] then [TermAt(mem[w..], b.term)] else [])
  }

  ghost predicate IsLeast(x: int, s: seq<int>) {
    x in s && forall y | y in s :: x <= y
  }

  /** The outcome in one expression. */
  ghost function Rule(order: Order, b: Bound, mem: seq<Byte>): Taken
    requires Readable(b, mem)
  {
    var w := PrefixBytes(b.prefixLen);
    var prefix := PrefixValue(order, b.prefixLen, mem[..w]);
    if (b.prefixLen > 0 && prefix <= 0) || b.bindLen == 0 then NullData
    else
      var given := if b.fixedSize > 0 then b.fixedSize
                   else if b.prefixLen > 0 then (if 0 < b.bindLen < prefix then b.bindLen else prefix)
                   else if b.bindLen > 0 then b.bindLen
                   else 0;
      if b.term == [] then Take(given)
      else
        var t := TermAt(mem[w..], b.term);
        if t == 0 then NullData else Take(if given == 0 || t < given then t else given)
  }

  /** NULL exactly when a given limit is zero or negative. */
  lemma NullRule(order: Order, b: Bound, mem: seq<Byte>)
    requires b.Valid() && Readable(b, mem)
    ensures Rule(order, b, mem) == NullData <==> exists x :: x in Limits(order, b, mem) && x <= 0
  {
    var w := PrefixBytes(b.prefixLen);
    var p := if b.prefixLen > 0 then [PrefixValue(order, b.prefixLen, mem[..w])] else [];
    var m := if b.bindLen >= 0 then [b.bindLen] else [];
    var t := if b.term != [] then [TermAt(mem[w..], b.term)] else [];
    assert Limits(order, b, mem) == p + m + t;
    assert forall x :: x in p + m + t <==> x in p || x in m || x in t;
    assert b.prefixLen > 0 ==> p[0] in p;
    assert b.bindLen >= 0 ==> m[0] in m;
    assert b.term != [] ==> t[0] in t;
  }

  /** Otherwise a variable of varying size gives as many bytes as the least of its limits. */
  lemma LeastRule(order: Order, b: Bound, mem: seq<Byte>)
    requires b.Valid() && Readable(b, mem) && b.fixedSize == 0
    requires Limits(order, b, mem) != [] && Rule(order, b, mem) != NullData
    ensures IsLeast(Rule(order, b, mem).len, Limits(order, b, mem))
  {
    NullRule(order, b, mem);
    var w := PrefixBytes(b.prefixLen);
    var p := if b.prefixLen > 0 then [PrefixValue(order, b.prefixLen, mem[..w])] else [];
    var m := if b.bindLen >= 0 then [b.bindLen] else [];
    var t := if b.term != [] then [TermAt(mem[w..], b.term)] else [];
    assert Limits(order, b, mem) == p + m + t;
    assert forall x :: x in p + m + t <==> x in p || x in m || x in t;
    assert b.prefixLen > 0 ==> p[0] in p;
    assert b.bindLen >= 0 ==> m[0] in m;
    assert b.term != [] ==> t[0] in t;
  }

  /** The steps by which the program finds the length. */
  method GetColData(order: Order, b: Bound, mem: seq<Byte>) returns (r: Taken)
    requires b.Valid() && Readable(b, mem)
    ensures r == Rule(order, b, mem)
    ensures r == NullData <==> exists x :: x in Limits(order, b, mem) && x <= 0
    ensures r != NullData && b.fixedSize == 0 && Limits(order, b, mem) != [] ==> IsLeast(r.len, Limits(order, b, mem))
  {
    NullRule(order, b, mem);
    if Rule(order, b, mem) != NullData && b.fixedSize == 0 && Limits(order, b, mem) != [] {
      LeastRule(order, b, mem);
    }
    var w := PrefixBytes(b.prefixLen);
    var collen := 0;
    if b.prefixLen > 0 {
      collen := PrefixValue(order, b.prefixLen, mem[..w]);
      if collen <= 0 {
        return NullData;
      }
    }
    if b.bindLen >= 0 {
      if b.bindLen == 0 {
        return NullData;
      }
      if collen != 0 {
        collen := if b.bindLen < collen then b.bindLen else collen;
      } else {
        collen := b.bindLen;
      }
    }
    if b.fixedSize > 0 {
      collen := b.fixedSize;
    }
    if |b.term| > 0 {
      var bytesRead := GetTermVar(mem[w..], b.term);
      if collen <= 0 || bytesRead < collen {
        collen := bytesRead;
      }
      if collen == 0 {
        return NullData;
      }
    }
    r := Take(collen);
  }

  /** The length is never negative, so the program never falls back on the length of a C string. */
  lemma NoStringLength(order: Order, b: Bound, mem: seq<Byte>)
    requires b.Valid() && Readable(b, mem)
    ensures Rule(order, b, mem) != NullData ==> Rule(order, b, mem).len >= 0
    ensures Limits(order, b, mem) == [] && b.fixedSize == 0 ==> Rule(order, b, mem) == Take(0)
  {
  }

  /** A variable of fixed size gives its size, or fewer bytes if the terminator comes first. */
  lemma FixedRule(order: Order, b: Bound, mem: seq<Byte>)
    requires b.Valid() && Readable(b, mem) && b.fixedSize > 0 && Rule(order, b, mem) != NullData
    ensures var len := Rule(order, b, mem).len;
            if b.term == [] then len == b.fixedSize
            else IsLeast(len, [b.fixedSize, TermAt(mem[PrefixBytes(b.prefixLen)..], b.term)])
  {
    if b.term != [] {
      var both := [b.fixedSize, TermAt(mem[PrefixBytes(b.prefixLen)..], b.term)];
      assert both[0] in both && both[1] in both;
    }
  }
}
