/**
 Reading a terminated field from a host file.  The program keeps the last bytes read in a
 small rotating buffer and compares it with a doubled copy of the terminator, shifted by
 the rotation; this finds the first occurrence of the terminator.

 Character set conversion is not modelled: the bytes are copied.
 */
module TermScan {
  import opened Bytes

  /** An open file: its contents, the position, and the end-of-file indicator. */
  class File {
    const data: seq<Byte>
    var pos: nat
    var eof: bool

    ghost predicate Valid()
      reads this
    {
      pos <= |data|
    }

    ghost function Rest(): seq<Byte>
      requires Valid()
      reads this
    {
      data[pos..]
    }

    constructor (data: seq<Byte>)
      ensures Valid() && this.data == data && pos == 0 && !eof && Rest() == data
    {
      this.data, pos, eof := data, 0, false;
    }

    /** Reads `n` bytes, or what is left. */
    method Fread(n: nat) returns (got: seq<Byte>)
      requires Valid()
      modifies this
      ensures Valid()
      ensures |old(Rest())| >= n ==> got == old(Rest())[..n] && Rest() == old(Rest())[n..] && eof == old(eof)
      ensures |old(Rest())| < n ==> got == old(Rest()) && Rest() == [] && eof
      ensures pos == old(pos) + |got|
    {
      if pos + n <= |data| {
        got := data[pos..pos + n];
        pos := pos + n;
      } else {
        got := data[pos..];
        pos, eof := |data|, true;
      }
    }

    /** One byte, or -1 at the end. */
    method Getc() returns (c: int)
      requires Valid()
      modifies this
      ensures Valid()
      ensures old(pos) < |data| ==> c == data[old(pos)] && pos == old(pos) + 1 && eof == old(eof)
      ensures old(pos) == |data| ==> c == -1 && pos == old(pos) && eof
    {
      if pos < |data| {
        c := data[pos];
        pos := pos + 1;
      } else {
        c, eof := -1, true;
      }
    }
  }

  /** Where the terminator first occurs, or -1. */
  function TermAt(s: seq<Byte>, term: seq<Byte>): (k: int)
    ensures -1 <= k && (k >= 0 ==> k + |term| <= |s|)
  {
    if |s| < |term| || s == [] then (if term == [] then 0 else -1)
    else if term <= s then 0
    else
      var k := TermAt(s[1..], term);
      if k < 0 then -1 else k + 1
  }

  /** The terminator stands at `k`. */
  ghost predicate Occurs(s: seq<Byte>, term: seq<Byte>, k: nat) {
    k + |term| <= |s| && s[k..k + |term|] == term
  }

  /** The scan gives the first occurrence, if there is one. */
  lemma {:induction false} FirstOccurrence(s: seq<Byte>, term: seq<Byte>, k: nat)
    requires term != [] && Occurs(s, term, k)
    requires forall j: nat | j < k :: !Occurs(s, term, j)
    ensures TermAt(s, term) == k
  {
    if k == 0 {
      assert s[0..|term|] == s[..|term|];
    } else {
      assert s[1..][k - 1..k - 1 + |term|] == s[k..k + |term|];
      assert !Occurs(s, term, 0);
      assert s[0..|term|] == s[..|term|];
      forall j: nat | j < k - 1
        ensures !Occurs(s[1..], term, j)
      {
        assert j + 1 + |term| <= |s| ==> s[1..][j..j + |term|] == s[j + 1..j + 1 + |term|];
        assert !Occurs(s, term, j + 1);
      }
      FirstOccurrence(s[1..], term, k - 1);
    }
  }

  lemma {:induction false} NoOccurrence(s: seq<Byte>, term: seq<Byte>)
    requires term != [] && forall j: nat | j + |term| <= |s| :: !Occurs(s, term, j)
    ensures TermAt(s, term) == -1
  {
    if |s| >= |term| {
      assert !Occurs(s, term, 0);
      assert s[0..|term|] == s[..|term|];
      forall j: nat | j + |term| <= |s[1..]|
        ensures !Occurs(s[1..], term, j)
      {
        assert s[1..][j..j + |term|] == s[j + 1..j + 1 + |term|];
        assert !Occurs(s, term, j + 1);
      }
      NoOccurrence(s[1..], term);
    }
  }

  /** The rotating buffer read from its oldest byte on. */
  function Unrolled(left: seq<Byte>, leftPos: nat): seq<Byte>
    requires leftPos < |left|
  {
    left[leftPos..] + left[..leftPos]
  }

  /**
   Comparing the buffer as it lies with the doubled terminator, shifted by the rotation, is
   comparing the bytes in their order with the terminator.
   */
  lemma RotatedCompare(left: seq<Byte>, leftPos: nat, term: seq<Byte>)
    requires leftPos < |left| == |term|
    ensures left == (term + term)[|term| - leftPos..2 * |term| - leftPos] <==> Unrolled(left, leftPos) == term
  {
    var n := |term|;
    var shifted := (term + term)[n - leftPos..2 * n - leftPos];
    assert shifted == term[n - leftPos..] + term[..n - leftPos];
    if left == shifted {
      assert left[leftPos..] == term[..n - leftPos] && left[..leftPos] == term[n - leftPos..];
    }
    if Unrolled(left, leftPos) == term {
      assert term[..n - leftPos] == left[leftPos..] && term[n - leftPos..] == left[..leftPos];
    }
  }

  /** Replacing the oldest byte moves the window on by one. */
  lemma RotateStep(left: seq<Byte>, leftPos: nat, c: Byte)
    requires leftPos < |left|
    ensures Unrolled(left[leftPos := c], (leftPos + 1) % |left|) == Unrolled(left, leftPos)[1..] + [c]
    ensures Unrolled(left, leftPos)[0] == left[leftPos]
  {
    var next := left[leftPos := c];
    if leftPos + 1 == |left| {
      assert next[0..] + next[..0] == left[..leftPos] + [c];
      assert (leftPos + 1) % |left| == 0;
    } else {
      assert (leftPos + 1) % |left| == leftPos + 1;
      assert next[leftPos + 1..] == left[leftPos + 1..] && next[..leftPos + 1] == left[..leftPos] + [c];
    }
  }

  /** The terminator stands nowhere from `a` up to `b`. */
  ghost predicate NoTermIn(s: seq<Byte>, term: seq<Byte>, a: int, b: int) {
    0 <= a && forall k: nat | a <= k < b :: !Occurs(s, term, k)
  }

  lemma NoTermMore(s: seq<Byte>, term: seq<Byte>, a: int, b: nat)
    requires NoTermIn(s, term, a, b) && !Occurs(s, term, b)
    ensures NoTermIn(s, term, a, b + 1)
  {
  }

  lemma SliceMore(s: seq<Byte>, a: nat, b: nat)
    requires a <= b
    ensures b < |s| ==> s[a..b] + [s[b]] == s[a..b + 1]
  {
  }

  /** The input stream over a file that stops at the terminator. */
  class FileStream {
    const file: File
    const term: seq<Byte>
    const left: array<Byte>
    var leftPos: nat

    /** The window holds the bytes just before the file position. */
    ghost predicate Valid()
      reads this, file, left
    {
      && file.Valid() && term != [] && left.Length == |term| && leftPos < |term|
      && |term| <= file.pos
      && Unrolled(left[..], leftPos) == file.data[file.pos - |term|..file.pos]
    }

    constructor (file: File, term: seq<Byte>, left: array<Byte>)
      requires file.Valid() && term != [] && left.Length == |term| <= file.pos
      requires left[..] == file.data[file.pos - |term|..file.pos]
      ensures Valid() && this.file == file && this.term == term && this.left == left
    {
      this.file, this.term, this.left, leftPos := file, term, left, 0;
    }

    /** Where the window starts. */
    ghost function Start(): int
      reads this, file
    {
      file.pos - |term|
    }

    /** One step: the oldest byte of the window comes out and the next one goes in. */
    method Advance(c: Byte) returns (b: Byte)
      requires file.Valid() && term != [] && left.Length == |term| && leftPos < |term| && |term| < file.pos
      requires Unrolled(left[..], leftPos) == file.data[Start() - 1..file.pos - 1]
      requires c == file.data[file.pos - 1]
      modifies this`leftPos, left
      ensures Valid() && b == file.data[Start() - 1]
    {
      RotateStep(left[..], leftPos, c);
      b := left[leftPos];
      ghost var before := left[..];
      left[leftPos] := c;
      assert left[..] == before[leftPos := c];
      leftPos := (leftPos + 1) % |term|;
      assert file.data[Start() - 1..file.pos - 1][1..] + [c] == file.data[Start()..file.pos];
    }

    /** Whether the window is the terminator. */
    method AtTerm() returns (yes: bool)
      requires Valid()
      ensures yes <==> Occurs(file.data, term, Start())
    {
      RotatedCompare(left[..], leftPos, term);
      yes := left[..] == (term + term)[|term| - leftPos..2 * |term| - leftPos];
    }

    /** Takes one byte out of the window, or -1 when the file has ended. */
    method Shift() returns (b: int)
      requires Valid()
      modifies this`leftPos, left, file
      ensures Valid()
      ensures b >= 0 ==> Start() == old(Start()) + 1 && b == file.data[old(Start())] && file.eof == old(file.eof)
      ensures b < 0 ==> Start() == old(Start()) && file.pos == |file.data|
    {
      var c := file.Getc();
      if c == -1 {
        return -1;
      }
      var out := Advance(c);
      b := out;
    }

    /**
     Reads up to `len` bytes before the terminator.  The result is -1 when the file ends
     first; fewer than `len` bytes mean that the terminator has been reached.
     */
    method Read(len: nat) returns (n: int, out: seq<Byte>)
      requires Valid()
      modifies this`leftPos, left, file
      ensures Valid() && -1 <= n && old(Start()) <= Start()
      ensures NoTermIn(file.data, term, old(Start()), Start())
      ensures n >= 0 ==> n == |out| <= len && out == file.data[old(Start())..Start()] && file.eof == old(file.eof)
      ensures 0 <= n < len ==> Occurs(file.data, term, Start())
      ensures n < 0 ==> file.pos == |file.data| && !Occurs(file.data, term, Start())
    {
      out := [];
      ghost var start := Start();
      while |out| < len
        invariant Valid() && Start() == start + |out| && |out| <= len
        invariant out == file.data[start..Start()]
        invariant NoTermIn(file.data, term, start, Start()) == true
        invariant file.eof == old(file.eof)
        decreases len - |out|
      {
        var yes := AtTerm();
        if yes {
          return |out|, out;
        }
        NoTermMore(file.data, term, start, Start());
        SliceMore(file.data, start, Start());
        var b := Shift();
        if b < 0 {
          return -1, out;
        }
        out := out + [b];
      }
      n := |out|;
    }
  }

  /** The outcome of reading a terminated field. */
  datatype Scanned = Field(bytes: seq<Byte>) | AtEnd | Broken

  /**
   The field is what stands before the first terminator.  Nothing at all is the end of the
   data; anything else without a terminator is broken.
   */
  function Scan(s: seq<Byte>, term: seq<Byte>): Scanned {
    if s == [] then AtEnd
    else if TermAt(s, term) < 0 then Broken
    else Field(s[..TermAt(s, term)])
  }

  /** What the reading of a terminated field comes to, by where the terminator stands. */
  lemma ScanMeans(s: seq<Byte>, term: seq<Byte>, k: nat)
    requires term != []
    ensures (forall j: nat | j + |term| <= |s| :: !Occurs(s, term, j)) ==> Scan(s, term) == if s == [] then AtEnd else Broken
    ensures Occurs(s, term, k) && (forall j: nat | j < k :: !Occurs(s, term, j)) ==> Scan(s, term) == Field(s[..k])
  {
    if forall j: nat | j + |term| <= |s| :: !Occurs(s, term, j) {
      NoOccurrence(s, term);
    }
    if Occurs(s, term, k) && forall j: nat | j < k :: !Occurs(s, term, j) {
      FirstOccurrence(s, term, k);
    }
  }

  lemma ScanFound(data: seq<Byte>, term: seq<Byte>, from: nat, at: nat)
    requires term != [] && from <= at && NoTermIn(data, term, from, at) && Occurs(data, term, at)
    ensures Scan(data[from..], term) == Field(data[from..at])
    ensures data[from..][at - from + |term|..] == data[at + |term|..]
  {
    var s := data[from..];
    forall j: nat | j < at - from
      ensures !Occurs(s, term, j)
    {
      assert !Occurs(data, term, from + j);
      assert from + j + |term| <= |data| ==> s[j..j + |term|] == data[from + j..from + j + |term|];
    }
    assert s[at - from..at - from + |term|] == data[at..at + |term|];
    FirstOccurrence(s, term, at - from);
    assert s[..at - from] == data[from..at];
  }

  lemma ScanBroken(data: seq<Byte>, term: seq<Byte>, from: nat, at: nat)
    requires term != [] && from <= at && NoTermIn(data, term, from, at) && !Occurs(data, term, at)
    requires at + |term| == |data|
    ensures Scan(data[from..], term) == Broken
  {
    var s := data[from..];
    forall j: nat | j + |term| <= |s|
      ensures !Occurs(s, term, j)
    {
      assert !Occurs(data, term, from + j);
      assert s[j..j + |term|] == data[from + j..from + j + |term|];
    }
    NoOccurrence(s, term);
  }

  lemma NoTermJoin(s: seq<Byte>, term: seq<Byte>, a: int, b: int, c: int)
    requires NoTermIn(s, term, a, b) && NoTermIn(s, term, b, c)
    ensures NoTermIn(s, term, a, c)
  {
  }

  lemma SliceJoin(s: seq<Byte>, a: nat, b: nat, c: nat)
    requires a <= b <= c <= |s|
    ensures s[a..b] + s[b..c] == s[a..c]
  {
  }

  /** Copies from the stream, through a buffer that grows as it likes, until it gives nothing. */
  method CopyStream(stream: FileStream, ghost from: nat) returns (r: Scanned)
    requires stream.Valid() && stream.Start() == from
    modifies stream`leftPos, stream.left, stream.file
    ensures stream.file.Valid() && r == Scan(stream.file.data[from..], stream.term) && !r.AtEnd?
    ensures r.Field? ==>
              stream.file.pos == from + |r.bytes| + |stream.term| && stream.file.eof == old(stream.file.eof)
    ensures r.Broken? ==> stream.file.pos == |stream.file.data|
  {
    var file, term := stream.file, stream.term;
    var out := [];
    while true
      invariant stream.Valid() && from <= stream.Start()
      invariant out == file.data[from..stream.Start()]
      invariant NoTermIn(file.data, term, from, stream.Start()) == true
      invariant file.eof == old(stream.file.eof)
      decreases |file.data| - file.pos
    {
      ghost var at := stream.Start();
      var chunk: nat :| chunk > 0;
      var n, bytes := stream.Read(chunk);
      NoTermJoin(file.data, term, from, at, stream.Start());
      SliceJoin(file.data, from, at, stream.Start());
      if n == 0 {
        ScanFound(file.data, term, from, stream.Start());
        return Field(out);
      }
      if n < 0 {
        ScanBroken(file.data, term, from, stream.Start());
        return Broken;
      }
      out := out + bytes;
    }
  }

  lemma ScanShort(s: seq<Byte>, term: seq<Byte>)
    requires |s| < |term|
    ensures Scan(s, term) == if s == [] then AtEnd else Broken
  {
  }

  /** Reads a field up to the terminator.  The file is left just behind the terminator. */
  method BcpFread(file: File, term: seq<Byte>) returns (r: Scanned)
    requires file.Valid() && term != []
    modifies file
    ensures file.Valid() && r == Scan(old(file.Rest()), term)
    ensures r.Field? ==> file.Rest() == old(file.Rest())[|r.bytes| + |term|..] && file.eof == old(file.eof)
    ensures r.AtEnd? ==> file.eof
    ensures !r.Field? ==> file.Rest() == []
  {
    ghost var from := file.pos;
    var got := file.Fread(|term|);
    if |got| != |term| {
      ScanShort(file.data[from..], term);
      return if |got| == 0 && file.eof then AtEnd else Broken;
    }
    var left := new Byte[|term|](i requires 0 <= i < |term| => got[i]);
    assert left[..] == got == file.data[from..file.pos];
    var stream := new FileStream(file, term, left);
    r := CopyStream(stream, from);
  }
}
