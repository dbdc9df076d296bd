/**
 The in-place decoding of backslash escapes in the terminators given to freebcp.

 The argument is a character array holding a C string.  A decoded `\0` leaves a NUL
 inside the text, so the function returns the true length.
 */
module Unescape {

  /** The character that a recognised escape letter stands for. */
  function Escaped(c: char): (r: seq<char>)
    ensures |r| <= 1
  {
    match c
    case '0' => ['\0']
    case 't' => ['\t']
    case 'r' => ['\r']
    case 'n' => ['\n']
    case '\\' => ['\\']
    case _ => []
  }

  /** A recognised escape stands at the beginning. */
  predicate Recognised(s: string) {
    |s| >= 2 && s[0] == '\\' && Escaped(s[1]) != []
  }

  /** Left-to-right decoding; an unknown escape stays as it is. */
  function Decode(s: string): string {
    if s == "" then ""
    else if Recognised(s) then Escaped(s[1]) + Decode(s[2..])
    else [s[0]] + Decode(s[1..])
  }

  function EncodeChar(c: char): (r: string)
    ensures '\0' !in r && r != ""
  {
    match c
    case '\0' => "\\0"
    case '\t' => "\\t"
    case '\r' => "\\r"
    case '\n' => "\\n"
    case '\\' => "\\\\"
    case c => [c]
  }

  /** Writes any text, NULs included, with escapes. */
  function Encode(s: string): (r: string)
    ensures '\0' !in r
  {
    if s == "" then "" else EncodeChar(s[0]) + Encode(s[1..])
  }

  lemma DecodeEncodedChar(c: char, rest: string)
    ensures Decode(EncodeChar(c) + rest) == [c] + Decode(rest)
  {
    var e := EncodeChar(c);
    assert (e + rest)[|e|..] == rest;
    assert Recognised(e + rest) <==> |e| == 2;
  }

  /** Decoding undoes the escaper, whatever the text. */
  lemma {:induction false} DecodeOfEncode(s: string)
    ensures Decode(Encode(s)) == s
  {
    if s == "" {
      // base case
    } else {
      DecodeOfEncode(s[1..]);
      DecodeEncodedChar(s[0], Encode(s[1..]));
    }
  }

  /** How many escapes decoding replaces. */
  function Escapes(s: string): nat {
    if s == "" then 0
    else if Recognised(s) then 1 + Escapes(s[2..])
    else Escapes(s[1..])
  }

  /** Each replaced escape makes the text one shorter, and nothing else does. */
  lemma {:induction false} DecodedLength(s: string)
    ensures |Decode(s)| + Escapes(s) == |s|
  {
    if s == "" {
      // base case
    } else {
      if Recognised(s) { DecodedLength(s[2..]); } else { DecodedLength(s[1..]); }
    }
  }

  /** Decoding changes a text exactly when it holds a recognised escape. */
  lemma {:induction false} DecodeKeeps(s: string)
    ensures Decode(s) == s <==> Escapes(s) == 0
  {
    DecodedLength(s);
    if s != "" && !Recognised(s) {
      DecodeKeeps(s[1..]);
      assert s == [s[0]] + s[1..];
    }
  }

  /** A decoded backslash does not begin another escape, whatever follows it. */
  lemma DecodedBackslash(s: string)
    ensures Decode("\\\\" + s) == "\\" + Decode(s)
  {
    assert ("\\\\" + s)[2..] == s;
  }

  /** The five escapes, and what they stand for. */
  lemma KnownEscapes(c: char, s: string)
    requires c in "0trn\\"
    ensures Decode(['\\', c] + s)
         == [if c == '0' then '\0' else if c == 't' then '\t' else if c == 'r' then '\r' else if c == 'n' then '\n' else '\\']
            + Decode(s)
  {
    assert (['\\', c] + s)[2..] == s;
  }

  /** A backslash before any other character, or at the end, stays, and so does what follows it. */
  lemma UnknownEscape(c: char, s: string)
    requires c !in "0trn\\"
    ensures Decode(['\\', c] + s) == ['\\', c] + Decode(s) && Decode("\\") == "\\"
  {
    assert c != '0' && c != 't' && c != 'r' && c != 'n' && c != '\\' by {
      assert "0trn\\"[0] == '0' && "0trn\\"[1] == 't' && "0trn\\"[2] == 'r' && "0trn\\"[3] == 'n' && "0trn\\"[4] == '\\';
    }
    var t := ['\\', c] + s;
    assert t[1..] == [c] + s && t[1..][1..] == s;
    assert Decode([c] + s) == [c] + Decode(s);
    assert "\\"[1..] == "";
  }

  /** So decoding twice is not decoding once. */
  lemma DecodeTwice()
    ensures Decode("\\\\n") == "\\n" && Decode("\\n") == "\n"
  {
    assert Decode("n") == "n";
    DecodedBackslash("n");
    assert "\\n"[2..] == "";
  }

  lemma {:induction false} SkipPlain(plain: string, rest: string)
    requires '\\' !in plain
    ensures Decode(plain + rest) == plain + Decode(rest)
  {
    if plain == "" {
      assert plain + rest == rest;
    } else {
      SkipPlain(plain[1..], rest);
      assert (plain + rest)[1..] == plain[1..] + rest;
    }
  }

  // ---------------------------------------------------------- the C string

  /** The text from `p` up to the first NUL, which stands at `e`. */
  ghost predicate TextAt(a: seq<char>, p: nat, e: nat) {
    p <= e < |a| && a[e] == '\0' && forall k | p <= k < e :: a[k] != '\0'
  }

  /** The search of `strchr`: where `c` stands before the NUL, or the place of the NUL. */
  method Search(a: array<char>, p: nat, c: char, ghost e: nat) returns (q: nat)
    requires TextAt(a[..], p, e) && c != '\0'
    ensures p <= q <= e
    ensures c !in a[p..q]
    ensures q < e <==> a[q] == c
  {
    q := p;
    while a[q] != c && a[q] != '\0'
      invariant p <= q <= e
      invariant c !in a[p..q]
      decreases e - q
    {
      assert a[p..q + 1] == a[p..q] + [a[q]];
      q := q + 1;
    }
  }

  /** The place of the first NUL at or after `p`. */
  method StringEnd(a: array<char>, p: nat, ghost e: nat) returns (q: nat)
    requires TextAt(a[..], p, e)
    ensures q == e
  {
    q := p;
    while a[q] != '\0'
      invariant p <= q <= e
      decreases e - q
    {
      q := q + 1;
    }
  }

  /** Moves the text after `p`, with its NUL, one place down. */
  method ShiftDown(a: array<char>, p: nat, e: nat)
    requires p < e < a.Length
    modifies a
    ensures a[..p] == old(a[..p])
    ensures a[p..e] == old(a[p + 1..e + 1])
    ensures a[e..] == old(a[e..])
  {
    for i := p to e
      invariant forall k | 0 <= k < p :: a[k] == old(a[k])
      invariant forall k | p <= k < i :: a[k] == old(a[k + 1])
      invariant forall k | i <= k < a.Length :: a[k] == old(a[k])
    {
      a[i] := a[i + 1];
    }
  }

  /** One recognised escape at `p` is replaced and the text after it moves down. */
  method Replace(a: array<char>, p: nat, escaped: char, e: nat)
    requires TextAt(a[..], p, e) && p + 1 < e
    modifies a
    ensures a[..p + 1] == old(a[..p]) + [escaped]
    ensures a[p + 1..e - 1] == old(a[p + 2..e])
    ensures TextAt(a[..], p + 1, e - 1)
    ensures a[e..] == old(a[e..])
  {
    a[p] := escaped;
    ghost var before := a[..];
    ShiftDown(a, p + 1, e);
    assert a[..p + 1] == before[..p + 1];
    assert forall k | p + 1 <= k < e :: a[k] == a[p + 1..e][k - (p + 1)] == before[k + 1];
    assert a[p + 1..e - 1] == old(a[p + 2..e]);
  }

  /** The text decoded up to `p` and still to be decoded up to `e`, as decoding will leave it. */
  ghost function Whole(a: seq<char>, p: nat, e: nat): string
    requires p <= e <= |a|
  {
    a[..p] + Decode(a[p..e])
  }

  lemma SkipTo(a: seq<char>, p: nat, q: nat, e: nat)
    requires p <= q <= e <= |a| && '\\' !in a[p..q]
    ensures Whole(a, p, e) == Whole(a, q, e)
  {
    assert a[p..e] == a[p..q] + a[q..e];
    SkipPlain(a[p..q], a[q..e]);
    assert a[..q] == a[..p] + a[p..q];
  }

  lemma UnknownStep(a: seq<char>, p: nat, e: nat)
    requires p < e <= |a| && !Recognised(a[p..e])
    ensures Whole(a, p, e) == Whole(a, p + 1, e)
  {
    assert a[p..e][1..] == a[p + 1..e];
    assert a[..p + 1] == a[..p] + [a[p]];
  }

  lemma EscapeStep(a: seq<char>, b: seq<char>, p: nat, e: nat)
    requires p + 1 < e <= |a| == |b| && Recognised(a[p..e])
    requires b[..p + 1] == a[..p] + Escaped(a[p + 1]) && b[p + 1..e - 1] == a[p + 2..e]
    ensures Whole(a, p, e) == Whole(b, p + 1, e - 1)
  {
    assert a[p..e][2..] == a[p + 2..e];
  }

  /** What one backslash at `p` does: decoded text before the new place, the rest after it. */
  method Handle(arg: array<char>, p: nat, ghost e: nat, ghost end: nat) returns (q: nat, ghost f: nat)
    requires TextAt(arg[..], p, e) && p < e <= end < arg.Length
    requires arg[p] == '\\'
    modifies arg
    ensures TextAt(arg[..], q, f) && f <= e && f - q < e - p
    ensures Whole(arg[..], q, f) == old(Whole(arg[..], p, e))
    ensures arg[end..] == old(arg[end..])
  {
    ghost var a := arg[..];
    var escaped := Escaped(arg[p + 1]);
    if escaped == [] {
      UnknownStep(a, p, e);
      q, f := p + 1, e;
    } else {
      var stop := StringEnd(arg, p, e);
      Replace(arg, p, escaped[0], stop);
      q, f := p + 1, e - 1;
      assert [escaped[0]] == escaped;
      ghost var b := arg[..];
      assert b[..q] == arg[..q] && b[q..f] == arg[q..f];
      EscapeStep(a, b, p, e);
    }
  }

  /**
   Decodes in place.  The text becomes the decoded one, its length counts the NULs that
   decoding created, and nothing after the original NUL changes.
   */
  method UnescapeInPlace(arg: array<char>, ghost end: nat) returns (len: nat)
    requires TextAt(arg[..], 0, end)
    modifies arg
    ensures len == |Decode(old(arg[..end]))| <= end
    ensures arg[..len] == Decode(old(arg[..end]))
    ensures arg[len] == '\0'
    ensures arg[end..] == old(arg[end..])
  {
    ghost var text := Decode(arg[..end]);
    var p: nat := 0;
    ghost var e: nat := end;
    assert arg[..][0..e] == arg[..end];
    var next := Search(arg, p, '\\', e);
    while arg[next] == '\\'
      invariant TextAt(arg[..], p, e) && e <= end
      invariant p <= next <= e && '\\' !in arg[..][p..next]
      invariant next < e <==> arg[next] == '\\'
      invariant Whole(arg[..], p, e) == text
      invariant arg[end..] == old(arg[end..])
      decreases e - p
    {
      SkipTo(arg[..], p, next, e);
      p, e := Handle(arg, next, e, end);
      next := Search(arg, p, '\\', e);
      assert arg[..][p..next] == arg[p..next];
    }
    SkipTo(arg[..], p, e, e);
    len := StringEnd(arg, p, e);
    assert Whole(arg[..], e, e) == arg[..len];
  }
}
