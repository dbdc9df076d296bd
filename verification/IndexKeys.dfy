/**
 Splitting and quoting of index keys, as the defncopy program does it.

 The server reports the key columns of an index as one string in which the names
 are separated by a comma and a space.  A column name may itself contain that
 separator, so the program cuts off the longest known column name that fits, and
 writes every piece in brackets with each `]` doubled.

 A C string is modelled by the characters before its NUL.
 */
module IndexKeys {

  /** The separator, a comma and a space, stands at `k`. */
  predicate SepAt(text: string, k: nat) {
    k + 1 < |text| && text[k] == ',' && text[k + 1] == ' '
  }

  // ---------------------------------------------------------------- quoting

  /** `s` with every occurrence of `q` doubled. */
  function Doubled(s: string, q: char): string {
    if s == "" then ""
    else
      var n := |s| - 1;
      Doubled(s[..n], q) + (if s[n] == q then [q, q] else [s[n]])
  }

  /** Reads doubled text back: each pair of `q` stands for one. */
  function Undoubled(s: string, q: char): string {
    if s == "" then ""
    else if s[0] == q && |s| > 1 && s[1] == q then [q] + Undoubled(s[2..], q)
    else [s[0]] + Undoubled(s[1..], q)
  }

  lemma {:induction false} DoubledLength(s: string, q: char)
    ensures |Doubled(s, q)| == |s| + multiset(s)[q]
  {
    if s == "" {
      // base case
    } else {
      var n := |s| - 1;
      DoubledLength(s[..n], q);
      assert s == s[..n] + [s[n]];
    }
  }

  lemma {:induction false} DoubledConcat(a: string, b: string, q: char)
    ensures Doubled(a + b, q) == Doubled(a, q) + Doubled(b, q)
  {
    if b == "" {
      assert a + b == a;
    } else {
      var n := |b| - 1;
      DoubledConcat(a, b[..n], q);
      assert (a + b)[..|a| + n] == a + b[..n];
    }
  }

  lemma DoubledHead(s: string, q: char)
    requires s != ""
    ensures Doubled(s, q) == (if s[0] == q then [q, q] else [s[0]]) + Doubled(s[1..], q)
  {
    assert s == [s[0]] + s[1..];
    assert [s[0]][..0] == "";
    DoubledConcat([s[0]], s[1..], q);
  }

  /** Doubling loses nothing. */
  lemma {:induction false} UndoubledDoubled(s: string, q: char)
    ensures Undoubled(Doubled(s, q), q) == s
  {
    if s == "" {
      // base case
    } else {
      DoubledHead(s, q);
      UndoubledDoubled(s[1..], q);
      var t := Doubled(s, q);
      if s[0] == q {
        assert t[2..] == Doubled(s[1..], q);
      } else {
        assert t[1..] == Doubled(s[1..], q);
      }
    }
  }

  method CountChars(s: string, c: char) returns (num: nat)
    ensures num == if c == '\0' then 0 else multiset(s)[c]
  {
    num := 0;
    if c != '\0' {
      for i := 0 to |s|
        invariant num == multiset(s[..i])[c]
      {
        assert s[..i + 1] == s[..i] + [s[i]];
        if s[i] == c { num := num + 1; }
      }
      assert s[..|s|] == s;
    }
  }

  /** Writes `src` at `dest`, doubling `q`, and returns the place after the last character. */
  method SqlQuote(buf: array<char>, dest: nat, src: string, q: char) returns (end: nat)
    requires dest + |Doubled(src, q)| <= buf.Length
    modifies buf
    ensures end == dest + |Doubled(src, q)|
    ensures buf[..end] == old(buf[..dest]) + Doubled(src, q)
  {
    end := dest;
    for i := 0 to |src|
      invariant end == dest + |Doubled(src[..i], q)| <= buf.Length
      invariant buf[..end] == old(buf[..dest]) + Doubled(src[..i], q)
    {
      assert src[..i + 1][..i] == src[..i];
      assert src == src[..i + 1] + src[i + 1..];
      DoubledConcat(src[..i + 1], src[i + 1..], q);
      if src[i] == q {
        buf[end] := src[i];
        end := end + 1;
      }
      buf[end] := src[i];
      end := end + 1;
    }
    assert src[..|src|] == src;
  }

  function Bracketed(name: string): string {
    "[" + Doubled(name, ']') + "]"
  }

  /** The buffer size computed in advance is exactly what is written, with the NUL. */
  method QuoteId(id: string) returns (buf: array<char>)
    ensures fresh(buf)
    ensures buf[..] == Bracketed(id) + ['\0']
  {
    var n := CountChars(id, ']');
    DoubledLength(id, ']');
    buf := new char[1 + |id| + n + 1 + 1];
    buf[0] := '[';
    var p := SqlQuote(buf, 1, id, ']');
    assert buf[..p] == "[" + Doubled(id, ']');
    buf[p] := ']';
    buf[p + 1] := '\0';
    assert buf[..] == buf[..p] + [']', '\0'];
  }

  lemma {:induction false} NothingToDouble(s: string, q: char)
    requires q !in s
    ensures Doubled(s, q) == s
  {
    if s == "" {
      // base case
    } else {
      NothingToDouble(s[..|s| - 1], q);
    }
  }

  method QuoteStr(str: string) returns (s: string)
    ensures s == Doubled(str, '\'')
    ensures Undoubled(s, '\'') == str
  {
    UndoubledDoubled(str, '\'');
    DoubledLength(str, '\'');
    var n := CountChars(str, '\'');
    if n == 0 {
      NothingToDouble(str, '\'');
      return str;
    }
    var buf := new char[|str| + n + 1];
    var p := SqlQuote(buf, 0, str, '\'');
    buf[p] := '\0';
    s := buf[..p];
  }

  // -------------------------------------------------------------- splitting

  /** `name` stands at the beginning of `text` and ends where the text or a separator does. */
  predicate Fits(name: string, text: string) {
    name <= text && (|name| == |text| || SepAt(text, |name|))
  }

  /** The longest nonempty name of the table that fits, or "" when there is none. */
  function Longest(text: string, columns: seq<string>): (name: string)
    ensures Fits(name, text) || name == ""
  {
    if columns == [] then ""
    else
      var c := columns[|columns| - 1];
      var best := Longest(text, columns[..|columns| - 1]);
      if Fits(c, text) && |c| > |best| then c else best
  }

  lemma {:induction false} LongestIsLongest(text: string, columns: seq<string>)
    ensures var name := Longest(text, columns);
            && (name == "" || name in columns)
            && forall c | c in columns && Fits(c, text) :: |c| <= |name|
  {
    if columns == [] {
      // base case
    } else {
      LongestIsLongest(text, columns[..|columns| - 1]);
    }
  }

  /** Names that fit the same text are told apart by their lengths. */
  lemma FittingNames(a: string, b: string, text: string)
    requires Fits(a, text) && Fits(b, text) && |a| == |b|
    ensures a == b
  {
    assert a == text[..|a|] && b == text[..|b|];
  }

  method FindColumnName(start: string, columns: seq<string>) returns (found: int)
    ensures -1 <= found < |columns|
    ensures found == -1 <==> Longest(start, columns) == ""
    ensures found >= 0 ==> columns[found] == Longest(start, columns)
  {
    var foundLen := 0;
    found := -1;
    for i := 0 to |columns|
      invariant -1 <= found < i
      invariant foundLen == |Longest(start, columns[..i])|
      invariant found == -1 <==> foundLen == 0
      invariant found >= 0 ==> columns[found] == Longest(start, columns[..i])
    {
      assert columns[..i + 1][..i] == columns[..i];
      var name := columns[i];
      var nameLen := |name|;
      if nameLen <= |start| && nameLen > foundLen
         && (nameLen == |start| || SepAt(start, nameLen))
         && start[..nameLen] == name {
        foundLen := nameLen;
        found := i;
      }
    }
    assert columns[..|columns|] == columns;
  }

  /** Where the first separator starts; the length of the text when there is none. */
  function SepIndex(text: string): (k: nat)
    ensures k <= |text|
    ensures k < |text| ==> SepAt(text, k)
    ensures forall j | 0 <= j < k :: !SepAt(text, j)
  {
    if text == "" || SepAt(text, 0) then 0
    else
      var k := SepIndex(text[1..]);
      assert forall j | 1 <= j <= k :: SepAt(text, j) <==> SepAt(text[1..], j - 1);
      1 + k
  }

  method FindSep(text: string) returns (k: nat)
    ensures k == SepIndex(text)
  {
    k := 0;
    while k < |text| && !SepAt(text, k)
      invariant k <= |text|
      invariant forall j | 0 <= j < k :: !SepAt(text, j)
    {
      k := k + 1;
    }
  }

  /** The next key of a nonempty list: leading blanks to drop, and the key after them. */
  function NextKey(keys: string, columns: seq<string>): (r: (nat, string))
    requires keys != ""
    ensures r.0 + |r.1| <= |keys|
    ensures keys[r.0..r.0 + |r.1|] == r.1
    ensures r.0 + |r.1| == |keys| || SepAt(keys, r.0 + |r.1|)
  {
    var name := Longest(keys, columns);
    if name != "" then (0, name)
    else if keys[0] == ' ' && Longest(keys[1..], columns) != "" then
      var name1 := Longest(keys[1..], columns);
      assert keys[1..][|name1|..] == keys[1 + |name1|..];
      assert keys[1..1 + |name1|] == keys[1..][..|name1|];
      (1, name1)
    else (0, keys[..SepIndex(keys)])
  }

  function AfterSep(keys: string): string {
    if SepAt(keys, 0) then keys[2..] else keys
  }

  /** The keys that the program finds in a list. */
  function Split(keys: string, columns: seq<string>): seq<string>
    decreases |keys|
  {
    if keys == "" then []
    else
      var (skip, key) := NextKey(keys, columns);
      [key] + Split(AfterSep(keys[skip + |key|..]), columns)
  }

  /** The bracketed keys, separated by commas. */
  function Render(keys: seq<string>): string {
    if keys == [] then ""
    else
      var n := |keys| - 1;
      Render(keys[..n]) + (if n == 0 then "" else ",") + Bracketed(keys[n])
  }

  /** What the rest of a key list can still add to the output. */
  ghost function Weight(s: string): nat {
    |s| + multiset(s)[']'] + 2 * multiset(s)[',']
  }

  lemma WeightConcat(a: string, b: string)
    ensures Weight(a + b) == Weight(a) + Weight(b)
  {
    assert multiset(a + b) == multiset(a) + multiset(b);
  }

  lemma SepWeight(tail: string)
    requires SepAt(tail, 0)
    ensures Weight(tail) == 4 + Weight(tail[2..])
  {
    assert tail == [',', ' '] + tail[2..];
    WeightConcat([',', ' '], tail[2..]);
    assert multiset([',', ' ']) == multiset{',', ' '};
  }

  /** A key and what follows its separator weigh less than the list they were cut from. */
  lemma StepWeight(keys: string, skip: nat, key: string)
    requires skip + |key| <= |keys| && keys[skip..skip + |key|] == key
    requires keys != ""
    requires skip + |key| == |keys| || SepAt(keys, skip + |key|)
    ensures var rest := AfterSep(keys[skip + |key|..]);
            && |rest| < |keys|
            && Weight(rest) + |Doubled(key, ']')| + (if rest == "" then 0 else 4) <= Weight(keys)
  {
    var tail := keys[skip + |key|..];
    assert keys == keys[..skip] + (key + tail);
    WeightConcat(keys[..skip], key + tail);
    WeightConcat(key, tail);
    DoubledLength(key, ']');
    if SepAt(tail, 0) {
      SepWeight(tail);
    }
  }

  /** The room that the rest of the list needs, with the NUL. */
  ghost function Budget(first: bool, keys: string): nat {
    Weight(keys) + (if first then 3 else if keys == "" then 1 else 4)
  }

  /** What one round of the loop writes fits in what the list may still take. */
  lemma RoundFits(keys: string, skip: nat, key: string, first: bool)
    requires skip + |key| <= |keys| && keys[skip..skip + |key|] == key
    requires keys != ""
    requires skip + |key| == |keys| || SepAt(keys, skip + |key|)
    ensures var rest := AfterSep(keys[skip + |key|..]);
            && |rest| < |keys|
            && (if first then 0 else 1) + |Bracketed(key)| + Budget(false, rest) <= Budget(first, keys)
  {
    StepWeight(keys, skip, key);
  }

  /** Takes the next key off a nonempty list, with the separator after it. */
  method TakeKey(keys: string, columns: seq<string>) returns (key: string, rest: string)
    requires keys != ""
    ensures key == NextKey(keys, columns).1
    ensures rest == AfterSep(keys[NextKey(keys, columns).0 + |key|..])
  {
    rest := keys;
    var icol := FindColumnName(keys, columns);
    if icol < 0 && keys[0] == ' ' {
      icol := FindColumnName(keys[1..], columns);
      if icol >= 0 { rest := keys[1..]; }
    }
    if icol >= 0 {
      key := columns[icol];
      assert rest[|key|..] == keys[NextKey(keys, columns).0 + |key|..];
      rest := rest[|key|..];
    } else {
      var end := FindSep(rest);
      key := rest[..end];
      rest := rest[end..];
    }
    if SepAt(rest, 0) { rest := rest[2..]; }
  }

  /** Writes one bracketed key, after a comma unless it is the first. */
  method PutKey(buf: array<char>, dest: nat, first: bool, key: string) returns (end: nat)
    requires dest + (if first then 0 else 1) + |Bracketed(key)| <= buf.Length
    modifies buf
    ensures end == dest + (if first then 0 else 1) + |Bracketed(key)|
    ensures buf[..end] == old(buf[..dest]) + ((if first then "" else ",") + Bracketed(key))
  {
    end := dest;
    if !first {
      buf[end] := ',';
      end := end + 1;
    }
    buf[end] := '[';
    end := end + 1;
    ghost var before := buf[..end];
    assert before == old(buf[..dest]) + ((if first then "" else ",") + "[");
    end := SqlQuote(buf, end, key, ']');
    buf[end] := ']';
    end := end + 1;
    assert buf[..end] == before + Doubled(key, ']') + "]";
  }

  lemma SplitStep(keys: string, columns: seq<string>, key: string, rest: string)
    requires keys != ""
    requires key == NextKey(keys, columns).1
    requires rest == AfterSep(keys[NextKey(keys, columns).0 + |key|..])
    ensures Split(keys, columns) == [key] + Split(rest, columns)
  {
    var (skip, k) := NextKey(keys, columns);
    assert k == key && AfterSep(keys[skip + |k|..]) == rest;
  }

  lemma Grow<T>(done: seq<T>, next: T, more: seq<T>)
    ensures done + ([next] + more) == (done + [next]) + more
  {
  }

  /** One round of the loop: `done` grows by the key and the rest of the list is shorter. */
  lemma Round(keys: string, columns: seq<string>, first: bool, done: seq<string>, key: string, rest: string)
    requires keys != ""
    requires key == NextKey(keys, columns).1
    requires rest == AfterSep(keys[NextKey(keys, columns).0 + |key|..])
    ensures |rest| < |keys|
    ensures (if first then 0 else 1) + |Bracketed(key)| + Budget(false, rest) <= Budget(first, keys)
    ensures done + Split(keys, columns) == (done + [key]) + Split(rest, columns)
  {
    RoundFits(keys, NextKey(keys, columns).0, key, first);
    SplitStep(keys, columns, key, rest);
    Grow(done, key, Split(rest, columns));
  }

  lemma RenderSnoc(done: seq<string>, key: string)
    ensures Render(done + [key]) == Render(done) + ((if done == [] then "" else ",") + Bracketed(key))
  {
    assert (done + [key])[..|done|] == done;
  }

  method PutNul(buf: array<char>, len: nat)
    requires len < buf.Length
    modifies buf
    ensures buf[..len] == old(buf[..len]) && buf[len] == '\0'
  {
    buf[len] := '\0';
  }

  /** Where the loop stands: the keys written, and room for what the rest can add. */
  ghost predicate Progress(text: string, size: nat, done: seq<string>, first: bool, keys: string,
                           all: seq<string>, columns: seq<string>)
  {
    && (first <==> done == [])
    && text == Render(done)
    && done + Split(keys, columns) == all
    && |text| + Budget(first, keys) <= size
  }

  lemma Begin(keys: string, columns: seq<string>)
    ensures Progress("", |keys| + multiset(keys)[']'] + (multiset(keys)[','] + 1) * 2 + 1,
                     [], true, keys, Split(keys, columns), columns)
  {
  }

  lemma Advance(text: string, size: nat, done: seq<string>, first: bool, keys: string, all: seq<string>,
                columns: seq<string>, key: string, rest: string)
    requires Progress(text, size, done, first, keys, all, columns)
    requires keys != ""
    requires key == NextKey(keys, columns).1
    requires rest == AfterSep(keys[NextKey(keys, columns).0 + |key|..])
    ensures |rest| < |keys|
    ensures |text| + (if first then 0 else 1) + |Bracketed(key)| < size
    ensures Progress(text + ((if first then "" else ",") + Bracketed(key)), size, done + [key], false, rest, all, columns)
  {
    Round(keys, columns, first, done, key, rest);
    RenderSnoc(done, key);
  }

  lemma Finish(text: string, size: nat, done: seq<string>, first: bool, all: seq<string>, columns: seq<string>)
    requires Progress(text, size, done, first, "", all, columns)
    ensures text == Render(all) && |text| < size
  {
    assert done == all;
  }

  /**
   Splits and quotes into a buffer allocated in advance.  Every write is inside the
   buffer, and what is written before the NUL is the rendering of the keys found.
   */
  method QuoteIndexKeys(indexKeys: string, columns: seq<string>) returns (buf: array<char>, len: nat)
    ensures fresh(buf)
    ensures buf.Length == |indexKeys| + multiset(indexKeys)[']'] + (multiset(indexKeys)[','] + 1) * 2 + 1
    ensures len < buf.Length && buf[len] == '\0'
    ensures buf[..len] == Render(Split(indexKeys, columns))
  {
    var numCommas := CountChars(indexKeys, ',');
    var numQuotes := CountChars(indexKeys, ']');
    buf := new char[|indexKeys| + numQuotes + (numCommas + 1) * 2 + 1];
    var keys := indexKeys;
    var first := true;
    len := 0;
    ghost var done: seq<string> := [];
    ghost var all := Split(indexKeys, columns);
    Begin(indexKeys, columns);
    while keys != ""
      invariant len <= buf.Length
      // (comparing with true keeps the verifier from taking the predicate apart)
      invariant Progress(buf[..len], buf.Length, done, first, keys, all, columns) == true
      decreases |keys|
    {
      var key, rest := TakeKey(keys, columns);
      Advance(buf[..len], buf.Length, done, first, keys, all, columns, key, rest);
      len := PutKey(buf, len, first, key);
      keys, done, first := rest, done + [key], false;
    }
    Finish(buf[..len], buf.Length, done, first, all, columns);
    PutNul(buf, len);
  }
}
