/**
 What the splitting and quoting of index keys promises: which lists come apart
 into the keys they were made of, and that the quoted list can be read back.
 */
module IndexKeyLaws {
  import opened IndexKeys

  /** The list as the server reports it. */
  function Join(keys: seq<string>): string {
    if keys == [] then ""
    else if |keys| == 1 then keys[0]
    else keys[0] + ", " + Join(keys[1..])
  }

  lemma JoinParts(keys: seq<string>)
    requires keys != []
    ensures Fits(keys[0], Join(keys))
    ensures AfterSep(Join(keys)[|keys[0]|..]) == Join(keys[1..])
  {
    var text := Join(keys);
    if |keys| == 1 {
      assert text[|keys[0]|..] == "";
    } else {
      assert text[|keys[0]|..] == ", " + Join(keys[1..]);
      assert SepAt(text, |keys[0]|);
    }
  }

  /** No column name longer than a key fits at that key's place in the list. */
  ghost predicate NoLongerFit(keys: seq<string>, columns: seq<string>) {
    keys != [] ==>
      && (forall c | c in columns && Fits(c, Join(keys)) :: |c| <= |keys[0]|)
      && NoLongerFit(keys[1..], columns)
  }

  ghost predicate FromTable(keys: seq<string>, columns: seq<string>) {
    forall k | k in keys :: k in columns && k != ""
  }

  /** At a key of the table, the first cut is that key exactly when nothing longer fits. */
  lemma FirstCut(keys: seq<string>, columns: seq<string>)
    requires keys != [] && FromTable(keys, columns)
    ensures Longest(Join(keys), columns) != ""
    ensures Longest(Join(keys), columns) == keys[0]
       <==> forall c | c in columns && Fits(c, Join(keys)) :: |c| <= |keys[0]|
  {
    var text := Join(keys);
    JoinParts(keys);
    LongestIsLongest(text, columns);
    assert keys[0] in keys;
    if |Longest(text, columns)| == |keys[0]| {
      FittingNames(Longest(text, columns), keys[0], text);
    }
  }

  /** The first key of a list made of table names, and what is left for the next round. */
  lemma FirstRound(keys: seq<string>, columns: seq<string>)
    requires keys != [] && FromTable(keys, columns)
    ensures Split(Join(keys), columns) != []
    ensures Split(Join(keys), columns)[0] == Longest(Join(keys), columns)
    ensures Longest(Join(keys), columns) == keys[0] ==>
              Split(Join(keys), columns)[1..] == Split(Join(keys[1..]), columns)
  {
    JoinParts(keys);
    FirstCut(keys, columns);
    assert keys[0] in keys;
  }

  lemma HeadAndTail(a: seq<string>, b: seq<string>)
    requires a != [] && b != []
    ensures a == b <==> a[0] == b[0] && a[1..] == b[1..]
  {
    assert a == [a[0]] + a[1..] && b == [b[0]] + b[1..];
  }

  /** A list made of table names comes apart into those names exactly when no longer name fits anywhere. */
  lemma {:induction false} SplitExactly(keys: seq<string>, columns: seq<string>)
    requires FromTable(keys, columns)
    ensures Split(Join(keys), columns) == keys <==> NoLongerFit(keys, columns)
  {
    if keys == [] {
      // base case
    } else {
      FirstCut(keys, columns);
      FirstRound(keys, columns);
      SplitExactly(keys[1..], columns);
      HeadAndTail(Split(Join(keys), columns), keys);
    }
  }

  /** No name of the table continues another one past a separator. */
  ghost predicate NoNameExtends(columns: seq<string>) {
    forall c, d | c in columns && d in columns :: !(c + ", " <= d)
  }

  lemma LongerExtends(c: string, k: string, text: string)
    requires Fits(c, text) && Fits(k, text) && |k| < |c|
    ensures k + ", " <= c
  {
    assert SepAt(text, |k|);
    assert |c| != |k| + 1;
    assert c == text[..|c|] && k == text[..|k|];
    assert k + ", " == text[..|k| + 2];
  }

  lemma {:induction false} NothingLongerFits(keys: seq<string>, columns: seq<string>)
    requires FromTable(keys, columns) && NoNameExtends(columns)
    ensures NoLongerFit(keys, columns)
  {
    if keys == [] {
      // base case
    } else {
      var text, k := Join(keys), keys[0];
      assert k in keys;
      JoinParts(keys);
      forall c | c in columns && Fits(c, text)
        ensures |c| <= |k|
      {
        if |c| > |k| { LongerExtends(c, k, text); }
      }
      NothingLongerFits(keys[1..], columns);
    }
  }

  /** For a table in which no name extends another, every list of its names splits exactly. */
  lemma SplitOfJoin(keys: seq<string>, columns: seq<string>)
    requires FromTable(keys, columns) && NoNameExtends(columns)
    ensures Split(Join(keys), columns) == keys
  {
    NothingLongerFits(keys, columns);
    SplitExactly(keys, columns);
  }

  ghost predicate HasSep(s: string) {
    exists j: nat :: SepAt(s, j)
  }

  ghost predicate SepFree(names: seq<string>) {
    forall c | c in names :: !HasSep(c)
  }

  /** Names without the separator never extend one another. */
  lemma SepFreeTable(columns: seq<string>)
    requires SepFree(columns)
    ensures NoNameExtends(columns)
  {
    forall c, d | c in columns && d in columns && c + ", " <= d
      ensures HasSep(d)
    {
      assert d[|c|] == (c + ", ")[|c|] && d[|c| + 1] == (c + ", ")[|c| + 1];
      assert SepAt(d, |c|);
    }
  }

  /** A table for which the list is ambiguous: the longer name wins. */
  lemma LongerNameWins()
    ensures Split(Join(["a", "b"]), ["a", "b", "a, b"]) == ["a, b"]
    ensures !NoNameExtends(["a", "b", "a, b"])
  {
    var columns := ["a", "b", "a, b"];
    var text := "a, b";
    assert Join(["a", "b"]) == text by { assert Join(["b"]) == "b"; assert ["a", "b"][1..] == ["b"]; }
    LongestIsLongest(text, columns);
    assert columns[2] in columns && Fits("a, b", text);
    var name := Longest(text, columns);
    FittingNames(name, text, text);
    assert text[|text|..] == "";
    assert Split(text, columns) == [text] + Split("", columns);
    assert "a" + ", " <= columns[2] && columns[0] == "a";
  }

  // ------------------------------------------------ keys outside the table

  /** A key that is not in the table loses one leading blank if what follows is in it. */
  function Known(key: string, columns: seq<string>): string {
    if key !in columns && key != "" && key[0] == ' ' && key[1..] in columns && key[1..] != ""
    then key[1..] else key
  }

  function AllKnown(keys: seq<string>, columns: seq<string>): seq<string> {
    if keys == [] then [] else [Known(keys[0], columns)] + AllKnown(keys[1..], columns)
  }

  lemma SepInside(c: string, key: string, text: string)
    requires Fits(c, text) && key <= text && |c| + 1 < |key|
    ensures HasSep(key)
  {
    assert SepAt(key, |c|);
  }

  lemma NotBeforeTheKey(c: string, key: string, text: string)
    requires !HasSep(key) && Fits(c, text) && Fits(key, text)
    ensures |key| <= |c|
  {
    if |c| + 1 < |key| { SepInside(c, key, text); }
  }

  /** Among names without the separator only one fits a place in the list: the key there. */
  lemma OnlyTheKeyFits(c: string, key: string, text: string)
    requires !HasSep(c) && !HasSep(key)
    requires Fits(c, text) && Fits(key, text)
    ensures c == key
  {
    NotBeforeTheKey(c, key, text);
    NotBeforeTheKey(key, c, text);
    FittingNames(c, key, text);
  }

  lemma SepAfterKey(key: string, text: string)
    requires !HasSep(key) && Fits(key, text)
    ensures SepIndex(text) == |key|
  {
    assert forall j | 0 <= j < |key| - 1 :: SepAt(text, j) ==> SepAt(key, j);
    assert |key| > 0 && |key| < |text| ==> text[|key|] == ',';
  }

  lemma LongestSepFree(key: string, text: string, columns: seq<string>)
    requires !HasSep(key) && SepFree(columns) && Fits(key, text)
    ensures Longest(text, columns) == if key in columns then key else ""
  {
    LongestIsLongest(text, columns);
    var name := Longest(text, columns);
    if name != "" {
      assert name in columns;
      OnlyTheKeyFits(name, key, text);
    }
  }

  lemma NextKeySepFree(key: string, text: string, columns: seq<string>)
    requires key != "" && !HasSep(key) && SepFree(columns) && Fits(key, text)
    ensures var (skip, k) := NextKey(text, columns);
            k == Known(key, columns) && skip + |k| == |key|
  {
    LongestSepFree(key, text, columns);
    assert key == text[..|key|];
    if key !in columns {
      if text[0] == ' ' {
        assert key[1..] == text[1..][..|key| - 1];
        assert forall j: nat :: SepAt(key[1..], j) ==> SepAt(key, j + 1);
        LongestSepFree(key[1..], text[1..], columns);
      }
      SepAfterKey(key, text);
    }
  }

  /**
   With no separator inside any name, every list of nonempty keys comes apart into its
   keys, known or not; a blank before a known name, as Sybase puts it, is dropped.
   */
  lemma {:induction false} SplitSepFree(keys: seq<string>, columns: seq<string>)
    requires SepFree(columns) && SepFree(keys)
    requires forall k | k in keys :: k != ""
    ensures Split(Join(keys), columns) == AllKnown(keys, columns)
  {
    if keys == [] {
      // base case
    } else {
      assert keys[0] in keys;
      JoinParts(keys);
      NextKeySepFree(keys[0], Join(keys), columns);
      assert forall k | k in keys[1..] :: k in keys;
      SplitSepFree(keys[1..], columns);
    }
  }

  // ------------------------------------------------------ reading it back

  datatype Parsed = Keys(keys: seq<string>) | Malformed

  /** Reads the inside of a bracketed name: the name, and the text after its closing bracket. */
  function ParseName(s: string): (r: (string, string, bool))
    ensures r.2 ==> |r.1| < |s|
  {
    if s == "" then ("", "", false)
    else if s[0] != ']' then
      var (name, rest, ok) := ParseName(s[1..]);
      ([s[0]] + name, rest, ok)
    else if |s| > 1 && s[1] == ']' then
      var (name, rest, ok) := ParseName(s[2..]);
      ([']'] + name, rest, ok)
    else ("", s[1..], true)
  }

  /** Reads a quoted key list the way SQL reads bracketed identifiers. */
  function Parse(s: string): Parsed
    decreases |s|
  {
    if s == "" then Keys([])
    else if s[0] != '[' then Malformed
    else
      var (name, rest, ok) := ParseName(s[1..]);
      if !ok then Malformed
      else if rest == "" then Keys([name])
      else if rest[0] != ',' || |rest| == 1 then Malformed
      else match Parse(rest[1..])
        case Keys(keys) => Keys([name] + keys)
        case Malformed => Malformed
  }

  lemma {:induction false} ParseNameBack(name: string, rest: string)
    requires rest == "" || rest[0] != ']'
    ensures ParseName(Doubled(name, ']') + "]" + rest) == (name, rest, true)
  {
    var s := Doubled(name, ']') + "]" + rest;
    if name == "" {
      assert s == "]" + rest;
    } else {
      DoubledHead(name, ']');
      ParseNameBack(name[1..], rest);
      var tail := Doubled(name[1..], ']') + "]" + rest;
      assert name == [name[0]] + name[1..];
      if name[0] == ']' {
        assert s[2..] == tail;
      } else {
        assert s[1..] == tail;
      }
    }
  }

  lemma {:induction false} RenderHead(keys: seq<string>)
    requires keys != []
    ensures Render(keys) == Bracketed(keys[0]) + (if |keys| == 1 then "" else "," + Render(keys[1..]))
  {
    var n := |keys| - 1;
    if n > 0 {
      RenderHead(keys[..n]);
      assert keys[1..][..n - 1] == keys[..n][1..];
      if n == 1 {
        assert Render(keys[..n][1..]) == "";
      }
    }
  }

  /** A bracketed name at the front of a quoted list is read off. */
  lemma ParseHead(name: string, rest: string)
    requires rest == "" || (rest[0] == ',' && |rest| > 1)
    ensures Parse(Bracketed(name) + rest) ==
            if rest == "" then Keys([name])
            else match Parse(rest[1..])
              case Keys(keys) => Keys([name] + keys)
              case Malformed => Malformed
  {
    ParseNameBack(name, rest);
    assert (Bracketed(name) + rest)[1..] == Doubled(name, ']') + "]" + rest;
  }

  /** Every rendered list of keys reads back as exactly those keys. */
  lemma {:induction false} ParseOfRender(keys: seq<string>)
    ensures Parse(Render(keys)) == Keys(keys)
  {
    if |keys| == 1 {
      RenderHead(keys);
      ParseHead(keys[0], "");
    } else if |keys| > 1 {
      RenderHead(keys);
      RenderHead(keys[1..]);
      var rest := "," + Render(keys[1..]);
      ParseHead(keys[0], rest);
      assert rest[1..] == Render(keys[1..]);
      ParseOfRender(keys[1..]);
      assert keys == [keys[0]] + keys[1..];
    }
  }

  /** From the server's list through the quoted output back to the index keys. */
  lemma QuotedKeysAreTheKeys(keys: seq<string>, columns: seq<string>)
    requires FromTable(keys, columns) && NoNameExtends(columns)
    ensures Parse(Render(Split(Join(keys), columns))) == Keys(keys)
  {
    SplitOfJoin(keys, columns);
    ParseOfRender(keys);
  }
}
