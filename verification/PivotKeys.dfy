/**
 How the key columns of a result reach the pivot, and when its groups are the groups of
 the keys that the server sent.

 Each key column is bound to one variable for the whole result.  Fetching NULL sets the
 null indicator and leaves the bytes of an earlier row in place; fetching text drops
 trailing blanks, keeps one character less than the column's length and ends it with a
 NUL.  The comparison then looks at the bytes up to the NUL.  Texts are taken to be the
 same key when they differ in trailing blanks only.
 */
module PivotKeys {
  import opened Pivot
  import opened PivotLaws

  datatype Value = Null | Number(n: int) | Chars(t: string)

  datatype ResultRow = ResultRow(rowKey: seq<Value>, colKey: seq<Value>, value: Col)

  // ------------------------------------------------------------ one column

  function TrimEnd(t: string): (u: string)
    ensures u <= t
  {
    if t != "" && t[|t| - 1] == ' ' then TrimEnd(t[..|t| - 1]) else t
  }

  /** The part of a text that a variable of the given length keeps. */
  function Kept(t: string, len: nat): (u: string)
    requires len >= 1
    ensures |u| < len
  {
    var u := TrimEnd(t);
    if |u| + 1 > len then u[..len - 1] else u
  }

  /** Trimming takes off all blanks at the end, and nothing else. */
  lemma {:induction false} TrimEndIs(t: string)
    ensures var u := TrimEnd(t);
            && u <= t && (forall i | |u| <= i < |t| :: t[i] == ' ')
            && (u == "" || u[|u| - 1] != ' ')
  {
    if t != "" && t[|t| - 1] == ' ' {
      TrimEndIs(t[..|t| - 1]);
    } else {
      assert TrimEnd(t) == t;
    }
  }

  /** A text without blanks at the end is kept whole if it is shorter than the variable, else all but its rest. */
  lemma KeptIs(t: string, len: nat)
    requires len >= 1 && (t == "" || t[|t| - 1] != ' ')
    ensures Kept(t, len) == if |t| < len then t else t[..len - 1]
  {
  }

  /** The variable can take the value. */
  predicate Takes(c: Col, v: Value) {
    match v
    case Null => true
    case Number(_) => c.Num?
    case Chars(_) => c.Text? && |c.s| >= 1
  }

  /** The variable after the value was fetched. */
  function Fetch(c: Col, v: Value): Col
    requires Takes(c, v)
  {
    match v
    case Null => c.(isNull := true)
    case Number(n) => Num(c.kind, n, false)
    case Chars(t) =>
      if t == "" then Text(if |c.s| == 1 then "\0" else "\0\0" + c.s[2..], false)
      else
        var u := Kept(t, |c.s|);
        Text(u + "\0" + c.s[|u| + 1..], false)
  }

  ghost predicate SameVariable(a: Col, b: Col) {
    match a
    case Num(k, _, _) => b.Num? && b.kind == k
    case Text(s, _) => b.Text? && |b.s| == |s|
  }

  lemma FetchKeepsVariable(c: Col, v: Value)
    requires Takes(c, v)
    ensures SameVariable(c, Fetch(c, v))
  {
  }

  /** What the comparison sees of a variable that holds the value. */
  function Shown(c: Col, v: Value): Seen
    requires Takes(c, v) && v != Null
  {
    match v
    case Number(n) => SeenNum(c.kind, n)
    case Chars(t) => SeenText(|c.s|, Cut(Kept(t, |c.s|)))
  }

  lemma {:induction false} CutAtNul(u: string, rest: string)
    ensures Cut(u + "\0" + rest) == Cut(u)
  {
    if u == "" {
      assert ("\0" + rest)[0] == '\0';
      assert u + "\0" + rest == "\0" + rest;
    } else {
      CutAtNul(u[1..], rest);
      assert (u + "\0" + rest)[1..] == u[1..] + "\0" + rest;
    }
  }

  /** NULL is seen as what was there before, anything else as itself. */
  lemma SeeFetched(c: Col, v: Value)
    requires Takes(c, v)
    ensures See(Fetch(c, v)) == if v == Null then See(c) else Shown(c, v)
  {
    if v.Chars? && v.t != "" {
      var u := Kept(v.t, |c.s|);
      CutAtNul(u, c.s[|u| + 1..]);
    }
  }

  lemma ShownBy(a: Col, b: Col, v: Value)
    requires SameVariable(a, b) && Takes(a, v) && v != Null
    ensures Takes(b, v) && Shown(a, v) == Shown(b, v)
  {
  }

  // --------------------------------------------------------- the key columns

  ghost predicate TakesAll(cs: seq<Col>, vs: seq<Value>) {
    |cs| == |vs| && forall i | 0 <= i < |cs| :: Takes(cs[i], vs[i])
  }

  ghost predicate History(cs: seq<Col>, h: seq<seq<Value>>) {
    forall i | 0 <= i < |h| :: TakesAll(cs, h[i])
  }

  /** One variable after the values of its column were fetched row by row. */
  function After(c: Col, h: seq<Value>): (r: Col)
    requires forall i | 0 <= i < |h| :: Takes(c, h[i])
    ensures SameVariable(c, r)
  {
    if h == [] then c
    else
      var n := |h| - 1;
      assert Takes(c, h[n]);
      var d := After(c, h[..n]);
      FetchKeepsVariable(d, h[n]);
      Fetch(d, h[n])
  }

  function Column(h: seq<seq<Value>>, i: nat): seq<Value>
    requires forall j | 0 <= j < |h| :: i < |h[j]|
  {
    seq(|h|, j requires 0 <= j < |h| => h[j][i])
  }

  function Variables(cs: seq<Col>, h: seq<seq<Value>>): (r: seq<Col>)
    requires History(cs, h)
    ensures |r| == |cs|
  {
    seq(|cs|, i requires 0 <= i < |cs| => After(cs[i], Column(h, i)))
  }

  /** What the comparison sees: the last value that is not NULL, or what was there at first. */
  function LastShown(c: Col, h: seq<Value>): Seen
    requires forall i | 0 <= i < |h| :: Takes(c, h[i])
  {
    if h == [] then See(c)
    else if h[|h| - 1] == Null then LastShown(c, h[..|h| - 1])
    else Shown(c, h[|h| - 1])
  }

  lemma {:induction false} SeeAfter(c: Col, h: seq<Value>)
    requires forall i | 0 <= i < |h| :: Takes(c, h[i])
    ensures See(After(c, h)) == LastShown(c, h)
  {
    if h == [] {
      assert After(c, h) == c;
    } else {
      var n := |h| - 1;
      SeeAfter(c, h[..n]);
      SeeFetched(After(c, h[..n]), h[n]);
      if h[n] != Null { ShownBy(c, After(c, h[..n]), h[n]); }
    }
  }

  // ------------------------------------------------------------- the result

  function RowKeys(result: seq<ResultRow>): (h: seq<seq<Value>>)
    ensures |h| == |result| && forall i | 0 <= i < |h| :: h[i] == result[i].rowKey
  {
    seq(|result|, i requires 0 <= i < |result| => result[i].rowKey)
  }

  function ColKeys(result: seq<ResultRow>): (h: seq<seq<Value>>)
    ensures |h| == |result| && forall i | 0 <= i < |h| :: h[i] == result[i].colKey
  {
    seq(|result|, i requires 0 <= i < |result| => result[i].colKey)
  }

  /** The variables can take the keys of every row. */
  ghost predicate Bound(buf: Row, result: seq<ResultRow>) {
    forall i | 0 <= i < |result| :: TakesAll(buf.rowKey, result[i].rowKey) && TakesAll(buf.colKey, result[i].colKey)
  }

  /** The variables when the `i`-th row was fetched, all of them `buf` at first. */
  function InputAt(buf: Row, result: seq<ResultRow>, i: nat): Row
    requires Bound(buf, result) && i < |result|
  {
    Row(Variables(buf.rowKey, RowKeys(result)[..i + 1]), Variables(buf.colKey, ColKeys(result)[..i + 1]), result[i].value)
  }

  function Inputs(buf: Row, result: seq<ResultRow>): (rows: seq<Row>)
    requires Bound(buf, result)
    ensures |rows| == |result| && forall i | 0 <= i < |rows| :: rows[i] == InputAt(buf, result, i)
  {
    seq(|result|, i requires 0 <= i < |result| => InputAt(buf, result, i))
  }

  /** The variables see the same at two rows. */
  ghost predicate ShowSame(cs: seq<Col>, h: seq<seq<Value>>, i: nat, j: nat)
    requires History(cs, h) && i < |h| && j < |h|
  {
    forall k | 0 <= k < |cs| :: LastShown(cs[k], Column(h[..i + 1], k)) == LastShown(cs[k], Column(h[..j + 1], k))
  }

  lemma SameShown(cs: seq<Col>, h: seq<seq<Value>>, i: nat, j: nat)
    requires History(cs, h) && i < |h| && j < |h|
    ensures SeeAll(Variables(cs, h[..i + 1])) == SeeAll(Variables(cs, h[..j + 1])) <==> ShowSame(cs, h, i, j)
  {
    var a, b := SeeAll(Variables(cs, h[..i + 1])), SeeAll(Variables(cs, h[..j + 1]));
    forall k | 0 <= k < |cs|
      ensures a[k] == LastShown(cs[k], Column(h[..i + 1], k)) && b[k] == LastShown(cs[k], Column(h[..j + 1], k))
    {
      SeeAfter(cs[k], Column(h[..i + 1], k));
      SeeAfter(cs[k], Column(h[..j + 1], k));
    }
    assert a == b <==> forall k | 0 <= k < |cs| :: a[k] == b[k];
  }

  /**
   For every result: two rows are in one group exactly when in each key column the last
   values that are not NULL, as kept by the variable and up to a NUL, are the same.
   */
  lemma MergedExactly(buf: Row, result: seq<ResultRow>, i: nat, j: nat)
    requires Bound(buf, result) && i < |result| && j < |result|
    ensures KeyOf(Inputs(buf, result)[i]) == KeyOf(Inputs(buf, result)[j])
       <==> ShowSame(buf.rowKey, RowKeys(result), i, j) && ShowSame(buf.colKey, ColKeys(result), i, j)
  {
    SameShown(buf.rowKey, RowKeys(result), i, j);
    SameShown(buf.colKey, ColKeys(result), i, j);
  }

  // --------------------------------------------------------- the real groups

  /** A value as a key: trailing blanks do not count. */
  function Real(v: Value): Value {
    if v.Chars? then Chars(TrimEnd(v.t)) else v
  }

  function RealAll(vs: seq<Value>): (r: seq<Value>)
    ensures |r| == |vs| && forall i | 0 <= i < |vs| :: r[i] == Real(vs[i])
  {
    seq(|vs|, i requires 0 <= i < |vs| => Real(vs[i]))
  }

  datatype RealKey = RealKey(row: seq<Value>, col: seq<Value>)

  function RealOf(r: ResultRow): RealKey {
    RealKey(RealAll(r.rowKey), RealAll(r.colKey))
  }

  /** Any two rows are in one group of the pivot exactly when their keys are the same. */
  ghost predicate GroupsRight(rows: seq<Row>, result: seq<ResultRow>)
    requires |rows| == |result|
  {
    forall i, j | 0 <= i < |rows| && 0 <= j < |rows| ::
      KeyOf(rows[i]) == KeyOf(rows[j]) <==> RealOf(result[i]) == RealOf(result[j])
  }

  // -------------------------------------------- what a schema has to promise

  /** What is known of a key column: whether it can be NULL, its longest text, whether text can hold a NUL. */
  datatype Spec = Spec(nullable: bool, maxText: nat, nul: bool)

  ghost predicate Allows(spec: Spec, v: Value) {
    match v
    case Null => spec.nullable
    case Number(_) => true
    case Chars(t) => |TrimEnd(t)| <= spec.maxText && (spec.nul || '\0' !in t)
  }

  ghost predicate AllowsAll(specs: seq<Spec>, vs: seq<Value>) {
    |specs| == |vs| && forall i | 0 <= i < |vs| :: Allows(specs[i], vs[i])
  }

  /** The column is NOT NULL, and its texts are shorter than its length and free of NUL. */
  predicate Safe(spec: Spec, c: Col) {
    && !spec.nullable
    && (c.Text? ==> spec.maxText < |c.s| && (spec.maxText == 0 || !spec.nul))
  }

  predicate AllSafe(specs: seq<Spec>, cs: seq<Col>) {
    |specs| == |cs| && forall i | 0 <= i < |cs| :: Safe(specs[i], cs[i])
  }

  lemma {:induction false} CutNothing(s: string)
    requires '\0' !in s
    ensures Cut(s) == s
  {
    if s == "" {
      assert Cut(s) == "";
    } else {
      CutNothing(s[1..]);
      assert s == [s[0]] + s[1..];
    }
  }

  /** In a safe column a text is seen whole, trailing blanks aside. */
  lemma SafeText(spec: Spec, c: Col, t: string)
    requires Safe(spec, c) && Takes(c, Chars(t)) && Allows(spec, Chars(t))
    ensures Cut(Kept(t, |c.s|)) == TrimEnd(t)
  {
    CutNothing(TrimEnd(t));
  }

  lemma SafeShown(spec: Spec, c: Col, v: Value, w: Value)
    requires Safe(spec, c) && Takes(c, v) && Takes(c, w) && Allows(spec, v) && Allows(spec, w)
    ensures Shown(c, v) == Shown(c, w) <==> Real(v) == Real(w)
  {
    if v.Chars? {
      SafeText(spec, c, v.t);
      SafeText(spec, c, w.t);
    }
  }

  lemma SafeKeys(specs: seq<Spec>, cs: seq<Col>, h: seq<seq<Value>>, i: nat, j: nat)
    requires AllSafe(specs, cs) && History(cs, h) && i < |h| && j < |h|
    requires forall k | 0 <= k < |h| :: AllowsAll(specs, h[k])
    ensures ShowSame(cs, h, i, j) <==> RealAll(h[i]) == RealAll(h[j])
  {
    var a, b := RealAll(h[i]), RealAll(h[j]);
    forall k | 0 <= k < |cs|
      ensures LastShown(cs[k], Column(h[..i + 1], k)) == LastShown(cs[k], Column(h[..j + 1], k)) <==> a[k] == b[k]
    {
      assert Takes(cs[k], h[i][k]) && Takes(cs[k], h[j][k]) && Allows(specs[k], h[i][k]) && Allows(specs[k], h[j][k]);
      SafeShown(specs[k], cs[k], h[i][k], h[j][k]);
    }
    assert a == b <==> forall k | 0 <= k < |cs| :: a[k] == b[k];
  }

  /** The result is one that the schema allows. */
  ghost predicate Conforms(buf: Row, rowSpecs: seq<Spec>, colSpecs: seq<Spec>, result: seq<ResultRow>) {
    && Bound(buf, result)
    && forall i | 0 <= i < |result| :: AllowsAll(rowSpecs, result[i].rowKey) && AllowsAll(colSpecs, result[i].colKey)
  }

  /** With safe key columns the groups are those of the keys. */
  lemma SafeIsRight(buf: Row, rowSpecs: seq<Spec>, colSpecs: seq<Spec>, result: seq<ResultRow>)
    requires AllSafe(rowSpecs, buf.rowKey) && AllSafe(colSpecs, buf.colKey)
    requires Conforms(buf, rowSpecs, colSpecs, result)
    ensures GroupsRight(Inputs(buf, result), result)
  {
    forall i, j | 0 <= i < |result| && 0 <= j < |result|
      ensures KeyOf(Inputs(buf, result)[i]) == KeyOf(Inputs(buf, result)[j]) <==> RealOf(result[i]) == RealOf(result[j])
    {
      MergedExactly(buf, result, i, j);
      SafeKeys(rowSpecs, buf.rowKey, RowKeys(result), i, j);
      SafeKeys(colSpecs, buf.colKey, ColKeys(result), i, j);
    }
  }

  /** Every variable of text has room for a NUL. */
  predicate HasRoom(cs: seq<Col>) {
    forall i | 0 <= i < |cs| :: cs[i].Text? ==> |cs[i].s| >= 1
  }

  function Plain(c: Col): Value {
    if c.Num? then Number(0) else Chars("")
  }

  function Fill(n: nat, last: char): (s: string)
    ensures |s| == n + 1 && s[n] == last
  {
    seq(n, _ => 'a') + [last]
  }

  /** A column that is not safe takes two different keys, one after the other, that are seen alike. */
  lemma UnsafeColumn(spec: Spec, c: Col) returns (v: Value, w: Value)
    requires !Safe(spec, c) && (c.Text? ==> |c.s| >= 1)
    ensures Takes(c, v) && Takes(c, w) && Allows(spec, v) && Allows(spec, w)
    ensures v != Null && Real(v) != Real(w) && (w == Null || Shown(c, v) == Shown(c, w))
  {
    if spec.nullable {
      v, w := Plain(c), Null;
    } else if spec.maxText >= |c.s| {
      var n := |c.s| - 1;
      v, w := Chars(Fill(n, 'b')), Chars(Fill(n, 'c'));
      assert Kept(v.t, n + 1) == v.t[..n] == w.t[..n] == Kept(w.t, n + 1);
    } else {
      v, w := Chars(""), Chars("\0");
      assert Kept("\0", |c.s|) in {"", "\0"};
    }
  }

  lemma OneAndTwo(c: Col, v: Value, w: Value)
    requires Takes(c, v) && Takes(c, w) && v != Null && (w == Null || Shown(c, v) == Shown(c, w))
    ensures LastShown(c, [v]) == LastShown(c, [v, w])
  {
    assert [v, w][..1] == [v];
  }

  /** Keys of two rows that are seen alike, when each pair of values is. */
  lemma TwoRowsShowSame(cs: seq<Col>, vs: seq<Value>, ws: seq<Value>)
    requires TakesAll(cs, vs) && TakesAll(cs, ws)
    requires forall i | 0 <= i < |cs| :: vs[i] != Null && (ws[i] == Null || Shown(cs[i], vs[i]) == Shown(cs[i], ws[i]))
    ensures History(cs, [vs, ws]) && ShowSame(cs, [vs, ws], 0, 1)
  {
    var h := [vs, ws];
    forall k | 0 <= k < |cs|
      ensures LastShown(cs[k], Column(h[..1], k)) == LastShown(cs[k], Column(h[..2], k))
    {
      OneAndTwo(cs[k], vs[k], ws[k]);
      assert Column(h[..1], k) == [vs[k]];
      assert Column(h[..2], k) == [vs[k], ws[k]];
    }
  }

  lemma PlainKeys(specs: seq<Spec>, cs: seq<Col>) returns (vs: seq<Value>)
    requires |specs| == |cs| && HasRoom(cs)
    ensures TakesAll(cs, vs) && AllowsAll(specs, vs) && forall i | 0 <= i < |cs| :: vs[i] == Plain(cs[i])
  {
    vs := seq(|cs|, i requires 0 <= i < |cs| => Plain(cs[i]));
  }

  lemma UnsafeKeys(specs: seq<Spec>, cs: seq<Col>) returns (vs: seq<Value>, ws: seq<Value>)
    requires |specs| == |cs| && HasRoom(cs) && !AllSafe(specs, cs)
    ensures TakesAll(cs, vs) && TakesAll(cs, ws) && AllowsAll(specs, vs) && AllowsAll(specs, ws)
    ensures RealAll(vs) != RealAll(ws) && ShowSame(cs, [vs, ws], 0, 1)
  {
    var k :| 0 <= k < |cs| && !Safe(specs[k], cs[k]);
    var v, w := UnsafeColumn(specs[k], cs[k]);
    var ds := PlainKeys(specs, cs);
    vs, ws := ds[k := v], ds[k := w];
    TwoRowsShowSame(cs, vs, ws);
    assert RealAll(vs)[k] != RealAll(ws)[k];
  }

  lemma TwoKeys(a: ResultRow, b: ResultRow)
    ensures RowKeys([a, b]) == [a.rowKey, b.rowKey] && ColKeys([a, b]) == [a.colKey, b.colKey]
  {
  }

  /** Two rows that are seen alike in all key columns are merged. */
  lemma TwoRowsMerged(buf: Row, a: ResultRow, b: ResultRow)
    requires Bound(buf, [a, b])
    requires TakesAll(buf.rowKey, a.rowKey) && TakesAll(buf.rowKey, b.rowKey)
    requires TakesAll(buf.colKey, a.colKey) && TakesAll(buf.colKey, b.colKey)
    requires ShowSame(buf.rowKey, [a.rowKey, b.rowKey], 0, 1) && ShowSame(buf.colKey, [a.colKey, b.colKey], 0, 1)
    ensures KeyOf(Inputs(buf, [a, b])[0]) == KeyOf(Inputs(buf, [a, b])[1])
  {
    TwoKeys(a, b);
    MergedExactly(buf, [a, b], 0, 1);
  }

  /** For key columns of which one is not safe there is a result whose groups are wrong. */
  lemma UnsafeIsWrong(buf: Row, rowSpecs: seq<Spec>, colSpecs: seq<Spec>, value: Col) returns (result: seq<ResultRow>)
    requires |rowSpecs| == |buf.rowKey| && |colSpecs| == |buf.colKey| && HasRoom(buf.rowKey) && HasRoom(buf.colKey)
    requires !AllSafe(rowSpecs, buf.rowKey) || !AllSafe(colSpecs, buf.colKey)
    ensures Conforms(buf, rowSpecs, colSpecs, result) && !GroupsRight(Inputs(buf, result), result)
  {
    var a, b;
    if !AllSafe(rowSpecs, buf.rowKey) {
      var vs, ws := UnsafeKeys(rowSpecs, buf.rowKey);
      var ds := PlainKeys(colSpecs, buf.colKey);
      TwoRowsShowSame(buf.colKey, ds, ds);
      a, b := ResultRow(vs, ds, value), ResultRow(ws, ds, value);
    } else {
      var vs, ws := UnsafeKeys(colSpecs, buf.colKey);
      var ds := PlainKeys(rowSpecs, buf.rowKey);
      TwoRowsShowSame(buf.rowKey, ds, ds);
      a, b := ResultRow(ds, vs, value), ResultRow(ds, ws, value);
    }
    result := [a, b];
    TwoRowsMerged(buf, a, b);
    assert RealOf(result[0]) != RealOf(result[1]);
  }

  /**
   The pivot groups every result that a schema allows by its keys, if and only if each key
   column is NOT NULL and its texts are shorter than its length and free of NUL.
   */
  lemma RightExactlyWhenSafe(buf: Row, rowSpecs: seq<Spec>, colSpecs: seq<Spec>)
    requires |rowSpecs| == |buf.rowKey| && |colSpecs| == |buf.colKey| && HasRoom(buf.rowKey) && HasRoom(buf.colKey)
    ensures AllSafe(rowSpecs, buf.rowKey) && AllSafe(colSpecs, buf.colKey)
       <==> forall result | Conforms(buf, rowSpecs, colSpecs, result) :: GroupsRight(Inputs(buf, result), result)
  {
    if AllSafe(rowSpecs, buf.rowKey) && AllSafe(colSpecs, buf.colKey) {
      forall result | Conforms(buf, rowSpecs, colSpecs, result)
        ensures GroupsRight(Inputs(buf, result), result)
      {
        SafeIsRight(buf, rowSpecs, colSpecs, result);
      }
    } else {
      var result := UnsafeIsWrong(buf, rowSpecs, colSpecs, buf.value);
    }
  }

  // ---------------------------------------------------------- wrong groups

  lemma OneKey(rows: seq<Row>)
    requires |rows| == 2 && KeyOf(rows[0]) == KeyOf(rows[1])
    ensures |Keys(rows)| == 1
  {
    assert rows[..1] == [rows[0]] && [rows[0]][..0] == [];
    assert Keys([rows[0]]) == [KeyOf(rows[0])];
  }

  /** One variable for the row key, and numbers for the column key and the value. */
  function OneOfEach(c: Col): Row {
    Row([c], [Num(Int, 0, false)], Num(Int, 0, false))
  }

  /** Two rows with the given values as row keys and the same column key. */
  function TwoRows(v: Value, w: Value): seq<ResultRow> {
    var value := Num(Int, 1, false);
    [ResultRow([v], [Number(1)], value), ResultRow([w], [Number(1)], value)]
  }

  lemma OneEntryForTwo(c: Col, v: Value, w: Value)
    requires Takes(c, v) && Takes(c, w) && v != Null && (w == Null || Shown(c, v) == Shown(c, w))
    ensures var buf := OneOfEach(c);
            Bound(buf, TwoRows(v, w)) && |Keys(Inputs(buf, TwoRows(v, w)))| == 1
  {
    var buf, result := OneOfEach(c), TwoRows(v, w);
    TwoRowsShowSame([c], [v], [w]);
    TwoRowsShowSame(buf.colKey, [Number(1)], [Number(1)]);
    TwoRowsMerged(buf, result[0], result[1]);
    OneKey(Inputs(buf, result));
  }

  /**
   Different keys that get one entry: NULL after 7; two texts that fill a column of two
   characters; two texts of which one goes on behind a NUL.
   */
  lemma WrongGroups()
    ensures var buf := OneOfEach(Num(Int, 0, false));
            Bound(buf, TwoRows(Number(7), Null)) && |Keys(Inputs(buf, TwoRows(Number(7), Null)))| == 1
    ensures var buf := OneOfEach(Text("xy", false));
            Bound(buf, TwoRows(Chars("ab"), Chars("ac"))) && |Keys(Inputs(buf, TwoRows(Chars("ab"), Chars("ac"))))| == 1
    ensures var buf := OneOfEach(Text("wxyz", false));
            Bound(buf, TwoRows(Chars("a"), Chars("a\0b"))) && |Keys(Inputs(buf, TwoRows(Chars("a"), Chars("a\0b"))))| == 1
  {
    OneEntryForTwo(Num(Int, 0, false), Number(7), Null);
    assert Kept("ab", 2) == "a" == Kept("ac", 2);
    OneEntryForTwo(Text("xy", false), Chars("ab"), Chars("ac"));
    CutAtNul("a", "b");
    assert "a\0b" == "a" + "\0" + "b";
    assert Kept("a", 4) == "a" && Kept("a\0b", 4) == "a\0b";
    OneEntryForTwo(Text("wxyz", false), Chars("a"), Chars("a\0b"));
  }

  // ------------------------------------------------------------ right groups

  /** The keys of the result, each once, in the order of their first appearance. */
  function RealKeys(result: seq<ResultRow>): seq<RealKey> {
    if result == [] then []
    else
      var n := |result| - 1;
      var keys := RealKeys(result[..n]);
      if RealOf(result[n]) in keys then keys else keys + [RealOf(result[n])]
  }

  /** The values of the rows with a key, in the order of arrival. */
  function RealGroup(result: seq<ResultRow>, k: RealKey): seq<Col> {
    if result == [] then []
    else
      var n := |result| - 1;
      RealGroup(result[..n], k) + (if RealOf(result[n]) == k then [result[n].value] else [])
  }

  ghost predicate SameValues(rows: seq<Row>, result: seq<ResultRow>) {
    |rows| == |result| && forall i | 0 <= i < |rows| :: rows[i].value == result[i].value
  }

  /** The `i`-th key of the one is the `i`-th key of the other, at every row. */
  ghost predicate SameKeys(rows: seq<Row>, result: seq<ResultRow>, keys: seq<Key>, keys1: seq<RealKey>)
    requires |rows| == |result|
  {
    && |keys| == |keys1|
    && forall i, p | 0 <= i < |keys| && 0 <= p < |rows| :: keys[i] == KeyOf(rows[p]) <==> keys1[i] == RealOf(result[p])
  }

  /** A new row belongs to corresponding keys, or to none. */
  lemma NextRowsKey(rows: seq<Row>, result: seq<ResultRow>, keys: seq<Key>, keys1: seq<RealKey>, n: nat)
    requires |rows| == |result| && GroupsRight(rows, result) && n < |rows|
    requires SameKeys(rows[..n], result[..n], keys, keys1) && keys == Keys(rows[..n])
    ensures forall i | 0 <= i < |keys| :: keys[i] == KeyOf(rows[n]) <==> keys1[i] == RealOf(result[n])
  {
    forall i | 0 <= i < |keys|
      ensures keys[i] == KeyOf(rows[n]) <==> keys1[i] == RealOf(result[n])
    {
      KeysAreTheRowsKeys(rows[..n], keys[i]);
      var q :| 0 <= q < n && KeyOf(rows[..n][q]) == keys[i];
      assert keys1[i] == RealOf(result[..n][q]);
      assert rows[..n][q] == rows[q] && result[..n][q] == result[q];
    }
  }

  lemma RightPrefix(rows: seq<Row>, result: seq<ResultRow>, n: nat)
    requires |rows| == |result| && GroupsRight(rows, result) && n <= |rows|
    ensures GroupsRight(rows[..n], result[..n])
  {
  }

  lemma KeysGrow(rows: seq<Row>, result: seq<ResultRow>, keys: seq<Key>, keys1: seq<RealKey>)
    requires |rows| == |result| && GroupsRight(rows, result) && rows != []
    requires keys == Keys(rows[..|rows| - 1]) && keys1 == RealKeys(result[..|rows| - 1])
    requires SameKeys(rows[..|rows| - 1], result[..|rows| - 1], keys, keys1)
    requires forall i | 0 <= i < |keys| :: keys[i] == KeyOf(rows[|rows| - 1]) <==> keys1[i] == RealOf(result[|rows| - 1])
    ensures SameKeys(rows, result, Keys(rows), RealKeys(result))
  {
    var n := |rows| - 1;
    assert KeyOf(rows[n]) in keys <==> RealOf(result[n]) in keys1;
    forall i, p | 0 <= i < |keys| && 0 <= p < |rows|
      ensures keys[i] == KeyOf(rows[p]) <==> keys1[i] == RealOf(result[p])
    {
      if p < n {
        assert rows[..n][p] == rows[p] && result[..n][p] == result[p];
      }
    }
  }

  /** Where the groups are right, the pivot has the keys of the result, in the same order. */
  lemma {:induction false} SameKeysInOrder(rows: seq<Row>, result: seq<ResultRow>)
    requires |rows| == |result| && GroupsRight(rows, result)
    ensures SameKeys(rows, result, Keys(rows), RealKeys(result))
    decreases |rows|
  {
    if rows == [] {
      assert Keys(rows) == [] && RealKeys(result) == [];
    } else {
      var n := |rows| - 1;
      RightPrefix(rows, result, n);
      SameKeysInOrder(rows[..n], result[..n]);
      NextRowsKey(rows, result, Keys(rows[..n]), RealKeys(result[..n]), n);
      KeysGrow(rows, result, Keys(rows[..n]), RealKeys(result[..n]));
    }
  }

  lemma {:induction false} SameGroups(rows: seq<Row>, result: seq<ResultRow>, k: Key, r: RealKey)
    requires SameValues(rows, result)
    requires forall p | 0 <= p < |rows| :: k == KeyOf(rows[p]) <==> r == RealOf(result[p])
    ensures Group(rows, k) == RealGroup(result, r)
    decreases |rows|
  {
    if rows == [] {
      assert Group(rows, k) == [] && RealGroup(result, r) == [];
    } else {
      var n := |rows| - 1;
      assert forall p | 0 <= p < n :: rows[..n][p] == rows[p] && result[..n][p] == result[p];
      SameGroups(rows[..n], result[..n], k, r);
    }
  }

  /**
   Where the groups are right the pivot is the group-by of the result itself: an entry for
   each of its keys, in the order of first appearance, with the fold of that key's values.
   */
  lemma PivotOfResult(rows: seq<Row>, result: seq<ResultRow>, agg: Agg, start: nat -> int, output: seq<Entry>)
    requires SameValues(rows, result) && GroupsRight(rows, result) && IsPivot(rows, agg, start, output)
    ensures |output| == |RealKeys(result)|
    ensures forall i | 0 <= i < |output| :: output[i].acc == Fold(agg, start(i), RealGroup(result, RealKeys(result)[i]))
  {
    SameKeysInOrder(rows, result);
    forall i | 0 <= i < |output|
      ensures output[i].acc == Fold(agg, start(i), RealGroup(result, RealKeys(result)[i]))
    {
      SameGroups(rows, result, Keys(rows)[i], RealKeys(result)[i]);
    }
  }

  // ------------------------------------------------------------- the program

  lemma FetchNext(cs: seq<Col>, h: seq<seq<Value>>, i: nat, k: nat)
    requires History(cs, h) && i < |h| && k < |cs|
    ensures Takes(Variables(cs, h[..i])[k], h[i][k])
    ensures Variables(cs, h[..i + 1])[k] == Fetch(Variables(cs, h[..i])[k], h[i][k])
  {
    var a, b := Column(h[..i], k), Column(h[..i + 1], k);
    assert b[..i] == a && b[i] == h[i][k];
    assert Takes(cs[k], h[i][k]);
  }

  /** Fetches one row's values into the variables of a key. */
  method FetchKey(vars: seq<Col>, vs: seq<Value>, ghost cs: seq<Col>, ghost h: seq<seq<Value>>, ghost i: nat)
    returns (next: seq<Col>)
    requires History(cs, h) && i < |h| && vars == Variables(cs, h[..i]) && vs == h[i]
    ensures next == Variables(cs, h[..i + 1])
  {
    next := [];
    for k := 0 to |vars|
      invariant |next| == k && forall j | 0 <= j < k :: next[j] == Variables(cs, h[..i + 1])[j]
    {
      FetchNext(cs, h, i, k);
      next := next + [Fetch(vars[k], vs[k])];
    }
  }

  lemma OneShape(buf: Row, result: seq<ResultRow>)
    requires Bound(buf, result)
    ensures OneResult(Inputs(buf, result))
  {
    var rows := Inputs(buf, result);
    forall i | 0 <= i < |rows|
      ensures SameTypes(buf.rowKey, rows[i].rowKey) && SameTypes(buf.colKey, rows[i].colKey)
    {
      assert rows[i] == InputAt(buf, result, i);
    }
  }

  lemma NothingFetched(cs: seq<Col>)
    ensures Variables(cs, []) == cs
  {
  }

  /** Fetches the rows of a result, one after the other, into the same variables. */
  method ReadInputs(buf: Row, result: seq<ResultRow>) returns (rows: seq<Row>)
    requires Bound(buf, result)
    ensures rows == Inputs(buf, result)
  {
    rows := [];
    var rowVars, colVars := buf.rowKey, buf.colKey;
    ghost var h, g := RowKeys(result), ColKeys(result);
    NothingFetched(rowVars);
    NothingFetched(colVars);
    assert h[..0] == [] && g[..0] == [];
    for i := 0 to |result|
      invariant History(buf.rowKey, h) && History(buf.colKey, g)
      invariant rowVars == Variables(buf.rowKey, h[..i]) && colVars == Variables(buf.colKey, g[..i])
      invariant |rows| == i && forall j | 0 <= j < i :: rows[j] == InputAt(buf, result, j)
    {
      rowVars := FetchKey(rowVars, result[i].rowKey, buf.rowKey, h, i);
      colVars := FetchKey(colVars, result[i].colKey, buf.colKey, g, i);
      rows := rows + [Row(rowVars, colVars, result[i].value)];
    }
  }

  /** The whole: fetch and aggregate.  With safe key columns the outcome is the result's own group-by. */
  method PivotResult(buf: Row, result: seq<ResultRow>, agg: Agg, start: nat -> int,
                     ghost rowSpecs: seq<Spec>, ghost colSpecs: seq<Spec>)
    returns (output: seq<Entry>)
    requires Conforms(buf, rowSpecs, colSpecs, result)
    ensures IsPivot(Inputs(buf, result), agg, start, output)
    ensures AllSafe(rowSpecs, buf.rowKey) && AllSafe(colSpecs, buf.colKey) ==>
              && |output| == |RealKeys(result)|
              && forall i | 0 <= i < |output| ::
                   output[i].acc == Fold(agg, start(i), RealGroup(result, RealKeys(result)[i]))
  {
    var rows := ReadInputs(buf, result);
    OneShape(buf, result);
    output := ComputePivot(rows, agg, start);
    if AllSafe(rowSpecs, buf.rowKey) && AllSafe(colSpecs, buf.colKey) {
      SafeIsRight(buf, rowSpecs, colSpecs, result);
      PivotOfResult(rows, result, agg, start, output);
    }
  }
}
