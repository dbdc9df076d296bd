/**
 The aggregation loop of dbpivot: rows are grouped by row key and column key with a
 linear search, and each group's value is accumulated by one of four functions.

 Key comparison looks at the data of a column only: not at its null indicator, and in
 text not behind the first NUL.  A new entry's value is not initialised by the program,
 so its starting value is a parameter of the model.  Floating-point columns are left out.
 */
module Pivot {

  /** Which member of the data union a numeric column uses. */
  datatype Kind = Tiny | Small | Int

  datatype Col = Num(kind: Kind, value: int, isNull: bool) | Text(s: string, isNull: bool)

  datatype Row = Row(rowKey: seq<Col>, colKey: seq<Col>, value: Col)

  datatype Entry = Entry(rowKey: seq<Col>, colKey: seq<Col>, acc: int)

  datatype Agg = Count | Sum | Min | Max

  /** What a number becomes when it is stored in a column. */
  function Wrap(k: Kind, x: int): int {
    match k
    case Tiny => x % 0x100
    case Small => (x + 0x8000) % 0x1_0000 - 0x8000
    case Int => (x + 0x8000_0000) % 0x1_0000_0000 - 0x8000_0000
  }

  /** One application of the aggregate function to an entry's value. */
  function Apply(agg: Agg, tgt: int, src: Col): int {
    if src.isNull then tgt
    else match agg
      case Count => Wrap(Int, tgt + 1)
      case Sum => if src.Num? then Wrap(src.kind, tgt + src.value) else 0
      case Min => if src.Num? then (if tgt < src.value then tgt else src.value) else 0
      case Max => if src.Num? then (if tgt > src.value then tgt else src.value) else 0
  }

  // ------------------------------------------------------------ comparing

  /** A column without what the comparison does not see. */
  datatype Seen = SeenNum(kind: Kind, value: int) | SeenText(len: nat, s: string)

  /** The text before the first NUL. */
  function Cut(s: string): string {
    if s == "" || s[0] == '\0' then "" else [s[0]] + Cut(s[1..])
  }

  function See(c: Col): Seen {
    match c
    case Num(k, v, _) => SeenNum(k, v)
    case Text(s, _) => SeenText(|s|, Cut(s))
  }

  function SeeAll(cs: seq<Col>): (r: seq<Seen>)
    ensures |r| == |cs| && forall i | 0 <= i < |cs| :: r[i] == See(cs[i])
  {
    seq(|cs|, i requires 0 <= i < |cs| => See(cs[i]))
  }

  /** A row's group: both keys as the comparison sees them. */
  datatype Key = Key(row: seq<Seen>, col: seq<Seen>)

  function KeyOf(r: Row): Key {
    Key(SeeAll(r.rowKey), SeeAll(r.colKey))
  }

  function EntryKey(e: Entry): Key {
    Key(SeeAll(e.rowKey), SeeAll(e.colKey))
  }

  ghost predicate SameTypes(a: seq<Col>, b: seq<Col>) {
    |a| == |b| && forall i | 0 <= i < |a| :: a[i].Num? == b[i].Num? && (a[i].Num? ==> a[i].kind == b[i].kind)
  }

  lemma CutDiffers(a: string, b: string)
    requires a != "" && b != "" && a[0] != b[0]
    ensures Cut(a) != Cut(b)
  {
    assert a[0] != '\0' ==> Cut(a)[0] == a[0];
    assert b[0] != '\0' ==> Cut(b)[0] == b[0];
  }

  lemma CutStep(a: string, b: string)
    requires a != "" && b != "" && a[0] == b[0] != '\0'
    ensures Cut(a) == Cut(b) <==> Cut(a[1..]) == Cut(b[1..])
  {
    assert Cut(a)[1..] == Cut(a[1..]) && Cut(b)[1..] == Cut(b[1..]);
  }

  /** The comparison of `strncmp` on two texts of the same length. */
  method SameText(a: string, b: string) returns (same: bool)
    requires |a| == |b|
    ensures same <==> Cut(a) == Cut(b)
  {
    var i := 0;
    while i < |a| && a[i] == b[i] && a[i] != '\0'
      invariant i <= |a|
      invariant Cut(a) == Cut(b) <==> Cut(a[i..]) == Cut(b[i..])
    {
      i := i + 1;
      CutStep(a[i - 1..], b[i - 1..]);
      assert a[i - 1..][1..] == a[i..] && b[i - 1..][1..] == b[i..];
    }
    same := i == |a| || a[i] == b[i];
    if i < |a| && a[i] != b[i] {
      CutDiffers(a[i..], b[i..]);
    }
  }

  method ColEqual(a: Col, b: Col) returns (same: bool)
    requires SameTypes([a], [b])
    ensures same <==> See(a) == See(b)
  {
    assert [a][0] == a && [b][0] == b;
    match a
    case Text(s, _) =>
      if |s| != |b.s| {
        return false;
      }
      same := SameText(s, b.s);
    case Num(_, v, _) =>
      same := v == b.value;
  }

  method KeysEqual(a: seq<Col>, b: seq<Col>) returns (same: bool)
    requires SameTypes(a, b)
    ensures same <==> SeeAll(a) == SeeAll(b)
  {
    for i := 0 to |a|
      invariant forall j | 0 <= j < i :: See(a[j]) == See(b[j])
    {
      assert SameTypes([a[i]], [b[i]]);
      var eq := ColEqual(a[i], b[i]);
      if !eq {
        assert SeeAll(a)[i] != SeeAll(b)[i];
        return false;
      }
    }
    same := true;
  }

  ghost predicate SameShape(e: Entry, r: Row) {
    SameTypes(e.rowKey, r.rowKey) && SameTypes(e.colKey, r.colKey)
  }

  method AggEqual(e: Entry, r: Row) returns (same: bool)
    requires SameShape(e, r)
    ensures same <==> EntryKey(e) == KeyOf(r)
  {
    same := KeysEqual(e.rowKey, r.rowKey);
    if same {
      same := KeysEqual(e.colKey, r.colKey);
    }
  }

  /** The first entry with the row's key, or -1. */
  method Find(r: Row, output: seq<Entry>) returns (i: int)
    requires forall e | e in output :: SameShape(e, r)
    ensures -1 <= i < |output|
    ensures i >= 0 ==> EntryKey(output[i]) == KeyOf(r)
    ensures forall j | 0 <= j < (if i < 0 then |output| else i) :: EntryKey(output[j]) != KeyOf(r)
  {
    for n := 0 to |output|
      invariant forall j | 0 <= j < n :: EntryKey(output[j]) != KeyOf(r)
    {
      var same := AggEqual(output[n], r);
      if same {
        return n;
      }
    }
    i := -1;
  }

  // ------------------------------------------------------------- grouping

  /** The keys of the rows, each once, in the order of their first appearance. */
  function Keys(rows: seq<Row>): seq<Key> {
    if rows == [] then []
    else
      var n := |rows| - 1;
      var keys := Keys(rows[..n]);
      if KeyOf(rows[n]) in keys then keys else keys + [KeyOf(rows[n])]
  }

  /** The values of the rows with a key, in the order of arrival. */
  function Group(rows: seq<Row>, k: Key): seq<Col> {
    if rows == [] then []
    else
      var n := |rows| - 1;
      Group(rows[..n], k) + (if KeyOf(rows[n]) == k then [rows[n].value] else [])
  }

  /** The aggregate function applied to the values one after the other. */
  function Fold(agg: Agg, start: int, values: seq<Col>): int {
    if values == [] then start
    else
      var n := |values| - 1;
      Apply(agg, Fold(agg, start, values[..n]), values[n])
  }

  /** The rows all come from one result: corresponding columns have the same type. */
  ghost predicate OneResult(rows: seq<Row>) {
    forall i, j | 0 <= i < |rows| && 0 <= j < |rows| ::
      SameTypes(rows[i].rowKey, rows[j].rowKey) && SameTypes(rows[i].colKey, rows[j].colKey)
  }

  /** Group-by: an entry for each key, with the fold of its group from its starting value. */
  ghost predicate IsPivot(rows: seq<Row>, agg: Agg, start: nat -> int, output: seq<Entry>) {
    && |output| == |Keys(rows)|
    && forall i | 0 <= i < |output| ::
         && EntryKey(output[i]) == Keys(rows)[i]
         && output[i].acc == Fold(agg, start(i), Group(rows, Keys(rows)[i]))
  }

  lemma GroupSnoc(rows: seq<Row>, r: Row, k: Key)
    ensures Group(rows + [r], k) == Group(rows, k) + (if KeyOf(r) == k then [r.value] else [])
    ensures Keys(rows + [r]) == if KeyOf(r) in Keys(rows) then Keys(rows) else Keys(rows) + [KeyOf(r)]
  {
    assert (rows + [r])[..|rows|] == rows;
  }

  lemma FoldSnoc(agg: Agg, start: int, values: seq<Col>, v: Col)
    ensures Fold(agg, start, values + [v]) == Apply(agg, Fold(agg, start, values), v)
  {
    assert (values + [v])[..|values|] == values;
  }

  /** A key that has not appeared has no values. */
  lemma {:induction false} NoGroupYet(rows: seq<Row>, k: Key)
    requires k !in Keys(rows)
    ensures Group(rows, k) == []
  {
    if rows == [] {
      // base case
    } else {
      NoGroupYet(rows[..|rows| - 1], k);
    }
  }

  lemma {:induction false} KeysDistinct(rows: seq<Row>)
    ensures forall i, j | 0 <= i < j < |Keys(rows)| :: Keys(rows)[i] != Keys(rows)[j]
  {
    if rows == [] {
      // base case
    } else {
      KeysDistinct(rows[..|rows| - 1]);
    }
  }

  /** A row with a known key changes that key's entry and no other. */
  lemma OldKeyStep(rows: seq<Row>, r: Row, agg: Agg, start: nat -> int, output: seq<Entry>, i: nat)
    requires IsPivot(rows, agg, start, output)
    requires i < |output| && EntryKey(output[i]) == KeyOf(r)
    ensures IsPivot(rows + [r], agg, start, output[i := output[i].(acc := Apply(agg, output[i].acc, r.value))])
  {
    var k := KeyOf(r);
    assert Keys(rows)[i] == k;
    KeysDistinct(rows);
    FoldSnoc(agg, start(i), Group(rows, k), r.value);
    GroupSnoc(rows, r, k);
    forall j | 0 <= j < |output| && j != i
      ensures Group(rows + [r], Keys(rows)[j]) == Group(rows, Keys(rows)[j])
    {
      GroupSnoc(rows, r, Keys(rows)[j]);
    }
  }

  /** A row with a new key gets an entry at the end. */
  lemma NewKeyStep(rows: seq<Row>, r: Row, agg: Agg, start: nat -> int, output: seq<Entry>, e: Entry)
    requires IsPivot(rows, agg, start, output)
    requires forall j | 0 <= j < |output| :: EntryKey(output[j]) != KeyOf(r)
    requires EntryKey(e) == KeyOf(r) && e.acc == Apply(agg, start(|output|), r.value)
    ensures IsPivot(rows + [r], agg, start, output + [e])
  {
    var k := KeyOf(r);
    assert k !in Keys(rows);
    NoGroupYet(rows, k);
    FoldSnoc(agg, start(|output|), [], r.value);
    assert [] + [r.value] == [r.value];
    forall j | 0 <= j < |output|
      ensures Group(rows + [r], Keys(rows)[j]) == Group(rows, Keys(rows)[j])
    {
      GroupSnoc(rows, r, Keys(rows)[j]);
    }
    GroupSnoc(rows, r, k);
  }

  /** Entries have the shape of the rows. */
  ghost predicate Shaped(output: seq<Entry>, rows: seq<Row>) {
    forall i, j | 0 <= i < |output| && 0 <= j < |rows| :: SameShape(output[i], rows[j])
  }

  /** The entry of a key is made: its key columns are those of the row at hand. */
  function Fresh(r: Row, acc: int): Entry {
    Entry(r.rowKey, r.colKey, acc)
  }

  lemma ShapedNew(output: seq<Entry>, rows: seq<Row>, n: nat, acc: int)
    requires OneResult(rows) && Shaped(output, rows) && n < |rows|
    ensures Shaped(output + [Fresh(rows[n], acc)], rows)
  {
  }

  lemma ShapedUpdate(output: seq<Entry>, rows: seq<Row>, i: nat, acc: int)
    requires Shaped(output, rows) && i < |output|
    ensures Shaped(output[i := output[i].(acc := acc)], rows)
  {
    assert forall j | 0 <= j < |rows| :: SameShape(output[i], rows[j]);
  }

  /** The entry has the key columns of the row. */
  ghost predicate TakenFrom(e: Entry, r: Row) {
    e.rowKey == r.rowKey && e.colKey == r.colKey
  }

  ghost predicate NoneBefore(rows: seq<Row>, j: nat, k: Key) {
    forall i | 0 <= i < j && i < |rows| :: KeyOf(rows[i]) != k
  }

  /** Each entry has the key columns of the first row of its group, of the first `n` rows. */
  ghost predicate FromFirst(rows: seq<Row>, n: nat, output: seq<Entry>)
    requires n <= |rows|
  {
    forall i | 0 <= i < |output| ::
      exists j: nat :: j < n && TakenFrom(output[i], rows[j]) && NoneBefore(rows, j, EntryKey(output[i]))
  }

  lemma {:induction false} NotYet(rows: seq<Row>, k: Key)
    requires k !in Keys(rows)
    ensures NoneBefore(rows, |rows|, k)
  {
    if rows == [] {
      // base case
    } else {
      var n := |rows| - 1;
      NotYet(rows[..n], k);
      assert forall i | 0 <= i < n :: rows[..n][i] == rows[i];
    }
  }

  lemma FirstNew(rows: seq<Row>, n: nat, agg: Agg, start: nat -> int, output: seq<Entry>, acc: int)
    requires n < |rows| && IsPivot(rows[..n], agg, start, output) && FromFirst(rows, n, output)
    requires forall j | 0 <= j < |output| :: EntryKey(output[j]) != KeyOf(rows[n])
    ensures FromFirst(rows, n + 1, output + [Fresh(rows[n], acc)])
  {
    var e := Fresh(rows[n], acc);
    assert KeyOf(rows[n]) !in Keys(rows[..n]);
    NotYet(rows[..n], KeyOf(rows[n]));
    assert forall i | 0 <= i < n :: rows[..n][i] == rows[i];
    assert TakenFrom(e, rows[n]) && NoneBefore(rows, n, EntryKey(e));
  }

  lemma FirstOld(rows: seq<Row>, n: nat, output: seq<Entry>, i: nat, acc: int)
    requires n < |rows| && FromFirst(rows, n, output) && i < |output|
    ensures FromFirst(rows, n + 1, output[i := output[i].(acc := acc)])
  {
    var next := output[i := output[i].(acc := acc)];
    forall k | 0 <= k < |next|
      ensures exists j: nat :: j < n + 1 && TakenFrom(next[k], rows[j]) && NoneBefore(rows, j, EntryKey(next[k]))
    {
      var j: nat :| j < n && TakenFrom(output[k], rows[j]) && NoneBefore(rows, j, EntryKey(output[k]));
      assert TakenFrom(next[k], rows[j]) && EntryKey(next[k]) == EntryKey(output[k]);
    }
  }

  /** One round of the loop: find the row's entry or make it, and apply the function. */
  method AddRow(rows: seq<Row>, n: nat, agg: Agg, start: nat -> int, output: seq<Entry>) returns (next: seq<Entry>)
    requires OneResult(rows) && Shaped(output, rows) && n < |rows|
    requires IsPivot(rows[..n], agg, start, output) && FromFirst(rows, n, output)
    ensures IsPivot(rows[..n] + [rows[n]], agg, start, next) == true && Shaped(next, rows) == true
    ensures FromFirst(rows, n + 1, next) == true
  {
    var input := rows[n];
    assert forall e | e in output :: SameShape(e, rows[n]);
    var i := Find(input, output);
    if i < 0 {
      var acc := Apply(agg, start(|output|), input.value);
      NewKeyStep(rows[..n], input, agg, start, output, Fresh(input, acc));
      ShapedNew(output, rows, n, acc);
      FirstNew(rows, n, agg, start, output, acc);
      next := output + [Fresh(input, acc)];
    } else {
      var acc := Apply(agg, output[i].acc, input.value);
      OldKeyStep(rows[..n], input, agg, start, output, i);
      ShapedUpdate(output, rows, i, acc);
      FirstOld(rows, n, output, i, acc);
      next := output[i := output[i].(acc := acc)];
    }
  }

  /** The aggregation loop. */
  method ComputePivot(rows: seq<Row>, agg: Agg, start: nat -> int) returns (output: seq<Entry>)
    requires OneResult(rows)
    ensures IsPivot(rows, agg, start, output)
    ensures FromFirst(rows, |rows|, output)
  {
    output := [];
    for n := 0 to |rows|
      invariant IsPivot(rows[..n], agg, start, output) == true
      invariant Shaped(output, rows) == true && FromFirst(rows, n, output) == true
    {
      assert rows[..n + 1] == rows[..n] + [rows[n]];
      output := AddRow(rows, n, agg, start, output);
    }
    assert rows[..|rows|] == rows;
  }
}
