/**
 What the pivot's groups and values mean: which keys there are and in what order,
 what each aggregate adds up to, that counts are conserved, and that the order of the
 rows does not matter.
 */
module PivotLaws {
  import opened Pivot

  // -------------------------------------------------------------- the keys

  /** The keys are exactly those of the rows. */
  lemma {:induction false} KeysAreTheRowsKeys(rows: seq<Row>, k: Key)
    ensures k in Keys(rows) <==> exists i :: 0 <= i < |rows| && KeyOf(rows[i]) == k
  {
    if rows == [] {
      // base case
    } else {
      var n := |rows| - 1;
      KeysAreTheRowsKeys(rows[..n], k);
      if k in Keys(rows[..n]) {
        var i :| 0 <= i < n && KeyOf(rows[..n][i]) == k;
        assert KeyOf(rows[i]) == k;
      }
      if i :| 0 <= i < n && KeyOf(rows[i]) == k {
        assert KeyOf(rows[..n][i]) == k;
      }
    }
  }

  /** Where a key appears first; the number of rows if it does not. */
  function FirstAt(rows: seq<Row>, k: Key): (i: nat)
    ensures i <= |rows|
    ensures i < |rows| ==> KeyOf(rows[i]) == k
    ensures forall j | 0 <= j < i :: KeyOf(rows[j]) != k
  {
    if rows == [] then 0
    else
      var n := |rows| - 1;
      var i := FirstAt(rows[..n], k);
      assert forall j | 0 <= j < n :: rows[..n][j] == rows[j];
      if i < n then i else if KeyOf(rows[n]) == k then n else |rows|
  }

  lemma FirstInPrefix(rows: seq<Row>, k: Key)
    requires rows != [] && k in Keys(rows[..|rows| - 1])
    ensures FirstAt(rows, k) == FirstAt(rows[..|rows| - 1], k) < |rows| - 1
  {
    var n := |rows| - 1;
    KeysAreTheRowsKeys(rows[..n], k);
    var i :| 0 <= i < n && KeyOf(rows[..n][i]) == k;
  }

  lemma FirstIsLast(rows: seq<Row>)
    requires rows != [] && KeyOf(rows[|rows| - 1]) !in Keys(rows[..|rows| - 1])
    ensures FirstAt(rows, KeyOf(rows[|rows| - 1])) == |rows| - 1
  {
    var n := |rows| - 1;
    KeysAreTheRowsKeys(rows[..n], KeyOf(rows[n]));
    assert FirstAt(rows[..n], KeyOf(rows[n])) == n;
  }

  /** The keys stand in the order in which they first appear. */
  lemma {:induction false} KeysInOrder(rows: seq<Row>)
    ensures forall i, j | 0 <= i < j < |Keys(rows)| :: FirstAt(rows, Keys(rows)[i]) < FirstAt(rows, Keys(rows)[j])
    ensures forall i | 0 <= i < |Keys(rows)| :: FirstAt(rows, Keys(rows)[i]) < |rows|
  {
    if rows == [] {
      // base case
    } else {
      var n := |rows| - 1;
      var keys := Keys(rows[..n]);
      KeysInOrder(rows[..n]);
      forall i | 0 <= i < |keys|
        ensures FirstAt(rows, keys[i]) == FirstAt(rows[..n], keys[i]) < n
      {
        FirstInPrefix(rows, keys[i]);
      }
      if KeyOf(rows[n]) !in keys { FirstIsLast(rows); }
    }
  }

  // ------------------------------------------------------------ the values

  function NonNull(values: seq<Col>): nat {
    if values == [] then 0
    else NonNull(values[..|values| - 1]) + (if values[|values| - 1].isNull then 0 else 1)
  }

  /** The sum of the values that are not null. */
  function Total(values: seq<Col>): int {
    if values == [] then 0
    else
      var v := values[|values| - 1];
      Total(values[..|values| - 1]) + (if v.Num? && !v.isNull then v.value else 0)
  }

  /** All values are numbers of one kind, as the values of a numeric column are. */
  ghost predicate NumbersOf(kind: Kind, values: seq<Col>) {
    forall i | 0 <= i < |values| :: values[i].Num? && values[i].kind == kind
  }

  /** The numbers that a column of the kind can hold. */
  predicate InRange(kind: Kind, x: int) {
    match kind
    case Tiny => 0 <= x <= 255
    case Small => -0x8000 <= x <= 0x7fff
    case Int => -0x8000_0000 <= x <= 0x7fff_ffff
  }

  function Modulus(kind: Kind): int {
    match kind
    case Tiny => 0x100
    case Small => 0x1_0000
    case Int => 0x1_0000_0000
  }

  /** `r` is `x` as a column of the kind holds it: the same in range, else shifted into the range. */
  ghost predicate HeldAs(kind: Kind, x: int, r: int) {
    InRange(kind, r) && (InRange(kind, x) ==> r == x) && (r - x) % Modulus(kind) == 0
  }

  lemma Rest8(x: int, y: int)
    ensures (x % 0x100 - x) % 0x100 == 0 && (x % 0x100 + y) % 0x100 == (x + y) % 0x100
  {
    var q := x / 0x100;
    assert x == 0x100 * q + x % 0x100;
    var z := x % 0x100 + y;
    assert x + y == 0x100 * (q + z / 0x100) + z % 0x100;
  }

  lemma Rest16(x: int, y: int)
    ensures (x % 0x1_0000 - x) % 0x1_0000 == 0 && (x % 0x1_0000 + y) % 0x1_0000 == (x + y) % 0x1_0000
  {
    var q := x / 0x1_0000;
    assert x == 0x1_0000 * q + x % 0x1_0000;
    var z := x % 0x1_0000 + y;
    assert x + y == 0x1_0000 * (q + z / 0x1_0000) + z % 0x1_0000;
  }

  lemma Rest32(x: int, y: int)
    ensures (x % 0x1_0000_0000 - x) % 0x1_0000_0000 == 0
    ensures (x % 0x1_0000_0000 + y) % 0x1_0000_0000 == (x + y) % 0x1_0000_0000
  {
    var q := x / 0x1_0000_0000;
    assert x == 0x1_0000_0000 * q + x % 0x1_0000_0000;
    var z := x % 0x1_0000_0000 + y;
    assert x + y == 0x1_0000_0000 * (q + z / 0x1_0000_0000) + z % 0x1_0000_0000;
  }

  lemma WrapIs(kind: Kind, x: int)
    ensures HeldAs(kind, x, Wrap(kind, x))
  {
    match kind
    case Tiny => Rest8(x, 0);
    case Small => Rest16(x + 0x8000, 0);
    case Int => Rest32(x + 0x8000_0000, 0);
  }

  lemma WrapWrap(kind: Kind, x: int, y: int)
    ensures Wrap(kind, Wrap(kind, x) + y) == Wrap(kind, x + y)
  {
    match kind
    case Tiny => Rest8(x, y);
    case Small => Rest16(x + 0x8000, y);
    case Int => Rest32(x + 0x8000_0000, y);
  }

  lemma {:induction false} CountWraps(start: int, values: seq<Col>)
    requires InRange(Int, start)
    ensures Fold(Count, start, values) == Wrap(Int, start + NonNull(values))
  {
    if values == [] {
      // base case
    } else {
      var n := |values| - 1;
      CountWraps(start, values[..n]);
      WrapWrap(Int, start + NonNull(values[..n]), 1);
    }
  }

  /** A count is its starting value plus the number of values that are not null, in 32 bits. */
  lemma CountIs(start: int, values: seq<Col>)
    requires InRange(Int, start)
    ensures HeldAs(Int, start + NonNull(values), Fold(Count, start, values))
  {
    CountWraps(start, values);
    WrapIs(Int, start + NonNull(values));
  }

  lemma {:induction false} SumWraps(kind: Kind, start: int, values: seq<Col>)
    requires InRange(kind, start) && NumbersOf(kind, values)
    ensures Fold(Sum, start, values) == Wrap(kind, start + Total(values))
  {
    if values == [] {
      // base case
    } else {
      var n := |values| - 1;
      SumWraps(kind, start, values[..n]);
      WrapWrap(kind, start + Total(values[..n]), values[n].value);
    }
  }

  /** A sum is its starting value plus the values, in the width of the column. */
  lemma SumIs(kind: Kind, start: int, values: seq<Col>)
    requires InRange(kind, start) && NumbersOf(kind, values)
    ensures HeldAs(kind, start + Total(values), Fold(Sum, start, values))
  {
    SumWraps(kind, start, values);
    WrapIs(kind, start + Total(values));
  }

  /** A text that is not null leaves a sum, minimum or maximum at zero. */
  lemma TextValues(agg: Agg, start: int, values: seq<Col>, v: Col)
    requires v.Text? && !v.isNull && agg != Count
    ensures Fold(agg, start, values + [v]) == 0
  {
    FoldSnoc(agg, start, values, v);
  }

  /** A minimum is the least of its starting value and the values. */
  lemma {:induction false} MinIs(kind: Kind, start: int, values: seq<Col>)
    requires NumbersOf(kind, values)
    ensures var m := Fold(Min, start, values);
            && m <= start && (forall i | 0 <= i < |values| && !values[i].isNull :: m <= values[i].value)
            && (m == start || exists i :: 0 <= i < |values| && !values[i].isNull && m == values[i].value)
  {
    if values == [] {
      // base case
    } else {
      var n := |values| - 1;
      MinIs(kind, start, values[..n]);
      var m := Fold(Min, start, values[..n]);
      if m != start && Fold(Min, start, values) == m {
        var i :| 0 <= i < n && !values[..n][i].isNull && m == values[..n][i].value;
        assert m == values[i].value;
      }
      assert forall i | 0 <= i < n :: values[..n][i] == values[i];
    }
  }

  /** A maximum is the greatest of its starting value and the values. */
  lemma {:induction false} MaxIs(kind: Kind, start: int, values: seq<Col>)
    requires NumbersOf(kind, values)
    ensures var m := Fold(Max, start, values);
            && m >= start && (forall i | 0 <= i < |values| && !values[i].isNull :: m >= values[i].value)
            && (m == start || exists i :: 0 <= i < |values| && !values[i].isNull && m == values[i].value)
  {
    if values == [] {
      // base case
    } else {
      var n := |values| - 1;
      MaxIs(kind, start, values[..n]);
      var m := Fold(Max, start, values[..n]);
      if m != start && Fold(Max, start, values) == m {
        var i :| 0 <= i < n && !values[..n][i].isNull && m == values[..n][i].value;
        assert m == values[i].value;
      }
      assert forall i | 0 <= i < n :: values[..n][i] == values[i];
    }
  }

  // ---------------------------------------------------------- conservation

  function Values(rows: seq<Row>): seq<Col> {
    if rows == [] then [] else Values(rows[..|rows| - 1]) + [rows[|rows| - 1].value]
  }

  /** The values that are not null, added up over the groups of the given keys. */
  function GroupedNonNull(rows: seq<Row>, keys: seq<Key>): nat {
    if keys == [] then 0
    else GroupedNonNull(rows, keys[..|keys| - 1]) + NonNull(Group(rows, keys[|keys| - 1]))
  }

  function One(c: Col): nat {
    if c.isNull then 0 else 1
  }

  lemma NonNullSnoc(values: seq<Col>, v: Col)
    ensures NonNull(values + [v]) == NonNull(values) + One(v)
  {
    assert (values + [v])[..|values|] == values;
  }

  lemma GroupGrows(rows: seq<Row>, r: Row, k: Key)
    ensures NonNull(Group(rows + [r], k)) == NonNull(Group(rows, k)) + (if KeyOf(r) == k then One(r.value) else 0)
  {
    GroupSnoc(rows, r, k);
    NonNullSnoc(Group(rows, k), r.value);
    assert Group(rows, k) + [] == Group(rows, k);
  }

  ghost predicate Distinct(keys: seq<Key>) {
    forall i, j | 0 <= i < j < |keys| :: keys[i] != keys[j]
  }

  lemma LastKey(keys: seq<Key>, k: Key)
    requires keys != [] && Distinct(keys)
    ensures Distinct(keys[..|keys| - 1])
    ensures k in keys <==> k in keys[..|keys| - 1] || k == keys[|keys| - 1]
    ensures keys[|keys| - 1] !in keys[..|keys| - 1]
  {
    assert keys == keys[..|keys| - 1] + [keys[|keys| - 1]];
  }

  /** One more row adds to the group of its key, and only there. */
  lemma {:induction false} GroupedSnoc(rows: seq<Row>, r: Row, keys: seq<Key>)
    requires Distinct(keys)
    ensures GroupedNonNull(rows + [r], keys)
         == GroupedNonNull(rows, keys) + (if KeyOf(r) in keys then One(r.value) else 0)
  {
    if keys == [] {
      // base case
    } else {
      var n := |keys| - 1;
      LastKey(keys, KeyOf(r));
      GroupedSnoc(rows, r, keys[..n]);
      GroupGrows(rows, r, keys[n]);
    }
  }

  lemma {:induction false} NothingGrouped(keys: seq<Key>)
    ensures GroupedNonNull([], keys) == 0
  {
    if keys == [] {
      // base case
    } else {
      NothingGrouped(keys[..|keys| - 1]);
    }
  }

  lemma GroupedMore(rows: seq<Row>, r: Row, keys: seq<Key>)
    requires Distinct(keys) && KeyOf(r) in keys && GroupedNonNull(rows, keys) == NonNull(Values(rows))
    ensures GroupedNonNull(rows + [r], keys) == NonNull(Values(rows + [r]))
  {
    GroupedSnoc(rows, r, keys);
    assert (rows + [r])[..|rows|] == rows;
    NonNullSnoc(Values(rows), r.value);
  }

  lemma {:induction false} GroupedOver(rows: seq<Row>, keys: seq<Key>)
    requires Distinct(keys)
    requires forall i | 0 <= i < |rows| :: KeyOf(rows[i]) in keys
    ensures GroupedNonNull(rows, keys) == NonNull(Values(rows))
  {
    if rows == [] {
      NothingGrouped(keys);
    } else {
      var n := |rows| - 1;
      var before, r := rows[..n], rows[n];
      assert forall i | 0 <= i < n :: before[i] == rows[i];
      GroupedOver(before, keys);
      GroupedMore(before, r, keys);
      assert rows == before + [r];
    }
  }

  /** Every value that is not null is counted in exactly one group. */
  lemma CountsConserved(rows: seq<Row>)
    ensures GroupedNonNull(rows, Keys(rows)) == NonNull(Values(rows))
  {
    KeysDistinct(rows);
    forall i | 0 <= i < |rows|
      ensures KeyOf(rows[i]) in Keys(rows)
    {
      KeysAreTheRowsKeys(rows, KeyOf(rows[i]));
    }
    GroupedOver(rows, Keys(rows));
  }

  /** How much the entries' values have grown from their starting values. */
  function Increase(output: seq<Entry>, start: nat -> int): int {
    if output == [] then 0
    else
      var n := |output| - 1;
      Increase(output[..n], start) + output[n].acc - start(n)
  }

  lemma {:induction false} GroupSize(rows: seq<Row>, k: Key)
    ensures |Group(rows, k)| <= |rows|
  {
    if rows == [] {
      // base case
    } else {
      GroupSize(rows[..|rows| - 1], k);
    }
  }

  lemma {:induction false} NonNullAtMost(values: seq<Col>)
    ensures NonNull(values) <= |values|
  {
    if values == [] {
      // base case
    } else {
      NonNullAtMost(values[..|values| - 1]);
    }
  }

  lemma CountOfGroup(rows: seq<Row>, start: int, k: Key)
    requires -0x8000_0000 <= start && start + |rows| < 0x8000_0000
    ensures Fold(Count, start, Group(rows, k)) == start + NonNull(Group(rows, k))
  {
    CountIs(start, Group(rows, k));
    GroupSize(rows, k);
    NonNullAtMost(Group(rows, k));
  }

  lemma {:induction false} IncreaseUpTo(rows: seq<Row>, start: nat -> int, output: seq<Entry>, n: nat)
    requires IsPivot(rows, Count, start, output) && n <= |output|
    requires forall i: nat :: -0x8000_0000 <= start(i) && start(i) + |rows| < 0x8000_0000
    ensures Increase(output[..n], start) == GroupedNonNull(rows, Keys(rows)[..n])
  {
    if n > 0 {
      var m := n - 1;
      IncreaseUpTo(rows, start, output, m);
      assert output[..n][..m] == output[..m] && Keys(rows)[..n][..m] == Keys(rows)[..m];
      CountOfGroup(rows, start(m), Keys(rows)[m]);
    }
  }

  /** Counting without overflow: the entries grow, together, by the number of values not null. */
  lemma CountIncrease(rows: seq<Row>, start: nat -> int, output: seq<Entry>)
    requires IsPivot(rows, Count, start, output)
    requires forall i: nat :: -0x8000_0000 <= start(i) && start(i) + |rows| < 0x8000_0000
    ensures Increase(output, start) == NonNull(Values(rows))
  {
    IncreaseUpTo(rows, start, output, |output|);
    assert output[..|output|] == output && Keys(rows)[..|Keys(rows)|] == Keys(rows);
    CountsConserved(rows);
  }

  // ------------------------------------------------------ order of the rows

  predicate Alike(v: Col, w: Col) {
    v.Num? == w.Num? && (v.Num? ==> v.kind == w.kind)
  }

  /** The values of one column: what an aggregate can be applied to in any order. */
  ghost predicate OneType(values: seq<Col>) {
    forall v, w | v in values && w in values :: Alike(v, w)
  }

  lemma ApplyCommutes(agg: Agg, t: int, v: Col, w: Col)
    requires Alike(v, w)
    ensures Apply(agg, Apply(agg, t, v), w) == Apply(agg, Apply(agg, t, w), v)
  {
    match agg
    case Count => {}
    case Sum =>
      if v.Num? {
        WrapWrap(v.kind, t + v.value, w.value);
        WrapWrap(v.kind, t + w.value, v.value);
      }
    case Min => {}
    case Max => {}
  }

  /** A value can be taken out of its place and applied last. */
  lemma {:induction false} FoldLast(agg: Agg, start: int, a: seq<Col>, v: Col, b: seq<Col>)
    requires OneType(a + [v] + b)
    ensures Fold(agg, start, a + [v] + b) == Apply(agg, Fold(agg, start, a + b), v)
  {
    if b == [] {
      assert a + [v] + b == a + [v] && a + b == a;
      FoldSnoc(agg, start, a, v);
    } else {
      var c, w := b[..|b| - 1], b[|b| - 1];
      var whole := a + [v] + b;
      assert whole == (a + [v] + c) + [w] && a + b == (a + c) + [w];
      assert OneType(a + [v] + c) by { assert forall x | x in a + [v] + c :: x in whole; }
      FoldLast(agg, start, a, v, c);
      FoldSnoc(agg, start, a + [v] + c, w);
      FoldSnoc(agg, start, a + c, w);
      assert Alike(v, w) by { assert v in whole && w in whole; }
      ApplyCommutes(agg, Fold(agg, start, a + c), v, w);
    }
  }

  /** A value that occurs can be split off. */
  lemma SplitAt<T>(s: seq<T>, v: T) returns (a: seq<T>, b: seq<T>)
    requires v in s
    ensures s == a + [v] + b
  {
    var i :| 0 <= i < |s| && s[i] == v;
    a, b := s[..i], s[i + 1..];
  }

  lemma Without<T>(s: seq<T>, t: seq<T>, v: T, a: seq<T>, b: seq<T>)
    requires multiset(s + [v]) == multiset(t) && t == a + [v] + b
    ensures multiset(s) == multiset(a + b)
  {
    assert multiset(t) == multiset(a) + multiset{v} + multiset(b);
    assert multiset(a + b) == multiset(t) - multiset{v};
    assert multiset(s) == multiset(s + [v]) - multiset{v};
  }

  lemma {:induction false} FoldPermuted(agg: Agg, start: int, s: seq<Col>, t: seq<Col>)
    requires OneType(t) && multiset(s) == multiset(t)
    ensures Fold(agg, start, s) == Fold(agg, start, t)
    decreases |s|
  {
    if s == [] {
      assert |multiset(t)| == 0;
    } else {
      var n := |s| - 1;
      var v := s[n];
      assert s == s[..n] + [v];
      assert v in multiset(t);
      var a, b := SplitAt(t, v);
      Without(s[..n], t, v, a, b);
      assert OneType(a + b) by { assert forall x | x in a + b :: x in t; }
      FoldPermuted(agg, start, s[..n], a + b);
      FoldLast(agg, start, a, v, b);
    }
  }

  lemma {:induction false} GroupConcat(a: seq<Row>, b: seq<Row>, k: Key)
    ensures Group(a + b, k) == Group(a, k) + Group(b, k)
  {
    if b == [] {
      assert a + b == a;
    } else {
      var n := |b| - 1;
      GroupConcat(a, b[..n], k);
      assert (a + b)[..|a| + n] == a + b[..n];
    }
  }

  function Alone(r: Row, k: Key): seq<Col> {
    if KeyOf(r) == k then [r.value] else []
  }

  /** Taking a row out of its place and putting it last keeps the group's values. */
  lemma GroupLast(a: seq<Row>, r: Row, b: seq<Row>, k: Key)
    ensures multiset(Group(a + [r] + b, k)) == multiset(Group(a + b, k)) + multiset(Alone(r, k))
  {
    GroupConcat(a, b, k);
    GroupConcat(a + [r], b, k);
    GroupSnoc(a, r, k);
  }

  lemma {:induction false} GroupPermuted(rows: seq<Row>, other: seq<Row>, k: Key)
    requires multiset(rows) == multiset(other)
    ensures multiset(Group(rows, k)) == multiset(Group(other, k))
    decreases |rows|
  {
    if rows == [] {
      assert |multiset(other)| == 0;
    } else {
      var n := |rows| - 1;
      var r := rows[n];
      assert rows == rows[..n] + [r];
      assert r in multiset(other);
      var a, b := SplitAt(other, r);
      Without(rows[..n], other, r, a, b);
      GroupPermuted(rows[..n], a + b, k);
      GroupLast(a, r, b, k);
      GroupSnoc(rows[..n], r, k);
    }
  }

  lemma {:induction false} GroupFrom(rows: seq<Row>, k: Key, v: Col)
    requires v in Group(rows, k)
    ensures v in Values(rows)
  {
    var n := |rows| - 1;
    if v in Group(rows[..n], k) { GroupFrom(rows[..n], k, v); }
  }

  /** The value that the pivot assigns to a key, when all entries start from the same value. */
  function ValueOf(rows: seq<Row>, agg: Agg, start: int, k: Key): int {
    Fold(agg, start, Group(rows, k))
  }

  lemma KeysPermuted(rows: seq<Row>, other: seq<Row>, k: Key)
    requires multiset(rows) == multiset(other)
    ensures k in Keys(rows) ==> k in Keys(other)
  {
    KeysAreTheRowsKeys(rows, k);
    KeysAreTheRowsKeys(other, k);
    if i :| 0 <= i < |rows| && KeyOf(rows[i]) == k {
      assert rows[i] in multiset(other);
    }
  }

  /** Reordering the rows changes neither the keys nor the value of any key. */
  lemma OrderDoesNotMatter(rows: seq<Row>, other: seq<Row>, agg: Agg, start: int, k: Key)
    requires multiset(rows) == multiset(other) && OneType(Values(other))
    ensures k in Keys(rows) <==> k in Keys(other)
    ensures ValueOf(rows, agg, start, k) == ValueOf(other, agg, start, k)
  {
    KeysPermuted(rows, other, k);
    KeysPermuted(other, rows, k);
    GroupPermuted(rows, other, k);
    assert OneType(Group(other, k)) by {
      forall v | v in Group(other, k) ensures v in Values(other) { GroupFrom(other, k, v); }
    }
    FoldPermuted(agg, start, Group(rows, k), Group(other, k));
  }

  /** An entry with the given key and value. */
  ghost predicate HasEntry(output: seq<Entry>, k: Key, acc: int) {
    exists j :: 0 <= j < |output| && EntryKey(output[j]) == k && output[j].acc == acc
  }

  /** A list without repetitions is no longer than one that holds all its elements. */
  lemma {:induction false} NoLonger<T>(a: seq<T>, b: seq<T>)
    requires forall i, j | 0 <= i < j < |a| :: a[i] != a[j]
    requires forall x | x in a :: x in b
    ensures |a| <= |b|
    decreases |a|
  {
    if a == [] {
      assert |a| == 0;
    } else {
      var n := |a| - 1;
      var before, after := SplitAt(b, a[n]);
      forall x | x in a[..n]
        ensures x in before + after
      {
        assert x in a && x != a[n];
      }
      NoLonger(a[..n], before + after);
    }
  }

  lemma {:induction false} ValuesAre(rows: seq<Row>)
    ensures |Values(rows)| == |rows| && forall i | 0 <= i < |rows| :: Values(rows)[i] == rows[i].value
  {
    if rows == [] {
      assert Values(rows) == [];
    } else {
      ValuesAre(rows[..|rows| - 1]);
    }
  }

  lemma OneTypePermuted(rows: seq<Row>, other: seq<Row>)
    requires multiset(rows) == multiset(other) && OneType(Values(other))
    ensures OneType(Values(rows))
  {
    ValuesAre(rows);
    ValuesAre(other);
    forall v | v in Values(rows)
      ensures v in Values(other)
    {
      var i :| 0 <= i < |rows| && rows[i].value == v;
      assert rows[i] in multiset(other);
      var j :| 0 <= j < |other| && other[j] == rows[i];
      assert Values(other)[j] == v;
    }
  }

  /** Every entry of the one pivot is in the other. */
  lemma PivotIncluded(rows: seq<Row>, other: seq<Row>, agg: Agg, start: int, out: seq<Entry>, out2: seq<Entry>)
    requires multiset(rows) == multiset(other) && OneType(Values(other))
    requires IsPivot(rows, agg, _ => start, out) && IsPivot(other, agg, _ => start, out2)
    ensures |out| <= |out2|
    ensures forall i | 0 <= i < |out| :: HasEntry(out2, EntryKey(out[i]), out[i].acc)
  {
    forall i | 0 <= i < |out|
      ensures Keys(rows)[i] in Keys(other) && HasEntry(out2, EntryKey(out[i]), out[i].acc)
    {
      var k := Keys(rows)[i];
      OrderDoesNotMatter(rows, other, agg, start, k);
      assert k in Keys(rows);
      var j :| 0 <= j < |Keys(other)| && Keys(other)[j] == k;
      assert EntryKey(out2[j]) == k;
    }
    KeysDistinct(rows);
    NoLonger(Keys(rows), Keys(other));
  }

  /** Pivots over the same rows in different orders have the same entries, up to their order. */
  lemma PivotsAgree(rows: seq<Row>, other: seq<Row>, agg: Agg, start: int, out: seq<Entry>, out2: seq<Entry>)
    requires multiset(rows) == multiset(other) && OneType(Values(other))
    requires IsPivot(rows, agg, _ => start, out) && IsPivot(other, agg, _ => start, out2)
    ensures |out| == |out2|
    ensures forall i | 0 <= i < |out| :: HasEntry(out2, EntryKey(out[i]), out[i].acc)
    ensures forall i | 0 <= i < |out2| :: HasEntry(out, EntryKey(out2[i]), out2[i].acc)
  {
    OneTypePermuted(rows, other);
    PivotIncluded(rows, other, agg, start, out, out2);
    PivotIncluded(other, rows, agg, start, out2, out);
  }
}
