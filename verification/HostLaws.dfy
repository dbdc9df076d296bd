/**
 When a field or a row written by the copy out is read back by the copy in, and as what.
 */
module HostLaws {
  import opened Bytes
  import opened TermScan
  import opened HostCodec

  // ------------------------------------------------------------- one field

  /** What the reader gets for the length of a field of `n` bytes. */
  function Stored(width: int, n: nat): int {
    if width == 1 then (if n % 0x100 == 0 then -1 else n % 0x100)
    else if width == 2 then Signed(n % 0x1_0000, 0x1_0000)
    else if width == 4 then Signed(n % 0x1_0000_0000, 0x1_0000_0000)
    else 0
  }

  lemma PrefixReadsBack(order: Order, width: int, n: nat)
    ensures DecodePrefix(order, width, EncodePrefix(order, width, n)) == Stored(width, n)
  {
    if width == 4 { LoadStore32(order, n % 0x1_0000_0000); }
  }

  /** The plan with which the reader comes to a field of the given column and value. */
  function PlanFor(col: HostCol, width: int, v: Value): (nat, bool) {
    Plan(col, Stored(width, |v.Buffer()|))
  }

  /** The bytes of a field as they stand in the file. */
  function Body(col: HostCol, v: Value): seq<Byte> {
    CutTo(col.columnLen, v.Buffer())
  }

  /** What a field comes back as. */
  function ReadsAs(col: HostCol, width: int, v: Value): Value {
    var isNull := PlanFor(col, width, v).1;
    if isNull || (col.term != [] && Body(col, v) == []) then Null else Data(Body(col, v))
  }

  /**
   The reader finds the end of the field: with a terminator, it does not occur before its
   place; without one, the planned length is the length in the file.
   */
  predicate InSync(col: HostCol, width: int, v: Value) {
    if col.term != [] then TermAt(Body(col, v) + col.term, col.term) == |Body(col, v)|
    else PlanFor(col, width, v).0 == |Body(col, v)|
  }

  lemma ThreeParts(prefix: seq<Byte>, body: seq<Byte>, term: seq<Byte>, rest: seq<Byte>)
    ensures var s := prefix + (body + term) + rest;
            s[..|prefix|] == prefix && s[|prefix|..] == body + term + rest
  {
  }

  lemma EncodeParts(order: Order, col: HostCol, width: int, v: Value, rest: seq<Byte>)
    ensures var s := Encode(order, col, width, v) + rest;
            var w := PrefixBytes(width);
            && |s| >= w && s[..w] == EncodePrefix(order, width, |v.Buffer()|)
            && s[w..] == Body(col, v) + col.term + rest
  {
    ThreeParts(EncodePrefix(order, width, |v.Buffer()|), Body(col, v), col.term, rest);
  }

  lemma ReadFieldIs(order: Order, col: HostCol, width: int, v: Value, rest: seq<Byte>)
    ensures ReadField(order, col, width, Encode(order, col, width, v) + rest)
         == ReadBody(col, PlanFor(col, width, v), Body(col, v) + col.term + rest)
  {
    EncodeParts(order, col, width, v, rest);
    PrefixReadsBack(order, width, |v.Buffer()|);
  }

  /** Bytes behind a terminator do not change where it first occurs. */
  lemma {:induction false} TermAtPrefix(s: seq<Byte>, term: seq<Byte>, rest: seq<Byte>)
    requires term != [] && TermAt(s, term) >= 0
    ensures TermAt(s + rest, term) == TermAt(s, term)
  {
    if term <= s {
      assert (s + rest)[..|term|] == s[..|term|];
    } else {
      assert (s + rest)[..|term|] == s[..|term|];
      TermAtPrefix(s[1..], term, rest);
      assert (s + rest)[1..] == s[1..] + rest;
    }
  }

  lemma {:induction false} TermAtOwnPlace(b: seq<Byte>, term: seq<Byte>)
    requires term != []
    ensures 0 <= TermAt(b + term, term) <= |b|
  {
    if b == [] {
      assert b + term == term;
    } else {
      TermAtOwnPlace(b[1..], term);
      assert (b + term)[1..] == b[1..] + term;
    }
  }

  /** In sync: the field is read back and the file is just behind it. */
  lemma FieldReadsBack(order: Order, col: HostCol, width: int, v: Value, rest: seq<Byte>)
    requires InSync(col, width, v)
    ensures ReadField(order, col, width, Encode(order, col, width, v) + rest) == Got(ReadsAs(col, width, v), rest)
  {
    ReadFieldIs(order, col, width, v, rest);
    var b := Body(col, v);
    var s := b + col.term + rest;
    if col.term != [] {
      TermAtPrefix(b + col.term, col.term, rest);
      assert s[..|b|] == b && s[|b| + |col.term|..] == rest;
    } else {
      assert s[..|b|] == b && s[|b|..] == rest;
    }
  }

  /** Out of sync: some continuation of the file is misread. */
  lemma OutOfSync(order: Order, col: HostCol, width: int, v: Value) returns (rest: seq<Byte>)
    requires !InSync(col, width, v)
    ensures var r := ReadField(order, col, width, Encode(order, col, width, v) + rest);
            r.Got? && r.rest != rest
  {
    var b := Body(col, v);
    if col.term != [] {
      rest := [];
      ReadFieldIs(order, col, width, v, rest);
      TermAtOwnPlace(b, col.term);
      assert b + col.term + rest == b + col.term;
    } else {
      rest := seq(PlanFor(col, width, v).0, _ => 0);
      ReadFieldIs(order, col, width, v, rest);
    }
  }

  /** A field is read back in every file exactly when it is in sync. */
  lemma FieldRoundTrip(order: Order, col: HostCol, width: int, v: Value)
    ensures InSync(col, width, v) <==>
            forall rest ::
              ReadField(order, col, width, Encode(order, col, width, v) + rest) == Got(ReadsAs(col, width, v), rest)
  {
    if InSync(col, width, v) {
      forall rest
        ensures ReadField(order, col, width, Encode(order, col, width, v) + rest) == Got(ReadsAs(col, width, v), rest)
      {
        FieldReadsBack(order, col, width, v, rest);
      }
    } else {
      var rest := OutOfSync(order, col, width, v);
    }
  }

  // ------------------------------------------------- when fields are in sync

  /** The longest field whose length the prefix can hold. */
  predicate LengthFits(width: int, n: nat) {
    (width == 1 ==> n <= 0xff) && (width == 2 ==> n <= 0x7fff) && (width == 4 ==> n <= 0x7fff_ffff)
  }

  lemma StoredWhenItFits(width: int, n: nat)
    requires LengthFits(width, n)
    ensures Stored(width, n) == if PrefixBytes(width) == 0 then 0 else if width == 1 && n == 0 then -1 else n
  {
  }

  /** Without a terminator, and with a length that fits the prefix: the formats that are in sync. */
  lemma SyncWhenItFits(col: HostCol, width: int, v: Value)
    requires col.Valid() && col.term == [] && LengthFits(width, |v.Buffer()|)
    ensures var n := |v.Buffer()|;
            InSync(col, width, v) <==>
              if col.ty.Fixed? then |Body(col, v)| == col.ty.size
              else if PrefixBytes(width) == 0 then (if col.columnLen > 0 then n >= col.columnLen
                                                    else col.columnLen == 0 || n == 0)
              else if n == 0 then width == 1 || col.columnLen <= 0
              else col.columnLen != 0
  {
    StoredWhenItFits(width, |v.Buffer()|);
  }

  /** A field with data comes back as that data, cut to the column's length. */
  lemma DataComesBack(col: HostCol, width: int, v: Value)
    requires col.Valid() && v.Data? && v.bytes != [] && LengthFits(width, |v.bytes|) && col.columnLen != 0
    ensures ReadsAs(col, width, v)
         == Data(if col.columnLen == -1 || |v.bytes| <= col.columnLen then v.bytes else v.bytes[..col.columnLen])
  {
    StoredWhenItFits(width, |v.bytes|);
  }

  /** NULL comes back as NULL exactly with a terminator, a one-byte prefix or a zero length limit. */
  lemma NullComesBack(col: HostCol, width: int)
    requires col.Valid() && InSync(col, width, Null)
    ensures ReadsAs(col, width, Null) == Null <==> col.term != [] || width == 1 || col.columnLen == 0
  {
    StoredWhenItFits(width, 0);
  }

  /** NULL in a fixed-length column without a terminator always misaligns the file. */
  lemma NullInFixedColumn(col: HostCol, width: int)
    requires col.Valid() && col.ty.Fixed? && col.term == []
    ensures !InSync(col, width, Null)
  {
  }

  /** A number of two or four bytes in a prefix is signed: it is in the signed range, and right up to its width. */
  lemma SignedIs(n: int, range: int)
    requires range in {0x1_0000, 0x1_0000_0000} && 0 <= n < range
    ensures -range / 2 <= Signed(n, range) < range / 2 && (Signed(n, range) == n || Signed(n, range) == n - range)
  {
  }

  /**
   What stands before the data of a column whose prefix is not specified: four bytes for a
   blob, one for a numeric, two for other types of varying size; for a type of fixed size
   one if the column accepts NULL, and none if not.  A host column that is not in the table
   is not written at all.
   */
  lemma UsualLayout(f: Format, col: HostCol, row: seq<Value>)
    requires |row| == |f.nullable| && col.prefixLen == -1
    ensures !(1 <= col.tabCol <= |f.nullable|) ==> EncodeCol(f, col, row) == []
    ensures 1 <= col.tabCol <= |f.nullable| ==>
              var v := row[col.tabCol - 1];
              var n := if v.Null? then 0 else |v.bytes|;
              EncodeCol(f, col, row) ==
              (match col.ty
               case Blob => Store32(f.order, n % 0x1_0000_0000)
               case Numeric => [n % 256]
               case Variable => Store16(f.order, n % 0x1_0000)
               case Fixed(_) => if f.nullable[col.tabCol - 1] then [n % 256] else [])
              + (Body(col, v) + col.term)
  {
  }

  /** A host column that is not in the table has a prefix only if one was specified. */
  lemma UnmappedRead(f: Format, col: HostCol, s: seq<Byte>)
    requires col.tabCol < 1 && col.prefixLen == -1
    ensures ReadField(f.order, col, f.Width(col), s) == ReadBody(col, Plan(col, 0), s)
  {
    assert s[0..] == s;
  }

  /** The bytes of a field in the file: all of them, or the first ones up to the column's length. */
  lemma BodyIs(col: HostCol, v: Value)
    requires col.Valid()
    ensures v.Null? ==> Body(col, v) == []
    ensures v.Data? ==>
              Body(col, v) == if col.columnLen == -1 || |v.bytes| <= col.columnLen then v.bytes else v.bytes[..col.columnLen]
  {
  }

  // ------------------------------------------------------------ whole rows

  /** The column is read back: in sync if it is in the table, and read as nothing if not. */
  predicate ColInSync(f: Format, col: HostCol, row: seq<Value>)
    requires |row| == |f.nullable|
  {
    if f.Mapped(col) then InSync(col, f.Width(col), row[col.tabCol - 1])
    else col.tabCol <= 0 && PrefixBytes(f.Width(col)) == 0 && col.term == [] && Plan(col, 0).0 == 0
  }

  function ColReadsAs(f: Format, col: HostCol, row: seq<Value>): Value
    requires |row| == |f.nullable|
  {
    if f.Mapped(col) then ReadsAs(col, f.Width(col), row[col.tabCol - 1])
    else if Plan(col, 0).1 then Null else Data([])
  }

  predicate RowInSync(f: Format, row: seq<Value>)
    requires |row| == |f.nullable|
  {
    forall i | 0 <= i < |f.cols| :: ColInSync(f, f.cols[i], row)
  }

  /** The fields of a row as they come back, from the `i`-th host column on. */
  function FieldsFrom(f: Format, i: nat, row: seq<Value>): seq<Value>
    requires i <= |f.cols| && |row| == |f.nullable|
    decreases |f.cols| - i
  {
    if i == |f.cols| then [] else [ColReadsAs(f, f.cols[i], row)] + FieldsFrom(f, i + 1, row)
  }

  lemma ColReadsBack(f: Format, col: HostCol, row: seq<Value>, rest: seq<Byte>)
    requires |row| == |f.nullable| && ColInSync(f, col, row)
    ensures ReadField(f.order, col, f.Width(col), EncodeCol(f, col, row) + rest) == Got(ColReadsAs(f, col, row), rest)
  {
    if f.Mapped(col) {
      FieldReadsBack(f.order, col, f.Width(col), row[col.tabCol - 1], rest);
    } else {
      var w := PrefixBytes(f.Width(col));
      assert [] + rest == rest && rest[..w] == [] && rest[w..] == rest;
      assert rest[..0] == [];
    }
  }

  lemma {:induction false} RowReadsBackFrom(f: Format, i: nat, row: seq<Value>, rest: seq<Byte>)
    requires i <= |f.cols| && |row| == |f.nullable| && RowInSync(f, row)
    ensures ReadFrom(f, i, EncodeFrom(f, i, row) + rest) == MoreRows(FieldsFrom(f, i, row), rest)
    decreases |f.cols| - i
  {
    if i == |f.cols| {
      assert [] + rest == rest;
    } else {
      var col := f.cols[i];
      assert ColInSync(f, col, row);
      Assoc(EncodeCol(f, col, row), EncodeFrom(f, i + 1, row), rest);
      ColReadsBack(f, col, row, EncodeFrom(f, i + 1, row) + rest);
      RowReadsBackFrom(f, i + 1, row, rest);
    }
  }

  /** A row in sync is read back whole, and the file is just behind it. */
  lemma RowReadsBack(f: Format, row: seq<Value>, rest: seq<Byte>)
    requires |row| == |f.nullable| && RowInSync(f, row)
    ensures ReadRow(f, EncodeRow(f, row) + rest) == MoreRows(FieldsFrom(f, 0, row), rest)
  {
    RowReadsBackFrom(f, 0, row, rest);
  }
}
