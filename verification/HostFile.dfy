/**
 The loops of the bulk copy that write and read host files, proved against the layout.
 */
module HostFile {
  import opened Bytes
  import opened TermScan
  import opened HostCodec
  import opened HostLaws
  import opened HostFileLaws

  // -------------------------------------------------------------- copy out

  lemma FieldJoin(out: seq<Byte>, prefix: seq<Byte>, data: seq<Byte>, term: seq<Byte>)
    ensures out + (prefix + (data + term)) == ((out + prefix) + data) + term
    ensures term == [] ==> ((out + prefix) + data) + term == (out + prefix) + data
  {
  }

  /** The prefix, the data cut to the column's length, and the terminator, one after the other. */
  method WriteField(order: Order, col: HostCol, width: int, v: Value, out: seq<Byte>) returns (next: seq<Byte>)
    requires col.Valid()
    ensures next == out + Encode(order, col, width, v)
    ensures var b := if v.Null? then [] else v.bytes;
            var m := if col.columnLen == -1 || |b| <= col.columnLen then |b| else col.columnLen;
            next == ((out + EncodePrefix(order, width, |b|)) + b[..m]) + col.term
  {
    var data := v.Buffer();
    var buflen := |data|;
    var prefix := EncodePrefix(order, width, buflen);
    next := out + prefix;
    if col.columnLen != -1 {
      buflen := if buflen < col.columnLen then buflen else col.columnLen;
    }
    if buflen > 0 {
      next := next + data[..buflen];
    }
    assert data[..buflen] == CutTo(col.columnLen, data);
    assert next == out + prefix + CutTo(col.columnLen, data);
    if |col.term| > 0 {
      next := next + col.term;
    }
    FieldJoin(out, prefix, CutTo(col.columnLen, data), col.term);
  }

  method WriteRow(f: Format, row: seq<Value>, out: seq<Byte>) returns (next: seq<Byte>)
    requires f.Valid() && |row| == |f.nullable|
    ensures next == out + EncodeRow(f, row)
  {
    next := out;
    for i := 0 to |f.cols|
      invariant next + EncodeFrom(f, i, row) == out + EncodeRow(f, row)
    {
      var col := f.cols[i];
      Assoc(next, EncodeCol(f, col, row), EncodeFrom(f, i + 1, row));
      if col.tabCol < 1 || col.tabCol > |f.nullable| {
        assert next + [] == next;
        continue;
      }
      next := WriteField(f.order, col, f.Width(col), row[col.tabCol - 1], next);
    }
  }

  /** The upper bound on row numbers; a smaller `lastrow` has no effect. */
  function RowBound(lastrow: int): int {
    if lastrow > 0x7fff_ffff then lastrow else 0x7fff_ffff
  }

  /** The rows that are copied out. */
  function Selected(table: seq<seq<Value>>, firstrow: int, lastrow: int): seq<seq<Value>> {
    if table == [] then []
    else
      var n := |table|;
      Selected(table[..n - 1], firstrow, lastrow)
      + (if firstrow > n || n > RowBound(lastrow) then [] else [table[n - 1]])
  }

  lemma {:induction false} SelectedFit(f: Format, table: seq<seq<Value>>, firstrow: int, lastrow: int)
    requires RowsFit(f, table)
    ensures RowsFit(f, Selected(table, firstrow, lastrow))
  {
    if table == [] {
      // base case
    } else {
      SelectedFit(f, table[..|table| - 1], firstrow, lastrow);
    }
  }

  lemma {:induction false} EncodeRowsSnoc(f: Format, rows: seq<seq<Value>>, row: seq<Value>)
    requires RowsFit(f, rows) && |row| == |f.nullable|
    ensures RowsFit(f, rows + [row])
    ensures EncodeRows(f, rows + [row]) == EncodeRows(f, rows) + EncodeRow(f, row)
  {
    if rows == [] {
      assert rows + [row] == [row] && [row][1..] == [];
      assert EncodeRows(f, [row]) == EncodeRow(f, row) + [];
    } else {
      EncodeRowsSnoc(f, rows[1..], row);
      assert (rows + [row])[1..] == rows[1..] + [row];
      Assoc(EncodeRow(f, rows[0]), EncodeRows(f, rows[1..]), EncodeRow(f, row));
    }
  }

  /** The rows selected from the first `n` rows, and what the next one adds. */
  lemma SelectNext(f: Format, table: seq<seq<Value>>, n: nat, firstrow: int, lastrow: int)
    requires RowsFit(f, table) && n < |table|
    ensures var done := Selected(table[..n], firstrow, lastrow);
            var next := Selected(table[..n + 1], firstrow, lastrow);
            && RowsFit(f, done) && RowsFit(f, next)
            && if firstrow > n + 1 || n + 1 > RowBound(lastrow) then next == done
               else |next| == |done| + 1 && EncodeRows(f, next) == EncodeRows(f, done) + EncodeRow(f, table[n])
  {
    var done := Selected(table[..n], firstrow, lastrow);
    assert table[..n + 1][..n] == table[..n];
    SelectedFit(f, table[..n], firstrow, lastrow);
    if firstrow > n + 1 || n + 1 > RowBound(lastrow) {
      assert done + [] == done;
    } else {
      EncodeRowsSnoc(f, done, table[n]);
    }
  }

  /** The row loop: the file holds the selected rows, and the count is their number. */
  method ExecOut(f: Format, table: seq<seq<Value>>, firstrow: int, lastrow: int)
    returns (file: seq<Byte>, rowsCopied: int, ok: bool)
    requires f.Valid() && RowsFit(f, table)
    ensures RowsFit(f, Selected(table, firstrow, lastrow))
    ensures file == EncodeRows(f, Selected(table, firstrow, lastrow))
    ensures ok <==> firstrow <= |table| + 1
    ensures ok ==> rowsCopied == |Selected(table, firstrow, lastrow)|
  {
    file, rowsCopied := [], 0;
    var rowOfQuery := 0;
    while rowOfQuery < |table|
      invariant 0 <= rowOfQuery <= |table|
      invariant RowsFit(f, Selected(table[..rowOfQuery], firstrow, lastrow)) == true
      invariant file == EncodeRows(f, Selected(table[..rowOfQuery], firstrow, lastrow))
      invariant rowsCopied == |Selected(table[..rowOfQuery], firstrow, lastrow)|
    {
      SelectNext(f, table, rowOfQuery, firstrow, lastrow);
      rowOfQuery := rowOfQuery + 1;
      if firstrow > rowOfQuery || rowOfQuery > RowBound(lastrow) {
        continue;
      }
      file := WriteRow(f, table[rowOfQuery - 1], file);
      rowsCopied := rowsCopied + 1;
    }
    assert table[..|table|] == table;
    ok := !(rowOfQuery + 1 < firstrow);
  }

  // --------------------------------------------------------------- copy in

  /** What became of a column. */
  datatype Column = Filled(v: Value) | AtEof | Unreadable

  /** How many bytes to read, step by step from the prefix's length. */
  method MakePlan(col: HostCol, prefix: int) returns (collen: nat, dataIsNull: bool)
    requires col.Valid()
    ensures (collen, dataIsNull) == Plan(col, prefix)
  {
    var len := prefix;
    dataIsNull := false;
    if len <= -1 {
      dataIsNull := true;
      len := 0;
    }
    if !dataIsNull && col.columnLen >= 0 {
      if col.columnLen == 0 {
        dataIsNull := true;
      } else if len != 0 {
        len := if col.columnLen < len then col.columnLen else len;
      } else {
        len := col.columnLen;
      }
    }
    if col.ty.Fixed? {
      len := col.ty.size;
    }
    collen := len;
  }

  method ReadRest(file: File, col: HostCol, collen: nat, isNull: bool) returns (c: Column)
    requires file.Valid()
    modifies file
    ensures file.Valid()
    ensures match ReadBody(col, (collen, isNull), old(file.Rest()))
            case Got(v, rest) => c == Filled(v) && file.Rest() == rest && file.eof == old(file.eof)
            case Ended => c == AtEof && file.eof
            case Failed => c == Unreadable
  {
    if |col.term| > 0 {
      var r := BcpFread(file, col.term);
      match r {
        case AtEnd => c := AtEof;
        case Broken => c := Unreadable;
        case Field(b) => c := Filled(if isNull || b == [] then Null else Data(b));
      }
    } else {
      var b := file.Fread(collen);
      if |b| != collen {
        return AtEof;
      }
      c := Filled(if isNull then Null else Data(b));
    }
  }

  /** Reads one column: the prefix, and then by terminator or by length. */
  method ReadColumn(file: File, order: Order, col: HostCol, width: int) returns (c: Column)
    requires file.Valid() && col.Valid()
    modifies file
    ensures file.Valid()
    ensures match ReadField(order, col, width, old(file.Rest()))
            case Got(v, rest) => c == Filled(v) && file.Rest() == rest && file.eof == old(file.eof)
            case Ended => c == AtEof && file.eof
            case Failed => c == Unreadable
  {
    var w := PrefixBytes(width);
    ghost var s := file.Rest();
    var p := file.Fread(w);
    if |p| != w {
      return AtEof;
    }
    assert p == s[..w] && file.Rest() == s[w..];
    var collen, isNull := MakePlan(col, DecodePrefix(order, width, p));
    c := ReadRest(file, col, collen, isNull);
  }

  datatype Status = More(fields: seq<Value>) | NoMore | Failure

  /** The status that belongs to a row's result. */
  function StatusOf(r: RowResult): Status {
    match r
    case MoreRows(fields, _) => More(fields)
    case NoMoreRows => NoMore
    case Fail => Failure
  }

  /** The result of the remaining columns, with the fields read before them. */
  function Prepend(fields: seq<Value>, r: RowResult): RowResult {
    match r
    case MoreRows(more, rest) => MoreRows(fields + more, rest)
    case NoMoreRows => NoMoreRows
    case Fail => Fail
  }

  lemma PrependMore(fields: seq<Value>, v: Value, r: RowResult)
    ensures Prepend(fields, Prepend([v], r)) == Prepend(fields + [v], r)
  {
    if r.MoreRows? { assert fields + ([v] + r.fields) == (fields + [v]) + r.fields; }
  }

  /** One column of a row, with the fields read before it. */
  lemma ReadStep(f: Format, i: nat, s: seq<Byte>, fields: seq<Value>)
    requires i < |f.cols| && f.cols[i].tabCol <= |f.nullable|
    ensures var all := Prepend(fields, ReadFrom(f, i, s));
            match ReadField(f.order, f.cols[i], f.Width(f.cols[i]), s)
            case Got(v, rest) => all == Prepend(fields + [v], ReadFrom(f, i + 1, rest))
            case Ended => all == if i == 0 then NoMoreRows else Fail
            case Failed => all == Fail
  {
    match ReadField(f.order, f.cols[i], f.Width(f.cols[i]), s)
    case Got(v, rest) => PrependMore(fields, v, ReadFrom(f, i + 1, rest));
    case _ =>
  }

  ghost predicate RestGives(f: Format, i: nat, s: seq<Byte>, more: RowResult)
    requires i <= |f.cols|
  {
    more == ReadFrom(f, i, s)
  }

  /** The row's result is the fields read so far with what the columns from the `i`-th on give. */
  ghost predicate Reading(all: RowResult, f: Format, i: nat, s: seq<Byte>, fields: seq<Value>)
    requires i <= |f.cols|
  {
    forall more | RestGives(f, i, s, more) :: all == Prepend(fields, more)
  }

  lemma ReadStart(f: Format, s: seq<Byte>)
    ensures Reading(ReadRow(f, s), f, 0, s, []) == true
  {
    var r := ReadFrom(f, 0, s);
    if r.MoreRows? { assert [] + r.fields == r.fields; }
  }

  lemma ReadEnd(all: RowResult, f: Format, s: seq<Byte>, fields: seq<Value>)
    requires Reading(all, f, |f.cols|, s, fields) == true
    ensures all == MoreRows(fields, s)
  {
    assert RestGives(f, |f.cols|, s, MoreRows([], s));
    assert fields + [] == fields;
  }

  method CheckEof(file: File, icol: nat) returns (st: Status)
    ensures st == if file.eof && icol == 0 then NoMore else Failure
  {
    if file.eof {
      if icol == 0 {
        return NoMore;
      }
      return Failure;
    }
    st := Failure;
  }

  /** One round: one more field, or the status with which reading stops. */
  method NextColumn(file: File, f: Format, i: nat, fields: seq<Value>, ghost all: RowResult)
    returns (ok: bool, next: seq<Value>, st: Status)
    requires file.Valid() && f.Valid() && i < |f.cols|
    requires Reading(all, f, i, file.Rest(), fields) == true
    modifies file
    ensures file.Valid()
    ensures ok ==> Reading(all, f, i + 1, file.Rest(), next) == true
    ensures !ok ==> !st.More? && st == StatusOf(all)
  {
    ok, next, st := false, fields, Failure;
    var col := f.cols[i];
    assert RestGives(f, i, file.Rest(), ReadFrom(f, i, file.Rest()));
    if col.tabCol > |f.nullable| {
      return;
    }
    ReadStep(f, i, file.Rest(), fields);
    var c := ReadColumn(file, f.order, col, f.Width(col));
    if c == AtEof {
      st := CheckEof(file, i);
    }
    if c.Filled? {
      ok, next := true, fields + [c.v];
    }
  }

  /** The loop over the columns, for a row whose result is `all`. */
  method ReadColumns(file: File, f: Format, ghost all: RowResult) returns (st: Status)
    requires file.Valid() && f.Valid()
    requires Reading(all, f, 0, file.Rest(), []) == true
    modifies file
    ensures file.Valid() && st == StatusOf(all)
    ensures st.More? ==> all == MoreRows(st.fields, file.Rest())
  {
    var fields, ok := [], true;
    st := Failure;
    var i := 0;
    while i < |f.cols|
      invariant 0 <= i <= |f.cols|
      invariant file.Valid()
      // (comparing with true keeps the verifier from taking the predicate apart)
      invariant Reading(all, f, i, file.Rest(), fields) == true
    {
      ok, fields, st := NextColumn(file, f, i, fields, all);
      if !ok {
        return;
      }
      i := i + 1;
    }
    st := More(fields);
    ReadEnd(all, f, file.Rest(), fields);
  }

  /** Reads one row; an end of file in the first column is normal, elsewhere an error. */
  method ReadHostfile(file: File, f: Format) returns (st: Status)
    requires file.Valid() && f.Valid()
    modifies file
    ensures file.Valid()
    ensures st == StatusOf(ReadRow(f, old(file.Rest())))
    ensures st.More? ==> file.Rest() == ReadRow(f, old(file.Rest())).rest
  {
    ReadStart(f, file.Rest());
    st := ReadColumns(file, f, ReadRow(f, file.Rest()));
  }
}
