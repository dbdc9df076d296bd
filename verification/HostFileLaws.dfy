/**
 Whole host files: a file written by the copy out is read back row by row to a clean
 end, and a file that was cut anywhere gives the rows wholly before the cut.
 */
module HostFileLaws {
  import opened Bytes
  import opened TermScan
  import opened HostCodec
  import opened HostLaws

  /** How a file ends for the reader; `Stuck` is a format that reads rows from no bytes. */
  datatype End = Clean | Bad | Stuck

  datatype FileResult = FileResult(rows: seq<seq<Value>>, end: End)

  function ReadFile(f: Format, s: seq<Byte>): FileResult
    decreases |s|
  {
    match ReadRow(f, s)
    case NoMoreRows => FileResult([], Clean)
    case Fail => FileResult([], Bad)
    case MoreRows(fields, rest) =>
      if |rest| < |s| then
        var r := ReadFile(f, rest);
        FileResult([fields] + r.rows, r.end)
      else FileResult([], Stuck)
  }

  ghost predicate RowsFit(f: Format, rows: seq<seq<Value>>) {
    forall i | 0 <= i < |rows| :: |rows[i]| == |f.nullable|
  }

  ghost predicate RowsInSync(f: Format, rows: seq<seq<Value>>) {
    forall i | 0 <= i < |rows| :: |rows[i]| == |f.nullable| && RowInSync(f, rows[i])
  }

  function EncodeRows(f: Format, rows: seq<seq<Value>>): seq<Byte>
    requires RowsFit(f, rows)
  {
    if rows == [] then [] else EncodeRow(f, rows[0]) + EncodeRows(f, rows[1..])
  }

  function AllFields(f: Format, rows: seq<seq<Value>>): (r: seq<seq<Value>>)
    requires RowsFit(f, rows)
    ensures |r| == |rows|
  {
    if rows == [] then [] else [FieldsFrom(f, 0, rows[0])] + AllFields(f, rows[1..])
  }

  // ------------------------------------------------------------- the end

  /** The first column cannot be read from nothing. */
  predicate NeedsBytes(f: Format) {
    && f.cols != []
    && f.cols[0].tabCol <= |f.nullable|
    && (PrefixBytes(f.Width(f.cols[0])) > 0 || f.cols[0].term != [] || Plan(f.cols[0], 0).0 > 0)
  }

  lemma {:induction false} OnlyFirstColumnEnds(f: Format, i: nat, s: seq<Byte>)
    requires 0 < i <= |f.cols|
    ensures ReadFrom(f, i, s) != NoMoreRows
    decreases |f.cols| - i
  {
    if i < |f.cols| {
      match ReadField(f.order, f.cols[i], f.Width(f.cols[i]), s)
      case Got(_, rest) => OnlyFirstColumnEnds(f, i + 1, rest);
      case _ =>
    }
  }

  /** At the end of the file the reader stops normally exactly when the first column needs bytes. */
  lemma EndOfFile(f: Format)
    ensures ReadRow(f, []) == NoMoreRows <==> NeedsBytes(f)
  {
    if f.cols != [] && f.cols[0].tabCol <= |f.nullable| {
      var w := PrefixBytes(f.Width(f.cols[0]));
      var empty: seq<Byte> := [];
      assert w == 0 ==> empty[..w] == [] && empty[w..] == [];
      match ReadField(f.order, f.cols[0], f.Width(f.cols[0]), [])
      case Got(_, rest) => OnlyFirstColumnEnds(f, 1, rest);
      case _ =>
    }
  }

  lemma RowTakesBytes(f: Format, row: seq<Value>)
    requires |row| == |f.nullable| && RowInSync(f, row) && NeedsBytes(f)
    ensures f.Mapped(f.cols[0])
    ensures 0 < |EncodeCol(f, f.cols[0], row)| <= |EncodeRow(f, row)|
  {
    assert ColInSync(f, f.cols[0], row);
  }

  lemma ReadFirst(f: Format, row: seq<Value>, rest: seq<Byte>)
    requires |row| == |f.nullable| && RowInSync(f, row) && NeedsBytes(f)
    ensures var r := ReadFile(f, rest);
            ReadFile(f, EncodeRow(f, row) + rest) == FileResult([FieldsFrom(f, 0, row)] + r.rows, r.end)
  {
    RowTakesBytes(f, row);
    RowReadsBack(f, row, rest);
  }

  /** The whole file: every row comes back, in order, and then a normal end. */
  lemma {:induction false} FileReadsBack(f: Format, rows: seq<seq<Value>>)
    requires RowsInSync(f, rows) && NeedsBytes(f)
    ensures ReadFile(f, EncodeRows(f, rows)) == FileResult(AllFields(f, rows), Clean)
  {
    if rows == [] {
      EndOfFile(f);
    } else {
      ReadFirst(f, rows[0], EncodeRows(f, rows[1..]));
      FileReadsBack(f, rows[1..]);
    }
  }

  /** A host column beyond the columns of the table makes the row fail when its turn comes. */
  lemma WiderThanTable(f: Format, i: nat, s: seq<Byte>)
    requires i < |f.cols| && f.cols[i].tabCol > |f.nullable|
    ensures ReadFrom(f, i, s) == Fail
  {
  }

  // ------------------------------------------------------- files cut short

  lemma NoTermBeforeTheEnd(b: seq<Byte>, term: seq<Byte>, m: nat)
    requires term != [] && TermAt(b + term, term) == |b| && m < |b + term|
    ensures TermAt((b + term)[..m], term) == -1
  {
    var t := (b + term)[..m];
    assert t + (b + term)[m..] == b + term;
    if TermAt(t, term) >= 0 { TermAtPrefix(t, term, (b + term)[m..]); }
  }

  /** The part behind the prefix, cut short. */
  lemma BodyCut(col: HostCol, plan: (nat, bool), b: seq<Byte>, m: nat)
    requires m < |b + col.term|
    requires if col.term != [] then TermAt(b + col.term, col.term) == |b| else plan.0 == |b|
    ensures ReadBody(col, plan, (b + col.term)[..m]) == if col.term == [] || m == 0 then Ended else Failed
  {
    if col.term != [] { NoTermBeforeTheEnd(b, col.term, m); }
  }

  lemma ReadParts(order: Order, col: HostCol, width: int, prefix: seq<Byte>, s: seq<Byte>)
    requires |prefix| == PrefixBytes(width)
    ensures ReadField(order, col, width, prefix + s) == ReadBody(col, Plan(col, DecodePrefix(order, width, prefix)), s)
  {
    assert (prefix + s)[..|prefix|] == prefix && (prefix + s)[|prefix|..] == s;
  }

  lemma TailCut(enc: seq<Byte>, more: seq<Byte>, m: nat)
    requires |enc| <= m <= |enc| + |more|
    ensures (enc + more)[..m] == enc + more[..m - |enc|]
  {
  }

  /** The same for any prefix and any bytes behind it. */
  lemma BytesCut(order: Order, col: HostCol, width: int, prefix: seq<Byte>, b: seq<Byte>, m: nat)
    requires |prefix| == PrefixBytes(width) && m < |prefix + (b + col.term)|
    requires if col.term != [] then TermAt(b + col.term, col.term) == |b|
             else Plan(col, DecodePrefix(order, width, prefix)).0 == |b|
    ensures ReadField(order, col, width, (prefix + (b + col.term))[..m])
         == if col.term == [] || m <= |prefix| then Ended else Failed
  {
    if m >= |prefix| {
      TailCut(prefix, b + col.term, m);
      ReadParts(order, col, width, prefix, (b + col.term)[..m - |prefix|]);
      BodyCut(col, Plan(col, DecodePrefix(order, width, prefix)), b, m - |prefix|);
    }
  }

  /** A field cut short: the file has ended, unless part of a terminated field is there. */
  lemma FieldCut(order: Order, col: HostCol, width: int, v: Value, m: nat)
    requires InSync(col, width, v) && m < |Encode(order, col, width, v)|
    ensures ReadField(order, col, width, Encode(order, col, width, v)[..m])
         == if col.term == [] || m <= PrefixBytes(width) then Ended else Failed
  {
    PrefixReadsBack(order, width, |v.Buffer()|);
    BytesCut(order, col, width, EncodePrefix(order, width, |v.Buffer()|), Body(col, v), m);
  }

  lemma HeadCut(enc: seq<Byte>, more: seq<Byte>, m: nat)
    requires m <= |enc + more|
    ensures (enc + more)[..m] == if m < |enc| then enc[..m] else enc + more[..m - |enc|]
  {
  }

  /** Where a row was cut decides how its end is reported. */
  function CutEnd(f: Format, row: seq<Value>, m: nat): End
    requires f.cols != [] && |row| == |f.nullable|
  {
    var col := f.cols[0];
    if m < |EncodeCol(f, col, row)| && (col.term == [] || m <= PrefixBytes(f.Width(col))) then Clean else Bad
  }

  lemma ColumnStops(f: Format, i: nat, s: seq<Byte>)
    requires 0 < i < |f.cols| && !ReadField(f.order, f.cols[i], f.Width(f.cols[i]), s).Got?
    ensures ReadFrom(f, i, s) == Fail
  {
  }

  lemma RestStops(f: Format, i: nat, s: seq<Byte>, rest: seq<Byte>, v: Value)
    requires i < |f.cols| && ReadField(f.order, f.cols[i], f.Width(f.cols[i]), s) == Got(v, rest)
    requires ReadFrom(f, i + 1, rest) == Fail
    ensures ReadFrom(f, i, s) == Fail
  {
  }

  lemma ColCut(f: Format, col: HostCol, row: seq<Value>, m: nat)
    requires |row| == |f.nullable| && ColInSync(f, col, row) && m < |EncodeCol(f, col, row)|
    ensures f.Mapped(col)
    ensures ReadField(f.order, col, f.Width(col), EncodeCol(f, col, row)[..m])
         == if col.term == [] || m <= PrefixBytes(f.Width(col)) then Ended else Failed
  {
    FieldCut(f.order, col, f.Width(col), row[col.tabCol - 1], m);
  }

  /** Bytes of a column and bytes of the ones behind it, cut in either part. */
  lemma ColumnsCut(f: Format, i: nat, enc: seq<Byte>, more: seq<Byte>, m: nat, v: Value)
    requires 0 < i < |f.cols| && m <= |enc + more|
    requires m < |enc| ==> !ReadField(f.order, f.cols[i], f.Width(f.cols[i]), enc[..m]).Got?
    requires m >= |enc| ==>
               && ReadField(f.order, f.cols[i], f.Width(f.cols[i]), enc + more[..m - |enc|]) == Got(v, more[..m - |enc|])
               && ReadFrom(f, i + 1, more[..m - |enc|]) == Fail
    ensures ReadFrom(f, i, (enc + more)[..m]) == Fail
  {
    HeadCut(enc, more, m);
    if m < |enc| {
      ColumnStops(f, i, enc[..m]);
    } else {
      RestStops(f, i, enc + more[..m - |enc|], more[..m - |enc|], v);
    }
  }

  lemma LaterStep(f: Format, i: nat, row: seq<Value>, more: seq<Byte>, m: nat)
    requires 0 < i < |f.cols| && |row| == |f.nullable| && ColInSync(f, f.cols[i], row)
    requires m <= |EncodeCol(f, f.cols[i], row) + more|
    requires var n := |EncodeCol(f, f.cols[i], row)|;
             m >= n ==> ReadFrom(f, i + 1, more[..m - n]) == Fail
    ensures ReadFrom(f, i, (EncodeCol(f, f.cols[i], row) + more)[..m]) == Fail
  {
    var col := f.cols[i];
    var enc := EncodeCol(f, col, row);
    if m < |enc| {
      ColCut(f, col, row, m);
    } else {
      ColReadsBack(f, col, row, more[..m - |enc|]);
    }
    ColumnsCut(f, i, enc, more, m, ColReadsAs(f, col, row));
  }

  lemma {:induction false} LaterColumnCut(f: Format, i: nat, row: seq<Value>, m: nat)
    requires 0 < i <= |f.cols| && |row| == |f.nullable| && RowInSync(f, row)
    requires m < |EncodeFrom(f, i, row)|
    ensures ReadFrom(f, i, EncodeFrom(f, i, row)[..m]) == Fail
    decreases |f.cols| - i
  {
    var n := |EncodeCol(f, f.cols[i], row)|;
    if m >= n {
      LaterColumnCut(f, i + 1, row, m - n);
    }
    LaterStep(f, i, row, EncodeFrom(f, i + 1, row), m);
  }

  /** A row cut short is never read; a cut in the first column can look like a normal end. */
  lemma RowCut(f: Format, row: seq<Value>, m: nat)
    requires |row| == |f.nullable| && RowInSync(f, row) && NeedsBytes(f)
    requires m < |EncodeRow(f, row)|
    ensures ReadRow(f, EncodeRow(f, row)[..m]) == if CutEnd(f, row, m) == Clean then NoMoreRows else Fail
  {
    var col := f.cols[0];
    RowTakesBytes(f, row);
    assert ColInSync(f, col, row);
    var enc, more := EncodeCol(f, col, row), EncodeFrom(f, 1, row);
    assert EncodeRow(f, row) == enc + more;
    HeadCut(enc, more, m);
    if m < |enc| {
      ColCut(f, col, row, m);
    } else {
      ColReadsBack(f, col, row, more[..m - |enc|]);
      LaterColumnCut(f, 1, row, m - |enc|);
    }
  }

  /** The encoding of the first `j` rows, split after the first row. */
  lemma FirstRows(f: Format, rows: seq<seq<Value>>, j: nat)
    requires RowsFit(f, rows) && 0 < j <= |rows|
    ensures EncodeRows(f, rows[..j]) == EncodeRow(f, rows[0]) + EncodeRows(f, rows[1..][..j - 1])
    ensures AllFields(f, rows[..j]) == [FieldsFrom(f, 0, rows[0])] + AllFields(f, rows[1..][..j - 1])
  {
    assert rows[..j][1..] == rows[1..][..j - 1];
  }

  lemma CutInFirstRow(f: Format, rows: seq<seq<Value>>, k: nat)
    requires RowsInSync(f, rows) && NeedsBytes(f) && rows != [] && k < |EncodeRow(f, rows[0])|
    ensures ReadFile(f, EncodeRows(f, rows)[..k]) == FileResult([], CutEnd(f, rows[0], k))
  {
    HeadCut(EncodeRow(f, rows[0]), EncodeRows(f, rows[1..]), k);
    RowCut(f, rows[0], k);
  }

  lemma CutAfterRow(f: Format, row: seq<Value>, more: seq<Byte>, k: nat)
    requires |row| == |f.nullable| && RowInSync(f, row) && NeedsBytes(f)
    requires |EncodeRow(f, row)| <= k <= |EncodeRow(f, row)| + |more|
    ensures var r := ReadFile(f, more[..k - |EncodeRow(f, row)|]);
            ReadFile(f, (EncodeRow(f, row) + more)[..k]) == FileResult([FieldsFrom(f, 0, row)] + r.rows, r.end)
  {
    var enc := EncodeRow(f, row);
    var rest := more[..k - |enc|];
    ReadFirst(f, row, rest);
    assert (enc + more)[..k] == enc + rest by { TailCut(enc, more, k); }
  }

  /** The rows wholly before a cut after `k` bytes, and how the end is reported. */
  function BeforeCut(f: Format, rows: seq<seq<Value>>, k: nat): FileResult
    requires RowsFit(f, rows) && f.cols != []
    decreases |rows|
  {
    if rows == [] then FileResult([], Clean)
    else
      var n := |EncodeRow(f, rows[0])|;
      if k < n then FileResult([], CutEnd(f, rows[0], k))
      else
        var r := BeforeCut(f, rows[1..], k - n);
        FileResult([FieldsFrom(f, 0, rows[0])] + r.rows, r.end)
  }

  lemma EncodedRows(f: Format, rows: seq<seq<Value>>)
    requires RowsFit(f, rows) && rows != []
    ensures EncodeRows(f, rows) == EncodeRow(f, rows[0]) + EncodeRows(f, rows[1..])
  {
  }

  ghost predicate Content(s: seq<Byte>, these: seq<Byte>) {
    s == these
  }

  /** Reading the bytes gives the result. */
  ghost predicate Gives(f: Format, s: seq<Byte>, r: FileResult) {
    // (the quantifier keeps the verifier from taking the predicate apart where it is only passed on)
    forall these | Content(s, these) :: ReadFile(f, these) == r
  }

  lemma GivesFirst(f: Format, rows: seq<seq<Value>>, k: nat)
    requires RowsInSync(f, rows) && NeedsBytes(f) && rows != [] && k < |EncodeRow(f, rows[0])|
    ensures k <= |EncodeRows(f, rows)| && Gives(f, EncodeRows(f, rows)[..k], FileResult([], CutEnd(f, rows[0], k))) == true
  {
    CutInFirstRow(f, rows, k);
  }

  lemma GivesLater(f: Format, row: seq<Value>, more: seq<Byte>, k: nat, later: FileResult)
    requires |row| == |f.nullable| && RowInSync(f, row) && NeedsBytes(f)
    requires |EncodeRow(f, row)| <= k <= |EncodeRow(f, row)| + |more|
    requires Gives(f, more[..k - |EncodeRow(f, row)|], later) == true
    ensures Gives(f, (EncodeRow(f, row) + more)[..k], FileResult([FieldsFrom(f, 0, row)] + later.rows, later.end)) == true
  {
    var rest := more[..k - |EncodeRow(f, row)|];
    assert Content(rest, rest);
    CutAfterRow(f, row, more, k);
  }

  lemma {:induction false} CutGives(f: Format, rows: seq<seq<Value>>, k: nat)
    requires RowsInSync(f, rows) && NeedsBytes(f) && k <= |EncodeRows(f, rows)|
    ensures Gives(f, EncodeRows(f, rows)[..k], BeforeCut(f, rows, k)) == true
    decreases |rows|
  {
    if rows == [] {
      EndOfFile(f);
      assert EncodeRows(f, rows)[..k] == [];
    } else if k < |EncodeRow(f, rows[0])| {
      GivesFirst(f, rows, k);
    } else {
      var k1 := k - |EncodeRow(f, rows[0])|;
      EncodedRows(f, rows);
      CutGives(f, rows[1..], k1);
      GivesLater(f, rows[0], EncodeRows(f, rows[1..]), k, BeforeCut(f, rows[1..], k1));
    }
  }

  /** A file cut anywhere gives exactly the rows wholly before the cut. */
  lemma CutFile(f: Format, rows: seq<seq<Value>>, k: nat)
    requires RowsInSync(f, rows) && NeedsBytes(f) && k <= |EncodeRows(f, rows)|
    ensures ReadFile(f, EncodeRows(f, rows)[..k]) == BeforeCut(f, rows, k)
  {
    CutGives(f, rows, k);
    var s := EncodeRows(f, rows)[..k];
    assert Content(s, s);
  }

  /** How many rows are wholly before the cut. */
  function Whole(f: Format, rows: seq<seq<Value>>, k: nat): (j: nat)
    requires RowsFit(f, rows)
    ensures j <= |rows|
    decreases |rows|
  {
    if rows == [] || k < |EncodeRow(f, rows[0])| then 0
    else 1 + Whole(f, rows[1..], k - |EncodeRow(f, rows[0])|)
  }

  /** Where the `j`-th row starts in the file. */
  function Offset(f: Format, rows: seq<seq<Value>>, j: nat): nat
    requires RowsFit(f, rows) && j <= |rows|
  {
    |EncodeRows(f, rows[..j])|
  }

  lemma OffsetShift(f: Format, rows: seq<seq<Value>>, j: nat)
    requires RowsFit(f, rows) && 0 < j <= |rows|
    ensures Offset(f, rows, j) == |EncodeRow(f, rows[0])| + Offset(f, rows[1..], j - 1)
  {
    FirstRows(f, rows, j);
  }

  lemma {:induction false} WholeRowsEnd(f: Format, rows: seq<seq<Value>>, k: nat)
    requires RowsFit(f, rows)
    ensures Offset(f, rows, Whole(f, rows, k)) <= k
    ensures Whole(f, rows, k) < |rows| ==> k < Offset(f, rows, Whole(f, rows, k) + 1)
    decreases |rows|
  {
    var j := Whole(f, rows, k);
    if rows != [] && j == 0 {
      OffsetShift(f, rows, 1);
      assert rows[..0] == [];
    } else if rows != [] {
      WholeRowsEnd(f, rows[1..], k - |EncodeRow(f, rows[0])|);
      OffsetShift(f, rows, j);
      if j < |rows| { OffsetShift(f, rows, j + 1); }
    }
  }

  /** The rows read are the first ones. */
  lemma {:induction false} RowsBeforeCut(f: Format, rows: seq<seq<Value>>, k: nat)
    requires RowsFit(f, rows) && f.cols != []
    ensures BeforeCut(f, rows, k).rows == AllFields(f, rows[..Whole(f, rows, k)])
    decreases |rows|
  {
    var j := Whole(f, rows, k);
    if j == 0 {
      assert rows[..0] == [];
    } else {
      RowsBeforeCut(f, rows[1..], k - |EncodeRow(f, rows[0])|);
      FirstRows(f, rows, j);
    }
  }

  /** If all rows are before the cut, the end is normal. */
  lemma {:induction false} CleanBehindAll(f: Format, rows: seq<seq<Value>>, k: nat)
    requires RowsFit(f, rows) && f.cols != [] && Whole(f, rows, k) == |rows|
    ensures BeforeCut(f, rows, k).end == Clean
    decreases |rows|
  {
    if rows == [] {
      // base case
    } else {
      CleanBehindAll(f, rows[1..], k - |EncodeRow(f, rows[0])|);
    }
  }

  /** Otherwise the end depends on where in the next row the cut is. */
  lemma {:induction false} EndAtCut(f: Format, rows: seq<seq<Value>>, j: nat, k: nat)
    requires RowsFit(f, rows) && f.cols != [] && j == Whole(f, rows, k) < |rows|
    ensures Offset(f, rows, j) <= k
    ensures BeforeCut(f, rows, k).end == CutEnd(f, rows[j], k - Offset(f, rows, j))
    decreases |rows|
  {
    if j == 0 {
      assert rows[..0] == [];
    } else {
      var k1 := k - |EncodeRow(f, rows[0])|;
      EndAtCut(f, rows[1..], j - 1, k1);
      OffsetShift(f, rows, j);
      assert rows[1..][j - 1] == rows[j];
      assert BeforeCut(f, rows, k).end == BeforeCut(f, rows[1..], k1).end;
    }
  }
}
