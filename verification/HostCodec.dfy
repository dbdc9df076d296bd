/**
 The layout of a bulk-copy host file: each field is an optional length prefix, the data
 cut to the column's length, and an optional terminator.  `Encode` is what the copy out
 writes, `ReadField` and `ReadRow` what the copy in makes of a file.

 Conversion between column types is taken to be the identity on bytes.
 */
module HostCodec {
  import opened Bytes
  import opened TermScan

  /** The kinds of host data types that the layout depends on. */
  datatype Type = Blob | Numeric | Variable | Fixed(size: nat)

  /** A column of the host file; `prefixLen` -1 means the usual one, `columnLen` -1 no limit. */
  datatype HostCol = HostCol(ty: Type, prefixLen: int, columnLen: int, term: seq<Byte>, tabCol: int)
  {
    ghost predicate Valid() {
      -1 <= columnLen && (ty.Fixed? ==> ty.size > 0)
    }
  }

  /** A field: NULL or bytes. */
  datatype Value = Null | Data(bytes: seq<Byte>)
  {
    function Buffer(): seq<Byte> {
      if Null? then [] else bytes
    }
  }

  /** The prefix length that a column gets when none is specified. */
  function UsualPrefix(ty: Type, nullable: bool): int {
    match ty
    case Blob => 4
    case Numeric => 1
    case Variable => 2
    case Fixed(_) => if nullable then 1 else 0
  }

  // -------------------------------------------------------------- writing

  /** How many bytes a prefix of the given width takes; widths other than 1, 2 and 4 take none. */
  function PrefixBytes(width: int): nat {
    if width == 1 || width == 2 || width == 4 then width else 0
  }

  /** The length as it is stored; it is reduced to the prefix's width. */
  function EncodePrefix(order: Order, width: int, n: nat): (p: seq<Byte>)
    ensures |p| == PrefixBytes(width)
  {
    if width == 1 then [n % 0x100]
    else if width == 2 then Store16(order, n % 0x1_0000)
    else if width == 4 then Store32(order, n % 0x1_0000_0000)
    else []
  }

  function CutTo(columnLen: int, b: seq<Byte>): seq<Byte> {
    if 0 <= columnLen < |b| then b[..columnLen] else b
  }

  function Encode(order: Order, col: HostCol, width: int, v: Value): seq<Byte> {
    EncodePrefix(order, width, |v.Buffer()|) + (CutTo(col.columnLen, v.Buffer()) + col.term)
  }

  // -------------------------------------------------------------- reading

  /** An unsigned number of the given range read as signed. */
  function Signed(n: int, range: int): int {
    if n >= range / 2 then n - range else n
  }

  /** The length in a prefix, as the reader takes it: signed, and 0 means NULL in one byte. */
  function DecodePrefix(order: Order, width: int, p: seq<Byte>): int
    requires |p| == PrefixBytes(width)
  {
    if width == 1 then (if p[0] == 0 then -1 else p[0])
    else if width == 2 then Signed(Load16(order, p[0], p[1]), 0x1_0000)
    else if width == 4 then Signed(Load32(order, p), 0x1_0000_0000)
    else 0
  }

  /** The number of bytes to read and whether the field is NULL, from the prefix's length. */
  function Plan(col: HostCol, c: int): (nat, bool) {
    var isNull := c <= -1;
    var len := if isNull then 0 else c;
    var (len1, isNull1) :=
      if !isNull && col.columnLen >= 0 then
        if col.columnLen == 0 then (len, true)
        else if len != 0 then (if col.columnLen < len then col.columnLen else len, false)
        else (col.columnLen, false)
      else (len, isNull);
    (if col.ty.Fixed? then col.ty.size else len1, isNull1)
  }

  /** A field and the rest of the file, or a file that ended, or one that is broken. */
  datatype FieldResult = Got(value: Value, rest: seq<Byte>) | Ended | Failed

  /** What follows the prefix. */
  function ReadBody(col: HostCol, plan: (nat, bool), s: seq<Byte>): FieldResult {
    var (len, isNull) := plan;
    if col.term != [] then
      match Scan(s, col.term)
      case AtEnd => Ended
      case Broken => Failed
      case Field(b) => Got(if isNull || b == [] then Null else Data(b), s[|b| + |col.term|..])
    else if |s| < len then Ended
    else Got(if isNull then Null else Data(s[..len]), s[len..])
  }

  function ReadField(order: Order, col: HostCol, width: int, s: seq<Byte>): FieldResult {
    var w := PrefixBytes(width);
    if |s| < w then Ended
    else ReadBody(col, Plan(col, DecodePrefix(order, width, s[..w])), s[w..])
  }

  /** The format of a file: byte order, host columns, and which table columns accept NULL. */
  datatype Format = Format(order: Order, cols: seq<HostCol>, nullable: seq<bool>)
  {
    ghost predicate Valid() {
      forall i | 0 <= i < |cols| :: cols[i].Valid()
    }

    /** The host column belongs to a column of the table. */
    predicate Mapped(col: HostCol) {
      1 <= col.tabCol <= |nullable|
    }

    function Width(col: HostCol): int {
      if Mapped(col) && col.prefixLen == -1 then UsualPrefix(col.ty, nullable[col.tabCol - 1])
      else col.prefixLen
    }
  }

  datatype RowResult = MoreRows(fields: seq<Value>, rest: seq<Byte>) | NoMoreRows | Fail

  /** Reads the columns from the `i`-th on. */
  function ReadFrom(f: Format, i: nat, s: seq<Byte>): RowResult
    requires i <= |f.cols|
    decreases |f.cols| - i
  {
    if i == |f.cols| then MoreRows([], s)
    else if f.cols[i].tabCol > |f.nullable| then Fail
    else
      match ReadField(f.order, f.cols[i], f.Width(f.cols[i]), s)
      case Ended => if i == 0 then NoMoreRows else Fail
      case Failed => Fail
      case Got(v, rest) =>
        match ReadFrom(f, i + 1, rest)
        case MoreRows(fields, rest1) => MoreRows([v] + fields, rest1)
        case NoMoreRows => NoMoreRows
        case Fail => Fail
  }

  function ReadRow(f: Format, s: seq<Byte>): RowResult {
    ReadFrom(f, 0, s)
  }

  function EncodeCol(f: Format, col: HostCol, row: seq<Value>): seq<Byte>
    requires |row| == |f.nullable|
  {
    if f.Mapped(col) then Encode(f.order, col, f.Width(col), row[col.tabCol - 1]) else []
  }

  /** A row as the copy out writes it; host columns without a table column are passed over. */
  function EncodeFrom(f: Format, i: nat, row: seq<Value>): seq<Byte>
    requires i <= |f.cols| && |row| == |f.nullable|
    decreases |f.cols| - i
  {
    if i == |f.cols| then []
    else EncodeCol(f, f.cols[i], row) + EncodeFrom(f, i + 1, row)
  }

  function EncodeRow(f: Format, row: seq<Value>): seq<Byte>
    requires |row| == |f.nullable|
  {
    EncodeFrom(f, 0, row)
  }
}
