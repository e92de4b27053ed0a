/**
 * The QUERY_RESPONSE payload: a header, the columns, the rows cell by cell, the database name.
 * The decoder reads with a cursor that remembers whether it ever ran past the end, and takes the
 * type of each cell from its column.
 */
module QueryResponses {
  import opened Options
  import opened Numbers
  import opened Powers256
  import opened Sequences
  import opened WireNumbers

  type Int32 = x: int | -0x8000_0000 <= x < 0x8000_0000
  type Int64 = x: int | -0x8000_0000_0000_0000 <= x < 0x8000_0000_0000_0000

  /** A cell value.  `Text` is UTF-8; `Double` is the 64-bit pattern; `Other` is any further type, sent
      as its text. */
  datatype Cell =
    | Null
    | Int(int32: Int32)
    | LongLong(int64: Int64)
    | Double(bits: U64)
    | Bool(flag: bool)
    | Text(utf8: Bytes)
    | Other(text: Bytes)

  datatype Column = Column(name: Bytes, kind: Byte)

  datatype Response = Response(status: Byte, resultType: Byte, rowsAffected: U64,
                               columns: seq<Column>, rows: seq<seq<Cell>>, database: Bytes)

  // The column types the decoder distinguishes, by their position in the type enumeration.
  const SMALLINT: Byte := 1
  const INT: Byte := 3
  const BIGINT: Byte := 5
  const FLOAT: Byte := 8
  const DOUBLE: Byte := 10
  const BOOL: Byte := 45

  predicate ReadsInt(kind: Byte) {
    kind == INT || kind == BIGINT || kind == SMALLINT
  }

  predicate ReadsDouble(kind: Byte) {
    kind == DOUBLE || kind == FLOAT
  }

  function Unsigned32(v: Int32): nat {
    if v < 0 then v + 0x1_0000_0000 else v
  }

  function Unsigned64(v: Int64): nat {
    if v < 0 then v + 0x1_0000_0000_0000_0000 else v
  }

  // ---------- Writing ----------

  function StringBytes(s: Bytes): Bytes
    requires |s| < 0x1_0000_0000
  {
    U32Bytes(|s|) + s
  }

  predicate CellFits(c: Cell) {
    match c
    case Text(s) => |s| + 4 < 0x1_0000_0000
    case Other(s) => |s| + 4 < 0x1_0000_0000
    case _ => true
  }

  function ValueBytes(c: Cell): (s: Bytes)
    requires CellFits(c) && !c.Null?
    ensures 0 < |s| < 0x1_0000_0000
  {
    match c
    case Int(v) => U32Bytes(Unsigned32(v))
    case LongLong(v) => U64Bytes(Unsigned64(v))
    case Double(bits) => U64Bytes(bits)
    case Bool(flag) => [if flag then 1 else 0]
    case Text(s) => StringBytes(s)
    case Other(s) => StringBytes(s)
  }

  function CellBytes(c: Cell): Bytes
    requires CellFits(c)
  {
    if c.Null? then [1] else [0] + (U32Bytes(|ValueBytes(c)|) + ValueBytes(c))
  }

  predicate RowFits(row: seq<Cell>) {
    forall i :: 0 <= i < |row| ==> CellFits(row[i])
  }

  function RowBytes(row: seq<Cell>): Bytes
    requires RowFits(row)
  {
    if row == [] then [] else CellBytes(row[0]) + RowBytes(row[1..])
  }

  predicate RowsFit(rows: seq<seq<Cell>>) {
    forall i :: 0 <= i < |rows| ==> RowFits(rows[i])
  }

  function RowsBytes(rows: seq<seq<Cell>>): Bytes
    requires RowsFit(rows)
  {
    if rows == [] then [] else RowBytes(rows[0]) + RowsBytes(rows[1..])
  }

  predicate ColumnsFit(columns: seq<Column>) {
    forall i :: 0 <= i < |columns| ==> |columns[i].name| < 0x1_0000_0000
  }

  function ColumnBytes(c: Column): Bytes
    requires |c.name| < 0x1_0000_0000
  {
    StringBytes(c.name) + [c.kind]
  }

  function ColumnsBytes(columns: seq<Column>): Bytes
    requires ColumnsFit(columns)
  {
    if columns == [] then [] else ColumnBytes(columns[0]) + ColumnsBytes(columns[1..])
  }

  predicate Sendable(r: Response) {
    |r.columns| < 0x1_0000_0000 && |r.rows| < 0x1_0000_0000 && |r.database| < 0x1_0000_0000 &&
    ColumnsFit(r.columns) && RowsFit(r.rows)
  }

  function HeaderBytes(r: Response): Bytes
    requires Sendable(r)
  {
    [r.status] + ([r.resultType] + (U64Bytes(r.rowsAffected) + (U32Bytes(|r.columns|) + U32Bytes(|r.rows|))))
  }

  function Payload(r: Response): Bytes
    requires Sendable(r)
  {
    HeaderBytes(r) + (ColumnsBytes(r.columns) + (RowsBytes(r.rows) + StringBytes(r.database)))
  }

  /** Where the parts of a payload lie: status, result type, the affected rows in eight bytes, the numbers of
      columns and of rows in four each, then the columns, the cells row by row and the database name. */
  lemma PayloadLayout(r: Response)
    requires Sendable(r)
    ensures var p, cs, rs := Payload(r), ColumnsBytes(r.columns), RowsBytes(r.rows);
            var at := 18 + |cs|;
            |p| == at + |rs| + 4 + |r.database| && p[0] == r.status && p[1] == r.resultType &&
            Number(p[2..10]) == r.rowsAffected && Number(p[10..14]) == |r.columns| && Number(p[14..18]) == |r.rows| &&
            p[18..at] == cs && p[at..at + |rs|] == rs &&
            Number(p[at + |rs|..at + |rs| + 4]) == |r.database| && p[at + |rs| + 4..] == r.database
  {
    hide ColumnsBytes, RowsBytes, Number;
    var p, cs, rs := Payload(r), ColumnsBytes(r.columns), RowsBytes(r.rows);
    var at := 18 + |cs|;
    assert p[2..10] == U64Bytes(r.rowsAffected) && p[10..14] == U32Bytes(|r.columns|) && p[14..18] == U32Bytes(|r.rows|);
    assert p[at + |rs|..at + |rs| + 4] == U32Bytes(|r.database|);
  }

  /** Where the parts of a cell lie: one byte that is 1 for NULL, or 0 and then the length of the value's
      bytes and those bytes; texts carry their own length in front. */
  lemma CellLayout(c: Cell)
    requires CellFits(c)
    ensures c.Null? ==> CellBytes(c) == [1]
    ensures !c.Null? ==>
              var b := CellBytes(c);
              |b| > 5 && b[0] == 0 && Number(b[1..5]) == |b| - 5 &&
              match c
              case Int(v) => |b| == 9 && Number(b[5..]) == Unsigned32(v)
              case LongLong(v) => |b| == 13 && Number(b[5..]) == Unsigned64(v)
              case Double(bits) => |b| == 13 && Number(b[5..]) == bits
              case Bool(flag) => b[5..] == [if flag then 1 else 0]
              case Text(s) => |b| == 9 + |s| && Number(b[5..9]) == |s| && b[9..] == s
              case Other(s) => |b| == 9 + |s| && Number(b[5..9]) == |s| && b[9..] == s
  {
    hide Number;
    if !c.Null? {
      var b, v := CellBytes(c), ValueBytes(c);
      assert b[1..5] == U32Bytes(|v|) && b[5..] == v;
      if c.Text? { assert b[5..9] == U32Bytes(|c.utf8|) && b[9..] == c.utf8; }
      if c.Other? { assert b[5..9] == U32Bytes(|c.text|) && b[9..] == c.text; }
    }
  }

  // ---------- Reading ----------

  /** What is left to read, and whether every read so far found enough bytes. */
  datatype Reader = Reader(data: Bytes, ok: bool)

  function ReadNumber(r: Reader, w: nat): (nat, Reader) {
    if w <= |r.data| then (Number(r.data[..w]), Reader(r.data[w..], r.ok)) else (0, Reader([], false))
  }

  function ReadRaw(r: Reader, n: nat): (Bytes, Reader) {
    if n <= |r.data| then (r.data[..n], Reader(r.data[n..], r.ok))
    else (r.data + seq(n - |r.data|, _ => 0), Reader([], false))
  }

  function ReadByte(r: Reader): (Byte, Reader) {
    if 1 <= |r.data| then (r.data[0], Reader(r.data[1..], r.ok)) else (0, Reader([], false))
  }

  function ReadString(r: Reader): (Bytes, Reader) {
    var (n, r1) := ReadNumber(r, 4);
    if n == 0 then ([], r1) else ReadRaw(r1, n)
  }

  /** The value in the bytes of one cell, as its column type reads it; running short is not noticed. */
  function ReadValue(data: Bytes, kind: Byte): Cell {
    Powers();
    var r := Reader(data, true);
    if ReadsInt(kind) then (var n := ReadNumber(r, 4).0; Int(Signed32(n)))
    else if ReadsDouble(kind) then Double(ReadNumber(r, 8).0)
    else if kind == BOOL then Bool(ReadByte(r).0 != 0)
    else Text(ReadString(r).0)
  }

  function ReadCell(r: Reader, kind: Byte): (Cell, Reader) {
    var (isNull, r1) := ReadByte(r);
    if isNull != 0 then (Null, r1)
    else
      var (n, r2) := ReadNumber(r1, 4);
      if n == 0 then (Null, r2)
      else var (data, r3) := ReadRaw(r2, n); (ReadValue(data, kind), r3)
  }

  function ReadRow(r: Reader, columns: seq<Column>): (seq<Cell>, Reader)
    decreases |columns|
  {
    if columns == [] then ([], r)
    else
      var (c, r1) := ReadCell(r, columns[0].kind);
      var (rest, r2) := ReadRow(r1, columns[1..]);
      ([c] + rest, r2)
  }

  function ReadRows(r: Reader, columns: seq<Column>, n: nat): (seq<seq<Cell>>, Reader)
    decreases n
  {
    if n == 0 then ([], r)
    else
      var (row, r1) := ReadRow(r, columns);
      var (rest, r2) := ReadRows(r1, columns, n - 1);
      ([row] + rest, r2)
  }

  function ReadColumn(r: Reader): (Column, Reader) {
    var (name, r1) := ReadString(r);
    var (kind, r2) := ReadByte(r1);
    (Column(name, kind), r2)
  }

  function ReadColumns(r: Reader, n: nat): (seq<Column>, Reader)
    decreases n
  {
    if n == 0 then ([], r)
    else
      var (c, r1) := ReadColumn(r);
      var (rest, r2) := ReadColumns(r1, n - 1);
      ([c] + rest, r2)
  }

  /** The decoded response and the reader it leaves. */
  function ReadResponse(r: Reader): (Response, Reader) {
    Powers();
    var (status, r1) := ReadByte(r);
    var (resultType, r2) := ReadByte(r1);
    var (affected, r3) := ReadNumber(r2, 8);
    var (columnCount, r4) := ReadNumber(r3, 4);
    var (rowCount, r5) := ReadNumber(r4, 4);
    var (columns, r6) := ReadColumns(r5, columnCount);
    var (rows, r7) := ReadRows(r6, columns, rowCount);
    var (database, r8) := ReadString(r7);
    (Response(status, resultType, affected, columns, rows, database), r8)
  }

  function Decode(payload: Bytes): Option<Response> {
    if payload == [] then None
    else
      var (response, r) := ReadResponse(Reader(payload, true));
      if r.ok then Some(response) else None
  }

  // ---------- Round trips ----------

  lemma NumberRead(s: Bytes, rest: Bytes, ok: bool)
    ensures ReadNumber(Reader(s + rest, ok), |s|) == (Number(s), Reader(rest, ok))
  {
    assert (s + rest)[..|s|] == s && (s + rest)[|s|..] == rest;
  }

  lemma RawRead(s: Bytes, rest: Bytes, ok: bool)
    ensures ReadRaw(Reader(s + rest, ok), |s|) == (s, Reader(rest, ok))
  {
    assert (s + rest)[..|s|] == s && (s + rest)[|s|..] == rest;
  }

  lemma ByteRead(b: Byte, rest: Bytes, ok: bool)
    ensures ReadByte(Reader([b] + rest, ok)) == (b, Reader(rest, ok))
  {
    assert ([b] + rest)[1..] == rest;
  }

  lemma StringRead(s: Bytes, rest: Bytes, ok: bool)
    requires |s| < 0x1_0000_0000
    ensures ReadString(Reader(StringBytes(s) + rest, ok)) == (s, Reader(rest, ok))
  {
    Regroup(U32Bytes(|s|), s, rest);
    NumberRead(U32Bytes(|s|), s + rest, ok);
    if s == [] { NothingBefore(rest); }
    RawRead(s, rest, ok);
  }

  /** What the receiver makes of a cell under a column type. */
  function Seen(c: Cell, kind: Byte): Cell
    requires CellFits(c)
  {
    if c.Null? then Null else ReadValue(ValueBytes(c), kind)
  }

  /** Every cell takes exactly its own bytes, whatever its column type. */
  lemma CellRead(c: Cell, kind: Byte, rest: Bytes, ok: bool)
    requires CellFits(c)
    ensures ReadCell(Reader(CellBytes(c) + rest, ok), kind) == (Seen(c, kind), Reader(rest, ok))
  {
    hide ReadValue, ReadNumber, ReadRaw, ReadByte, ValueBytes, U32Bytes, Number, CellFits;
    if c.Null? {
      ByteRead(1, rest, ok);
    } else {
      var v := ValueBytes(c);
      Regroup([0], U32Bytes(|v|) + v, rest);
      Regroup(U32Bytes(|v|), v, rest);
      ByteRead(0, U32Bytes(|v|) + (v + rest), ok);
      NumberRead(U32Bytes(|v|), v + rest, ok);
      RawRead(v, rest, ok);
    }
  }

  predicate Matches(c: Cell, kind: Byte) {
    match c
    case Null => true
    case Int(_) => ReadsInt(kind)
    case Double(_) => ReadsDouble(kind)
    case Bool(_) => kind == BOOL
    case Text(_) => !ReadsInt(kind) && !ReadsDouble(kind) && kind != BOOL
    case LongLong(_) => false
    case Other(_) => false
  }

  /** A cell arrives as it was sent exactly when its value type is the one its column type reads. */
  lemma SeenIffMatches(c: Cell, kind: Byte)
    requires CellFits(c)
    ensures Seen(c, kind) == c <==> Matches(c, kind)
  {
    Powers();
    match c
    case Text(s) => StringRead(s, [], true); NothingAfter(StringBytes(s));
    case Int(_) => NumberRead(ValueBytes(c), [], true); NothingAfter(ValueBytes(c));
    case Double(_) => NumberRead(ValueBytes(c), [], true); NothingAfter(ValueBytes(c));
    case _ =>
  }

  // ---------- What arrives when the types differ ----------

  /** The text a 64-bit pattern turns into: its upper half is taken for a length, its lower half for the
      first four bytes.  Bytes that are not there are left 0. */
  function PatternText(n: U64): Bytes {
    var length, bytes := n / TWO32, U32Bytes(n % TWO32);
    if length <= 4 then bytes[..length] else bytes + Zeros(length - 4)
  }

  /** The 64-bit pattern a text turns into: its length, and its first four bytes if it has them. */
  function TextPattern(s: Bytes): nat {
    if |s| < 4 then 0 else |s| * TWO32 + Number(s[..4])
  }

  /** The cell that arrives, for every type of value and every column type. */
  function Arrives(c: Cell, kind: Byte): Cell
    requires CellFits(c)
  {
    if c.Null? then Null
    else if ReadsInt(kind) then
      match c
      case Int(v) => Int(v)
      case LongLong(v) => Int(Signed32(Unsigned64(v) / TWO32))
      case Double(bits) => Int(Signed32(bits / TWO32))
      case Bool(_) => Int(0)
      case Text(s) => Int(Signed32(|s|))
      case Other(s) => Int(Signed32(|s|))
    else if ReadsDouble(kind) then
      match c
      case Int(_) => Double(0)
      case LongLong(v) => Double(Unsigned64(v))
      case Double(bits) => Double(bits)
      case Bool(_) => Double(0)
      case Text(s) => Double(PatternFits(s); TextPattern(s))
      case Other(s) => Double(PatternFits(s); TextPattern(s))
    else if kind == BOOL then
      match c
      case Int(v) => Bool(Unsigned32(v) >= 0x100_0000)
      case LongLong(v) => Bool(Unsigned64(v) >= 0x100_0000_0000_0000)
      case Double(bits) => Bool(bits >= 0x100_0000_0000_0000)
      case Bool(flag) => Bool(flag)
      case Text(s) => Bool(|s| >= 0x100_0000)
      case Other(s) => Bool(|s| >= 0x100_0000)
    else
      match c
      case Int(v) => Text(Zeros(Unsigned32(v)))
      case LongLong(v) => Text(PatternText(Unsigned64(v)))
      case Double(bits) => Text(PatternText(bits))
      case Bool(_) => Text([])
      case Text(s) => Text(s)
      case Other(s) => Text(s)
  }

  lemma PatternFits(s: Bytes)
    requires |s| + 4 < TWO32
    ensures TextPattern(s) < TWO64
  {
    if |s| >= 4 {
      Powers();
      assert Number(s[..4]) < Power256(|s[..4]|);
    }
  }

  /** What is decoded is what arrives. */
  lemma SeenIs(c: Cell, kind: Byte)
    requires CellFits(c)
    ensures Seen(c, kind) == Arrives(c, kind)
  {
    hide Number, U32Bytes, U64Bytes, StringBytes, PatternText, TextPattern;
    Powers();
    match c
    case Null =>
    case Int(v) => WordSeen(U32Bytes(Unsigned32(v)), kind);
    case LongLong(v) => PatternSeen(U64Bytes(Unsigned64(v)), kind);
    case Double(bits) => PatternSeen(U64Bytes(bits), kind);
    case Bool(flag) => FlagSeen(flag, kind);
    case Text(s) => TextSeen(s, kind);
    case Other(s) => TextSeen(s, kind);
  }

  lemma FlagSeen(flag: bool, kind: Byte)
    ensures var d := [if flag then 1 else 0];
            ReadValue(d, kind) == if ReadsInt(kind) then Int(0) else if ReadsDouble(kind) then Double(0) else if kind == BOOL then Bool(flag) else Text([])
  {
  }

  /** The bytes of a 32-bit value. */
  lemma WordSeen(d: Bytes, kind: Byte)
    requires |d| == 4
    ensures Number(d) < TWO32
    ensures ReadValue(d, kind) ==
            if ReadsInt(kind) then Int(Signed32(Number(d)))
            else if ReadsDouble(kind) then Double(0)
            else if kind == BOOL then Bool(Number(d) >= 0x100_0000)
            else Text(Zeros(Number(d)))
  {
    Powers();
    assert Number(d) < Power256(|d|);
    FirstByte(d);
    hide Number;
    assert d[..4] == d && d[4..] == [];
    if Number(d) > 0 { NothingBefore(Zeros(Number(d))); }
    assert Zeros(Number(d)) == seq(Number(d), _ => 0);
    if Number(d) == 0 { assert Zeros(0) == []; }
  }

  /** The bytes of a 64-bit value. */
  lemma PatternSeen(d: Bytes, kind: Byte)
    requires |d| == 8
    ensures Number(d) < TWO64
    ensures ReadValue(d, kind) ==
            if ReadsInt(kind) then Int(Signed32(Number(d) / TWO32))
            else if ReadsDouble(kind) then Double(Number(d))
            else if kind == BOOL then Bool(Number(d) >= 0x100_0000_0000_0000)
            else Text(PatternText(Number(d)))
  {
    Powers();
    assert Number(d) < Power256(|d|);
    FirstByte(d);
    Halves(d);
    hide Number, Zeros;
    assert d[..8] == d;
    var low := d[4..];
    SameDigits(low, U32Bytes(Number(d) % TWO32));
    var length := Number(d[..4]);
    if length > 4 { ZerosAre(length - 4); } else { assert length == 0 ==> low[..length] == []; }
  }

  lemma ZerosAre(n: nat)
    ensures Zeros(n) == seq(n, _ => 0)
  {
  }

  /** A text, after its length. */
  lemma TextSeen(s: Bytes, kind: Byte)
    requires |s| + 4 < TWO32
    ensures TextPattern(s) < TWO64
    ensures ReadValue(StringBytes(s), kind) ==
            if ReadsInt(kind) then Int(Signed32(|s|))
            else if ReadsDouble(kind) then Double(TextPattern(s))
            else if kind == BOOL then Bool(|s| >= 0x100_0000)
            else Text(s)
  {
    PatternFits(s);
    Powers();
    var d, length := StringBytes(s), U32Bytes(|s|);
    FirstByte(length);
    NumberRead(length, s, true);
    StringRead(s, [], true);
    NothingAfter(d);
    hide Number, U32Bytes;
    assert d[0] == length[0];
    if |s| >= 4 {
      var e := length + s[..4];
      assert d[..8] == e && e[..4] == length && e[4..] == s[..4];
      Halves(e);
    }
  }

  lemma {:induction false} FirstByte(s: Bytes)
    requires s != []
    ensures s[0] != 0 <==> Number(s) >= Power256(|s| - 1)
  {
    var front := s[..|s| - 1];
    if front != [] {
      FirstByte(front);
    } else {
      assert Number(front) == 0;
    }
  }

  lemma {:induction false} SameDigits(a: Bytes, b: Bytes)
    requires |a| == |b| && Number(a) == Number(b)
    ensures a == b
  {
    if a != [] {
      var n := |a| - 1;
      var x: int, y: int := a[n], b[n];
      assert 256 * Number(a[..n]) + x == 256 * Number(b[..n]) + y;
      SameDigits(a[..n], b[..n]);
      assert a == a[..n] + [a[n]] && b == b[..n] + [b[n]];
    }
  }

  /** Eight bytes as two words. */
  lemma Halves(s: Bytes)
    requires |s| == 8
    ensures Number(s[..4]) < TWO32 && Number(s[4..]) < TWO32
    ensures Number(s) == TWO32 * Number(s[..4]) + Number(s[4..])
    ensures Number(s[..4]) == Number(s) / TWO32 && Number(s[4..]) == Number(s) % TWO32
  {
    Powers();
    assert Number(s[..4]) < Power256(|s[..4]|) && Number(s[4..]) < Power256(|s[4..]|);
    FourMore(s[..4], s[4..]);
    assert s[..4] + s[4..] == s;
  }

  lemma FourMore(a: Bytes, t: Bytes)
    requires |t| == 4
    ensures Number(a + t) == TWO32 * Number(a) + Number(t)
  {
    OneMore(a, t[..3], t[3]);
    OneMore(a, t[..2], t[2]);
    OneMore(a, t[..1], t[1]);
    OneMore(a, [], t[0]);
    assert t[..3] + [t[3]] == t && t[..2] + [t[2]] == t[..3] && t[..1] + [t[1]] == t[..2] && [] + [t[0]] == t[..1];
    NothingAfter(a);
    OneMore([], t[..3], t[3]);
    OneMore([], t[..2], t[2]);
    OneMore([], t[..1], t[1]);
    OneMore([], [], t[0]);
    NothingBefore(t);
    NothingBefore(t[..3]);
    NothingBefore(t[..2]);
    NothingBefore(t[..1]);
  }

  lemma OneMore(a: Bytes, t: Bytes, b: Byte)
    ensures Number(a + (t + [b])) == 256 * Number(a + t) + b
  {
    var s := a + (t + [b]);
    assert s[..|s| - 1] == a + t && s[|s| - 1] == b;
  }

  /** A 64-bit integer in a BIGINT column arrives as its upper 32 bits. */
  lemma LongLongArrivesAsUpperHalf(v: Int64)
    ensures Seen(LongLong(v), BIGINT) == Int(Signed32(Unsigned64(v) / TWO32))
  {
    SeenIs(LongLong(v), BIGINT);
  }

  function SeenRow(row: seq<Cell>, columns: seq<Column>): (r: seq<Cell>)
    requires RowFits(row) && |row| == |columns|
    ensures |r| == |row| && forall i :: 0 <= i < |row| ==> r[i] == Seen(row[i], columns[i].kind)
  {
    if row == [] then [] else [Seen(row[0], columns[0].kind)] + SeenRow(row[1..], columns[1..])
  }

  predicate Rectangular(rows: seq<seq<Cell>>, columns: seq<Column>) {
    forall i :: 0 <= i < |rows| ==> |rows[i]| == |columns|
  }

  function SeenRows(rows: seq<seq<Cell>>, columns: seq<Column>): (r: seq<seq<Cell>>)
    requires RowsFit(rows) && Rectangular(rows, columns)
    ensures |r| == |rows| && forall i :: 0 <= i < |rows| ==> r[i] == SeenRow(rows[i], columns)
  {
    if rows == [] then [] else [SeenRow(rows[0], columns)] + SeenRows(rows[1..], columns)
  }

  function SeenResponse(r: Response): Response
    requires Sendable(r) && Rectangular(r.rows, r.columns)
  {
    r.(rows := SeenRows(r.rows, r.columns))
  }

  lemma {:induction false} RowRead(row: seq<Cell>, columns: seq<Column>, rest: Bytes, ok: bool)
    requires RowFits(row) && |row| == |columns|
    ensures ReadRow(Reader(RowBytes(row) + rest, ok), columns) == (SeenRow(row, columns), Reader(rest, ok))
    decreases |row|
  {
    hide ReadCell, CellBytes, Seen;
    if row == [] {
      NothingBefore(rest);
    } else {
      Regroup(CellBytes(row[0]), RowBytes(row[1..]), rest);
      CellRead(row[0], columns[0].kind, RowBytes(row[1..]) + rest, ok);
      RowRead(row[1..], columns[1..], rest, ok);
    }
  }

  lemma {:induction false} RowsRead(rows: seq<seq<Cell>>, columns: seq<Column>, rest: Bytes, ok: bool)
    requires RowsFit(rows) && Rectangular(rows, columns)
    ensures ReadRows(Reader(RowsBytes(rows) + rest, ok), columns, |rows|) == (SeenRows(rows, columns), Reader(rest, ok))
    decreases |rows|
  {
    hide ReadRow, RowBytes, SeenRow, RowFits;
    if rows == [] {
      NothingBefore(rest);
    } else {
      Regroup(RowBytes(rows[0]), RowsBytes(rows[1..]), rest);
      RowRead(rows[0], columns, RowsBytes(rows[1..]) + rest, ok);
      RowsRead(rows[1..], columns, rest, ok);
    }
  }

  lemma {:induction false} ColumnsRead(columns: seq<Column>, rest: Bytes, ok: bool)
    requires ColumnsFit(columns)
    ensures ReadColumns(Reader(ColumnsBytes(columns) + rest, ok), |columns|) == (columns, Reader(rest, ok))
    decreases |columns|
  {
    hide ReadString, StringBytes, ReadByte;
    if columns == [] {
      NothingBefore(rest);
    } else {
      var c, later := columns[0], ColumnsBytes(columns[1..]) + rest;
      Regroup(ColumnBytes(c), ColumnsBytes(columns[1..]), rest);
      Regroup(StringBytes(c.name), [c.kind], later);
      StringRead(c.name, [c.kind] + later, ok);
      ByteRead(c.kind, later, ok);
      ColumnsRead(columns[1..], rest, ok);
      assert [c] + columns[1..] == columns;
    }
  }

  /** Reading a rectangular response takes exactly its payload, and gives every field back; of the
      rows, what each cell looks like under its column. */
  lemma ResponseRead(r: Response, rest: Bytes, ok: bool)
    requires Sendable(r) && Rectangular(r.rows, r.columns)
    ensures ReadResponse(Reader(Payload(r) + rest, ok)) == (SeenResponse(r), Reader(rest, ok))
  {
    hide ReadByte, ReadNumber, ReadString, ReadRows, ReadColumns, SeenRows, StringBytes, ColumnsBytes, RowsBytes, U64Bytes, U32Bytes, Sendable;
    assert |r.columns| < 0x1_0000_0000 && |r.rows| < 0x1_0000_0000 && |r.database| < 0x1_0000_0000 &&
           ColumnsFit(r.columns) && RowsFit(r.rows) by { Fields(r); }
    var cs, rs, db := ColumnsBytes(r.columns), RowsBytes(r.rows), StringBytes(r.database);
    var h, n, m := U64Bytes(r.rowsAffected), U32Bytes(|r.columns|), U32Bytes(|r.rows|);
    var t0 := db + rest;
    var t1 := rs + t0;
    var t2 := cs + t1;
    Regroup(HeaderBytes(r), cs + (rs + db), rest);
    Regroup(cs, rs + db, rest);
    Regroup(rs, db, rest);
    HeaderThen(r, t2);
    ByteRead(r.status, [r.resultType] + (h + (n + (m + t2))), ok);
    ByteRead(r.resultType, h + (n + (m + t2)), ok);
    NumberRead(h, n + (m + t2), ok);
    NumberRead(n, m + t2, ok);
    NumberRead(m, t2, ok);
    ColumnsRead(r.columns, t1, ok);
    RowsRead(r.rows, r.columns, t0, ok);
    StringRead(r.database, rest, ok);
  }

  lemma Fields(r: Response)
    requires Sendable(r)
    ensures |r.columns| < 0x1_0000_0000 && |r.rows| < 0x1_0000_0000 && |r.database| < 0x1_0000_0000
    ensures ColumnsFit(r.columns) && RowsFit(r.rows)
  {
  }

  lemma HeaderThen(r: Response, t: Bytes)
    requires Sendable(r)
    ensures HeaderBytes(r) + t ==
            [r.status] + ([r.resultType] + (U64Bytes(r.rowsAffected) + (U32Bytes(|r.columns|) + (U32Bytes(|r.rows|) + t))))
  {
    var h, n, m := U64Bytes(r.rowsAffected), U32Bytes(|r.columns|), U32Bytes(|r.rows|);
    hide U64Bytes, U32Bytes;
    Regroup([r.status], [r.resultType] + (h + (n + m)), t);
    Regroup([r.resultType], h + (n + m), t);
    Regroup(h, n + m, t);
    Regroup(n, m, t);
  }

  ghost predicate AllMatch(r: Response)
    requires Rectangular(r.rows, r.columns)
  {
    forall i, j :: 0 <= i < |r.rows| && 0 <= j < |r.columns| ==> Matches(r.rows[i][j], r.columns[j].kind)
  }

  /** `b` is `a` with every cell as it arrives under its column type. */
  ghost predicate ArrivesAs(a: Response, b: Response)
    requires Sendable(a) && Rectangular(a.rows, a.columns)
  {
    b == a.(rows := b.rows) && |b.rows| == |a.rows| && Rectangular(b.rows, a.columns) &&
    forall i, j :: 0 <= i < |a.rows| && 0 <= j < |a.columns| ==>
      RowFits(a.rows[i]) && b.rows[i][j] == Arrives(a.rows[i][j], a.columns[j].kind)
  }

  /** Decoding an encoded rectangular response succeeds and gives the response with every cell as it arrives;
      NULLs keep their places, and the response is unchanged exactly when every cell has the type that its
      column reads. */
  lemma ResponseRoundTrip(r: Response)
    requires Sendable(r) && Rectangular(r.rows, r.columns)
    ensures Decode(Payload(r)) == Some(SeenResponse(r)) && ArrivesAs(r, SeenResponse(r))
    ensures Decode(Payload(r)) == Some(r) <==> AllMatch(r)
    ensures forall i, j :: 0 <= i < |r.rows| && 0 <= j < |r.columns| ==>
              (SeenResponse(r).rows[i][j].Null? <==> r.rows[i][j].Null?)
  {
    hide ReadResponse, Payload, ReadValue, Arrives, Seen, Matches;
    assert Payload(r) != [] by { PayloadHas(r); }
    NothingAfter(Payload(r));
    ResponseRead(r, [], true);
    var seen := SeenRows(r.rows, r.columns);
    forall i, j | 0 <= i < |r.rows| && 0 <= j < |r.columns|
      ensures seen[i][j] == r.rows[i][j] <==> Matches(r.rows[i][j], r.columns[j].kind)
      ensures seen[i][j].Null? <==> r.rows[i][j].Null?
      ensures RowFits(r.rows[i]) && seen[i][j] == Arrives(r.rows[i][j], r.columns[j].kind)
    {
      assert seen[i] == SeenRow(r.rows[i], r.columns);
      assert RowFits(r.rows[i]);
      SeenIffMatches(r.rows[i][j], r.columns[j].kind);
      SeenNull(r.rows[i][j], r.columns[j].kind);
      SeenIs(r.rows[i][j], r.columns[j].kind);
    }
    if AllMatch(r) {
      forall i | 0 <= i < |r.rows| ensures seen[i] == r.rows[i] {
        assert forall j :: 0 <= j < |r.columns| ==> seen[i][j] == r.rows[i][j];
      }
      assert seen == r.rows;
    }
  }

  lemma PayloadHas(r: Response)
    requires Sendable(r)
    ensures |Payload(r)| > 0
  {
  }

  lemma SeenNull(c: Cell, kind: Byte)
    requires CellFits(c)
    ensures Seen(c, kind).Null? <==> c.Null?
  {
  }

  // ---------- The encoder and the decoder as the loops they are ----------

  /** Appends to the stream, as the encoder does, column after column and cell after cell. */
  method EncodeQueryResponse(r: Response) returns (payload: Bytes)
    requires Sendable(r)
    ensures payload == Payload(r)
  {
    hide StringBytes, ColumnBytes, RowBytes, U32Bytes, U64Bytes;
    payload := [r.status];
    payload := payload + [r.resultType];
    payload := payload + U64Bytes(r.rowsAffected);
    payload := payload + U32Bytes(|r.columns|);
    payload := payload + U32Bytes(|r.rows|);
    HeaderIs(r);
    ghost var header := payload;
    var i := 0;
    NothingAfter(header);
    while i < |r.columns|
      invariant i <= |r.columns| && payload == header + ColumnsBytes(r.columns[..i])
    {
      ColumnsSnoc(r.columns, i);
      Regroup(header, ColumnsBytes(r.columns[..i]), ColumnBytes(r.columns[i]));
      payload := payload + ColumnBytes(r.columns[i]);
      i := i + 1;
    }
    assert r.columns[..i] == r.columns;
    ghost var front := payload;
    i := 0;
    NothingAfter(front);
    while i < |r.rows|
      invariant i <= |r.rows| && payload == front + RowsBytes(r.rows[..i])
    {
      RowsSnoc(r.rows, i);
      Regroup(front, RowsBytes(r.rows[..i]), RowBytes(r.rows[i]));
      var row := EncodeRow(r.rows[i]);
      payload := payload + row;
      i := i + 1;
    }
    assert r.rows[..i] == r.rows;
    payload := payload + StringBytes(r.database);
    Regroup(front, RowsBytes(r.rows), StringBytes(r.database));
    Regroup(header, ColumnsBytes(r.columns), RowsBytes(r.rows) + StringBytes(r.database));
  }

  method EncodeRow(row: seq<Cell>) returns (bytes: Bytes)
    requires RowFits(row)
    ensures bytes == RowBytes(row)
  {
    hide CellBytes;
    bytes := [];
    var i := 0;
    while i < |row|
      invariant i <= |row| && bytes == RowBytes(row[..i])
    {
      RowSnoc(row, i);
      bytes := bytes + CellBytes(row[i]);
      i := i + 1;
    }
    assert row[..i] == row;
  }

  lemma HeaderIs(r: Response)
    requires Sendable(r)
    ensures ((([r.status] + [r.resultType]) + U64Bytes(r.rowsAffected)) + U32Bytes(|r.columns|)) + U32Bytes(|r.rows|) == HeaderBytes(r)
  {
    var a, b, h, n, m := [r.status], [r.resultType], U64Bytes(r.rowsAffected), U32Bytes(|r.columns|), U32Bytes(|r.rows|);
    hide U64Bytes, U32Bytes;
    Regroup(a, b, h);
    Regroup(a, b + h, n);
    Regroup(b, h, n);
    Regroup(a, b + (h + n), m);
    Regroup(b, h + n, m);
    Regroup(h, n, m);
  }

  lemma {:induction false} RowSnoc(row: seq<Cell>, i: nat)
    requires RowFits(row) && i < |row|
    ensures RowBytes(row[..i + 1]) == RowBytes(row[..i]) + CellBytes(row[i])
    decreases i
  {
    hide CellBytes;
    if i == 0 {
      assert row[..1][1..] == [];
      NothingAfter(CellBytes(row[0]));
      NothingBefore(CellBytes(row[0]));
    } else {
      var tail := row[1..];
      RowSnoc(tail, i - 1);
      assert row[..i + 1][1..] == tail[..i] && row[..i][1..] == tail[..i - 1] && tail[i - 1] == row[i];
      Regroup(CellBytes(row[0]), RowBytes(tail[..i - 1]), CellBytes(row[i]));
    }
  }

  lemma {:induction false} RowsSnoc(rows: seq<seq<Cell>>, i: nat)
    requires RowsFit(rows) && i < |rows|
    ensures RowsBytes(rows[..i + 1]) == RowsBytes(rows[..i]) + RowBytes(rows[i])
    decreases i
  {
    hide RowBytes, RowFits;
    if i == 0 {
      assert rows[..1][1..] == [];
      NothingAfter(RowBytes(rows[0]));
      NothingBefore(RowBytes(rows[0]));
    } else {
      var tail := rows[1..];
      RowsSnoc(tail, i - 1);
      assert rows[..i + 1][1..] == tail[..i] && rows[..i][1..] == tail[..i - 1] && tail[i - 1] == rows[i];
      Regroup(RowBytes(rows[0]), RowsBytes(tail[..i - 1]), RowBytes(rows[i]));
    }
  }

  lemma {:induction false} ColumnsSnoc(columns: seq<Column>, i: nat)
    requires ColumnsFit(columns) && i < |columns|
    ensures ColumnsBytes(columns[..i + 1]) == ColumnsBytes(columns[..i]) + ColumnBytes(columns[i])
    decreases i
  {
    hide ColumnBytes;
    if i == 0 {
      assert columns[..1][1..] == [];
      NothingAfter(ColumnBytes(columns[0]));
      NothingBefore(ColumnBytes(columns[0]));
    } else {
      var tail := columns[1..];
      ColumnsSnoc(tail, i - 1);
      assert columns[..i + 1][1..] == tail[..i] && columns[..i][1..] == tail[..i - 1] && tail[i - 1] == columns[i];
      Regroup(ColumnBytes(columns[0]), ColumnsBytes(tail[..i - 1]), ColumnBytes(columns[i]));
    }
  }

  /** Advances the cursor, as the decoder does, for every payload: also a short or a malformed one. */
  method DecodeQueryResponse(payload: Bytes) returns (r: Option<Response>)
    ensures r == Decode(payload)
  {
    hide ReadByte, ReadNumber, ReadString, ReadColumn, ReadRow;
    if payload == [] {
      return None;
    }
    Powers();
    var (status, r1) := ReadByte(Reader(payload, true));
    var (resultType, r2) := ReadByte(r1);
    var (affected, r3) := ReadNumber(r2, 8);
    var (columnCount, r4) := ReadNumber(r3, 4);
    var (rowCount, r5) := ReadNumber(r4, 4);
    assert affected < 0x1_0000_0000_0000_0000 by { ReadNumberBound(r2, 8); }
    var columns, r6 := DecodeColumns(r5, columnCount);
    var rows, stream := [], r6;
    var i := 0;
    NothingBefore(ReadRows(r6, columns, rowCount).0);
    while i < rowCount
      invariant i <= rowCount
      invariant var rest := ReadRows(stream, columns, rowCount - i);
                ReadRows(r6, columns, rowCount) == (rows + rest.0, rest.1)
    {
      var row, r := DecodeRow(stream, columns);
      ghost var rest := ReadRows(r, columns, rowCount - i - 1);
      assert ReadRows(stream, columns, rowCount - i) == ([row] + rest.0, rest.1);
      Regroup(rows, [row], rest.0);
      rows, stream := rows + [row], r;
      i := i + 1;
    }
    NothingAfter(rows);
    var (database, last) := ReadString(stream);
    if !last.ok {
      return None;
    }
    return Some(Response(status, resultType, affected, columns, rows, database));
  }

  lemma ReadNumberBound(r: Reader, w: nat)
    ensures ReadNumber(r, w).0 < Power256(w)
  {
  }

  method DecodeColumns(start: Reader, n: nat) returns (columns: seq<Column>, stream: Reader)
    ensures (columns, stream) == ReadColumns(start, n)
  {
    hide ReadColumn;
    columns, stream := [], start;
    var i := 0;
    NothingBefore(ReadColumns(start, n).0);
    while i < n
      invariant i <= n
      invariant var rest := ReadColumns(stream, n - i);
                ReadColumns(start, n) == (columns + rest.0, rest.1)
    {
      var (c, r) := ReadColumn(stream);
      ghost var rest := ReadColumns(r, n - i - 1);
      assert ReadColumns(stream, n - i) == ([c] + rest.0, rest.1);
      Regroup(columns, [c], rest.0);
      columns, stream := columns + [c], r;
      i := i + 1;
    }
    NothingAfter(columns);
  }

  method DecodeRow(start: Reader, columns: seq<Column>) returns (row: seq<Cell>, stream: Reader)
    ensures (row, stream) == ReadRow(start, columns)
  {
    hide ReadCell;
    row, stream := [], start;
    var j := 0;
    assert columns[0..] == columns;
    NothingBefore(ReadRow(start, columns).0);
    while j < |columns|
      invariant j <= |columns|
      invariant var rest := ReadRow(stream, columns[j..]);
                ReadRow(start, columns) == (row + rest.0, rest.1)
    {
      var (c, r) := ReadCell(stream, columns[j].kind);
      ghost var rest := ReadRow(r, columns[j + 1..]);
      assert columns[j..][1..] == columns[j + 1..];
      assert ReadRow(stream, columns[j..]) == ([c] + rest.0, rest.1);
      Regroup(row, [c], rest.0);
      row, stream := row + [c], r;
      j := j + 1;
    }
    NothingAfter(row);
  }
}
