/**
 * WHERE expressions: their syntax, what they evaluate to on a row, and the evaluator with its
 * `lastError` field.  Both operands of an operator are always evaluated.
 */
module Expressions {
  import opened Options

  datatype Value = Null | Bool(flag: bool) | Int(number: int) | Double(fraction: real) | Text(chars: string) | Other(id: nat)

  datatype BinaryOp = ADD | SUB | MUL | DIV | MOD | EQ | NE | LT | LE | GT | GE | AND | OR | LIKE | IN
  datatype UnaryOp = NOT | MINUS | PLUS | IS_NULL | IS_NOT_NULL

  datatype Expr =
    | Literal(value: Value)
    | Column(table: string, name: string)
    | Binary(op: BinaryOp, left: Expr, right: Expr)
    | Unary(uop: UnaryOp, operand: Expr)
    | Call(args: seq<Expr>)
    | Unsupported

  datatype ErrorKind =
    | DivisionByZero | ModuloByZero | ModuloOfFractions | NotNumeric | Incomparable | NotNegatable
    | UnknownColumn | NoTable | ShortRow | UnsupportedOperator | UnsupportedExpression

  datatype Result = Ok(value: Value) | Error(kind: ErrorKind)

  /** The conversions between value types, which come from the library underneath. */
  datatype Conversions = Conversions(
    toBool: Value -> bool,
    canInt: Value -> bool, toInt: Value -> int,
    canDouble: Value -> bool, toDouble: Value -> real,
    toText: Value -> string, before: (string, string) -> bool,
    sameName: (string, string) -> bool)

  /** A boolean converts to itself. */
  ghost predicate Sane(c: Conversions) {
    c.toBool(Bool(true)) && !c.toBool(Bool(false))
  }

  datatype Env = Env(conv: Conversions, table: Option<seq<string>>, row: seq<Value>)

  function ToInt64(x: int): int {
    var m := x % 0x1_0000_0000_0000_0000;
    if m < 0x8000_0000_0000_0000 then m else m - 0x1_0000_0000_0000_0000
  }

  /** Division that truncates towards zero. */
  function Quotient(a: int, b: int): int
    requires b != 0
  {
    if (a >= 0) == (b > 0) then Magnitude(a) / Magnitude(b) else -(Magnitude(a) / Magnitude(b))
  }

  function Magnitude(a: int): (r: nat)
    ensures a != 0 ==> r > 0
  {
    if a < 0 then -a else a
  }

  function Arithmetic(c: Conversions, op: BinaryOp, a: Value, b: Value): Result {
    if a.Null? || b.Null? then Ok(Null)
    else if c.canInt(a) && c.canInt(b) then
      var l, r := c.toInt(a), c.toInt(b);
      match op
      case ADD => Ok(Int(ToInt64(l + r)))
      case SUB => Ok(Int(ToInt64(l - r)))
      case MUL => Ok(Int(ToInt64(l * r)))
      case DIV => if r == 0 then Error(DivisionByZero) else Ok(Int(ToInt64(Quotient(l, r))))
      case _ => if r == 0 then Error(ModuloByZero) else Ok(Int(ToInt64(l - r * Quotient(l, r))))
    else if c.canDouble(a) && c.canDouble(b) then
      var l, r := c.toDouble(a), c.toDouble(b);
      match op
      case ADD => Ok(Double(l + r))
      case SUB => Ok(Double(l - r))
      case MUL => Ok(Double(l * r))
      case DIV => if r == 0.0 then Error(DivisionByZero) else Ok(Double(l / r))
      case _ => Error(ModuloOfFractions)
    else Error(NotNumeric)
  }

  function Compared(op: BinaryOp, equal: bool, less: bool, greater: bool): Value {
    match op
    case EQ => Bool(equal)
    case NE => Bool(!equal)
    case LT => Bool(less)
    case LE => Bool(less || equal)
    case GT => Bool(greater)
    case _ => Bool(greater || equal)
  }

  predicate Numeric(v: Value) {
    v.Int? || v.Double?
  }

  /** NULL equals NULL and nothing else; the other comparisons with NULL are NULL. */
  function Comparison(c: Conversions, op: BinaryOp, a: Value, b: Value): Result {
    if op.EQ? && (a.Null? || b.Null?) then Ok(Bool(a.Null? && b.Null?))
    else if op.NE? && (a.Null? || b.Null?) then Ok(Bool(!(a.Null? && b.Null?)))
    else if a.Null? || b.Null? then Ok(Null)
    else if a.Text? || b.Text? then
      var l, r := c.toText(a), c.toText(b);
      Ok(Compared(op, l == r, c.before(l, r), c.before(r, l)))
    else if Numeric(a) && Numeric(b) then
      var l, r := c.toDouble(a), c.toDouble(b);
      Ok(Compared(op, l == r, l < r, l > r))
    else Error(Incomparable)
  }

  function Logical(c: Conversions, op: BinaryOp, a: Value, b: Value): Value {
    if op.AND? then
      if !a.Null? && !c.toBool(a) then Bool(false)
      else if !b.Null? && !c.toBool(b) then Bool(false)
      else if !a.Null? && !b.Null? then Bool(c.toBool(a) && c.toBool(b))
      else Null
    else
      if !a.Null? && c.toBool(a) then Bool(true)
      else if !b.Null? && c.toBool(b) then Bool(true)
      else if !a.Null? && !b.Null? then Bool(c.toBool(a) || c.toBool(b))
      else Null
  }

  function ApplyBinary(c: Conversions, op: BinaryOp, a: Value, b: Value): Result {
    match op
    case ADD => Arithmetic(c, op, a, b)
    case SUB => Arithmetic(c, op, a, b)
    case MUL => Arithmetic(c, op, a, b)
    case DIV => Arithmetic(c, op, a, b)
    case MOD => Arithmetic(c, op, a, b)
    case EQ => Comparison(c, op, a, b)
    case NE => Comparison(c, op, a, b)
    case LT => Comparison(c, op, a, b)
    case LE => Comparison(c, op, a, b)
    case GT => Comparison(c, op, a, b)
    case GE => Comparison(c, op, a, b)
    case AND => Ok(Logical(c, op, a, b))
    case OR => Ok(Logical(c, op, a, b))
    case LIKE => Error(UnsupportedOperator)
    case IN => Error(UnsupportedOperator)
  }

  function ApplyUnary(c: Conversions, op: UnaryOp, a: Value): Result {
    match op
    case MINUS =>
      if a.Null? then Ok(Null)
      else if c.canInt(a) then Ok(Int(ToInt64(-c.toInt(a))))
      else if c.canDouble(a) then Ok(Double(-c.toDouble(a)))
      else Error(NotNegatable)
    case NOT => if a.Null? then Ok(Null) else Ok(Bool(!c.toBool(a)))
    case IS_NULL => Ok(Bool(a.Null?))
    case IS_NOT_NULL => Ok(Bool(!a.Null?))
    case PLUS => Error(UnsupportedOperator)
  }

  /** The first column of that name. */
  function FindColumn(c: Conversions, columns: seq<string>, name: string): (i: nat)
    ensures i <= |columns| && (i < |columns| ==> c.sameName(columns[i], name))
    ensures forall j :: 0 <= j < i ==> !c.sameName(columns[j], name)
  {
    if columns == [] then 0
    else if c.sameName(columns[0], name) then 0
    else
      var i := FindColumn(c, columns[1..], name);
      assert forall j :: 0 < j < |columns| ==> columns[j] == columns[1..][j - 1];
      i + 1
  }

  function ColumnValue(env: Env, name: string): Result {
    if env.table.None? then Error(NoTable)
    else
      var i := FindColumn(env.conv, env.table.value, name);
      if i == |env.table.value| then Error(UnknownColumn)
      else if i >= |env.row| then Error(ShortRow)
      else Ok(env.row[i])
  }

  /** What an expression means on a row: strict in both operands, the left error first. */
  function Eval(env: Env, e: Expr): Result {
    match e
    case Literal(v) => Ok(v)
    case Column(_, name) => ColumnValue(env, name)
    case Binary(op, l, r) =>
      var a := Eval(env, l);
      if a.Error? then a
      else
        var b := Eval(env, r);
        if b.Error? then b else ApplyBinary(env.conv, op, a.value, b.value)
    case Unary(op, x) =>
      var a := Eval(env, x);
      if a.Error? then a else ApplyUnary(env.conv, op, a.value)
    case Call(_) => Error(UnsupportedExpression)
    case Unsupported => Error(UnsupportedExpression)
  }

  // ---------- The evaluator ----------

  class ExpressionEvaluator {
    const conv: Conversions
    var lastError: Option<ErrorKind>

    constructor (conv: Conversions)
      ensures this.conv == conv && lastError == None
    {
      this.conv, lastError := conv, None;
    }

    /** The returned value and `lastError` together say what `Eval` says. */
    ghost predicate Agrees(v: Value, r: Result)
      reads this
    {
      match r
      case Ok(w) => lastError == None && v == w
      case Error(kind) => lastError == Some(kind) && v == Null
    }

    method FindColumnIndex(columns: seq<string>, name: string) returns (i: int)
      ensures i == (if FindColumn(conv, columns, name) == |columns| then -1 else FindColumn(conv, columns, name))
    {
      i := 0;
      while i < |columns|
        invariant 0 <= i <= |columns|
        invariant forall j :: 0 <= j < i ==> !conv.sameName(columns[j], name)
      {
        if conv.sameName(columns[i], name) {
          return;
        }
        i := i + 1;
      }
      i := -1;
    }

    method EvaluateColumn(table: Option<seq<string>>, row: seq<Value>, name: string) returns (v: Value)
      requires lastError == None
      modifies this
      ensures Agrees(v, ColumnValue(Env(conv, table, row), name))
    {
      v := Null;
      if table.None? {
        lastError := Some(NoTable);
        return;
      }
      var i := FindColumnIndex(table.value, name);
      if i < 0 {
        lastError := Some(UnknownColumn);
        return;
      }
      if i >= |row| {
        lastError := Some(ShortRow);
        return;
      }
      v := row[i];
    }

    /** Sets the error field from the outcome of one operator. */
    method Finish(r: Result) returns (v: Value)
      requires lastError == None
      modifies this
      ensures Agrees(v, r)
    {
      match r {
        case Ok(w) => v := w;
        case Error(kind) => lastError, v := Some(kind), Null;
      }
    }

    /** Clears the error on entry and at every subexpression, and still ends with the right one. */
    method EvaluateWithRow(e: Expr, table: Option<seq<string>>, row: seq<Value>) returns (v: Value)
      modifies this
      ensures Agrees(v, Eval(Env(conv, table, row), e))
      decreases e
    {
      hide ApplyBinary, ApplyUnary, ColumnValue;
      lastError := None;
      match e {
        case Literal(w) => v := w;
        case Binary(op, l, r) =>
          var a := EvaluateWithRow(l, table, row);
          if lastError.Some? {
            return Null;
          }
          var b := EvaluateWithRow(r, table, row);
          if lastError.Some? {
            return Null;
          }
          v := Finish(ApplyBinary(conv, op, a, b));
        case Unary(op, x) =>
          var a := EvaluateWithRow(x, table, row);
          if lastError.Some? {
            return Null;
          }
          v := Finish(ApplyUnary(conv, op, a));
        case Column(_, name) => v := EvaluateColumn(table, row, name);
        case Call(_) => lastError, v := Some(UnsupportedExpression), Null;
        case Unsupported => lastError, v := Some(UnsupportedExpression), Null;
      }
    }

    /** The rows of a scan that a WHERE keeps: those on which it is TRUE, unless it fails on a row. */
    method Filter(where: Expr, table: Option<seq<string>>, rows: seq<seq<Value>>) returns (r: Filtered)
      modifies this
      ensures r == Kept(conv, where, table, rows)
    {
      var kept: seq<seq<Value>> := [];
      var i := 0;
      while i < |rows|
        invariant i <= |rows| && Kept(conv, where, table, rows[..i]) == Rows(kept)
      {
        assert rows[..i + 1][..i] == rows[..i];
        var v := EvaluateWithRow(where, table, rows[i]);
        if lastError.Some? {
          KeptFails(conv, where, table, rows, i);
          return Failed;
        }
        if !v.Null? && conv.toBool(v) {
          kept := kept + [rows[i]];
        }
        i := i + 1;
      }
      assert rows[..i] == rows;
      return Rows(kept);
    }
  }

  datatype Filtered = Rows(rows: seq<seq<Value>>) | Failed

  datatype Verdict = Include | Exclude | Fail

  /** What one row comes to: only a value that is not NULL and converts to true includes it. */
  function Judge(env: Env, where: Expr): Verdict {
    match Eval(env, where)
    case Error(_) => Fail
    case Ok(v) => if !v.Null? && env.conv.toBool(v) then Include else Exclude
  }

  function Kept(c: Conversions, where: Expr, table: Option<seq<string>>, rows: seq<seq<Value>>): Filtered {
    if rows == [] then Rows([])
    else
      var front := Kept(c, where, table, rows[..|rows| - 1]);
      if front.Failed? then Failed
      else
        match Judge(Env(c, table, rows[|rows| - 1]), where)
        case Fail => Failed
        case Include => Rows(front.rows + [rows[|rows| - 1]])
        case Exclude => front
  }

  lemma {:induction false} KeptFails(c: Conversions, where: Expr, table: Option<seq<string>>, rows: seq<seq<Value>>, i: nat)
    requires i < |rows| && Judge(Env(c, table, rows[i]), where) == Fail
    ensures Kept(c, where, table, rows) == Failed
    decreases |rows|
  {
    if i < |rows| - 1 { KeptFails(c, where, table, rows[..|rows| - 1], i); }
  }

  /** Equal verdicts on every row make equal results. */
  lemma {:induction false} SameVerdictsSameRows(c: Conversions, a: Expr, b: Expr, table: Option<seq<string>>, rows: seq<seq<Value>>)
    requires forall row :: row in rows ==> Judge(Env(c, table, row), a) == Judge(Env(c, table, row), b)
    ensures Kept(c, a, table, rows) == Kept(c, b, table, rows)
    decreases |rows|
  {
    if rows != [] {
      assert rows[|rows| - 1] in rows;
      assert forall row :: row in rows[..|rows| - 1] ==> row in rows;
      SameVerdictsSameRows(c, a, b, table, rows[..|rows| - 1]);
    }
  }
}
