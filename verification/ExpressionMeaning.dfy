/**
 * What the operators of a WHERE expression mean, on the values themselves: comparisons of numbers and
 * texts, 64-bit arithmetic, three-valued logic, and the rows a scan keeps.
 */
module ExpressionMeaning {
  import opened Options
  import opened Expressions

  function Apply(op: BinaryOp, a: Value, b: Value): Expr {
    Binary(op, Literal(a), Literal(b))
  }

  lemma EvalApply(env: Env, op: BinaryOp, a: Value, b: Value)
    ensures Eval(env, Apply(op, a, b)) == ApplyBinary(env.conv, op, a, b)
  {
    assert Eval(env, Literal(a)) == Ok(a) && Eval(env, Literal(b)) == Ok(b);
  }

  // ---------- Comparisons ----------

  /** The six comparisons say how `a` and `b` stand to each other. */
  ghost predicate Compares(env: Env, a: Value, b: Value, equal: bool, less: bool, greater: bool) {
    Eval(env, Apply(EQ, a, b)) == Ok(Bool(equal)) &&
    Eval(env, Apply(NE, a, b)) == Ok(Bool(!equal)) &&
    Eval(env, Apply(LT, a, b)) == Ok(Bool(less)) &&
    Eval(env, Apply(LE, a, b)) == Ok(Bool(less || equal)) &&
    Eval(env, Apply(GT, a, b)) == Ok(Bool(greater)) &&
    Eval(env, Apply(GE, a, b)) == Ok(Bool(greater || equal))
  }

  lemma AllApplied(env: Env, a: Value, b: Value)
    ensures forall op :: Eval(env, Apply(op, a, b)) == ApplyBinary(env.conv, op, a, b)
  {
    forall op ensures Eval(env, Apply(op, a, b)) == ApplyBinary(env.conv, op, a, b) {
      EvalApply(env, op, a, b);
    }
  }

  /** Integers compare as integers. */
  lemma CompareIntegers(env: Env, m: int, n: int)
    requires env.conv.toDouble(Int(m)) == m as real && env.conv.toDouble(Int(n)) == n as real
    ensures Compares(env, Int(m), Int(n), m == n, m < n, m > n)
  {
    AllApplied(env, Int(m), Int(n));
  }

  /** Fractions, also mixed with integers, compare as the numbers they are. */
  lemma CompareNumbers(env: Env, a: Value, b: Value, x: real, y: real)
    requires Numeric(a) && Numeric(b) && env.conv.toDouble(a) == x && env.conv.toDouble(b) == y
    ensures Compares(env, a, b, x == y, x < y, x > y)
  {
    AllApplied(env, a, b);
  }

  /** As soon as one side is a text, both compare as texts. */
  lemma CompareTexts(env: Env, a: Value, b: Value, s: string, t: string)
    requires !a.Null? && !b.Null? && (a.Text? || b.Text?) && env.conv.toText(a) == s && env.conv.toText(b) == t
    ensures Compares(env, a, b, s == t, env.conv.before(s, t), env.conv.before(t, s))
  {
    AllApplied(env, a, b);
  }

  /** NULL equals NULL and differs from everything else; no order holds or fails for it. */
  lemma CompareNulls(env: Env, a: Value, b: Value)
    requires a.Null? || b.Null?
    ensures Eval(env, Apply(EQ, a, b)) == Ok(Bool(a == b)) && Eval(env, Apply(NE, a, b)) == Ok(Bool(a != b))
    ensures forall op :: op in {LT, LE, GT, GE} ==> Eval(env, Apply(op, a, b)) == Ok(Null)
  {
    AllApplied(env, a, b);
  }

  /** Everything else cannot be compared. */
  lemma CompareOthers(env: Env, a: Value, b: Value, op: BinaryOp)
    requires !a.Null? && !b.Null? && !a.Text? && !b.Text? && !(Numeric(a) && Numeric(b))
    requires op in {EQ, NE, LT, LE, GT, GE}
    ensures Eval(env, Apply(op, a, b)) == Error(Incomparable)
  {
    EvalApply(env, op, a, b);
  }

  // ---------- Arithmetic ----------

  const MIN64 := -0x8000_0000_0000_0000
  const MAX64 := 0x7fff_ffff_ffff_ffff

  predicate In64(x: int) {
    MIN64 <= x <= MAX64
  }

  /** `v` is the 64-bit number that differs from `x` by a multiple of 2^64. */
  ghost predicate Wraps(v: int, x: int) {
    In64(v) && exists k: int :: v == x + k * 0x1_0000_0000_0000_0000
  }

  lemma ToInt64Wraps(x: int)
    ensures Wraps(ToInt64(x), x) && (In64(x) ==> ToInt64(x) == x)
  {
    var two64 := 0x1_0000_0000_0000_0000;
    var q := x / two64;
    assert x == q * two64 + x % two64;
    var k := if x % two64 < 0x8000_0000_0000_0000 then -q else -q - 1;
    assert ToInt64(x) == x + k * two64;
  }

  lemma WrapsOnce(v: int, w: int, x: int)
    requires Wraps(v, x) && Wraps(w, x)
    ensures v == w
  {
    var j :| v == x + j * 0x1_0000_0000_0000_0000;
    var k :| w == x + k * 0x1_0000_0000_0000_0000;
    assert v - w == (j - k) * 0x1_0000_0000_0000_0000;
    assert j - k == 0;
  }

  predicate AreIntegers(c: Conversions, a: Value, b: Value, m: int, n: int) {
    !a.Null? && !b.Null? && c.canInt(a) && c.canInt(b) && c.toInt(a) == m && c.toInt(b) == n
  }

  /** Sum, difference and product are exact when they lie in 64 bits, and wrap otherwise. */
  lemma IntegerSums(env: Env, a: Value, b: Value, m: int, n: int)
    requires AreIntegers(env.conv, a, b, m, n)
    ensures var r := Eval(env, Apply(ADD, a, b)); r.Ok? && r.value.Int? && Wraps(r.value.number, m + n)
    ensures var r := Eval(env, Apply(SUB, a, b)); r.Ok? && r.value.Int? && Wraps(r.value.number, m - n)
    ensures var r := Eval(env, Apply(MUL, a, b)); r.Ok? && r.value.Int? && Wraps(r.value.number, m * n)
    ensures In64(m + n) ==> Eval(env, Apply(ADD, a, b)) == Ok(Int(m + n))
    ensures In64(m - n) ==> Eval(env, Apply(SUB, a, b)) == Ok(Int(m - n))
    ensures In64(m * n) ==> Eval(env, Apply(MUL, a, b)) == Ok(Int(m * n))
  {
    hide ToInt64, Quotient;
    AllApplied(env, a, b);
    ToInt64Wraps(m + n);
    ToInt64Wraps(m - n);
    ToInt64Wraps(m * n);
  }

  /** `q` and `r` divide `m` by `n` towards zero. */
  predicate Divides(m: int, n: int, q: int, r: int) {
    q * n + r == m && Magnitude(r) < Magnitude(n) && (r == 0 || (r > 0 <==> m > 0))
  }

  lemma QuotientDivides(m: int, n: int)
    requires n != 0
    ensures Divides(m, n, Quotient(m, n), m - n * Quotient(m, n)) && Magnitude(Quotient(m, n)) <= Magnitude(m)
    ensures Magnitude(n) >= 2 && m != 0 ==> Magnitude(Quotient(m, n)) < Magnitude(m)
  {
    hide Magnitude, Quotient;
    var a, b := Magnitude(m), Magnitude(n);
    var d, e := a / b, a % b;
    EuclidOf(a, b);
    SmallerQuotient(a, b, d, e);
    var q := Quotient(m, n);
    QuotientIs(m, n);
    QuotientSigns(m, n, q, d);
    RemainderSigns(m, n, b * d, n * q, e);
    Commutes(n, q);
  }

  lemma EuclidOf(a: nat, b: nat)
    requires b > 0
    ensures a == b * (a / b) + a % b && a % b < b
  {
  }

  lemma QuotientSigns(m: int, n: int, q: int, d: nat)
    requires n != 0 && q == if (m >= 0) == (n > 0) then d as int else -(d as int)
    ensures Magnitude(q) == d && n * q == if m >= 0 then (Magnitude(n) * d) as int else -((Magnitude(n) * d) as int)
  {
    var b := Magnitude(n);
    SameSigns(b, d);
    if n > 0 {
      assert n == b;
    } else {
      assert n == -(b as int);
    }
  }

  lemma QuotientIs(m: int, n: int)
    requires n != 0
    ensures var d := Magnitude(m) / Magnitude(n); Quotient(m, n) == if (m >= 0) == (n > 0) then d as int else -(d as int)
  {
  }

  lemma SameSigns(b: nat, d: nat)
    ensures (-(b as int)) * d == -((b * d) as int) && b * (-(d as int)) == -((b * d) as int) && (-(b as int)) * (-(d as int)) == b * d
  {
  }

  lemma RemainderSigns(m: int, n: int, bd: int, nq: int, e: int)
    requires n != 0 && 0 <= bd && 0 <= e < Magnitude(n) && Magnitude(m) == bd + e && nq == if m >= 0 then bd else -bd
    ensures Magnitude(m - nq) < Magnitude(n) && (m - nq == 0 || (m - nq > 0 <==> m > 0))
  {
  }

  lemma Commutes(n: int, q: int)
    ensures n * q == q * n
  {
  }

  lemma SmallerQuotient(a: nat, b: nat, d: nat, e: nat)
    requires b > 0 && a == b * d + e
    ensures d <= a && (b >= 2 && a > 0 ==> d < a)
  {
    assert b * d >= d;
    if b >= 2 { assert b * d >= 2 * d; }
  }

  /** Division truncates towards zero and goes with its remainder, for all 64-bit operands except the
      smallest number divided by -1, whose quotient is 2^63 and wraps to itself. */
  lemma IntegerDivision(env: Env, a: Value, b: Value, m: int, n: int)
    requires AreIntegers(env.conv, a, b, m, n) && In64(m) && In64(n)
    ensures n == 0 ==> Eval(env, Apply(DIV, a, b)) == Error(DivisionByZero) && Eval(env, Apply(MOD, a, b)) == Error(ModuloByZero)
    ensures n != 0 ==>
              var q, r := Eval(env, Apply(DIV, a, b)), Eval(env, Apply(MOD, a, b));
              q.Ok? && r.Ok? && q.value.Int? && r.value.Int? &&
              (Divides(m, n, q.value.number, r.value.number) <==> !(m == MIN64 && n == -1)) &&
              (m == MIN64 && n == -1 ==> q.value.number == MIN64 && r.value.number == 0)
  {
    hide ToInt64, Quotient, Magnitude;
    AllApplied(env, a, b);
    if n != 0 {
      QuotientDivides(m, n);
      var q := Quotient(m, n);
      var r := m - n * q;
      ToInt64Wraps(q);
      ToInt64Wraps(r);
      Sizes(m, n, q, r);
      if m == MIN64 && n == -1 { MostNegative(); }
    }
  }

  lemma Sizes(m: int, n: int, q: int, r: int)
    requires In64(m) && In64(n) && n != 0 && Divides(m, n, q, r) && Magnitude(q) <= Magnitude(m)
    requires Magnitude(n) >= 2 && m != 0 ==> Magnitude(q) < Magnitude(m)
    ensures In64(r) && (In64(q) <==> !(m == MIN64 && n == -1))
  {
    if n == 1 { assert q == m; }
    if n == -1 { assert q == -m; }
  }

  lemma MostNegative()
    ensures ToInt64(Quotient(MIN64, -1)) == MIN64 && !Divides(MIN64, -1, MIN64, 0)
    ensures ToInt64(MIN64 - (-1) * Quotient(MIN64, -1)) == 0
  {
    assert Quotient(MIN64, -1) == 0x8000_0000_0000_0000;
  }

  ghost predicate IsFraction(r: Result, x: real) {
    r.Ok? && r.value.Double? && r.value.fraction == x
  }

  /** Fractions compute without wrapping; a remainder of fractions is refused. */
  lemma Fractions(env: Env, a: Value, b: Value)
    requires !a.Null? && !b.Null? && !(env.conv.canInt(a) && env.conv.canInt(b)) && env.conv.canDouble(a) && env.conv.canDouble(b)
    ensures var x, y := env.conv.toDouble(a), env.conv.toDouble(b);
            IsFraction(Eval(env, Apply(ADD, a, b)), x + y) && IsFraction(Eval(env, Apply(SUB, a, b)), x - y) &&
            IsFraction(Eval(env, Apply(MUL, a, b)), x * y) && Eval(env, Apply(MOD, a, b)) == Error(ModuloOfFractions) &&
            if y == 0.0 then Eval(env, Apply(DIV, a, b)) == Error(DivisionByZero) else IsFraction(Eval(env, Apply(DIV, a, b)), x / y)
  {
    hide Quotient, ToInt64;
    AllApplied(env, a, b);
  }

  /** NULL makes every arithmetic result NULL, even a division by zero. */
  lemma NullArithmetic(env: Env, op: BinaryOp, a: Value, b: Value)
    requires (a.Null? || b.Null?) && op in {ADD, SUB, MUL, DIV, MOD}
    ensures Eval(env, Apply(op, a, b)) == Ok(Null)
  {
    EvalApply(env, op, a, b);
  }

  // ---------- Three-valued logic ----------

  /** FALSE, NULL and TRUE as 0, 1 and 2. */
  function Truth(c: Conversions, v: Value): nat {
    if v.Null? then 1 else if c.toBool(v) then 2 else 0
  }

  ghost predicate HasTruth(c: Conversions, r: Result, truth: nat) {
    r.Ok? && (r.value.Null? || r.value.Bool?) && Truth(c, r.value) == truth
  }

  /** AND is the smaller of the two truth values, OR the larger, NOT the opposite. */
  lemma ThreeValued(env: Env, a: Value, b: Value)
    requires Sane(env.conv)
    ensures var x, y := Truth(env.conv, a), Truth(env.conv, b);
            HasTruth(env.conv, Eval(env, Apply(AND, a, b)), if x < y then x else y) &&
            HasTruth(env.conv, Eval(env, Apply(OR, a, b)), if x < y then y else x) &&
            HasTruth(env.conv, Eval(env, Unary(NOT, Literal(a))), 2 - x)
  {
    AllApplied(env, a, b);
    assert Eval(env, Literal(a)) == Ok(a);
  }

  /** The tests for NULL are never NULL themselves; the sign of an integer turns round, if it can. */
  lemma UnaryOperators(env: Env, a: Value)
    ensures Eval(env, Unary(IS_NULL, Literal(a))) == Ok(Bool(a == Null))
    ensures Eval(env, Unary(IS_NOT_NULL, Literal(a))) == Ok(Bool(a != Null))
    ensures a.Null? ==> Eval(env, Unary(MINUS, Literal(a))) == Ok(Null)
    ensures !a.Null? && env.conv.canInt(a) && In64(env.conv.toInt(a)) ==>
              var m := env.conv.toInt(a);
              Eval(env, Unary(MINUS, Literal(a))) == Ok(Int(if m == MIN64 then MIN64 else -m))
    ensures !a.Null? && !env.conv.canInt(a) && env.conv.canDouble(a) ==>
              Eval(env, Unary(MINUS, Literal(a))) == Ok(Double(0.0 - env.conv.toDouble(a)))
  {
    assert Eval(env, Literal(a)) == Ok(a);
  }

  ghost predicate FirstNamed(c: Conversions, columns: seq<string>, name: string, i: nat) {
    i < |columns| && c.sameName(columns[i], name) && forall j :: 0 <= j < i ==> !c.sameName(columns[j], name)
  }

  /** A column has the value of the row at the position of the first column of that name; without a table, such
      a column or such a position the expression fails. */
  lemma ColumnMeans(env: Env, prefix: string, name: string)
    ensures env.table.None? ==> Eval(env, Column(prefix, name)) == Error(NoTable)
    ensures env.table.Some? && (forall j :: 0 <= j < |env.table.value| ==> !env.conv.sameName(env.table.value[j], name)) ==>
              Eval(env, Column(prefix, name)) == Error(UnknownColumn)
    ensures env.table.Some? ==>
              forall i: nat :: FirstNamed(env.conv, env.table.value, name, i) ==>
                Eval(env, Column(prefix, name)) == if i < |env.row| then Ok(env.row[i]) else Error(ShortRow)
  {
    assert Eval(env, Column(prefix, name)) == ColumnValue(env, name);
    if env.table.Some? {
      var k := FindColumn(env.conv, env.table.value, name);
      hide FindColumn;
      assert k == |env.table.value| || env.conv.sameName(env.table.value[k], name);
    }
  }

  /** An operator sees its operands only through what they evaluate to. */
  lemma Compositional(env: Env, op: BinaryOp, l: Expr, r: Expr, a: Value, b: Value)
    requires Eval(env, l) == Ok(a) && Eval(env, r) == Ok(b)
    ensures Eval(env, Binary(op, l, r)) == Eval(env, Apply(op, a, b))
  {
    EvalApply(env, op, a, b);
  }

  // ---------- The rows a scan keeps ----------

  /** `kept` are the rows at positions `at`: in order, each once, and just those the WHERE includes. */
  ghost predicate Picks(c: Conversions, where: Expr, table: Option<seq<string>>, rows: seq<seq<Value>>, kept: seq<seq<Value>>, at: seq<nat>) {
    |at| == |kept| && (forall j, k :: 0 <= j < k < |at| ==> at[j] < at[k]) &&
    (forall k :: 0 <= k < |at| ==> at[k] < |rows| && kept[k] == rows[at[k]]) &&
    forall i :: 0 <= i < |rows| ==> (i in at <==> Judge(Env(c, table, rows[i]), where) == Include)
  }

  lemma PicksNext(c: Conversions, where: Expr, table: Option<seq<string>>, rows: seq<seq<Value>>, kept: seq<seq<Value>>, at: seq<nat>)
    requires rows != [] && Picks(c, where, table, rows[..|rows| - 1], kept, at)
    ensures var n := |rows| - 1;
            if Judge(Env(c, table, rows[n]), where) == Include then Picks(c, where, table, rows, kept + [rows[n]], at + [n])
            else Picks(c, where, table, rows, kept, at)
  {
    hide Judge;
    var n := |rows| - 1;
    assert forall i :: 0 <= i < n ==> rows[..n][i] == rows[i];
    assert forall i :: i in at + [n] <==> i in at || i == n;
    assert n !in at;
  }

  /** What a scan that does not fail keeps. */
  lemma {:induction false} KeptPicks(c: Conversions, where: Expr, table: Option<seq<string>>, rows: seq<seq<Value>>) returns (at: seq<nat>)
    ensures Kept(c, where, table, rows).Rows? ==> Picks(c, where, table, rows, Kept(c, where, table, rows).rows, at)
    decreases |rows|
  {
    hide Judge, Picks;
    at := [];
    if rows == [] {
      PicksNone(c, where, table);
    } else {
      var n := |rows| - 1;
      at := KeptPicks(c, where, table, rows[..n]);
      var front := Kept(c, where, table, rows[..n]);
      if front.Rows? {
        PicksNext(c, where, table, rows, front.rows, at);
        if Judge(Env(c, table, rows[n]), where) == Include { at := at + [n]; }
      }
    }
  }

  lemma PicksNone(c: Conversions, where: Expr, table: Option<seq<string>>)
    ensures Picks(c, where, table, [], [], [])
  {
  }

  /** A scan fails exactly when the WHERE fails on some row. */
  lemma {:induction false} FailsOnSomeRow(c: Conversions, where: Expr, table: Option<seq<string>>, rows: seq<seq<Value>>)
    ensures Kept(c, where, table, rows) == Failed <==> exists row :: row in rows && Judge(Env(c, table, row), where) == Fail
    decreases |rows|
  {
    hide Judge;
    if rows != [] {
      var n := |rows| - 1;
      FailsOnSomeRow(c, where, table, rows[..n]);
      assert forall row :: row in rows <==> row in rows[..n] || row == rows[n];
    }
  }
}
