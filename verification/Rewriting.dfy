/**
 * Transformations of WHERE clauses: reordering conjuncts, pushing NOT inwards, folding constants, and
 * taking predicates out of the WHERE of a join, each compared with what the evaluator makes of the
 * original.
 */
module Rewriting {
  import opened Options
  import opened Expressions

  // ---------- Conjuncts ----------

  function Conjuncts(e: Expr): (cs: seq<Expr>)
    ensures cs != []
  {
    if e.Binary? && e.op.AND? then Conjuncts(e.left) + Conjuncts(e.right) else [e]
  }

  function Both(a: Verdict, b: Verdict): Verdict {
    if a.Fail? || b.Fail? then Fail else if a.Include? && b.Include? then Include else Exclude
  }

  /** The verdict of a list of predicates that must all hold. */
  function JudgeAll(env: Env, es: seq<Expr>): Verdict {
    if es == [] then Include else Both(Judge(env, es[0]), JudgeAll(env, es[1..]))
  }

  /** Stated without order: a failing conjunct fails the row, otherwise every conjunct must include it. */
  lemma {:induction false} JudgeAllMeans(env: Env, es: seq<Expr>)
    ensures JudgeAll(env, es) == Fail <==> exists e :: e in es && Judge(env, e) == Fail
    ensures JudgeAll(env, es) == Include <==> forall e :: e in es ==> Judge(env, e) == Include
  {
    hide Judge;
    if es != [] {
      JudgeAllMeans(env, es[1..]);
      assert forall e :: e in es <==> e == es[0] || e in es[1..];
    }
  }

  lemma {:induction false} JudgeAllAppend(env: Env, a: seq<Expr>, b: seq<Expr>)
    ensures JudgeAll(env, a + b) == Both(JudgeAll(env, a), JudgeAll(env, b))
  {
    hide Judge;
    if a == [] {
      assert a + b == b;
    } else {
      assert (a + b)[1..] == a[1..] + b && (a + b)[0] == a[0];
      JudgeAllAppend(env, a[1..], b);
    }
  }

  lemma JudgeAnd(env: Env, l: Expr, r: Expr)
    requires Sane(env.conv)
    ensures Judge(env, Binary(AND, l, r)) == Both(Judge(env, l), Judge(env, r))
  {
  }

  /** A WHERE judges a row as its conjuncts together do. */
  lemma {:induction false} JudgeConjuncts(env: Env, e: Expr)
    requires Sane(env.conv)
    ensures Judge(env, e) == JudgeAll(env, Conjuncts(e))
  {
    hide Judge;
    if e.Binary? && e.op.AND? {
      JudgeConjuncts(env, e.left);
      JudgeConjuncts(env, e.right);
      JudgeAllAppend(env, Conjuncts(e.left), Conjuncts(e.right));
      JudgeAnd(env, e.left, e.right);
      assert e == Binary(AND, e.left, e.right);
    } else {
      assert [e][1..] == [];
    }
  }

  /** Conjuncts regrouped, reordered or repeated: the same rows, and an error on the same rows. */
  lemma ReorderedConjuncts(env: Env, a: Expr, b: Expr)
    requires Sane(env.conv) && forall e :: e in Conjuncts(a) <==> e in Conjuncts(b)
    ensures Judge(env, a) == Judge(env, b)
  {
    hide Judge, Conjuncts;
    JudgeConjuncts(env, a);
    JudgeConjuncts(env, b);
    JudgeAllMeans(env, Conjuncts(a));
    JudgeAllMeans(env, Conjuncts(b));
  }

  lemma ReorderedWhere(c: Conversions, a: Expr, b: Expr, table: Option<seq<string>>, rows: seq<seq<Value>>)
    requires Sane(c) && multiset(Conjuncts(a)) == multiset(Conjuncts(b))
    ensures Kept(c, a, table, rows) == Kept(c, b, table, rows)
  {
    hide Judge, Conjuncts;
    forall e ensures e in Conjuncts(a) <==> e in Conjuncts(b) {
      assert e in multiset(Conjuncts(a)) <==> e in multiset(Conjuncts(b));
    }
    forall row | row in rows ensures Judge(Env(c, table, row), a) == Judge(Env(c, table, row), b) {
      ReorderedConjuncts(Env(c, table, row), a, b);
    }
    SameVerdictsSameRows(c, a, b, table, rows);
  }

  // ---------- NOT pushed through AND and OR ----------

  predicate IsLogical(e: Expr) {
    e.Binary? && (e.op.AND? || e.op.OR?)
  }

  function Dual(op: BinaryOp): BinaryOp {
    if op.AND? then OR else AND
  }

  /** De Morgan's laws applied all the way down: `Push(e)` stands for e, `PushNegated(e)` for NOT e,
      `PushTwice(e)` for NOT NOT e. */
  function Push(e: Expr): Expr
    decreases e, 0
  {
    match e
    case Unary(op, x) => if op.NOT? then PushNegated(x) else Unary(op, Push(x))
    case Binary(op, l, r) => Binary(op, Push(l), Push(r))
    case _ => e
  }

  function PushNegated(e: Expr): Expr
    decreases e, 1
  {
    if IsLogical(e) then Binary(Dual(e.op), PushNegated(e.left), PushNegated(e.right))
    else if e.Unary? && e.uop.NOT? then PushTwice(e.operand)
    else Unary(NOT, Push(e))
  }

  function PushTwice(e: Expr): Expr
    decreases e, 2
  {
    if IsLogical(e) then Push(e)
    else if e.Unary? && e.uop.NOT? then PushNegated(e.operand)
    else Unary(NOT, Unary(NOT, Push(e)))
  }

  function Not(e: Expr): Expr {
    Unary(NOT, e)
  }

  /** Exactly the same value or the same error, on every row. */
  lemma {:induction false} PushKeepsMeaning(env: Env, e: Expr)
    requires Sane(env.conv)
    ensures Eval(env, Push(e)) == Eval(env, e)
    decreases e, 0
  {
    match e
    case Unary(op, x) =>
      if op.NOT? { PushNegatedKeepsMeaning(env, x); } else { PushKeepsMeaning(env, x); }
    case Binary(op, l, r) =>
      PushKeepsMeaning(env, l);
      PushKeepsMeaning(env, r);
    case _ =>
  }

  lemma {:induction false} PushNegatedKeepsMeaning(env: Env, e: Expr)
    requires Sane(env.conv)
    ensures Eval(env, PushNegated(e)) == Eval(env, Not(e))
    decreases e, 1
  {
    if IsLogical(e) {
      PushNegatedKeepsMeaning(env, e.left);
      PushNegatedKeepsMeaning(env, e.right);
      DeMorgan(env, e.op, e.left, e.right, PushNegated(e.left), PushNegated(e.right));
    } else if e.Unary? && e.uop.NOT? {
      PushTwiceKeepsMeaning(env, e.operand);
    } else {
      PushKeepsMeaning(env, e);
    }
  }

  lemma {:induction false} PushTwiceKeepsMeaning(env: Env, e: Expr)
    requires Sane(env.conv)
    ensures Eval(env, PushTwice(e)) == Eval(env, Not(Not(e)))
    decreases e, 2
  {
    if IsLogical(e) {
      PushKeepsMeaning(env, e);
      LogicalIsTruth(env, e);
      NotNot(env, e);
    } else if e.Unary? && e.uop.NOT? {
      PushNegatedKeepsMeaning(env, e.operand);
      NotNot(env, e);
    } else {
      PushKeepsMeaning(env, e);
    }
  }

  predicate IsTruth(v: Value) {
    v.Null? || v.Bool?
  }

  lemma LogicalIsTruth(env: Env, e: Expr)
    requires IsLogical(e)
    ensures Eval(env, e).Ok? ==> IsTruth(Eval(env, e).value)
  {
  }

  /** Two negations leave a truth value as it is, but not any other value. */
  lemma NotNot(env: Env, e: Expr)
    requires Sane(env.conv) && (Eval(env, e).Ok? ==> IsTruth(Eval(env, e).value))
    ensures Eval(env, Not(Not(e))) == Eval(env, e)
  {
    var r := Eval(env, e);
    assert Eval(env, Not(e)) == if r.Error? then r else ApplyUnary(env.conv, NOT, r.value);
  }

  lemma DeMorgan(env: Env, op: BinaryOp, l: Expr, r: Expr, notL: Expr, notR: Expr)
    requires Sane(env.conv) && (op.AND? || op.OR?)
    requires Eval(env, notL) == Eval(env, Not(l)) && Eval(env, notR) == Eval(env, Not(r))
    ensures Eval(env, Binary(Dual(op), notL, notR)) == Eval(env, Not(Binary(op, l, r)))
  {
    var a, b := Eval(env, l), Eval(env, r);
    assert Eval(env, Not(l)) == if a.Error? then a else ApplyUnary(env.conv, NOT, a.value);
    assert Eval(env, Not(r)) == if b.Error? then b else ApplyUnary(env.conv, NOT, b.value);
    if a.Ok? && b.Ok? {
      var u, v := ApplyUnary(env.conv, NOT, a.value).value, ApplyUnary(env.conv, NOT, b.value).value;
      assert ApplyUnary(env.conv, NOT, Logical(env.conv, op, a.value, b.value)) == Ok(Logical(env.conv, Dual(op), u, v));
    }
  }

  /** No NOT stands above an AND or an OR. */
  predicate Normal(e: Expr) {
    match e
    case Unary(op, x) => Normal(x) && !(op.NOT? && IsLogical(x))
    case Binary(_, l, r) => Normal(l) && Normal(r)
    case _ => true
  }

  lemma {:induction false} PushIsNormal(e: Expr)
    ensures Normal(Push(e)) && (IsLogical(Push(e)) ==> IsLogical(e) || (e.Unary? && e.uop.NOT?))
    decreases e, 0
  {
    match e
    case Unary(op, x) =>
      if op.NOT? { PushNegatedIsNormal(x); } else { PushIsNormal(x); }
    case Binary(op, l, r) =>
      PushIsNormal(l);
      PushIsNormal(r);
    case _ =>
  }

  lemma {:induction false} PushNegatedIsNormal(e: Expr)
    ensures Normal(PushNegated(e))
    decreases e, 1
  {
    if IsLogical(e) {
      PushNegatedIsNormal(e.left);
      PushNegatedIsNormal(e.right);
    } else if e.Unary? && e.uop.NOT? {
      PushTwiceIsNormal(e.operand);
    } else {
      PushIsNormal(e);
    }
  }

  lemma {:induction false} PushTwiceIsNormal(e: Expr)
    ensures Normal(PushTwice(e))
    decreases e, 2
  {
    if IsLogical(e) {
      PushIsNormal(e);
    } else if e.Unary? && e.uop.NOT? {
      PushNegatedIsNormal(e.operand);
    } else {
      PushIsNormal(e);
    }
  }

  // ---------- Constant folding ----------

  predicate IsConstant(e: Expr) {
    match e
    case Literal(_) => true
    case Binary(_, l, r) => IsConstant(l) && IsConstant(r)
    case Unary(_, x) => IsConstant(x)
    case Call(args) => forall i :: 0 <= i < |args| ==> IsConstant(args[i])
    case _ => false
  }

  /** A constant is evaluated without a table; the folder takes the value and does not look at the error. */
  function ConstantValue(c: Conversions, e: Expr): Value {
    match Eval(Env(c, None, []), e)
    case Ok(v) => v
    case Error(_) => Null
  }

  function Fold(c: Conversions, e: Expr): Expr
    decreases e
  {
    match e
    case Binary(op, l, r) =>
      var folded := Binary(op, Fold(c, l), Fold(c, r));
      if IsConstant(folded.left) && IsConstant(folded.right) then Literal(ConstantValue(c, folded)) else folded
    case Unary(op, x) =>
      var folded := Unary(op, Fold(c, x));
      if IsConstant(folded.operand) then Literal(ConstantValue(c, folded)) else folded
    case Call(args) =>
      var folded := Call(seq(|args|, i requires 0 <= i < |args| => Fold(c, args[i])));
      if IsConstant(folded) then Literal(ConstantValue(c, folded)) else folded
    case _ => e
  }

  lemma {:induction false} FoldKeepsConstancy(c: Conversions, e: Expr)
    ensures IsConstant(Fold(c, e)) <==> IsConstant(e)
    decreases e
  {
    match e
    case Binary(op, l, r) => FoldKeepsConstancy(c, l); FoldKeepsConstancy(c, r);
    case Unary(op, x) => FoldKeepsConstancy(c, x);
    case Call(args) =>
      var folded := seq(|args|, i requires 0 <= i < |args| => Fold(c, args[i]));
      forall i | 0 <= i < |args| ensures IsConstant(folded[i]) <==> IsConstant(args[i]) {
        FoldKeepsConstancy(c, args[i]);
      }
      assert IsConstant(Call(folded)) <==> IsConstant(e);
    case _ =>
  }

  /** No operator on constants fails, and no call has constant arguments only. */
  predicate FoldSafe(c: Conversions, e: Expr) {
    match e
    case Binary(_, l, r) => FoldSafe(c, l) && FoldSafe(c, r) && (IsConstant(e) ==> Eval(Env(c, None, []), e).Ok?)
    case Unary(_, x) => FoldSafe(c, x) && (IsConstant(e) ==> Eval(Env(c, None, []), e).Ok?)
    case Call(_) => !IsConstant(e)
    case _ => true
  }

  lemma {:induction false} ConstantAnywhere(env: Env, e: Expr)
    requires IsConstant(e)
    ensures Eval(env, e) == Eval(Env(env.conv, None, []), e)
    decreases e
  {
    match e
    case Binary(_, l, r) => ConstantAnywhere(env, l); ConstantAnywhere(env, r);
    case Unary(_, x) => ConstantAnywhere(env, x);
    case _ =>
  }

  /** Folding a safe expression changes neither its value nor its error, on any row. */
  lemma {:induction false} FoldKeepsMeaning(env: Env, e: Expr)
    requires FoldSafe(env.conv, e)
    ensures Eval(env, Fold(env.conv, e)) == Eval(env, e)
    decreases e
  {
    var c := env.conv;
    var none := Env(c, None, []);
    match e
    case Binary(op, l, r) =>
      FoldKeepsConstancy(c, l);
      FoldKeepsConstancy(c, r);
      FoldKeepsMeaning(env, l);
      FoldKeepsMeaning(env, r);
      if IsConstant(e) {
        FoldKeepsMeaning(none, l);
        FoldKeepsMeaning(none, r);
        ConstantAnywhere(env, e);
      }
    case Unary(op, x) =>
      FoldKeepsConstancy(c, x);
      FoldKeepsMeaning(env, x);
      if IsConstant(e) {
        FoldKeepsMeaning(none, x);
        ConstantAnywhere(env, e);
      }
    case Call(args) =>
      FoldKeepsConstancy(c, e);
    case _ =>
  }

  /** An unsafe expression fails on every row, since no operator skips an operand. */
  lemma {:induction false} UnsafeFails(env: Env, e: Expr)
    requires !FoldSafe(env.conv, e)
    ensures Eval(env, e).Error?
    decreases e
  {
    match e
    case Binary(_, l, r) =>
      if !FoldSafe(env.conv, l) { UnsafeFails(env, l); }
      else if !FoldSafe(env.conv, r) { UnsafeFails(env, r); }
      else { ConstantAnywhere(env, e); }
    case Unary(_, x) =>
      if !FoldSafe(env.conv, x) { UnsafeFails(env, x); } else { ConstantAnywhere(env, e); }
    case _ =>
  }

  /** The evaluation in which an operator on constants that fails, and a call of constants, is NULL. */
  function Lenient(env: Env, e: Expr): Result {
    match e
    case Binary(op, l, r) =>
      var a := Lenient(env, l);
      if a.Error? then a
      else
        var b := Lenient(env, r);
        if b.Error? then b else Forgive(IsConstant(e), ApplyBinary(env.conv, op, a.value, b.value))
    case Unary(op, x) =>
      var a := Lenient(env, x);
      if a.Error? then a else Forgive(IsConstant(e), ApplyUnary(env.conv, op, a.value))
    case Call(_) => Forgive(IsConstant(e), Error(UnsupportedExpression))
    case _ => Eval(env, e)
  }

  function Forgive(constant: bool, r: Result): Result {
    if constant && r.Error? then Ok(Null) else r
  }

  lemma {:induction false} LenientConstant(env: Env, e: Expr)
    requires IsConstant(e)
    ensures Lenient(env, e).Ok? && Lenient(env, e) == Lenient(Env(env.conv, None, []), e)
    decreases e
  {
    match e
    case Binary(_, l, r) => LenientConstant(env, l); LenientConstant(env, r);
    case Unary(_, x) => LenientConstant(env, x);
    case _ =>
  }

  /** What a folded expression means: on every row its value or error is that of the lenient evaluation. */
  lemma {:induction false} FoldIsLenient(env: Env, e: Expr)
    ensures Eval(env, Fold(env.conv, e)) == Lenient(env, e)
    decreases e
  {
    hide ApplyBinary, ApplyUnary;
    var c := env.conv;
    var none := Env(c, None, []);
    FoldKeepsConstancy(c, e);
    match e
    case Binary(op, l, r) =>
      FoldKeepsConstancy(c, l);
      FoldKeepsConstancy(c, r);
      FoldIsLenient(env, l);
      FoldIsLenient(env, r);
      if IsConstant(e) {
        FoldIsLenient(none, l);
        FoldIsLenient(none, r);
        LenientConstant(env, l);
        LenientConstant(env, r);
      }
    case Unary(op, x) =>
      FoldKeepsConstancy(c, x);
      FoldIsLenient(env, x);
      if IsConstant(e) {
        FoldIsLenient(none, x);
        LenientConstant(env, x);
      }
    case Call(args) => FoldedCall(c, args);
    case _ =>
  }

  lemma FoldedCall(c: Conversions, args: seq<Expr>)
    ensures IsConstant(Call(args)) ==> Fold(c, Call(args)) == Literal(Null)
    ensures !IsConstant(Call(args)) ==> Fold(c, Call(args)).Call?
  {
    FoldKeepsConstancy(c, Call(args));
    var folded := seq(|args|, i requires 0 <= i < |args| => Fold(c, args[i]));
    assert Eval(Env(c, None, []), Call(folded)) == Error(UnsupportedExpression);
  }

  /** Folding keeps the verdict of a row exactly when no constant fails, or the row fails even with NULL
      for the constants that do. */
  lemma FoldIsExact(env: Env, e: Expr)
    ensures Judge(env, Fold(env.conv, e)) == Judge(env, e) <==> FoldSafe(env.conv, e) || Lenient(env, e).Error?
  {
    hide Fold, Lenient, Eval;
    FoldIsLenient(env, e);
    if FoldSafe(env.conv, e) { FoldKeepsMeaning(env, e); } else { UnsafeFails(env, e); }
  }

  /** For an expression of constants only, exactly when none of them fails. */
  lemma ConstantFoldIsExact(env: Env, e: Expr)
    requires IsConstant(e)
    ensures Judge(env, Fold(env.conv, e)) == Judge(env, e) <==> FoldSafe(env.conv, e)
  {
    FoldIsExact(env, e);
    LenientConstant(env, e);
  }

  const ONE_BY_ZERO := Unary(IS_NULL, Binary(DIV, Literal(Int(1)), Literal(Int(0))))

  /** `1/0 IS NULL` fails on every row; folded, it includes every row. */
  lemma DivisionFoldedAway(env: Env)
    requires Sane(env.conv) && env.conv.canInt(Int(1)) && env.conv.canInt(Int(0)) && env.conv.toInt(Int(0)) == 0
    ensures Judge(env, ONE_BY_ZERO) == Fail && Judge(env, Fold(env.conv, ONE_BY_ZERO)) == Include
  {
    var none := Env(env.conv, None, []);
    var quotient := Binary(DIV, Literal(Int(1)), Literal(Int(0)));
    assert Eval(env, quotient.left) == Ok(Int(1)) && Eval(env, quotient.right) == Ok(Int(0));
    assert Eval(env, quotient) == Error(DivisionByZero);
    assert Eval(none, quotient) == Error(DivisionByZero);
    assert Fold(env.conv, quotient) == Literal(Null);
    assert Eval(none, Unary(IS_NULL, Literal(Null))) == Ok(Bool(true));
    assert Fold(env.conv, ONE_BY_ZERO) == Literal(Bool(true));
  }

  // ---------- Predicates taken out of the WHERE of a join ----------

  /** Unqualified columns are taken to belong to the table. */
  predicate OnlyReferences(e: Expr, table: string) {
    match e
    case Column(t, _) => t == "" || t == table
    case Literal(_) => true
    case Binary(_, l, r) => OnlyReferences(l, table) && OnlyReferences(r, table)
    case Unary(_, x) => OnlyReferences(x, table)
    case Call(args) => forall i :: 0 <= i < |args| ==> OnlyReferences(args[i], table)
    case Unsupported => false
  }

  function Pushed(es: seq<Expr>, table: string): seq<Expr> {
    if es == [] then [] else (if OnlyReferences(es[0], table) then [es[0]] else []) + Pushed(es[1..], table)
  }

  function Remaining(es: seq<Expr>, table: string): seq<Expr> {
    if es == [] then [] else (if OnlyReferences(es[0], table) then [] else [es[0]]) + Remaining(es[1..], table)
  }

  function Combined(es: seq<Expr>): Expr
    requires es != []
  {
    if |es| == 1 then es[0] else Binary(AND, Combined(es[..|es| - 1]), es[|es| - 1])
  }

  /** The WHERE that is left for a join on `table`. */
  function Pushdown(where: Expr, table: string): Option<Expr> {
    var cs := Conjuncts(where);
    if Pushed(cs, table) == [] then Some(where)
    else if Remaining(cs, table) == [] then None
    else Some(Combined(Remaining(cs, table)))
  }

  function JudgeOptional(env: Env, where: Option<Expr>): Verdict {
    if where.None? then Include else Judge(env, where.value)
  }

  lemma {:induction false} JudgeCombined(env: Env, es: seq<Expr>)
    requires es != [] && Sane(env.conv)
    ensures Judge(env, Combined(es)) == JudgeAll(env, es)
    decreases |es|
  {
    hide Judge;
    if |es| == 1 {
      assert es == [es[0]] && es[1..] == [];
    } else {
      var front, last := es[..|es| - 1], es[|es| - 1];
      JudgeCombined(env, front);
      JudgeAnd(env, Combined(front), last);
      assert es == front + [last] && [last][1..] == [];
      JudgeAllAppend(env, front, [last]);
    }
  }

  lemma {:induction false} JudgeParted(env: Env, es: seq<Expr>, table: string)
    ensures JudgeAll(env, es) == Both(JudgeAll(env, Remaining(es, table)), JudgeAll(env, Pushed(es, table)))
    decreases |es|
  {
    hide Judge, OnlyReferences;
    if es != [] {
      JudgeParted(env, es[1..], table);
      var x, p, r := es[0], Pushed(es[1..], table), Remaining(es[1..], table);
      assert ([x] + p)[1..] == p && ([x] + r)[1..] == r && [] + p == p && [] + r == r;
    }
  }

  /** The row is judged by the predicates that stay and by those taken out together.  The new WHERE applies
      only the former, so the verdict stays exactly when the latter make no difference. */
  lemma PushdownIsExact(env: Env, where: Expr, table: string)
    requires Sane(env.conv)
    ensures var left, out := JudgeAll(env, Remaining(Conjuncts(where), table)), JudgeAll(env, Pushed(Conjuncts(where), table));
            Judge(env, where) == Both(left, out) && JudgeOptional(env, Pushdown(where, table)) == left &&
            (Judge(env, where) == JudgeOptional(env, Pushdown(where, table)) <==> left == Fail || out == Include || left == out)
  {
    hide Judge, Conjuncts, OnlyReferences;
    var cs := Conjuncts(where);
    JudgeConjuncts(env, where);
    JudgeParted(env, cs, table);
    if Remaining(cs, table) != [] {
      JudgeCombined(env, Remaining(cs, table));
    }
    if Pushed(cs, table) == [] {
      NothingPushed(cs, table);
    }
  }

  lemma {:induction false} NothingPushed(es: seq<Expr>, table: string)
    requires Pushed(es, table) == []
    ensures Remaining(es, table) == es
  {
    if es != [] {
      NothingPushed(es[1..], table);
    }
  }

  lemma {:induction false} ConjunctsFlat(e: Expr)
    ensures forall x :: x in Conjuncts(e) ==> !(x.Binary? && x.op.AND?)
  {
    if e.Binary? && e.op.AND? {
      ConjunctsFlat(e.left);
      ConjunctsFlat(e.right);
    }
  }

  lemma {:induction false} ConjunctsCombined(es: seq<Expr>)
    requires es != [] && forall x :: x in es ==> !(x.Binary? && x.op.AND?)
    ensures Conjuncts(Combined(es)) == es
    decreases |es|
  {
    if |es| > 1 {
      ConjunctsCombined(es[..|es| - 1]);
      assert es == es[..|es| - 1] + [es[|es| - 1]];
    }
  }

  lemma {:induction false} PartedIn(es: seq<Expr>, table: string)
    ensures |Pushed(es, table)| + |Remaining(es, table)| == |es|
    ensures forall x :: x in Remaining(es, table) ==> x in es
    ensures Pushed(es, table) == [] <==> forall x :: x in es ==> !OnlyReferences(x, table)
  {
    hide OnlyReferences;
    if es != [] {
      PartedIn(es[1..], table);
      assert es[0] in es && forall x :: x in es <==> x == es[0] || x in es[1..];
      assert Pushed(es, table) == [] <==> !OnlyReferences(es[0], table) && Pushed(es[1..], table) == [];
    }
  }

  /** The WHERE stays as it is exactly when none of its conjuncts is on the table alone; otherwise exactly
      those are gone. */
  lemma PushdownLeaves(where: Expr, table: string)
    ensures Pushdown(where, table) == Some(where) <==> forall x :: x in Conjuncts(where) ==> !OnlyReferences(x, table)
    ensures Pushdown(where, table).Some? ==> Conjuncts(Pushdown(where, table).value) == Remaining(Conjuncts(where), table)
  {
    hide Conjuncts, OnlyReferences, Combined;
    var cs := Conjuncts(where);
    var rest := Remaining(cs, table);
    PartedIn(cs, table);
    if Pushed(cs, table) == [] {
      NothingPushed(cs, table);
    } else if rest != [] {
      ConjunctsFlat(where);
      ConjunctsCombined(rest);
    }
  }

  /** `WHERE a = 1` on a join is dropped as a whole: a row with another value is then included. */
  lemma PredicateDropped(env: Env, table: string)
    requires Sane(env.conv) && env.conv.toDouble(Int(1)) == 1.0 && env.conv.toDouble(Int(2)) == 2.0
    requires env.conv.sameName("a", "a") && env.table == Some(["a"]) && env.row == [Int(2)]
    ensures var where := Binary(EQ, Column("", "a"), Literal(Int(1)));
            Judge(env, where) == Exclude && JudgeOptional(env, Pushdown(where, table)) == Include
  {
    var where := Binary(EQ, Column("", "a"), Literal(Int(1)));
    assert Eval(env, where.left) == Ok(Int(2)) && Eval(env, where.right) == Ok(Int(1));
    assert Eval(env, where) == Ok(Bool(false));
    assert OnlyReferences(where.left, table) && OnlyReferences(where.right, table);
    assert Conjuncts(where) == [where] && [where][1..] == [];
    assert Pushed([where], table) == [where];
    assert Remaining([where], table) == [];
  }
}
