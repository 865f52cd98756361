/** Constant folding, common-term elimination and equality of expressions
    (expr_eliminate_yn, __expr_eliminate_eq, expr_eliminate_eq, expr_eq). */
module ExprEquality {
  import opened Tristates
  import opened Exprs

  // ---------- expr_eliminate_yn ----------

  function EliminateYN(e: Expr): (r: Expr)
    ensures Size(r) <= Size(e)
  {
    match e
    case Bin(op, a, b) => FoldBin(op, EliminateYN(a), EliminateYN(b))
    case _ => e
  }

  function FoldBin(op: BinOp, l: Expr, r: Expr): (e: Expr)
    ensures Size(e) <= Size(Bin(op, l, r))
  {
    if l == Absorbing(op) then Absorbing(op)
    else if l == Neutral(op) then r
    else if r == Absorbing(op) then Absorbing(op)
    else if r == Neutral(op) then l
    else Bin(op, l, r)
  }

  // No AND or OR outside a NOT has y or n as an operand
  predicate Folded(e: Expr) {
    match e
    case Bin(_, a, b) =>
      a != E_Y && a != E_N && b != E_Y && b != E_N && Folded(a) && Folded(b)
    case _ => true
  }

  // All that folding needs to know of a valuation
  ghost predicate YNFixed(v: Valuation) { v.tri(SymY) == YES && v.tri(SymN) == NO }

  lemma WellFormedFixesYN(v: Valuation)
    requires WellFormed(v)
    ensures YNFixed(v)
  {
    assert WellFormedAt(v, SymY) && WellFormedAt(v, SymN);
  }

  lemma {:induction false} EliminateYNValue(e: Expr, v: Valuation)
    requires YNFixed(v)
    ensures Value(v, EliminateYN(e)) == Value(v, e)
  {
    if e.Bin? {
      EliminateYNValue(e.left, v);
      EliminateYNValue(e.right, v);
    }
  }

  lemma {:induction false} EliminateYNFolds(e: Expr)
    ensures Folded(EliminateYN(e))
    ensures Folded(e) ==> EliminateYN(e) == e
  {
    if e.Bin? {
      EliminateYNFolds(e.left);
      EliminateYNFolds(e.right);
    }
  }

  // ---------- expr_eq and the two eliminations ----------

  datatype Pair = Pair(fst: Expr, snd: Expr)

  predicate IsGroup(op: BinOp, e: Expr) { e.Bin? && e.bop == op }

  // A call order that decreases through the mutual recursion of expr_eq and
  // __expr_eliminate_eq even where the expressions stay the same size
  function Rank(op: BinOp, a: Expr, b: Expr): nat {
    if IsGroup(op, a) || IsGroup(op, b) then 0 else 3
  }

  // __expr_eliminate_eq: both expressions after replacing, pair by pair, equal
  // terms of the two op-groups by the neutral element
  function EliminateEq1(op: BinOp, a: Expr, b: Expr): (r: Pair)
    ensures Size(r.fst) <= Size(a) && Size(r.snd) <= Size(b)
    ensures IsGroup(op, a) ==> IsGroup(op, r.fst)
    ensures IsGroup(op, b) ==> IsGroup(op, r.snd)
    decreases Size(a) + Size(b), Rank(op, a, b)
  {
    if IsGroup(op, a) then
      var p := EliminateEq1(op, a.left, b);
      var q := EliminateEq1(op, a.right, p.snd);
      Pair(Bin(op, p.fst, q.fst), q.snd)
    else if IsGroup(op, b) then
      var p := EliminateEq1(op, a, b.left);
      var q := EliminateEq1(op, p.fst, b.right);
      Pair(q.fst, Bin(op, p.snd, q.snd))
    else if a == b && (a == E_Y || a == E_N) then Pair(a, b)
    else if !ExprEq(a, b) then Pair(a, b)
    else Pair(Neutral(op), Neutral(op))
  }

  // expr_eliminate_eq
  function EliminateEq(a: Expr, b: Expr): (r: Pair)
    ensures Size(r.fst) <= Size(a) && Size(r.snd) <= Size(b)
    decreases Size(a) + Size(b), 1
  {
    var p := if a.Bin? then EliminateEq1(a.bop, a, b) else Pair(a, b);
    // the second stage runs only if the two roots still differ
    var q := if p.snd.Bin? && !IsGroup(p.snd.bop, p.fst)
             then EliminateEq1(p.snd.bop, p.fst, p.snd) else p;
    Pair(EliminateYN(q.fst), EliminateYN(q.snd))
  }

  // expr_eq
  predicate ExprEq(a: Expr, b: Expr)
    decreases Size(a) + Size(b), 2
  {
    match (a, b)
    case (Leaf(s), Leaf(t)) => s == t
    case (Not(x), Not(y)) => ExprEq(x, y)
    case (Cmp(o, s, t), Cmp(o', s', t')) => o == o' && s == s' && t == t'
    case (Bin(o, _, _), Bin(o', _, _)) =>
      o == o' &&
      var p := EliminateEq(a, b);
      p.fst.Leaf? && p.snd.Leaf? && p.fst.sym == p.snd.sym
    case _ => false
  }

  // one step of __expr_eliminate_eq on a group
  lemma GroupLeft(op: BinOp, a: Expr, b: Expr, p: Pair, q: Pair)
    requires IsGroup(op, a) && EliminateEq1(op, a.left, b) == p && EliminateEq1(op, a.right, p.snd) == q
    ensures EliminateEq1(op, a, b) == Pair(Bin(op, p.fst, q.fst), q.snd)
  {
  }

  lemma GroupRight(op: BinOp, a: Expr, b: Expr, p: Pair, q: Pair)
    requires !IsGroup(op, a) && IsGroup(op, b)
    requires EliminateEq1(op, a, b.left) == p && EliminateEq1(op, p.fst, b.right) == q
    ensures EliminateEq1(op, a, b) == Pair(q.fst, Bin(op, p.snd, q.snd))
  {
  }

  // ---------- soundness ----------

  lemma Regroup(op: BinOp, c1: Tri, c2: Tri, x: Tri, y: Tri)
    ensures Apply(op, Apply(op, c1, x), Apply(op, c2, y)) == Apply(op, Apply(op, c1, c2), Apply(op, x, y))
    ensures Apply(op, c1, Apply(op, c2, y)) == Apply(op, Apply(op, c1, c2), y)
  {
    if op == AndOp {}
  }

  // Both expressions lose the same part c
  lemma {:induction false} EliminateEq1Common(op: BinOp, a: Expr, b: Expr, v: Valuation) returns (c: Tri)
    requires YNFixed(v)
    ensures Value(v, a) == Apply(op, c, Value(v, EliminateEq1(op, a, b).fst))
    ensures Value(v, b) == Apply(op, c, Value(v, EliminateEq1(op, a, b).snd))
    decreases Size(a) + Size(b), Rank(op, a, b)
  {
    if IsGroup(op, a) {
      var p := EliminateEq1(op, a.left, b);
      var c1 := EliminateEq1Common(op, a.left, b, v);
      var c2 := EliminateEq1Common(op, a.right, p.snd, v);
      c := Apply(op, c1, c2);
      var q := EliminateEq1(op, a.right, p.snd);
      assert EliminateEq1(op, a, b) == Pair(Bin(op, p.fst, q.fst), q.snd);
      Regroup(op, c1, c2, Value(v, p.fst), Value(v, q.fst));
      Regroup(op, c1, c2, Value(v, p.fst), Value(v, q.snd));
    } else if IsGroup(op, b) {
      var p := EliminateEq1(op, a, b.left);
      var c1 := EliminateEq1Common(op, a, b.left, v);
      var c2 := EliminateEq1Common(op, p.fst, b.right, v);
      c := Apply(op, c1, c2);
      var q := EliminateEq1(op, p.fst, b.right);
      assert EliminateEq1(op, a, b) == Pair(q.fst, Bin(op, p.snd, q.snd));
      Regroup(op, c1, c2, Value(v, p.snd), Value(v, q.snd));
      Regroup(op, c1, c2, Value(v, p.snd), Value(v, q.fst));
    } else {
      var r := EliminateEq1(op, a, b);
      if r.fst == a && r.snd == b {
        c := Value(v, Neutral(op));
      } else {
        ExprEqSoundAt(a, b, v);
        c := Value(v, a);
      }
    }
  }

  lemma {:induction false} ExprEqSoundAt(a: Expr, b: Expr, v: Valuation)
    requires YNFixed(v) && ExprEq(a, b)
    ensures Value(v, a) == Value(v, b)
    decreases Size(a) + Size(b), 2
  {
    if a.Not? {
      ExprEqSoundAt(a.e, b.e, v);
    } else if a.Bin? {
      var p := EliminateEq1(a.bop, a, b);
      var c := EliminateEq1Common(a.bop, a, b, v);
      EliminateYNValue(p.fst, v);
      EliminateYNValue(p.snd, v);
    }
  }

  lemma ExprEqSound(a: Expr, b: Expr)
    requires ExprEq(a, b)
    ensures Equivalent(a, b)
  {
    forall v | WellFormed(v) ensures Value(v, a) == Value(v, b) {
      WellFormedFixesYN(v);
      ExprEqSoundAt(a, b, v);
    }
  }

  function SecondStage(p: Pair): Pair {
    if p.snd.Bin? && !IsGroup(p.snd.bop, p.fst) then EliminateEq1(p.snd.bop, p.fst, p.snd) else p
  }

  lemma SecondStageImplies(p: Pair, v: Valuation)
    requires YNFixed(v) && Value(v, SecondStage(p).snd) == YES
    ensures Value(v, p.fst) <= Value(v, p.snd)
  {
    if p.snd.Bin? && !IsGroup(p.snd.bop, p.fst) {
      var d := EliminateEq1Common(p.snd.bop, p.fst, p.snd, v);
    }
  }

  // The test menu_finalize nests with: a base reduced to y was implied by dep
  lemma EliminateEqImplies(dep: Expr, base: Expr, v: Valuation)
    requires YNFixed(v) && EliminateEq(dep, base).snd == E_Y
    ensures Value(v, dep) <= Value(v, base)
  {
    var p := if dep.Bin? then EliminateEq1(dep.bop, dep, base) else Pair(dep, base);
    EliminateYNValue(SecondStage(p).snd, v);
    SecondStageImplies(p, v);
    if dep.Bin? {
      var c := EliminateEq1Common(dep.bop, dep, base, v);
      Monotone(dep.bop, c, Value(v, p.fst), Value(v, p.snd));
    }
  }

  lemma Monotone(op: BinOp, c: Tri, x: Tri, y: Tri)
    requires x <= y
    ensures Apply(op, c, x) <= Apply(op, c, y)
  {
  }

  // ---------- exactly which groups compare equal ----------

  // A symbol or comparison under any number of NOTs
  predicate Literal(e: Expr) {
    match e
    case Not(x) => Literal(x)
    case Bin(_, _, _) => false
    case _ => true
  }

  predicate LiteralTree(op: BinOp, e: Expr) {
    if IsGroup(op, e) then LiteralTree(op, e.left) && LiteralTree(op, e.right) else Literal(e)
  }

  function Terms(op: BinOp, e: Expr): multiset<Expr> {
    if IsGroup(op, e) then Terms(op, e.left) + Terms(op, e.right) else multiset{e}
  }

  function WithoutYN(m: multiset<Expr>): multiset<Expr> { m[E_Y := 0][E_N := 0] }

  // The terms a group is determined by: an absorbing term alone if there is
  // one, and otherwise everything but y and n
  function Content(op: BinOp, e: Expr): multiset<Expr> {
    if Absorbing(op) in Terms(op, e) then multiset{Absorbing(op)} else WithoutYN(Terms(op, e))
  }

  lemma {:induction false} LiteralsEqual(a: Expr, b: Expr)
    requires Literal(a) && Literal(b)
    ensures ExprEq(a, b) <==> a == b
    decreases Size(a)
  {
    if a.Not? && b.Not? {
      LiteralsEqual(a.e, b.e);
    }
  }

  // WithoutYN of the terms, computed along the group
  function Proper(op: BinOp, e: Expr): multiset<Expr> {
    if IsGroup(op, e) then Proper(op, e.left) + Proper(op, e.right)
    else if e == E_Y || e == E_N then multiset{}
    else multiset{e}
  }

  predicate HasAbsorbing(op: BinOp, e: Expr) {
    if IsGroup(op, e) then HasAbsorbing(op, e.left) || HasAbsorbing(op, e.right)
    else e == Absorbing(op)
  }

  lemma WithoutYNSum(x: multiset<Expr>, y: multiset<Expr>)
    ensures WithoutYN(x + y) == WithoutYN(x) + WithoutYN(y)
  {
  }

  lemma {:induction false} ProperTerms(op: BinOp, e: Expr)
    ensures Proper(op, e) == WithoutYN(Terms(op, e))
    ensures HasAbsorbing(op, e) <==> Absorbing(op) in Terms(op, e)
  {
    if IsGroup(op, e) {
      ProperTerms(op, e.left);
      ProperTerms(op, e.right);
      WithoutYNSum(Terms(op, e.left), Terms(op, e.right));
    }
  }

  lemma Subtract(x: multiset<Expr>, y: multiset<Expr>, z: multiset<Expr>)
    ensures (x - z) + (y - (z - x)) == (x + y) - z
    ensures (z - x) - y == z - (x + y)
  {
  }

  // What one elimination leaves of two groups of literals: each loses the
  // terms it shares with the other
  predicate Cancelled(op: BinOp, a: Expr, b: Expr, r: Pair) {
    && LiteralTree(op, r.fst) && LiteralTree(op, r.snd)
    && Proper(op, r.fst) == Proper(op, a) - Proper(op, b)
    && Proper(op, r.snd) == Proper(op, b) - Proper(op, a)
    && HasAbsorbing(op, r.fst) == HasAbsorbing(op, a)
    && HasAbsorbing(op, r.snd) == HasAbsorbing(op, b)
  }

  lemma CancelledLeft(op: BinOp, a: Expr, b: Expr, p: Pair, q: Pair)
    requires IsGroup(op, a) && Cancelled(op, a.left, b, p) && Cancelled(op, a.right, p.snd, q)
    ensures Cancelled(op, a, b, Pair(Bin(op, p.fst, q.fst), q.snd))
  {
    Subtract(Proper(op, a.left), Proper(op, a.right), Proper(op, b));
  }

  lemma CancelledRight(op: BinOp, a: Expr, b: Expr, p: Pair, q: Pair)
    requires IsGroup(op, b) && Cancelled(op, a, b.left, p) && Cancelled(op, p.fst, b.right, q)
    ensures Cancelled(op, a, b, Pair(q.fst, Bin(op, p.snd, q.snd)))
  {
    Subtract(Proper(op, b.left), Proper(op, b.right), Proper(op, a));
  }

  lemma CancelledTerms(op: BinOp, a: Expr, b: Expr)
    requires Literal(a) && Literal(b)
    ensures Cancelled(op, a, b, EliminateEq1(op, a, b))
  {
    LiteralsEqual(a, b);
    if a == b && a != E_Y && a != E_N {
      assert EliminateEq1(op, a, b) == Pair(Neutral(op), Neutral(op));
      CancelledSame(op, a);
    } else {
      assert EliminateEq1(op, a, b) == Pair(a, b);
      CancelledOther(op, a, b);
    }
  }

  lemma CancelledSame(op: BinOp, a: Expr)
    requires Literal(a) && a != E_Y && a != E_N
    ensures Cancelled(op, a, a, Pair(Neutral(op), Neutral(op)))
  {
    assert Proper(op, a) - Proper(op, a) == multiset{};
  }

  lemma CancelledOther(op: BinOp, a: Expr, b: Expr)
    requires Literal(a) && Literal(b) && (a == b ==> a == E_Y || a == E_N)
    ensures Cancelled(op, a, b, Pair(a, b))
  {
    assert Proper(op, a) * Proper(op, b) == multiset{};
  }

  lemma {:induction false} EliminateEq1Cancels(op: BinOp, a: Expr, b: Expr)
    requires LiteralTree(op, a) && LiteralTree(op, b)
    ensures Cancelled(op, a, b, EliminateEq1(op, a, b))
    decreases Size(a) + Size(b)
  {
    if IsGroup(op, a) {
      var p := EliminateEq1(op, a.left, b);
      EliminateEq1Cancels(op, a.left, b);
      EliminateEq1Cancels(op, a.right, p.snd);
      CancelledLeft(op, a, b, p, EliminateEq1(op, a.right, p.snd));
    } else if IsGroup(op, b) {
      var p := EliminateEq1(op, a, b.left);
      EliminateEq1Cancels(op, a, b.left);
      EliminateEq1Cancels(op, p.fst, b.right);
      CancelledRight(op, a, b, p, EliminateEq1(op, p.fst, b.right));
    } else {
      CancelledTerms(op, a, b);
    }
  }

  // what constant folding makes of a group of literals
  predicate FoldedTo(op: BinOp, e: Expr, r: Expr) {
    if HasAbsorbing(op, e) then r == Absorbing(op)
    else if Proper(op, e) == multiset{} then r == Neutral(op)
    else r != Absorbing(op) && r != Neutral(op) && (!r.Bin? ==> Proper(op, e) == multiset{r})
  }

  lemma {:induction false} EliminateYNTerms(op: BinOp, e: Expr)
    requires LiteralTree(op, e)
    ensures FoldedTo(op, e, EliminateYN(e))
  {
    if IsGroup(op, e) {
      EliminateYNTerms(op, e.left);
      EliminateYNTerms(op, e.right);
      FoldedGroup(op, e, EliminateYN(e.left), EliminateYN(e.right));
    }
  }

  lemma FoldedGroup(op: BinOp, e: Expr, l: Expr, r: Expr)
    requires IsGroup(op, e) && FoldedTo(op, e.left, l) && FoldedTo(op, e.right, r)
    ensures FoldedTo(op, e, FoldBin(op, l, r))
  {
    var x, y := Proper(op, e.left), Proper(op, e.right);
    assert Proper(op, e) == x + y && HasAbsorbing(op, e) == (HasAbsorbing(op, e.left) || HasAbsorbing(op, e.right));
    hide Proper, HasAbsorbing;
    SumEmpty(x, y);
  }

  lemma SumEmpty(x: multiset<Expr>, y: multiset<Expr>)
    ensures x == multiset{} ==> x + y == y
    ensures y == multiset{} ==> x + y == x
    ensures x != multiset{} ==> x + y != multiset{}
  {
    assert |x + y| == |x| + |y|;
  }

  lemma DifferencesEmpty(x: multiset<Expr>, y: multiset<Expr>)
    requires x - y == multiset{} == y - x
    ensures x == y
  {
    assert forall t :: x[t] == (x - y)[t] + (x * y)[t] && y[t] == (y - x)[t] + (x * y)[t];
  }

  // Any two AND-groups (or OR-groups) of literals compare equal exactly when
  // their contents agree, however the terms are ordered and bracketed
  lemma ExprEqExact(a: Expr, b: Expr)
    requires a.Bin? && b.Bin? && a.bop == b.bop
    requires LiteralTree(a.bop, a) && LiteralTree(b.bop, b)
    ensures ExprEq(a, b) <==> Content(a.bop, a) == Content(b.bop, b)
  {
    var op := a.bop;
    var p := EliminateEq1(op, a, b);
    EliminateEq1Cancels(op, a, b);
    EliminateYNTerms(op, p.fst);
    EliminateYNTerms(op, p.snd);
    ProperTerms(op, a);
    ProperTerms(op, b);
    var x, y := Proper(op, a), Proper(op, b);
    if x - y == multiset{} == y - x {
      DifferencesEmpty(x, y);
    }
    assert Absorbing(op) !in x && Absorbing(op) !in y;
  }

  lemma ExprEqReordered(a: Expr, b: Expr)
    requires a.Bin? && b.Bin? && a.bop == b.bop
    requires LiteralTree(a.bop, a) && LiteralTree(b.bop, b)
    requires Terms(a.bop, a) == Terms(b.bop, b)
    ensures ExprEq(a, b)
  {
    ExprEqExact(a, b);
  }
}
