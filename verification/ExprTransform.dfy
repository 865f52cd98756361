/** Rewriting to normal form and the dependencies stored for menu entries
    (expr_transform, expr_trans_bool, menu_finalize). */
module ExprTransform {
  import opened Options
  import opened Tristates
  import opened Exprs
  import opened ExprEquality
  import opened ExprDups

  // ---------- expr_transform ----------

  // NOT doubles, so that pushing a NOT inwards makes the expression lighter
  function Weight(e: Expr): (n: nat)
    ensures n >= 1
  {
    match e
    case Leaf(_) => 1
    case Cmp(_, _, _) => 2
    case Not(x) => 2 * Weight(x)
    case Bin(_, a, b) => 1 + Weight(a) + Weight(b)
  }

  // a comparison of a boolean symbol with y, m or n becomes a literal
  function TransformCmp(e: Expr): Expr
    requires e.Cmp?
  {
    if e.lhs.Type() != Boolean then e
    else if e.op == Eq then
      match e.rhs
      case SymN => Not(Leaf(e.lhs))
      case SymM => E_N
      case SymY => Leaf(e.lhs)
      case _ => e
    else if e.op == Ne then
      match e.rhs
      case SymN => Leaf(e.lhs)
      case SymM => E_Y
      case SymY => Not(Leaf(e.lhs))
      case _ => e
    else e
  }

  function Opposite(op: CmpOp): CmpOp {
    match op
    case Eq => Ne
    case Ne => Eq
    case Le => Gt
    case Gt => Le
    case Ge => Lt
    case Lt => Ge
  }

  // !(a || b) becomes !a && !b, and dually
  function Pushed(op: BinOp, a: Expr, b: Expr): (r: Expr)
    ensures Weight(r) < Weight(Not(Bin(op, a, b)))
  {
    assert Weight(Not(a)) == 2 * Weight(a) && Weight(Not(b)) == 2 * Weight(b);
    assert Weight(Not(Bin(op, a, b))) == 2 * Weight(Bin(op, a, b));
    Bin(Dual(op), Not(a), Not(b))
  }

  function Transform(e: Expr): (r: Expr)
    ensures Weight(r) <= Weight(e)
    decreases Weight(e), 1
  {
    match e
    case Leaf(_) => e
    case Cmp(_, _, _) => TransformCmp(e)
    case Bin(op, a, b) => Bin(op, Transform(a), Transform(b))
    case Not(x) => TransformNot(Transform(x))
  }

  // NOT over a transformed expression
  function TransformNot(y: Expr): (r: Expr)
    ensures Weight(r) <= 2 * Weight(y)
    decreases 2 * Weight(y), 0
  {
    match y
    case Not(z) => Transform(z)
    case Cmp(op, s, t) => Cmp(Opposite(op), s, t)
    case Bin(op, a, b) => Transform(Pushed(op, a, b))
    case Leaf(s) =>
      match s
      case SymY => E_N
      case SymM => Leaf(SymM)
      case SymN => E_Y
      case _ => Not(y)
  }

  // NOT stands only over symbols other than y, m and n, and no boolean symbol is
  // tested for y, m or n
  predicate Normal(e: Expr) {
    match e
    case Leaf(_) => true
    case Cmp(op, s, t) => s.Type() == Boolean && (op == Eq || op == Ne) ==> !t.IsYMN()
    case Bin(_, a, b) => Normal(a) && Normal(b)
    case Not(Leaf(s)) => !s.IsYMN()
    case Not(_) => false
  }

  lemma TransformCmpValue(e: Expr, v: Valuation)
    requires WellFormed(v) && e.Cmp?
    ensures Value(v, TransformCmp(e)) == Value(v, e)
  {
    WellFormedFixesYN(v);
    if e.lhs.Type() == Boolean {
      LogicValues(e.lhs, v);
    }
  }

  lemma PushedValue(op: BinOp, a: Expr, b: Expr, v: Valuation)
    ensures Value(v, Pushed(op, a, b)) == Neg(Value(v, Bin(op, a, b)))
  {
    assert Value(v, Not(a)) == Neg(Value(v, a)) && Value(v, Not(b)) == Neg(Value(v, b));
  }

  lemma NegatedValue(y: Expr, v: Valuation)
    requires WellFormed(v)
    ensures match y
      case Not(z) => Value(v, z) == Neg(Value(v, y))
      case Cmp(op, s, t) => Value(v, Cmp(Opposite(op), s, t)) == Neg(Value(v, y))
      case Bin(op, a, b) => Value(v, Pushed(op, a, b)) == Neg(Value(v, y))
      case Leaf(s) => s.IsYMN() ==> v.tri(s) == if s == SymY then YES else if s == SymM then MOD else NO
  {
    match y
    case Bin(op, a, b) => PushedValue(op, a, b, v);
    case Leaf(s) => assert WellFormedAt(v, s);
    case _ =>
  }

  lemma {:induction false} TransformValue(e: Expr, v: Valuation)
    requires WellFormed(v)
    ensures Value(v, Transform(e)) == Value(v, e)
    decreases Weight(e)
  {
    match e
    case Leaf(_) =>
    case Cmp(_, _, _) => TransformCmpValue(e, v);
    case Bin(op, a, b) =>
      TransformValue(a, v);
      TransformValue(b, v);
    case Not(x) =>
      var y := Transform(x);
      TransformValue(x, v);
      NegatedValue(y, v);
      assert WellFormedAt(v, SymY) && WellFormedAt(v, SymM) && WellFormedAt(v, SymN);
      match y
      case Not(z) => TransformValue(z, v);
      case Cmp(_, _, _) =>
      case Bin(op, a, b) => TransformValue(Pushed(op, a, b), v);
      case Leaf(s) =>
  }

  lemma {:induction false} TransformNormal(e: Expr)
    ensures Normal(Transform(e))
    decreases Weight(e)
  {
    match e
    case Leaf(_) =>
    case Cmp(_, _, _) =>
    case Bin(op, a, b) =>
      TransformNormal(a);
      TransformNormal(b);
    case Not(x) =>
      var y := Transform(x);
      TransformNormal(x);
      match y
      case Not(z) => TransformNormal(z);
      case Cmp(_, _, _) =>
      case Bin(op, a, b) => TransformNormal(Pushed(op, a, b));
      case Leaf(s) =>
  }

  lemma {:induction false} TransformLeafCount(e: Expr)
    ensures LeafCount(Transform(e)) == LeafCount(e)
    decreases Weight(e)
  {
    match e
    case Leaf(_) =>
    case Cmp(_, _, _) =>
    case Bin(op, a, b) =>
      TransformLeafCount(a);
      TransformLeafCount(b);
    case Not(x) =>
      var y := Transform(x);
      TransformLeafCount(x);
      match y
      case Not(z) => TransformLeafCount(z);
      case Cmp(_, _, _) =>
      case Bin(op, a, b) => TransformLeafCount(Pushed(op, a, b));
      case Leaf(s) =>
  }

  lemma {:induction false} NormalUnchanged(e: Expr)
    requires Normal(e)
    ensures Transform(e) == e
  {
    if e.Bin? {
      NormalUnchanged(e.left);
      NormalUnchanged(e.right);
    }
  }

  lemma TransformIdempotent(e: Expr)
    ensures Transform(Transform(e)) == Transform(e)
  {
    TransformNormal(e);
    NormalUnchanged(Transform(e));
  }

  // ---------- expr_trans_bool ----------

  function TransBool(e: Expr): Expr {
    match e
    case Bin(op, a, b) => Bin(op, TransBool(a), TransBool(b))
    case Not(x) => Not(TransBool(x))
    case Cmp(op, s, t) => if op == Ne && s.Type() == Tristate && t == SymN then Leaf(s) else e
    case Leaf(_) => e
  }

  // how a symbol that is not tristate reads m
  function Promote(t: Tri): Tri { if t == MOD then YES else t }

  // No `tristate != n` stands under an odd number of NOTs
  predicate TruthTestsPositive(e: Expr, negated: bool) {
    match e
    case Bin(_, a, b) => TruthTestsPositive(a, negated) && TruthTestsPositive(b, negated)
    case Not(x) => TruthTestsPositive(x, !negated)
    case Cmp(op, s, t) => op == Ne && s.Type() == Tristate && t == SymN ==> !negated
    case Leaf(_) => true
  }

  // Outside NOTs the result is n for the same valuations, inside them y
  lemma {:induction false} TransBoolPolarity(e: Expr, negated: bool, v: Valuation)
    requires WellFormed(v) && TruthTestsPositive(e, negated)
    ensures !negated ==> (Value(v, TransBool(e)) == NO <==> Value(v, e) == NO)
    ensures negated ==> (Value(v, TransBool(e)) == YES <==> Value(v, e) == YES)
  {
    match e
    case Bin(_, a, b) =>
      TransBoolPolarity(a, negated, v);
      TransBoolPolarity(b, negated, v);
    case Not(x) => TransBoolPolarity(x, !negated, v);
    case Cmp(_, s, _) =>
      if s.Type() == Tristate {
        LogicValues(s, v);
      }
    case Leaf(_) =>
  }

  lemma TransBoolPromoted(e: Expr, v: Valuation)
    requires WellFormed(v) && TruthTestsPositive(e, false)
    ensures Promote(Value(v, TransBool(e))) == Promote(Value(v, e))
  {
    TransBoolPolarity(e, false, v);
  }

  lemma {:induction false} NormalTruthTestsPositive(e: Expr)
    requires Normal(e)
    ensures TruthTestsPositive(e, false)
  {
    if e.Bin? {
      NormalTruthTestsPositive(e.left);
      NormalTruthTestsPositive(e.right);
    }
  }

  predicate NoneAtM(v: Valuation, t: Sym) { t.Type() == Tristate ==> v.tri(t) != MOD }

  lemma {:induction false} TransBoolSame(e: Expr, v: Valuation)
    requires WellFormed(v) && forall t: Sym :: NoneAtM(v, t)
    ensures Value(v, TransBool(e)) == Value(v, e)
  {
    match e
    case Bin(_, a, b) =>
      TransBoolSame(a, v);
      TransBoolSame(b, v);
    case Not(x) => TransBoolSame(x, v);
    case Cmp(_, s, _) =>
      if s.Type() == Tristate {
        LogicValues(s, v);
        assert NoneAtM(v, s);
      }
    case Leaf(_) =>
  }

  // Under one NOT the rewriting is wrong for every tristate symbol at m
  lemma TransBoolUnderNot(t: Sym, v: Valuation)
    requires WellFormed(v) && t.Type() == Tristate && v.tri(t) == MOD
    ensures var e := Not(Cmp(Ne, t, SymN)); Promote(Value(v, TransBool(e))) == YES && Promote(Value(v, e)) == NO
  {
    LogicValues(t, v);
  }

  ghost predicate TransBoolSafe(v: Valuation) {
    forall e :: Promote(Value(v, TransBool(e))) == Promote(Value(v, e))
  }

  // For arbitrary expressions the rewriting is right under a valuation exactly
  // when no tristate symbol is m
  lemma TransBoolExact(v: Valuation)
    requires WellFormed(v)
    ensures TransBoolSafe(v) <==> forall t: Sym :: NoneAtM(v, t)
  {
    if t: Sym :| !NoneAtM(v, t) {
      TransBoolUnderNot(t, v);
    } else {
      forall e
        ensures Promote(Value(v, TransBool(e))) == Promote(Value(v, e))
      {
        TransBoolSame(e, v);
      }
    }
  }

  // ---------- the dependencies of a menu entry (menu_finalize) ----------

  predicate DepNormal(d: Dep) { d.Some? ==> Normal(d.value) }

  // expr_alloc_and
  function AllocAnd(a: Dep, b: Dep): Dep {
    if a.None? then b else if b.None? then a else Some(And(a.value, b.value))
  }

  // expr_eliminate_dups(expr_alloc_and(given, expr_transform(own)))
  function Combine(given: Dep, own: Dep): Dep {
    var t := if own.None? then own else Some(Transform(own.value));
    var c := AllocAnd(given, t);
    if c.None? then c else Some(EliminateDups(c.value))
  }

  // The visibility menu_finalize stores for a property
  function PropertyVisibility(parent: Dep, entry: Dep, prop: Dep, tristate: bool): Dep {
    var d := Combine(Combine(parent, entry), prop);
    if tristate || d.None? then d else Some(TransBool(d.value))
  }

  lemma CombineValue(given: Dep, own: Dep, v: Valuation)
    requires WellFormed(v)
    ensures DepValue(v, Combine(given, own)) == Min(DepValue(v, given), DepValue(v, own))
  {
    var t := if own.None? then own else Some(Transform(own.value));
    if own.Some? {
      TransformValue(own.value, v);
    }
    var c := AllocAnd(given, t);
    if c.Some? {
      EliminateDupsValue(c.value, v);
    }
  }

  // Joining terms of a normal group yields normal terms
  predicate AllNormal(ls: seq<Expr>) { forall k :: 0 <= k < |ls| ==> Normal(ls[k]) }

  lemma {:induction false} GroupNormal(op: BinOp, e: Expr)
    ensures Normal(e) <==> AllNormal(Leaves(op, e))
  {
    if IsGroup(op, e) {
      GroupNormal(op, e.left);
      GroupNormal(op, e.right);
      var l, r := Leaves(op, e.left), Leaves(op, e.right);
      assert forall k :: 0 <= k < |l| ==> (l + r)[k] == l[k];
      assert forall k :: 0 <= k < |r| ==> (l + r)[|l| + k] == r[k];
    } else {
      assert Leaves(op, e)[0] == e;
    }
  }

  lemma JoinNormal(op: BinOp, a: Expr, b: Expr)
    requires Join(op, a, b).Some? && Normal(a) && Normal(b)
    ensures Normal(Join(op, a, b).value)
  {
  }

  lemma {:induction false} VisitNormal(op: BinOp, ls: seq<Expr>, i: nat, j: nat, h: nat)
    requires i < |ls| && j < |ls| && AreTerms(op, ls, h) && AllNormal(ls)
    ensures AllNormal(Visit(op, ls, i, j, h).ls)
    decreases h, 0, 0, 0
  {
    if i != j {
      var x := ls[i];
      if x.Bin? {
        DupsGroupNormal(x.bop, x, h - 1);
      }
      var d := if x.Bin? then DupsGroup(x.bop, x, h - 1) else Dups(x, 0);
      if Join(op, d.e, ls[j]).Some? {
        JoinNormal(op, d.e, ls[j]);
      }
    }
  }

  lemma {:induction false} VisitFromNormal(op: BinOp, ls: seq<Expr>, i: nat, j: nat, h: nat)
    requires i <= |ls| && j <= |ls| && AreTerms(op, ls, h) && AllNormal(ls)
    ensures AllNormal(VisitFrom(op, ls, i, j, h).ls)
    decreases h, 1, |ls| - i, |ls| - j
  {
    if i < |ls| {
      if j == |ls| {
        VisitFromNormal(op, ls, i + 1, 0, h);
      } else {
        VisitNormal(op, ls, i, j, h);
        VisitFromNormal(op, Visit(op, ls, i, j, h).ls, i, j + 1, h);
      }
    }
  }

  lemma {:induction false} DupsGroupNormal(op: BinOp, e: Expr, h: nat)
    requires IsGroup(op, e) && Height(op, e) <= h && Normal(e)
    ensures Normal(DupsGroup(op, e, h).e)
    decreases h, 2, 0, 0
  {
    var ls := Leaves(op, e);
    LeavesHeight(op, e, h);
    GroupNormal(op, e);
    VisitFromNormal(op, ls, 0, 0, h);
    var w := VisitFrom(op, ls, 0, 0, h);
    RebuildLeaves(op, e, w.ls);
    GroupNormal(op, Rebuild(op, e, w.ls));
  }

  lemma {:induction false} EliminateYNNormal(e: Expr)
    requires Normal(e)
    ensures Normal(EliminateYN(e))
  {
    if e.Bin? {
      EliminateYNNormal(e.left);
      EliminateYNNormal(e.right);
    }
  }

  lemma {:induction false} EliminateDupsNormal(e: Expr)
    requires Normal(e)
    ensures Normal(EliminateDups(e))
    decreases Folding(e), Mass(e)
  {
    if Pass(e).joins > 0 {
      PassShrinks(e);
      DupsGroupNormal(e.bop, e, Height(e.bop, e));
      EliminateYNNormal(Pass(e).e);
      EliminateDupsNormal(EliminateYN(Pass(e).e));
    }
  }

  lemma {:induction false} TransBoolNormal(e: Expr)
    requires Normal(e)
    ensures Normal(TransBool(e))
  {
    if e.Bin? {
      TransBoolNormal(e.left);
      TransBoolNormal(e.right);
    }
  }

  lemma CombineNormal(given: Dep, own: Dep)
    requires DepNormal(given)
    ensures DepNormal(Combine(given, own))
  {
    if own.Some? {
      TransformNormal(own.value);
    }
    var c := AllocAnd(given, if own.None? then own else Some(Transform(own.value)));
    if c.Some? {
      EliminateDupsNormal(c.value);
    }
  }

  // What a property's visibility means after finalisation: the conjunction of
  // all three dependencies for a tristate symbol, and for any other symbol an
  // expression that reads the same once m is promoted to y
  lemma PropertyVisibilityMeaning(parent: Dep, entry: Dep, prop: Dep, tristate: bool, v: Valuation)
    requires WellFormed(v) && DepNormal(parent)
    ensures var meant := Min(Min(DepValue(v, parent), DepValue(v, entry)), DepValue(v, prop));
      var stored := DepValue(v, PropertyVisibility(parent, entry, prop, tristate));
      if tristate then stored == meant else Promote(stored) == Promote(meant)
    ensures DepNormal(PropertyVisibility(parent, entry, prop, tristate))
  {
    var base := Combine(parent, entry);
    var d := Combine(base, prop);
    CombineValue(parent, entry, v);
    CombineValue(base, prop, v);
    CombineNormal(parent, entry);
    CombineNormal(base, prop);
    if d.Some? {
      NormalTruthTestsPositive(d.value);
      TransBoolPromoted(d.value, v);
      TransBoolNormal(d.value);
    }
  }
}
