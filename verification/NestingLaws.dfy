/** When menu_finalize nests one entry below another, said of the terms of the
    two visibilities (expr_depends_symbol, expr_eliminate_eq, menu_finalize). */
module NestingLaws {
  import opened Options
  import opened Tristates
  import opened Exprs
  import opened ExprEquality
  import opened ExprDups
  import opened ExprTransform
  import opened ExprNesting
  import opened ExprLaws

  // ---------- expr_depends_symbol ----------

  // s, s=y, s=m or s!=n
  predicate Requires(t: Expr, s: Sym) {
    t == Leaf(s) || t == Cmp(Eq, s, SymY) || t == Cmp(Eq, s, SymM) || t == Cmp(Ne, s, SymN)
  }

  // An expression depends on a symbol exactly when one of its conjuncts asks for
  // the symbol
  lemma {:induction false} DependsConjunct(e: Expr, s: Sym)
    ensures Depends(e, s) <==> exists t :: t in Leaves(AndOp, e) && Requires(t, s)
  {
    if IsGroup(AndOp, e) {
      DependsConjunct(e.left, s);
      DependsConjunct(e.right, s);
    } else {
      assert Leaves(AndOp, e) == [e] && e in Leaves(AndOp, e);
    }
  }

  // An entry with such a conjunct nests below every prompt of the symbol
  lemma ConjunctNests(s: Sym, base: Dep, e: Expr, t: Expr)
    requires t in Leaves(AndOp, e) && Requires(t, s)
    ensures Nests(s, base, Some(e))
  {
    DependsConjunct(e, s);
    DependsContains(e, s);
  }

  // ---------- expr_eliminate_eq ----------

  // Of two groups of literals, the second is eliminated exactly when the first
  // has all its terms; two single literals are left alone
  lemma EliminatedExactly(dep: Expr, base: Expr)
    requires LiteralTree(AndOp, dep) && LiteralTree(AndOp, base)
    ensures EliminateEq(dep, base).snd == E_Y <==>
      if !dep.Bin? && !base.Bin? then base == E_Y
      else E_N !in Terms(AndOp, base) && WithoutYN(Terms(AndOp, base)) <= WithoutYN(Terms(AndOp, dep))
  {
    ProperTerms(AndOp, dep);
    ProperTerms(AndOp, base);
    if dep.Bin? || base.Bin? {
      var p := EliminateEq1(AndOp, dep, base);
      EliminateEq1Cancels(AndOp, dep, base);
      EliminateYNTerms(AndOp, p.snd);
      AlreadyThere(Proper(AndOp, base), Proper(AndOp, dep));
      OneStage(dep, base, p);
    }
  }

  lemma AlreadyThere(x: multiset<Expr>, y: multiset<Expr>)
    ensures x - y == multiset{} <==> x <= y
  {
    if x - y == multiset{} {
      forall t ensures x[t] <= y[t] {
        assert (x - y)[t] == 0;
      }
    }
  }

  lemma OneStage(dep: Expr, base: Expr, p: Pair)
    requires LiteralTree(AndOp, dep) && LiteralTree(AndOp, base) && (dep.Bin? || base.Bin?)
    requires p == EliminateEq1(AndOp, dep, base) && LiteralTree(AndOp, p.snd) && LiteralTree(AndOp, p.fst)
    ensures EliminateEq(dep, base).snd == EliminateYN(p.snd)
  {
  }

  // For two visibilities that are groups of literals, nesting is decided by
  // their terms alone
  lemma NestsExactly(s: Sym, base: Dep, e: Expr)
    requires LiteralTree(AndOp, Visible(base)) && LiteralTree(AndOp, Visible(Some(e)))
    ensures var x, y := Visible(base), Visible(Some(e)); var b, d := Terms(AndOp, x), Terms(AndOp, y);
      Nests(s, base, Some(e)) <==>
        && (exists a :: a in Atoms(e) && AtomHas(a, s))
        && ((exists t :: t in Leaves(AndOp, e) && Requires(t, s))
            || if !x.Bin? && !y.Bin? then x == E_Y else E_N !in b && WithoutYN(b) <= WithoutYN(d))
  {
    hide Visible, LiteralTree, Terms, WithoutYN, EliminateEq;
    ContainsAtom(e, s);
    DependsConjunct(e, s);
    EliminatedExactly(Visible(Some(e)), Visible(base));
  }

  // ---------- the prepared visibilities ----------

  lemma VisibleForm(d: Dep)
    ensures Normal(Visible(d)) && Settled(Visible(d))
  {
    var t := Transform(TransCompareDep(d, true, SymN));
    TransformNormal(TransCompareDep(d, true, SymN));
    EliminateDupsNormal(t);
    EliminateDupsSettled(t);
  }

  // The test for y or n keeps every comparison, and compares every bare symbol
  // with the constant, in the same order
  lemma {:induction false} TransCompareAtoms(e: Expr, unequal: bool, c: Sym)
    requires c == SymY || c == SymN
    ensures var was, now := Atoms(e), Atoms(TransCompare(e, unequal, c));
      && |now| == |was|
      && forall k :: 0 <= k < |was| ==>
           if was[k].Leaf? then now[k] == Cmp(Eq, was[k].sym, c) || now[k] == Cmp(Ne, was[k].sym, c)
           else now[k] == was[k]
  {
    match e
    case Leaf(_) =>
    case Cmp(_, _, _) =>
    case Not(x) => TransCompareAtoms(x, !unequal, c);
    case Bin(_, a, b) =>
      TransCompareAtoms(a, false, c);
      TransCompareAtoms(b, false, c);
  }

  // The test for m: right for a bare symbol that is not a string or number and
  // for a comparison, the opposite below a NOT, and no test at all of a group
  lemma TestForM(e: Expr, unequal: bool, v: Valuation)
    requires WellFormed(v)
    ensures var t, asked := Value(v, TransCompare(e, unequal, SymM)), FromBool((Value(v, e) == MOD) != unequal);
      match e
      case Leaf(s) => s.IsLogic() || s.IsYMN() ==> t == asked
      case Cmp(_, _, _) => t == asked
      case Not(Leaf(s)) => s.IsLogic() || s.IsYMN() ==> t == Neg(asked)
      case Not(_) => true
      case Bin(_, _, _) => t == if unequal then Neg(Value(v, e)) else Value(v, e)
  {
    WellFormedFixesYN(v);
    match e
    case Leaf(s) => CompareM(s, v);
    case Not(Leaf(s)) =>
      CompareM(s, v);
      assert TransCompare(e, unequal, SymM) == TransCompare(Leaf(s), !unequal, SymM);
    case _ =>
  }

  lemma CompareM(s: Sym, v: Valuation)
    requires WellFormed(v)
    ensures s.IsLogic() || s.IsYMN() ==> (Compare(v, s, SymM) == 0 <==> v.tri(s) == MOD)
  {
    assert WellFormedAt(v, s) && WellFormedAt(v, SymM);
    if s.IsLogic() {
      CompareLogic(v, s, SymM);
    } else {
      CompareText(s, SymM, v);
    }
  }
}
