/** When menu_finalize nests an entry below another one
    (expr_trans_compare, expr_contains_symbol, expr_depends_symbol). */
module ExprNesting {
  import opened Options
  import opened Tristates
  import opened Exprs
  import opened ExprEquality
  import opened ExprDups
  import opened ExprTransform

  // ---------- expr_trans_compare ----------

  // The test `e = c` (or `e != c` if unequal) for c among y, m and n
  function TransCompare(e: Expr, unequal: bool, c: Sym): Expr
    requires c.IsYMN()
  {
    match e
    case Leaf(s) => Cmp(if unequal then Ne else Eq, s, c)
    case Not(x) => TransCompare(x, !unequal, c)
    case Cmp(_, _, _) =>
      if c == SymM then (if unequal then E_Y else E_N)
      else if unequal == (c == SymN) then e
      else Not(e)
    case Bin(op, a, b) =>
      var l, r := TransCompare(a, false, c), TransCompare(b, false, c);
      var t := if c == SymY then Bin(op, l, r) else if c == SymN then Bin(Dual(op), l, r) else e;
      if unequal then Not(t) else t
  }

  function TransCompareDep(d: Dep, unequal: bool, c: Sym): Expr
    requires c.IsYMN()
  {
    if d.Some? then TransCompare(d.value, unequal, c)
    else if unequal then Not(Leaf(c)) else Leaf(c)
  }

  // A symbol that is not boolean, tristate, y, m or n is n as an operand. Its
  // text need not be "n".
  predicate ReadsN(s: Sym, v: Valuation) { s.IsLogic() || s.IsYMN() || StringValue(v, s) == "n" }

  // Every symbol standing alone compares as it reads, and the operand of no NOT
  // is m
  predicate Decided(e: Expr, v: Valuation) {
    match e
    case Leaf(s) => ReadsN(s, v)
    case Not(x) => Decided(x, v) && Value(v, x) != MOD
    case Bin(_, a, b) => Decided(a, v) && Decided(b, v)
    case Cmp(_, _, _) => true
  }

  predicate DepDecided(d: Dep, v: Valuation) { d.Some? ==> Decided(d.value, v) }

  // Expressions decided under every valuation: NOT only over operands that
  // cannot be m
  predicate TwoValued(e: Expr) {
    match e
    case Leaf(s) => s.Type() == Boolean || s == SymY || s == SymN
    case Not(x) => TwoValued(x)
    case Bin(_, a, b) => TwoValued(a) && TwoValued(b)
    case Cmp(_, _, _) => true
  }

  predicate NotsTwoValued(e: Expr) {
    match e
    case Leaf(s) => s.IsLogic() || s.IsYMN()
    case Not(x) => NotsTwoValued(x) && TwoValued(x)
    case Bin(_, a, b) => NotsTwoValued(a) && NotsTwoValued(b)
    case Cmp(_, _, _) => true
  }

  lemma {:induction false} TwoValuedNotM(e: Expr, v: Valuation)
    requires WellFormed(v) && TwoValued(e)
    ensures Value(v, e) != MOD
  {
    WellFormedFixesYN(v);
    match e
    case Leaf(s) => assert WellFormedAt(v, s);
    case Not(x) => TwoValuedNotM(x, v);
    case Bin(_, a, b) =>
      TwoValuedNotM(a, v);
      TwoValuedNotM(b, v);
    case Cmp(_, _, _) =>
  }

  lemma {:induction false} NotsTwoValuedDecided(e: Expr, v: Valuation)
    requires WellFormed(v) && NotsTwoValued(e)
    ensures Decided(e, v)
  {
    match e
    case Leaf(_) =>
    case Not(x) =>
      NotsTwoValuedDecided(x, v);
      TwoValuedNotM(x, v);
    case Bin(_, a, b) =>
      NotsTwoValuedDecided(a, v);
      NotsTwoValuedDecided(b, v);
    case Cmp(_, _, _) =>
  }

  lemma CompareText(s: Sym, c: Sym, v: Valuation)
    requires WellFormed(v) && c.IsYMN()
    ensures Compare(v, s, c) == 0 <==> StringValue(v, s) == c.Name()
  {
    assert WellFormedAt(v, c);
    StrCmpZero(StringValue(v, s), StringValue(v, c));
  }

  lemma CompareWithYN(s: Sym, c: Sym, v: Valuation)
    requires WellFormed(v) && ReadsN(s, v) && (c == SymY || c == SymN)
    ensures Compare(v, s, c) == 0 <==> v.tri(s) == v.tri(c)
  {
    assert WellFormedAt(v, s) && WellFormedAt(v, c);
    if s.IsLogic() {
      CompareLogic(v, s, c);
    } else {
      CompareText(s, c, v);
    }
  }

  // The translated test is two-valued and decides exactly the question asked
  lemma {:induction false} TransCompareExact(e: Expr, unequal: bool, c: Sym, v: Valuation)
    requires WellFormed(v) && Decided(e, v) && (c == SymY || c == SymN)
    ensures Value(v, TransCompare(e, unequal, c)) == FromBool((Value(v, e) == v.tri(c)) != unequal)
  {
    WellFormedFixesYN(v);
    match e
    case Leaf(s) => CompareWithYN(s, c, v);
    case Not(x) => TransCompareExact(x, !unequal, c, v);
    case Cmp(_, _, _) =>
    case Bin(op, a, b) =>
      TransCompareExact(a, false, c, v);
      TransCompareExact(b, false, c, v);
  }

  lemma TransCompareDepExact(d: Dep, unequal: bool, c: Sym, v: Valuation)
    requires WellFormed(v) && DepDecided(d, v) && (c == SymY || c == SymN)
    ensures Value(v, TransCompareDep(d, unequal, c)) == FromBool((DepValue(v, d) == v.tri(c)) != unequal)
  {
    WellFormedFixesYN(v);
    if d.Some? {
      TransCompareExact(d.value, unequal, c, v);
    }
  }

  predicate TestRight(e: Expr, v: Valuation) {
    Value(v, TransCompare(e, true, SymN)) == FromBool(Value(v, e) != NO)
  }

  // For a bare symbol the test is right exactly when the symbol compares as it
  // reads
  lemma TransCompareBareSymbol(s: Sym, v: Valuation)
    requires WellFormed(v)
    ensures TestRight(Leaf(s), v) <==> ReadsN(s, v)
  {
    WellFormedFixesYN(v);
    assert WellFormedAt(v, s);
    if ReadsN(s, v) {
      CompareWithYN(s, SymN, v);
    } else {
      CompareText(s, SymN, v);
    }
  }

  lemma TestValue(op: CmpOp, s: Sym, c: Sym, v: Valuation)
    ensures Value(v, Cmp(op, s, c)) == FromBool(Holds(op, Compare(v, s, c)))
  {
  }

  // For a negated symbol it must not be m either
  lemma TransCompareNegatedSymbol(s: Sym, v: Valuation)
    requires WellFormed(v)
    ensures TestRight(Not(Leaf(s)), v) <==> ReadsN(s, v) && v.tri(s) != MOD
  {
    WellFormedFixesYN(v);
    var e, eq := Not(Leaf(s)), Compare(v, s, SymN) == 0;
    assert TransCompare(e, true, SymN) == TransCompare(Leaf(s), false, SymN) == Cmp(Eq, s, SymN);
    TestValue(Eq, s, SymN, v);
    assert Value(v, TransCompare(e, true, SymN)) == FromBool(eq);
    assert Value(v, e) == Neg(v.tri(s));
    assert TestRight(e, v) <==> (eq <==> v.tri(s) != YES);
    assert WellFormedAt(v, s);
    if ReadsN(s, v) {
      CompareWithYN(s, SymN, v);
      assert eq <==> v.tri(s) == NO;
    } else {
      CompareText(s, SymN, v);
    }
  }

  // ---------- expr_contains_symbol and expr_depends_symbol ----------

  predicate Depends(e: Expr, s: Sym) {
    match e
    case Bin(op, a, b) => op == AndOp && (Depends(a, s) || Depends(b, s))
    case Leaf(t) => t == s
    case Cmp(Eq, l, r) => l == s && (r == SymY || r == SymM)
    case Cmp(Ne, l, r) => l == s && r == SymN
    case _ => false
  }

  lemma {:induction false} DependsImplies(e: Expr, s: Sym, v: Valuation)
    requires WellFormed(v) && Depends(e, s) && (s.IsLogic() || s.IsYMN()) && v.tri(s) == NO
    ensures Value(v, e) == NO
  {
    match e
    case Bin(_, a, b) =>
      if Depends(a, s) {
        DependsImplies(a, s, v);
      } else {
        DependsImplies(b, s, v);
      }
    case Leaf(_) =>
    case Cmp(_, _, _) =>
      assert WellFormedAt(v, s) && WellFormedAt(v, e.rhs);
      if s.IsLogic() {
        LogicValues(s, v);
      } else {
        StrCmpZero(StringValue(v, s), StringValue(v, e.rhs));
      }
    case _ =>
  }

  lemma {:induction false} DependsContains(e: Expr, s: Sym)
    requires Depends(e, s)
    ensures Contains(e, s)
  {
    if e.Bin? {
      if Depends(e.left, s) {
        DependsContains(e.left, s);
      } else {
        DependsContains(e.right, s);
      }
    }
  }

  ghost predicate DependsSound(s: Sym) {
    forall e, v: Valuation :: WellFormed(v) && Depends(e, s) && v.tri(s) == NO ==> Value(v, e) == NO
  }

  // Every symbol but y and m reads n; strings other than constants are empty
  function AllN(): Valuation {
    Valuation(
      (s: Sym) => if s.SymY? then YES else if s.SymM? then MOD else NO,
      (s: Sym) => if s.IsConst() then s.Name() else "", NO, (a: Sym, b: Sym) => 0)
  }

  // Nesting by dependency is sound for boolean and tristate symbols and for no
  // other kind: a string symbol is n although its text differs from "n"
  lemma DependsExact(s: Sym)
    ensures DependsSound(s) <==> s.IsLogic() || s.IsYMN()
  {
    if s.IsLogic() || s.IsYMN() {
      forall e, v: Valuation | WellFormed(v) && Depends(e, s) && v.tri(s) == NO ensures Value(v, e) == NO {
        DependsImplies(e, s, v);
      }
    } else {
      var v, e := AllN(), Cmp(Ne, s, SymN);
      assert WellFormed(v);
      StrCmpZero(StringValue(v, s), "n");
      assert Depends(e, s) && v.tri(s) == NO && Value(v, e) == YES;
    }
  }

  // ---------- the nesting decision ----------

  function Visible(d: Dep): Expr {
    EliminateDups(Transform(TransCompareDep(d, true, SymN)))
  }

  // Does menu_finalize move an entry with visibility dep below an entry for sym
  // with visibility base?
  predicate Nests(sym: Sym, base: Dep, dep: Dep) {
    dep.Some? && Contains(dep.value, sym) &&
    (Depends(dep.value, sym) || EliminateEq(Visible(dep), Visible(base)).snd == E_Y)
  }

  lemma VisibleExact(d: Dep, v: Valuation)
    requires WellFormed(v) && DepDecided(d, v)
    ensures Value(v, Visible(d)) == FromBool(DepValue(v, d) != NO)
  {
    var t := TransCompareDep(d, true, SymN);
    WellFormedFixesYN(v);
    TransCompareDepExact(d, true, SymN, v);
    TransformValue(t, v);
    EliminateDupsValue(Transform(t), v);
  }

  // ---------- what the test can get wrong on the normal form ----------

  predicate BareRead(e: Expr, v: Valuation) {
    match e
    case Leaf(s) => ReadsN(s, v)
    case Bin(_, a, b) => BareRead(a, v) && BareRead(b, v)
    case _ => true
  }

  predicate NegatedRead(e: Expr, v: Valuation) {
    match e
    case Not(Leaf(s)) => ReadsN(s, v) && NoneAtM(v, s)
    case Bin(_, a, b) => NegatedRead(a, v) && NegatedRead(b, v)
    case _ => true
  }

  predicate DepBareRead(d: Dep, v: Valuation) { d.Some? ==> BareRead(d.value, v) }

  predicate DepNegatedRead(d: Dep, v: Valuation) { d.Some? ==> NegatedRead(d.value, v) }

  lemma NegatedTest(s: Sym, unequal: bool, v: Valuation)
    requires WellFormed(v) && !s.IsYMN()
    ensures var t := Value(v, TransCompare(Not(Leaf(s)), unequal, SymN));
      && t != MOD
      && (t == FromBool(unequal) ==> v.tri(s) != YES)
      && (ReadsN(s, v) && NoneAtM(v, s) && v.tri(s) != YES ==> t == FromBool(unequal))
  {
    WellFormedFixesYN(v);
    assert WellFormedAt(v, s);
    if ReadsN(s, v) {
      CompareWithYN(s, SymN, v);
    }
  }

  // What stands under a NOT never makes the test say y of an expression that is
  // n; only a bare symbol can
  lemma {:induction false} NormalTestSafe(e: Expr, unequal: bool, v: Valuation)
    requires WellFormed(v) && Normal(e) && BareRead(e, v)
    ensures var t := Value(v, TransCompare(e, unequal, SymN));
      t != MOD && (t == FromBool(unequal) ==> Value(v, e) != NO)
  {
    WellFormedFixesYN(v);
    match e
    case Leaf(s) => CompareWithYN(s, SymN, v);
    case Not(x) => NegatedTest(x.sym, unequal, v);
    case Cmp(_, _, _) =>
    case Bin(op, a, b) =>
      NormalTestSafe(a, false, v);
      NormalTestSafe(b, false, v);
  }

  // A bare symbol never makes the test say n of an expression that is not n;
  // only a negated symbol can
  lemma {:induction false} NormalTestComplete(e: Expr, unequal: bool, v: Valuation)
    requires WellFormed(v) && Normal(e) && NegatedRead(e, v)
    ensures var t := Value(v, TransCompare(e, unequal, SymN));
      t != MOD && (Value(v, e) != NO ==> t == FromBool(unequal))
  {
    WellFormedFixesYN(v);
    match e
    case Leaf(s) =>
      assert WellFormedAt(v, s);
      if ReadsN(s, v) {
        CompareWithYN(s, SymN, v);
      }
    case Not(x) =>
      assert ReadsN(x.sym, v) && NoneAtM(v, x.sym) && Value(v, e) == Neg(v.tri(x.sym));
      NegatedTest(x.sym, unequal, v);
    case Cmp(_, _, _) =>
    case Bin(op, a, b) =>
      NormalTestComplete(a, false, v);
      NormalTestComplete(b, false, v);
  }

  lemma VisibleIsTest(d: Dep, v: Valuation)
    requires WellFormed(v)
    ensures Value(v, Visible(d)) == Value(v, TransCompareDep(d, true, SymN))
  {
    var t := TransCompareDep(d, true, SymN);
    TransformValue(t, v);
    EliminateDupsValue(Transform(t), v);
  }

  lemma VisibleSafe(d: Dep, v: Valuation)
    requires WellFormed(v) && DepNormal(d) && DepBareRead(d, v) && Value(v, Visible(d)) == YES
    ensures DepValue(v, d) != NO
  {
    VisibleIsTest(d, v);
    if d.Some? {
      NormalTestSafe(d.value, true, v);
    }
  }

  lemma VisibleComplete(d: Dep, v: Valuation)
    requires WellFormed(v) && DepNormal(d) && DepNegatedRead(d, v) && DepValue(v, d) != NO
    ensures Value(v, Visible(d)) == YES
  {
    WellFormedFixesYN(v);
    VisibleIsTest(d, v);
    if d.Some? {
      NormalTestComplete(d.value, true, v);
    }
  }

  // A nested entry is n whenever the parent's prompt is, or, when nested by
  // dependency, whenever the parent's symbol is n. Nesting by elimination asks
  // this of the parent's bare and of the entry's negated symbols only.
  lemma NestsSound(sym: Sym, base: Dep, dep: Dep, v: Valuation)
    requires WellFormed(v) && Nests(sym, base, dep)
    requires Depends(dep.value, sym) ==> sym.IsLogic() || sym.IsYMN()
    requires !Depends(dep.value, sym) ==>
      DepNormal(base) && DepBareRead(base, v) && DepNormal(dep) && DepNegatedRead(dep, v)
    ensures if Depends(dep.value, sym) then v.tri(sym) == NO ==> DepValue(v, dep) == NO
            else DepValue(v, base) == NO ==> DepValue(v, dep) == NO
  {
    if Depends(dep.value, sym) {
      if v.tri(sym) == NO {
        DependsImplies(dep.value, sym, v);
      }
    } else if DepValue(v, dep) != NO {
      WellFormedFixesYN(v);
      VisibleComplete(dep, v);
      EliminateEqImplies(Visible(dep), Visible(base), v);
      VisibleSafe(base, v);
    }
  }

  // ---------- exactly when the test is right and nesting is safe ----------

  // a normal expression whose bare and negated symbols come from two given sets
  predicate Over(e: Expr, bare: iset<Sym>, negated: iset<Sym>) {
    match e
    case Leaf(s) => s in bare
    case Not(x) => x.Leaf? && !x.sym.IsYMN() && x.sym in negated
    case Bin(_, a, b) => Over(a, bare, negated) && Over(b, bare, negated)
    case Cmp(_, _, _) => Normal(e)
  }

  predicate DepOver(d: Dep, bare: iset<Sym>, negated: iset<Sym>) { d.Some? ==> Over(d.value, bare, negated) }

  // every bare symbol compares as it reads, and so does every negated one, which
  // is not m
  ghost predicate Testable(v: Valuation, bare: iset<Sym>, negated: iset<Sym>) {
    && (forall s :: s in bare ==> ReadsN(s, v))
    && (forall s :: s in negated ==> ReadsN(s, v) && NoneAtM(v, s))
  }

  lemma {:induction false} OverRead(e: Expr, bare: iset<Sym>, negated: iset<Sym>, v: Valuation)
    requires Over(e, bare, negated)
    ensures Normal(e)
    ensures Testable(v, bare, negated) ==> BareRead(e, v) && NegatedRead(e, v)
  {
    if e.Bin? {
      OverRead(e.left, bare, negated, v);
      OverRead(e.right, bare, negated, v);
    }
  }

  ghost predicate TransCompareSafe(v: Valuation, bare: iset<Sym>, negated: iset<Sym>) {
    forall e :: Over(e, bare, negated) ==> TestRight(e, v)
  }

  // The test for != n is right for all normal expressions over two sets of
  // symbols exactly when the symbols are testable
  lemma TransCompareNormalExact(v: Valuation, bare: iset<Sym>, negated: iset<Sym>)
    requires WellFormed(v)
    ensures TransCompareSafe(v, bare, negated) <==> Testable(v, bare, negated)
  {
    if Testable(v, bare, negated) {
      forall e | Over(e, bare, negated)
        ensures TestRight(e, v)
      {
        OverRead(e, bare, negated, v);
        NormalTestSafe(e, true, v);
        NormalTestComplete(e, true, v);
      }
    } else if s :| s in bare && !ReadsN(s, v) {
      TransCompareBareSymbol(s, v);
      assert Over(Leaf(s), bare, negated);
    } else {
      var s :| s in negated && !(ReadsN(s, v) && NoneAtM(v, s));
      TransCompareNegatedSymbol(s, v);
      assert Over(Not(Leaf(s)), bare, negated);
    }
  }

  // a test for equality on a symbol that is not boolean is left as it is
  lemma EqualityFixed(e: Expr)
    requires IsEquality(e) && e.lhs.Type() != Boolean
    ensures Transform(e) == e && Transform(Not(e)) == Cmp(Opposite(e.op), e.lhs, e.rhs)
  {
    assert Transform(Not(e)) == TransformNot(e);
  }

  lemma TransformExample(x: Expr, y: Expr, a: Expr, b: Expr)
    requires IsEquality(a) && IsEquality(b) && a.lhs.Type() != Boolean && b.lhs.Type() != Boolean
    requires Transform(x) == Cmp(Opposite(a.op), a.lhs, a.rhs) && Transform(y) == Cmp(Opposite(b.op), b.lhs, b.rhs)
    ensures Transform(Not(Or(x, y))) == And(a, b)
  {
    var l, r := Transform(x), Transform(y);
    EqualityFixed(l);
    EqualityFixed(r);
    assert Transform(Or(x, y)) == Or(l, r);
    assert Transform(Not(Or(x, y))) == TransformNot(Or(l, r)) == Transform(Pushed(OrOp, l, r));
    assert Transform(And(Not(l), Not(r))) == And(Transform(Not(l)), Transform(Not(r)));
  }

  // Two tests on different symbols: a parent with the second, an entry with both
  lemma EliminationExample(a: Expr, b: Expr)
    requires a.Cmp? && b.Cmp? && a.lhs != b.lhs
    ensures EliminateDups(And(a, b)) == And(a, b) && EliminateDups(b) == b
    ensures EliminateEq(And(a, b), b).snd == E_Y
  {
    assert Leaves(AndOp, And(a, b)) == [a, b];
    assert Join(AndOp, a, b).None? && Join(AndOp, b, a).None?;
    assert SettledBelow(AndOp, a) && SettledBelow(AndOp, b);
    SettledUnchanged(And(a, b));
    SettledUnchanged(b);
    EliminationStep(a, b);
  }

  lemma EliminationStep(a: Expr, b: Expr)
    requires a.Cmp? && b.Cmp? && a != b
    ensures EliminateEq(And(a, b), b).snd == E_Y
  {
    assert ExprEq(b, b) && !ExprEq(a, b);
    assert EliminateEq1(AndOp, a, b) == Pair(a, b);
    assert EliminateEq1(AndOp, b, b) == Pair(E_Y, E_Y);
    assert EliminateEq1(AndOp, And(a, b), b) == Pair(And(a, E_Y), E_Y);
  }

  // The symbol t under a NOT: an entry depending on s!=c && !t is nested below a
  // prompt visible if t=n
  lemma NestsNegated(s: Sym, t: Sym, c: Sym)
    requires s.Type() == Tristate && s != t && t.Type() != Boolean && (c == SymY || c == SymM)
    ensures var dep := And(Cmp(Ne, s, c), Not(Leaf(t)));
      Nests(s, Some(Cmp(Eq, t, SymN)), Some(dep)) && !Depends(dep, s)
  {
    var a, b := Cmp(Ne, s, c), Cmp(Eq, t, SymN);
    var dep := And(a, Not(Leaf(t)));
    NegatedTranslated(a, t);
    assert TransCompare(b, true, SymN) == b;
    assert !Depends(a, s) && !Depends(Not(Leaf(t)), s) && !Depends(dep, s);
    hide TransCompare, Nests, Depends;
    NestsExample(s, Cmp(Eq, t, SymN), dep, Not(a), Cmp(Ne, t, SymN), a, b);
  }

  lemma NegatedTranslated(a: Expr, t: Sym)
    requires a.Cmp?
    ensures TransCompare(And(a, Not(Leaf(t))), true, SymN) == Not(Or(Not(a), Cmp(Ne, t, SymN)))
  {
    assert TransCompare(a, false, SymN) == Not(a);
    assert TransCompare(Not(Leaf(t)), false, SymN) == TransCompare(Leaf(t), true, SymN) == Cmp(Ne, t, SymN);
  }

  // The bare symbol t: an entry depending on s!=c && t!=n is nested below a
  // prompt visible if t
  lemma NestsBare(s: Sym, t: Sym, c: Sym)
    requires s.Type() == Tristate && s != t && t.Type() != Boolean && (c == SymY || c == SymM)
    ensures var dep := And(Cmp(Ne, s, c), Cmp(Ne, t, SymN));
      Nests(s, Some(Leaf(t)), Some(dep)) && !Depends(dep, s)
  {
    var a, b := Cmp(Ne, s, c), Cmp(Ne, t, SymN);
    var dep := And(a, b);
    assert TransCompare(a, false, SymN) == Not(a) && TransCompare(b, false, SymN) == Not(b);
    assert TransCompare(dep, true, SymN) == Not(Or(Not(a), Not(b)));
    assert TransCompare(Leaf(t), true, SymN) == b;
    assert !Depends(a, s) && !Depends(b, s) && !Depends(dep, s);
    hide TransCompare, Nests, Depends;
    NestsExample(s, Leaf(t), dep, Not(a), Not(b), a, b);
  }

  lemma NestsExample(s: Sym, base: Expr, dep: Expr, x: Expr, y: Expr, a: Expr, b: Expr)
    requires a.Cmp? && a.op == Ne && a.lhs == s && s.Type() == Tristate && dep.Bin? && dep.left == a
    requires IsEquality(b) && b.lhs != s && b.lhs.Type() != Boolean
    requires TransCompare(dep, true, SymN) == Not(Or(x, y)) && TransCompare(base, true, SymN) == b
    requires x == Not(a) && (y == Not(b) || y == Cmp(Opposite(b.op), b.lhs, b.rhs))
    ensures Nests(s, Some(base), Some(dep))
  {
    var nb := Cmp(Opposite(b.op), b.lhs, b.rhs);
    EqualityFixed(a);
    EqualityFixed(b);
    EqualityFixed(nb);
    assert Contains(dep.left, s) && Contains(dep, s);
    hide TransCompare, Transform, EliminateEq, EliminateDups;
    TransformExample(x, y, a, b);
    EliminationExample(a, b);
    assert Visible(Some(dep)) == And(a, b) && Visible(Some(base)) == b;
  }

  // A value s is not at, so that s!=c is y
  function Other(s: Sym, v: Valuation): Sym { if v.tri(s) == YES then SymM else SymY }

  lemma OtherHolds(s: Sym, v: Valuation)
    requires WellFormed(v) && s.Type() == Tristate
    ensures Value(v, Cmp(Ne, s, Other(s, v))) == YES
  {
    LogicValues(s, v);
  }

  // An entry is visible under a prompt that is not, because of a negated symbol:
  // a tristate symbol at m, or a string whose text is not "n"
  lemma NestsUnsound(s: Sym, t: Sym, v: Valuation)
    requires s.Type() == Tristate && s != t && WellFormed(v) && !t.IsYMN()
    requires !(ReadsN(t, v) && NoneAtM(v, t))
    ensures var base, dep := Cmp(Eq, t, SymN), And(Cmp(Ne, s, Other(s, v)), Not(Leaf(t)));
      && Nests(s, Some(base), Some(dep)) && !Depends(dep, s)
      && Value(v, base) == NO && Value(v, dep) != NO
  {
    NestsNegated(s, t, Other(s, v));
    hide Nests, Depends;
    OtherHolds(s, v);
    assert WellFormedAt(v, t);
    if t.IsLogic() {
      LogicValues(t, v);
    } else {
      CompareText(t, SymN, v);
    }
    assert Value(v, Not(Leaf(t))) != NO;
  }

  // The same because of a bare symbol, with no symbol at m anywhere
  lemma NestsUnsoundBare(s: Sym, t: Sym, v: Valuation)
    requires s.Type() == Tristate && s != t && WellFormed(v) && !ReadsN(t, v)
    ensures var base, dep := Leaf(t), And(Cmp(Ne, s, Other(s, v)), Cmp(Ne, t, SymN));
      && Nests(s, Some(base), Some(dep)) && !Depends(dep, s)
      && Value(v, base) == NO && Value(v, dep) == YES
  {
    NestsBare(s, t, Other(s, v));
    hide Nests, Depends;
    OtherHolds(s, v);
    assert WellFormedAt(v, t);
    CompareText(t, SymN, v);
  }

  // every pair nested by elimination is safe
  ghost predicate NestingSafe(v: Valuation, bare: iset<Sym>, negated: iset<Sym>) {
    forall sym: Sym, base, dep: Dep ::
      Nests(sym, base, dep) && DepOver(base, bare, negated) && DepOver(dep, bare, negated) && !Depends(dep.value, sym)
      ==> (DepValue(v, base) == NO ==> DepValue(v, dep) == NO)
  }

  // Nesting by elimination is safe for all normal expressions over two sets of
  // symbols exactly when the symbols are testable
  lemma NestingExact(v: Valuation, bare: iset<Sym>, negated: iset<Sym>)
    requires WellFormed(v)
    ensures NestingSafe(v, bare, negated) <==> Testable(v, bare, negated)
  {
    if Testable(v, bare, negated) {
      TestableSafe(v, bare, negated);
    } else if t :| t in bare && !ReadsN(t, v) {
      var s: Sym := Var(t.Name() + "_", Tristate);
      NestsUnsoundBare(s, t, v);
      var base, dep := Leaf(t), And(Cmp(Ne, s, Other(s, v)), Cmp(Ne, t, SymN));
      Counterexample(v, bare, negated, s, base, dep);
    } else {
      var t :| t in negated && !(ReadsN(t, v) && NoneAtM(v, t));
      var s: Sym := Var(t.Name() + "_", Tristate);
      NestsUnsound(s, t, v);
      var base, dep := Cmp(Eq, t, SymN), And(Cmp(Ne, s, Other(s, v)), Not(Leaf(t)));
      Counterexample(v, bare, negated, s, base, dep);
    }
  }

  lemma Counterexample(v: Valuation, bare: iset<Sym>, negated: iset<Sym>, sym: Sym, base: Expr, dep: Expr)
    requires Nests(sym, Some(base), Some(dep)) && Over(base, bare, negated) && Over(dep, bare, negated)
    requires !Depends(dep, sym) && Value(v, base) == NO && Value(v, dep) != NO
    ensures !NestingSafe(v, bare, negated)
  {
    var b, d: Dep := Some(base), Some(dep);
    assert Nests(sym, b, d) && DepOver(b, bare, negated) && DepOver(d, bare, negated);
    assert DepValue(v, b) == NO && DepValue(v, d) != NO;
  }

  lemma TestableSafe(v: Valuation, bare: iset<Sym>, negated: iset<Sym>)
    requires WellFormed(v) && Testable(v, bare, negated)
    ensures NestingSafe(v, bare, negated)
  {
    forall sym: Sym, base, dep: Dep |
      Nests(sym, base, dep) && DepOver(base, bare, negated) && DepOver(dep, bare, negated) && !Depends(dep.value, sym)
      ensures DepValue(v, base) == NO ==> DepValue(v, dep) == NO
    {
      if base.Some? {
        OverRead(base.value, bare, negated, v);
      }
      OverRead(dep.value, bare, negated, v);
      NestsSound(sym, base, dep, v);
    }
  }
}
