/** What the expression functions do to the single symbols and comparisons of
    an expression, in their order from left to right. */
module ExprLaws {
  import opened Options
  import opened Tristates
  import opened Exprs
  import opened ExprEquality
  import opened ExprDups
  import opened ExprTransform
  import opened ExprNesting

  // The bare symbols and comparisons of an expression
  function Atoms(e: Expr): (ls: seq<Expr>)
    ensures forall k :: 0 <= k < |ls| ==> ls[k].Leaf? || ls[k].Cmp?
  {
    match e
    case Not(x) => Atoms(x)
    case Bin(_, a, b) => Atoms(a) + Atoms(b)
    case _ => [e]
  }

  // ---------- comparisons ----------

  // a comes before b in the dictionary: after a common part, a ends or has the
  // smaller character
  predicate Before(a: string, b: string) {
    exists k: nat :: SameUpTo(a, b, k) && k < |b| && (k == |a| || a[k] < b[k])
  }

  predicate SameUpTo(a: string, b: string, k: nat) {
    k <= |a| && k <= |b| && forall i :: 0 <= i < k ==> a[i] == b[i]
  }

  lemma BeforeStep(a: string, b: string)
    requires a != [] && b != [] && a[0] == b[0]
    ensures Before(a, b) <==> Before(a[1..], b[1..])
  {
    var x, y := a[1..], b[1..];
    if k: nat :| SameUpTo(a, b, k) && k < |b| && (k == |a| || a[k] < b[k]) {
      assert SameUpTo(x, y, k - 1);
    }
    if k: nat :| SameUpTo(x, y, k) && k < |y| && (k == |x| || x[k] < y[k]) {
      assert SameUpTo(a, b, k + 1) by {
        assert forall i :: 0 <= i < k ==> x[i] == a[i + 1] && y[i] == b[i + 1];
        assert forall i :: 0 < i < k + 1 ==> a[i] == x[i - 1] && b[i] == y[i - 1];
      }
    }
  }

  lemma BeforeDiffers(a: string, b: string)
    requires a == [] || b == [] || a[0] != b[0]
    ensures Before(a, b) <==> b != [] && (a == [] || a[0] < b[0])
  {
    assert SameUpTo(a, b, 0);
  }

  lemma {:induction false} StrCmpOrders(a: string, b: string)
    ensures StrCmp(a, b) < 0 <==> Before(a, b)
    ensures StrCmp(a, b) > 0 <==> Before(b, a)
    ensures StrCmp(a, b) == 0 <==> a == b
  {
    if a == [] || b == [] || a[0] != b[0] {
      BeforeDiffers(a, b);
      BeforeDiffers(b, a);
    } else {
      BeforeStep(a, b);
      BeforeStep(b, a);
      StrCmpOrders(a[1..], b[1..]);
    }
    StrCmpZero(a, b);
  }

  // What each comparison means as soon as one operand is boolean, tristate, y, m
  // or n
  lemma ComparisonMeans(v: Valuation, a: Sym, b: Sym)
    requires a.IsLogic() || b.IsLogic() || a.IsYMN() || b.IsYMN()
    ensures var x, y := StringValue(v, a), StringValue(v, b);
      && Value(v, Cmp(Eq, a, b)) == FromBool(x == y)
      && Value(v, Cmp(Ne, a, b)) == FromBool(x != y)
      && Value(v, Cmp(Lt, a, b)) == FromBool(Before(x, y))
      && Value(v, Cmp(Le, a, b)) == FromBool(Before(x, y) || x == y)
      && Value(v, Cmp(Gt, a, b)) == FromBool(Before(y, x))
      && Value(v, Cmp(Ge, a, b)) == FromBool(Before(y, x) || x == y)
  {
    StrCmpOrders(StringValue(v, a), StringValue(v, b));
    StrCmpOrders(StringValue(v, b), StringValue(v, a));
  }

  // ---------- expr_contains_symbol ----------

  predicate AtomHas(a: Expr, s: Sym) { a == Leaf(s) || (a.Cmp? && (a.lhs == s || a.rhs == s)) }

  lemma {:induction false} ContainsAtom(e: Expr, s: Sym)
    ensures Contains(e, s) <==> exists a :: a in Atoms(e) && AtomHas(a, s)
  {
    match e
    case Leaf(_) => assert e in Atoms(e);
    case Cmp(_, _, _) =>
      assert Atoms(e) == [e] && e in Atoms(e);
      assert AtomHas(e, s) <==> Contains(e, s);
    case Not(x) => ContainsAtom(x, s);
    case Bin(_, a, b) =>
      ContainsAtom(a, s);
      ContainsAtom(b, s);
  }

  ghost predicate AgreeOn(v: Valuation, w: Valuation, e: Expr) {
    && (forall s: Sym :: Contains(e, s) ==> StringValue(v, s) == StringValue(w, s) && v.tri(s) == w.tri(s))
    && (forall s, t: Sym :: Contains(e, s) && Contains(e, t) ==> v.order(s, t) == w.order(s, t))
  }

  // The symbols an expression does not contain do not matter for its value
  lemma {:induction false} ContainsEnough(e: Expr, v: Valuation, w: Valuation)
    requires AgreeOn(v, w, e)
    ensures Value(v, e) == Value(w, e)
  {
    match e
    case Leaf(s) => assert Contains(e, s);
    case Not(x) => ContainsEnough(x, v, w);
    case Cmp(_, s, t) => assert Contains(e, s) && Contains(e, t);
    case Bin(_, a, b) =>
      ContainsEnough(a, v, w);
      ContainsEnough(b, v, w);
  }

  // ---------- joining two terms ----------

  // x, y and z are the symbols y, m and n in some order
  predicate AllThree(x: Sym, y: Sym, z: Sym) {
    x.IsYMN() && y.IsYMN() && z.IsYMN() && x != y && x != z && y != z
  }

  // a and b test s by op, each for another one of y, m and n; r tests s for the
  // third by the other operator
  predicate TestsToThird(s: Sym, op: CmpOp, other: CmpOp, a: Expr, b: Expr, r: Expr) {
    a.Cmp? && b.Cmp? && r.Cmp? && AllThree(a.rhs, b.rhs, r.rhs) &&
    a == Cmp(op, s, a.rhs) && b == Cmp(op, s, b.rhs) && r == Cmp(other, s, r.rhs)
  }

  predicate Either(a: Expr, b: Expr, x: Expr, y: Expr) { (a == x && b == y) || (a == y && b == x) }

  predicate OrJoined(s: Sym, a: Expr, b: Expr, r: Expr) {
    if s.Type() == Tristate then TestsToThird(s, Eq, Ne, a, b, r)
    else s.Type() == Boolean && Either(a, b, Leaf(s), Not(Leaf(s))) && r == E_Y
  }

  // the test x for equality decides the test y for inequality with a constant
  predicate TestDecides(s: Sym, x: Expr, y: Expr, r: Expr) {
    x.Cmp? && y.Cmp? && x.rhs.IsConst() && y.rhs.IsConst() && x == Cmp(Eq, s, x.rhs) && y == Cmp(Ne, s, y.rhs) &&
    r == if x.rhs == y.rhs then E_N else x
  }

  predicate AndJoined(s: Sym, a: Expr, b: Expr, r: Expr) {
    || (Either(a, b, Leaf(s), Cmp(Eq, s, SymY)) && r == Cmp(Eq, s, SymY))
    || (Either(a, b, Leaf(s), Cmp(Ne, s, SymN)) && r == Leaf(s))
    || (Either(a, b, Leaf(s), Cmp(Ne, s, SymM)) && r == Cmp(Eq, s, SymY))
    || (s.Type() == Tristate && (TestDecides(s, a, b, r) || TestDecides(s, b, a, r)))
    || (s.Type() == Tristate && TestsToThird(s, Ne, Eq, a, b, r))
  }

  // Which terms expr_join_or joins, and to what
  lemma JoinOrExact(a: Expr, b: Expr, r: Expr)
    ensures JoinOr(a, b) == Some(r) <==>
      if ExprEq(a, b) then r == a else exists s: Sym :: s.IsLogic() && OrJoined(s, a, b, r)
  {
    hide ExprEq;
    if s: Sym :| s.IsLogic() && OrJoined(s, a, b, r) {
      assert FirstSymbol(a) == Some(s) == SecondSymbol(b);
    }
    if !ExprEq(a, b) && JoinOr(a, b) == Some(r) {
      assert OrJoined(FirstSymbol(a).value, a, b, r);
    }
  }

  // The same for expr_join_and
  lemma JoinAndExact(a: Expr, b: Expr, r: Expr)
    ensures JoinAnd(a, b) == Some(r) <==>
      if ExprEq(a, b) then r == a else exists s: Sym :: s.IsLogic() && AndJoined(s, a, b, r)
  {
    hide ExprEq, AndJoined, JoinAnd;
    if !ExprEq(a, b) {
      if s: Sym :| s.IsLogic() && AndJoined(s, a, b, r) {
        AndJoinedGives(s, a, b, r);
      }
      if JoinAnd(a, b) == Some(r) {
        JoinAndGiven(a, b, r);
      }
    } else {
      assert JoinAnd(a, b) == Some(a) by { EqualJoined(a, b); }
    }
  }

  lemma EqualJoined(a: Expr, b: Expr)
    requires ExprEq(a, b)
    ensures JoinAnd(a, b) == Some(a)
  {
    hide ExprEq;
  }

  lemma AndJoinedGives(s: Sym, a: Expr, b: Expr, r: Expr)
    requires !ExprEq(a, b) && s.IsLogic() && AndJoined(s, a, b, r)
    ensures JoinAnd(a, b) == Some(r)
  {
    hide ExprEq;
    assert FirstSymbol(a) == Some(s) == SecondSymbol(b);
  }

  lemma JoinAndGiven(a: Expr, b: Expr, r: Expr)
    requires !ExprEq(a, b) && JoinAnd(a, b) == Some(r)
    ensures exists s: Sym :: s.IsLogic() && AndJoined(s, a, b, r)
  {
    hide ExprEq;
    assert AndJoined(FirstSymbol(a).value, a, b, r);
  }

  // ---------- which of equal terms expr_eliminate_eq takes ----------

  function Times(ls: seq<Expr>, t: Expr): nat {
    if ls == [] then 0 else Times(ls[..|ls| - 1], t) + if ls[|ls| - 1] == t then 1 else 0
  }

  // term k of ls is one of the first that have a partner in others
  predicate Paired(ls: seq<Expr>, k: nat, others: seq<Expr>)
    requires k < |ls|
  {
    ls[k] != E_Y && ls[k] != E_N && Times(ls[..k], ls[k]) < Times(others, ls[k])
  }

  function Unpaired(op: BinOp, ls: seq<Expr>, others: seq<Expr>): (r: seq<Expr>)
    ensures |r| == |ls|
    ensures forall k :: 0 <= k < |ls| ==> r[k] == if Paired(ls, k, others) then Neutral(op) else ls[k]
  {
    seq(|ls|, k requires 0 <= k < |ls| => if Paired(ls, k, others) then Neutral(op) else ls[k])
  }

  lemma {:induction false} TimesAppend(a: seq<Expr>, b: seq<Expr>, t: Expr)
    ensures Times(a + b, t) == Times(a, t) + Times(b, t)
  {
    if b == [] {
      assert a + b == a;
    } else {
      assert (a + b)[..|a + b| - 1] == a + b[..|b| - 1];
      TimesAppend(a, b[..|b| - 1], t);
    }
  }

  lemma UnpairedPrefix(op: BinOp, ls: seq<Expr>, others: seq<Expr>, k: nat)
    requires k <= |ls|
    ensures Unpaired(op, ls, others)[..k] == Unpaired(op, ls[..k], others)
  {
    hide Times;
    assert forall i :: 0 <= i < k ==> ls[..k][..i] == ls[..i];
  }

  lemma {:induction false} UnpairedTimes(op: BinOp, ls: seq<Expr>, others: seq<Expr>, t: Expr)
    requires t != E_Y && t != E_N
    ensures var n, m := Times(ls, t), Times(others, t);
      Times(Unpaired(op, ls, others), t) == if n > m then n - m else 0
  {
    if ls != [] {
      var n := |ls| - 1;
      UnpairedPrefix(op, ls, others, n);
      UnpairedTimes(op, ls[..n], others, t);
    }
  }

  lemma UnpairedAppend(op: BinOp, a: seq<Expr>, b: seq<Expr>, others: seq<Expr>)
    ensures Unpaired(op, a + b, others) == Unpaired(op, a, others) + Unpaired(op, b, Unpaired(op, others, a))
  {
    hide Times;
    var x, y := Unpaired(op, a + b, others), Unpaired(op, a, others) + Unpaired(op, b, Unpaired(op, others, a));
    forall k | 0 <= k < |a| + |b|
      ensures x[k] == y[k]
    {
      if k < |a| {
        assert (a + b)[..k] == a[..k];
      } else {
        var j := k - |a|;
        assert (a + b)[..k] == a + b[..j] && (a + b)[k] == b[j];
        TimesAppend(a, b[..j], b[j]);
        if b[j] != E_Y && b[j] != E_N {
          UnpairedTimes(op, others, a, b[j]);
        }
      }
    }
  }

  lemma UnpairedTwice(op: BinOp, ls: seq<Expr>, a: seq<Expr>, b: seq<Expr>)
    ensures Unpaired(op, Unpaired(op, ls, a), b) == Unpaired(op, ls, a + b)
  {
    hide Times;
    var once := Unpaired(op, ls, a);
    var x, y := Unpaired(op, once, b), Unpaired(op, ls, a + b);
    forall k | 0 <= k < |ls|
      ensures x[k] == y[k]
    {
      TimesAppend(a, b, ls[k]);
      if ls[k] != E_Y && ls[k] != E_N && !Paired(ls, k, a) {
        UnpairedPrefix(op, ls, a, k);
        UnpairedTimes(op, ls[..k], a, ls[k]);
      }
    }
  }

  // Of two groups of literals each loses, of equal terms, the first as many as
  // the other has
  lemma {:induction false} EliminateEq1First(op: BinOp, a: Expr, b: Expr)
    requires LiteralTree(op, a) && LiteralTree(op, b)
    ensures var r := EliminateEq1(op, a, b);
      && Leaves(op, r.fst) == Unpaired(op, Leaves(op, a), Leaves(op, b))
      && Leaves(op, r.snd) == Unpaired(op, Leaves(op, b), Leaves(op, a))
    decreases Size(a) + Size(b)
  {
    hide Unpaired, Times, ExprEq;
    EliminateEq1Cancels(op, a, b);
    if IsGroup(op, a) {
      var p := EliminateEq1(op, a.left, b);
      var q := EliminateEq1(op, a.right, p.snd);
      EliminateEq1Cancels(op, a.left, b);
      EliminateEq1First(op, a.left, b);
      EliminateEq1First(op, a.right, p.snd);
      GroupLeft(op, a, b, p, q);
      UnpairedAppend(op, Leaves(op, a.left), Leaves(op, a.right), Leaves(op, b));
      UnpairedTwice(op, Leaves(op, b), Leaves(op, a.left), Leaves(op, a.right));
    } else if IsGroup(op, b) {
      var p := EliminateEq1(op, a, b.left);
      var q := EliminateEq1(op, p.fst, b.right);
      EliminateEq1Cancels(op, a, b.left);
      EliminateEq1First(op, a, b.left);
      EliminateEq1First(op, p.fst, b.right);
      GroupRight(op, a, b, p, q);
      UnpairedAppend(op, Leaves(op, b.left), Leaves(op, b.right), Leaves(op, a));
      UnpairedTwice(op, Leaves(op, a), Leaves(op, b.left), Leaves(op, b.right));
    } else {
      OnePair(op, a, b);
    }
  }

  lemma OnePair(op: BinOp, a: Expr, b: Expr)
    requires Literal(a) && Literal(b)
    ensures var r := EliminateEq1(op, a, b);
      Leaves(op, r.fst) == Unpaired(op, [a], [b]) && Leaves(op, r.snd) == Unpaired(op, [b], [a])
  {
    LiteralsEqual(a, b);
    hide ExprEq;
    assert forall x, y :: Times([x], y) == if x == y then 1 else 0 by {
      assert forall x: Expr :: [x][..0] == [];
    }
    assert [a][..0] == [] && [b][..0] == [];
  }

  // ---------- which of equal terms stays ----------

  predicate AllSymbols(ls: seq<Expr>) { forall k :: 0 <= k < |ls| ==> ls[k].Leaf? }

  // what becomes of term k when the terms are compared with those before j
  function After(op: BinOp, ls: seq<Expr>, k: nat, j: nat): Expr
    requires k < |ls| && j <= |ls|
  {
    if exists m :: k < m < j && ls[m] == ls[k] then Neutral(op) else ls[k]
  }

  // the terms when the walk over was has come to the pair (i, j)
  ghost predicate Reached(op: BinOp, was: seq<Expr>, ls: seq<Expr>, i: nat, j: nat) {
    && |ls| == |was| && i <= |was| && j <= |was| && AllSymbols(was)
    && forall k :: 0 <= k < |was| ==>
         ls[k] == if k < i then After(op, was, k, |was|) else if k == i then After(op, was, k, j) else was[k]
  }

  lemma SymbolsJoin(op: BinOp, a: Expr, b: Expr)
    requires a.Leaf? && b.Leaf?
    ensures Join(op, a, b) == if a == b then Some(a) else None
  {
  }

  lemma SymbolsAreTerms(op: BinOp, ls: seq<Expr>)
    requires AllSymbols(ls)
    ensures AreTerms(op, ls, 0)
  {
  }

  lemma ReachedSymbols(op: BinOp, was: seq<Expr>, ls: seq<Expr>, i: nat, j: nat)
    requires Reached(op, was, ls, i, j)
    ensures AllSymbols(ls)
  {
  }

  lemma VisitReached(op: BinOp, was: seq<Expr>, ls: seq<Expr>, i: nat, j: nat)
    requires Reached(op, was, ls, i, j) && i < |was| && j < |was| && AreTerms(op, ls, 0)
    ensures Reached(op, was, Visit(op, ls, i, j, 0).ls, i, j + 1)
  {
    ReachedSymbols(op, was, ls, i, j);
    VisitIs(op, ls, i, j, 0);
    SymbolsJoin(op, ls[i], ls[j]);
    hide Visit, Join;
  }

  lemma {:induction false} WalkReached(op: BinOp, was: seq<Expr>, ls: seq<Expr>, i: nat, j: nat)
    requires Reached(op, was, ls, i, j) && AreTerms(op, ls, 0)
    ensures Reached(op, was, VisitFrom(op, ls, i, j, 0).ls, |was|, 0)
    decreases |was| - i, |was| - j
  {
    hide Visit;
    if i < |ls| {
      if j == |ls| {
        assert Reached(op, was, ls, i + 1, 0);
        WalkReached(op, was, ls, i + 1, 0);
      } else {
        VisitReached(op, was, ls, i, j);
        WalkReached(op, was, Visit(op, ls, i, j, 0).ls, i, j + 1);
      }
    }
  }

  // In a group of symbols the last one of equal terms stays, in its place
  lemma DupsKeepLast(op: BinOp, e: Expr, k: nat)
    requires IsGroup(op, e) && AllSymbols(Leaves(op, e)) && k < |Leaves(op, e)|
    ensures Height(op, e) == 0
    ensures var ls, out := Leaves(op, e), Leaves(op, DupsGroup(op, e, 0).e);
      |out| == |ls| && out[k] == if ls[k] in ls[k + 1..] then Neutral(op) else ls[k]
  {
    var ls := Leaves(op, e);
    SymbolsAreTerms(op, ls);
    LeavesHeight(op, e, 0);
    var w := VisitFrom(op, ls, 0, 0, 0);
    RebuildLeaves(op, e, w.ls);
    WalkReached(op, ls, ls, 0, 0);
    hide VisitFrom, Leaves;
    if ls[k] in ls[k + 1..] {
      var m :| 0 <= m < |ls| - k - 1 && ls[k + 1..][m] == ls[k];
      assert ls[k + 1 + m] == ls[k];
    } else {
      forall m | k < m < |ls|
        ensures ls[m] != ls[k]
      {
        assert ls[k + 1..][m - k - 1] == ls[m];
      }
    }
  }

  // ---------- expr_transform and expr_trans_bool ----------

  // The symbol an atom speaks about, unless it is y, m or n, or becomes one
  function Subject(a: Expr): Option<Sym> {
    match a
    case Leaf(s) => if s.IsYMN() then None else Some(s)
    case Cmp(op, s, t) => if s.Type() == Boolean && (op == Eq || op == Ne) && t == SymM then None else Some(s)
    case _ => None
  }

  function Subjects(e: Expr): seq<Option<Sym>> {
    match e
    case Not(x) => Subjects(x)
    case Bin(_, a, b) => Subjects(a) + Subjects(b)
    case _ => [Subject(e)]
  }

  // Nothing is lost, added or moved
  lemma {:induction false} TransformOrder(e: Expr)
    ensures Subjects(Transform(e)) == Subjects(e)
    decreases Weight(e)
  {
    match e
    case Leaf(_) =>
    case Cmp(_, _, _) =>
    case Bin(op, a, b) =>
      TransformOrder(a);
      TransformOrder(b);
    case Not(x) =>
      var y := Transform(x);
      TransformOrder(x);
      match y
      case Not(z) => TransformOrder(z);
      case Cmp(_, _, _) =>
      case Bin(op, a, b) => TransformOrder(Pushed(op, a, b));
      case Leaf(s) =>
  }

  // a tristate symbol tested for not being n
  predicate TruthTest(a: Expr) { a.Cmp? && a.op == Ne && a.lhs.Type() == Tristate && a.rhs == SymN }

  // expr_trans_bool replaces the truth tests by their symbols and nothing else
  lemma {:induction false} TransBoolAtoms(e: Expr)
    ensures |Atoms(TransBool(e))| == |Atoms(e)|
    ensures forall k :: 0 <= k < |Atoms(e)| ==>
      Atoms(TransBool(e))[k] == if TruthTest(Atoms(e)[k]) then Leaf(Atoms(e)[k].lhs) else Atoms(e)[k]
  {
    match e
    case Not(x) => TransBoolAtoms(x);
    case Bin(_, a, b) =>
      TransBoolAtoms(a);
      TransBoolAtoms(b);
    case _ =>
  }

  // Combined dependencies have no terms left to join, and the visibilities of
  // symbols that are not tristate no truth tests
  lemma CombineSettled(given: Dep, own: Dep)
    requires given.Some? || own.Some?
    ensures Combine(given, own).Some? && Settled(Combine(given, own).value)
  {
    var t := if own.None? then own else Some(Transform(own.value));
    EliminateDupsSettled(AllocAnd(given, t).value);
  }

  // the given condition comes first
  lemma CombineInOrder(given: Expr, own: Expr)
    ensures var e := And(given, Transform(own)); Settled(e) ==> Combine(Some(given), Some(own)) == Some(e)
    ensures Settled(given) ==> Combine(Some(given), None) == Some(given)
    ensures Settled(Transform(own)) ==> Combine(None, Some(own)) == Some(Transform(own))
  {
    var e := And(given, Transform(own));
    if Settled(e) {
      SettledUnchanged(e);
    }
    if Settled(given) {
      SettledUnchanged(given);
    }
    if Settled(Transform(own)) {
      SettledUnchanged(Transform(own));
    }
  }

  lemma PropertyVisibilityForm(parent: Dep, entry: Dep, prop: Dep, tristate: bool)
    ensures var d := PropertyVisibility(parent, entry, prop, tristate);
      && (d.None? <==> parent.None? && entry.None? && prop.None?)
      && (d.Some? && tristate ==> Settled(d.value))
      && (d.Some? && !tristate ==> forall a :: a in Atoms(d.value) ==> !TruthTest(a))
  {
    var d := Combine(Combine(parent, entry), prop);
    if parent.Some? || entry.Some? {
      CombineSettled(parent, entry);
    }
    if d.Some? {
      CombineSettled(Combine(parent, entry), prop);
      TransBoolAtoms(d.value);
    }
  }
}
