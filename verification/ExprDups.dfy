/** Joining redundant terms of AND and OR groups
    (expr_join_or, expr_join_and, expr_eliminate_dups1, expr_eliminate_dups). */
module ExprDups {
  import opened Options
  import opened Tristates
  import opened Exprs
  import opened ExprEquality

  // ---------- joining two terms ----------

  predicate IsEquality(e: Expr) { e.Cmp? && (e.op == Eq || e.op == Ne) }

  // The symbol each operand speaks about; the tests on the two operands differ
  function FirstSymbol(e: Expr): Option<Sym> {
    match e
    case Leaf(s) => Some(s)
    case Cmp(_, s, _) => if IsEquality(e) then Some(s) else None
    case Not(Leaf(s)) => Some(s)
    case Not(Cmp(_, s, _)) => if IsEquality(e.e) then Some(s) else None
    case _ => None
  }

  function SecondSymbol(e: Expr): Option<Sym> {
    match e
    case Leaf(s) => Some(s)
    case Cmp(_, s, _) => if IsEquality(e) then Some(s) else None
    case Not(Leaf(s)) => Some(s)
    case _ => None
  }

  // both terms speak about the same boolean or tristate symbol
  predicate SameLogicSymbol(a: Expr, b: Expr) {
    var s, t := FirstSymbol(a), SecondSymbol(b);
    s.Some? && t.Some? && s.value == t.value && s.value.IsLogic()
  }

  // one term is a bare symbol, the other a comparison op with c
  predicate SymbolAnd(a: Expr, b: Expr, op: CmpOp, c: Sym) {
    (a.Leaf? && b.Cmp? && b.op == op && b.rhs == c) || (b.Leaf? && a.Cmp? && a.op == op && a.rhs == c)
  }

  predicate Compared(a: Expr, b: Expr, op: CmpOp, c: Sym, d: Sym) {
    a.Cmp? && b.Cmp? && a.op == op && b.op == op &&
    ((a.rhs == c && b.rhs == d) || (a.rhs == d && b.rhs == c))
  }

  // expr_join_or
  function JoinOr(a: Expr, b: Expr): Option<Expr> {
    if ExprEq(a, b) then Some(a)
    else if !SameLogicSymbol(a, b) then None
    else
      var s := FirstSymbol(a).value;
      if s.Type() == Tristate then
        if Compared(a, b, Eq, SymY, SymM) then Some(Cmp(Ne, s, SymN))
        else if Compared(a, b, Eq, SymY, SymN) then Some(Cmp(Ne, s, SymM))
        else if Compared(a, b, Eq, SymM, SymN) then Some(Cmp(Ne, s, SymY))
        else None
      else if (a.Not? && a.e.Leaf? && b.Leaf?) || (b.Not? && b.e.Leaf? && a.Leaf?) then Some(E_Y)
      else None
  }

  // expr_join_and
  function JoinAnd(a: Expr, b: Expr): Option<Expr> {
    if ExprEq(a, b) then Some(a)
    else if !SameLogicSymbol(a, b) then None
    else
      var s := FirstSymbol(a).value;
      if SymbolAnd(a, b, Eq, SymY) then Some(Cmp(Eq, s, SymY))
      else if SymbolAnd(a, b, Ne, SymN) then Some(Leaf(s))
      else if SymbolAnd(a, b, Ne, SymM) then Some(Cmp(Eq, s, SymY))
      else if s.Type() != Tristate then None
      else if a.Cmp? && b.Cmp? && a.op == Eq && b.op == Ne && a.rhs.IsConst() && b.rhs.IsConst() then
        Some(if a.rhs != b.rhs then Cmp(Eq, s, a.rhs) else E_N)
      else if a.Cmp? && b.Cmp? && a.op == Ne && b.op == Eq && a.rhs.IsConst() && b.rhs.IsConst() then
        Some(if b.rhs != a.rhs then Cmp(Eq, s, b.rhs) else E_N)
      else if Compared(a, b, Ne, SymY, SymN) then Some(Cmp(Eq, s, SymM))
      else if Compared(a, b, Ne, SymY, SymM) then Some(Cmp(Eq, s, SymN))
      else if Compared(a, b, Ne, SymM, SymN) then Some(Cmp(Eq, s, SymY))
      else None
  }

  function Join(op: BinOp, a: Expr, b: Expr): Option<Expr> {
    if op == OrOp then JoinOr(a, b) else JoinAnd(a, b)
  }

  // Number of terms that are neither y nor n
  function Mass(e: Expr): nat {
    match e
    case Bin(_, a, b) => Mass(a) + Mass(b)
    case _ => if e == E_Y || e == E_N then 0 else 1
  }

  lemma JoinOrValue(a: Expr, b: Expr, v: Valuation)
    requires WellFormed(v) && JoinOr(a, b).Some?
    ensures Value(v, JoinOr(a, b).value) == Max(Value(v, a), Value(v, b))
  {
    WellFormedFixesYN(v);
    if ExprEq(a, b) {
      ExprEqSoundAt(a, b, v);
    } else {
      LogicValues(FirstSymbol(a).value, v);
    }
  }

  lemma JoinAndValue(a: Expr, b: Expr, v: Valuation)
    requires WellFormed(v) && JoinAnd(a, b).Some?
    ensures Value(v, JoinAnd(a, b).value) == Min(Value(v, a), Value(v, b))
  {
    WellFormedFixesYN(v);
    if ExprEq(a, b) {
      ExprEqSoundAt(a, b, v);
    } else {
      JoinSymbolAndValue(a, b, v);
    }
  }

  lemma JoinSymbolAndValue(a: Expr, b: Expr, v: Valuation)
    requires WellFormed(v) && JoinAnd(a, b).Some? && !ExprEq(a, b)
    ensures Value(v, JoinAnd(a, b).value) == Min(Value(v, a), Value(v, b))
  {
    if a.Cmp? && b.Cmp? {
      JoinTestsAndValue(a, b, v);
    } else {
      hide ExprEq;
      WellFormedFixesYN(v);
      LogicValues(FirstSymbol(a).value, v);
    }
  }

  lemma JoinTestsAndValue(a: Expr, b: Expr, v: Valuation)
    requires WellFormed(v) && JoinAnd(a, b).Some? && !ExprEq(a, b) && a.Cmp? && b.Cmp?
    ensures Value(v, JoinAnd(a, b).value) == Min(Value(v, a), Value(v, b))
  {
    hide ExprEq;
    WellFormedFixesYN(v);
    var s := FirstSymbol(a).value;
    LogicValues(s, v);
    if a.rhs.IsConst() && b.rhs.IsConst() {
      CompareLogic(v, s, a.rhs);
      CompareLogic(v, s, b.rhs);
    }
  }

  lemma LogicValues(s: Sym, v: Valuation)
    requires WellFormed(v) && s.IsLogic()
    ensures Compare(v, s, SymY) == 0 <==> v.tri(s) == YES
    ensures Compare(v, s, SymM) == 0 <==> v.tri(s) == MOD
    ensures Compare(v, s, SymN) == 0 <==> v.tri(s) == NO
    ensures s.Type() == Boolean ==> v.tri(s) != MOD
  {
    assert WellFormedAt(v, s) && WellFormedAt(v, SymY) && WellFormedAt(v, SymM) && WellFormedAt(v, SymN);
    CompareLogic(v, s, SymY);
    CompareLogic(v, s, SymM);
    CompareLogic(v, s, SymN);
  }

  lemma JoinMass(op: BinOp, a: Expr, b: Expr)
    requires Join(op, a, b).Some?
    ensures Mass(Join(op, a, b).value) <= Mass(a) + Mass(b)
    ensures Mass(a) > 0 && Mass(b) > 0 ==> Mass(Join(op, a, b).value) < Mass(a) + Mass(b)
  {
    if !ExprEq(a, b) {
      assert !FirstSymbol(a).value.SymY? && !FirstSymbol(a).value.SymN?;
      assert Mass(a) == 1 && Mass(b) == 1;
    }
  }

  // ---------- the pairwise walk over one group ----------

  // A group is its sequence of terms, from left to right, plus the shape that
  // holds them. The walk only ever overwrites terms, so a pointer to a term is
  // its position in the sequence.

  function Leaves(op: BinOp, e: Expr): (ls: seq<Expr>)
    ensures |ls| >= 1
    ensures forall k :: 0 <= k < |ls| ==> !IsGroup(op, ls[k])
  {
    if IsGroup(op, e) then Leaves(op, e.left) + Leaves(op, e.right) else [e]
  }

  // e with its terms replaced
  function Rebuild(op: BinOp, e: Expr, ls: seq<Expr>): Expr
    requires |ls| == |Leaves(op, e)|
  {
    if IsGroup(op, e) then
      var n := |Leaves(op, e.left)|;
      Bin(op, Rebuild(op, e.left, ls[..n]), Rebuild(op, e.right, ls[n..]))
    else ls[0]
  }

  // How deeply groups alternate below an op-group
  function Height(op: BinOp, e: Expr): nat
    decreases e, if IsGroup(op, e) then 0 else 1
  {
    if IsGroup(op, e) then
      var l, r := Height(op, e.left), Height(op, e.right);
      if l > r then l else r
    else if e.Bin? then 1 + Height(e.bop, e)
    else 0
  }

  predicate AreTerms(op: BinOp, ls: seq<Expr>, h: nat) {
    forall k :: 0 <= k < |ls| ==> !IsGroup(op, ls[k]) && Height(op, ls[k]) <= h
  }

  lemma {:induction false} LeavesHeight(op: BinOp, e: Expr, h: nat)
    ensures Height(op, e) <= h <==> AreTerms(op, Leaves(op, e), h)
  {
    if IsGroup(op, e) {
      LeavesHeight(op, e.left, h);
      LeavesHeight(op, e.right, h);
      var l, r := Leaves(op, e.left), Leaves(op, e.right);
      assert forall k :: 0 <= k < |l| ==> (l + r)[k] == l[k];
      assert forall k :: 0 <= k < |r| ==> (l + r)[|l| + k] == r[k];
    } else {
      assert Leaves(op, e)[0] == e;
    }
  }

  lemma {:induction false} RebuildLeaves(op: BinOp, e: Expr, ls: seq<Expr>)
    requires |ls| == |Leaves(op, e)|
    requires forall k :: 0 <= k < |ls| ==> !IsGroup(op, ls[k])
    ensures Leaves(op, Rebuild(op, e, ls)) == ls
    ensures ls == Leaves(op, e) ==> Rebuild(op, e, ls) == e
  {
    if IsGroup(op, e) {
      var l, r := Leaves(op, e.left), Leaves(op, e.right);
      var n := |l|;
      var a, b := ls[..n], ls[n..];
      assert ls == a + b;
      RebuildLeaves(op, e.left, a);
      RebuildLeaves(op, e.right, b);
      var d := Bin(op, Rebuild(op, e.left, a), Rebuild(op, e.right, b));
      assert Rebuild(op, e, ls) == d && Leaves(op, d) == a + b && Leaves(op, e) == l + r;
      hide Rebuild, Leaves;
      if ls == l + r {
        assert a == l && b == r;
      }
    }
  }

  // The terms after visiting one ordered pair, and the number of joins made
  datatype Walk = Walk(ls: seq<Expr>, joins: nat)

  // One pair (i, j): first the group below term i is walked against itself,
  // then the two terms are joined into position j if they can be
  function Visit(op: BinOp, ls: seq<Expr>, i: nat, j: nat, ghost h: nat): (w: Walk)
    requires i < |ls| && j < |ls| && AreTerms(op, ls, h)
    ensures |w.ls| == |ls| && AreTerms(op, w.ls, h)
    decreases h, 0, 0, 0
  {
    if i == j then Walk(ls, 0)
    else
      var x := ls[i];
      var d := if x.Bin? then DupsGroup(x.bop, x, h - 1) else Dups(x, 0);
      match Join(op, d.e, ls[j])
      case Some(r) => JoinTerm(op, d.e, ls[j], h); Walk(ls[i := Neutral(op)][j := r], d.joins + 1)
      case None => Walk(ls[i := d.e], d.joins)
  }

  lemma JoinTerm(op: BinOp, a: Expr, b: Expr, h: nat)
    requires Join(op, a, b).Some? && !IsGroup(op, a) && Height(op, a) <= h
    ensures !IsGroup(op, Join(op, a, b).value) && Height(op, Join(op, a, b).value) <= h
  {
  }

  // All pairs from (i, j) on, row by row
  function VisitFrom(op: BinOp, ls: seq<Expr>, i: nat, j: nat, ghost h: nat): (w: Walk)
    requires i <= |ls| && j <= |ls| && AreTerms(op, ls, h)
    ensures |w.ls| == |ls| && AreTerms(op, w.ls, h)
    decreases h, 1, |ls| - i, |ls| - j
  {
    if i == |ls| then Walk(ls, 0)
    else if j == |ls| then VisitFrom(op, ls, i + 1, 0, h)
    else
      var w := Visit(op, ls, i, j, h);
      var w' := VisitFrom(op, w.ls, i, j + 1, h);
      Walk(w'.ls, w.joins + w'.joins)
  }

  datatype Dups = Dups(e: Expr, joins: nat)

  // expr_eliminate_dups1(op, &e, &e) on an op-group
  function DupsGroup(op: BinOp, e: Expr, ghost h: nat): (d: Dups)
    requires IsGroup(op, e) && Height(op, e) <= h
    ensures IsGroup(op, d.e) && Height(op, d.e) <= h
    decreases h, 2, 0, 0
  {
    LeavesHeight(op, e, h);
    var w := VisitFrom(op, Leaves(op, e), 0, 0, h);
    RebuildLeaves(op, e, w.ls);
    LeavesHeight(op, Rebuild(op, e, w.ls), h);
    Dups(Rebuild(op, e, w.ls), w.joins)
  }

  // what the walk below a term gives
  ghost function Below(op: BinOp, ls: seq<Expr>, i: nat, h: nat): (d: Dups)
    requires AreTerms(op, ls, h) && i < |ls|
  {
    if ls[i].Bin? then DupsGroup(ls[i].bop, ls[i], h - 1) else Dups(ls[i], 0)
  }

  lemma VisitIs(op: BinOp, ls: seq<Expr>, i: nat, j: nat, h: nat)
    requires AreTerms(op, ls, h) && i < |ls| && j < |ls|
    ensures Visit(op, ls, i, j, h) ==
      if i == j then Walk(ls, 0)
      else
        var d := Below(op, ls, i, h);
        match Join(op, d.e, ls[j])
        case Some(r) => Walk(ls[i := Neutral(op)][j := r], d.joins + 1)
        case None => Walk(ls[i := d.e], d.joins)
  {
  }

  // ---------- the walk preserves the value ----------

  // The value of a group, term by term
  function Fold(op: BinOp, ls: seq<Expr>, v: Valuation): Tri {
    if |ls| == 0 then Unit(op) else Apply(op, Value(v, ls[0]), Fold(op, ls[1..], v))
  }

  function Unit(op: BinOp): Tri { if op == AndOp then YES else NO }

  // The same with terms i and j left out
  function FoldBut(op: BinOp, ls: seq<Expr>, i: int, j: int, v: Valuation): Tri {
    if |ls| == 0 then Unit(op)
    else
      var rest := FoldBut(op, ls[1..], i - 1, j - 1, v);
      if i == 0 || j == 0 then rest else Apply(op, Value(v, ls[0]), rest)
  }

  lemma {:induction false} FoldAppend(op: BinOp, a: seq<Expr>, b: seq<Expr>, v: Valuation)
    ensures Fold(op, a + b, v) == Apply(op, Fold(op, a, v), Fold(op, b, v))
  {
    if a == [] {
      assert a + b == b;
    } else {
      assert (a + b)[1..] == a[1..] + b;
      FoldAppend(op, a[1..], b, v);
    }
  }

  lemma {:induction false} GroupValue(op: BinOp, e: Expr, v: Valuation)
    ensures Value(v, e) == Fold(op, Leaves(op, e), v)
  {
    if IsGroup(op, e) {
      GroupValue(op, e.left, v);
      GroupValue(op, e.right, v);
      FoldAppend(op, Leaves(op, e.left), Leaves(op, e.right), v);
    }
  }

  lemma ApplyLaws(op: BinOp, a: Tri, b: Tri, c: Tri)
    ensures Apply(op, Apply(op, a, b), c) == Apply(op, a, Apply(op, b, c)) == Apply(op, b, Apply(op, a, c))
    ensures Apply(op, Unit(op), a) == a
  {
    if op == AndOp {}
  }

  // Pull one term (j < 0) or two terms out of the fold
  lemma {:induction false} FoldOne(op: BinOp, ls: seq<Expr>, i: nat, j: int, v: Valuation)
    requires i < |ls| && j < 0
    ensures Fold(op, ls, v) == Apply(op, Value(v, ls[i]), FoldBut(op, ls, i, j, v))
    ensures FoldBut(op, ls, i, j, v) == FoldBut(op, ls, j, i, v)
  {
    if i == 0 {
      FoldNone(op, ls[1..], i - 1, j - 1, v);
    } else {
      FoldOne(op, ls[1..], i - 1, j - 1, v);
    }
  }

  lemma {:induction false} FoldNone(op: BinOp, ls: seq<Expr>, i: int, j: int, v: Valuation)
    requires i < 0 && j < 0
    ensures Fold(op, ls, v) == FoldBut(op, ls, i, j, v) == FoldBut(op, ls, j, i, v)
  {
    if ls != [] {
      FoldNone(op, ls[1..], i - 1, j - 1, v);
    }
  }

  lemma FoldStep(op: BinOp, ls: seq<Expr>, i: nat, j: nat, v: Valuation)
    requires ls != []
    ensures var rest := FoldBut(op, ls[1..], i - 1, j - 1, v);
      && Fold(op, ls, v) == Apply(op, Value(v, ls[0]), Fold(op, ls[1..], v))
      && FoldBut(op, ls, i, j, v) == if i == 0 || j == 0 then rest else Apply(op, Value(v, ls[0]), rest)
  {
  }

  lemma {:induction false} FoldTwo(op: BinOp, ls: seq<Expr>, i: nat, j: nat, v: Valuation)
    requires i < |ls| && j < |ls| && i != j
    ensures Fold(op, ls, v) == Apply(op, Apply(op, Value(v, ls[i]), Value(v, ls[j])), FoldBut(op, ls, i, j, v))
  {
    hide *;
    FoldStep(op, ls, i, j, v);
    var x, rest := Value(v, ls[0]), FoldBut(op, ls[1..], i - 1, j - 1, v);
    if i == 0 {
      FoldOne(op, ls[1..], j - 1, i - 1, v);
      ApplyLaws(op, x, Value(v, ls[j]), rest);
    } else if j == 0 {
      FoldOne(op, ls[1..], i - 1, j - 1, v);
      ApplyLaws(op, Value(v, ls[i]), x, rest);
    } else {
      FoldTwo(op, ls[1..], i - 1, j - 1, v);
      ApplyLaws(op, x, Apply(op, Value(v, ls[i]), Value(v, ls[j])), rest);
    }
  }

  lemma {:induction false} FoldButIgnores(op: BinOp, ls: seq<Expr>, ms: seq<Expr>, i: int, j: int, v: Valuation)
    requires |ls| == |ms| && forall k :: 0 <= k < |ls| && k != i && k != j ==> ls[k] == ms[k]
    ensures FoldBut(op, ls, i, j, v) == FoldBut(op, ms, i, j, v)
  {
    if ls != [] {
      FoldButIgnores(op, ls[1..], ms[1..], i - 1, j - 1, v);
    }
  }

  // Two terms may be overwritten if together they keep their value
  lemma FoldReplace(op: BinOp, ls: seq<Expr>, ms: seq<Expr>, i: nat, j: nat, v: Valuation)
    requires i < |ls| == |ms| && j < |ls| && i != j
    requires forall k :: 0 <= k < |ls| && k != i && k != j ==> ls[k] == ms[k]
    requires Apply(op, Value(v, ms[i]), Value(v, ms[j])) == Apply(op, Value(v, ls[i]), Value(v, ls[j]))
    ensures Fold(op, ms, v) == Fold(op, ls, v)
  {
    FoldTwo(op, ls, i, j, v);
    FoldTwo(op, ms, i, j, v);
    FoldButIgnores(op, ls, ms, i, j, v);
  }

  lemma NeutralValue(op: BinOp, a: Tri, v: Valuation)
    requires WellFormed(v)
    ensures Apply(op, Value(v, Neutral(op)), a) == a
  {
    WellFormedFixesYN(v);
    ApplyLaws(op, a, a, a);
  }

  lemma JoinValue(op: BinOp, a: Expr, b: Expr, v: Valuation)
    requires WellFormed(v) && Join(op, a, b).Some?
    ensures Value(v, Join(op, a, b).value) == Apply(op, Value(v, a), Value(v, b))
  {
    if op == OrOp {
      JoinOrValue(a, b, v);
    } else {
      JoinAndValue(a, b, v);
    }
  }

  lemma {:induction false} VisitValue(op: BinOp, ls: seq<Expr>, i: nat, j: nat, h: nat, v: Valuation)
    requires i < |ls| && j < |ls| && AreTerms(op, ls, h) && WellFormed(v)
    ensures Fold(op, Visit(op, ls, i, j, h).ls, v) == Fold(op, ls, v)
    decreases h, 0, 0, 0
  {
    if i != j {
      var x := ls[i];
      if x.Bin? {
        DupsGroupValue(x.bop, x, h - 1, v);
      }
      var d := if x.Bin? then DupsGroup(x.bop, x, h - 1) else Dups(x, 0);
      var ms := Visit(op, ls, i, j, h).ls;
      assert Value(v, d.e) == Value(v, x);
      if Join(op, d.e, ls[j]).Some? {
        JoinValue(op, d.e, ls[j], v);
        NeutralValue(op, Apply(op, Value(v, x), Value(v, ls[j])), v);
      }
      assert Apply(op, Value(v, ms[i]), Value(v, ms[j])) == Apply(op, Value(v, x), Value(v, ls[j]));
      FoldReplace(op, ls, ms, i, j, v);
    }
  }

  lemma {:induction false} VisitFromValue(op: BinOp, ls: seq<Expr>, i: nat, j: nat, h: nat, v: Valuation)
    requires i <= |ls| && j <= |ls| && AreTerms(op, ls, h) && WellFormed(v)
    ensures Fold(op, VisitFrom(op, ls, i, j, h).ls, v) == Fold(op, ls, v)
    decreases h, 1, |ls| - i, |ls| - j
  {
    hide Visit, Fold, AreTerms;
    if i < |ls| {
      if j == |ls| {
        VisitFromValue(op, ls, i + 1, 0, h, v);
      } else {
        VisitValue(op, ls, i, j, h, v);
        VisitFromValue(op, Visit(op, ls, i, j, h).ls, i, j + 1, h, v);
      }
    }
  }

  lemma {:induction false} DupsGroupValue(op: BinOp, e: Expr, h: nat, v: Valuation)
    requires IsGroup(op, e) && Height(op, e) <= h && WellFormed(v)
    ensures Value(v, DupsGroup(op, e, h).e) == Value(v, e)
    decreases h, 2, 0, 0
  {
    var ls := Leaves(op, e);
    LeavesHeight(op, e, h);
    var w := VisitFrom(op, ls, 0, 0, h);
    VisitFromValue(op, ls, 0, 0, h, v);
    RebuildLeaves(op, e, w.ls);
    GroupValue(op, e, v);
    GroupValue(op, Rebuild(op, e, w.ls), v);
  }

  // ---------- a pass that joins something makes the expression smaller ----------

  function MassSum(ls: seq<Expr>): nat {
    if |ls| == 0 then 0 else Mass(ls[0]) + MassSum(ls[1..])
  }

  predicate Solid(e: Expr) { Folded(e) && e != E_Y && e != E_N }

  predicate AllSolid(ls: seq<Expr>) { forall k :: 0 <= k < |ls| ==> Solid(ls[k]) }

  lemma {:induction false} SolidMass(e: Expr)
    requires Solid(e)
    ensures Mass(e) > 0
  {
    if e.Bin? {
      SolidMass(e.left);
    }
  }

  lemma {:induction false} MassSumUpdate(ls: seq<Expr>, i: nat, x: Expr)
    requires i < |ls|
    ensures MassSum(ls[i := x]) == MassSum(ls) - Mass(ls[i]) + Mass(x)
  {
    if i == 0 {
      assert ls[i := x][1..] == ls[1..];
    } else {
      assert ls[i := x][1..] == ls[1..][i - 1 := x];
      MassSumUpdate(ls[1..], i - 1, x);
    }
  }

  lemma {:induction false} MassSumAppend(a: seq<Expr>, b: seq<Expr>)
    ensures MassSum(a + b) == MassSum(a) + MassSum(b)
  {
    if a == [] {
      assert a + b == b;
    } else {
      assert (a + b)[1..] == a[1..] + b;
      MassSumAppend(a[1..], b);
    }
  }

  lemma {:induction false} GroupMass(op: BinOp, e: Expr)
    ensures Mass(e) == MassSum(Leaves(op, e))
    ensures Solid(e) ==> AllSolid(Leaves(op, e))
  {
    if IsGroup(op, e) {
      GroupMass(op, e.left);
      GroupMass(op, e.right);
      MassSumAppend(Leaves(op, e.left), Leaves(op, e.right));
    } else {
      assert Leaves(op, e)[1..] == [];
    }
  }

  lemma {:induction false} EliminateYNMass(e: Expr)
    ensures Mass(EliminateYN(e)) <= Mass(e)
  {
    if e.Bin? {
      EliminateYNMass(e.left);
      EliminateYNMass(e.right);
    }
  }

  // What a walk did to its terms
  predicate Shrunk(ls: seq<Expr>, w: Walk) {
    && MassSum(w.ls) <= MassSum(ls)
    && (w.joins > 0 && AllSolid(ls) ==> MassSum(w.ls) < MassSum(ls))
    && (w.joins == 0 ==> w.ls == ls)
  }

  // a term and what is left of it
  predicate Pruned(x: Expr, d: Dups) {
    && Mass(d.e) <= Mass(x)
    && (d.joins > 0 && Folded(x) ==> Mass(d.e) < Mass(x))
    && (d.joins == 0 ==> d.e == x)
  }

  lemma {:induction false} BelowShrinks(op: BinOp, ls: seq<Expr>, i: nat, h: nat)
    requires i < |ls| && AreTerms(op, ls, h)
    ensures Pruned(ls[i], Below(op, ls, i, h))
    decreases h, 0, 0, 0
  {
    if ls[i].Bin? {
      DupsGroupShrinks(ls[i].bop, ls[i], h - 1);
    }
  }

  lemma {:induction false} VisitShrinks(op: BinOp, ls: seq<Expr>, i: nat, j: nat, h: nat)
    requires i < |ls| && j < |ls| && AreTerms(op, ls, h)
    ensures Shrunk(ls, Visit(op, ls, i, j, h))
    decreases h, 0, 0, 1
  {
    hide Visit, Below, Join, Pruned, Shrunk;
    VisitIs(op, ls, i, j, h);
    if i != j {
      var d := Below(op, ls, i, h);
      BelowShrinks(op, ls, i, h);
      match Join(op, d.e, ls[j])
      case Some(r) => JoinedShrinks(op, ls, i, j, d, r);
      case None => PrunedShrinks(ls, i, d);
    } else {
      NothingShrinks(ls);
    }
  }

  lemma NothingShrinks(ls: seq<Expr>)
    ensures Shrunk(ls, Walk(ls, 0))
  {
  }

  lemma PrunedShrinks(ls: seq<Expr>, i: nat, d: Dups)
    requires i < |ls| && Pruned(ls[i], d)
    ensures Shrunk(ls, Walk(ls[i := d.e], d.joins))
  {
    MassSumUpdate(ls, i, d.e);
  }

  lemma JoinedShrinks(op: BinOp, ls: seq<Expr>, i: nat, j: nat, d: Dups, r: Expr)
    requires i < |ls| && j < |ls| && i != j && Pruned(ls[i], d) && Join(op, d.e, ls[j]) == Some(r)
    ensures Shrunk(ls, Walk(ls[i := Neutral(op)][j := r], d.joins + 1))
  {
    JoinMass(op, d.e, ls[j]);
    hide Join;
    MassSumUpdate(ls, i, Neutral(op));
    MassSumUpdate(ls[i := Neutral(op)], j, r);
    if AllSolid(ls) {
      SolidMass(ls[i]);
      SolidMass(ls[j]);
    }
  }

  lemma {:induction false} VisitFromShrinks(op: BinOp, ls: seq<Expr>, i: nat, j: nat, h: nat)
    requires i <= |ls| && j <= |ls| && AreTerms(op, ls, h)
    ensures Shrunk(ls, VisitFrom(op, ls, i, j, h))
    decreases h, 1, |ls| - i, |ls| - j
  {
    if i < |ls| {
      if j == |ls| {
        VisitFromShrinks(op, ls, i + 1, 0, h);
      } else {
        VisitShrinks(op, ls, i, j, h);
        VisitFromShrinks(op, Visit(op, ls, i, j, h).ls, i, j + 1, h);
      }
    }
  }

  lemma {:induction false} DupsGroupShrinks(op: BinOp, e: Expr, h: nat)
    requires IsGroup(op, e) && Height(op, e) <= h
    ensures var d := DupsGroup(op, e, h);
      && Mass(d.e) <= Mass(e)
      && (d.joins > 0 && Folded(e) ==> Mass(d.e) < Mass(e))
      && (d.joins == 0 ==> d.e == e)
    decreases h, 2, 0, 0
  {
    var ls := Leaves(op, e);
    LeavesHeight(op, e, h);
    VisitFromShrinks(op, ls, 0, 0, h);
    var w := VisitFrom(op, ls, 0, 0, h);
    RebuildLeaves(op, e, w.ls);
    GroupMass(op, e);
    GroupMass(op, Rebuild(op, e, w.ls));
  }

  // ---------- a pass that joins nothing proves there is nothing to join ----------

  // No two terms of any group on the spine can be joined
  predicate Settled(e: Expr)
    decreases e, 1
  {
    e.Bin? ==>
      && Unjoinable(e.bop, Leaves(e.bop, e))
      && SettledBelow(e.bop, e)
  }

  predicate Unjoinable(op: BinOp, ls: seq<Expr>) {
    forall i, j :: 0 <= i < |ls| && 0 <= j < |ls| && i != j ==> Join(op, ls[i], ls[j]).None?
  }

  predicate SettledBelow(op: BinOp, e: Expr)
    decreases e, if IsGroup(op, e) then 0 else 2
  {
    if IsGroup(op, e) then SettledBelow(op, e.left) && SettledBelow(op, e.right) else Settled(e)
  }

  lemma {:induction false} AllSettledBelow(op: BinOp, e: Expr)
    requires forall k :: 0 <= k < |Leaves(op, e)| ==> Settled(Leaves(op, e)[k])
    ensures SettledBelow(op, e)
  {
    if IsGroup(op, e) {
      var l, r := Leaves(op, e.left), Leaves(op, e.right);
      forall k | 0 <= k < |l| ensures Settled(l[k]) {
        assert Leaves(op, e)[k] == l[k];
      }
      forall k | 0 <= k < |r| ensures Settled(r[k]) {
        assert Leaves(op, e)[|l| + k] == r[k];
      }
      AllSettledBelow(op, e.left);
      AllSettledBelow(op, e.right);
    } else {
      assert Leaves(op, e)[0] == e;
    }
  }

  // A walk without joins visited every later pair on the same terms
  lemma {:induction false} QuietVisits(op: BinOp, ls: seq<Expr>, i: nat, j: nat, h: nat, k: nat, l: nat)
    requires i <= |ls| && j <= |ls| && AreTerms(op, ls, h) && VisitFrom(op, ls, i, j, h).joins == 0
    requires k < |ls| && l < |ls| && (i < k || (i == k && j <= l))
    ensures Visit(op, ls, k, l, h).joins == 0
    decreases |ls| - i, |ls| - j
  {
    if j == |ls| {
      QuietVisits(op, ls, i + 1, 0, h, k, l);
    } else if !(i == k && j == l) {
      VisitShrinks(op, ls, i, j, h);
      QuietVisits(op, ls, i, j + 1, h, k, l);
    }
  }

  lemma {:induction false} QuietGroupSettled(op: BinOp, e: Expr, h: nat)
    requires IsGroup(op, e) && Height(op, e) <= h && DupsGroup(op, e, h).joins == 0
    ensures Settled(e)
    decreases h
  {
    var ls := Leaves(op, e);
    LeavesHeight(op, e, h);
    forall i, j | 0 <= i < |ls| && 0 <= j < |ls| && i != j
      ensures Join(op, ls[i], ls[j]).None?
    {
      QuietVisits(op, ls, 0, 0, h, i, j);
      if ls[i].Bin? {
        DupsGroupShrinks(ls[i].bop, ls[i], h - 1);
      }
    }
    forall k | 0 <= k < |ls| ensures Settled(ls[k]) {
      if ls[k].Bin? {
        QuietVisits(op, ls, 0, 0, h, k, if k == 0 then 1 else 0);
        QuietGroupSettled(ls[k].bop, ls[k], h - 1);
      }
    }
    AllSettledBelow(op, e);
  }

  lemma {:induction false} SettledLeaves(op: BinOp, e: Expr)
    requires SettledBelow(op, e)
    ensures forall k :: 0 <= k < |Leaves(op, e)| ==> Settled(Leaves(op, e)[k])
  {
    if IsGroup(op, e) {
      SettledLeaves(op, e.left);
      SettledLeaves(op, e.right);
    }
  }

  lemma {:induction false} PairQuiet(op: BinOp, ls: seq<Expr>, i: nat, j: nat, h: nat)
    requires i < |ls| && j < |ls| && AreTerms(op, ls, h) && Unjoinable(op, ls)
    requires forall k :: 0 <= k < |ls| ==> Settled(ls[k])
    ensures Visit(op, ls, i, j, h) == Walk(ls, 0)
    decreases h, 0, 0, 0
  {
    hide Visit, Join, Settled;
    VisitIs(op, ls, i, j, h);
    if i != j && ls[i].Bin? {
      SettledQuiet(ls[i].bop, ls[i], h - 1);
    }
    BelowShrinks(op, ls, i, h);
  }

  lemma {:induction false} UnjoinableQuiet(op: BinOp, ls: seq<Expr>, i: nat, j: nat, h: nat)
    requires i <= |ls| && j <= |ls| && AreTerms(op, ls, h) && Unjoinable(op, ls)
    requires forall k :: 0 <= k < |ls| ==> Settled(ls[k])
    ensures VisitFrom(op, ls, i, j, h).joins == 0
    decreases h, 1, |ls| - i, |ls| - j
  {
    if i < |ls| {
      if j == |ls| {
        UnjoinableQuiet(op, ls, i + 1, 0, h);
      } else {
        PairQuiet(op, ls, i, j, h);
        hide Visit, Unjoinable, Settled, AreTerms;
        UnjoinableQuiet(op, ls, i, j + 1, h);
      }
    }
  }

  lemma {:induction false} SettledQuiet(op: BinOp, e: Expr, h: nat)
    requires IsGroup(op, e) && Height(op, e) <= h && Settled(e)
    ensures DupsGroup(op, e, h).joins == 0
    decreases h, 2, 0, 0
  {
    LeavesHeight(op, e, h);
    SettledLeaves(op, e);
    UnjoinableQuiet(op, Leaves(op, e), 0, 0, h);
  }

  // ---------- expr_eliminate_dups ----------

  function Pass(e: Expr): Dups {
    if e.Bin? then DupsGroup(e.bop, e, Height(e.bop, e)) else Dups(e, 0)
  }

  function Folding(e: Expr): nat { if Folded(e) then 0 else 1 }

  lemma PassShrinks(e: Expr)
    requires Pass(e).joins > 0
    ensures Mass(EliminateYN(Pass(e).e)) <= Mass(e) && Folded(EliminateYN(Pass(e).e))
    ensures Folded(e) ==> Mass(EliminateYN(Pass(e).e)) < Mass(e)
  {
    DupsGroupShrinks(e.bop, e, Height(e.bop, e));
    EliminateYNMass(Pass(e).e);
    EliminateYNFolds(Pass(e).e);
  }

  function EliminateDups(e: Expr): Expr
    decreases Folding(e), Mass(e)
  {
    if Pass(e).joins == 0 then e
    else PassShrinks(e); EliminateDups(EliminateYN(Pass(e).e))
  }

  lemma {:induction false} EliminateDupsValue(e: Expr, v: Valuation)
    requires WellFormed(v)
    ensures Value(v, EliminateDups(e)) == Value(v, e)
    decreases Folding(e), Mass(e)
  {
    if Pass(e).joins > 0 {
      PassShrinks(e);
      DupsGroupValue(e.bop, e, Height(e.bop, e), v);
      WellFormedFixesYN(v);
      EliminateYNValue(Pass(e).e, v);
      EliminateDupsValue(EliminateYN(Pass(e).e), v);
    }
  }

  lemma SettledUnchanged(e: Expr)
    requires Settled(e)
    ensures EliminateDups(e) == e
  {
    if e.Bin? {
      SettledQuiet(e.bop, e, Height(e.bop, e));
    }
  }

  lemma EliminateDupsIdempotent(e: Expr)
    ensures EliminateDups(EliminateDups(e)) == EliminateDups(e)
  {
    EliminateDupsSettled(e);
    SettledUnchanged(EliminateDups(e));
  }

  lemma {:induction false} EliminateDupsSettled(e: Expr)
    ensures Settled(EliminateDups(e))
    decreases Folding(e), Mass(e)
  {
    if Pass(e).joins > 0 {
      PassShrinks(e);
      EliminateDupsSettled(EliminateYN(Pass(e).e));
    } else if e.Bin? {
      QuietGroupSettled(e.bop, e, Height(e.bop, e));
    }
  }
}
