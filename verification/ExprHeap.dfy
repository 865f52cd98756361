/** Expressions as linked nodes that are rewritten in place (expr.c). Every
    rewrite is proved to do what the function of the same name does on values. */
module ExprHeap {
  import opened Options
  import opened Exprs
  import ExprEquality
  import ExprDups
  import ExprTransform

  datatype Kind = SYMBOL | NOT | CMP(op: CmpOp) | BIN(bop: BinOp)

  // struct expr; repr holds at least the nodes of the tree
  class Node {
    var kind: Kind
    var leftSym: Sym
    var rightSym: Sym
    var left: Node?
    var right: Node?
    ghost var model: Expr
    ghost var repr: set<Node>

    ghost predicate Valid()
      reads this, repr
      decreases model
    {
      && this in repr
      && match kind
         case SYMBOL => model == Leaf(leftSym)
         case CMP(op) => model == Cmp(op, leftSym, rightSym)
         case NOT =>
           && left != null && left in repr && left.repr <= repr && this !in left.repr
           && model == Not(left.model) && left.Valid()
         case BIN(op) =>
           && left != null && left in repr && left.repr <= repr && this !in left.repr
           && right != null && right in repr && right.repr <= repr && this !in right.repr
           && left.repr !! right.repr
           && model == Bin(op, left.model, right.model) && left.Valid() && right.Valid()
    }

    // two trees below, of which this node's own ghosts may not know yet
    ghost predicate Linked()
      reads this, left, right, if left == null then {} else left.repr, if right == null then {} else right.repr
    {
      && kind.BIN? && left != null && right != null
      && this !in left.repr && this !in right.repr && left.repr !! right.repr
      && left.Valid() && right.Valid()
    }

    // what a valid AND or OR node gives
    lemma Opened()
      requires Valid() && kind.BIN?
      ensures Linked() && left.repr + right.repr + {this} <= repr && model == Bin(kind.bop, left.model, right.model)
    {
    }

    ghost method Link()
      requires Linked()
      modifies this`model, this`repr
      ensures Valid() && repr == {this} + left.repr + right.repr && model == Bin(kind.bop, left.model, right.model)
    {
      model, repr := Bin(kind.bop, left.model, right.model), {this} + left.repr + right.repr;
    }

    // expr_alloc_symbol
    constructor Symbol(s: Sym)
      ensures Valid() && fresh(repr) && model == Leaf(s)
    {
      kind, leftSym, rightSym, left, right := SYMBOL, s, s, null, null;
      model, repr := Leaf(s), {this};
    }

    // expr_alloc_comp
    constructor Comp(op: CmpOp, s: Sym, t: Sym)
      ensures Valid() && fresh(repr) && model == Cmp(op, s, t)
    {
      kind, leftSym, rightSym, left, right := CMP(op), s, t, null, null;
      model, repr := Cmp(op, s, t), {this};
    }

    // expr_alloc_one
    constructor One(e: Node)
      requires e.Valid()
      ensures Valid() && fresh(repr - e.repr) && repr == {this} + e.repr && model == Not(e.model)
    {
      kind, leftSym, rightSym, left, right := NOT, SymY, SymY, e, null;
      model, repr := Not(e.model), {this} + e.repr;
    }

    // expr_alloc_two
    constructor Two(op: BinOp, e1: Node, e2: Node)
      requires e1.Valid() && e2.Valid() && e1.repr !! e2.repr
      ensures Valid() && fresh(repr - e1.repr - e2.repr) && model == Bin(op, e1.model, e2.model)
    {
      kind, leftSym, rightSym, left, right := BIN(op), SymY, SymY, e1, e2;
      model, repr := Bin(op, e1.model, e2.model), {this} + e1.repr + e2.repr;
    }

    // e->type = E_SYMBOL
    method BecomeSymbol(s: Sym)
      modifies this
      ensures Valid() && repr == {this} && model == Leaf(s)
    {
      kind, leftSym, left, right := SYMBOL, s, null, null;
      model, repr := Leaf(s), {this};
    }

    // *this = *e
    method Become(e: Node)
      requires e.Valid() && this !in e.repr
      modifies this
      ensures Valid() && repr == {this} + e.repr && model == e.model
    {
      kind, leftSym, rightSym, left, right := e.kind, e.leftSym, e.rightSym, e.left, e.right;
      model, repr := e.model, {this} + e.repr;
    }

    predicate IsSymbol(s: Sym)
      reads this
    {
      kind == SYMBOL && leftSym == s
    }
  }

  function NeutralSym(op: BinOp): Sym { if op == AndOp then SymY else SymN }

  function AbsorbingSym(op: BinOp): Sym { if op == AndOp then SymN else SymY }

  // expr_copy
  method Copy(org: Node) returns (e: Node)
    requires org.Valid()
    ensures e.Valid() && fresh(e.repr) && e.model == org.model
    decreases org.model
  {
    if org.kind.SYMBOL? {
      e := new Node.Symbol(org.leftSym);
    } else if org.kind.CMP? {
      e := new Node.Comp(org.kind.op, org.leftSym, org.rightSym);
    } else if org.kind.NOT? {
      var l := Copy(org.left);
      e := new Node.One(l);
    } else {
      var l := Copy(org.left);
      var r := Copy(org.right);
      e := new Node.Two(org.kind.bop, l, r);
    }
  }

  // expr_eliminate_yn
  method EliminateYN(e: Node) returns (r: Node)
    requires e.Valid()
    modifies e.repr
    ensures r == e && e.Valid() && e.repr <= old(e.repr)
    ensures e.model == ExprEquality.EliminateYN(old(e.model))
    decreases e.model
  {
    hide ExprEquality.FoldBin;
    r := e;
    if e.kind.BIN? {
      e.left := EliminateYN(e.left);
      e.right := EliminateYN(e.right);
      FoldNode(e);
    }
  }

  // the two switch cases of expr_eliminate_yn
  method FoldNode(e: Node)
    requires e.Linked()
    modifies e
    ensures e.Valid() && e.repr <= {e} + old(e.left.repr) + old(e.right.repr)
    ensures e.model == ExprEquality.FoldBin(old(e.kind.bop), old(e.left.model), old(e.right.model))
  {
    var op := e.kind.bop;
    if e.left.IsSymbol(AbsorbingSym(op)) {
      e.BecomeSymbol(AbsorbingSym(op));
    } else if e.left.IsSymbol(NeutralSym(op)) {
      e.Become(e.right);
    } else if e.right.IsSymbol(AbsorbingSym(op)) {
      e.BecomeSymbol(AbsorbingSym(op));
    } else if e.right.IsSymbol(NeutralSym(op)) {
      e.Become(e.left);
    } else {
      e.Link();
    }
  }

  // expr_trans_bool
  method TransBool(e: Node) returns (r: Node)
    requires e.Valid()
    modifies e.repr
    ensures r == e && e.Valid() && e.repr <= old(e.repr)
    ensures e.model == ExprTransform.TransBool(old(e.model))
    decreases e.model, 1
  {
    r := e;
    if e.kind.NOT? {
      e.left := TransBool(e.left);
      e.model := Not(e.left.model);
    } else if e.kind.BIN? {
      TransBoolBoth(e);
    } else if e.kind == CMP(Ne) && e.leftSym.Type() == Tristate && e.rightSym == SymN {
      e.kind := SYMBOL;
      e.model := Leaf(e.leftSym);
    }
  }

  // both operands of an AND or OR
  method TransBoolBoth(e: Node)
    requires e.Valid() && e.kind.BIN?
    modifies e.repr
    ensures e.Valid() && e.repr <= old(e.repr)
    ensures e.model == ExprTransform.TransBool(old(e.model))
    decreases e.model, 0
  {
    assert ExprTransform.TransBool(e.model) ==
           Bin(e.kind.bop, ExprTransform.TransBool(e.left.model), ExprTransform.TransBool(e.right.model));
    hide ExprTransform.TransBool;
    e.left := TransBool(e.left);
    e.right := TransBool(e.right);
    e.Link();
  }

  // expr_transform
  method Transform(e: Node) returns (r: Node)
    requires e.Valid()
    modifies e.repr
    ensures r.Valid() && fresh(r.repr - old(e.repr))
    ensures r.model == ExprTransform.Transform(old(e.model))
    decreases ExprTransform.Weight(e.model)
  {
    hide ExprTransform.TransformCmp, ExprTransform.TransformNot, ExprTransform.Pushed;
    r := e;
    if e.kind.CMP? {
      TransformCmp(e);
    } else if e.kind.BIN? {
      e.left := Transform(e.left);
      e.right := Transform(e.right);
      e.Link();
    } else if e.kind.NOT? {
      e.left := Transform(e.left);
      r := TransformNot(e);
    }
  }

  // the cases of expr_transform for a NOT over a transformed expression
  method TransformNot(e: Node) returns (r: Node)
    requires e.kind.NOT? && e.left != null && e.left.Valid() && e !in e.left.repr
    modifies e, e.left.repr
    ensures r.Valid() && fresh(r.repr - old(e.left.repr) - {e})
    ensures r.model == ExprTransform.TransformNot(old(e.left.model))
    decreases 2 * ExprTransform.Weight(e.left.model), 0
  {
    hide ExprTransform.Pushed, ExprTransform.Transform;
    var tmp := e.left;
    if tmp.kind.NOT? {
      r := Transform(tmp.left);
    } else if tmp.kind.CMP? {
      tmp.kind := CMP(ExprTransform.Opposite(tmp.kind.op));
      tmp.model := Cmp(tmp.kind.op, tmp.leftSym, tmp.rightSym);
      r := tmp;
    } else if tmp.kind.BIN? {
      PushNot(e);
      r := Transform(e);
    } else if tmp.leftSym == SymY {
      tmp.BecomeSymbol(SymN);
      r := tmp;
    } else if tmp.leftSym == SymM {
      r := tmp;
    } else if tmp.leftSym == SymN {
      tmp.BecomeSymbol(SymY);
      r := tmp;
    } else {
      e.model, e.repr := Not(tmp.model), {e} + tmp.repr;
      r := e;
    }
  }

  // !(a || b) becomes !a && !b, and dually, reusing both nodes
  method PushNot(e: Node)
    requires e.kind.NOT? && e.left != null && e.left.Valid() && e !in e.left.repr && e.left.kind.BIN?
    modifies e, e.left
    ensures e.Valid() && fresh(e.repr - old(e.left.repr) - {e})
    ensures e.model == ExprTransform.Pushed(old(e.left.model.bop), old(e.left.model.left), old(e.left.model.right))
  {
    var tmp := e.left;
    ghost var op, a, b := tmp.kind.bop, tmp.model.left, tmp.model.right;
    assert ExprTransform.Pushed(op, a, b) == Bin(Dual(op), Not(a), Not(b));
    hide ExprTransform.Pushed;
    e.kind := BIN(Dual(tmp.kind.bop));
    e.right := new Node.One(tmp.right);
    tmp.kind := NOT;
    tmp.right := null;
    tmp.model, tmp.repr := Not(tmp.left.model), {tmp} + tmp.left.repr;
    assert tmp.Valid() && e.right.Valid() && tmp.repr !! e.right.repr;
    e.Link();
  }

  // the comparison cases of expr_transform
  method TransformCmp(e: Node)
    requires e.Valid() && e.kind.CMP?
    modifies e.repr
    ensures e.Valid() && fresh(e.repr - old(e.repr))
    ensures e.model == ExprTransform.TransformCmp(old(e.model))
  {
    var op := e.kind.op;
    if e.leftSym.Type() != Boolean || (op != Eq && op != Ne) {
      return;
    }
    if e.rightSym == (if op == Eq then SymN else SymY) {
      e.kind := NOT;
      e.left := new Node.Symbol(e.leftSym);
      e.model, e.repr := Not(e.left.model), {e} + e.left.repr;
    } else if e.rightSym == SymM {
      e.BecomeSymbol(if op == Eq then SymN else SymY);
    } else if e.rightSym == (if op == Eq then SymY else SymN) {
      e.BecomeSymbol(e.leftSym);
    }
  }

  class Rewriter {
    // the number of changes made so far
    var transCount: nat

    constructor ()
      ensures transCount == 0
    {
      transCount := 0;
    }

    // __expr_eliminate_eq. A node that is freed and replaced through a
    // struct expr ** is overwritten with its replacement instead.
    method EliminateEq1(op: BinOp, e1: Node, e2: Node)
      requires e1.Valid() && e2.Valid() && e1.repr !! e2.repr
      modifies this, e1.repr, e2.repr
      ensures e1.Valid() && e1.repr <= old(e1.repr) && e2.Valid() && e2.repr <= old(e2.repr)
      ensures ExprEquality.Pair(e1.model, e2.model) == ExprEquality.EliminateEq1(op, old(e1.model), old(e2.model))
      decreases Size(e1.model) + Size(e2.model), 2 * ExprEquality.Rank(op, e1.model, e2.model), 1
    {
      if e1.kind == BIN(op) {
        EliminateLeft(op, e1, e2);
      } else if e2.kind == BIN(op) {
        EliminateRight(op, e1, e2);
      } else {
        EliminateTerms(op, e1, e2);
      }
    }

    // the operands of e1 one after the other
    method EliminateLeft(op: BinOp, e1: Node, e2: Node)
      requires e1.Valid() && e2.Valid() && e1.repr !! e2.repr && e1.kind == BIN(op)
      modifies this, e1.repr, e2.repr
      ensures e1.Valid() && e1.repr <= old(e1.repr) && e2.Valid() && e2.repr <= old(e2.repr)
      ensures ExprEquality.Pair(e1.model, e2.model) == ExprEquality.EliminateEq1(op, old(e1.model), old(e2.model))
      decreases Size(e1.model) + Size(e2.model), 0, 0
    {
      ghost var p := ExprEquality.EliminateEq1(op, e1.model.left, e2.model);
      ghost var q := ExprEquality.EliminateEq1(op, e1.model.right, p.snd);
      hide ExprEquality.EliminateEq1;
      ExprEquality.GroupLeft(op, e1.model, e2.model, p, q);
      EliminateEq1(op, e1.left, e2);
      EliminateEq1(op, e1.right, e2);
      e1.Link();
    }

    // e1 against the operands of e2
    method EliminateRight(op: BinOp, e1: Node, e2: Node)
      requires e1.Valid() && e2.Valid() && e1.repr !! e2.repr && e1.kind != BIN(op) && e2.kind == BIN(op)
      modifies this, e1.repr, e2.repr
      ensures e1.Valid() && e1.repr <= old(e1.repr) && e2.Valid() && e2.repr <= old(e2.repr)
      ensures ExprEquality.Pair(e1.model, e2.model) == ExprEquality.EliminateEq1(op, old(e1.model), old(e2.model))
      decreases Size(e1.model) + Size(e2.model), 0, 0
    {
      ghost var p := ExprEquality.EliminateEq1(op, e1.model, e2.model.left);
      ghost var q := ExprEquality.EliminateEq1(op, p.fst, e2.model.right);
      hide ExprEquality.EliminateEq1;
      ExprEquality.GroupRight(op, e1.model, e2.model, p, q);
      EliminateEq1(op, e1, e2.left);
      EliminateEq1(op, e1, e2.right);
      e2.Link();
    }

    // two terms that are not op-groups
    method EliminateTerms(op: BinOp, e1: Node, e2: Node)
      requires e1.Valid() && e2.Valid() && e1.repr !! e2.repr && e1.kind != BIN(op) && e2.kind != BIN(op)
      modifies this, e1, e2
      ensures e1.Valid() && e1.repr <= old(e1.repr) && e2.Valid() && e2.repr <= old(e2.repr)
      ensures ExprEquality.Pair(e1.model, e2.model) == ExprEquality.EliminateEq1(op, old(e1.model), old(e2.model))
      decreases Size(e1.model) + Size(e2.model), 5, 0
    {
      if e1.kind.SYMBOL? && e2.kind.SYMBOL? && e1.leftSym == e2.leftSym && (e1.leftSym == SymY || e1.leftSym == SymN) {
        return;
      }
      var same := Equal(e1, e2);
      if !same {
        return;
      }
      transCount := transCount + 1;
      e1.BecomeSymbol(NeutralSym(op));
      e2.BecomeSymbol(NeutralSym(op));
    }

    // expr_eliminate_eq
    method EliminateEq(e1: Node, e2: Node)
      requires e1.Valid() && e2.Valid() && e1.repr !! e2.repr
      modifies this, e1.repr, e2.repr
      ensures e1.Valid() && e1.repr <= old(e1.repr) && e2.Valid() && e2.repr <= old(e2.repr)
      ensures ExprEquality.Pair(e1.model, e2.model) == ExprEquality.EliminateEq(old(e1.model), old(e2.model))
      decreases Size(e1.model) + Size(e2.model), 2, 0
    {
      ghost var a, b := e1.model, e2.model;
      ghost var p := if a.Bin? then ExprEquality.EliminateEq1(a.bop, a, b) else ExprEquality.Pair(a, b);
      ghost var q := if p.snd.Bin? && !ExprEquality.IsGroup(p.snd.bop, p.fst)
                     then ExprEquality.EliminateEq1(p.snd.bop, p.fst, p.snd) else p;
      hide ExprEquality.EliminateEq1, ExprEquality.EliminateYN;
      if e1.kind.BIN? {
        EliminateEq1(e1.kind.bop, e1, e2);
      }
      assert e1.model == p.fst && e2.model == p.snd;
      if e1.kind != e2.kind && e2.kind.BIN? {
        EliminateEq1(e2.kind.bop, e1, e2);
      }
      assert e1.model == q.fst && e2.model == q.snd;
      var _ := EliminateYN(e1);
      var _ := EliminateYN(e2);
    }

    // expr_eq
    method Equal(e1: Node, e2: Node) returns (res: bool)
      requires e1.Valid() && e2.Valid()
      modifies this
      ensures res == ExprEquality.ExprEq(e1.model, e2.model) && transCount == old(transCount)
      decreases Size(e1.model) + Size(e2.model), 4, 0
    {
      if e1.kind != e2.kind {
        res := false;
      } else if e1.kind.CMP? {
        res := e1.leftSym == e2.leftSym && e1.rightSym == e2.rightSym;
      } else if e1.kind.SYMBOL? {
        res := e1.leftSym == e2.leftSym;
      } else if e1.kind.NOT? {
        res := Equal(e1.left, e2.left);
      } else {
        res := EqualGroups(e1, e2);
      }
    }

    // copies of two groups are cut down as far as they agree
    method EqualGroups(e1: Node, e2: Node) returns (res: bool)
      requires e1.Valid() && e2.Valid() && e1.kind == e2.kind && e1.kind.BIN?
      modifies this
      ensures res == ExprEquality.ExprEq(e1.model, e2.model) && transCount == old(transCount)
      decreases Size(e1.model) + Size(e2.model), 3, 0
    {
      ghost var p := ExprEquality.EliminateEq(e1.model, e2.model);
      assert ExprEquality.ExprEq(e1.model, e2.model) <==> p.fst.Leaf? && p.snd.Leaf? && p.fst.sym == p.snd.sym;
      hide ExprEquality.EliminateEq, ExprEquality.ExprEq;
      var c1 := Copy(e1);
      var c2 := Copy(e2);
      var oldCount := transCount;
      EliminateEq(c1, c2);
      res := c1.kind.SYMBOL? && c2.kind.SYMBOL? && c1.leftSym == c2.leftSym;
      transCount := oldCount;
    }

    // expr_join_or; null if there is nothing to join
    method JoinOr(e1: Node, e2: Node) returns (tmp: Node?)
      requires e1.Valid() && e2.Valid()
      modifies this
      ensures transCount == old(transCount) && IsNew(tmp, ExprDups.JoinOr(e1.model, e2.model))
    {
      tmp := null;
      var same := Equal(e1, e2);
      if same {
        tmp := Copy(e1);
        return;
      }
      var sym1, sym2 := FirstSymbol(e1), SecondSymbol(e2);
      if sym1.None? || sym1 != sym2 || !sym1.value.IsLogic() {
        return;
      }
      var s := sym1.value;
      if s.Type() == Tristate {
        if Compared(e1, e2, Eq, SymY, SymM) {
          tmp := new Node.Comp(Ne, s, SymN);
        } else if Compared(e1, e2, Eq, SymY, SymN) {
          tmp := new Node.Comp(Ne, s, SymM);
        } else if Compared(e1, e2, Eq, SymM, SymN) {
          tmp := new Node.Comp(Ne, s, SymY);
        }
      } else if (e1.kind.NOT? && e1.left.kind.SYMBOL? && e2.kind.SYMBOL?)
             || (e2.kind.NOT? && e2.left.kind.SYMBOL? && e1.kind.SYMBOL?) {
        tmp := new Node.Symbol(SymY);
      }
    }

    // expr_join_and
    method JoinAnd(e1: Node, e2: Node) returns (tmp: Node?)
      requires e1.Valid() && e2.Valid()
      modifies this
      ensures transCount == old(transCount) && IsNew(tmp, ExprDups.JoinAnd(e1.model, e2.model))
    {
      tmp := null;
      var same := Equal(e1, e2);
      if same {
        tmp := Copy(e1);
        return;
      }
      var sym1, sym2 := FirstSymbol(e1), SecondSymbol(e2);
      if sym1.None? || sym1 != sym2 || !sym1.value.IsLogic() {
        return;
      }
      var s := sym1.value;
      if SymbolAnd(e1, e2, Eq, SymY) {
        tmp := new Node.Comp(Eq, s, SymY);
      } else if SymbolAnd(e1, e2, Ne, SymN) {
        tmp := new Node.Symbol(s);
      } else if SymbolAnd(e1, e2, Ne, SymM) {
        tmp := new Node.Comp(Eq, s, SymY);
      } else if s.Type() == Tristate {
        tmp := JoinTests(e1, e2, s);
      }
    }

    // the second half of expr_join_and: two tests of one tristate symbol
    method JoinTests(e1: Node, e2: Node, s: Sym) returns (tmp: Node?)
      requires e1.Valid() && e2.Valid() && s.Type() == Tristate
      requires ExprDups.SameLogicSymbol(e1.model, e2.model) && ExprDups.FirstSymbol(e1.model) == Some(s)
      requires !ExprEquality.ExprEq(e1.model, e2.model)
      requires !SymbolAnd(e1, e2, Eq, SymY) && !SymbolAnd(e1, e2, Ne, SymN) && !SymbolAnd(e1, e2, Ne, SymM)
      ensures IsNew(tmp, ExprDups.JoinAnd(e1.model, e2.model))
    {
      tmp := null;
      if e1.kind == CMP(Eq) && e2.kind == CMP(Ne) && e1.rightSym.IsConst() && e2.rightSym.IsConst() {
        if e1.rightSym != e2.rightSym {
          tmp := new Node.Comp(Eq, s, e1.rightSym);
        } else {
          tmp := new Node.Symbol(SymN);
        }
      } else if e1.kind == CMP(Ne) && e2.kind == CMP(Eq) && e1.rightSym.IsConst() && e2.rightSym.IsConst() {
        if e2.rightSym != e1.rightSym {
          tmp := new Node.Comp(Eq, s, e2.rightSym);
        } else {
          tmp := new Node.Symbol(SymN);
        }
      } else if Compared(e1, e2, Ne, SymY, SymN) {
        tmp := new Node.Comp(Eq, s, SymM);
      } else if Compared(e1, e2, Ne, SymY, SymM) {
        tmp := new Node.Comp(Eq, s, SymN);
      } else if Compared(e1, e2, Ne, SymM, SymN) {
        tmp := new Node.Comp(Eq, s, SymY);
      }
    }

    method Join(op: BinOp, e1: Node, e2: Node) returns (tmp: Node?)
      requires e1.Valid() && e2.Valid()
      modifies this
      ensures transCount == old(transCount) && IsNew(tmp, ExprDups.Join(op, e1.model, e2.model))
    {
      if op == OrOp {
        tmp := JoinOr(e1, e2);
      } else {
        tmp := JoinAnd(e1, e2);
      }
    }
  }

  twostate predicate IsNew(new tmp: Node?, r: Option<Expr>)
    reads tmp, if tmp == null then {} else tmp.repr
  {
    if tmp == null then r.None? else tmp.Valid() && fresh(tmp.repr) && r == Some(tmp.model)
  }

  function FirstSymbol(e: Node): (s: Option<Sym>)
    requires e.Valid()
    reads e, e.repr
    ensures s == ExprDups.FirstSymbol(e.model)
  {
    if e.kind == NOT then
      assert e.left.Valid() && e.model == Not(e.left.model);
      if e.left.kind in {SYMBOL, CMP(Eq), CMP(Ne)} then Some(e.left.leftSym) else None
    else if e.kind in {SYMBOL, CMP(Eq), CMP(Ne)} then Some(e.leftSym)
    else None
  }

  function SecondSymbol(e: Node): (s: Option<Sym>)
    requires e.Valid()
    reads e, e.repr
    ensures s == ExprDups.SecondSymbol(e.model)
  {
    if e.kind == NOT then
      assert e.left.Valid() && e.model == Not(e.left.model);
      if e.left.kind == SYMBOL then Some(e.left.leftSym) else None
    else if e.kind in {SYMBOL, CMP(Eq), CMP(Ne)} then Some(e.leftSym)
    else None
  }

  predicate Compared(e1: Node, e2: Node, op: CmpOp, c: Sym, d: Sym)
    requires e1.Valid() && e2.Valid()
    reads e1, e2, e1.repr, e2.repr
    ensures Compared(e1, e2, op, c, d) == ExprDups.Compared(e1.model, e2.model, op, c, d)
  {
    e1.kind == CMP(op) && e2.kind == CMP(op) &&
    ((e1.rightSym == c && e2.rightSym == d) || (e1.rightSym == d && e2.rightSym == c))
  }

  predicate SymbolAnd(e1: Node, e2: Node, op: CmpOp, c: Sym)
    requires e1.Valid() && e2.Valid()
    reads e1, e2, e1.repr, e2.repr
    ensures SymbolAnd(e1, e2, op, c) == ExprDups.SymbolAnd(e1.model, e2.model, op, c)
  {
    (e1.kind == SYMBOL && e2.kind == CMP(op) && e2.rightSym == c) ||
    (e2.kind == SYMBOL && e1.kind == CMP(op) && e1.rightSym == c)
  }
}
