/** Every expression compares equal to itself (expr_eq), so that no term is left
    twice in a group (expr_eliminate_dups). */
module ExprSelf {
  import opened Options
  import opened Exprs
  import opened ExprEquality
  import opened ExprDups

  predicate YN(e: Expr) { e == E_Y || e == E_N }

  // a term once it has been matched
  function BlankTerm(op: BinOp, t: Expr): Expr { if YN(t) then t else Neutral(op) }

  // the group with its first n terms matched
  function BlankTo(op: BinOp, e: Expr, n: nat): Expr {
    if IsGroup(op, e) then
      var k := |Leaves(op, e.left)|;
      Bin(op, BlankTo(op, e.left, n), BlankTo(op, e.right, if n < k then 0 else n - k))
    else if n == 0 then e
    else BlankTerm(op, e)
  }

  lemma {:induction false} BlankNone(op: BinOp, e: Expr)
    ensures BlankTo(op, e, 0) == e
  {
    if IsGroup(op, e) {
      BlankNone(op, e.left);
      BlankNone(op, e.right);
    }
  }

  lemma {:induction false} BlankMore(op: BinOp, e: Expr, n: nat)
    requires n >= |Leaves(op, e)|
    ensures BlankTo(op, e, n) == BlankTo(op, e, |Leaves(op, e)|)
  {
    if IsGroup(op, e) {
      var k, m := |Leaves(op, e.left)|, |Leaves(op, e.right)|;
      BlankMore(op, e.left, n);
      BlankMore(op, e.left, k + m);
      BlankMore(op, e.right, n - k);
    }
  }

  // y and n match nothing
  lemma {:induction false} YNUnmatched(op: BinOp, s: Expr, b: Expr)
    requires YN(s)
    ensures EliminateEq1(op, s, b) == Pair(s, b)
  {
    if IsGroup(op, b) {
      YNUnmatched(op, s, b.left);
      YNUnmatched(op, s, b.right);
    }
  }

  // any other term matches none of the terms matched before
  lemma {:induction false} BlankUnmatched(op: BinOp, t: Expr, q: Expr, n: nat)
    requires !YN(t) && !IsGroup(op, t) && n >= |Leaves(op, q)|
    ensures EliminateEq1(op, t, BlankTo(op, q, n)) == Pair(t, BlankTo(op, q, n))
  {
    if IsGroup(op, q) {
      BlankUnmatched(op, t, q.left, n);
      BlankUnmatched(op, t, q.right, n - |Leaves(op, q.left)|);
    }
  }

  // the term at lo matches itself in the other tree and nothing else
  lemma {:induction false} TermMatched(op: BinOp, q: Expr, lo: nat)
    requires lo < |Leaves(op, q)| && ExprEq(Leaves(op, q)[lo], Leaves(op, q)[lo])
    ensures var t := Leaves(op, q)[lo];
      EliminateEq1(op, t, BlankTo(op, q, lo)) == Pair(BlankTerm(op, t), BlankTo(op, q, lo + 1))
  {
    var t := Leaves(op, q)[lo];
    if IsGroup(op, q) {
      var k := |Leaves(op, q.left)|;
      var u := BlankTerm(op, t);
      if lo < k {
        assert t == Leaves(op, q.left)[lo];
        TermMatched(op, q.left, lo);
        BlankNone(op, q.right);
        assert BlankTo(op, q, lo) == Bin(op, BlankTo(op, q.left, lo), q.right);
        assert BlankTo(op, q, lo + 1) == Bin(op, BlankTo(op, q.left, lo + 1), q.right);
        hide EliminateEq1, BlankTo, ExprEq;
        YNUnmatched(op, u, q.right);
        GroupRight(op, t, BlankTo(op, q, lo), Pair(u, BlankTo(op, q.left, lo + 1)), Pair(u, q.right));
      } else {
        assert t == Leaves(op, q.right)[lo - k];
        TermMatched(op, q.right, lo - k);
        BlankMore(op, q.left, lo);
        BlankMore(op, q.left, lo + 1);
        var l := BlankTo(op, q.left, lo);
        assert BlankTo(op, q, lo) == Bin(op, l, BlankTo(op, q.right, lo - k));
        assert BlankTo(op, q, lo + 1) == Bin(op, l, BlankTo(op, q.right, lo + 1 - k));
        hide EliminateEq1, BlankTo, ExprEq;
        if YN(t) {
          YNUnmatched(op, t, l);
        } else {
          BlankUnmatched(op, t, q.left, lo);
        }
        GroupRight(op, t, BlankTo(op, q, lo), Pair(t, l), Pair(u, BlankTo(op, q.right, lo + 1 - k)));
      }
    }
  }

  // a is the part of w from lo on
  predicate PartOf(op: BinOp, w: Expr, a: Expr, lo: nat) {
    lo + |Leaves(op, a)| <= |Leaves(op, w)| && Leaves(op, w)[lo..lo + |Leaves(op, a)|] == Leaves(op, a)
  }

  predicate TermsEqualSelf(op: BinOp, w: Expr) {
    forall k :: 0 <= k < |Leaves(op, w)| ==> ExprEq(Leaves(op, w)[k], Leaves(op, w)[k])
  }

  lemma SliceSplit(s: seq<Expr>, lo: nat, a: seq<Expr>, b: seq<Expr>)
    requires lo + |a + b| <= |s| && s[lo..lo + |a + b|] == a + b
    ensures s[lo..lo + |a|] == a && s[lo + |a|..lo + |a| + |b|] == b
  {
    var whole := s[lo..lo + |a + b|];
    assert s[lo..lo + |a|] == whole[..|a|] == a;
    assert s[lo + |a|..lo + |a| + |b|] == whole[|a|..] == b;
  }

  lemma PartSplit(op: BinOp, w: Expr, a: Expr, lo: nat)
    requires PartOf(op, w, a, lo) && IsGroup(op, a)
    ensures PartOf(op, w, a.left, lo) && PartOf(op, w, a.right, lo + |Leaves(op, a.left)|)
  {
    var l, r := Leaves(op, a.left), Leaves(op, a.right);
    assert Leaves(op, a) == l + r;
    hide Leaves;
    SliceSplit(Leaves(op, w), lo, l, r);
  }

  lemma PartTerm(op: BinOp, w: Expr, a: Expr, lo: nat)
    requires PartOf(op, w, a, lo) && !IsGroup(op, a) && TermsEqualSelf(op, w)
    ensures lo < |Leaves(op, w)| && Leaves(op, w)[lo] == a && |Leaves(op, a)| == 1 && ExprEq(a, a)
    ensures BlankTo(op, a, 1) == BlankTerm(op, a)
  {
    assert Leaves(op, w)[lo..lo + 1][0] == Leaves(op, w)[lo];
  }

  lemma BlankGroup(op: BinOp, a: Expr)
    requires IsGroup(op, a)
    ensures |Leaves(op, a)| == |Leaves(op, a.left)| + |Leaves(op, a.right)|
    ensures BlankTo(op, a, |Leaves(op, a)|) ==
            Bin(op, BlankTo(op, a.left, |Leaves(op, a.left)|), BlankTo(op, a.right, |Leaves(op, a.right)|))
  {
    BlankMore(op, a.left, |Leaves(op, a)|);
  }

  lemma {:induction false} PartMatched(op: BinOp, w: Expr, a: Expr, lo: nat)
    requires PartOf(op, w, a, lo) && TermsEqualSelf(op, w)
    ensures EliminateEq1(op, a, BlankTo(op, w, lo)) ==
            Pair(BlankTo(op, a, |Leaves(op, a)|), BlankTo(op, w, lo + |Leaves(op, a)|))
    decreases a
  {
    hide EliminateEq1, BlankTo, BlankTerm, ExprEq, TermsEqualSelf, PartOf, Leaves;
    if IsGroup(op, a) {
      PartSplit(op, w, a, lo);
      BlankGroup(op, a);
      var k, m := |Leaves(op, a.left)|, |Leaves(op, a.right)|;
      PartMatched(op, w, a.left, lo);
      PartMatched(op, w, a.right, lo + k);
      GroupLeft(op, a, BlankTo(op, w, lo), Pair(BlankTo(op, a.left, k), BlankTo(op, w, lo + k)),
                Pair(BlankTo(op, a.right, m), BlankTo(op, w, lo + k + m)));
    } else {
      PartTerm(op, w, a, lo);
      TermMatched(op, w, lo);
    }
  }

  // a group of y and n folds to one of them
  lemma {:induction false} BlankFolds(op: BinOp, e: Expr, n: nat)
    requires n >= |Leaves(op, e)|
    ensures YN(EliminateYN(BlankTo(op, e, n)))
  {
    if IsGroup(op, e) {
      BlankFolds(op, e.left, n);
      BlankFolds(op, e.right, n - |Leaves(op, e.left)|);
    }
  }

  lemma {:induction false} LeavesSmaller(op: BinOp, e: Expr, k: nat)
    requires k < |Leaves(op, e)|
    ensures Size(Leaves(op, e)[k]) <= Size(e) && (IsGroup(op, e) ==> Size(Leaves(op, e)[k]) < Size(e))
  {
    if IsGroup(op, e) {
      var n := |Leaves(op, e.left)|;
      if k < n {
        LeavesSmaller(op, e.left, k);
      } else {
        LeavesSmaller(op, e.right, k - n);
      }
    }
  }

  lemma WholeMatched(op: BinOp, e: Expr)
    requires TermsEqualSelf(op, e)
    ensures var b := BlankTo(op, e, |Leaves(op, e)|); EliminateEq1(op, e, e) == Pair(b, b)
  {
    hide EliminateEq1, BlankTo, ExprEq, TermsEqualSelf, Leaves;
    BlankNone(op, e);
    assert Leaves(op, e)[0..|Leaves(op, e)|] == Leaves(op, e);
    PartMatched(op, e, e, 0);
  }

  lemma GroupEqualsSelf(e: Expr)
    requires e.Bin? && TermsEqualSelf(e.bop, e)
    ensures ExprEq(e, e)
  {
    hide EliminateEq1, TermsEqualSelf, EliminateYN, Leaves;
    var op, n := e.bop, |Leaves(e.bop, e)|;
    var b := BlankTo(op, e, n);
    assert IsGroup(op, b);
    WholeMatched(op, e);
    BlankFolds(op, e, n);
    assert EliminateEq(e, e) == Pair(EliminateYN(b), EliminateYN(b));
  }

  // expr_eq answers 1 for an expression and its copy
  lemma {:induction false} EqualSelf(e: Expr)
    ensures ExprEq(e, e)
    decreases Size(e)
  {
    match e
    case Not(x) => EqualSelf(x);
    case Bin(op, _, _) =>
      forall k | 0 <= k < |Leaves(op, e)|
        ensures ExprEq(Leaves(op, e)[k], Leaves(op, e)[k])
      {
        LeavesSmaller(op, e, k);
        EqualSelf(Leaves(op, e)[k]);
      }
      hide ExprEq;
      GroupEqualsSelf(e);
    case _ =>
  }

  // a term always joins with its copy
  lemma SelfJoins(op: BinOp, t: Expr)
    ensures Join(op, t, t) == Some(t)
  {
    EqualSelf(t);
  }

  // No group on the spine of the result holds the same term twice
  lemma NoTermTwice(e: Expr, i: nat, j: nat)
    requires var d := EliminateDups(e); d.Bin? && i < j < |Leaves(d.bop, d)|
    ensures var d := EliminateDups(e); Leaves(d.bop, d)[i] != Leaves(d.bop, d)[j]
  {
    var d := EliminateDups(e);
    EliminateDupsSettled(e);
    SelfJoins(d.bop, Leaves(d.bop, d)[i]);
  }
}
