/** The pairwise walk over a group of linked nodes (expr_eliminate_dups1,
    expr_eliminate_dups). Both pointers of the walk move inside the same tree. */
module ExprHeapDups {
  import opened Options
  import opened Exprs
  import opened ExprHeap
  import ExprEquality
  import ExprDups

  // The nodes of an op-group: the forks are its AND or OR nodes, the tips hold
  // its terms. The walk overwrites terms and leaves the forks alone.
  datatype Spine = Tip(node: Node) | Fork(node: Node, l: Spine, r: Spine)

  function Tips(sp: Spine): (s: seq<Node>)
    ensures |s| >= 1
  {
    match sp
    case Tip(n) => [n]
    case Fork(_, l, r) => Tips(l) + Tips(r)
  }

  function Forks(sp: Spine): set<Node> {
    match sp
    case Tip(_) => {}
    case Fork(n, l, r) => {n} + Forks(l) + Forks(r)
  }

  ghost predicate Wired(sp: Spine, op: BinOp)
    reads Forks(sp)
    decreases sp
  {
    sp.Fork? ==>
      && sp.node.kind == BIN(op) && sp.node.left == sp.l.node && sp.node.right == sp.r.node
      && sp.node !in Forks(sp.l) && sp.node !in Forks(sp.r) && Forks(sp.l) !! Forks(sp.r)
      && Wired(sp.l, op) && Wired(sp.r, op)
  }

  // separate trees over the nodes all, outside fs
  ghost predicate Separate(ts: seq<Node>, fs: set<Node>, all: set<Node>)
    reads all
  {
    && (forall k :: 0 <= k < |ts| ==> ts[k] in all && ts[k].repr <= all && ts[k].repr !! fs && ts[k].Valid())
    && (forall i, j :: 0 <= i < j < |ts| ==> ts[i].repr !! ts[j].repr)
  }

  ghost function Models(ts: seq<Node>): (ls: seq<Expr>)
    reads set t | t in ts
    ensures |ls| == |ts| && forall k :: 0 <= k < |ts| ==> ls[k] == ts[k].model
  {
    seq(|ts|, k requires 0 <= k < |ts| reads (set t | t in ts) => ts[k].model)
  }

  // The terms the group has now, if it is a tree over the nodes all
  ghost function TermsOf(sp: Spine, op: BinOp, all: set<Node>): Option<seq<Expr>>
    reads all
  {
    if Forks(sp) <= all && Wired(sp, op) && Separate(Tips(sp), Forks(sp), all) then Some(Models(Tips(sp))) else None
  }

  lemma TermAt(sp: Spine, op: BinOp, all: set<Node>, ls: seq<Expr>, i: nat)
    requires TermsOf(sp, op, all) == Some(ls) && i < |ls|
    ensures |ls| == |Tips(sp)|
    ensures var t := Tips(sp)[i]; t in all && t.repr <= all && t.Valid() && t.model == ls[i]
    ensures forall k :: 0 <= k < |ls| && Tips(sp)[k] == Tips(sp)[i] ==> k == i
  {
  }

  // ---------- parts of a spine ----------

  // q is part of sp, with its first tip at lo
  predicate Part(sp: Spine, q: Spine, lo: nat)
    decreases sp
  {
    || (sp == q && lo == 0)
    || (sp.Fork? && (Part(sp.l, q, lo) || (lo >= |Tips(sp.l)| && Part(sp.r, q, lo - |Tips(sp.l)|))))
  }

  lemma PartTips(sp: Spine, q: Spine, lo: nat)
    requires Part(sp, q, lo)
    ensures lo + |Tips(q)| <= |Tips(sp)| && Tips(sp)[lo..lo + |Tips(q)|] == Tips(q)
    ensures q.Fork? ==> Part(sp, q.l, lo) && Part(sp, q.r, lo + |Tips(q.l)|)
  {
    PartSlice(sp, q, lo);
    if q.Fork? {
      PartKids(sp, q, lo);
    }
  }

  lemma ForkTips(sp: Spine)
    requires sp.Fork?
    ensures Tips(sp) == Tips(sp.l) + Tips(sp.r)
  {
  }

  lemma {:induction false} PartSlice(sp: Spine, q: Spine, lo: nat)
    requires Part(sp, q, lo)
    ensures lo + |Tips(q)| <= |Tips(sp)| && Tips(sp)[lo..lo + |Tips(q)|] == Tips(q)
    decreases sp
  {
    hide Tips;
    if sp == q && lo == 0 {
      assert Tips(sp)[0..|Tips(sp)|] == Tips(sp);
    } else {
      ForkTips(sp);
      var l, r := Tips(sp.l), Tips(sp.r);
      if Part(sp.l, q, lo) {
        PartSlice(sp.l, q, lo);
        SliceLeft(l, r, lo, |Tips(q)|);
      } else {
        PartSlice(sp.r, q, lo - |l|);
        SliceRight(l, r, lo - |l|, |Tips(q)|);
      }
    }
  }

  lemma SliceLeft(a: seq<Node>, b: seq<Node>, lo: nat, n: nat)
    requires lo + n <= |a|
    ensures (a + b)[lo..lo + n] == a[lo..lo + n]
  {
  }

  lemma SliceRight(a: seq<Node>, b: seq<Node>, lo: nat, n: nat)
    requires lo + n <= |b|
    ensures (a + b)[|a| + lo..|a| + lo + n] == b[lo..lo + n]
  {
  }

  lemma {:induction false} PartKids(sp: Spine, q: Spine, lo: nat)
    requires Part(sp, q, lo) && q.Fork?
    ensures Part(sp, q.l, lo) && Part(sp, q.r, lo + |Tips(q.l)|)
    decreases sp
  {
    if sp == q && lo == 0 {
      assert Part(sp.l, q.l, 0) && Part(sp.r, q.r, 0);
    } else if Part(sp.l, q, lo) {
      PartKids(sp.l, q, lo);
    } else {
      PartKids(sp.r, q, lo - |Tips(sp.l)|);
    }
  }

  lemma {:induction false} PartWired(sp: Spine, q: Spine, lo: nat, op: BinOp)
    requires Part(sp, q, lo) && Wired(sp, op)
    ensures Forks(q) <= Forks(sp) && Wired(q, op)
    decreases sp
  {
    if sp == q && lo == 0 {
    } else if Part(sp.l, q, lo) {
      PartWired(sp.l, q, lo, op);
    } else {
      PartWired(sp.r, q, lo - |Tips(sp.l)|, op);
    }
  }

  // ---------- the spine of a group ----------

  ghost function SpineOf(n: Node, op: BinOp): (sp: Spine)
    requires n.Valid()
    reads n, n.repr
    ensures sp.node == n
    decreases n.model
  {
    if n.kind == BIN(op) then
      assert n.left.Valid() && n.right.Valid();
      Fork(n, SpineOf(n.left, op), SpineOf(n.right, op))
    else Tip(n)
  }

  // the spine branches where the expression does
  predicate Mirrors(sp: Spine, op: BinOp, e: Expr)
    decreases sp
  {
    match sp
    case Tip(_) => !ExprEquality.IsGroup(op, e)
    case Fork(_, l, r) => ExprEquality.IsGroup(op, e) && Mirrors(l, op, e.left) && Mirrors(r, op, e.right)
  }

  lemma {:induction false} SpineTerms(n: Node, op: BinOp)
    requires n.Valid()
    ensures var sp := SpineOf(n, op);
      TermsOf(sp, op, n.repr) == Some(ExprDups.Leaves(op, n.model)) && Mirrors(sp, op, n.model)
    decreases n.model
  {
    var sp := SpineOf(n, op);
    if n.kind == BIN(op) {
      assert n.left.Valid() && n.right.Valid();
      SpineTerms(n.left, op);
      SpineTerms(n.right, op);
      TermsOfFork(sp, op, n.left.repr, n.right.repr, n.repr);
    } else {
      assert Models(Tips(sp)) == [n.model];
    }
  }

  lemma TermsOfFork(sp: Spine, op: BinOp, al: set<Node>, ar: set<Node>, all: set<Node>)
    requires sp.Fork? && sp.node.kind == BIN(op) && sp.node.left == sp.l.node && sp.node.right == sp.r.node
    requires TermsOf(sp.l, op, al).Some? && TermsOf(sp.r, op, ar).Some?
    requires al !! ar && sp.node !in al + ar && al + ar + {sp.node} <= all
    ensures TermsOf(sp, op, all) == Some(TermsOf(sp.l, op, al).value + TermsOf(sp.r, op, ar).value)
  {
    assert Forks(sp) == {sp.node} + Forks(sp.l) + Forks(sp.r);
    assert Wired(sp, op);
    SeparateBoth(Tips(sp.l), Tips(sp.r), Forks(sp.l), Forks(sp.r), sp.node, al, ar, all);
    assert Models(Tips(sp)) == Models(Tips(sp.l)) + Models(Tips(sp.r));
  }

  lemma SeparateBoth(a: seq<Node>, b: seq<Node>, fa: set<Node>, fb: set<Node>, n: Node, al: set<Node>, ar: set<Node>,
                     all: set<Node>)
    requires Separate(a, fa, al) && Separate(b, fb, ar) && fa <= al && fb <= ar
    requires al !! ar && n !in al + ar && al + ar <= all
    ensures Separate(a + b, {n} + fa + fb, all)
  {
  }

  lemma SeparateSplit(a: seq<Node>, b: seq<Node>, fs: set<Node>, all: set<Node>, fa: set<Node>, fb: set<Node>)
    returns (al: set<Node>, ar: set<Node>)
    requires Separate(a + b, fs, all) && fa + fb <= fs <= all && fa !! fb
    ensures fa <= al <= all && fb <= ar <= all && al !! ar && fs * al <= fa && fs * ar <= fb
    ensures Separate(a, fa, al) && Separate(b, fb, ar)
  {
    SeparateParts(a, b, fs, all);
    SeparateWithin(a, fs, all, fa);
    SeparateWithin(b, fs, all, fb);
    al, ar := fa + NodesOf(a), fb + NodesOf(b);
  }

  ghost function NodesOf(ts: seq<Node>): set<Node>
    reads set t | t in ts
  {
    set t, n | t in ts && n in t.repr :: n
  }

  lemma SeparateWithin(ts: seq<Node>, fs: set<Node>, all: set<Node>, f: set<Node>)
    requires Separate(ts, fs, all) && f <= fs <= all
    ensures NodesOf(ts) <= all && NodesOf(ts) !! fs && Separate(ts, f, f + NodesOf(ts))
  {
    forall k | 0 <= k < |ts|
      ensures ts[k].repr <= NodesOf(ts) && ts[k] in ts[k].repr
    {
      assert ts[k] in ts;
    }
  }

  lemma SeparateParts(a: seq<Node>, b: seq<Node>, fs: set<Node>, all: set<Node>)
    requires Separate(a + b, fs, all)
    ensures Separate(a, fs, all) && Separate(b, fs, all)
    ensures forall i, j :: 0 <= i < |a| && 0 <= j < |b| ==> a[i].repr !! b[j].repr
  {
    var ts := a + b;
    assert forall k :: 0 <= k < |a| ==> a[k] == ts[k];
    assert forall k :: 0 <= k < |b| ==> b[k] == ts[|a| + k];
    forall i, j | 0 <= i < j < |b|
      ensures b[i].repr !! b[j].repr
    {
      assert ts[|a| + i].repr !! ts[|a| + j].repr;
    }
    forall i, j | 0 <= i < |a| && 0 <= j < |b|
      ensures a[i].repr !! b[j].repr
    {
      assert ts[i].repr !! ts[|a| + j].repr;
    }
  }

  lemma ForkTerms(sp: Spine, op: BinOp, all: set<Node>, ls: seq<Expr>)
    returns (al: set<Node>, ar: set<Node>)
    requires TermsOf(sp, op, all) == Some(ls) && sp.Fork?
    ensures |ls| == |Tips(sp)|
    ensures TermsOf(sp.l, op, al) == Some(ls[..|Tips(sp.l)|]) && TermsOf(sp.r, op, ar) == Some(ls[|Tips(sp.l)|..])
    ensures al !! ar && al <= all && ar <= all && sp.node in all && sp.node !in al + ar
    ensures sp.node.kind == BIN(op) && sp.node.left == sp.l.node && sp.node.right == sp.r.node
    ensures Forks(sp.l) <= al && Forks(sp.r) <= ar
  {
    assert Forks(sp) == {sp.node} + Forks(sp.l) + Forks(sp.r);
    al, ar := SeparateSplit(Tips(sp.l), Tips(sp.r), Forks(sp), all, Forks(sp.l), Forks(sp.r));
    assert Models(Tips(sp.l)) == ls[..|Tips(sp.l)|];
    assert Models(Tips(sp.r)) == ls[|Tips(sp.l)|..];
  }

  // ---------- rebuilding the group around its new terms ----------

  ghost function FromTerms(sp: Spine, op: BinOp, ls: seq<Expr>): Expr
    requires |ls| == |Tips(sp)|
  {
    match sp
    case Tip(_) => ls[0]
    case Fork(_, l, r) => Bin(op, FromTerms(l, op, ls[..|Tips(l)|]), FromTerms(r, op, ls[|Tips(l)|..]))
  }

  lemma {:induction false} MirrorRebuild(sp: Spine, op: BinOp, e: Expr, ls: seq<Expr>)
    requires Mirrors(sp, op, e) && |ls| == |Tips(sp)|
    ensures |ExprDups.Leaves(op, e)| == |ls| && FromTerms(sp, op, ls) == ExprDups.Rebuild(op, e, ls)
    decreases sp
  {
    if sp.Fork? {
      MirrorRebuild(sp.l, op, e.left, ls[..|Tips(sp.l)|]);
      MirrorRebuild(sp.r, op, e.right, ls[|Tips(sp.l)|..]);
    }
  }

  // brings the ghosts of the forks up to date
  ghost method Relink(sp: Spine, op: BinOp, all: set<Node>, ls: seq<Expr>)
    requires TermsOf(sp, op, all) == Some(ls)
    modifies Forks(sp)
    ensures |ls| == |Tips(sp)| && sp.node.Valid() && sp.node.model == FromTerms(sp, op, ls) && sp.node.repr <= all
    decreases sp
  {
    if sp.Fork? {
      var n := |Tips(sp.l)|;
      var al, ar := ForkTerms(sp, op, all, ls);
      assert Forks(sp) == {sp.node} + Forks(sp.l) + Forks(sp.r);
      hide TermsOf;
      Relink(sp.l, op, al, ls[..n]);
      Relink(sp.r, op, ar, ls[n..]);
      sp.node.Link();
    } else {
      TermAt(sp, op, all, ls, 0);
    }
  }

  // ---------- one term changes ----------

  ghost function Reprs(ts: seq<Node>): (rs: seq<set<Node>>)
    reads set t | t in ts
    ensures |rs| == |ts| && forall k :: 0 <= k < |ts| ==> rs[k] == ts[k].repr
  {
    seq(|ts|, k requires 0 <= k < |ts| reads (set t | t in ts) => ts[k].repr)
  }

  // separate sets of nodes of all, outside fs
  predicate Apart(rs: seq<set<Node>>, fs: set<Node>, all: set<Node>) {
    && (forall k :: 0 <= k < |rs| ==> rs[k] !! fs && rs[k] <= all)
    && (forall i, j :: 0 <= i < j < |rs| ==> rs[i] !! rs[j])
  }

  // all trees but one have kept their values and nodes
  ghost predicate OthersKept(ts: seq<Node>, ls: seq<Expr>, rs: seq<set<Node>>, i: nat, all: set<Node>)
    requires |ts| == |ls| == |rs|
    reads all
  {
    forall k :: 0 <= k < |ts| && k != i ==>
      ts[k] in all && ts[k].repr <= all && ts[k].Valid() && ts[k].model == ls[k] && ts[k].repr == rs[k]
  }

  lemma Before(sp: Spine, op: BinOp, all: set<Node>, ls: seq<Expr>, i: nat)
    requires TermsOf(sp, op, all) == Some(ls) && i < |ls|
    ensures Forks(sp) <= all && Wired(sp, op) && |ls| == |Tips(sp)|
    ensures Apart(Reprs(Tips(sp)), Forks(sp), all) && OthersKept(Tips(sp), ls, Reprs(Tips(sp)), i, all)
    ensures forall k :: 0 <= k < |ls| ==> Tips(sp)[k] in Tips(sp)[k].repr
  {
  }

  lemma After(sp: Spine, op: BinOp, all: set<Node>, ls: seq<Expr>, i: nat, rs: seq<set<Node>>, more: set<Node>)
    requires Forks(sp) <= all && Wired(sp, op) && |ls| == |Tips(sp)| == |rs| && i < |ls|
    requires Apart(rs, Forks(sp), all) && more !! all
    requires OthersKept(Tips(sp), ls, rs, i, all)
    requires var t := Tips(sp)[i]; t.Valid() && t.repr <= rs[i] + more
    ensures TermsOf(sp, op, all + more) == Some(ls[i := Tips(sp)[i].model])
  {
    var ts := Tips(sp);
    forall j, k | 0 <= j < k < |ts|
      ensures ts[j].repr !! ts[k].repr
    {
      assert rs[j] !! rs[k];
    }
    assert Separate(ts, Forks(sp), all + more);
    assert Models(ts) == ls[i := ts[i].model];
  }

  // *e = *tmp
  method Overwrite(e: Node, tmp: Node, ghost sp: Spine, ghost op: BinOp, ghost all: set<Node>, ghost ls: seq<Expr>,
                   ghost i: nat)
    requires TermsOf(sp, op, all) == Some(ls) && i < |ls| && |ls| == |Tips(sp)| && e == Tips(sp)[i]
    requires tmp.Valid() && tmp.repr !! all
    modifies e
    ensures TermsOf(sp, op, all + tmp.repr) == Some(ls[i := tmp.model])
  {
    ghost var rs := Reprs(Tips(sp));
    Before(sp, op, all, ls, i);
    e.Become(tmp);
    After(sp, op, all, ls, i, rs, tmp.repr);
  }

  // ---------- the walk ----------

  // tip i of the group with terms ls
  ghost predicate IsTip(sp: Spine, ls: seq<Expr>, i: nat, e: Node) {
    i < |ls| && |ls| == |Tips(sp)| && Tips(sp)[i] == e
  }

  // one pair of terms
  method VisitPair(rw: Rewriter, op: BinOp, e1: Node, e2: Node,
                   ghost sp: Spine, ghost all: set<Node>, ghost ls: seq<Expr>, ghost i: nat, ghost j: nat, ghost h: nat)
    returns (ghost all': set<Node>, ghost ls': seq<Expr>)
    requires TermsOf(sp, op, all) == Some(ls) && ExprDups.AreTerms(op, ls, h)
    requires IsTip(sp, ls, i, e1) && IsTip(sp, ls, j, e2)
    modifies rw, all
    ensures TermsOf(sp, op, all') == Some(ls') && fresh(all' - all)
    ensures var w := ExprDups.Visit(op, ls, i, j, h); ls' == w.ls && rw.transCount == old(rw.transCount) + w.joins
    decreases h, 0, sp, sp, 1
  {
    TermAt(sp, op, all, ls, i);
    ExprDups.VisitIs(op, ls, i, j, h);
    hide TermsOf, Tips, Node.Valid, ExprDups.Below, ExprDups.Join, ExprDups.AreTerms, ExprDups.Visit;
    if e1 == e2 {
      return all, ls;
    }
    all', ls' := JoinBelow(rw, op, e1, sp, all, ls, i, h);
    all', ls' := JoinPair(rw, op, e1, e2, sp, all', ls', i, j);
  }

  // the group below term i
  method JoinBelow(rw: Rewriter, op: BinOp, e1: Node,
                   ghost sp: Spine, ghost all: set<Node>, ghost ls: seq<Expr>, ghost i: nat, ghost h: nat)
    returns (ghost all': set<Node>, ghost ls': seq<Expr>)
    requires TermsOf(sp, op, all) == Some(ls) && ExprDups.AreTerms(op, ls, h) && IsTip(sp, ls, i, e1)
    modifies rw, all
    ensures TermsOf(sp, op, all') == Some(ls') && fresh(all' - all)
    ensures var d := ExprDups.Below(op, ls, i, h);
      ls' == ls[i := d.e] && rw.transCount == old(rw.transCount) + d.joins
    decreases h, 0, sp, sp, 0
  {
    all', ls' := all, ls;
    TermAt(sp, op, all, ls, i);
    if e1.kind.BIN? {
      ghost var rs := Reprs(Tips(sp));
      Before(sp, op, all, ls, i);
      DupsOfGroup(rw, e1, h - 1);
      ghost var more := e1.repr - all;
      assert e1.repr <= rs[i] + more;
      After(sp, op, all, ls, i, rs, more);
      all', ls' := all + more, ls[i := e1.model];
    }
  }

  // the switch at the end of expr_eliminate_dups1
  method JoinPair(rw: Rewriter, op: BinOp, e1: Node, e2: Node,
                  ghost sp: Spine, ghost all: set<Node>, ghost ls: seq<Expr>, ghost i: nat, ghost j: nat)
    returns (ghost all': set<Node>, ghost ls': seq<Expr>)
    requires TermsOf(sp, op, all) == Some(ls) && i != j && IsTip(sp, ls, i, e1) && IsTip(sp, ls, j, e2)
    modifies rw, all
    ensures TermsOf(sp, op, all') == Some(ls') && fresh(all' - all)
    ensures match ExprDups.Join(op, ls[i], ls[j])
      case Some(r) => ls' == ls[i := Neutral(op)][j := r] && rw.transCount == old(rw.transCount) + 1
      case None => ls' == ls && rw.transCount == old(rw.transCount)
  {
    all', ls' := all, ls;
    TermAt(sp, op, all, ls, i);
    TermAt(sp, op, all, ls, j);
    hide TermsOf, Tips, Node.Valid, ExprDups.Join;
    var tmp := rw.Join(op, e1, e2);
    if tmp != null {
      all', ls' := Replace(op, e1, e2, tmp, sp, all, ls, i, j);
      rw.transCount := rw.transCount + 1;
    }
  }

  // e1 = neutral symbol, e2 = tmp
  method Replace(op: BinOp, e1: Node, e2: Node, tmp: Node,
                 ghost sp: Spine, ghost all: set<Node>, ghost ls: seq<Expr>, ghost i: nat, ghost j: nat)
    returns (ghost all': set<Node>, ghost ls': seq<Expr>)
    requires TermsOf(sp, op, all) == Some(ls) && i != j && IsTip(sp, ls, i, e1) && IsTip(sp, ls, j, e2)
    requires tmp.Valid() && tmp.repr !! all
    modifies e1, e2
    ensures TermsOf(sp, op, all') == Some(ls') && fresh(all' - all - tmp.repr)
    ensures ls' == ls[i := Neutral(op)][j := tmp.model]
  {
    TermAt(sp, op, all, ls, i);
    hide TermsOf, Tips, Node.Valid;
    var neutral := new Node.Symbol(NeutralSym(op));
    Overwrite(e1, neutral, sp, op, all, ls, i);
    all', ls' := all + neutral.repr, ls[i := Neutral(op)];
    Overwrite(e2, tmp, sp, op, all', ls', j);
    all', ls' := all' + tmp.repr, ls'[j := tmp.model];
  }

  // the terms, if none of them alternates more than h levels deep
  ghost function Group(sp: Spine, op: BinOp, all: set<Node>, h: nat): Option<seq<Expr>>
    reads all
  {
    var ls := TermsOf(sp, op, all);
    if ls.Some? && ExprDups.AreTerms(op, ls.value, h) then ls else None
  }

  // The terms and the count of changes that the walk will end with, when it
  // stands at the pair (i, j) and has counted count so far
  ghost function Outcome(op: BinOp, ls: seq<Expr>, i: nat, j: nat, h: nat, count: nat): ExprDups.Walk {
    if i <= |ls| && j <= |ls| && ExprDups.AreTerms(op, ls, h) then
      var w := ExprDups.VisitFrom(op, ls, i, j, h);
      ExprDups.Walk(w.ls, count + w.joins)
    else ExprDups.Walk(ls, count)
  }

  lemma OneVisit(op: BinOp, ls: seq<Expr>, i: nat, j: nat, h: nat, count: nat)
    requires ExprDups.AreTerms(op, ls, h) && i < |ls| && j < |ls|
    ensures var w := ExprDups.Visit(op, ls, i, j, h);
      && ExprDups.AreTerms(op, w.ls, h)
      && Outcome(op, w.ls, i, j + 1, h, count + w.joins) == Outcome(op, ls, i, j, h, count)
  {
  }

  lemma RowEnd(op: BinOp, ls: seq<Expr>, i: nat, h: nat, count: nat)
    requires i < |ls|
    ensures Outcome(op, ls, i + 1, 0, h, count) == Outcome(op, ls, i, |ls|, h, count)
  {
  }

  // what the two pointers see of a part
  lemma PartSeen(sp: Spine, q: Spine, lo: nat, op: BinOp, all: set<Node>, ls: seq<Expr>, h: nat)
    requires Group(sp, op, all, h) == Some(ls) && Part(sp, q, lo)
    ensures q.node in all && lo + |Tips(q)| <= |ls| == |Tips(sp)|
    ensures q.node.kind == BIN(op) <==> q.Fork?
    ensures q.Tip? ==> IsTip(sp, ls, lo, q.node)
    ensures q.Fork? ==>
      && q.node.left == q.l.node && q.node.right == q.r.node && |Tips(q)| == |Tips(q.l)| + |Tips(q.r)|
      && Part(sp, q.l, lo) && Part(sp, q.r, lo + |Tips(q.l)|)
  {
    PartTips(sp, q, lo);
    PartWired(sp, q, lo, op);
    if q.Tip? {
      assert Tips(sp)[lo..lo + 1] == [q.node];
      TermAt(sp, op, all, ls, lo);
    } else {
      assert q.node in Forks(q) && q.node.kind == BIN(op);
      assert Tips(q) == Tips(q.l) + Tips(q.r);
    }
  }

  // expr_eliminate_dups1: e1 stands at the part q1 of the group, e2 at q2
  method EliminateDups1(rw: Rewriter, op: BinOp, e1: Node, e2: Node, ghost sp: Spine, ghost all: set<Node>,
                        ghost ls: seq<Expr>,
                        ghost q1: Spine, ghost lo1: nat, ghost q2: Spine, ghost lo2: nat, ghost h: nat)
    returns (ghost all': set<Node>, ghost ls': seq<Expr>)
    requires Group(sp, op, all, h) == Some(ls)
    requires Part(sp, q1, lo1) && Part(sp, q2, lo2) && e1 == q1.node && e2 == q2.node
    requires q1.Fork? ==> q2 == sp && lo2 == 0
    modifies rw, all
    ensures Group(sp, op, all', h) == Some(ls') && fresh(all' - all)
    ensures Outcome(op, ls, lo1, lo2, h, old(rw.transCount)) ==
            if q1.Fork? then Outcome(op, ls', lo1 + |Tips(q1)|, 0, h, rw.transCount)
            else Outcome(op, ls', lo1, lo2 + |Tips(q2)|, h, rw.transCount)
    decreases h, 1, q1, q2, 1
  {
    hide *;
    PartSeen(sp, q1, lo1, op, all, ls, h);
    PartSeen(sp, q2, lo2, op, all, ls, h);
    if e1.kind == BIN(op) {
      all', ls' := WalkRows(rw, op, e1, e2, sp, all, ls, q1, lo1, h);
    } else if e2.kind == BIN(op) {
      all', ls' := WalkColumns(rw, op, e1, e2, sp, all, ls, q1, lo1, q2, lo2, h);
    } else {
      all', ls' := WalkPair(rw, op, e1, e2, sp, all, ls, q1, lo1, q2, lo2, h);
    }
  }

  // two terms
  method WalkPair(rw: Rewriter, op: BinOp, e1: Node, e2: Node, ghost sp: Spine, ghost all: set<Node>,
                  ghost ls: seq<Expr>, ghost q1: Spine, ghost lo1: nat, ghost q2: Spine, ghost lo2: nat, ghost h: nat)
    returns (ghost all': set<Node>, ghost ls': seq<Expr>)
    requires Group(sp, op, all, h) == Some(ls)
    requires Part(sp, q1, lo1) && Part(sp, q2, lo2) && e1 == q1.node && e2 == q2.node && q1.Tip? && q2.Tip?
    modifies rw, all
    ensures Group(sp, op, all', h) == Some(ls') && fresh(all' - all)
    ensures Outcome(op, ls, lo1, lo2, h, old(rw.transCount))
        == Outcome(op, ls', lo1, lo2 + |Tips(q2)|, h, rw.transCount)
    decreases h, 1, q1, q2, 0
  {
    PartSeen(sp, q1, lo1, op, all, ls, h);
    PartSeen(sp, q2, lo2, op, all, ls, h);
    OneVisit(op, ls, lo1, lo2, h, rw.transCount);
    hide Outcome, Part, TermsOf, ExprDups.AreTerms, ExprDups.Visit;
    all', ls' := VisitPair(rw, op, e1, e2, sp, all, ls, lo1, lo2, h);
  }

  method WalkRows(rw: Rewriter, op: BinOp, e1: Node, e2: Node, ghost sp: Spine, ghost all: set<Node>,
                  ghost ls: seq<Expr>, ghost q1: Spine, ghost lo1: nat, ghost h: nat)
    returns (ghost all': set<Node>, ghost ls': seq<Expr>)
    requires Group(sp, op, all, h) == Some(ls)
    requires Part(sp, q1, lo1) && e1 == q1.node && e2 == sp.node && q1.Fork?
    modifies rw, all
    ensures Group(sp, op, all', h) == Some(ls') && fresh(all' - all)
    ensures Outcome(op, ls, lo1, 0, h, old(rw.transCount)) == Outcome(op, ls', lo1 + |Tips(q1)|, 0, h, rw.transCount)
    decreases h, 1, q1, sp, 0
  {
    hide *;
    PartSeen(sp, q1, lo1, op, all, ls, h);
    all', ls' := RowsOf(rw, op, e1.left, e2, sp, all, ls, q1.l, lo1, h);
    PartSeen(sp, q1, lo1, op, all', ls', h);
    all', ls' := RowsOf(rw, op, e1.right, e2, sp, all', ls', q1.r, lo1 + |Tips(q1.l)|, h);
  }

  // all columns for the rows of one operand
  method RowsOf(rw: Rewriter, op: BinOp, e1: Node, e2: Node, ghost sp: Spine, ghost all: set<Node>, ghost ls: seq<Expr>,
                ghost q: Spine, ghost lo: nat, ghost h: nat)
    returns (ghost all': set<Node>, ghost ls': seq<Expr>)
    requires Group(sp, op, all, h) == Some(ls) && Part(sp, q, lo) && e1 == q.node && e2 == sp.node
    modifies rw, all
    ensures Group(sp, op, all', h) == Some(ls') && fresh(all' - all)
    ensures Outcome(op, ls, lo, 0, h, old(rw.transCount)) == Outcome(op, ls', lo + |Tips(q)|, 0, h, rw.transCount)
    decreases h, 1, q, sp, 2
  {
    assert Part(sp, sp, 0);
    all', ls' := EliminateDups1(rw, op, e1, e2, sp, all, ls, q, lo, sp, 0, h);
    PartSeen(sp, q, lo, op, all', ls', h);
    if q.Tip? {
      RowEnd(op, ls', lo, h, rw.transCount);
    }
  }

  method WalkColumns(rw: Rewriter, op: BinOp, e1: Node, e2: Node, ghost sp: Spine, ghost all: set<Node>,
                     ghost ls: seq<Expr>,
                     ghost q1: Spine, ghost lo1: nat, ghost q2: Spine, ghost lo2: nat, ghost h: nat)
    returns (ghost all': set<Node>, ghost ls': seq<Expr>)
    requires Group(sp, op, all, h) == Some(ls)
    requires Part(sp, q1, lo1) && Part(sp, q2, lo2) && e1 == q1.node && e2 == q2.node && q1.Tip? && q2.Fork?
    modifies rw, all
    ensures Group(sp, op, all', h) == Some(ls') && fresh(all' - all)
    ensures Outcome(op, ls, lo1, lo2, h, old(rw.transCount))
        == Outcome(op, ls', lo1, lo2 + |Tips(q2)|, h, rw.transCount)
    decreases h, 1, q1, q2, 0
  {
    hide *;
    PartSeen(sp, q2, lo2, op, all, ls, h);
    all', ls' := ColumnsOf(rw, op, e1, e2.left, sp, all, ls, q1, lo1, q2.l, lo2, h);
    PartSeen(sp, q2, lo2, op, all', ls', h);
    all', ls' := ColumnsOf(rw, op, e1, e2.right, sp, all', ls', q1, lo1, q2.r, lo2 + |Tips(q2.l)|, h);
  }

  // one row for the columns of one operand
  method ColumnsOf(rw: Rewriter, op: BinOp, e1: Node, e2: Node, ghost sp: Spine, ghost all: set<Node>,
                   ghost ls: seq<Expr>, ghost q1: Spine, ghost lo1: nat, ghost q2: Spine, ghost lo2: nat, ghost h: nat)
    returns (ghost all': set<Node>, ghost ls': seq<Expr>)
    requires Group(sp, op, all, h) == Some(ls)
    requires Part(sp, q1, lo1) && Part(sp, q2, lo2) && e1 == q1.node && e2 == q2.node && q1.Tip?
    modifies rw, all
    ensures Group(sp, op, all', h) == Some(ls') && fresh(all' - all)
    ensures Outcome(op, ls, lo1, lo2, h, old(rw.transCount))
        == Outcome(op, ls', lo1, lo2 + |Tips(q2)|, h, rw.transCount)
    decreases h, 1, q1, q2, 2
  {
    hide *;
    all', ls' := EliminateDups1(rw, op, e1, e2, sp, all, ls, q1, lo1, q2, lo2, h);
  }

  // expr_eliminate_dups1 with both pointers at the same group
  method DupsOfGroup(rw: Rewriter, e: Node, ghost h: nat)
    requires e.Valid() && e.kind.BIN? && ExprDups.Height(e.kind.bop, e.model) <= h
    modifies rw, e.repr
    ensures e.Valid() && fresh(e.repr - old(e.repr))
    ensures var d := ExprDups.DupsGroup(old(e.kind.bop), old(e.model), h);
      e.model == d.e && rw.transCount == old(rw.transCount) + d.joins
    decreases h, 2, Tip(e), Tip(e), 0
  {
    hide *;
    var op := e.kind.bop;
    ghost var model, all, count := e.model, e.repr, rw.transCount;
    ghost var sp, ls := SpineOf(e, op), ExprDups.Leaves(op, e.model);
    GroupSpine(e, op, h);
    ghost var ls';
    all, ls' := EliminateDups1(rw, op, e, e, sp, all, ls, sp, 0, sp, 0, h);
    GroupTerms(sp, op, all, h);
    Relink(sp, op, all, ls');
    MirrorRebuild(sp, op, model, ls');
    GroupOutcome(op, model, ls', h, count, rw.transCount);
  }

  lemma GroupSpine(e: Node, op: BinOp, h: nat)
    requires e.Valid() && e.kind == BIN(op) && ExprDups.Height(op, e.model) <= h
    ensures var sp := SpineOf(e, op);
      && sp.Fork? && Group(sp, op, e.repr, h) == Some(ExprDups.Leaves(op, e.model))
      && Mirrors(sp, op, e.model) && Part(sp, sp, 0) && Forks(sp) <= e.repr
    ensures ExprEquality.IsGroup(op, e.model)
  {
    SpineTerms(e, op);
    ExprDups.LeavesHeight(op, e.model, h);
  }

  lemma GroupTerms(sp: Spine, op: BinOp, all: set<Node>, h: nat)
    requires Group(sp, op, all, h).Some?
    ensures TermsOf(sp, op, all) == Group(sp, op, all, h) && Forks(sp) <= all
  {
  }

  // the walk over all pairs is the walk of the group
  lemma GroupOutcome(op: BinOp, e: Expr, ls': seq<Expr>, h: nat, count: nat, count': nat)
    requires ExprEquality.IsGroup(op, e) && ExprDups.Height(op, e) <= h
    requires |ls'| == |ExprDups.Leaves(op, e)|
    requires Outcome(op, ExprDups.Leaves(op, e), 0, 0, h, count) == Outcome(op, ls', |ls'|, 0, h, count')
    ensures var d := ExprDups.DupsGroup(op, e, h); d.e == ExprDups.Rebuild(op, e, ls') && count' == count + d.joins
  {
    ExprDups.LeavesHeight(op, e, h);
  }

  // expr_eliminate_dups
  method EliminateDups(rw: Rewriter, e: Node) returns (r: Node)
    requires e.Valid()
    modifies rw, e.repr
    ensures r == e && e.Valid() && fresh(e.repr - old(e.repr)) && rw.transCount == old(rw.transCount)
    ensures e.model == ExprDups.EliminateDups(old(e.model))
  {
    hide ExprDups.DupsGroup, ExprDups.Height, ExprDups.Mass;
    r := e;
    var oldcount := rw.transCount;
    while true
      invariant e.Valid() && fresh(e.repr - old(e.repr))
      invariant ExprDups.EliminateDups(e.model) == ExprDups.EliminateDups(old(e.model))
      decreases ExprDups.Folding(e.model), ExprDups.Mass(e.model)
    {
      ghost var before := e.model;
      rw.transCount := 0;
      if e.kind.BIN? {
        DupsOfGroup(rw, e, ExprDups.Height(e.kind.bop, e.model));
      }
      assert rw.transCount == ExprDups.Pass(before).joins && e.model == ExprDups.Pass(before).e;
      if rw.transCount == 0 {
        QuietPass(before);
        break;
      }
      ExprDups.PassShrinks(before);
      PassStep(before);
      var _ := EliminateYN(e);
    }
    rw.transCount := oldcount;
  }

  lemma QuietPass(e: Expr)
    requires ExprDups.Pass(e).joins == 0
    ensures ExprDups.Pass(e).e == e && ExprDups.EliminateDups(e) == e
  {
    if e.Bin? {
      ExprDups.DupsGroupShrinks(e.bop, e, ExprDups.Height(e.bop, e));
    }
  }

  lemma PassStep(e: Expr)
    requires ExprDups.Pass(e).joins > 0
    ensures ExprDups.EliminateDups(e) == ExprDups.EliminateDups(ExprEquality.EliminateYN(ExprDups.Pass(e).e))
  {
  }
}
