/** Dependencies handed down the menu tree (the loop over parent->list in
    menu_finalize). */
module MenuDeps {
  import opened Options
  import opened Tristates
  import opened Exprs
  import opened ExprTransform

  // A config entry, a menu or if block, or a choice
  datatype Kind = Config(tristate: bool) | Block | Choice(sym: Sym, tristate: bool)

  // A menu entry with its dependency and the conditions of its properties. The
  // first condition of a block is that of its prompt, if it has one.
  datatype Tree = Tree(kind: Kind, dep: Dep, visible: seq<Dep>, kids: seq<Tree>)

  // expr_trans_bool is applied for symbols that are not tristate
  predicate KeepsM(k: Kind) { k.Block? || k.tristate }

  // only blocks and choices have entries below them before menu_finalize
  predicate Parsed(t: Tree) {
    (t.kind.Config? ==> t.kids == []) && forall k :: k in t.kids ==> Parsed(k)
  }

  // ---------- what the code computes ----------

  function Guard(kind: Kind, dep: Dep, visible: seq<Dep>): Dep {
    if kind.Choice? then Some(Leaf(kind.sym)) else if visible != [] then visible[0] else dep
  }

  // an entry after its parent's round
  function Given(guard: Dep, t: Tree): Tree {
    Tree(t.kind, Combine(guard, t.dep),
         seq(|t.visible|, i requires 0 <= i < |t.visible| =>
               PropertyVisibility(guard, t.dep, t.visible[i], KeepsM(t.kind))),
         t.kids)
  }

  function Propagate(t: Tree): Tree {
    var guard := Guard(t.kind, t.dep, t.visible);
    Tree(t.kind, t.dep, t.visible,
         seq(|t.kids|, i requires 0 <= i < |t.kids| => PropagateGiven(guard, t.kids[i])))
  }

  function PropagateGiven(guard: Dep, t: Tree): Tree
    decreases t
  {
    var u := Given(guard, t);
    var below := Guard(u.kind, u.dep, u.visible);
    Tree(u.kind, u.dep, u.visible,
         seq(|t.kids|, i requires 0 <= i < |t.kids| => PropagateGiven(below, t.kids[i])))
  }

  lemma PropagateStep(guard: Dep, t: Tree)
    ensures PropagateGiven(guard, t) == Propagate(Given(guard, t))
  {
  }

  // ---------- what it means ----------

  // what a block or choice allows its entries, if it is itself allowed up
  function Allowed(v: Valuation, up: Tri, t: Tree): Tri {
    if t.kind.Choice? then v.tri(t.kind.sym)
    else if t.visible != [] then Min(Min(up, DepValue(v, t.dep)), DepValue(v, t.visible[0]))
    else Min(up, DepValue(v, t.dep))
  }

  // In u every dependency and condition of t has been conjoined with all that
  // is asked for on the way from the root, up to m and y where m is promoted
  ghost predicate Conjoined(v: Valuation, up: Tri, t: Tree, u: Tree)
    decreases t
  {
    && u.kind == t.kind && |u.visible| == |t.visible| && |u.kids| == |t.kids|
    && DepValue(v, u.dep) == Min(up, DepValue(v, t.dep))
    && (forall i :: 0 <= i < |t.visible| ==>
          SameFor(t.kind, DepValue(v, u.visible[i]), Min(Min(up, DepValue(v, t.dep)), DepValue(v, t.visible[i]))))
    && (forall i :: 0 <= i < |t.kids| ==> Conjoined(v, Allowed(v, up, t), t.kids[i], u.kids[i]))
  }

  // Values under a block, and of a tristate symbol, are the same; for any other
  // symbol m and y are not told apart
  predicate SameFor(k: Kind, a: Tri, b: Tri) {
    match k
    case Block => a == b
    case Config(tristate) => if tristate then a == b else (a == NO <==> b == NO)
    case Choice(_, tristate) => if tristate then a == b else (a == NO <==> b == NO)
  }

  lemma {:induction false} PropagateGivenMeans(guard: Dep, t: Tree, v: Valuation)
    requires WellFormed(v) && Parsed(t) && DepNormal(guard)
    ensures Conjoined(v, DepValue(v, guard), t, PropagateGiven(guard, t))
    decreases t
  {
    var u := PropagateGiven(guard, t);
    var up := DepValue(v, guard);
    GivenMeans(guard, t, v);
    var below := Guard(u.kind, u.dep, u.visible);
    forall i | 0 <= i < |t.kids|
      ensures Conjoined(v, Allowed(v, up, t), t.kids[i], u.kids[i])
    {
      assert t.kids[i] in t.kids;
      assert DepValue(v, below) == Allowed(v, up, t);
      PropagateGivenMeans(below, t.kids[i], v);
    }
  }

  lemma GivenMeans(guard: Dep, t: Tree, v: Valuation)
    requires WellFormed(v) && DepNormal(guard)
    ensures var u := Given(guard, t); var own := Min(DepValue(v, guard), DepValue(v, t.dep));
      && DepValue(v, u.dep) == own && DepNormal(u.dep)
      && forall i :: 0 <= i < |t.visible| ==>
           SameFor(t.kind, DepValue(v, u.visible[i]), Min(own, DepValue(v, t.visible[i]))) && DepNormal(u.visible[i])
  {
    CombineValue(guard, t.dep, v);
    CombineNormal(guard, t.dep);
    forall i | 0 <= i < |t.visible|
      ensures var d, own := Given(guard, t).visible[i], Min(DepValue(v, guard), DepValue(v, t.dep));
        SameFor(t.kind, DepValue(v, d), Min(own, DepValue(v, t.visible[i]))) && DepNormal(d)
    {
      PropertyVisibilityMeaning(guard, t.dep, t.visible[i], KeepsM(t.kind), v);
    }
  }

  // Every entry below the root ends up with the conjunction of the
  // dependencies and prompt conditions of all blocks around it
  lemma PropagateMeans(t: Tree, v: Valuation, i: nat)
    requires WellFormed(v) && Parsed(t) && i < |t.kids| && DepNormal(Guard(t.kind, t.dep, t.visible))
    ensures Conjoined(v, DepValue(v, Guard(t.kind, t.dep, t.visible)), t.kids[i], Propagate(t).kids[i])
  {
    assert t.kids[i] in t.kids;
    PropagateGivenMeans(Guard(t.kind, t.dep, t.visible), t.kids[i], v);
  }

  // ---------- in place ----------

  class Menu {
    const kind: Kind
    const kids: seq<Menu>
    var dep: Dep
    var visible: seq<Dep>
    ghost const height: nat

    ghost function Nodes(): set<Menu>
      decreases height
    {
      {this} + set k, n | k in kids && k.height < height && n in k.Nodes() :: n
    }

    lemma {:induction false} NodesAllocated()
      ensures forall n :: n in Nodes() ==> allocated(n)
      decreases height
    {
      forall k | k in kids && k.height < height
        ensures forall n :: n in k.Nodes() ==> allocated(n)
      {
        k.NodesAllocated();
      }
    }

    lemma KidNodes(i: nat)
      requires Shaped() && i < |kids|
      ensures kids[i].Shaped() && kids[i].height < height && kids[i] in kids[i].Nodes()
      ensures kids[i].Nodes() <= Nodes() && this !in kids[i].Nodes()
      ensures forall j :: 0 <= j < |kids| && j != i ==> kids[j].Nodes() !! kids[i].Nodes()
      ensures forall n :: n in kids[i].Nodes() ==> allocated(n)
    {
      kids[i].NodesAllocated();
      forall j | 0 <= j < |kids| && j != i
        ensures kids[j].Nodes() !! kids[i].Nodes()
      {
        if j < i { assert kids[j].Nodes() !! kids[i].Nodes(); } else { assert kids[i].Nodes() !! kids[j].Nodes(); }
      }
    }

    // the entries form a tree
    ghost predicate Shaped()
      decreases height
    {
      && (forall k :: k in kids ==> k.height < height && k.Shaped() && this !in k.Nodes())
      && (forall i, j :: 0 <= i < j < |kids| ==> kids[i].Nodes() !! kids[j].Nodes())
    }

    ghost function Snap(): Tree
      requires Shaped()
      reads Nodes()
      decreases height
    {
      Tree(kind, dep, visible, seq(|kids|, i requires 0 <= i < |kids| reads Nodes() => kids[i].Snap()))
    }

    ghost function KidSnaps(): (s: seq<Tree>)
      requires Shaped()
      reads Nodes()
      ensures |s| == |kids| && forall j :: 0 <= j < |kids| ==> s[j] == kids[j].Snap()
    {
      Snap().kids
    }

    constructor (kind: Kind, kids: seq<Menu>, dep: Dep, visible: seq<Dep>, ghost height: nat)
      ensures this.kind == kind && this.kids == kids && this.height == height
      ensures this.dep == dep && this.visible == visible
    {
      this.kind, this.kids, this.dep, this.visible, this.height := kind, kids, dep, visible, height;
    }

    // what the parent's round does to this entry
    method Receive(guard: Dep)
      requires Shaped()
      modifies this
      ensures Snap() == Given(guard, old(Snap()))
    {
      ghost var was := Snap();
      forall i: nat | i < |kids|
        ensures this !in kids[i].Nodes() && forall n :: n in kids[i].Nodes() ==> allocated(n)
      {
        KidNodes(i);
      }
      var base := Combine(guard, dep);
      var i := 0;
      while i < |visible|
        invariant dep == old(dep) && i <= |visible| == |old(visible)|
        invariant forall j :: 0 <= j < i ==> visible[j] == PropertyVisibility(guard, dep, old(visible)[j], KeepsM(kind))
        invariant visible[i..] == old(visible)[i..]
      {
        var d := Combine(base, visible[i]);
        if !KeepsM(kind) && d.Some? {
          d := Some(TransBool(d.value));
        }
        assert visible[i] == old(visible)[i];
        visible := visible[i := d];
        i := i + 1;
      }
      dep := base;
      assert forall j :: 0 <= j < |kids| ==> kids[j].Snap() == was.kids[j];
      assert visible == Given(guard, was).visible;
      assert Snap().kids == was.kids;
    }

    lemma AllKidNodes()
      requires Shaped()
      ensures forall i :: 0 <= i < |kids| ==>
        && kids[i].Shaped() && kids[i].height < height && kids[i] in kids[i].Nodes()
        && kids[i].Nodes() <= Nodes() && this !in kids[i].Nodes()
      ensures forall i, j :: 0 <= i < |kids| && 0 <= j < |kids| && j != i ==> kids[j].Nodes() !! kids[i].Nodes()
      ensures forall i, n :: 0 <= i < |kids| && n in kids[i].Nodes() ==> allocated(n)
    {
      forall i: nat | i < |kids|
        ensures kids[i].Shaped() && kids[i].height < height && kids[i] in kids[i].Nodes()
        ensures kids[i].Nodes() <= Nodes() && this !in kids[i].Nodes()
        ensures forall j :: 0 <= j < |kids| && j != i ==> kids[j].Nodes() !! kids[i].Nodes()
        ensures forall n :: n in kids[i].Nodes() ==> allocated(n)
      {
        KidNodes(i);
      }
    }

    // the first loop over the entries below
    method GiveAll(guard: Dep)
      requires Shaped()
      modifies Nodes() - {this}
      ensures forall j :: 0 <= j < |kids| ==> kids[j].Shaped() && kids[j].Snap() == Given(guard, old(kids[j].Snap()))
      decreases height, 0
    {
      hide *;
      AllKidNodes();
      ghost var was := KidSnaps();
      for i := 0 to |kids|
        invariant forall j :: 0 <= j < i ==> kids[j].Snap() == Given(guard, was[j])
        invariant forall j :: i <= j < |kids| ==> kids[j].Snap() == was[j]
      {
        kids[i].Receive(guard);
      }
    }

    // the second loop
    method FinalizeAll()
      requires Shaped()
      modifies Nodes() - {this}
      ensures forall j :: 0 <= j < |kids| ==> kids[j].Shaped() && kids[j].Snap() == Propagate(old(kids[j].Snap()))
      decreases height, 0
    {
      hide *;
      AllKidNodes();
      ghost var was := KidSnaps();
      for i := 0 to |kids|
        invariant forall j :: 0 <= j < i ==> kids[j].Snap() == Propagate(was[j])
        invariant forall j :: i <= j < |kids| ==> kids[j].Snap() == was[j]
      {
        kids[i].Finalize();
      }
    }

    // menu_finalize, as far as dependencies go
    method Finalize()
      requires Shaped()
      modifies Nodes() - {this}
      ensures Snap() == Propagate(old(Snap()))
      decreases height, 1
    {
      ghost var was := Snap();
      var guard := Guard(kind, dep, visible);
      assert forall j :: 0 <= j < |kids| ==> was.kids[j] == kids[j].Snap();
      GiveAll(guard);
      FinalizeAll();
      forall j | 0 <= j < |kids|
        ensures kids[j].Snap() == PropagateGiven(guard, was.kids[j])
      {
        PropagateStep(guard, was.kids[j]);
      }
      assert Snap().kids == Propagate(was).kids;
    }
  }
}
