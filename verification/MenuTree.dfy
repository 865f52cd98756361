/** Restructuring the menu tree: automatic submenus and flattening
    (the link manipulation of menu_finalize). */
module MenuForest {
  import opened Sequences

  // A chain of sibling menus, each with its children; ids stand for menus
  datatype Forest = Nil | Node(id: int, kids: Forest, rest: Forest)

  // All entries in display order
  function Preorder(f: Forest): seq<int> {
    if f.Nil? then [] else [f.id] + Preorder(f.kids) + Preorder(f.rest)
  }

  function Count(f: Forest): nat {
    if f.Nil? then 0 else 1 + Count(f.kids) + Count(f.rest)
  }

  function Append(a: Forest, b: Forest): (r: Forest)
    ensures Count(r) == Count(a) + Count(b)
  {
    if a.Nil? then b else Node(a.id, a.kids, Append(a.rest, b))
  }

  // What menu_finalize decides by looking at symbols, prompts and dependencies.
  // nests(p, m) is asked at most once for every pair, so a fixed answer stands
  // for any answer that depends on the state at that moment.
  datatype Choices = Choices(hasSym: int -> bool, nests: (int, int) -> bool, hidden: int -> bool)

  // menu_finalize on the first menu of a chain; later siblings may become its
  // children
  function Finalize(c: Choices, f: Forest): (r: Forest)
    requires f.Node?
    ensures r.Node? && r.id == f.id && Count(r) == Count(f)
    decreases Count(f), 1
  {
    var s := Nest(c, f);
    Node(f.id, Flatten(c, s.kids), s.rest)
  }

  // the first half: finalise the children, or take siblings in as children
  function Nest(c: Choices, f: Forest): (r: Forest)
    requires f.Node?
    ensures r.Node? && r.id == f.id && Count(r) == Count(f)
    decreases Count(f), 0
  {
    if f.kids.Node? then Node(f.id, FinalizeChain(c, f.kids), f.rest)
    else if c.hasSym(f.id) then
      var t := Absorb(c, f.id, f.rest);
      Node(f.id, t.0, t.1)
    else f
  }

  function FinalizeChain(c: Choices, f: Forest): (r: Forest)
    ensures Count(r) == Count(f) && (f.Node? ==> r.Node? && r.id == f.id)
    decreases Count(f), 2
  {
    if f.Nil? then Nil
    else
      var g := Finalize(c, f);
      Node(g.id, g.kids, FinalizeChain(c, g.rest))
  }

  // the siblings a symbol's menu takes in, finalised, and those left behind
  function Absorb(c: Choices, p: int, f: Forest): (r: (Forest, Forest))
    ensures Count(r.0) + Count(r.1) == Count(f)
    decreases Count(f), 2
  {
    if f.Nil? || !c.nests(p, f.id) then (Nil, f)
    else
      var g := Finalize(c, f);
      var t := Absorb(c, p, g.rest);
      (Node(g.id, g.kids, t.0), t.1)
  }

  // lift the children of menus without a prompt text into the chain
  function Flatten(c: Choices, f: Forest): (r: Forest)
    ensures Count(r) == Count(f)
    decreases Count(f)
  {
    if f.Nil? then Nil
    else if f.kids.Node? && c.hidden(f.id) then Node(f.id, Nil, Flatten(c, Append(f.kids, f.rest)))
    else Node(f.id, f.kids, Flatten(c, f.rest))
  }

  lemma {:induction false} PreorderAppend(a: Forest, b: Forest)
    ensures Preorder(Append(a, b)) == Preorder(a) + Preorder(b)
  {
    if a.Node? {
      PreorderAppend(a.rest, b);
      var x, y, z := [a.id] + Preorder(a.kids), Preorder(a.rest), Preorder(b);
      assert x + (y + z) == (x + y) + z;
    }
  }

  lemma PreorderNode(id: int, kids: Forest, rest: Forest)
    ensures Preorder(Node(id, kids, rest)) == [id] + Preorder(kids) + Preorder(rest)
    ensures Preorder(Nil) == []
  {
  }

  // lifting the children behind their parent
  lemma LiftPreorder(f: Forest)
    requires f.Node?
    ensures Preorder(Node(f.id, Nil, Append(f.kids, f.rest))) == Preorder(f)
  {
    hide *;
    PreorderAppend(f.kids, f.rest);
    PreorderNode(f.id, f.kids, f.rest);
    PreorderNode(f.id, Nil, Append(f.kids, f.rest));
    var k, r := Preorder(f.kids), Preorder(f.rest);
    assert [f.id] + [] + (k + r) == [f.id] + k + r;
  }

  lemma {:induction false} FlattenPreorder(c: Choices, f: Forest)
    ensures Preorder(Flatten(c, f)) == Preorder(f)
    decreases Count(f)
  {
    hide Preorder;
    if f.Node? {
      if f.kids.Node? && c.hidden(f.id) {
        var below := Append(f.kids, f.rest);
        assert Flatten(c, f) == Node(f.id, Nil, Flatten(c, below));
        FlattenPreorder(c, below);
        PreorderNode(f.id, Nil, below);
        PreorderNode(f.id, Nil, Flatten(c, below));
        LiftPreorder(f);
      } else {
        assert Flatten(c, f) == Node(f.id, f.kids, Flatten(c, f.rest));
        FlattenPreorder(c, f.rest);
        PreorderNode(f.id, f.kids, f.rest);
        PreorderNode(f.id, f.kids, Flatten(c, f.rest));
      }
    }
  }

  // Whatever is nested and flattened, the entries keep their order
  lemma {:induction false} FinalizePreorder(c: Choices, f: Forest)
    requires f.Node?
    ensures Preorder(Finalize(c, f)) == Preorder(f)
    decreases Count(f), 1
  {
    NestPreorder(c, f);
    FlattenPreorder(c, Nest(c, f).kids);
  }

  lemma {:induction false} NestPreorder(c: Choices, f: Forest)
    requires f.Node?
    ensures Preorder(Nest(c, f)) == Preorder(f)
    decreases Count(f), 0
  {
    if f.kids.Node? {
      FinalizeChainPreorder(c, f.kids);
    } else if c.hasSym(f.id) {
      AbsorbPreorder(c, f.id, f.rest);
      var t := Absorb(c, f.id, f.rest);
      assert [f.id] + Preorder(t.0) + Preorder(t.1) == [f.id] + (Preorder(t.0) + Preorder(t.1));
      assert [f.id] + Preorder(Nil) == [f.id];
    }
  }

  lemma {:induction false} FinalizeChainPreorder(c: Choices, f: Forest)
    ensures Preorder(FinalizeChain(c, f)) == Preorder(f)
    decreases Count(f), 2
  {
    if f.Node? {
      FinalizePreorder(c, f);
      FinalizeChainPreorder(c, Finalize(c, f).rest);
    }
  }

  lemma {:induction false} AbsorbPreorder(c: Choices, p: int, f: Forest)
    ensures Preorder(Absorb(c, p, f).0) + Preorder(Absorb(c, p, f).1) == Preorder(f)
    decreases Count(f), 2
  {
    if f.Node? && c.nests(p, f.id) {
      var g := Finalize(c, f);
      var t := Absorb(c, p, g.rest);
      FinalizePreorder(c, f);
      AbsorbPreorder(c, p, g.rest);
      var x := [g.id] + Preorder(g.kids);
      assert x + Preorder(t.0) + Preorder(t.1) == x + (Preorder(t.0) + Preorder(t.1));
    }
  }

  // ---------- the set of entries ----------

  function Ids(f: Forest): set<int> {
    if f.Nil? then {} else {f.id} + Ids(f.kids) + Ids(f.rest)
  }

  predicate Distinct(f: Forest) {
    f.Node? ==>
      f.id !in Ids(f.kids) && f.id !in Ids(f.rest) && Ids(f.kids) !! Ids(f.rest) &&
      Distinct(f.kids) && Distinct(f.rest)
  }

  lemma {:induction false} AppendIds(a: Forest, b: Forest)
    ensures Ids(Append(a, b)) == Ids(a) + Ids(b)
    ensures Distinct(Append(a, b)) <==> Distinct(a) && Distinct(b) && Ids(a) !! Ids(b)
  {
    if a.Node? {
      AppendIds(a.rest, b);
    }
  }

  lemma {:induction false} AppendAssociates(a: Forest, b: Forest, c: Forest)
    ensures Append(Append(a, b), c) == Append(a, Append(b, c))
    ensures Append(a, Nil) == a
  {
    if a.Node? {
      AppendAssociates(a.rest, b, c);
    }
  }

  lemma UnionSize(x: set<int>, y: set<int>)
    ensures |x + y| <= |x| + |y|
    ensures |x + y| == |x| + |y| <==> x !! y
  {
    assert |x + y| == |x| + |y| - |x * y|;
    if x * y == {} {
      forall z | z in x ensures z !in y {
        assert z in y ==> z in x * y;
      }
    }
  }

  lemma {:induction false} IdsPreorder(f: Forest)
    ensures Ids(f) == Elems(Preorder(f))
    ensures Distinct(f) <==> |Ids(f)| == Count(f)
    ensures |Ids(f)| <= Count(f) == |Preorder(f)|
  {
    if f.Node? {
      IdsPreorder(f.kids);
      IdsPreorder(f.rest);
      UnionSize({f.id}, Ids(f.kids));
      UnionSize({f.id} + Ids(f.kids), Ids(f.rest));
    }
  }

  lemma SamePreorder(f: Forest, g: Forest)
    requires Preorder(f) == Preorder(g)
    ensures Ids(f) == Ids(g) && (Distinct(f) <==> Distinct(g))
  {
    IdsPreorder(f);
    IdsPreorder(g);
  }
}

module MenuTree {
  import opened MenuForest
  import opened MenuShape
  import opened Sequences

  const NULL := -1

  // The link fields of all menus; entry i belongs to menu i
  datatype Links = Links(next: seq<int>, list: seq<int>, parent: seq<int>)

  predicate InRange(h: Links, m: int) {
    0 <= m < |h.next| && |h.list| == |h.next| && |h.parent| == |h.next|
  }

  // From m, the chain d of children of par is linked up, and continues at q
  predicate Seg(h: Links, m: int, d: Forest, par: int, q: int)
    decreases d
  {
    match d
    case Nil => m == q
    case Node(id, kids, rest) =>
      m == id && InRange(h, id) && h.parent[id] == par &&
      Seg(h, h.list[id], kids, id, NULL) && Seg(h, h.next[id], rest, par, q)
  }

  // menus outside s keep their links
  ghost predicate Same(h: Links, h': Links, s: set<int>) {
    |h'.next| == |h.next| && |h'.list| == |h.list| && |h'.parent| == |h.parent| &&
    forall i :: InRange(h, i) && i !in s ==>
      h'.next[i] == h.next[i] && h'.list[i] == h.list[i] && h'.parent[i] == h.parent[i]
  }

  lemma {:induction false} SegSame(h: Links, h': Links, s: set<int>, m: int, d: Forest, par: int, q: int)
    requires Seg(h, m, d, par, q) && Same(h, h', s) && Ids(d) !! s
    ensures Seg(h', m, d, par, q)
    decreases d
  {
    if d.Node? {
      SegSame(h, h', s, h.list[d.id], d.kids, d.id, NULL);
      SegSame(h, h', s, h.next[d.id], d.rest, par, q);
    }
  }

  lemma {:induction false} SegAppend(h: Links, m: int, a: Forest, par: int, r: int, b: Forest, q: int)
    requires Seg(h, m, a, par, r) && Seg(h, r, b, par, q)
    ensures Seg(h, m, Append(a, b), par, q)
    decreases a
  {
    if a.Node? {
      SegAppend(h, h.next[a.id], a.rest, par, r, b, q);
    }
  }

  // ---------- the pieces the loops cut a chain into ----------

  // the node at the head of a chain, on its own
  function Head(f: Forest): Forest
    requires f.Node?
  {
    Node(f.id, f.kids, Nil)
  }

  // the last menu of a chain
  function Last(f: Forest): int {
    if f.Nil? then NULL else if f.rest.Nil? then f.id else Last(f.rest)
  }

  lemma {:induction false} LastSnoc(a: Forest, b: Forest)
    requires b.Node? && b.rest.Nil?
    ensures Last(Append(a, b)) == b.id
  {
    if a.Node? {
      LastSnoc(a.rest, b);
    }
  }

  // moving the head of the rest of a chain to the part already done
  lemma AppendHead(done: Forest, f: Forest)
    requires f.Node?
    ensures Append(Append(done, Head(f)), f.rest) == Append(done, f)
    ensures Preorder(Append(done, Head(f))) == Preorder(done) + ([f.id] + Preorder(f.kids))
  {
    AppendAssociates(done, Head(f), f.rest);
    PreorderAppend(done, Head(f));
    assert Preorder(Head(f)) == [f.id] + Preorder(f.kids);
  }

  lemma {:induction false} SegLast(h: Links, m: int, d: Forest, par: int, q: int)
    requires d.Node? && Seg(h, m, d, par, q)
    ensures InRange(h, Last(d)) && Last(d) in Ids(d) && h.next[Last(d)] == q
    decreases d
  {
    if d.rest.Node? {
      SegLast(h, h.next[d.id], d.rest, par, q);
    }
  }

  // let the chain continue at q' instead
  lemma {:induction false} SegRelink(h: Links, m: int, d: Forest, par: int, q: int, q': int)
    requires d.Node? && Seg(h, m, d, par, q) && Distinct(d) && InRange(h, Last(d))
    ensures Seg(h.(next := h.next[Last(d) := q']), m, d, par, q')
    decreases d
  {
    SegLast(h, m, d, par, q);
    var h' := h.(next := h.next[Last(d) := q']);
    assert Same(h, h', {Last(d)});
    if d.rest.Node? {
      SegLast(h, h.next[d.id], d.rest, par, q);
      SegRelink(h, h.next[d.id], d.rest, par, q, q');
    }
    SegKids(h, h', {Last(d)}, d);
  }

  lemma SegKids(h: Links, h': Links, s: set<int>, d: Forest)
    requires d.Node? && InRange(h, d.id) && Same(h, h', s) && Ids(d.kids) !! s
    requires Seg(h, h.list[d.id], d.kids, d.id, NULL)
    ensures Seg(h', h.list[d.id], d.kids, d.id, NULL)
  {
    SegSame(h, h', s, h.list[d.id], d.kids, d.id, NULL);
  }

  lemma NullMeansNil(h: Links, m: int, d: Forest, par: int)
    requires Seg(h, m, d, par, NULL)
    ensures m == NULL <==> d.Nil?
  {
  }

  // The state of a walk along a chain: done, whose menus have parent p, leads
  // from m to the current menu, which heads cur, whose menus have parent q
  ghost predicate Walking(h: Links, m: int, done: Forest, p: int, menu: int, cur: Forest, q: int, all: set<int>) {
    && Seg(h, m, done, p, menu) && Seg(h, menu, cur, q, NULL)
    && Distinct(done) && Distinct(cur) && Ids(done) !! Ids(cur) && Ids(done) + Ids(cur) == all
  }

  // one menu's own links
  lemma Opened(h: Links, m: int, f: Forest, par: int)
    requires f.Node? && Seg(h, m, f, par, NULL) && Distinct(f)
    ensures m == f.id && InRange(h, m) && h.parent[m] == par && (h.list[m] == NULL <==> f.kids.Nil?)
    ensures Walking(h, h.list[m], Nil, m, h.list[m], f.kids, m, Ids(f.kids))
    ensures Walking(h, h.next[m], Nil, m, h.next[m], f.rest, par, Ids(f.rest))
    ensures m !in Ids(f.kids) && m !in Ids(f.rest) && Ids(f.kids) !! Ids(f.rest)
  {
  }

  // the children of m were replaced, and nothing else
  lemma Reopened(h: Links, h': Links, m: int, f: Forest, par: int, menu: int, done: Forest, cur: Forest)
    requires f.Node? && Seg(h, m, f, par, NULL) && Distinct(f) && Same(h, h', Ids(f.kids)) && InRange(h', m)
    requires Walking(h', h'.list[m], done, m, menu, cur, m, Ids(f.kids)) && menu == NULL
    ensures Seg(h', m, Node(m, done, f.rest), par, NULL) && cur == Nil
  {
    SegSame(h, h', Ids(f.kids), h.next[m], f.rest, par, NULL);
  }

  lemma WalkingParts(h: Links, m: int, done: Forest, p: int, menu: int, cur: Forest, q: int, all: set<int>)
    requires Walking(h, m, done, p, menu, cur, q, all)
    ensures Seg(h, menu, cur, q, NULL) && Distinct(cur) && Ids(cur) <= all
    ensures (menu == NULL <==> cur.Nil?) && (cur.Node? ==> menu == cur.id && menu in Ids(cur))
  {
  }

  lemma Untouched(h: Links, h': Links, s: set<int>, m: int)
    requires Same(h, h', s) && InRange(h, m) && m !in s
    ensures InRange(h', m)
    ensures h'.next[m] == h.next[m] && h'.list[m] == h.list[m] && h'.parent[m] == h.parent[m]
  {
  }

  lemma SameSelf(h: Links, s: set<int>)
    ensures Same(h, h, s)
  {
  }

  // a walk that has not begun
  lemma Start(h: Links, all: set<int>, f: Forest)
    ensures Same(h, h, all) && Append(Nil, f) == f && Preorder(Nil) == []
  {
  }

  lemma SameTransitive(a: Links, b: Links, c: Links, s: set<int>, all: set<int>)
    requires Same(a, b, all) && Same(b, c, s) && s <= all
    ensures Same(a, c, all)
  {
  }

  lemma KidsInside(f: Forest)
    requires f.Node?
    ensures f.id in Ids(f) && Ids(f.kids) <= Ids(f)
  {
  }

  // a chain split behind its first menu
  lemma SplitHead(h: Links, m: int, f: Forest, par: int)
    requires f.Node? && Seg(h, m, f, par, NULL)
    ensures InRange(h, m) && Seg(h, m, Head(f), par, h.next[m]) && Seg(h, h.next[m], f.rest, par, NULL)
  {
  }

  // cur was changed into g in place; its head joins the part done
  lemma Advance(h: Links, h': Links, m: int, done: Forest, p: int, menu: int, cur: Forest, g: Forest, q: int,
                all: set<int>)
    requires Walking(h, m, done, p, menu, cur, q, all) && cur.Node?
    requires Same(h, h', Ids(cur)) && Preorder(g) == Preorder(cur) && g.Node?
    requires Seg(h', menu, Head(g), p, h'.next[menu]) && Seg(h', h'.next[menu], g.rest, q, NULL)
    ensures Walking(h', m, Append(done, Head(g)), p, h'.next[menu], g.rest, q, all)
  {
    SamePreorder(cur, g);
    SegSame(h, h', Ids(cur), m, done, p, menu);
    SegAppend(h', m, done, p, menu, Head(g), h'.next[menu]);
    AppendIds(done, Head(g));
  }

  lemma NestAbsorbed(c: Choices, f: Forest)
    requires f.Node? && f.kids.Nil? && c.hasSym(f.id)
    ensures var t := Absorb(c, f.id, f.rest); Nest(c, f) == Node(f.id, t.0, t.1)
  {
  }

  lemma ChainStep(c: Choices, f: Forest)
    ensures f.Nil? ==> FinalizeChain(c, f) == Nil
    ensures f.Node? ==>
      var g := MenuForest.Finalize(c, f); FinalizeChain(c, f) == Node(g.id, g.kids, FinalizeChain(c, g.rest))
  {
  }

  lemma NestNoRest(c: Choices, f: Forest)
    requires f.Node? && f.rest.Nil?
    ensures Nest(c, f).rest.Nil? && Preorder(Nil) == []
  {
  }

  // ---------- menu_finalize ----------

  class Menus {
    const c: Choices
    var next: seq<int>
    var list: seq<int>
    var parent: seq<int>
    ghost var log: seq<int>   // the menus finalised so far

    constructor (c: Choices, h: Links)
      ensures this.c == c && H() == h && log == []
    {
      this.c := c;
      next, list, parent, log := h.next, h.list, h.parent, [];
    }

    ghost function H(): Links
      reads this
    {
      Links(next, list, parent)
    }

    // The whole tree: the links form a tree with the same entries in the same
    // order, every parent link is right, and every entry was finalised once
    method FinalizeRoot(m: int, ghost f: Forest) returns (ghost g: Forest)
      requires f.Node? && f.rest.Nil? && Seg(H(), m, f, NULL, NULL) && Distinct(f) && log == []
      modifies this`next, this`list, this`parent, this`log
      ensures Seg(H(), m, g, NULL, NULL) && Distinct(g) && Preorder(g) == Preorder(f)
      ensures Restructured(c, f, g)
      ensures log == Preorder(f)
    {
      Finalize(m, f, NULL);
      g := MenuForest.Finalize(c, f);
      FinalizePreorder(c, f);
      SamePreorder(f, g);
      assert g.rest == Nest(c, f).rest;
      assert Preorder(g) == [g.id] + Preorder(g.kids) + Preorder(g.rest);
      NestNoRest(c, f);
    }

    // m heads the chain f of children of par; the links come to show the
    // restructured chain, and every menu that ends up below m is finalised once
    method Finalize(m: int, ghost f: Forest, ghost par: int)
      requires f.Node? && Seg(H(), m, f, par, NULL) && Distinct(f)
      modifies this`next, this`list, this`parent, this`log
      ensures Seg(H(), m, MenuForest.Finalize(c, f), par, NULL)
      ensures Restructured(c, f, MenuForest.Finalize(c, f))
      ensures Same(old(H()), H(), Ids(f))
      ensures log == old(log) + ([m] + Preorder(MenuForest.Finalize(c, f).kids))
      decreases Count(f), 3
    {
      hide Seg, Distinct, Same, Ids, Preorder, Restructured;
      FinalizeShape(c, f);
      log := log + [m];
      ghost var h0, n := H(), Nest(c, f);
      NestChildren(m, f, par);
      ghost var h1 := H();
      NestPreorder(c, f);
      FlattenPreorder(c, n.kids);
      SamePreorder(f, n);
      KidsInside(n);
      FlattenChildren(m, n, par);
      SameTransitive(h0, h1, H(), Ids(n.kids), Ids(f));
    }

    method NestChildren(m: int, ghost f: Forest, ghost par: int)
      requires f.Node? && Seg(H(), m, f, par, NULL) && Distinct(f)
      modifies this`next, this`list, this`parent, this`log
      ensures Seg(H(), m, Nest(c, f), par, NULL)
      ensures Same(old(H()), H(), Ids(f))
      ensures log == old(log) + Preorder(Nest(c, f).kids)
      decreases Count(f), 2, 1
    {
      Opened(H(), m, f, par);
      if list[m] != NULL {
        FinalizeChildren(m, f, par);
      } else if c.hasSym(m) {
        AbsorbSiblings(m, f, par);
      }
    }

    // finalise the children one by one; each may take in later ones
    method FinalizeChildren(m: int, ghost f: Forest, ghost par: int)
      requires f.Node? && f.kids.Node? && Seg(H(), m, f, par, NULL) && Distinct(f)
      modifies this`next, this`list, this`parent, this`log
      ensures Seg(H(), m, Nest(c, f), par, NULL)
      ensures Same(old(H()), H(), Ids(f.kids))
      ensures log == old(log) + Preorder(Nest(c, f).kids)
      decreases Count(f), 2, 0
    {
      hide Walking, Seg, Distinct, Same, Ids, Preorder, Append, Restructured, FinalizeChain;
      ghost var h0, all, done, cur := H(), Ids(f.kids), Nil, f.kids;
      Opened(h0, m, f, par);
      Start(h0, all, FinalizeChain(c, cur));
      var menu := list[m];
      while menu != NULL
        invariant InRange(H(), m)
        invariant Walking(H(), list[m], done, m, menu, cur, m, all)
        invariant Append(done, FinalizeChain(c, cur)) == FinalizeChain(c, f.kids)
        invariant Same(h0, H(), all) && Count(cur) < Count(f)
        invariant log == old(log) + Preorder(done)
        decreases Count(cur)
      {
        WalkingParts(H(), list[m], done, m, menu, cur, m, all);
        ghost var h1, g := H(), MenuForest.Finalize(c, cur);
        Finalize(menu, cur, m);
        FinalizePreorder(c, cur);
        Untouched(h1, H(), Ids(cur), m);
        SplitHead(H(), menu, g, m);
        Advance(h1, H(), list[m], done, m, menu, cur, g, m, all);
        SameTransitive(h0, h1, H(), Ids(cur), all);
        ChainStep(c, cur);
        AppendHead(done, Node(g.id, g.kids, FinalizeChain(c, g.rest)));
        done, cur := Append(done, Head(g)), g.rest;
        menu := next[menu];
      }
      Reopened(h0, H(), m, f, par, menu, done, cur);
      ChainStep(c, cur);
      AppendAssociates(done, Nil, Nil);
    }

    // take in the following siblings as long as they nest below m
    method AbsorbSiblings(m: int, ghost f: Forest, ghost par: int)
      requires f.Node? && f.kids.Nil? && Seg(H(), m, f, par, NULL) && Distinct(f) && c.hasSym(m)
      modifies this`next, this`list, this`parent, this`log
      ensures Seg(H(), m, Nest(c, f), par, NULL)
      ensures forall x :: x in Tops(Nest(c, f).kids) ==> c.nests(m, x)
      ensures Nest(c, f).rest.Node? ==> !c.nests(m, Nest(c, f).rest.id)
      ensures Same(old(H()), H(), {m} + Ids(f.rest))
      ensures log == old(log) + Preorder(Nest(c, f).kids)
      decreases Count(f), 2, 0
    {
      hide Walking, Seg, Distinct, Same, Ids, Preorder, Append, Absorb, Nest;
      ghost var h0, all := H(), Ids(f.rest);
      Opened(h0, m, f, par);
      ghost var done, cur;
      var menu, last;
      menu, last, done, cur := TakeAll(m, f, par);
      NestAbsorbed(c, f);
      AbsorbExact(c, m, f.rest);
      if last != NULL {
        CutOff(m, last, done, cur, menu, par, h0, all);
      } else {
        NothingDone(H(), m, done, cur, menu, par, all, h0);
      }
    }

    // the loop; the siblings taken in are still linked behind m
    method TakeAll(m: int, ghost f: Forest, ghost par: int)
      returns (menu: int, last: int, ghost done: Forest, ghost cur: Forest)
      requires f.Node? && f.kids.Nil? && Seg(H(), m, f, par, NULL) && Distinct(f)
      modifies this`next, this`list, this`parent, this`log
      ensures InRange(H(), m) && parent[m] == par && list[m] == NULL
      ensures Walking(H(), next[m], done, m, menu, cur, par, Ids(f.rest))
      ensures (done, cur) == Absorb(c, m, f.rest) && last == Last(done)
      ensures Same(old(H()), H(), Ids(f.rest)) && log == old(log) + Preorder(done)
      decreases Count(f), 1, 0
    {
      hide Walking, Seg, Distinct, Same, Ids, Preorder, Append;
      ghost var h0, all := H(), Ids(f.rest);
      done, cur := Nil, f.rest;
      Opened(h0, m, f, par);
      Start(h0, all, Absorb(c, m, cur).0);
      menu, last := next[m], NULL;
      while menu != NULL && c.nests(m, menu)
        invariant InRange(H(), m) && parent[m] == par && list[m] == NULL
        invariant Walking(H(), next[m], done, m, menu, cur, par, all)
        invariant Absorb(c, m, f.rest) == (Append(done, Absorb(c, m, cur).0), Absorb(c, m, cur).1)
        invariant Same(h0, H(), all) && Count(cur) < Count(f)
        invariant log == old(log) + Preorder(done)
        invariant last == Last(done)
        decreases Count(cur)
      {
        WalkingParts(H(), next[m], done, m, menu, cur, par, all);
        ghost var g := MenuForest.Finalize(c, cur);
        AppendHead(done, Node(g.id, g.kids, Absorb(c, m, g.rest).0));
        TakeNext(menu, m, done, cur, par, all, h0);
        last := menu;
        done, cur := Append(done, Head(g)), g.rest;
        menu := next[menu];
      }
      WalkingParts(H(), next[m], done, m, menu, cur, par, all);
      AppendAssociates(done, Nil, Nil);
    }

    // one round of the loop
    method TakeNext(menu: int, m: int, ghost done: Forest, ghost cur: Forest, ghost par: int, ghost all: set<int>,
                    ghost h0: Links)
      requires InRange(H(), m) && m !in all && cur.Node? && menu == cur.id && menu in Ids(cur)
      requires Walking(H(), next[m], done, m, menu, cur, par, all)
      requires Seg(H(), menu, cur, par, NULL) && Distinct(cur) && Ids(cur) <= all && Same(h0, H(), all)
      modifies this`next, this`list, this`parent, this`log
      ensures var g := MenuForest.Finalize(c, cur); var taken := Append(done, Head(g));
        && InRange(H(), m) && InRange(H(), menu)
        && parent[m] == old(parent[m]) && list[m] == old(list[m])
        && Walking(H(), next[m], taken, m, next[menu], g.rest, par, all)
        && Same(h0, H(), all) && Last(taken) == menu
        && log == old(log) + ([menu] + Preorder(g.kids))
      decreases Count(cur), 5
    {
      hide Walking, Seg, Distinct, Same, Ids, Preorder, Append;
      ghost var h1, g := H(), MenuForest.Finalize(c, cur);
      TakeIn(menu, m, cur, par);
      FinalizePreorder(c, cur);
      Untouched(h1, H(), Ids(cur), m);
      Advance(h1, H(), next[m], done, m, menu, cur, g, par, all);
      SameTransitive(h0, h1, H(), Ids(cur), all);
      AppendHead(done, g);
      LastSnoc(done, Head(g));
    }

    // finalise one sibling and make it a child of m
    method TakeIn(menu: int, m: int, ghost cur: Forest, ghost par: int)
      requires cur.Node? && Seg(H(), menu, cur, par, NULL) && Distinct(cur) && menu in Ids(cur)
      modifies this`next, this`list, this`parent, this`log
      ensures Same(old(H()), H(), Ids(cur)) && InRange(H(), menu)
      ensures var g := MenuForest.Finalize(c, cur);
        && Seg(H(), menu, Head(g), m, next[menu]) && Seg(H(), next[menu], g.rest, par, NULL)
        && log == old(log) + ([menu] + Preorder(g.kids))
      decreases Count(cur), 4
    {
      hide Seg, Distinct, Same, Ids, Restructured;
      ghost var h, g := H(), MenuForest.Finalize(c, cur);
      Finalize(menu, cur, par);
      FinalizePreorder(c, cur);
      SamePreorder(cur, g);
      SplitHead(H(), menu, g, par);
      ghost var h1 := H();
      Reparent(menu, m, g, par);
      SameTransitive(h, h1, H(), {menu}, Ids(cur));
    }

    // menu->parent = parent, for the head of a chain
    method Reparent(menu: int, m: int, ghost g: Forest, ghost par: int)
      requires g.Node? && Seg(H(), menu, g, par, NULL) && Distinct(g)
      modifies this`parent
      ensures Same(old(H()), H(), {menu}) && InRange(H(), menu) && next[menu] == old(next[menu])
      ensures Seg(H(), menu, Head(g), m, next[menu]) && Seg(H(), next[menu], g.rest, par, NULL)
    {
      ghost var h := H();
      parent := parent[menu := m];
      SegSame(h, H(), {menu}, h.next[menu], g.rest, par, NULL);
      SegSame(h, H(), {menu}, h.list[menu], g.kids, menu, NULL);
    }

    // the siblings up to last become the children of m
    method CutOff(m: int, last: int, ghost done: Forest, ghost cur: Forest, ghost menu: int, ghost par: int,
                  ghost h0: Links, ghost all: set<int>)
      requires InRange(H(), m) && parent[m] == par && list[m] == NULL
      requires Walking(H(), next[m], done, m, menu, cur, par, all)
      requires m !in all && last == Last(done) != NULL && Same(h0, H(), all)
      modifies this`next, this`list
      ensures Seg(H(), m, Node(m, done, cur), par, NULL)
      ensures Same(h0, H(), {m} + all)
    {
      ghost var h, first := H(), next[m];
      SegLast(h, first, done, m, menu);
      list := list[m := next[m]];
      next := next[m := next[last]];
      next := next[last := NULL];
      SegRelink(h, first, done, m, menu, NULL);
      SegSame(h.(next := h.next[last := NULL]), H(), {m}, first, done, m, NULL);
      SegSame(h, H(), {m} + Ids(done), menu, cur, par, NULL);
    }

    lemma NothingDone(h: Links, m: int, done: Forest, cur: Forest, menu: int, par: int, all: set<int>, h0: Links)
      requires InRange(h, m) && h.parent[m] == par && h.list[m] == NULL && Last(done) == NULL
      requires Walking(h, h.next[m], done, m, menu, cur, par, all) && Same(h0, h, all)
      ensures done == Nil && Seg(h, m, Node(m, Nil, cur), par, NULL) && Same(h0, h, {m} + all)
    {
      if done.Node? {
        SegLast(h, h.next[m], done, m, menu);
      }
    }

    // lift the children of every child without a prompt text
    method FlattenChildren(m: int, ghost s: Forest, ghost par: int)
      requires s.Node? && Seg(H(), m, s, par, NULL) && Distinct(s)
      modifies this`next, this`list, this`parent
      ensures Seg(H(), m, Node(s.id, Flatten(c, s.kids), s.rest), par, NULL)
      ensures Same(old(H()), H(), Ids(s.kids))
    {
      hide Walking, Seg, Distinct, Same, Ids, Preorder, Append;
      ghost var h0, all, done, cur := H(), Ids(s.kids), Nil, s.kids;
      Opened(h0, m, s, par);
      Start(h0, all, Flatten(c, cur));
      var menu := list[m];
      while menu != NULL
        invariant InRange(H(), m)
        invariant Walking(H(), list[m], done, m, menu, cur, m, all)
        invariant Append(done, Flatten(c, cur)) == Flatten(c, s.kids)
        invariant Same(h0, H(), all)
        decreases Count(cur)
      {
        WalkingParts(H(), list[m], done, m, menu, cur, m, all);
        ghost var h1, g := H(), cur;
        Opened(h1, menu, cur, m);
        if list[menu] != NULL && c.hidden(menu) {
          g := Lift(menu, m, cur);
        } else {
          SameSelf(h1, Ids(cur));
        }
        Untouched(h1, H(), Ids(cur), m);
        SplitHead(H(), menu, g, m);
        Advance(h1, H(), list[m], done, m, menu, cur, g, m, all);
        SameTransitive(h0, h1, H(), Ids(cur), all);
        AppendHead(done, Node(g.id, g.kids, Flatten(c, g.rest)));
        done, cur := Append(done, Head(g)), g.rest;
        menu := next[menu];
      }
      Reopened(h0, H(), m, s, par, menu, done, cur);
      AppendAssociates(done, Nil, Nil);
    }

    // splice the children of menu into the chain behind it
    method Lift(menu: int, m: int, ghost f: Forest) returns (ghost g: Forest)
      requires f.Node? && f.kids.Node? && Seg(H(), menu, f, m, NULL) && Distinct(f)
      modifies this`next, this`list, this`parent
      ensures g == Node(f.id, Nil, Append(f.kids, f.rest)) && Preorder(g) == Preorder(f)
      ensures Seg(H(), menu, g, m, NULL)
      ensures Same(old(H()), H(), Ids(f))
    {
      g := Node(f.id, Nil, Append(f.kids, f.rest));
      LiftPreorder(f);
      hide Preorder, Append;
      ghost var h0 := H();
      var last := ReparentAll(menu, m, f.kids);
      ghost var h, first := H(), list[menu];
      SegSame(h0, h, Ids(f.kids), h.next[menu], f.rest, m, NULL);
      SegLast(h, first, f.kids, m, NULL);
      next := next[last := next[menu]];
      SegRelink(h, first, f.kids, m, NULL, h.next[menu]);
      SegSame(h, H(), {last}, h.next[menu], f.rest, m, NULL);
      ghost var h2 := H();
      next := next[menu := list[menu]];
      list := list[menu := NULL];
      SegAppend(h2, first, f.kids, m, h2.next[menu], f.rest, NULL);
      AppendIds(f.kids, f.rest);
      SegSame(h2, H(), {menu}, first, Append(f.kids, f.rest), m, NULL);
    }

    // the loop that gives the children of menu another parent and finds the last
    method ReparentAll(menu: int, m: int, ghost kids: Forest) returns (last: int)
      requires InRange(H(), menu) && kids.Node? && Seg(H(), list[menu], kids, menu, NULL)
      requires Distinct(kids) && menu !in Ids(kids)
      modifies this`parent
      ensures Seg(H(), list[menu], kids, m, NULL) && last == Last(kids)
      ensures Same(old(H()), H(), Ids(kids))
    {
      ghost var h0, done, cur := H(), Nil, kids;
      last := list[menu];
      while true
        invariant Walking(H(), list[menu], done, m, last, cur, menu, Ids(kids)) && cur.Node?
        invariant Append(done, cur) == kids
        invariant Same(h0, H(), Ids(kids))
        decreases Count(cur)
      {
        ghost var h1 := H();
        Reparent(last, m, cur, menu);
        Advance(h1, H(), list[menu], done, m, last, cur, cur, menu, Ids(kids));
        AppendHead(done, cur);
        LastSnoc(done, Head(cur));
        NullMeansNil(H(), next[last], cur.rest, menu);
        done, cur := Append(done, Head(cur)), cur.rest;
        if next[last] == NULL {
          break;
        }
        last := next[last];
      }
      AppendAssociates(done, Nil, Nil);
    }
  }
}
