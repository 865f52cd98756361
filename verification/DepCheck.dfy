/** The search for recursive dependencies (sym_check_expr_deps,
    sym_check_sym_deps, sym_check_deps) on non-choice symbols. */
module DepCheck {
  import opened Options
  import opened Sequences
  import opened Exprs
  import opened SymbolEval

  // The properties sym_check_sym_deps walks; choice and select properties are
  // skipped, and only a default's expression is walked besides its visibility
  datatype Prop = Skipped | Other(visible: Dep) | DefaultProp(visible: Dep, value: Expr)

  datatype Node = Node(rev: Dep, props: seq<Prop>)

  type Graph = map<Sym, Node>

  function NodeOf(g: Graph, s: Sym): Node { if s in g then g[s] else Node(None, []) }

  // the symbols searched, in sets
  function DepSyms(d: Dep): set<Sym> { if d.None? then {} else Syms(d.value) }

  function PropSyms(p: Prop): set<Sym> {
    match p
    case Skipped => {}
    case Other(d) => DepSyms(d)
    case DefaultProp(d, e) => DepSyms(d) + Syms(e)
  }

  function PropsSyms(ps: seq<Prop>): set<Sym> {
    if ps == [] then {} else PropsSyms(ps[..|ps| - 1]) + PropSyms(ps[|ps| - 1])
  }

  // everything searched below s
  function Succ(g: Graph, s: Sym): set<Sym> {
    DepSyms(NodeOf(g, s).rev) + PropsSyms(NodeOf(g, s).props)
  }

  // the same in the order of the search
  function DepList(d: Dep): seq<Sym> { if d.None? then [] else Mentions(d.value) }

  function PropList(p: Prop): seq<Sym> {
    match p
    case Skipped => []
    case Other(d) => DepList(d)
    case DefaultProp(d, e) => DepList(d) + Mentions(e)
  }

  function PropsList(ps: seq<Prop>): seq<Sym> {
    if ps == [] then [] else PropsList(ps[..|ps| - 1]) + PropList(ps[|ps| - 1])
  }

  function SuccList(g: Graph, s: Sym): seq<Sym> {
    DepList(NodeOf(g, s).rev) + PropsList(NodeOf(g, s).props)
  }

  // a search below sym that has looked up these symbols
  datatype Search = Search(sym: Sym, asked: seq<Sym>)

  // list was looked up from the front, to its end unless a recursion was found
  predicate LookedUp(before: seq<Sym>, after: seq<Sym>, list: seq<Sym>, found: Option<Sym>) {
    before <= after <= before + list && (found.None? ==> after == before + list)
  }

  lemma LookedUpBoth(a: seq<Sym>, b: seq<Sym>, c: seq<Sym>, x: seq<Sym>, y: seq<Sym>, found: Option<Sym>)
    requires LookedUp(a, b, x, None) && LookedUp(b, c, y, found)
    ensures LookedUp(a, c, x + y, found)
  {
    assert a + x + y == a + (x + y);
  }

  lemma LookedUpMore(a: seq<Sym>, b: seq<Sym>, x: seq<Sym>, z: seq<Sym>, found: Option<Sym>)
    requires LookedUp(a, b, x, found) && x <= z
    ensures found.Some? ==> LookedUp(a, b, z, found)
  {
    assert a + z == a + x + z[|x|..];
  }

  lemma LookedUpOne(a: seq<Sym>, s: Sym, found: Option<Sym>)
    ensures LookedUp(a, a + [s], [s], found)
  {
  }

  lemma LookedUpNothing(a: seq<Sym>)
    ensures LookedUp(a, a, [], None)
  {
  }

  lemma PropsListStep(ps: seq<Prop>, k: nat)
    requires k < |ps|
    ensures PropsList(ps[..k + 1]) == PropsList(ps[..k]) + PropList(ps[k])
  {
    hide PropList;
    assert ps[..k + 1][..k] == ps[..k];
  }

  lemma {:induction false} PropsListPrefix(ps: seq<Prop>, k: nat)
    requires k <= |ps|
    ensures PropsList(ps[..k]) <= PropsList(ps)
  {
    hide PropList, PropsList;
    var n := |ps| - 1;
    if k == |ps| {
      assert ps[..k] == ps;
    } else {
      PropsListPrefix(ps[..n], k);
      assert ps[..n][..k] == ps[..k] && ps[..n + 1] == ps;
      PropsListStep(ps, n);
    }
  }

  lemma {:induction false} PropsSymsPrefix(ps: seq<Prop>, k: nat)
    requires k < |ps|
    ensures PropSyms(ps[k]) <= PropsSyms(ps)
  {
    if k < |ps| - 1 {
      PropsSymsPrefix(ps[..|ps| - 1], k);
    }
  }

  ghost predicate IsPath(g: Graph, p: seq<Sym>) {
    forall k :: 0 <= k < |p| - 1 ==> p[k + 1] in Succ(g, p[k])
  }

  predicate DepContains(d: Dep, x: Sym) { d.Some? && Contains(d.value, x) }

  lemma {:induction false} PropsSymsExact(ps: seq<Prop>, x: Sym)
    ensures x in PropsSyms(ps) <==> exists k :: 0 <= k < |ps| && x in PropSyms(ps[k])
  {
    if ps != [] {
      var front := ps[..|ps| - 1];
      PropsSymsExact(front, x);
      if k :| 0 <= k < |front| && x in PropSyms(front[k]) {
        assert x in PropSyms(ps[k]);
      }
      if k :| 0 <= k < |ps| && x in PropSyms(ps[k]) {
        assert k < |front| ==> front[k] == ps[k];
      }
    }
  }

  // the condition of a property that is not skipped, or what a default yields
  predicate PropReads(p: Prop, x: Sym) {
    !p.Skipped? && (DepContains(p.visible, x) || (p.DefaultProp? && Contains(p.value, x)))
  }

  // What is searched below a symbol: its reverse dependency and its properties
  lemma SuccExact(g: Graph, s: Sym, x: Sym)
    requires s in g
    ensures x in Succ(g, s) <==>
      DepContains(g[s].rev, x) || exists k :: 0 <= k < |g[s].props| && PropReads(g[s].props[k], x)
  {
    PropsSymsExact(g[s].props, x);
  }

  // a closed walk
  ghost predicate IsCycle(g: Graph, p: seq<Sym>) {
    p != [] && IsPath(g, p) && p[0] in Succ(g, p[|p| - 1])
  }

  ghost predicate Acyclic(g: Graph) { forall p :: !IsCycle(g, p) }

  // everything searched is among all
  ghost predicate Closed(g: Graph, all: set<Sym>) {
    forall s :: s in all ==> Succ(g, s) <= all
  }

  predicate Distinct(q: seq<Sym>) {
    q == [] || (Distinct(q[..|q| - 1]) && q[|q| - 1] !in q[..|q| - 1])
  }

  // finished symbols, each only leading to earlier ones
  ghost predicate Topological(g: Graph, order: seq<Sym>) {
    forall i :: 0 <= i < |order| ==> Succ(g, order[i]) <= Elems(order[..i])
  }

  lemma TopologicalAppend(g: Graph, order: seq<Sym>, s: Sym)
    requires Topological(g, order) && Succ(g, s) <= Elems(order)
    ensures Topological(g, order + [s]) && Elems(order + [s]) == Elems(order) + {s}
  {
    forall i | 0 <= i < |order + [s]| ensures Succ(g, (order + [s])[i]) <= Elems((order + [s])[..i]) {
      assert (order + [s])[..i] == order[..i];
      assert order[..|order|] == order;
    }
  }

  class Checker {
    const g: Graph
    var check: set<Sym>           // SYMBOL_CHECK
    var checked: set<Sym>         // SYMBOL_CHECKED
    var stack: seq<Sym>           // check_top and its predecessors, top last
    var reports: seq<seq<Sym>>    // the cycles printed so far
    ghost var order: seq<Sym>     // symbols in the order their search ended
    ghost var asked: seq<Sym>     // looked up by the search on top of the stack
    ghost var searches: seq<Search>   // the searches that have ended

    constructor (g: Graph)
      ensures this.g == g && check == checked == {} && stack == order == asked == [] && reports == [] && searches == []
    {
      this.g := g;
      check, checked, stack, reports, order, asked, searches := {}, {}, [], [], [], [], [];
    }

    // s is marked but not yet on the stack; the general state has s none
    ghost predicate ValidWith(marked: set<Sym>)
      reads this
    {
      && check == Elems(stack) + marked && marked !! Elems(stack)
      && check <= checked
      && Distinct(stack)
      && IsPath(g, stack)
      && (forall k :: 0 <= k < |reports| ==> IsCycle(g, reports[k]) && reports[k][0] in checked)
      && (reports == [] ==> Elems(order) == checked - check && Topological(g, order))
      && (forall k :: 0 <= k < |searches| ==> searches[k].asked <= SuccList(g, searches[k].sym))
    }

    ghost predicate Valid()
      reads this
    {
      ValidWith({})
    }

    // The symbol whose recursion is being reported: the first of the last cycle,
    // until its own search ends
    ghost function Open(): (s: Option<Sym>)
      reads this
    {
      if reports != [] && reports[|reports| - 1] != [] && reports[|reports| - 1][0] in check
      then Some(reports[|reports| - 1][0]) else None
    }

    // what any part of the search leaves as it found it
    twostate predicate Restored()
      reads this
    {
      && check == old(check) && stack == old(stack)
      && old(checked) <= checked
      && old(reports) <= reports && old(order) <= order && old(searches) <= searches
    }

    // symbols whose search has ended
    ghost function Done(): set<Sym>
      reads this
    {
      checked - check
    }

    // dep_stack_insert
    method Insert(s: Sym)
      requires ValidWith({s}) && (stack == [] || s in Succ(g, stack[|stack| - 1]))
      modifies this`stack
      ensures Valid() && stack == old(stack) + [s]
    {
      ghost var was := stack;
      stack := stack + [s];
      assert stack[..|stack| - 1] == was;
      assert Elems(stack) == Elems(was) + {s};
    }

    // dep_stack_remove
    method Remove()
      requires Valid() && stack != []
      modifies this`stack
      ensures stack == old(stack[..|stack| - 1]) && ValidWith({old(stack[|stack| - 1])})
    {
      stack := stack[..|stack| - 1];
      assert old(stack) == stack + [old(stack[|stack| - 1])];
    }

    // sym_check_print_recursive: the part of the stack from s to the top
    method PrintRecursive(s: Sym)
      requires Valid() && s in stack && stack != [] && s in Succ(g, stack[|stack| - 1])
      modifies this`reports
      ensures Valid() && |reports| == |old(reports)| + 1 && old(reports) <= reports
      ensures var c := reports[|reports| - 1];
        IsCycle(g, c) && c[0] == s && |c| <= |stack| && c == stack[|stack| - |c|..] && Elems(c) <= check
    {
      var k := |stack| - 1;
      while stack[k] != s
        invariant 0 <= k < |stack| && s in stack[..k + 1]
        decreases k
      {
        k := k - 1;
      }
      ghost var was := reports;
      StackCycle(k);
      reports := reports + [stack[k..]];
      assert reports[..|was|] == was && reports[|was|] == stack[k..];
    }

    lemma StackCycle(k: nat)
      requires Valid() && k < |stack| && stack[k] in Succ(g, stack[|stack| - 1])
      ensures IsCycle(g, stack[k..]) && Elems(stack[k..]) <= check
    {
      var c := stack[k..];
      assert forall i :: 0 <= i < |c| ==> c[i] == stack[k + i];
    }

    lemma SuccInside(all: set<Sym>)
      requires Valid() && Closed(g, all) && checked <= all && stack != []
      ensures Succ(g, stack[|stack| - 1]) <= all
    {
      assert stack[|stack| - 1] in Elems(stack);
    }

    // sym_check_expr_deps
    method CheckExpr(e: Expr, ghost all: set<Sym>) returns (found: Option<Sym>)
      requires Valid() && Open() == None && Closed(g, all) && checked <= all && stack != []
      requires Syms(e) <= Succ(g, stack[|stack| - 1])
      modifies this`check, this`checked, this`stack, this`reports, this`order, this`asked, this`searches
      ensures Valid() && Restored() && checked <= all
      ensures found == Open()
      ensures found.None? ==> Syms(e) <= checked
      ensures LookedUp(old(asked), asked, Mentions(e), found)
      ensures found.None? && reports == [] ==> Syms(e) <= Done()
      decreases all - checked, 1, e
    {
      hide ValidWith, Topological, Closed, LookedUp;
      match e
      case Leaf(s) =>
        SuccInside(all);
        found := CheckDeps(s, all);
        LookedUpOne(old(asked), s, found);
      case Not(x) => found := CheckExpr(x, all);
      case Cmp(_, a, b) => found := CheckOperands(a, b, all);
      case Bin(_, a, b) => found := CheckBoth(e, all);
    }

    // both sides of an AND or OR, the second unless the first found a recursion
    method CheckBoth(e: Expr, ghost all: set<Sym>) returns (found: Option<Sym>)
      requires e.Bin?
      requires Valid() && Open() == None && Closed(g, all) && checked <= all && stack != []
      requires Syms(e) <= Succ(g, stack[|stack| - 1])
      modifies this`check, this`checked, this`stack, this`reports, this`order, this`asked, this`searches
      ensures Valid() && Restored() && checked <= all
      ensures found == Open()
      ensures found.None? ==> Syms(e) <= checked
      ensures LookedUp(old(asked), asked, Mentions(e), found)
      ensures found.None? && reports == [] ==> Syms(e) <= Done()
      decreases all - checked, 1, e, 0
    {
      hide ValidWith, Topological, Closed, LookedUp;
      found := CheckExpr(e.left, all);
      ghost var mid := asked;
      LookedUpMore(old(asked), mid, Mentions(e.left), Mentions(e), found);
      if found.None? {
        found := CheckExpr(e.right, all);
        LookedUpBoth(old(asked), mid, asked, Mentions(e.left), Mentions(e.right), found);
      }
    }

    // the same for the symbols of a comparison
    method CheckOperands(a: Sym, b: Sym, ghost all: set<Sym>) returns (found: Option<Sym>)
      requires Valid() && Open() == None && Closed(g, all) && checked <= all && stack != []
      requires {a, b} <= Succ(g, stack[|stack| - 1])
      modifies this`check, this`checked, this`stack, this`reports, this`order, this`asked, this`searches
      ensures Valid() && Restored() && checked <= all
      ensures found == Open()
      ensures found.None? ==> {a, b} <= checked
      ensures LookedUp(old(asked), asked, [a, b], found)
      ensures found.None? && reports == [] ==> {a, b} <= Done()
      decreases all - checked, 0, 1
    {
      hide ValidWith, Topological, Closed, LookedUp;
      SuccInside(all);
      found := CheckDeps(a, all);
      ghost var mid := asked;
      LookedUpOne(old(asked), a, found);
      LookedUpMore(old(asked), mid, [a], [a, b], found);
      if found.None? {
        found := CheckDeps(b, all);
        LookedUpOne(mid, b, found);
        LookedUpBoth(old(asked), mid, asked, [a], [b], found);
        assert [a] + [b] == [a, b];
      }
    }

    method CheckDep(d: Dep, ghost all: set<Sym>) returns (found: Option<Sym>)
      requires Valid() && Open() == None && Closed(g, all) && checked <= all && stack != []
      requires DepSyms(d) <= Succ(g, stack[|stack| - 1])
      modifies this`check, this`checked, this`stack, this`reports, this`order, this`asked, this`searches
      ensures Valid() && Restored() && checked <= all
      ensures found == Open()
      ensures found.None? ==> DepSyms(d) <= checked
      ensures LookedUp(old(asked), asked, DepList(d), found)
      ensures found.None? && reports == [] ==> DepSyms(d) <= Done()
      decreases all - checked, 2, 0
    {
      hide ValidWith, Topological, Closed, LookedUp;
      found := None;
      LookedUpNothing(asked);
      if d.Some? {
        found := CheckExpr(d.value, all);
      }
    }

    // sym_check_sym_deps: s is marked, everything it mentions is searched
    method CheckSymDeps(s: Sym, ghost all: set<Sym>) returns (found: Option<Sym>)
      requires ValidWith({s}) && Open() == None && Closed(g, all) && checked <= all
      requires stack == [] || s in Succ(g, stack[|stack| - 1])
      modifies this`check, this`checked, this`stack, this`reports, this`order, this`asked, this`searches
      ensures ValidWith({s}) && Restored() && checked <= all
      ensures found == Open()
      ensures found.None? ==> Succ(g, s) <= checked
      // everything below s was looked up in order, to the end if found is none
      ensures asked == old(asked) && |searches| > |old(searches)|
      ensures var last := searches[|searches| - 1]; last.sym == s && LookedUp([], last.asked, SuccList(g, s), found)
      ensures found.None? && reports == [] ==> Succ(g, s) <= Done()
      decreases all - checked, 3
    {
      hide ValidWith, Topological, Closed, LookedUp;
      hide SuccList, PropsList, PropsSyms, Succ;
      ghost var before := asked;
      SetAsked([], {s});
      Insert(s);
      found := CheckNode(s, all);
      Remove();
      Record(s, found);
      SetAsked(before, {s});
    }

    // everything below the symbol on top of the stack
    method CheckNode(s: Sym, ghost all: set<Sym>) returns (found: Option<Sym>)
      requires Valid() && Open() == None && Closed(g, all) && checked <= all && stack != [] && stack[|stack| - 1] == s
      modifies this`check, this`checked, this`stack, this`reports, this`order, this`asked, this`searches
      ensures Valid() && Restored() && checked <= all
      ensures found == Open()
      ensures found.None? ==> Succ(g, s) <= checked
      ensures LookedUp(old(asked), asked, SuccList(g, s), found)
      ensures found.None? && reports == [] ==> Succ(g, s) <= Done()
      decreases all - checked, 2, 3
    {
      hide ValidWith, Topological, Closed, LookedUp, PropsList, PropsSyms, DepList, DepSyms;
      var node := NodeOf(g, s);
      found := CheckDep(node.rev, all);
      ghost var mid := asked;
      LookedUpMore(old(asked), mid, DepList(node.rev), SuccList(g, s), found);
      if found.None? {
        found := CheckProps(node.props, all);
        LookedUpBoth(old(asked), mid, asked, DepList(node.rev), PropsList(node.props), found);
      }
    }

    ghost method SetAsked(list: seq<Sym>, marked: set<Sym>)
      requires ValidWith(marked)
      modifies this`asked
      ensures ValidWith(marked) && asked == list
    {
      asked := list;
    }

    // the search below s has ended
    ghost method Record(s: Sym, found: Option<Sym>)
      requires ValidWith({s}) && LookedUp([], asked, SuccList(g, s), found)
      modifies this`searches
      ensures ValidWith({s}) && searches == old(searches) + [Search(s, asked)]
    {
      hide Distinct, IsPath, IsCycle, Topological, SuccList, Elems;
      searches := searches + [Search(s, asked)];
    }

    method CheckProps(props: seq<Prop>, ghost all: set<Sym>) returns (found: Option<Sym>)
      requires Valid() && Open() == None && Closed(g, all) && checked <= all && stack != []
      requires PropsSyms(props) <= Succ(g, stack[|stack| - 1])
      modifies this`check, this`checked, this`stack, this`reports, this`order, this`asked, this`searches
      ensures Valid() && Restored() && checked <= all
      ensures found == Open()
      ensures found.None? ==> PropsSyms(props) <= checked
      ensures LookedUp(old(asked), asked, PropsList(props), found)
      ensures found.None? && reports == [] ==> PropsSyms(props) <= Done()
      decreases all - checked, 2, 2
    {
      hide ValidWith, Topological, Closed, LookedUp;
      found := None;
      LookedUpNothing(asked);
      var k := 0;
      assert props[..0] == [];
      while found.None? && k < |props|
        invariant 0 <= k <= |props| && Valid() && checked <= all
        invariant check == old(check) && stack == old(stack)
        invariant old(checked) <= checked && old(reports) <= reports && old(order) <= order
        invariant found == Open() && (found.None? ==> PropsSyms(props[..k]) <= checked)
        invariant found.None? && reports == [] ==> PropsSyms(props[..k]) <= Done()
        invariant old(searches) <= searches && LookedUp(old(asked), asked, PropsList(props[..k]), found)
      {
        assert props[..k + 1][..k] == props[..k];
        PropsSymsPrefix(props, k);
        ghost var mid := asked;
        found := CheckProp(props[k], all);
        PropsListStep(props, k);
        LookedUpBoth(old(asked), mid, asked, PropsList(props[..k]), PropList(props[k]), found);
        k := k + 1;
      }
      assert props[..|props|] == props;
      PropsListPrefix(props, k);
      LookedUpMore(old(asked), asked, PropsList(props[..k]), PropsList(props), found);
    }

    method CheckProp(p: Prop, ghost all: set<Sym>) returns (found: Option<Sym>)
      requires Valid() && Open() == None && Closed(g, all) && checked <= all && stack != []
      requires PropSyms(p) <= Succ(g, stack[|stack| - 1])
      modifies this`check, this`checked, this`stack, this`reports, this`order, this`asked, this`searches
      ensures Valid() && Restored() && checked <= all
      ensures found == Open()
      ensures found.None? ==> PropSyms(p) <= checked
      ensures LookedUp(old(asked), asked, PropList(p), found)
      ensures found.None? && reports == [] ==> PropSyms(p) <= Done()
      decreases all - checked, 2, 1
    {
      hide ValidWith, Topological, Closed, LookedUp;
      found := None;
      LookedUpNothing(asked);
      if !p.Skipped? {
        found := CheckDep(p.visible, all);
        ghost var mid := asked;
        if p.DefaultProp? {
          LookedUpMore(old(asked), mid, DepList(p.visible), PropList(p), found);
          if found.None? {
            found := CheckExpr(p.value, all);
            LookedUpBoth(old(asked), mid, asked, DepList(p.visible), Mentions(p.value), found);
          }
        }
      }
    }

    // sym_check_deps
    method CheckDeps(s: Sym, ghost all: set<Sym>) returns (found: Option<Sym>)
      requires Valid() && Open() == None && Closed(g, all) && checked <= all && s in all
      requires stack == [] || s in Succ(g, stack[|stack| - 1])
      modifies this`check, this`checked, this`stack, this`reports, this`order, this`asked, this`searches
      ensures Valid() && Restored() && checked <= all && s in checked
      ensures found == Open() && asked == old(asked) + [s]
      ensures found.None? && reports == [] ==> s in Done()
      decreases all - checked, 0, 0
    {
      hide ValidWith, Topological, Closed, LookedUp, Succ, SuccList, IsCycle, IsPath, Distinct;
      SetAsked(asked + [s], {});
      if s in check {
        MarkedOnStack(s);
        PrintRecursive(s);
        return Some(s);
      }
      if s in checked {
        return None;
      }
      Mark(s);
      found := CheckSymDeps(s, all);
      Unmark(s);
      if found == Some(s) {
        found := None;
      }
    }

    lemma MarkedOnStack(s: Sym)
      requires Valid() && s in check
      ensures s in stack && stack != [] && s in checked
    {
    }

    // set SYMBOL_CHECK and SYMBOL_CHECKED
    method Mark(s: Sym)
      requires Valid() && s !in checked && Open() == None
      modifies this`check, this`checked
      ensures ValidWith({s}) && Open() == None && check == old(check) + {s} && checked == old(checked) + {s}
    {
      check, checked := check + {s}, checked + {s};
    }

    // clear SYMBOL_CHECK
    method Unmark(s: Sym)
      requires ValidWith({s}) && (reports == [] ==> Succ(g, s) <= Done())
      modifies this`check, this`order
      ensures Valid() && check == old(check) - {s} && order == old(order) + [s] && s in checked
    {
      if reports == [] {
        TopologicalAppend(g, order, s);
      }
      check := check - {s};
      order := order + [s];
    }

    // the loop of conf_parse; all is everything reachable from the list
    method CheckAll(list: seq<Sym>, ghost all: set<Sym>) returns (errors: int)
      requires Valid() && Closed(g, all) && check == checked == {} && stack == [] && reports == []
      requires g.Keys <= Elems(list) <= all && asked == []
      modifies this`check, this`checked, this`stack, this`reports, this`order, this`asked, this`searches
      ensures Valid() && check == {} && stack == []
      // a recursion is reported, but never returned
      ensures errors == 0
      ensures asked == list && Elems(list) <= checked
      ensures reports == [] ==> Topological(g, order) && Elems(list) <= Elems(order)
      ensures reports == [] <==> Acyclic(g)
    {
      errors := 0;
      for k := 0 to |list|
        invariant Valid() && check == {} && stack == [] && checked <= all && errors == 0
        invariant asked == list[..k] && Elems(list[..k]) <= checked
      {
        var found := CheckDeps(list[k], all);
        if found.Some? {
          errors := errors + 1;
        }
      }
      assert list[..|list|] == list;
      ReportsExact();
    }

    // a finished search has reported something exactly when there is a cycle
    lemma ReportsExact()
      requires Valid() && check == {} && g.Keys <= checked
      ensures reports == [] <==> Acyclic(g)
    {
      if reports != [] {
        assert IsCycle(g, reports[0]);
      } else {
        OrderAcyclic(g, order);
      }
    }
  }

  // ---------- no report means no cycle ----------

  // Along a path of finished symbols the positions in the order go down
  lemma {:induction false} PathDescends(g: Graph, order: seq<Sym>, p: seq<Sym>, i: nat) returns (j: nat)
    requires Topological(g, order) && IsPath(g, p) && p != [] && i < |order| && p[0] == order[i]
    ensures j <= i && j < |order| && order[j] == p[|p| - 1] && (|p| > 1 ==> j < i)
    decreases |p|
  {
    if |p| == 1 {
      j := i;
    } else {
      assert p[1] in Succ(g, p[0]) && p[1] in Elems(order[..i]);
      var i' :| 0 <= i' < i && order[i'] == p[1];
      j := PathDescends(g, order, p[1..], i');
    }
  }

  lemma NoCycleIn(g: Graph, order: seq<Sym>, p: seq<Sym>)
    requires Topological(g, order) && p != [] && p[0] in order
    ensures !IsCycle(g, p)
  {
    if IsCycle(g, p) {
      var round := p + [p[0]];
      assert IsPath(g, round);
      NoReturn(g, order, round);
    }
  }

  // a path of finished symbols never comes back to its start
  lemma NoReturn(g: Graph, order: seq<Sym>, p: seq<Sym>)
    requires Topological(g, order) && IsPath(g, p) && |p| > 1 && p[0] in order
    ensures p[|p| - 1] != p[0]
  {
    hide Topological, IsPath, Position;
    PositionBounds(order, p[0], |order|);
    assert order[..|order|] == order;
    var i := Position(order, p[0]) - 1;
    var j := PathDescends(g, order, p, i);
    if order[j] == p[0] {
      assert order[..j + 1][j] == order[j];
      PositionBounds(order, p[0], j + 1);
    }
  }

  lemma OrderAcyclic(g: Graph, order: seq<Sym>)
    requires Topological(g, order) && g.Keys <= Elems(order)
    ensures Acyclic(g)
  {
    forall p ensures !IsCycle(g, p) {
      if IsCycle(g, p) {
        StartsInside(g, p);
        NoCycleIn(g, order, p);
      }
    }
  }

  // one more than the first position of s, or 0
  function Position(order: seq<Sym>, s: Sym): nat {
    if order == [] then 0
    else
      var p := Position(order[..|order| - 1], s);
      if p > 0 then p else if order[|order| - 1] == s then |order| else 0
  }

  lemma {:induction false} PositionBounds(order: seq<Sym>, s: Sym, i: nat)
    requires i <= |order|
    ensures Position(order, s) <= |order|
    ensures s in Elems(order[..i]) ==> 1 <= Position(order, s) <= i
    ensures Position(order, s) > 0 ==> order[Position(order, s) - 1] == s
  {
    if order != [] {
      var init := order[..|order| - 1];
      if i < |order| {
        assert init[..i] == order[..i];
        PositionBounds(init, s, i);
      } else {
        assert init[..|init|] == init && order[..i] == init + [order[|order| - 1]];
        PositionBounds(init, s, i - 1);
      }
    }
  }

  // a symbol without properties leads nowhere
  lemma StartsInside(g: Graph, p: seq<Sym>)
    requires IsCycle(g, p)
    ensures p[0] in g
  {
    if |p| > 1 {
      assert p[1] in Succ(g, p[0]);
    }
  }

  // ---------- what the evaluator needs ----------

  // The walked properties of a configuration; the symbol property of its menu
  // entry carries the direct dependency
  function GraphOf(c: Config): Graph {
    map s | s in c.defs :: Node(c.defs[s].revDep, PropsOf(c.defs[s]))
  }

  function PropsOf(d: SymDef): seq<Prop> {
    [Other(d.dirDep)]
    + seq(|d.prompts|, k requires 0 <= k < |d.prompts| => Other(d.prompts[k]))
    + seq(|d.defaults|, k requires 0 <= k < |d.defaults| => DefaultProp(d.defaults[k].cond, d.defaults[k].value))
  }

  predicate AnyReads(ps: seq<Prop>, x: Sym) { exists k :: 0 <= k < |ps| && PropReads(ps[k], x) }

  lemma AnyReadsAppend(a: seq<Prop>, b: seq<Prop>, x: Sym)
    ensures AnyReads(a + b, x) <==> AnyReads(a, x) || AnyReads(b, x)
  {
    hide PropReads;
    if k :| 0 <= k < |a| && PropReads(a[k], x) {
      assert PropReads((a + b)[k], x);
    }
    if k :| 0 <= k < |b| && PropReads(b[k], x) {
      assert PropReads((a + b)[|a| + k], x);
    }
    if k :| 0 <= k < |a + b| && PropReads((a + b)[k], x) {
      assert k >= |a| ==> PropReads(b[k - |a|], x);
    }
  }

  lemma PropsOfReads(d: SymDef, x: Sym)
    ensures AnyReads(PropsOf(d), x) <==>
      || DepContains(d.dirDep, x)
      || (exists k :: 0 <= k < |d.prompts| && DepContains(d.prompts[k], x))
      || (exists k :: 0 <= k < |d.defaults| &&
            (DepContains(d.defaults[k].cond, x) || Contains(d.defaults[k].value, x)))
  {
    var a := [Other(d.dirDep)];
    var b := seq(|d.prompts|, k requires 0 <= k < |d.prompts| => Other(d.prompts[k]));
    var e := seq(|d.defaults|, k requires 0 <= k < |d.defaults| =>
                   DefaultProp(d.defaults[k].cond, d.defaults[k].value));
    AnyReadsAppend(a + b, e, x);
    AnyReadsAppend(a, b, x);
    assert PropReads(a[0], x) <==> DepContains(d.dirDep, x);
    assert AnyReads(b, x) <==> exists k :: 0 <= k < |d.prompts| && DepContains(d.prompts[k], x) by {
      assert forall k :: 0 <= k < |b| ==> (PropReads(b[k], x) <==> DepContains(d.prompts[k], x));
    }
    DefaultsRead(d.defaults, e, x);
  }

  lemma DefaultsRead(ds: seq<Default>, ps: seq<Prop>, x: Sym)
    requires |ps| == |ds| && forall k :: 0 <= k < |ds| ==> ps[k] == DefaultProp(ds[k].cond, ds[k].value)
    ensures AnyReads(ps, x) <==>
      exists k :: 0 <= k < |ds| && (DepContains(ds[k].cond, x) || Contains(ds[k].value, x))
  {
    assert forall k :: 0 <= k < |ps| ==>
      (PropReads(ps[k], x) <==> DepContains(ds[k].cond, x) || Contains(ds[k].value, x));
  }

  // The search follows every expression the evaluator reads
  lemma SuccDefined(c: Config, s: Sym, x: Sym)
    requires s in c.defs
    ensures var d := c.defs[s];
      x in Succ(GraphOf(c), s) <==>
        || DepContains(d.revDep, x) || DepContains(d.dirDep, x)
        || (exists k :: 0 <= k < |d.prompts| && DepContains(d.prompts[k], x))
        || (exists k :: 0 <= k < |d.defaults| &&
              (DepContains(d.defaults[k].cond, x) || Contains(d.defaults[k].value, x)))
  {
    hide DepContains, PropReads, PropsOf, Succ;
    SuccExact(GraphOf(c), s, x);
    PropsOfReads(c.defs[s], x);
  }

  function OrderRank(order: seq<Sym>): Rank { (s: Sym) => Position(order, s) }

  lemma {:induction false} SymsBelow(r: Rank, e: Expr, n: nat)
    requires forall y :: y in Syms(e) ==> r(y) < n
    ensures Below(r, e, n)
  {
    match e
    case Leaf(s) => assert s in Syms(e);
    case Not(x) => SymsBelow(r, x, n);
    case Cmp(_, a, b) => assert a in Syms(e) && b in Syms(e);
    case Bin(_, a, b) =>
      assert Syms(a) <= Syms(e) && Syms(b) <= Syms(e);
      SymsBelow(r, a, n);
      SymsBelow(r, b, n);
  }

  lemma DepSymsBelow(r: Rank, d: Dep, n: nat)
    requires forall y :: y in DepSyms(d) ==> r(y) < n
    ensures DepBelow(r, d, n)
  {
    if d.Some? {
      assert Syms(d.value) == DepSyms(d);
      SymsBelow(r, d.value, n);
    }
  }

  // If the check reports nothing, the order in which the searches ended ranks
  // every symbol above all it depends on
  lemma NoReportRanked(c: Config, order: seq<Sym>)
    requires Topological(GraphOf(c), order) && c.defs.Keys <= Elems(order)
    ensures Ranked(c, OrderRank(order))
  {
    var g, r := GraphOf(c), OrderRank(order);
    forall s: Sym | s.IsLogic() && s in c.defs ensures DefBelow(r, DefOf(c, s), r(s)) {
      PositionBounds(order, s, |order|);
      assert order[..|order|] == order;
      var i := r(s) - 1;
      forall y | y in Succ(g, s) ensures r(y) < r(s) {
        PositionBounds(order, y, i);
      }
      SuccBelow(c, r, s);
    }
  }

  lemma SuccBelow(c: Config, r: Rank, s: Sym)
    requires s in c.defs && forall y :: y in Succ(GraphOf(c), s) ==> r(y) < r(s)
    ensures DefBelow(r, DefOf(c, s), r(s))
  {
    var d := c.defs[s];
    var ps := PropsOf(d);
    assert NodeOf(GraphOf(c), s) == Node(d.revDep, ps);
    DepSymsBelow(r, d.revDep, r(s));
    PropsSymsPrefix(ps, 0);
    DepSymsBelow(r, d.dirDep, r(s));
    forall k | 0 <= k < |d.prompts| ensures DepBelow(r, d.prompts[k], r(s)) {
      PropsSymsPrefix(ps, 1 + k);
      DepSymsBelow(r, d.prompts[k], r(s));
    }
    forall k | 0 <= k < |d.defaults| ensures DefaultBelow(r, d.defaults[k], r(s)) {
      var j := 1 + |d.prompts| + k;
      PropsSymsPrefix(ps, j);
      assert ps[j] == DefaultProp(d.defaults[k].cond, d.defaults[k].value);
      DepSymsBelow(r, d.defaults[k].cond, r(s));
      SymsBelow(r, d.defaults[k].value, r(s));
    }
  }
}
