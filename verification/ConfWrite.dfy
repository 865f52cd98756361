/** The walk of conf_write: which symbols are written, and in which order. */
module ConfWrite {
  import opened Exprs
  import opened MenuForest
  import opened MenuTree
  import opened SymbolEval

  // What a menu entry stands for; menus, comments and choices write no symbol
  datatype Entry = NoSymbol | Symbol(sym: Sym)

  // The lines written for a list of entries, leaving out symbols already seen
  ghost function Lines(c: Config, r: Rank, entry: int -> Entry, menus: seq<int>, seen: set<Sym>): seq<Sym>
    requires Ranked(c, r)
  {
    if menus == [] then []
    else
      var l := Line(c, r, entry(menus[0]), seen);
      l + Lines(c, r, entry, menus[1..], seen + set s | s in l)
  }

  // the line of one entry, if it has one
  ghost function Line(c: Config, r: Rank, e: Entry, seen: set<Sym>): seq<Sym>
    requires Ranked(c, r)
  {
    if Writes(c, r, e) && e.sym !in seen then [e.sym] else []
  }

  ghost predicate Writes(c: Config, r: Rank, e: Entry)
    requires Ranked(c, r)
  {
    e.Symbol? && e.sym.IsLogic() && MeantWrite(c, r, e.sym)
  }

  lemma LinesHead(c: Config, r: Rank, entry: int -> Entry, menus: seq<int>, seen: set<Sym>)
    requires Ranked(c, r)
    ensures menus == [] ==> Lines(c, r, entry, menus, seen) == []
    ensures menus != [] ==>
      var l := Line(c, r, entry(menus[0]), seen);
      Lines(c, r, entry, menus, seen) == l + Lines(c, r, entry, menus[1..], seen + set s | s in l)
  {
  }

  // Each symbol that has a line has exactly one, however many entries it has
  lemma {:induction false} LinesOnce(c: Config, r: Rank, entry: int -> Entry, menus: seq<int>, seen: set<Sym>)
    requires Ranked(c, r)
    ensures var out := Lines(c, r, entry, menus, seen);
      && (forall i, j :: 0 <= i < j < |out| ==> out[i] != out[j])
      && (forall s :: s in out ==> s !in seen)
      && (forall s :: s in out <==>
            s !in seen && exists k :: 0 <= k < |menus| && Writes(c, r, entry(menus[k])) && entry(menus[k]).sym == s)
  {
    if menus != [] {
      var e := entry(menus[0]);
      var add := set s | s in Line(c, r, e, seen);
      LinesOnce(c, r, entry, menus[1..], seen + add);
      var rest := Lines(c, r, entry, menus[1..], seen + add);
      forall s | s !in seen && exists k :: 0 <= k < |menus| && Writes(c, r, entry(menus[k])) && entry(menus[k]).sym == s
        ensures s in rest || s in add
      {
        var k :| 0 <= k < |menus| && Writes(c, r, entry(menus[k])) && entry(menus[k]).sym == s;
        if k > 0 {
          assert menus[1..][k - 1] == menus[k];
        }
      }
      forall s | s in rest
        ensures exists k ::
          0 <= k < |menus| && Writes(c, r, entry(menus[k])) && entry(menus[k]).sym == s
      {
        var k :| 0 <= k < |menus[1..]| && Writes(c, r, entry(menus[1..][k])) && entry(menus[1..][k]).sym == s;
        assert menus[1..][k] == menus[k + 1];
      }
    }
  }

  // Symbols are written in the order of their first entries: at some entry of
  // the earlier one, the later one has had none
  lemma {:induction false} LinesOrdered(c: Config, r: Rank, entry: int -> Entry, menus: seq<int>, seen: set<Sym>,
                                        i: nat, j: nat) returns (k: nat)
    requires Ranked(c, r) && i < j < |Lines(c, r, entry, menus, seen)|
    ensures var out := Lines(c, r, entry, menus, seen);
      && k < |menus| && entry(menus[k]) == Symbol(out[i])
      && forall l :: 0 <= l <= k ==> entry(menus[l]) != Symbol(out[j])
  {
    hide Writes, Lines;
    LinesHead(c, r, entry, menus, seen);
    LinesOnce(c, r, entry, menus, seen);
    var out, e := Lines(c, r, entry, menus, seen), entry(menus[0]);
    var l := Line(c, r, e, seen);
    var add := set s | s in l;
    var rest := Lines(c, r, entry, menus[1..], seen + add);
    assert out == l + rest && out[j] in out;
    LineSymbol(c, r, e, seen);
    if i < |l| {
      k := 0;
    } else {
      k := LinesOrdered(c, r, entry, menus[1..], seen + add, i - |l|, j - |l|);
      LinesOnce(c, r, entry, menus[1..], seen + add);
      assert out[j] == rest[j - |l|] && out[j] in rest;
      assert e != Symbol(out[j]) by { NotAgain(c, r, entry, menus, seen, out[j]); }
      assert forall m :: 0 < m <= k + 1 ==> menus[m] == menus[1..][m - 1];
      k := k + 1;
    }
  }

  lemma LineSymbol(c: Config, r: Rank, e: Entry, seen: set<Sym>)
    requires Ranked(c, r)
    ensures var l := Line(c, r, e, seen); |l| <= 1 && (l != [] ==> e == Symbol(l[0]))
  {
    hide MeantWrite, Ranked;
  }

  // a symbol met at the first entry is not written behind it
  lemma NotAgain(c: Config, r: Rank, entry: int -> Entry, menus: seq<int>, seen: set<Sym>, s: Sym)
    requires Ranked(c, r) && menus != []
    requires s in Lines(c, r, entry, menus[1..], seen + set x | x in Line(c, r, entry(menus[0]), seen))
    ensures entry(menus[0]) != Symbol(s)
  {
    hide Lines, MeantWrite;
    LinesOnce(c, r, entry, menus[1..], seen + set x | x in Line(c, r, entry(menus[0]), seen));
  }

  // ---------- the walk ----------

  // The ancestors of the current menu, with the siblings still to come
  datatype Up = Top(root: int) | Under(menu: int, rest: Forest, up: Up)

  function Parent(u: Up): int { if u.Top? then u.root else u.menu }

  ghost predicate Climb(h: Links, u: Up) {
    match u
    case Top(root) => InRange(h, root) && h.next[root] == NULL && h.parent[root] == NULL
    case Under(m, rest, up) =>
      InRange(h, m) && h.parent[m] == Parent(up) && Seg(h, h.next[m], rest, Parent(up), NULL) && Climb(h, up)
  }

  ghost function Pending(u: Up): seq<int> {
    if u.Top? then [] else Preorder(u.rest) + Pending(u.up)
  }

  // menu heads cur below u, and rem is what remains to be visited
  ghost predicate Place(h: Links, menu: int, cur: Forest, u: Up, rem: seq<int>) {
    if menu == NULL then rem == []
    else cur.Node? && Seg(h, menu, cur, Parent(u), NULL) && Climb(h, u) && rem == Preorder(cur) + Pending(u)
  }

  class Writer {
    const h: Links
    const entry: int -> Entry
    const table: SymbolTable
    var out: seq<Sym>        // the lines written
    ghost var visited: seq<int>

    constructor (h: Links, entry: int -> Entry, table: SymbolTable)
      ensures this.h == h && this.entry == entry && this.table == table && out == [] && visited == []
    {
      this.h, this.entry, this.table := h, entry, table;
      out, visited := [], [];
    }

    // write one entry
    method Visit(menu: int, ghost r: Rank)
      requires Ranked(table.cfg, r) && AllCorrect(table.cfg, r, table.written, table.syms)
      modifies this`out, this`visited, table`syms, table`written
      ensures AllCorrect(table.cfg, r, table.written, table.syms)
      ensures visited == old(visited) + [menu]
      ensures var l := Line(table.cfg, r, entry(menu), old(table.written));
        out == old(out) + l && table.written == old(table.written) + set s | s in l
    {
      visited := visited + [menu];
      var e := entry(menu);
      if e.Symbol? && e.sym.IsLogic() {
        table.CalcTop(e.sym, r);
        if At(table.syms, e.sym).write {
          table.ClearWrite(e.sym, r);
          out := out + [e.sym];
        }
      }
    }

    // up to the next ancestor that has a sibling left
    method ClimbUp(menu0: int, ghost u0: Up) returns (menu: int, ghost cur: Forest, ghost u: Up)
      requires Climb(h, u0) && InRange(h, menu0) && h.parent[menu0] == Parent(u0)
      ensures Place(h, menu, cur, u, Pending(u0))
    {
      menu, cur, u := h.parent[menu0], Nil, u0;
      while menu != NULL
        invariant menu == NULL ==> Pending(u0) == []
        invariant menu != NULL ==> menu == Parent(u) && Climb(h, u) && Pending(u) == Pending(u0)
        decreases menu != NULL, u
      {
        if h.next[menu] != NULL {
          menu := h.next[menu];
          cur, u := u.rest, u.up;
          return;
        }
        menu := h.parent[menu];
        if u.Under? {
          assert Preorder(u.rest) == [];
          u := u.up;
        }
      }
    }

    // the label next: the first child, else the next sibling, else climb
    method Next(menu0: int, ghost cur0: Forest, ghost u0: Up) returns (menu: int, ghost cur: Forest, ghost u: Up)
      requires cur0.Node? && Seg(h, menu0, cur0, Parent(u0), NULL) && Climb(h, u0)
      ensures Place(h, menu, cur, u, Preorder(cur0.kids) + (Preorder(cur0.rest) + Pending(u0)))
    {
      menu, cur, u := NULL, Nil, u0;
      if h.list[menu0] != NULL {
        menu, cur, u := h.list[menu0], cur0.kids, Under(menu0, cur0.rest, u0);
      } else if h.next[menu0] != NULL {
        menu, cur := h.next[menu0], cur0.rest;
      } else {
        assert Preorder(cur0.kids) == Preorder(cur0.rest) == [];
        assert [] + ([] + Pending(u0)) == Pending(u0);
        menu, cur, u := ClimbUp(menu0, u0);
      }
    }

    // the loop over all menus below the root
    method WriteAll(root: int, ghost kids: Forest, ghost r: Rank)
      requires Seg(h, root, Node(root, kids, Nil), NULL, NULL) && visited == [] && out == []
      requires Ranked(table.cfg, r) && AllCorrect(table.cfg, r, table.written, table.syms)
      modifies this`out, this`visited, table`syms, table`written
      ensures visited == Preorder(kids)
      ensures out == Lines(table.cfg, r, entry, Preorder(kids), old(table.written))
      ensures table.written == old(table.written) + set s | s in out
      ensures AllCorrect(table.cfg, r, table.written, table.syms)
    {
      hide Seg, Climb, Preorder, AllCorrect, Ranked, Lines, Line;
      Begin(root, kids);
      var menu := h.list[root];
      ghost var cur, u, rem := kids, Top(root), Preorder(kids);
      while menu != NULL
        invariant Place(h, menu, cur, u, rem)
        invariant visited + rem == Preorder(kids)
        invariant table.written == old(table.written) + set s | s in out
        invariant out + Lines(table.cfg, r, entry, rem, table.written)
               == Lines(table.cfg, r, entry, Preorder(kids), old(table.written))
        invariant AllCorrect(table.cfg, r, table.written, table.syms)
        decreases |rem|
      {
        PlaceHead(menu, cur, u, rem);
        LinesHead(table.cfg, r, entry, rem, table.written);
        Visit(menu, r);
        rem := rem[1..];
        menu, cur, u := Next(menu, cur, u);
      }
      LinesHead(table.cfg, r, entry, [], table.written);
    }

    lemma Begin(root: int, kids: Forest)
      requires Seg(h, root, Node(root, kids, Nil), NULL, NULL)
      ensures InRange(h, root) && Place(h, h.list[root], kids, Top(root), Preorder(kids))
    {
      assert Preorder(kids) + [] == Preorder(kids);
    }

    lemma PlaceHead(menu: int, cur: Forest, u: Up, rem: seq<int>)
      requires menu != NULL && Place(h, menu, cur, u, rem)
      ensures rem != [] && rem[0] == menu && rem[1..] == Preorder(cur.kids) + (Preorder(cur.rest) + Pending(u))
    {
    }
  }
}
