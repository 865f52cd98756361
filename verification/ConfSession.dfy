/** Saving more than once in a session: the change counter against the VALID and
    WRITE flags (sym_set_tristate_value, conf_write, conf_write_defconfig). */
module ConfSession {
  import opened Tristates
  import opened Exprs
  import opened MenuForest
  import opened MenuTree
  import opened SymbolEval
  import opened ConfWrite

  // Symbols written before are missing, and nothing else is
  lemma {:induction false} LinesWithout(c: Config, r: Rank, entry: int -> Entry, menus: seq<int>, w: set<Sym>)
    requires Ranked(c, r)
    ensures Lines(c, r, entry, menus, w) == Lines(c, r, entry, menus, {}) <==>
            forall s :: s in Lines(c, r, entry, menus, {}) ==> s !in w
    ensures (forall s :: s in Lines(c, r, entry, menus, {}) ==> s in w) ==> Lines(c, r, entry, menus, w) == []
  {
    hide Lines, Writes;
    LinesOnce(c, r, entry, menus, w);
    LinesOnce(c, r, entry, menus, {});
    if forall s :: s in Lines(c, r, entry, menus, {}) ==> s !in w {
      LinesIgnore(c, r, entry, menus, {}, w);
      assert {} + w == w;
    }
    var rest := Lines(c, r, entry, menus, w);
    if rest != [] {
      assert rest[0] in rest && rest[0] in Lines(c, r, entry, menus, {});
    }
  }

  // symbols that get no line do not matter
  lemma {:induction false} LinesIgnore(c: Config, r: Rank, entry: int -> Entry, menus: seq<int>, seen: set<Sym>,
                                       w: set<Sym>)
    requires Ranked(c, r) && forall s :: s in Lines(c, r, entry, menus, seen) ==> s !in w
    ensures Lines(c, r, entry, menus, seen + w) == Lines(c, r, entry, menus, seen)
  {
    hide Writes;
    if menus != [] {
      var l := Line(c, r, entry(menus[0]), seen);
      var add := set s | s in l;
      assert Lines(c, r, entry, menus, seen) == l + Lines(c, r, entry, menus[1..], seen + add);
      assert Line(c, r, entry(menus[0]), seen + w) == l;
      LinesIgnore(c, r, entry, menus[1..], seen + add, w);
      assert seen + add + w == seen + w + add;
    }
  }

  function Kept(ls: seq<Sym>, skip: Sym -> bool): seq<Sym> {
    if ls == [] then [] else (if skip(ls[0]) then [] else [ls[0]]) + Kept(ls[1..], skip)
  }

  // Each symbol is kept or left out on its own, in its place
  lemma {:induction false} KeptEach(a: seq<Sym>, s: Sym, b: seq<Sym>, skip: Sym -> bool)
    ensures Kept(a + [s] + b, skip) == Kept(a, skip) + (if skip(s) then [] else [s]) + Kept(b, skip)
  {
    if a == [] {
      assert (a + [s] + b)[1..] == b;
    } else {
      var own := if skip(a[0]) then [] else [a[0]];
      var mid := if skip(s) then [] else [s];
      assert (a + [s] + b)[1..] == a[1..] + [s] + b;
      assert Kept(a, skip) == own + Kept(a[1..], skip);
      assert Kept(a + [s] + b, skip) == own + Kept(a[1..] + [s] + b, skip);
      KeptEach(a[1..], s, b, skip);
      hide Kept;
      assert own + (Kept(a[1..], skip) + mid + Kept(b, skip)) == own + Kept(a[1..], skip) + mid + Kept(b, skip);
    }
  }

  lemma {:induction false} KeptExact(ls: seq<Sym>, skip: Sym -> bool)
    ensures forall s :: s in Kept(ls, skip) <==> s in ls && !skip(s)
  {
    if ls != [] {
      KeptExact(ls[1..], skip);
    }
  }

  class Session {
    const table: SymbolTable
    const h: Links
    const entry: int -> Entry
    const modulesSym: Sym
    var count: nat   // sym_change_count

    constructor (table: SymbolTable, h: Links, entry: int -> Entry, modulesSym: Sym)
      ensures this.table == table && this.h == h && this.entry == entry && this.modulesSym == modulesSym && count == 1
    {
      this.table, this.h, this.entry, this.modulesSym, count := table, h, entry, modulesSym, 1;
    }

    ghost predicate Valid(r: Rank)
      reads this, table
    {
      && Ranked(table.cfg, r) && AllCorrect(table.cfg, r, table.written, table.syms)
      && Meaning(table.cfg, r, modulesSym) == table.cfg.modules
    }

    // what a file must list: every symbol to be written, once
    ghost function Full(r: Rank, kids: Forest): seq<Sym>
      reads this, table
      requires Valid(r)
    {
      Lines(table.cfg, r, entry, Preorder(kids), {})
    }

    // nothing has been written since the flags were last set up, or they will be
    // set up again before the next file
    ghost predicate Intact()
      reads this, table
    {
      count == 0 || table.written == {}
    }

    // sym_clear_all_valid
    method ClearAll(ghost r: Rank)
      requires Valid(r)
      modifies this`count, table`syms, table`written
      ensures Valid(r) && table.written == {} && count == old(count) + 1
    {
      table.ClearAllValid(modulesSym, r);
      count := count + 1;
    }

    // sym_set_tristate_value. The state stays valid unless MODULES depends on
    // the symbol, or the symbol is set to its current value where that would not
    // come back.
    method Set(s: Sym, val: Tri, ghost r: Rank) returns (ok: bool)
      requires Valid(r) && s.IsLogic() && At(table.syms, s).valid
      modifies this`count, table
      ensures !Reaches(old(table.cfg), r, modulesSym, s) ==>
        (Valid(r) <==> (ok && Meaning(old(table.cfg), r, s) == val ==> Sticks(old(table.cfg), r, s, val)))
      ensures ok <==> Meaning(old(table.cfg), r, s) == val || WithinRange(old(table.cfg), r, s, val)
      ensures if ok && Meaning(old(table.cfg), r, s) != val then table.written == {} && count == old(count) + 1
              else table.written == old(table.written) && count == old(count)
      ensures old(Intact()) ==> Intact()
    {
      var oldval := CurrTri(table.syms, s);
      ok := table.SetTristate(s, val, modulesSym, r);
      if ok && oldval != val {
        count := count + 1;
      }
    }

    // conf_write. The file is complete exactly if the counter was 0, or no
    // symbol it must list was written since the flags were set up.
    method Write(root: int, ghost kids: Forest, ghost r: Rank) returns (out: seq<Sym>)
      requires Valid(r) && Seg(h, root, Node(root, kids, Nil), NULL, NULL)
      modifies this`count, table`syms, table`written
      ensures Valid(r) && count == 0
      ensures out == Full(r, kids) <==> old(count) == 0 || forall s :: s in Full(r, kids) ==> s !in old(table.written)
      ensures old(count) != 0 && (forall s :: s in Full(r, kids) ==> s in old(table.written)) ==> out == []
      ensures Intact() && (old(Intact()) ==> out == Full(r, kids))
    {
      if count == 0 {
        ClearAll(r);
      }
      LinesWithout(table.cfg, r, entry, Preorder(kids), table.written);
      LinesWithout(table.cfg, r, entry, Preorder(kids), {});
      var writer := new Writer(h, entry, table);
      writer.WriteAll(root, kids, r);
      out := writer.out;
      count := 0;
    }

    // conf_write_defconfig; skip tells the symbols that cannot be changed or
    // equal their default
    method WriteDefconfig(root: int, ghost kids: Forest, skip: Sym -> bool, ghost r: Rank) returns (out: seq<Sym>)
      requires Valid(r) && Seg(h, root, Node(root, kids, Nil), NULL, NULL)
      modifies this`count, table`syms, table`written
      ensures Valid(r) && count == old(count) + 1
      ensures out == Kept(Full(r, kids), skip) && table.written == set s | s in Full(r, kids)
      ensures forall s :: s in out <==> s in Full(r, kids) && !skip(s)
    {
      ClearAll(r);
      var writer := new Writer(h, entry, table);
      writer.WriteAll(root, kids, r);
      out := Kept(writer.out, skip);
      KeptExact(writer.out, skip);
    }

    // The defconfig leaves the WRITE flags cleared and the counter set: the file
    // written next is empty, and the one after that is complete again
    method DefconfigThenWrite(root: int, ghost kids: Forest, skip: Sym -> bool, ghost r: Rank)
      returns (first: seq<Sym>, second: seq<Sym>)
      requires Valid(r) && Seg(h, root, Node(root, kids, Nil), NULL, NULL)
      modifies this`count, table`syms, table`written
      ensures Valid(r) && first == [] && second == Full(r, kids)
    {
      var _ := WriteDefconfig(root, kids, skip, r);
      first := Write(root, kids, r);
      second := Write(root, kids, r);
    }
  }
}
