/** Values of boolean and tristate symbols: what they mean, and the lazy
    evaluator that memoises them behind VALID flags
    (sym_calc_visibility, sym_calc_value, sym_clear_all_valid,
    sym_tristate_within_range, sym_set_tristate_value). */
module SymbolEval {
  import opened Options
  import opened Tristates
  import opened Exprs

  datatype Default = Default(cond: Dep, value: Expr)

  // The properties of a non-choice symbol, in source order
  datatype SymDef = SymDef(prompts: seq<Dep>, dirDep: Dep, revDep: Dep, defaults: seq<Default>)

  // user holds def[S_DEF_USER].tri of the symbols that carry SYMBOL_DEF_USER;
  // val and order give strings and their comparison for all other symbols
  datatype Config = Config(
    defs: map<Sym, SymDef>, user: map<Sym, Tri>, modules: Tri,
    val: Sym -> string, order: (Sym, Sym) -> int)

  function DefOf(c: Config, s: Sym): SymDef {
    if s in c.defs then c.defs[s] else SymDef([], None, None, [])
  }

  function UserOf(c: Config, s: Sym): Option<Tri> {
    if s in c.user then Some(c.user[s]) else None
  }

  // curr.tri of symbols that are neither boolean nor tristate
  function FixedTri(s: Sym): Tri {
    if s.SymY? then YES else if s.SymM? then MOD else NO
  }

  // ---------- the steps of one evaluation ----------

  function PromptVisibility(typ: SymType, modules: Tri, raw: Tri): Tri {
    if raw == MOD && (typ != Tristate || modules == NO) then YES else raw
  }

  // sym_get_type is S_BOOLEAN
  predicate ActsBoolean(typ: SymType, modules: Tri) {
    typ == Boolean || (typ == Tristate && modules == NO)
  }

  function RoundUp(typ: SymType, modules: Tri, t: Tri): Tri {
    if t == MOD && ActsBoolean(typ, modules) then YES else t
  }

  function NewValue(typ: SymType, modules: Tri, user: Option<Tri>, visible: Tri, rev: Tri, def: Option<Tri>): Tri {
    var base :=
      if visible != NO && user.Some? then Min(user.value, visible)
      else if def.Some? then def.value
      else NO;
    RoundUp(typ, modules, Max(base, rev))
  }

  // ---------- meaning over an acyclic configuration ----------

  type Rank = Sym -> nat

  predicate Below(r: Rank, e: Expr, n: nat) {
    match e
    case Leaf(s) => r(s) < n
    case Not(x) => Below(r, x, n)
    case Cmp(_, a, b) => r(a) < n && r(b) < n
    case Bin(_, a, b) => Below(r, a, n) && Below(r, b, n)
  }

  predicate DepBelow(r: Rank, d: Dep, n: nat) { d.Some? ==> Below(r, d.value, n) }

  predicate DefBelow(r: Rank, d: SymDef, n: nat) {
    && (forall k :: 0 <= k < |d.prompts| ==> DepBelow(r, d.prompts[k], n))
    && DepBelow(r, d.dirDep, n)
    && DepBelow(r, d.revDep, n)
    && (forall k :: 0 <= k < |d.defaults| ==> DefaultBelow(r, d.defaults[k], n))
  }

  predicate DefaultBelow(r: Rank, d: Default, n: nat) {
    DepBelow(r, d.cond, n) && Below(r, d.value, n)
  }

  // Every symbol ranks above all symbols its properties mention
  ghost predicate Ranked(c: Config, r: Rank) {
    forall s: Sym :: s.IsLogic() ==> DefBelow(r, DefOf(c, s), r(s))
  }

  ghost function Meaning(c: Config, r: Rank, s: Sym): Tri
    requires Ranked(c, r)
    decreases r(s), 3
  {
    if !s.IsLogic() then FixedTri(s)
    else
      NewValue(s.Type(), c.modules, UserOf(c, s), MeantVisible(c, r, s), MeantRev(c, r, s),
               MeantDefault(c, r, DefOf(c, s).defaults, r(s)))
  }

  ghost function MeantVisible(c: Config, r: Rank, s: Sym): Tri
    requires Ranked(c, r) && s.IsLogic()
    decreases r(s), 2
  {
    PromptVisibility(s.Type(), c.modules, MeantMax(c, r, DefOf(c, s).prompts, r(s)))
  }

  ghost function MeantRev(c: Config, r: Rank, s: Sym): Tri
    requires Ranked(c, r) && s.IsLogic()
    decreases r(s), 2
  {
    var d := DefOf(c, s).revDep;
    RoundUp(s.Type(), c.modules, if d.None? then NO else MeantExpr(c, r, d.value, r(s)))
  }

  ghost function MeantDir(c: Config, r: Rank, s: Sym): Tri
    requires Ranked(c, r) && s.IsLogic()
    decreases r(s), 2
  {
    var t := MeantDep(c, r, DefOf(c, s).dirDep, r(s));
    if t == MOD then YES else t
  }

  // the largest of the dependencies
  ghost function MeantMax(c: Config, r: Rank, ds: seq<Dep>, n: nat): Tri
    requires Ranked(c, r) && forall k :: 0 <= k < |ds| ==> DepBelow(r, ds[k], n)
    decreases n, 1, |ds|
  {
    if ds == [] then NO
    else Max(MeantMax(c, r, ds[..|ds| - 1], n), MeantDep(c, r, ds[|ds| - 1], n))
  }

  // the first default whose condition is not n, limited by that condition
  ghost function MeantDefault(c: Config, r: Rank, ds: seq<Default>, n: nat): Option<Tri>
    requires Ranked(c, r) && forall k :: 0 <= k < |ds| ==> DefaultBelow(r, ds[k], n)
    decreases n, 1, |ds|
  {
    if ds == [] then None
    else
      assert DefaultBelow(r, ds[0], n);
      var cond := MeantDep(c, r, ds[0].cond, n);
      if cond != NO then Some(Min(MeantExpr(c, r, ds[0].value, n), cond))
      else MeantDefault(c, r, ds[1..], n)
  }

  ghost function MeantDep(c: Config, r: Rank, d: Dep, n: nat): Tri
    requires Ranked(c, r) && DepBelow(r, d, n)
    decreases n, 0, 0, 1
  {
    if d.None? then YES else MeantExpr(c, r, d.value, n)
  }

  ghost function MeantExpr(c: Config, r: Rank, e: Expr, n: nat): Tri
    requires Ranked(c, r) && Below(r, e, n)
    decreases n, 0, 0, 0, e
  {
    match e
    case Leaf(s) => Meaning(c, r, s)
    case Not(x) => Neg(MeantExpr(c, r, x, n))
    case Cmp(op, a, b) => FromBool(Holds(op, CompareAt(c, a, b, Meaning(c, r, a), Meaning(c, r, b))))
    case Bin(op, a, b) => Apply(op, MeantExpr(c, r, a, n), MeantExpr(c, r, b, n))
  }

  function CompareAt(c: Config, a: Sym, b: Sym, ta: Tri, tb: Tri): int {
    CompareStrings(a, b, StringOf(a, ta, c.val(a), c.modules), StringOf(b, tb, c.val(b), c.modules), c.order(a, b))
  }

  // ---------- the evaluator ----------

  // The fields of struct symbol an evaluation changes; valid and write are the
  // flags SYMBOL_VALID and SYMBOL_WRITE
  datatype Fields = Fields(valid: bool, write: bool, curr: Tri, visible: Tri, dir: Tri, rev: Tri)

  type Table = map<Sym, Fields>

  // a symbol that was never touched
  const FRESH := Fields(false, false, NO, NO, NO, NO)

  function At(t: Table, s: Sym): Fields { if s in t then t[s] else FRESH }

  // curr.tri
  function CurrTri(t: Table, s: Sym): Tri {
    if s.IsLogic() then At(t, s).curr else FixedTri(s)
  }

  // SYMBOL_WRITE after an evaluation
  ghost predicate MeantWrite(c: Config, r: Rank, s: Sym)
    requires Ranked(c, r) && s.IsLogic()
  {
    || MeantVisible(c, r, s) != NO
    || MeantRev(c, r, s) != NO
    || MeantDefault(c, r, DefOf(c, s).defaults, r(s)).Some?
  }

  // the fields of an evaluated symbol
  ghost function Evaluated(c: Config, r: Rank, s: Sym): Fields
    requires Ranked(c, r) && s.IsLogic()
  {
    Fields(true, MeantWrite(c, r, s), Meaning(c, r, s), MeantVisible(c, r, s), MeantDir(c, r, s), MeantRev(c, r, s))
  }

  // the same, but for the WRITE flag of the symbols in w, which the writer of
  // the configuration file has cleared
  ghost function Stored(c: Config, r: Rank, w: set<Sym>, s: Sym): Fields
    requires Ranked(c, r) && s.IsLogic()
  {
    Evaluated(c, r, s).(write := MeantWrite(c, r, s) && s !in w)
  }

  // every valid symbol ranking below n is correct; those above may be under way
  ghost predicate CorrectBelow(c: Config, r: Rank, w: set<Sym>, t: Table, n: nat)
    requires Ranked(c, r)
  {
    && (forall s: Sym :: s.IsLogic() && At(t, s).valid && r(s) < n ==> At(t, s) == Stored(c, r, w, s))
    && (forall s: Sym :: s in w ==> At(t, s).valid)
  }

  // no symbol of rank n or above was touched, and no symbol that was valid
  ghost predicate OnlyBelow(r: Rank, n: nat, a: Table, b: Table) {
    forall s: Sym :: r(s) >= n || At(a, s).valid ==> At(b, s) == At(a, s)
  }

  // the same for all symbols but s
  ghost predicate OnlyBelowOr(r: Rank, s: Sym, a: Table, b: Table) {
    forall x: Sym :: x != s && (r(x) >= r(s) || At(a, x).valid) ==> At(b, x) == At(a, x)
  }

  lemma OnlyBelowTransitive(r: Rank, s: Sym, a: Table, b: Table, c: Table)
    requires OnlyBelowOr(r, s, a, b) && OnlyBelow(r, r(s), b, c)
    ensures OnlyBelowOr(r, s, a, c)
  {
  }

  // once s is done, all valid symbols up to its rank are correct
  lemma CorrectAtRank(c: Config, r: Rank, w: set<Sym>, s: Sym, was: Table, t: Table)
    requires Ranked(c, r) && s.IsLogic() && CorrectBelow(c, r, w, was, r(s) + 1)
    requires CorrectBelow(c, r, w, t, r(s)) && OnlyBelowOr(r, s, was, t) && At(t, s) == Stored(c, r, w, s)
    ensures CorrectBelow(c, r, w, t, r(s) + 1)
  {
    forall x: Sym | x.IsLogic() && At(t, x).valid && r(x) < r(s) + 1 ensures At(t, x) == Stored(c, r, w, x) {
      if x != s && r(x) == r(s) {
        assert At(t, x) == At(was, x);
      }
    }
  }

  class SymbolTable {
    var cfg: Config
    var syms: Table
    ghost var written: set<Sym>   // symbols whose WRITE flag was cleared by writing them

    // expr_calc_value
    method CalcExpr(e: Expr, ghost r: Rank, ghost n: nat) returns (t: Tri)
      requires Ranked(cfg, r) && Below(r, e, n) && CorrectBelow(cfg, r, written, syms, n)
      modifies this`syms
      ensures t == MeantExpr(cfg, r, e, n)
      ensures CorrectBelow(cfg, r, written, syms, n) && OnlyBelow(r, n, old(syms), syms)
      decreases n, 0, 0, 0, e
    {
      match e
      case Leaf(s) =>
        CalcValue(s, r);
        t := CurrTri(syms, s);
      case Not(x) =>
        t := CalcExpr(x, r, n);
        t := Neg(t);
      case Cmp(op, a, b) =>
        CalcValue(a, r);
        CalcValue(b, r);
        t := FromBool(Holds(op, CompareAt(cfg, a, b, CurrTri(syms, a), CurrTri(syms, b))));
      case Bin(op, a, b) =>
        var x := CalcExpr(a, r, n);
        var y := CalcExpr(b, r, n);
        t := Apply(op, x, y);
    }

    method CalcDep(d: Dep, ghost r: Rank, ghost n: nat) returns (t: Tri)
      requires Ranked(cfg, r) && DepBelow(r, d, n) && CorrectBelow(cfg, r, written, syms, n)
      modifies this`syms
      ensures t == MeantDep(cfg, r, d, n)
      ensures CorrectBelow(cfg, r, written, syms, n) && OnlyBelow(r, n, old(syms), syms)
      decreases n, 0, 0, 1
    {
      t := YES;
      if d.Some? {
        t := CalcExpr(d.value, r, n);
      }
    }

    // sym_get_default_prop followed by the value of the default found
    method CalcDefault(ds: seq<Default>, ghost r: Rank, ghost n: nat) returns (t: Option<Tri>)
      requires Ranked(cfg, r) && (forall k :: 0 <= k < |ds| ==> DefaultBelow(r, ds[k], n))
      requires CorrectBelow(cfg, r, written, syms, n)
      modifies this`syms
      ensures t == MeantDefault(cfg, r, ds, n)
      ensures CorrectBelow(cfg, r, written, syms, n) && OnlyBelow(r, n, old(syms), syms)
      decreases n, 1
    {
      for k := 0 to |ds|
        invariant MeantDefault(cfg, r, ds, n) == MeantDefault(cfg, r, ds[k..], n)
        invariant CorrectBelow(cfg, r, written, syms, n) && OnlyBelow(r, n, old(syms), syms)
      {
        assert DefaultBelow(r, ds[k], n) && ds[k..][0] == ds[k] && ds[k..][1..] == ds[k + 1..];
        var cond := CalcDep(ds[k].cond, r, n);
        if cond != NO {
          var x := CalcExpr(ds[k].value, r, n);
          return Some(Min(x, cond));
        }
      }
      t := None;
    }

    // the prompts of a symbol, combined
    method CalcPrompts(ds: seq<Dep>, ghost r: Rank, ghost n: nat) returns (tri: Tri)
      requires Ranked(cfg, r) && (forall k :: 0 <= k < |ds| ==> DepBelow(r, ds[k], n))
      requires CorrectBelow(cfg, r, written, syms, n)
      modifies this`syms
      ensures tri == MeantMax(cfg, r, ds, n)
      ensures CorrectBelow(cfg, r, written, syms, n) && OnlyBelow(r, n, old(syms), syms)
      decreases n, 1
    {
      tri := NO;
      for k := 0 to |ds|
        invariant tri == MeantMax(cfg, r, ds[..k], n)
        invariant CorrectBelow(cfg, r, written, syms, n) && OnlyBelow(r, n, old(syms), syms)
      {
        assert ds[..k + 1][..k] == ds[..k] && DepBelow(r, ds[k], n);
        var t := CalcDep(ds[k], r, n);
        tri := Max(tri, t);
      }
      assert ds[..|ds|] == ds;
    }

    // overwrite the fields of the symbol under evaluation
    method Put(s: Sym, f: Fields, ghost r: Rank, ghost was: Table)
      requires Ranked(cfg, r) && CorrectBelow(cfg, r, written, syms, r(s)) && OnlyBelowOr(r, s, was, syms)
      requires f.valid
      modifies this`syms
      ensures syms == old(syms)[s := f]
      ensures CorrectBelow(cfg, r, written, syms, r(s)) && OnlyBelowOr(r, s, was, syms)
    {
      syms := syms[s := f];
    }

    // sym_calc_visibility
    method CalcVisibility(s: Sym, ghost r: Rank)
      requires Ranked(cfg, r) && s.IsLogic() && CorrectBelow(cfg, r, written, syms, r(s))
      requires At(syms, s).valid
      modifies this`syms
      ensures CorrectBelow(cfg, r, written, syms, r(s)) && OnlyBelowOr(r, s, old(syms), syms)
      ensures At(syms, s) == At(old(syms), s).(
        visible := MeantVisible(cfg, r, s), dir := MeantDir(cfg, r, s), rev := MeantRev(cfg, r, s))
      decreases r(s), 2
    {
      var d := DefOf(cfg, s);
      ghost var was := syms;
      assert DefBelow(r, d, r(s));
      var tri := CalcPrompts(d.prompts, r, r(s));
      Put(s, At(syms, s).(visible := PromptVisibility(s.Type(), cfg.modules, tri)), r, was);
      ghost var a := syms;
      tri := CalcDep(d.dirDep, r, r(s));
      OnlyBelowTransitive(r, s, was, a, syms);
      Put(s, At(syms, s).(dir := if tri == MOD then YES else tri), r, was);
      a := syms;
      tri := NO;
      if d.revDep.Some? {
        tri := CalcExpr(d.revDep.value, r, r(s));
        OnlyBelowTransitive(r, s, was, a, syms);
      }
      Put(s, At(syms, s).(rev := RoundUp(s.Type(), cfg.modules, tri)), r, was);
    }

    // sym_calc_value
    method CalcValue(s: Sym, ghost r: Rank)
      requires Ranked(cfg, r) && CorrectBelow(cfg, r, written, syms, r(s) + 1)
      modifies this`syms
      ensures At(syms, s).valid && CurrTri(syms, s) == Meaning(cfg, r, s)
      ensures CorrectBelow(cfg, r, written, syms, r(s) + 1)
      ensures OnlyBelowOr(r, s, old(syms), syms)
      ensures At(old(syms), s).valid ==> At(syms, s) == At(old(syms), s)
      decreases r(s), 4
    {
      if !At(syms, s).valid {
        if s.IsLogic() {
          Evaluate(s, r);
        } else {
          syms := syms[s := At(syms, s).(valid := true)];
        }
      }
    }

    // the part of sym_calc_value behind the test of SYMBOL_VALID
    method Evaluate(s: Sym, ghost r: Rank)
      requires Ranked(cfg, r) && s.IsLogic() && CorrectBelow(cfg, r, written, syms, r(s) + 1)
      requires !At(syms, s).valid
      modifies this`syms
      ensures At(syms, s) == Stored(cfg, r, written, s)
      ensures CorrectBelow(cfg, r, written, syms, r(s) + 1)
      ensures OnlyBelowOr(r, s, old(syms), syms)
      decreases r(s), 3
    {
      ghost var was := syms;
      Put(s, At(syms, s).(valid := true), r, was);
      Put(s, At(syms, s).(write := false), r, was);
      CalcVisibility(s, r);
      // what an evaluation that comes back here would see
      Put(s, At(syms, s).(curr := NO), r, was);
      var base := CalcBase(s, r);
      Put(s, At(syms, s).(curr := RoundUp(s.Type(), cfg.modules, Max(base, At(syms, s).rev))), r, was);
      CorrectAtRank(cfg, r, written, s, was, syms);
    }

    // the value before reverse dependencies: the user's or a default
    method CalcBase(s: Sym, ghost r: Rank) returns (base: Tri)
      requires Ranked(cfg, r) && s.IsLogic() && CorrectBelow(cfg, r, written, syms, r(s))
      requires At(syms, s).visible == MeantVisible(cfg, r, s)
      requires At(syms, s).rev == MeantRev(cfg, r, s)
      requires At(syms, s).valid && !At(syms, s).write
      modifies this`syms
      ensures CorrectBelow(cfg, r, written, syms, r(s)) && OnlyBelowOr(r, s, old(syms), syms)
      ensures At(syms, s) == At(old(syms), s).(write := MeantWrite(cfg, r, s))
      ensures RoundUp(s.Type(), cfg.modules, Max(base, MeantRev(cfg, r, s))) == Meaning(cfg, r, s)
      decreases r(s), 2
    {
      ghost var was := syms;
      base := NO;
      if At(syms, s).visible != NO {
        Put(s, At(syms, s).(write := true), r, was);
        if s in cfg.user {
          base := Min(cfg.user[s], At(syms, s).visible);
          return;
        }
      }
      if At(syms, s).rev != NO {
        Put(s, At(syms, s).(write := true), r, was);
      }
      ghost var a := syms;
      assert DefBelow(r, DefOf(cfg, s), r(s));
      var def := CalcDefault(DefOf(cfg, s).defaults, r, r(s));
      OnlyBelowTransitive(r, s, was, a, syms);
      if def.Some? {
        Put(s, At(syms, s).(write := true), r, was);
        base := def.value;
      }
    }

    // sym_calc_value called while no other evaluation is under way
    method CalcTop(s: Sym, ghost r: Rank)
      requires Ranked(cfg, r) && AllCorrect(cfg, r, written, syms)
      modifies this`syms
      ensures AllCorrect(cfg, r, written, syms)
      ensures At(syms, s).valid && CurrTri(syms, s) == Meaning(cfg, r, s)
      ensures forall x: Sym :: At(old(syms), x).valid ==> At(syms, x).valid
    {
      ghost var was := syms;
      CalcValue(s, r);
      StaysCorrect(cfg, r, written, s, was, syms);
    }

    // evaluating any list of symbols in any order, as conf_read does
    method CalcAll(list: seq<Sym>, ghost r: Rank)
      requires Ranked(cfg, r) && AllCorrect(cfg, r, written, syms)
      modifies this`syms
      ensures AllCorrect(cfg, r, written, syms)
      ensures forall k :: 0 <= k < |list| ==>
        At(syms, list[k]).valid && CurrTri(syms, list[k]) == Meaning(cfg, r, list[k])
    {
      for i := 0 to |list|
        invariant AllCorrect(cfg, r, written, syms)
        invariant forall k :: 0 <= k < i ==> At(syms, list[k]).valid
      {
        CalcTop(list[i], r);
      }
    }

    // clearing SYMBOL_WRITE when the symbol has been written
    method ClearWrite(s: Sym, ghost r: Rank)
      requires Ranked(cfg, r) && AllCorrect(cfg, r, written, syms) && s.IsLogic() && At(syms, s).valid
      modifies this`syms, this`written
      ensures AllCorrect(cfg, r, written, syms) && written == old(written) + {s}
    {
      syms := syms[s := At(syms, s).(write := false)];
      written := written + {s};
    }

    // sym_clear_all_valid
    method ClearAllValid(modulesSym: Sym, ghost r: Rank)
      requires Ranked(cfg, r)
      modifies this`syms, this`written
      ensures AllCorrect(cfg, r, written, syms) && written == {}
      ensures CurrTri(syms, modulesSym) == Meaning(cfg, r, modulesSym)
    {
      syms := map s | s in syms :: syms[s].(valid := false);
      written := {};
      CalcTop(modulesSym, r);
    }

    // sym_set_tristate_value. Clearing evaluates MODULES again, whose value the
    // other symbols are rounded by from then on. Until it changes the table is
    // correct for the new user value; symbols MODULES does not depend on never
    // change it.
    method SetTristate(s: Sym, val: Tri, modulesSym: Sym, ghost r: Rank) returns (ok: bool)
      requires Ranked(cfg, r) && AllCorrect(cfg, r, written, syms) && s.IsLogic() && At(syms, s).valid
      requires Meaning(cfg, r, modulesSym) == cfg.modules
      modifies this
      ensures ok <==> Meaning(old(cfg), r, s) == val || WithinRange(old(cfg), r, s, val)
      ensures !ok ==> cfg == old(cfg) && syms == old(syms) && written == old(written)
      ensures Ranked(cfg, r) && Ranked(WithUser(old(cfg), s, val), r)
      ensures ok ==> var c := WithUser(old(cfg), s, val);
        && (Meaning(c, r, s) == val <==> Meaning(old(cfg), r, s) != val || Sticks(old(cfg), r, s, val))
        && if Meaning(old(cfg), r, s) == val then
             && cfg == c && syms == old(syms) && written == old(written)
             && (AllCorrect(c, r, written, syms) <==> Sticks(old(cfg), r, s, val))
           else
             cfg == c.(modules := Meaning(c, r, modulesSym)) && written == {} && AllCorrect(c, r, written, syms)
      ensures !Reaches(old(cfg), r, modulesSym, s) ==>
        cfg.modules == old(cfg).modules && Meaning(cfg, r, modulesSym) == cfg.modules
    {
      ghost var c, c2 := cfg, WithUser(cfg, s, val);
      SameRulesRanked(c, c2, r);
      if !Reaches(c, r, modulesSym, s) {
        SameMeaning(c, r, s, val, modulesSym);
      }
      var oldval := CurrTri(syms, s);
      if oldval != val && !TristateWithinRange(s.Type(), cfg.modules, At(syms, s), val) {
        return false;
      }
      SetThenRecalculate(c, r, s, val);
      cfg := cfg.(user := cfg.user[s := val]);
      if oldval != val {
        ClearAllValid(modulesSym, r);
        cfg := cfg.(modules := CurrTri(syms, modulesSym));
        SameDefsRanked(c2, cfg, r);
      } else {
        SticksKeeps(c, r, s, val, written, syms);
      }
      return true;
    }
  }

  ghost predicate AllCorrect(c: Config, r: Rank, w: set<Sym>, t: Table)
    requires Ranked(c, r)
  {
    && (forall s: Sym :: s.IsLogic() && At(t, s).valid ==> At(t, s) == Stored(c, r, w, s))
    && (forall s: Sym :: s in w ==> At(t, s).valid)
  }

  lemma StaysCorrect(c: Config, r: Rank, w: set<Sym>, s: Sym, was: Table, t: Table)
    requires Ranked(c, r) && AllCorrect(c, r, w, was)
    requires CorrectBelow(c, r, w, t, r(s) + 1) && OnlyBelowOr(r, s, was, t)
    ensures AllCorrect(c, r, w, t)
    ensures At(t, s).valid ==> forall x: Sym :: At(was, x).valid ==> At(t, x).valid
  {
    forall x: Sym | x.IsLogic() && At(t, x).valid ensures At(t, x) == Stored(c, r, w, x) {
      if r(x) > r(s) {
        assert At(t, x) == At(was, x);
      }
    }
  }

  // sym_tristate_within_range
  predicate TristateWithinRange(typ: SymType, modules: Tri, f: Fields, val: Tri) {
    f.visible != NO && !(ActsBoolean(typ, modules) && val == MOD) && f.visible > f.rev &&
    f.rev <= val <= f.visible
  }

  ghost predicate WithinRange(c: Config, r: Rank, s: Sym, val: Tri)
    requires Ranked(c, r) && s.IsLogic()
  {
    TristateWithinRange(s.Type(), c.modules, Evaluated(c, r, s), val)
  }

  // a user value that recalculation keeps although it is not checked
  ghost predicate Sticks(c: Config, r: Rank, s: Sym, val: Tri)
    requires Ranked(c, r) && s.IsLogic()
  {
    MeantVisible(c, r, s) == NO || val <= MeantVisible(c, r, s) || val == MeantRev(c, r, s)
  }

  function WithUser(c: Config, s: Sym, val: Tri): Config { c.(user := c.user[s := val]) }

  // ---------- what a user value affects ----------

  predicate DepMentions(d: Dep, y: Sym) { d.Some? && Contains(d.value, y) }

  predicate DefMentions(d: SymDef, y: Sym) {
    || (exists k :: 0 <= k < |d.prompts| && DepMentions(d.prompts[k], y))
    || DepMentions(d.dirDep, y)
    || DepMentions(d.revDep, y)
    || (exists k :: 0 <= k < |d.defaults| && DefaultMentions(d.defaults[k], y))
  }

  predicate DefaultMentions(d: Default, y: Sym) { DepMentions(d.cond, y) || Contains(d.value, y) }

  // x is s or depends on s through any number of steps
  ghost predicate Reaches(c: Config, r: Rank, x: Sym, s: Sym)
    decreases r(x)
  {
    x == s ||
    (x.IsLogic() && exists y: Sym :: r(y) < r(x) && DefMentions(DefOf(c, x), y) && Reaches(c, r, y, s))
  }

  lemma {:induction false} ContainsBelow(r: Rank, e: Expr, y: Sym, n: nat)
    requires Below(r, e, n) && Contains(e, y)
    ensures r(y) < n
  {
    match e
    case Leaf(_) =>
    case Not(x) => ContainsBelow(r, x, y, n);
    case Cmp(_, _, _) =>
    case Bin(_, a, b) =>
      if Contains(a, y) {
        ContainsBelow(r, a, y, n);
      } else {
        ContainsBelow(r, b, y, n);
      }
  }

  lemma DefMentionsBelow(c: Config, r: Rank, x: Sym, y: Sym)
    requires Ranked(c, r) && x.IsLogic() && DefMentions(DefOf(c, x), y)
    ensures r(y) < r(x)
  {
    var d, n := DefOf(c, x), r(x);
    assert DefBelow(r, d, n);
    if k :| 0 <= k < |d.prompts| && DepMentions(d.prompts[k], y) {
      assert DepBelow(r, d.prompts[k], n);
      ContainsBelow(r, d.prompts[k].value, y, n);
    } else if DepMentions(d.dirDep, y) {
      ContainsBelow(r, d.dirDep.value, y, n);
    } else if DepMentions(d.revDep, y) {
      ContainsBelow(r, d.revDep.value, y, n);
    } else {
      var k :| 0 <= k < |d.defaults| && DefaultMentions(d.defaults[k], y);
      assert DefaultBelow(r, d.defaults[k], n);
      var f := d.defaults[k];
      ContainsBelow(r, if Contains(f.value, y) then f.value else f.cond.value, y, n);
    }
  }

  lemma {:induction false} ReachesRank(c: Config, r: Rank, x: Sym, s: Sym)
    requires Reaches(c, r, x, s)
    ensures r(x) >= r(s)
    decreases r(x)
  {
    if x != s {
      var y: Sym :| r(y) < r(x) && DefMentions(DefOf(c, x), y) && Reaches(c, r, y, s);
      ReachesRank(c, r, y, s);
    }
  }

  // c2 differs from c in user values only
  ghost predicate SameRules(c: Config, c2: Config) { c2 == c.(user := c2.user) }

  // the two give x the same meaning
  ghost predicate SameMeaningAt(c: Config, c2: Config, r: Rank, x: Sym)
    requires Ranked(c, r) && Ranked(c2, r)
  {
    Meaning(c2, r, x) == Meaning(c, r, x)
  }

  lemma SameDefsRanked(c: Config, c2: Config, r: Rank)
    requires Ranked(c, r) && c2.defs == c.defs
    ensures Ranked(c2, r)
  {
    assert forall x: Sym :: DefOf(c2, x) == DefOf(c, x);
  }

  lemma SameRulesRanked(c: Config, c2: Config, r: Rank)
    requires Ranked(c, r) && SameRules(c, c2)
    ensures Ranked(c2, r)
  {
    SameDefsRanked(c, c2, r);
  }

  lemma {:induction false} SameExpr(c: Config, c2: Config, r: Rank, e: Expr, n: nat)
    requires Ranked(c, r) && SameRules(c, c2) && Ranked(c2, r) && Below(r, e, n)
    requires forall y: Sym :: Contains(e, y) ==> SameMeaningAt(c, c2, r, y)
    ensures MeantExpr(c2, r, e, n) == MeantExpr(c, r, e, n)
  {
    match e
    case Leaf(x) => assert Contains(e, x) && SameMeaningAt(c, c2, r, x);
    case Not(x) =>
      assert forall y: Sym :: Contains(x, y) ==> Contains(e, y);
      SameExpr(c, c2, r, x, n);
    case Cmp(_, a, b) =>
      assert Contains(e, a) && Contains(e, b);
      assert SameMeaningAt(c, c2, r, a) && SameMeaningAt(c, c2, r, b);
    case Bin(_, a, b) =>
      assert forall y: Sym :: Contains(a, y) || Contains(b, y) ==> Contains(e, y);
      SameExpr(c, c2, r, a, n);
      SameExpr(c, c2, r, b, n);
  }

  lemma SameDep(c: Config, c2: Config, r: Rank, d: Dep, n: nat)
    requires Ranked(c, r) && SameRules(c, c2) && Ranked(c2, r) && DepBelow(r, d, n)
    requires forall y: Sym :: DepMentions(d, y) ==> SameMeaningAt(c, c2, r, y)
    ensures MeantDep(c2, r, d, n) == MeantDep(c, r, d, n)
  {
    if d.Some? {
      assert forall y: Sym :: Contains(d.value, y) ==> DepMentions(d, y);
      SameExpr(c, c2, r, d.value, n);
    }
  }

  lemma {:induction false} SameMax(c: Config, c2: Config, r: Rank, ds: seq<Dep>, n: nat)
    requires Ranked(c, r) && SameRules(c, c2) && Ranked(c2, r) && forall k :: 0 <= k < |ds| ==> DepBelow(r, ds[k], n)
    requires forall k, y: Sym :: 0 <= k < |ds| && DepMentions(ds[k], y) ==> SameMeaningAt(c, c2, r, y)
    ensures MeantMax(c2, r, ds, n) == MeantMax(c, r, ds, n)
  {
    if ds != [] {
      SameMax(c, c2, r, ds[..|ds| - 1], n);
      SameDep(c, c2, r, ds[|ds| - 1], n);
    }
  }

  lemma {:induction false} SameDefault(c: Config, c2: Config, r: Rank, ds: seq<Default>, n: nat)
    requires Ranked(c, r) && SameRules(c, c2) && Ranked(c2, r)
    requires forall k :: 0 <= k < |ds| ==> DefaultBelow(r, ds[k], n)
    requires forall k, y: Sym :: 0 <= k < |ds| && DefaultMentions(ds[k], y) ==> SameMeaningAt(c, c2, r, y)
    ensures MeantDefault(c2, r, ds, n) == MeantDefault(c, r, ds, n)
  {
    if ds != [] {
      assert DefaultBelow(r, ds[0], n);
      assert forall y: Sym :: DepMentions(ds[0].cond, y) || Contains(ds[0].value, y) ==> DefaultMentions(ds[0], y);
      SameDep(c, c2, r, ds[0].cond, n);
      SameExpr(c, c2, r, ds[0].value, n);
      SameDefault(c, c2, r, ds[1..], n);
    }
  }

  // x is computed from the same inputs
  lemma SameInputs(c: Config, c2: Config, r: Rank, x: Sym)
    requires Ranked(c, r) && SameRules(c, c2) && Ranked(c2, r) && x.IsLogic()
    requires forall y: Sym :: DefMentions(DefOf(c, x), y) ==> SameMeaningAt(c, c2, r, y)
    ensures
      && MeantVisible(c2, r, x) == MeantVisible(c, r, x)
      && MeantDir(c2, r, x) == MeantDir(c, r, x)
      && MeantRev(c2, r, x) == MeantRev(c, r, x)
      && MeantDefault(c2, r, DefOf(c2, x).defaults, r(x)) == MeantDefault(c, r, DefOf(c, x).defaults, r(x))
  {
    var d, n := DefOf(c, x), r(x);
    assert DefBelow(r, d, n);
    SameMax(c, c2, r, d.prompts, n);
    SameDep(c, c2, r, d.dirDep, n);
    SameDep(c, c2, r, d.revDep, n);
    SameDefault(c, c2, r, d.defaults, n);
  }

  lemma {:induction false} SameMeaning(c: Config, r: Rank, s: Sym, val: Tri, x: Sym)
    requires Ranked(c, r) && Ranked(WithUser(c, s, val), r)
    requires !Reaches(c, r, x, s) || SameMeaningAt(c, WithUser(c, s, val), r, s)
    ensures SameMeaningAt(c, WithUser(c, s, val), r, x)
    decreases r(x)
  {
    if x.IsLogic() && x != s {
      forall y: Sym | DefMentions(DefOf(c, x), y) ensures SameMeaningAt(c, WithUser(c, s, val), r, y) {
        DefMentionsBelow(c, r, x, y);
        SameMeaning(c, r, s, val, y);
      }
      SameInputs(c, WithUser(c, s, val), r, x);
    }
  }

  lemma OwnInputs(c: Config, r: Rank, s: Sym, val: Tri)
    requires Ranked(c, r) && Ranked(WithUser(c, s, val), r) && s.IsLogic()
    ensures var c2 := WithUser(c, s, val);
      && MeantVisible(c2, r, s) == MeantVisible(c, r, s)
      && MeantDir(c2, r, s) == MeantDir(c, r, s)
      && MeantRev(c2, r, s) == MeantRev(c, r, s)
      && MeantDefault(c2, r, DefOf(c2, s).defaults, r(s)) == MeantDefault(c, r, DefOf(c, s).defaults, r(s))
  {
    forall y: Sym | DefMentions(DefOf(c, s), y) ensures SameMeaningAt(c, WithUser(c, s, val), r, y) {
      DefMentionsBelow(c, r, s, y);
      if Reaches(c, r, y, s) {
        ReachesRank(c, r, y, s);
      }
      SameMeaning(c, r, s, val, y);
    }
    SameInputs(c, WithUser(c, s, val), r, s);
  }

  // Symbols that do not depend on s keep every evaluated field; if s itself
  // keeps its meaning, all symbols do
  lemma SameEvaluated(c: Config, r: Rank, s: Sym, val: Tri, x: Sym)
    requires Ranked(c, r) && Ranked(WithUser(c, s, val), r) && s.IsLogic() && x.IsLogic()
    requires !Reaches(c, r, x, s) || SameMeaningAt(c, WithUser(c, s, val), r, s)
    ensures Evaluated(WithUser(c, s, val), r, x) == Evaluated(c, r, x)
  {
    SameMeaning(c, r, s, val, x);
    if x == s {
      OwnInputs(c, r, s, val);
    } else {
      forall y: Sym | DefMentions(DefOf(c, x), y) ensures SameMeaningAt(c, WithUser(c, s, val), r, y) {
        DefMentionsBelow(c, r, x, y);
        SameMeaning(c, r, s, val, y);
      }
      SameInputs(c, WithUser(c, s, val), r, x);
    }
  }

  // An accepted value is the value after recalculation, except when it was
  // already the value and the prompt cannot reach it
  lemma SetThenRecalculate(c: Config, r: Rank, s: Sym, val: Tri)
    requires Ranked(c, r) && s.IsLogic()
    requires Meaning(c, r, s) == val || WithinRange(c, r, s, val)
    ensures Ranked(WithUser(c, s, val), r)
    ensures WithinRange(c, r, s, val) ==> Meaning(WithUser(c, s, val), r, s) == val
    ensures Meaning(WithUser(c, s, val), r, s) == val <==> Sticks(c, r, s, val)
  {
    SameRulesRanked(c, WithUser(c, s, val), r);
    OwnInputs(c, r, s, val);
    MeaningRange(c, r, s);
  }

  // A table stays correct when s is given the user value it already has, exactly
  // if that value sticks
  lemma SticksKeeps(c: Config, r: Rank, s: Sym, val: Tri, w: set<Sym>, t: Table)
    requires Ranked(c, r) && AllCorrect(c, r, w, t) && s.IsLogic() && At(t, s).valid && Meaning(c, r, s) == val
    ensures Ranked(WithUser(c, s, val), r)
    ensures AllCorrect(WithUser(c, s, val), r, w, t) <==> Sticks(c, r, s, val)
  {
    var c2 := WithUser(c, s, val);
    SetThenRecalculate(c, r, s, val);
    if Sticks(c, r, s, val) {
      forall x: Sym | x.IsLogic()
        ensures Evaluated(c2, r, x) == Evaluated(c, r, x)
      {
        SameEvaluated(c, r, s, val, x);
      }
    } else {
      assert At(t, s).curr == val != Evaluated(c2, r, s).curr;
    }
  }

  lemma MeaningRange(c: Config, r: Rank, s: Sym)
    requires Ranked(c, r) && s.IsLogic()
    ensures ActsBoolean(s.Type(), c.modules) ==> Meaning(c, r, s) != MOD
    ensures ActsBoolean(s.Type(), c.modules) ==> MeantVisible(c, r, s) != MOD && MeantRev(c, r, s) != MOD
    ensures Meaning(c, r, s) >= MeantRev(c, r, s)
  {
  }

  // ---------- the meanings form a well-formed valuation ----------

  ghost function MeaningValuation(c: Config, r: Rank): Valuation
    requires Ranked(c, r)
  {
    Valuation((s: Sym) => if Ranked(c, r) then Meaning(c, r, s) else NO, c.val, c.modules, c.order)
  }

  lemma MeaningWellFormed(c: Config, r: Rank)
    requires Ranked(c, r) && forall s: Sym :: s.IsConst() ==> c.val(s) == s.Name()
    ensures WellFormed(MeaningValuation(c, r))
  {
    forall s: Sym ensures WellFormedAt(MeaningValuation(c, r), s) {
      if s.IsLogic() {
        MeaningRange(c, r, s);
      }
    }
  }

  // expr_calc_value computes the value of expr.c's algebra under that valuation
  lemma {:induction false} MeantExprValue(c: Config, r: Rank, e: Expr, n: nat)
    requires Ranked(c, r) && Below(r, e, n)
    ensures MeantExpr(c, r, e, n) == Value(MeaningValuation(c, r), e)
  {
    match e
    case Not(x) => MeantExprValue(c, r, x, n);
    case Bin(_, a, b) =>
      MeantExprValue(c, r, a, n);
      MeantExprValue(c, r, b, n);
    case _ =>
  }
}
