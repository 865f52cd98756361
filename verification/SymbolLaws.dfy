/** What the evaluator computes, said of the values of the expressions in a
    symbol's definition (sym_calc_visibility, sym_calc_value,
    sym_tristate_within_range). */
module SymbolLaws {
  import opened Options
  import opened Tristates
  import opened Exprs
  import opened SymbolEval

  // t is the smaller, the larger of two values
  predicate Least(t: Tri, a: Tri, b: Tri) { t <= a && t <= b && (t == a || t == b) }

  predicate Greatest(t: Tri, a: Tri, b: Tri) { t >= a && t >= b && (t == a || t == b) }

  // m is no value of a boolean symbol, nor of any symbol while MODULES is n
  predicate NeverM(c: Config, s: Sym) { s.Type() == Boolean || c.modules == NO }

  // t, with m read as y where m is no value
  predicate Rounds(c: Config, s: Sym, t: Tri, result: Tri) {
    result == if t == MOD && NeverM(c, s) then YES else t
  }

  lemma DepMeaning(c: Config, r: Rank, d: Dep, n: nat)
    requires Ranked(c, r) && DepBelow(r, d, n)
    ensures MeantDep(c, r, d, n) == DepValue(MeaningValuation(c, r), d)
  {
    if d.Some? {
      MeantExprValue(c, r, d.value, n);
    }
  }

  // ---------- prompts ----------

  lemma {:induction false} LargestPrompt(c: Config, r: Rank, ds: seq<Dep>, n: nat)
    requires Ranked(c, r) && forall k :: 0 <= k < |ds| ==> DepBelow(r, ds[k], n)
    ensures var v, t := MeaningValuation(c, r), MeantMax(c, r, ds, n);
      && (forall k :: 0 <= k < |ds| ==> DepValue(v, ds[k]) <= t)
      && (t == NO || exists k :: 0 <= k < |ds| && DepValue(v, ds[k]) == t)
  {
    if ds != [] {
      var front, last := ds[..|ds| - 1], ds[|ds| - 1];
      LargestPrompt(c, r, front, n);
      DepMeaning(c, r, last, n);
      var v := MeaningValuation(c, r);
      var t := MeantMax(c, r, front, n);
      hide MeantMax, DepValue, MeaningValuation;
      assert MeantMax(c, r, ds, n) == Max(t, DepValue(v, last)) by {
        MaxStep(c, r, ds, n);
      }
      forall k | 0 <= k < |ds|
        ensures DepValue(v, ds[k]) <= Max(t, DepValue(v, last))
      {
        if k < |ds| - 1 {
          assert front[k] == ds[k];
        }
      }
      if t != NO && t >= DepValue(v, last) {
        var k :| 0 <= k < |front| && DepValue(v, front[k]) == t;
        assert DepValue(v, ds[k]) == t;
      } else {
        assert DepValue(v, ds[|ds| - 1]) == Max(t, DepValue(v, last));
      }
    }
  }

  lemma MaxStep(c: Config, r: Rank, ds: seq<Dep>, n: nat)
    requires Ranked(c, r) && (forall k :: 0 <= k < |ds| ==> DepBelow(r, ds[k], n)) && ds != []
    ensures MeantMax(c, r, ds, n)
         == Max(MeantMax(c, r, ds[..|ds| - 1], n), DepValue(MeaningValuation(c, r), ds[|ds| - 1]))
  {
    DepMeaning(c, r, ds[|ds| - 1], n);
  }

  // The visibility is the largest of the prompts', n if there is none; m becomes
  // y unless the symbol is tristate and MODULES is not n
  lemma VisibilityLaw(c: Config, r: Rank, s: Sym)
    requires Ranked(c, r) && s.IsLogic()
    ensures var v, ps, vis := MeaningValuation(c, r), DefOf(c, s).prompts, MeantVisible(c, r, s);
      && (forall k :: 0 <= k < |ps| ==> DepValue(v, ps[k]) <= vis)
      && (vis != NO ==> exists k :: 0 <= k < |ps| && Rounds(c, s, DepValue(v, ps[k]), vis))
  {
    assert DefBelow(r, DefOf(c, s), r(s));
    LargestPrompt(c, r, DefOf(c, s).prompts, r(s));
    hide DepValue, MeaningValuation, MeantMax;
    var raw := MeantMax(c, r, DefOf(c, s).prompts, r(s));
    assert s.Type() == Boolean || s.Type() == Tristate;
    assert Rounds(c, s, raw, MeantVisible(c, r, s));
  }

  // Reverse dependencies are n if there are none, direct ones y; m becomes y
  // for a direct one always
  lemma DependencyLaw(c: Config, r: Rank, s: Sym)
    requires Ranked(c, r) && s.IsLogic()
    ensures var v, d := MeaningValuation(c, r), DefOf(c, s);
      && (d.revDep.None? ==> MeantRev(c, r, s) == NO)
      && (d.revDep.Some? ==> Rounds(c, s, Value(v, d.revDep.value), MeantRev(c, r, s)))
      && (d.dirDep.None? ==> MeantDir(c, r, s) == YES)
      && (d.dirDep.Some? ==> MeantDir(c, r, s) == if Value(v, d.dirDep.value) == NO then NO else YES)
  {
    var d := DefOf(c, s);
    assert DefBelow(r, d, r(s));
    DepMeaning(c, r, d.dirDep, r(s));
    DepMeaning(c, r, d.revDep, r(s));
  }

  // ---------- defaults ----------

  // the first default whose condition is not n
  predicate FirstActive(v: Valuation, ds: seq<Default>, k: nat) {
    && k < |ds| && DepValue(v, ds[k].cond) != NO
    && forall j :: 0 <= j < k ==> DepValue(v, ds[j].cond) == NO
  }

  predicate NoneActive(v: Valuation, ds: seq<Default>) {
    forall k :: 0 <= k < |ds| ==> DepValue(v, ds[k].cond) == NO
  }

  // That default gives the smaller of its value and its condition
  lemma {:induction false} DefaultLaw(c: Config, r: Rank, ds: seq<Default>, n: nat)
    requires Ranked(c, r) && forall k :: 0 <= k < |ds| ==> DefaultBelow(r, ds[k], n)
    ensures var v, t := MeaningValuation(c, r), MeantDefault(c, r, ds, n);
      && (t.None? <==> NoneActive(v, ds))
      && forall k: nat :: FirstActive(v, ds, k) ==>
           t.Some? && Least(t.value, Value(v, ds[k].value), DepValue(v, ds[k].cond))
  {
    if ds != [] {
      assert DefaultBelow(r, ds[0], n);
      DepMeaning(c, r, ds[0].cond, n);
      MeantExprValue(c, r, ds[0].value, n);
      DefaultLaw(c, r, ds[1..], n);
      var v := MeaningValuation(c, r);
      hide DepValue, Value, MeaningValuation, MeantExpr, MeantDep;
      forall k: nat | FirstActive(v, ds, k)
        ensures k > 0 ==> FirstActive(v, ds[1..], k - 1) && ds[1..][k - 1] == ds[k]
      {
      }
      assert forall k :: 0 <= k < |ds| - 1 ==> ds[1..][k] == ds[k + 1];
    }
  }

  lemma {:induction false} ActiveExists(v: Valuation, ds: seq<Default>)
    ensures NoneActive(v, ds) || exists k: nat :: FirstActive(v, ds, k)
  {
    if ds != [] {
      if DepValue(v, ds[0].cond) != NO {
        assert FirstActive(v, ds, 0);
      } else {
        ActiveExists(v, ds[1..]);
        hide DepValue;
        if k: nat :| FirstActive(v, ds[1..], k) {
          assert forall j :: 0 <= j <= k ==> ds[1..][j] == ds[j + 1];
          assert FirstActive(v, ds, k + 1);
        }
      }
    }
  }

  // ---------- values ----------

  // What a symbol contributes itself: its user value as far as the prompt
  // allows, or if there is no such value the first active default, or n
  ghost predicate Contributes(c: Config, r: Rank, s: Sym, t: Tri)
    requires Ranked(c, r) && s.IsLogic()
  {
    var v, ds, vis := MeaningValuation(c, r), DefOf(c, s).defaults, MeantVisible(c, r, s);
    if s in c.user && vis != NO then Least(t, c.user[s], vis)
    else
      && (NoneActive(v, ds) ==> t == NO)
      && forall k: nat :: FirstActive(v, ds, k) ==> Least(t, Value(v, ds[k].value), DepValue(v, ds[k].cond))
  }

  // A symbol's value is the larger of that and its reverse dependency, with m
  // read as y where m is no value
  lemma ValueLaw(c: Config, r: Rank, s: Sym)
    requires Ranked(c, r) && s.IsLogic()
    ensures exists t, sum: Tri ::
      Contributes(c, r, s, t) && Greatest(sum, t, MeantRev(c, r, s)) && Rounds(c, s, sum, Meaning(c, r, s))
  {
    assert DefBelow(r, DefOf(c, s), r(s));
    DefaultLaw(c, r, DefOf(c, s).defaults, r(s));
    var vis, def := MeantVisible(c, r, s), MeantDefault(c, r, DefOf(c, s).defaults, r(s));
    var t: Tri :=
      if s in c.user && vis != NO then Min(c.user[s], vis) else if def.Some? then def.value else NO;
    assert Contributes(c, r, s, t);
    assert Greatest(Max(t, MeantRev(c, r, s)), t, MeantRev(c, r, s));
    assert Rounds(c, s, Max(t, MeantRev(c, r, s)), Meaning(c, r, s));
  }

  // So a symbol that is not selected and whose user value, if any, no prompt
  // shows has the value its first active default gives, or n
  lemma DefaultValueLaw(c: Config, r: Rank, s: Sym)
    requires Ranked(c, r) && s.IsLogic() && MeantRev(c, r, s) == NO
    requires s in c.user ==> MeantVisible(c, r, s) == NO
    ensures var v, ds := MeaningValuation(c, r), DefOf(c, s).defaults;
      && (NoneActive(v, ds) ==> Meaning(c, r, s) == NO)
      && forall k: nat :: FirstActive(v, ds, k) ==>
           exists t: Tri ::
             Least(t, Value(v, ds[k].value), DepValue(v, ds[k].cond)) && Rounds(c, s, t, Meaning(c, r, s))
  {
    ValueLaw(c, r, s);
    hide MeantRev, MeantVisible, Meaning;
    var t, sum: Tri :|
      Contributes(c, r, s, t) && Greatest(sum, t, MeantRev(c, r, s)) && Rounds(c, s, sum, Meaning(c, r, s));
    assert sum == t;
  }

  lemma ContributesOne(c: Config, r: Rank, s: Sym, t: Tri, u: Tri)
    requires Ranked(c, r) && s.IsLogic() && Contributes(c, r, s, t) && Contributes(c, r, s, u)
    ensures t == u
  {
    ActiveExists(MeaningValuation(c, r), DefOf(c, s).defaults);
  }

  // A symbol is written if it can be seen, is selected, or has an active default
  lemma WriteLaw(c: Config, r: Rank, s: Sym)
    requires Ranked(c, r) && s.IsLogic()
    ensures MeantWrite(c, r, s) <==>
      || MeantVisible(c, r, s) != NO || MeantRev(c, r, s) != NO
      || exists k: nat :: FirstActive(MeaningValuation(c, r), DefOf(c, s).defaults, k)
  {
    assert DefBelow(r, DefOf(c, s), r(s));
    DefaultLaw(c, r, DefOf(c, s).defaults, r(s));
    ActiveExists(MeaningValuation(c, r), DefOf(c, s).defaults);
  }

  // A value is within range exactly if the prompt goes beyond the reverse
  // dependency and recalculation with that user value gives it
  lemma RangeLaw(c: Config, r: Rank, s: Sym, val: Tri)
    requires Ranked(c, r) && s.IsLogic()
    ensures Ranked(WithUser(c, s, val), r)
    ensures WithinRange(c, r, s, val) <==>
      MeantVisible(c, r, s) > MeantRev(c, r, s) && Meaning(WithUser(c, s, val), r, s) == val
  {
    SameRulesRanked(c, WithUser(c, s, val), r);
    OwnInputs(c, r, s, val);
    MeaningRange(c, r, s);
    MeaningRange(WithUser(c, s, val), r, s);
  }
}
