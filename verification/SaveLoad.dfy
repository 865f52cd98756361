/** Saving a configuration and loading it again: which values survive
    (conf_write, conf_read). */
module SaveLoad {
  import opened Options
  import opened Tristates
  import opened Exprs
  import opened SymbolEval
  import ConfFile
  import ConfWrite

  // ---------- which values survive ----------

  // out lists the symbols that are to be written
  ghost predicate Complete(c: Config, r: Rank, out: seq<Sym>)
    requires Ranked(c, r)
  {
    forall s: Sym :: s in out <==> s.IsLogic() && MeantWrite(c, r, s)
  }

  // the user values after loading what was written
  ghost function Saved(c: Config, r: Rank, out: seq<Sym>): map<Sym, Tri>
    requires Ranked(c, r)
  {
    map s | s in out && s.IsLogic() :: Meaning(c, r, s)
  }

  ghost function Loaded(c: Config, r: Rank, out: seq<Sym>): (c2: Config)
    requires Ranked(c, r)
    ensures SameRules(c, c2) && Ranked(c2, r)
  {
    var c2 := c.(user := Saved(c, r, out));
    SameRulesRanked(c, c2, r);
    c2
  }

  ghost predicate Restored(c: Config, r: Rank, out: seq<Sym>)
    requires Ranked(c, r)
  {
    forall x: Sym :: SameMeaningAt(c, Loaded(c, r, out), r, x)
  }

  ghost predicate OutSticks(c: Config, r: Rank, out: seq<Sym>, s: Sym)
    requires Ranked(c, r)
  {
    s in out && s.IsLogic() ==> Sticks(c, r, s, Meaning(c, r, s))
  }

  // one symbol, when everything it is computed from has survived
  lemma OneRestored(c: Config, r: Rank, out: seq<Sym>, x: Sym)
    requires Ranked(c, r) && Complete(c, r, out) && x.IsLogic()
    requires forall y: Sym :: DefMentions(DefOf(c, x), y) ==> SameMeaningAt(c, Loaded(c, r, out), r, y)
    ensures SameMeaningAt(c, Loaded(c, r, out), r, x) <==> OutSticks(c, r, out, x)
    ensures MeantWrite(Loaded(c, r, out), r, x) == MeantWrite(c, r, x)
  {
    var c2 := Loaded(c, r, out);
    SameInputs(c, c2, r, x);
    MeaningRange(c, r, x);
    assert x in out <==> MeantWrite(c, r, x);
    assert UserOf(c2, x) == if x in out then Some(Meaning(c, r, x)) else None;
  }

  lemma {:induction false} SticksRestores(c: Config, r: Rank, out: seq<Sym>, x: Sym)
    requires Ranked(c, r) && Complete(c, r, out) && forall s: Sym :: OutSticks(c, r, out, s)
    ensures SameMeaningAt(c, Loaded(c, r, out), r, x)
    decreases r(x)
  {
    if x.IsLogic() {
      forall y: Sym | DefMentions(DefOf(c, x), y)
        ensures SameMeaningAt(c, Loaded(c, r, out), r, y)
      {
        DefMentionsBelow(c, r, x, y);
        SticksRestores(c, r, out, y);
      }
      OneRestored(c, r, out, x);
    }
  }

  // Saving and loading keeps every value exactly when every written value is
  // one its prompt can produce
  lemma SaveLoadExact(c: Config, r: Rank, out: seq<Sym>)
    requires Ranked(c, r) && Complete(c, r, out)
    ensures Restored(c, r, out) <==> forall s: Sym :: OutSticks(c, r, out, s)
  {
    if Restored(c, r, out) {
      forall s: Sym
        ensures OutSticks(c, r, out, s)
      {
        if s in out {
          OneRestored(c, r, out, s);
        }
      }
    } else if forall s: Sym :: OutSticks(c, r, out, s) {
      forall x: Sym
        ensures SameMeaningAt(c, Loaded(c, r, out), r, x)
      {
        SticksRestores(c, r, out, x);
      }
    }
  }

  // prompt at m, default y, no user value, not selected to y
  ghost predicate DefaultAbovePrompt(c: Config, r: Rank, s: Sym)
    requires Ranked(c, r)
  {
    s.IsLogic() && MeantVisible(c, r, s) == MOD && MeantRev(c, r, s) < YES && UserOf(c, s).None?
    && MeantDefault(c, r, DefOf(c, s).defaults, r(s)) == Some(YES)
  }

  // The one case that does not survive: a tristate symbol without user value
  // whose default is y while its prompt allows m at most
  lemma NotSticking(c: Config, r: Rank, s: Sym)
    requires Ranked(c, r) && s.IsLogic()
    ensures !Sticks(c, r, s, Meaning(c, r, s)) <==> DefaultAbovePrompt(c, r, s)
  {
    MeaningRange(c, r, s);
  }

  // ---------- the check conf_read makes ----------

  // the value read agrees with the value calculated
  ghost predicate Agrees(c: Config, r: Rank, s: Sym)
    requires Ranked(c, r)
  {
    s.IsLogic() ==>
      if s in c.user && MeantWrite(c, r, s) then c.user[s] == Meaning(c, r, s)
      else s !in c.user && !MeantWrite(c, r, s)
  }

  // a value was read exactly for the symbols to be written, and it is theirs
  lemma AgreesMeans(c: Config, r: Rank)
    requires Ranked(c, r)
    ensures (forall s: Sym :: Agrees(c, r, s)) <==>
      forall s: Sym :: s.IsLogic() ==> UserOf(c, s) == if MeantWrite(c, r, s) then Some(Meaning(c, r, s)) else None
  {
    hide Meaning, MeantWrite;
    forall s: Sym
      ensures Agrees(c, r, s) <==>
        (s.IsLogic() ==> UserOf(c, s) == if MeantWrite(c, r, s) then Some(Meaning(c, r, s)) else None)
    {
    }
  }

  // conf_read finds nothing unsaved exactly when all values were restored
  lemma AgreesExact(c: Config, r: Rank, out: seq<Sym>)
    requires Ranked(c, r) && Complete(c, r, out)
    ensures (forall s: Sym :: Agrees(Loaded(c, r, out), r, s)) <==> Restored(c, r, out)
  {
    if Restored(c, r, out) {
      forall s: Sym
        ensures Agrees(Loaded(c, r, out), r, s)
      {
        if s.IsLogic() {
          OneRestored(c, r, out, s);
          assert SameMeaningAt(c, Loaded(c, r, out), r, s);
        }
      }
    }
    if forall s: Sym :: Agrees(Loaded(c, r, out), r, s) {
      forall x: Sym
        ensures SameMeaningAt(c, Loaded(c, r, out), r, x)
      {
        AgreesRestores(c, r, out, x);
      }
    }
  }

  lemma {:induction false} AgreesRestores(c: Config, r: Rank, out: seq<Sym>, x: Sym)
    requires Ranked(c, r) && Complete(c, r, out) && forall s: Sym :: Agrees(Loaded(c, r, out), r, s)
    ensures SameMeaningAt(c, Loaded(c, r, out), r, x)
    decreases r(x)
  {
    if x.IsLogic() {
      forall y: Sym | DefMentions(DefOf(c, x), y)
        ensures SameMeaningAt(c, Loaded(c, r, out), r, y)
      {
        DefMentionsBelow(c, r, x, y);
        AgreesRestores(c, r, out, y);
      }
      OneRestored(c, r, out, x);
      assert Agrees(Loaded(c, r, out), r, x);
    }
  }

  // user without the invisible symbols of list
  ghost predicate Dropped(c: Config, r: Rank, list: seq<Sym>, user: map<Sym, Tri>)
    requires Ranked(c, r)
  {
    && (forall s: Sym :: s in user && s in c.user ==> user[s] == c.user[s])
    && (forall s: Sym :: s in user <==> s in c.user && !(s in list && s.IsLogic() && MeantVisible(c, r, s) == NO))
  }

  // how many entries of list do not agree
  ghost function Disagreeing(c: Config, r: Rank, list: seq<Sym>): nat
    requires Ranked(c, r)
  {
    if list == [] then 0
    else Disagreeing(c, r, list[..|list| - 1]) + if Agrees(c, r, list[|list| - 1]) then 0 else 1
  }

  lemma DisagreeNone(c: Config, r: Rank)
    requires Ranked(c, r)
    ensures Disagreeing(c, r, []) == 0
  {
  }

  lemma DisagreeNext(c: Config, r: Rank, list: seq<Sym>, k: nat)
    requires Ranked(c, r) && k < |list|
    ensures Disagreeing(c, r, list[..k + 1]) == Disagreeing(c, r, list[..k]) + if Agrees(c, r, list[k]) then 0 else 1
  {
    hide Agrees;
    assert list[..k + 1][..k] == list[..k];
  }

  lemma {:induction false} NoneDisagree(c: Config, r: Rank, list: seq<Sym>)
    requires Ranked(c, r)
    ensures Disagreeing(c, r, list) == 0 <==> forall k :: 0 <= k < |list| ==> Agrees(c, r, list[k])
  {
    hide Agrees;
    if list != [] {
      NoneDisagree(c, r, list[..|list| - 1]);
      assert forall k :: 0 <= k < |list| - 1 ==> list[..|list| - 1][k] == list[k];
    }
  }

  class Loader {
    const table: SymbolTable
    var unsaved: nat   // conf_unsaved

    constructor (table: SymbolTable)
      ensures this.table == table && unsaved == 0
    {
      this.table, unsaved := table, 0;
    }

    // conf_read with the values of a file, over all symbols of list. User
    // values of invisible symbols are dropped if everything agrees, which
    // changes no value.
    method Read(user: map<Sym, Tri>, list: seq<Sym>, modulesSym: Sym, ghost r: Rank)
      requires Ranked(table.cfg, r) && unsaved == 0
      modifies this`unsaved, table
      ensures Ranked(table.cfg, r) && AllCorrect(table.cfg, r, table.written, table.syms)
      ensures var c := old(table.cfg).(user := user);
        && SameRules(c, table.cfg) && Ranked(c, r)
        && unsaved == Disagreeing(c, r, list)
        && (unsaved == 0 <==> forall k :: 0 <= k < |list| ==> Agrees(c, r, list[k]))
        && (forall x: Sym :: SameMeaningAt(c, table.cfg, r, x))
        && Dropped(c, r, if unsaved == 0 then list else [], table.cfg.user)
    {
      SameRulesRanked(table.cfg, table.cfg.(user := user), r);
      table.cfg := table.cfg.(user := user);
      table.ClearAllValid(modulesSym, r);
      Check(list, r);
      NoneDisagree(table.cfg, r, list);
      DropInvisible(list, r);
    }

    // the first loop: what was read against what is calculated
    method Check(list: seq<Sym>, ghost r: Rank)
      requires Ranked(table.cfg, r) && unsaved == 0
      requires table.written == {} && AllCorrect(table.cfg, r, {}, table.syms)
      modifies this`unsaved, table`syms
      ensures AllCorrect(table.cfg, r, {}, table.syms)
      ensures forall k :: 0 <= k < |list| ==> At(table.syms, list[k]).valid
      ensures unsaved == Disagreeing(table.cfg, r, list)
    {
      hide AllCorrect, Ranked, Disagreeing, Meaning, MeantWrite, MeantVisible;
      assert list[..0] == [] && Disagreeing(table.cfg, r, []) == 0 by { DisagreeNone(table.cfg, r); }
      for k := 0 to |list|
        invariant AllCorrect(table.cfg, r, {}, table.syms)
        invariant forall i :: 0 <= i < k ==> At(table.syms, list[i]).valid
        invariant unsaved == Disagreeing(table.cfg, r, list[..k])
      {
        DisagreeNext(table.cfg, r, list, k);
        var s := list[k];
        table.CalcTop(s, r);
        if s.IsLogic() {
          var f := At(table.syms, s);
          Calculated(table.cfg, r, table.syms, s);
          if s in table.cfg.user && f.write {
            if table.cfg.user[s] != f.curr {
              unsaved := unsaved + 1;
            }
          } else if s in table.cfg.user || f.write {
            unsaved := unsaved + 1;
          }
        }
      }
      assert list[..|list|] == list;
    }

    // the second loop: user values of invisible symbols are forgotten
    method DropInvisible(list: seq<Sym>, ghost r: Rank)
      requires Ranked(table.cfg, r)
      requires table.written == {} && AllCorrect(table.cfg, r, {}, table.syms)
      requires forall k :: 0 <= k < |list| ==> At(table.syms, list[k]).valid
      modifies table`cfg
      ensures Ranked(table.cfg, r) && AllCorrect(table.cfg, r, {}, table.syms)
      ensures SameRules(old(table.cfg), table.cfg)
      ensures forall x: Sym :: SameMeaningAt(old(table.cfg), table.cfg, r, x)
      ensures Dropped(old(table.cfg), r, if unsaved == 0 then list else [], table.cfg.user)
    {
      hide AllCorrect, Ranked, Meaning, MeantVisible;
      ghost var c := table.cfg;
      for k := 0 to |list|
        invariant Ranked(table.cfg, r) && AllCorrect(table.cfg, r, {}, table.syms) && SameRules(c, table.cfg)
        invariant forall x: Sym :: SameMeaningAt(c, table.cfg, r, x)
        invariant forall x: Sym :: x.IsLogic() ==> MeantVisible(c, r, x) == MeantVisible(table.cfg, r, x)
        invariant Dropped(c, r, if unsaved == 0 then list[..k] else [], table.cfg.user)
      {
        var s := list[k];
        assert list[..k + 1] == list[..k] + [s];
        if s.IsLogic() && s in table.cfg.user {
          Calculated(table.cfg, r, table.syms, s);
          if At(table.syms, s).visible == NO && unsaved == 0 {
            ghost var before := table.cfg;
            table.cfg := table.cfg.(user := table.cfg.user - {s});
            SameRulesRanked(before, table.cfg, r);
            InvisibleIgnored(before, table.cfg, r, {}, table.syms);
            forall x: Sym
              ensures SameMeaningAt(c, table.cfg, r, x)
            {
              assert SameMeaningAt(c, before, r, x) && SameMeaningAt(before, table.cfg, r, x);
            }
          }
        }
      }
      assert list[..|list|] == list;
    }
  }

  // a user value that no prompt shows has no effect
  lemma InvisibleIgnored(c: Config, c2: Config, r: Rank, w: set<Sym>, t: Table)
    requires Ranked(c, r) && Ranked(c2, r) && SameRules(c, c2) && AllCorrect(c, r, w, t)
    requires forall s: Sym :: s.IsLogic() && MeantVisible(c, r, s) != NO ==> UserOf(c2, s) == UserOf(c, s)
    ensures AllCorrect(c2, r, w, t)
    ensures forall x: Sym :: SameMeaningAt(c, c2, r, x)
    ensures forall x: Sym :: x.IsLogic() ==> MeantVisible(c2, r, x) == MeantVisible(c, r, x)
  {
    forall x: Sym
      ensures SameMeaningAt(c, c2, r, x)
      ensures x.IsLogic() ==> Evaluated(c2, r, x) == Evaluated(c, r, x)
    {
      OneIgnored(c, c2, r, x);
    }
    assert forall x: Sym :: x.IsLogic() ==> Evaluated(c2, r, x).visible == MeantVisible(c2, r, x);
  }

  lemma {:induction false} OneIgnored(c: Config, c2: Config, r: Rank, x: Sym)
    requires Ranked(c, r) && Ranked(c2, r) && SameRules(c, c2)
    requires forall s: Sym :: s.IsLogic() && MeantVisible(c, r, s) != NO ==> UserOf(c2, s) == UserOf(c, s)
    ensures SameMeaningAt(c, c2, r, x)
    ensures x.IsLogic() ==> Evaluated(c2, r, x) == Evaluated(c, r, x)
    decreases r(x)
  {
    if x.IsLogic() {
      forall y: Sym | DefMentions(DefOf(c, x), y)
        ensures SameMeaningAt(c, c2, r, y)
      {
        DefMentionsBelow(c, r, x, y);
        OneIgnored(c, c2, r, y);
      }
      SameInputs(c, c2, r, x);
    }
  }

  lemma Calculated(c: Config, r: Rank, t: Table, s: Sym)
    requires Ranked(c, r) && AllCorrect(c, r, {}, t) && s.IsLogic() && At(t, s).valid
    ensures At(t, s) == Evaluated(c, r, s)
  {
  }

  // ---------- through the text of the file ----------

  ghost function LineOf(c: Config, r: Rank, s: Sym): ConfFile.Line
    requires Ranked(c, r)
  {
    ConfFile.Line(s.Name(), s.Type(), ConfFile.TriVal(Meaning(c, r, s)))
  }

  ghost function LinesOf(c: Config, r: Rank, out: seq<Sym>): (ls: seq<ConfFile.Line>)
    requires Ranked(c, r)
    ensures |ls| == |out| && forall k :: 0 <= k < |out| ==> ls[k] == LineOf(c, r, out[k])
  {
    seq(|out|, k requires 0 <= k < |out| => LineOf(c, r, out[k]))
  }

  // declared symbols have usable names of their own
  ghost predicate Named(c: Config, types: ConfFile.Types) {
    && (forall s :: s in c.defs ==> ConfFile.ValidName(s.Name()) && s.Name() in types && types[s.Name()] == s.Type())
    && (forall s, t :: s in c.defs && t in c.defs && s.Name() == t.Name() ==> s == t)
  }

  // the user values the reader stores
  function UserRead(c: Config, vals: ConfFile.Vals): map<Sym, Tri> {
    map s | s in c.defs && s.IsLogic() && s.Name() in vals && vals[s.Name()].TriVal? :: vals[s.Name()].t
  }

  lemma WrittenDeclared(c: Config, r: Rank, s: Sym)
    requires Ranked(c, r) && s.IsLogic() && MeantWrite(c, r, s)
    ensures s in c.defs
  {
    if s !in c.defs {
      UndeclaredNotWritten(c, r, s);
    }
  }

  lemma UndeclaredNotWritten(c: Config, r: Rank, s: Sym)
    requires Ranked(c, r) && s.IsLogic() && s !in c.defs
    ensures !MeantWrite(c, r, s)
  {
    var d := DefOf(c, s);
    assert d == SymDef([], None, None, []);
    assert MeantMax(c, r, d.prompts, r(s)) == NO && MeantVisible(c, r, s) == NO;
    assert MeantRev(c, r, s) == NO && MeantDefault(c, r, d.defaults, r(s)) == None;
  }

  // Reading the written text stores the value of every written symbol, and
  // nothing else
  lemma TextRead(c: Config, r: Rank, out: seq<Sym>, types: ConfFile.Types)
    requires Ranked(c, r) && Complete(c, r, out) && Named(c, types)
    requires forall i, j :: 0 <= i < j < |out| ==> out[i] != out[j]
    ensures UserRead(c, ConfFile.ReadText(types, map[], ConfFile.PrintAll(LinesOf(c, r, out)))) == Saved(c, r, out)
  {
    var ls := LinesOf(c, r, out);
    forall k | 0 <= k < |ls|
      ensures ConfFile.ValidLine(types, ls[k]) && out[k] in c.defs && out[k].IsLogic()
    {
      assert out[k] in out;
      WrittenDeclared(c, r, out[k]);
      MeaningRange(c, r, out[k]);
    }
    ConfFile.WriteThenRead(types, map[], ls);
    StoredValues(c, r, out, types, ls);
  }

  lemma StoredValues(c: Config, r: Rank, out: seq<Sym>, types: ConfFile.Types, ls: seq<ConfFile.Line>)
    requires Ranked(c, r) && Named(c, types) && ls == LinesOf(c, r, out)
    requires forall k :: 0 <= k < |out| ==> out[k] in c.defs && out[k].IsLogic()
    requires forall i, j :: 0 <= i < j < |out| ==> out[i] != out[j]
    ensures UserRead(c, ConfFile.StoreAll(map[], ls)) == Saved(c, r, out)
  {
    hide Meaning, ConfFile.StoreAll, ConfFile.ValidName, Ranked;
    var vals := ConfFile.StoreAll(map[], ls);
    forall s | s in c.defs && s.IsLogic()
      ensures s in out ==> s.Name() in vals && vals[s.Name()] == ConfFile.TriVal(Meaning(c, r, s))
      ensures s !in out ==> s.Name() !in vals
    {
      StoredValue(c, r, out, ls, s);
    }
    assert forall s :: s in out ==> s in c.defs && s.IsLogic();
  }

  lemma StoredValue(c: Config, r: Rank, out: seq<Sym>, ls: seq<ConfFile.Line>, s: Sym)
    requires Ranked(c, r) && s in c.defs && ls == LinesOf(c, r, out)
    requires forall k :: 0 <= k < |out| ==> out[k] in c.defs
    requires forall s, t :: s in c.defs && t in c.defs && s.Name() == t.Name() ==> s == t
    requires forall i, j :: 0 <= i < j < |out| ==> out[i] != out[j]
    ensures var vals := ConfFile.StoreAll(map[], ls);
      if s in out then s.Name() in vals && vals[s.Name()] == ConfFile.TriVal(Meaning(c, r, s)) else s.Name() !in vals
  {
    forall k | 0 <= k < |out|
      ensures ls[k].name == s.Name() <==> out[k] == s
    {
      assert ls[k] == LineOf(c, r, out[k]);
    }
    if s in out {
      var k :| 0 <= k < |out| && out[k] == s;
      ConfFile.StoreAllGives(map[], ls, k);
    } else {
      ConfFile.StoreAllKeeps(map[], ls, s.Name());
    }
  }

  // ---------- the whole round trip ----------

  // every symbol that is to be written has a menu entry
  ghost predicate InMenu(c: Config, r: Rank, entry: int -> ConfWrite.Entry, menus: seq<int>)
    requires Ranked(c, r)
  {
    forall s: Sym :: s.IsLogic() && MeantWrite(c, r, s) ==>
      exists k :: 0 <= k < |menus| && entry(menus[k]) == ConfWrite.Symbol(s)
  }

  lemma WalkComplete(c: Config, r: Rank, entry: int -> ConfWrite.Entry, menus: seq<int>)
    requires Ranked(c, r) && InMenu(c, r, entry, menus)
    ensures var out := ConfWrite.Lines(c, r, entry, menus, {});
      Complete(c, r, out) && forall i, j :: 0 <= i < j < |out| ==> out[i] != out[j]
  {
    hide MeantWrite;
    ConfWrite.LinesOnce(c, r, entry, menus, {});
    var out := ConfWrite.Lines(c, r, entry, menus, {});
    forall s: Sym
      ensures s in out <==> s.IsLogic() && MeantWrite(c, r, s)
    {
      if s.IsLogic() && MeantWrite(c, r, s) {
        var k :| 0 <= k < |menus| && entry(menus[k]) == ConfWrite.Symbol(s);
        assert ConfWrite.Writes(c, r, entry(menus[k]));
      }
    }
  }

  // the configuration after writing it in menu order and reading the text back
  ghost function WrittenAndRead(c: Config, r: Rank, entry: int -> ConfWrite.Entry, menus: seq<int>,
                                types: ConfFile.Types): Config
    requires Ranked(c, r)
  {
    var out := ConfWrite.Lines(c, r, entry, menus, {});
    c.(user := UserRead(c, ConfFile.ReadText(types, map[], ConfFile.PrintAll(LinesOf(c, r, out)))))
  }

  // Writing a configuration and reading it back keeps every value exactly when
  // no symbol owes its y to a default above its prompt
  lemma RoundTrip(c: Config, r: Rank, entry: int -> ConfWrite.Entry, menus: seq<int>, types: ConfFile.Types)
    requires Ranked(c, r) && InMenu(c, r, entry, menus) && Named(c, types)
    ensures var c2 := WrittenAndRead(c, r, entry, menus, types);
      && Ranked(c2, r)
      && ((forall x: Sym :: SameMeaningAt(c, c2, r, x)) <==> forall s: Sym :: !DefaultAbovePrompt(c, r, s))
  {
    var out := ConfWrite.Lines(c, r, entry, menus, {});
    WalkComplete(c, r, entry, menus);
    TextRead(c, r, out, types);
    assert WrittenAndRead(c, r, entry, menus, types) == Loaded(c, r, out);
    SaveLoadExact(c, r, out);
    forall s: Sym
      ensures OutSticks(c, r, out, s) <==> !DefaultAbovePrompt(c, r, s)
    {
      if s.IsLogic() {
        NotSticking(c, r, s);
        assert s in out <==> MeantWrite(c, r, s);
      }
    }
  }
}
