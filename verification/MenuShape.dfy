/** Which entries end up below which: what menu_finalize does in one pass over
    the links equals grouping a chain from its end, then lifting; and both are
    described by the answers of nests and hidden alone. */
module MenuShape {
  import opened Sequences
  import opened MenuForest

  // ---------- looking into a forest ----------

  // the entries at the top of a chain
  function Tops(f: Forest): set<int> {
    if f.Nil? then {} else {f.id} + Tops(f.rest)
  }

  // the children of entry q
  function KidsOf(f: Forest, q: int): Forest {
    if f.Nil? then Nil
    else if f.id == q then f.kids
    else if q in Ids(f.kids) then KidsOf(f.kids, q)
    else KidsOf(f.rest, q)
  }

  // the siblings behind entry q
  function RestOf(f: Forest, q: int): Forest {
    if f.Nil? then Nil
    else if f.id == q then f.rest
    else if q in Ids(f.kids) then RestOf(f.kids, q)
    else RestOf(f.rest, q)
  }

  // a chain without the leading entries in s
  function Skip(f: Forest, s: set<int>): Forest {
    if f.Node? && f.id in s then Skip(f.rest, s) else f
  }

  // ---------- what the two passes promise ----------

  // Entry q of f has the children k: an entry with children keeps everything
  // below it; one for a symbol gets the following siblings as long as they nest
  ghost predicate GroupedAt(c: Choices, f: Forest, q: int, k: Forest) {
    var behind := RestOf(f, q);
    if KidsOf(f, q).Node? then Ids(k) == Ids(KidsOf(f, q))
    else if c.hasSym(q) then
      && Ids(k) <= Ids(behind) && (forall x :: x in Tops(k) ==> c.nests(q, x))
      && var next := Skip(behind, Ids(k)); next.Node? ==> !c.nests(q, next.id)
    else k == Nil
  }

  ghost predicate Grouping(c: Choices, f: Forest, n: Forest) {
    Preorder(n) == Preorder(f) && forall q :: q in Ids(f) ==> GroupedAt(c, f, q, KidsOf(n, q))
  }

  // A hidden entry of n loses its children, every other entry keeps all it has
  ghost predicate Lifting(c: Choices, n: Forest, g: Forest) {
    Preorder(g) == Preorder(n) &&
    forall q :: q in Ids(n) ==>
      if c.hidden(q) then KidsOf(g, q) == Nil else Ids(KidsOf(g, q)) == Ids(KidsOf(n, q))
  }

  // g.id got its children by grouping the chain f and lifting what is below
  ghost predicate Restructured(c: Choices, f: Forest, g: Forest) {
    Preorder(g) == Preorder(f) &&
    exists n: Forest :: n.Node? && Grouping(c, f, n) && Lifting(c, n.kids, g.kids)
  }

  // ---------- the two passes ----------

  function Taken(c: Choices, p: int, f: Forest): Forest {
    if f.Node? && c.nests(p, f.id) then Node(f.id, f.kids, Taken(c, p, f.rest)) else Nil
  }

  function Left(c: Choices, p: int, f: Forest): Forest {
    if f.Node? && c.nests(p, f.id) then Left(c, p, f.rest) else f
  }

  // group a chain, beginning with its last entry
  function Grouped(c: Choices, f: Forest): Forest {
    if f.Nil? then Nil
    else
      var r := Grouped(c, f.rest);
      if f.kids.Node? then Node(f.id, Grouped(c, f.kids), r)
      else if c.hasSym(f.id) then Node(f.id, Taken(c, f.id, r), Left(c, f.id, r))
      else Node(f.id, Nil, r)
  }

  // lift the children of hidden entries everywhere
  function Lifted(c: Choices, f: Forest): Forest {
    if f.Nil? then Nil
    else if c.hidden(f.id) then Node(f.id, Nil, Append(Lifted(c, f.kids), Lifted(c, f.rest)))
    else Node(f.id, Lifted(c, f.kids), Lifted(c, f.rest))
  }

  // lift everywhere below the entries at the top
  function LiftedBelow(c: Choices, f: Forest): Forest {
    if f.Nil? then Nil else Node(f.id, Lifted(c, f.kids), LiftedBelow(c, f.rest))
  }

  // ---------- the pass over the links does both ----------

  predicate Settled(c: Choices, f: Forest) {
    f.Node? ==> (c.hidden(f.id) ==> f.kids.Nil?) && Settled(c, f.rest)
  }

  lemma {:induction false} AppendSettled(c: Choices, a: Forest, b: Forest)
    requires Settled(c, a)
    ensures Flatten(c, Append(a, b)) == Append(a, Flatten(c, b))
    ensures Settled(c, b) ==> Settled(c, Append(a, b))
  {
    if a.Node? {
      AppendSettled(c, a.rest, b);
    }
  }

  lemma {:induction false} LiftedSettled(c: Choices, f: Forest)
    ensures Settled(c, Lifted(c, f))
  {
    if f.Node? {
      LiftedSettled(c, f.kids);
      LiftedSettled(c, f.rest);
      AppendSettled(c, Lifted(c, f.kids), Lifted(c, f.rest));
    }
  }

  lemma {:induction false} FlattenLifts(c: Choices, f: Forest)
    ensures Flatten(c, LiftedBelow(c, f)) == Lifted(c, f)
  {
    if f.Node? {
      FlattenLifts(c, f.rest);
      LiftedSettled(c, f.kids);
      AppendSettled(c, Lifted(c, f.kids), LiftedBelow(c, f.rest));
    }
  }

  lemma {:induction false} FinalizeTwoPasses(c: Choices, f: Forest)
    requires f.Node?
    ensures var g, n := Finalize(c, f), Grouped(c, f);
      g.kids == Lifted(c, n.kids) && Grouped(c, g.rest) == n.rest
    decreases Count(f), 1
  {
    if f.kids.Node? {
      ChainTwoPasses(c, f.kids);
      FlattenLifts(c, Grouped(c, f.kids));
    } else if c.hasSym(f.id) {
      AbsorbTwoPasses(c, f.id, f.rest);
      FlattenLifts(c, Taken(c, f.id, Grouped(c, f.rest)));
    }
  }

  lemma {:induction false} ChainTwoPasses(c: Choices, f: Forest)
    ensures FinalizeChain(c, f) == LiftedBelow(c, Grouped(c, f))
    decreases Count(f), 2
  {
    if f.Node? {
      FinalizeTwoPasses(c, f);
      ChainTwoPasses(c, Finalize(c, f).rest);
    }
  }

  lemma {:induction false} AbsorbTwoPasses(c: Choices, p: int, f: Forest)
    ensures var t, n := Absorb(c, p, f), Grouped(c, f);
      t.0 == LiftedBelow(c, Taken(c, p, n)) && Grouped(c, t.1) == Left(c, p, n)
    decreases Count(f), 2
  {
    if f.Node? && c.nests(p, f.id) {
      FinalizeTwoPasses(c, f);
      AbsorbTwoPasses(c, p, Finalize(c, f).rest);
    }
  }

  // ---------- grouping does what it promises ----------

  lemma {:induction false} Split(c: Choices, p: int, f: Forest)
    ensures Append(Taken(c, p, f), Left(c, p, f)) == f
    ensures forall x :: x in Tops(Taken(c, p, f)) ==> c.nests(p, x)
    ensures Left(c, p, f).Node? ==> !c.nests(p, Left(c, p, f).id)
  {
    if f.Node? && c.nests(p, f.id) {
      Split(c, p, f.rest);
    }
  }

  lemma {:induction false} GroupedPreorder(c: Choices, f: Forest)
    ensures Preorder(Grouped(c, f)) == Preorder(f)
  {
    if f.Node? {
      var r := Grouped(c, f.rest);
      GroupedPreorder(c, f.kids);
      GroupedPreorder(c, f.rest);
      PreorderNode(f.id, f.kids, f.rest);
      if f.kids.Nil? && c.hasSym(f.id) {
        var t, l := Taken(c, f.id, r), Left(c, f.id, r);
        Split(c, f.id, r);
        PreorderAppend(t, l);
        PreorderNode(f.id, t, l);
        assert [f.id] + Preorder(t) + Preorder(l) == [f.id] + [] + (Preorder(t) + Preorder(l));
      }
    }
  }

  lemma {:induction false} TopsInside(f: Forest)
    ensures Tops(f) <= Ids(f)
  {
    if f.Node? {
      TopsInside(f.rest);
    }
  }

  lemma {:induction false} SkipSame(f: Forest, s: set<int>, t: set<int>)
    requires forall x :: x in Ids(f) ==> (x in s <==> x in t)
    ensures Skip(f, s) == Skip(f, t)
  {
    if f.Node? {
      SkipSame(f.rest, s, t);
    }
  }

  // If a grouped chain begins with a, the siblings not in a begin where b does
  lemma {:induction false} SkipPart(c: Choices, f: Forest, a: Forest, b: Forest)
    requires Distinct(f) && Grouped(c, f) == Append(a, b)
    ensures var next := Skip(f, Ids(a)); next.Node? == b.Node? && (b.Node? ==> next.id == b.id)
  {
    if a.Node? {
      var n := Grouped(c, f);
      assert n.id == f.id == a.id && n.kids == a.kids;
      GroupedPreorder(c, f);
      GroupedPreorder(c, f.kids);
      SamePreorder(f.kids, Grouped(c, f.kids));
      if f.kids.Node? || !c.hasSym(f.id) {
        SkipPart(c, f.rest, a.rest, b);
        SkipSame(f.rest, Ids(a), Ids(a.rest));
      } else {
        Split(c, f.id, Grouped(c, f.rest));
        AppendAssociates(a.kids, a.rest, b);
        AppendIds(a.kids, a.rest);
        SkipPart(c, f.rest, Append(a.kids, a.rest), b);
        SkipSame(f.rest, Ids(a), Ids(Append(a.kids, a.rest)));
      }
    }
  }

  lemma {:induction false} KidsAppend(a: Forest, b: Forest, q: int)
    ensures KidsOf(Append(a, b), q) == if q in Ids(a) then KidsOf(a, q) else KidsOf(b, q)
  {
    if a.Node? {
      KidsAppend(a.rest, b, q);
    }
  }

  lemma {:induction false} GroupedLaw(c: Choices, f: Forest)
    requires Distinct(f)
    ensures Grouping(c, f, Grouped(c, f))
  {
    GroupedPreorder(c, f);
    if f.Node? {
      GroupedLaw(c, f.kids);
      GroupedLaw(c, f.rest);
      forall q | q in Ids(f)
        ensures GroupedAt(c, f, q, KidsOf(Grouped(c, f), q))
      {
        if q == f.id {
          FirstGrouped(c, f);
        } else {
          LaterGrouped(c, f, q);
        }
      }
    }
  }

  lemma FirstGrouped(c: Choices, f: Forest)
    requires Distinct(f) && f.Node?
    ensures GroupedAt(c, f, f.id, KidsOf(Grouped(c, f), f.id))
  {
    var r := Grouped(c, f.rest);
    if f.kids.Node? {
      GroupedPreorder(c, f.kids);
      SamePreorder(f.kids, Grouped(c, f.kids));
    } else if c.hasSym(f.id) {
      var t, l := Taken(c, f.id, r), Left(c, f.id, r);
      Split(c, f.id, r);
      SkipPart(c, f.rest, t, l);
      AppendIds(t, l);
      GroupedPreorder(c, f.rest);
      SamePreorder(f.rest, r);
    }
  }

  lemma LaterGrouped(c: Choices, f: Forest, q: int)
    requires Distinct(f) && f.Node? && q in Ids(f) && q != f.id
    requires q in Ids(f.kids) ==> GroupedAt(c, f.kids, q, KidsOf(Grouped(c, f.kids), q))
    requires q in Ids(f.rest) ==> GroupedAt(c, f.rest, q, KidsOf(Grouped(c, f.rest), q))
    ensures GroupedAt(c, f, q, KidsOf(Grouped(c, f), q))
  {
    var r := Grouped(c, f.rest);
    GroupedPreorder(c, f.kids);
    SamePreorder(f.kids, Grouped(c, f.kids));
    if f.kids.Nil? && c.hasSym(f.id) {
      Split(c, f.id, r);
      KidsAppend(Taken(c, f.id, r), Left(c, f.id, r), q);
    }
  }

  // ---------- lifting does what it promises ----------

  lemma {:induction false} LiftedPreorder(c: Choices, f: Forest)
    ensures Preorder(Lifted(c, f)) == Preorder(f)
  {
    if f.Node? {
      var k, r := Lifted(c, f.kids), Lifted(c, f.rest);
      LiftedPreorder(c, f.kids);
      LiftedPreorder(c, f.rest);
      PreorderAppend(k, r);
      assert [f.id] + [] + (Preorder(k) + Preorder(r)) == [f.id] + Preorder(k) + Preorder(r);
    }
  }

  lemma {:induction false} LiftedLaw(c: Choices, f: Forest)
    requires Distinct(f)
    ensures Lifting(c, f, Lifted(c, f))
  {
    LiftedPreorder(c, f);
    if f.Node? {
      var k, r := Lifted(c, f.kids), Lifted(c, f.rest);
      LiftedLaw(c, f.kids);
      LiftedLaw(c, f.rest);
      SamePreorder(f.kids, k);
      forall q | q in Ids(f)
        ensures if c.hidden(q) then KidsOf(Lifted(c, f), q) == Nil
                else Ids(KidsOf(Lifted(c, f), q)) == Ids(KidsOf(f, q))
      {
        KidsAppend(k, r, q);
      }
    }
  }

  // ---------- the result ----------

  // What menu_finalize leaves below a menu is given by nests and hidden alone
  lemma FinalizeShape(c: Choices, f: Forest)
    requires f.Node? && Distinct(f)
    ensures Restructured(c, f, Finalize(c, f))
  {
    var n := Grouped(c, f);
    FinalizePreorder(c, f);
    FinalizeTwoPasses(c, f);
    GroupedLaw(c, f);
    SamePreorder(f, n);
    LiftedLaw(c, n.kids);
  }

  // The siblings taken in nest below p, and the first one left behind does not
  lemma {:induction false} AbsorbExact(c: Choices, p: int, f: Forest)
    ensures var t := Absorb(c, p, f);
      (forall x :: x in Tops(t.0) ==> c.nests(p, x)) && (t.1.Node? ==> !c.nests(p, t.1.id))
    decreases Count(f)
  {
    if f.Node? && c.nests(p, f.id) {
      AbsorbExact(c, p, Finalize(c, f).rest);
    }
  }
}
