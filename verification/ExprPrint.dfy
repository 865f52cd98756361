/** Printing an expression and reading it back (expr_print, expr_compare_type;
    the reader follows the expression grammar of zconf.y). */
module ExprPrint {
  import opened Exprs

  datatype Token = Name(s: Sym) | Rel(op: CmpOp) | Bang | AndTok | OrTok | LParen | RParen

  // The expression types expr_compare_type orders
  datatype Kind = KNone | KOr | KAnd | KNot | KCmp(op: CmpOp) | KList | KSymbol

  function KindOf(e: Expr): Kind {
    match e
    case Leaf(_) => KSymbol
    case Not(_) => KNot
    case Cmp(op, _, _) => KCmp(op)
    case Bin(op, _, _) => KindOfOp(op)
  }

  function KindOfOp(op: BinOp): Kind { if op == AndOp then KAnd else KOr }

  // expr_compare_type: each case of the source falls through to the next
  function CompareType(a: Kind, b: Kind): int {
    if a == b then 0
    else
      match a
      case KCmp(op) =>
        if b.KCmp? then (if op != Eq && op != Ne && (b.op == Eq || b.op == Ne) then 1 else -1)
        else if b.KSymbol? then -1
        else 1
      case KNot => if b == KAnd || b == KOr || b == KList || b == KNone then 1 else -1
      case KAnd => if b == KOr || b == KList || b == KNone then 1 else -1
      case KOr => if b == KList || b == KNone then 1 else -1
      case KList => if b == KNone then 1 else -1
      case _ => -1
  }

  // expr_print
  function Print(e: Expr, prev: Kind): seq<Token>
    decreases e, 1
  {
    if CompareType(prev, KindOf(e)) > 0 then [LParen] + Body(e) + [RParen] else Body(e)
  }

  function Body(e: Expr): seq<Token>
    decreases e, 0
  {
    match e
    case Leaf(s) => [Name(s)]
    case Not(x) => [Bang] + Print(x, KNot)
    case Cmp(op, l, r) => [Name(l), Rel(op), Name(r)]
    case Bin(op, a, b) => Print(a, KindOfOp(op)) + ([OpTok(op)] + Print(b, KindOfOp(op)))
  }

  function OpTok(op: BinOp): Token { if op == AndOp then AndTok else OrTok }

  // ---------- reading ----------

  datatype Parsed = Fail | Ok(e: Expr, rest: seq<Token>)

  function ReadUnary(ts: seq<Token>): (p: Parsed)
    ensures p.Ok? ==> |p.rest| < |ts|
    decreases |ts|, 0
  {
    if ts == [] then Fail
    else
      match ts[0]
      case Bang =>
        (match ReadUnary(ts[1..])
         case Ok(x, rest) => Ok(Not(x), rest)
         case Fail => Fail)
      case LParen =>
        (match ReadOr(ts[1..])
         case Ok(x, rest) => if rest != [] && rest[0] == RParen then Ok(x, rest[1..]) else Fail
         case Fail => Fail)
      case Name(s) =>
        if |ts| >= 3 && ts[1].Rel? && ts[2].Name? then Ok(Cmp(ts[1].op, s, ts[2].s), ts[3..])
        else Ok(Leaf(s), ts[1..])
      case _ => Fail
  }

  function ReadAnd(ts: seq<Token>): (p: Parsed)
    ensures p.Ok? ==> |p.rest| < |ts|
    decreases |ts|, 1
  {
    match ReadUnary(ts)
    case Fail => Fail
    case Ok(x, rest) =>
      if rest == [] || rest[0] != AndTok then Ok(x, rest)
      else
        match ReadAnd(rest[1..])
        case Ok(y, rest') => Ok(And(x, y), rest')
        case Fail => Fail
  }

  function ReadOr(ts: seq<Token>): (p: Parsed)
    ensures p.Ok? ==> |p.rest| < |ts|
    decreases |ts|, 2
  {
    match ReadAnd(ts)
    case Fail => Fail
    case Ok(x, rest) =>
      if rest == [] || rest[0] != OrTok then Ok(x, rest)
      else
        match ReadOr(rest[1..])
        case Ok(y, rest') => Ok(Or(x, y), rest')
        case Fail => Fail
  }

  // ---------- regrouping to the right, which is all that printing forgets ----------

  function Chain(op: BinOp, a: Expr, b: Expr): Expr {
    if a.Bin? && a.bop == op then Bin(op, a.left, Chain(op, a.right, b)) else Bin(op, a, b)
  }

  function Regrouped(e: Expr): Expr {
    match e
    case Not(x) => Not(Regrouped(x))
    case Bin(op, a, b) => Chain(op, Regrouped(a), Regrouped(b))
    case _ => e
  }

  lemma {:induction false} ChainAssociates(op: BinOp, a: Expr, b: Expr, c: Expr)
    ensures Chain(op, Chain(op, a, b), c) == Chain(op, a, Chain(op, b, c))
  {
    if a.Bin? && a.bop == op {
      ChainAssociates(op, a.right, b, c);
    }
  }

  lemma {:induction false} ChainValue(op: BinOp, a: Expr, b: Expr, v: Valuation)
    ensures Value(v, Chain(op, a, b)) == Apply(op, Value(v, a), Value(v, b))
  {
    if a.Bin? && a.bop == op {
      ChainValue(op, a.right, b, v);
      if op == AndOp {}
    }
  }

  lemma {:induction false} RegroupedValue(e: Expr, v: Valuation)
    ensures Value(v, Regrouped(e)) == Value(v, e)
  {
    match e
    case Not(x) => RegroupedValue(x, v);
    case Bin(op, a, b) =>
      RegroupedValue(a, v);
      RegroupedValue(b, v);
      ChainValue(op, Regrouped(a), Regrouped(b), v);
    case _ =>
  }

  lemma {:induction false} ChainBody(op: BinOp, a: Expr, b: Expr)
    ensures Body(Chain(op, a, b)) == Body(Bin(op, a, b))
  {
    if a.Bin? && a.bop == op {
      ChainBody(op, a.right, b);
      var k := KindOfOp(op);
      var l, r, z := Print(a.left, k), Print(a.right, k), Print(b, k);
      assert Print(Chain(op, a.right, b), k) == r + ([OpTok(op)] + z);
      assert Print(a, k) == l + ([OpTok(op)] + r);
      assert Body(Chain(op, a, b)) == l + ([OpTok(op)] + (r + ([OpTok(op)] + z)));
      assert Body(Bin(op, a, b)) == (l + ([OpTok(op)] + r)) + ([OpTok(op)] + z);
      hide *;
      Rebracket(l, [OpTok(op)], r, [OpTok(op)], z);
    }
  }

  lemma Rebracket(l: seq<Token>, s: seq<Token>, r: seq<Token>, t: seq<Token>, z: seq<Token>)
    ensures l + (s + (r + (t + z))) == (l + (s + r)) + (t + z)
  {
  }

  lemma {:induction false} RegroupedPrint(e: Expr, prev: Kind)
    ensures Print(Regrouped(e), prev) == Print(e, prev)
  {
    match e
    case Not(x) => RegroupedPrint(x, KNot);
    case Bin(op, a, b) =>
      RegroupedPrint(a, KindOfOp(op));
      RegroupedPrint(b, KindOfOp(op));
      ChainBody(op, Regrouped(a), Regrouped(b));
    case _ =>
  }

  // ---------- reading what was printed ----------

  function Read(op: BinOp, ts: seq<Token>): Parsed {
    if op == AndOp then ReadAnd(ts) else ReadOr(ts)
  }

  // What reading a (the start of) an op-chain gives once its first part is read
  function Continue(op: BinOp, a: Expr, rest: seq<Token>): Parsed {
    if rest == [] || rest[0] != OpTok(op) then Ok(a, rest)
    else
      match Read(op, rest[1..])
      case Ok(b, rest') => Ok(Chain(op, a, b), rest')
      case Fail => Fail
  }

  // no comparison continues the last symbol read
  predicate Ends(rest: seq<Token>) { rest == [] || !rest[0].Rel? }

  predicate AndEnds(rest: seq<Token>) { rest == [] || (!rest[0].Rel? && rest[0] != AndTok) }

  // The readers call each other on one expression before they reach its parts
  function Turn(e: Expr, forOr: nat, forAnd: nat, otherwise: nat): nat {
    if e.Bin? then (if e.bop == OrOp then forOr else forAnd) else otherwise
  }

  lemma ContinueTwice(op: BinOp, a: Expr, b: Expr, q: seq<Token>, rest: seq<Token>)
    requires Read(op, q) == Continue(op, b, rest)
    ensures Continue(op, a, [OpTok(op)] + q) == Continue(op, Chain(op, a, b), rest)
  {
    assert ([OpTok(op)] + q)[1..] == q;
    if rest != [] && rest[0] == OpTok(op) && Read(op, rest[1..]).Ok? {
      ChainAssociates(op, a, b, Read(op, rest[1..]).e);
    }
  }

  // How an expression prints inside an OR, an AND or a NOT
  lemma PrintCases(e: Expr)
    ensures Print(e, KNone) == Print(e, KOr) == Body(e)
    ensures !(e.Bin? && e.bop == OrOp) ==> Print(e, KOr) == Print(e, KAnd)
    ensures !(e.Bin? && e.bop == AndOp) ==> Print(e, KAnd) == Print(e, KNot)
    ensures e.Bin? ==> Print(e, KNot) == [LParen] + Body(e) + [RParen]
    ensures e.Bin? ==> Print(e, KindOfOp(e.bop)) == Body(e)
  {
  }

  lemma ReadParenthesized(ts: seq<Token>, e: Expr, rest: seq<Token>)
    requires ReadOr(ts + ([RParen] + rest)) == Ok(e, [RParen] + rest)
    ensures ReadUnary([LParen] + ts + [RParen] + rest) == Ok(e, rest)
  {
    assert ([LParen] + ts + [RParen] + rest)[1..] == ts + ([RParen] + rest);
    assert ([RParen] + rest)[1..] == rest;
  }

  // the tokens of an op-group, with what follows, split at its root
  lemma SplitGroup(e: Expr, rest: seq<Token>)
    requires e.Bin?
    ensures var k, t := KindOfOp(e.bop), OpTok(e.bop);
      Body(e) + rest == Print(e.left, k) + ([t] + (Print(e.right, k) + rest))
  {
    var l, r := Print(e.left, KindOfOp(e.bop)), Print(e.right, KindOfOp(e.bop));
    assert (l + ([OpTok(e.bop)] + r)) + rest == l + ([OpTok(e.bop)] + (r + rest));
  }

  lemma ReadsPlain(e: Expr, rest: seq<Token>)
    requires Ends(rest) && (e.Leaf? || e.Cmp?)
    ensures ReadUnary(Print(e, KNot) + rest) == Ok(Regrouped(e), rest)
  {
    if e.Leaf? {
      assert ([Name(e.sym)] + rest)[1..] == rest;
    } else {
      assert ([Name(e.lhs), Rel(e.op), Name(e.rhs)] + rest)[3..] == rest;
    }
  }

  lemma {:induction false} ReadsUnary(e: Expr, rest: seq<Token>)
    requires Ends(rest)
    ensures ReadUnary(Print(e, KNot) + rest) == Ok(Regrouped(e), rest)
    decreases e, Turn(e, 1, 2, 0)
  {
    match e
    case Leaf(s) => ReadsPlain(e, rest);
    case Cmp(op, l, r) => ReadsPlain(e, rest);
    case Not(x) =>
      ReadsUnary(x, rest);
      assert Print(e, KNot) == [Bang] + Print(x, KNot) && Regrouped(e) == Not(Regrouped(x));
      hide Print, Body, Regrouped;
      assert ([Bang] + Print(x, KNot) + rest)[1..] == Print(x, KNot) + rest;
    case Bin(_, _, _) =>
      hide ReadUnary, ReadOr, Regrouped, Print, Body;
      PrintCases(e);
      ReadsOr(e, [RParen] + rest);
      ReadParenthesized(Body(e), Regrouped(e), rest);
  }

  lemma {:induction false} ReadsAnd(e: Expr, rest: seq<Token>)
    requires Ends(rest)
    ensures ReadAnd(Print(e, KAnd) + rest) == Continue(AndOp, Regrouped(e), rest)
    decreases e, Turn(e, 2, 0, 1)
  {
    PrintCases(e);
    if e.Bin? && e.bop == AndOp {
      var q := Print(e.right, KAnd) + rest;
      ReadsAnd(e.right, rest);
      ReadsAnd(e.left, [AndTok] + q);
      SplitGroup(e, rest);
      ContinueTwice(AndOp, Regrouped(e.left), Regrouped(e.right), q, rest);
    } else {
      ReadsUnary(e, rest);
    }
  }

  lemma {:induction false} ReadsOr(e: Expr, rest: seq<Token>)
    requires AndEnds(rest)
    ensures ReadOr(Print(e, KOr) + rest) == Continue(OrOp, Regrouped(e), rest)
    decreases e, Turn(e, 0, 1, 2)
  {
    PrintCases(e);
    if e.Bin? && e.bop == OrOp {
      var q := Print(e.right, KOr) + rest;
      ReadsOr(e.right, rest);
      ReadsOr(e.left, [OrTok] + q);
      SplitGroup(e, rest);
      ContinueTwice(OrOp, Regrouped(e.left), Regrouped(e.right), q, rest);
    } else {
      ReadsAnd(e, rest);
    }
  }

  // Reading a printed expression gives it back, regrouped to the right
  lemma PrintThenRead(e: Expr)
    ensures ReadOr(Print(e, KNone)) == Ok(Regrouped(e), [])
    ensures Equivalent(Regrouped(e), e)
  {
    ReadsOr(e, []);
    PrintCases(e);
    assert Print(e, KOr) + [] == Print(e, KOr);
    forall v | WellFormed(v) ensures Value(v, Regrouped(e)) == Value(v, e) {
      RegroupedValue(e, v);
    }
  }

  // Two expressions print alike exactly when they differ only in grouping
  lemma PrintUnambiguous(a: Expr, b: Expr)
    ensures Print(a, KNone) == Print(b, KNone) <==> Regrouped(a) == Regrouped(b)
    ensures Print(a, KNone) == Print(b, KNone) ==> Equivalent(a, b)
  {
    PrintThenRead(a);
    PrintThenRead(b);
    RegroupedPrint(a, KNone);
    RegroupedPrint(b, KNone);
  }

  // ---------- what is printed, token by token ----------

  predicate Paren(t: Token) { t == LParen || t == RParen }

  function WithoutParens(ts: seq<Token>): seq<Token> {
    if ts == [] then [] else (if Paren(ts[0]) then [] else [ts[0]]) + WithoutParens(ts[1..])
  }

  // the expression from left to right
  function Plain(e: Expr): seq<Token> {
    match e
    case Leaf(s) => [Name(s)]
    case Not(x) => [Bang] + Plain(x)
    case Cmp(op, l, r) => [Name(l), Rel(op), Name(r)]
    case Bin(op, a, b) => Plain(a) + [if op == AndOp then AndTok else OrTok] + Plain(b)
  }

  function Opening(ts: seq<Token>): nat {
    if ts == [] then 0 else (if ts[0] == LParen then 1 else 0) + Opening(ts[1..])
  }

  // an OR under an AND, and an AND or OR under a NOT
  function ParensNeeded(e: Expr): nat {
    match e
    case Not(x) => ParensNeeded(x) + if x.Bin? then 1 else 0
    case Bin(op, a, b) =>
      ParensNeeded(a) + ParensNeeded(b)
      + (if op == AndOp && a.Bin? && a.bop == OrOp then 1 else 0)
      + (if op == AndOp && b.Bin? && b.bop == OrOp then 1 else 0)
    case _ => 0
  }

  lemma {:induction false} WithoutAppend(a: seq<Token>, b: seq<Token>)
    ensures WithoutParens(a + b) == WithoutParens(a) + WithoutParens(b)
    ensures Opening(a + b) == Opening(a) + Opening(b)
  {
    if a == [] {
      assert a + b == b;
    } else {
      var own := if Paren(a[0]) then [] else [a[0]];
      assert (a + b)[1..] == a[1..] + b;
      assert WithoutParens(a) == own + WithoutParens(a[1..]) && WithoutParens(a + b) == own + WithoutParens(a[1..] + b);
      WithoutAppend(a[1..], b);
      hide WithoutParens;
      assert own + (WithoutParens(a[1..]) + WithoutParens(b)) == own + WithoutParens(a[1..]) + WithoutParens(b);
    }
  }

  lemma OneToken(t: Token)
    ensures WithoutParens([t]) == (if Paren(t) then [] else [t]) && Opening([t]) == if t == LParen then 1 else 0
  {
    assert [t][1..] == [];
  }

  lemma ComparisonTokens(l: Sym, op: CmpOp, r: Sym)
    ensures var ts := [Name(l), Rel(op), Name(r)]; WithoutParens(ts) == ts && Opening(ts) == 0
  {
    WithoutAppend([Name(l)], [Rel(op), Name(r)]);
    WithoutAppend([Rel(op)], [Name(r)]);
    OneToken(Name(l));
    OneToken(Rel(op));
    OneToken(Name(r));
    assert [Name(l), Rel(op), Name(r)] == [Name(l)] + ([Rel(op)] + [Name(r)]);
  }

  // Printing puts parentheses around an OR in an AND and around any group in a
  // NOT, and nowhere else; without them the tokens are those of the expression
  lemma {:induction false} BodyTokens(e: Expr)
    ensures WithoutParens(Body(e)) == Plain(e) && Opening(Body(e)) == ParensNeeded(e)
    decreases e, 0
  {
    hide WithoutParens, Opening;
    match e
    case Leaf(s) => OneToken(Name(s));
    case Not(x) =>
      PrintTokens(x, KNot);
      WithoutAppend([Bang], Print(x, KNot));
      OneToken(Bang);
    case Cmp(op, l, r) => ComparisonTokens(l, op, r);
    case Bin(op, a, b) =>
      var k, t := KindOfOp(op), OpTok(op);
      PrintTokens(a, k);
      PrintTokens(b, k);
      WithoutAppend(Print(a, k), [t] + Print(b, k));
      WithoutAppend([t], Print(b, k));
      OneToken(t);
      assert Plain(a) + ([t] + Plain(b)) == Plain(a) + [t] + Plain(b);
  }

  lemma ParenthesesWhen(e: Expr, prev: Kind)
    requires prev == KNot || prev == KAnd || prev == KOr || prev == KNone
    ensures CompareType(prev, KindOf(e)) > 0 <==> e.Bin? && (prev == KNot || (prev == KAnd && e.bop == OrOp))
  {
  }

  lemma {:induction false} PrintTokens(e: Expr, prev: Kind)
    requires prev == KNot || prev == KAnd || prev == KOr || prev == KNone
    ensures WithoutParens(Print(e, prev)) == Plain(e)
    ensures Opening(Print(e, prev)) == ParensNeeded(e)
      + if e.Bin? && (prev == KNot || (prev == KAnd && e.bop == OrOp)) then 1 else 0
    decreases e, 1
  {
    BodyTokens(e);
    ParenthesesWhen(e, prev);
    hide WithoutParens, Opening, Body, CompareType, Plain, ParensNeeded;
    WithoutAppend([LParen] + Body(e), [RParen]);
    WithoutAppend([LParen], Body(e));
    OneToken(LParen);
    OneToken(RParen);
  }

  function NamesIn(ts: seq<Token>): seq<Sym> {
    if ts == [] then [] else (if ts[0].Name? then [ts[0].s] else []) + NamesIn(ts[1..])
  }

  lemma {:induction false} NamesAppend(a: seq<Token>, b: seq<Token>)
    ensures NamesIn(a + b) == NamesIn(a) + NamesIn(b)
  {
    if a == [] {
      assert a + b == b;
    } else {
      var own := if a[0].Name? then [a[0].s] else [];
      assert (a + b)[1..] == a[1..] + b;
      assert NamesIn(a) == own + NamesIn(a[1..]) && NamesIn(a + b) == own + NamesIn(a[1..] + b);
      NamesAppend(a[1..], b);
      hide NamesIn;
      assert own + (NamesIn(a[1..]) + NamesIn(b)) == own + NamesIn(a[1..]) + NamesIn(b);
    }
  }

  lemma {:induction false} NamesKept(ts: seq<Token>)
    ensures NamesIn(WithoutParens(ts)) == NamesIn(ts)
  {
    if ts != [] {
      NamesKept(ts[1..]);
      NamesAppend(if Paren(ts[0]) then [] else [ts[0]], WithoutParens(ts[1..]));
      assert [ts[0]][1..] == [];
    }
  }

  lemma NamesOne(t: Token)
    ensures NamesIn([t]) == if t.Name? then [t.s] else []
  {
    assert [t][1..] == [];
  }

  lemma ComparisonNames(l: Sym, op: CmpOp, r: Sym)
    ensures NamesIn([Name(l), Rel(op), Name(r)]) == [l, r]
  {
    hide NamesIn;
    NamesAppend([Name(l)], [Rel(op)] + [Name(r)]);
    NamesAppend([Rel(op)], [Name(r)]);
    NamesOne(Name(l));
    NamesOne(Rel(op));
    NamesOne(Name(r));
    assert [Name(l), Rel(op), Name(r)] == [Name(l)] + ([Rel(op)] + [Name(r)]);
  }

  lemma {:induction false} PlainNames(e: Expr)
    ensures NamesIn(Plain(e)) == Mentions(e)
  {
    hide NamesIn;
    match e
    case Leaf(s) => NamesOne(Name(s));
    case Not(x) =>
      PlainNames(x);
      NamesAppend([Bang], Plain(x));
      NamesOne(Bang);
    case Cmp(op, l, r) => ComparisonNames(l, op, r);
    case Bin(op, a, b) =>
      PlainNames(a);
      PlainNames(b);
      var t := if op == AndOp then AndTok else OrTok;
      NamesAppend(Plain(a) + [t], Plain(b));
      NamesAppend(Plain(a), [t]);
      NamesOne(t);
  }

  // The symbols of an expression are searched in the order they are printed in
  lemma NamesPrinted(e: Expr)
    ensures NamesIn(Print(e, KNone)) == Mentions(e)
  {
    PrintTokens(e, KNone);
    NamesKept(Print(e, KNone));
    PlainNames(e);
  }
}
