/** Three-valued logic of Kconfig: n < m < y, ordered as the integers 0, 1, 2. */
module Tristates {

  type Tri = x: int | 0 <= x <= 2

  const NO: Tri := 0
  const MOD: Tri := 1
  const YES: Tri := 2

  function Min(a: Tri, b: Tri): Tri { if a < b then a else b }

  function Max(a: Tri, b: Tri): Tri { if a > b then a else b }

  function Neg(a: Tri): Tri { 2 - a }

  function FromBool(b: bool): Tri { if b then YES else NO }

  function TriName(t: Tri): string {
    if t == NO then "n" else if t == MOD then "m" else "y"
  }
}

/** Symbols, dependency expressions and their meaning under a valuation. */
module Exprs {
  import opened Options
  import opened Tristates

  datatype SymType = Unknown | Boolean | Tristate | Int | Hex | Str

  // A symbol is identified by its value. The constants y, m and n have symbols
  // of their own, other constants are interned by name (sym_lookup with
  // SYMBOL_CONST), and all remaining symbols carry their type.
  datatype RawSym = SymY | SymM | SymN | Const(text: string) | Var(ident: string, typ: SymType) {
    function Name(): string {
      match this
      case SymY => "y"
      case SymM => "m"
      case SymN => "n"
      case Const(t) => t
      case Var(i, _) => i
    }

    function Type(): SymType {
      if Var? then typ else Unknown
    }

    // boolean or tristate
    predicate IsLogic() { Var? && (typ == Boolean || typ == Tristate) }

    predicate IsYMN() { SymY? || SymM? || SymN? }

    // the SYMBOL_CONST flag
    predicate IsConst() { !Var? }
  }

  // looking up y, m or n never creates a second symbol of that name
  type Sym = s: RawSym | s.Const? ==> s.text != "y" && s.text != "m" && s.text != "n"
    witness SymY

  datatype CmpOp = Eq | Ne | Lt | Le | Gt | Ge

  datatype BinOp = AndOp | OrOp

  datatype Expr =
    | Leaf(sym: Sym)
    | Not(e: Expr)
    | Cmp(op: CmpOp, lhs: Sym, rhs: Sym)
    | Bin(bop: BinOp, left: Expr, right: Expr)

  const E_Y: Expr := Leaf(SymY)
  const E_N: Expr := Leaf(SymN)

  function And(a: Expr, b: Expr): Expr { Bin(AndOp, a, b) }

  function Or(a: Expr, b: Expr): Expr { Bin(OrOp, a, b) }

  // y is neutral and n absorbing for AND; the other way round for OR
  function Neutral(op: BinOp): Expr { if op == AndOp then E_Y else E_N }

  function Absorbing(op: BinOp): Expr { if op == AndOp then E_N else E_Y }

  function Dual(op: BinOp): BinOp { if op == AndOp then OrOp else AndOp }

  function Apply(op: BinOp, a: Tri, b: Tri): Tri {
    if op == AndOp then Min(a, b) else Max(a, b)
  }

  // ---------- valuations ----------

  // tri and val are the two halves of symbol.curr; modules is the value of the
  // MODULES symbol; order is the sign of a comparison between two symbols of
  // which neither is boolean, tristate, y, m or n (numbers or other strings).
  datatype Valuation = Valuation(
    tri: Sym -> Tri, val: Sym -> string, modules: Tri, order: (Sym, Sym) -> int)

  // The values sym_calc_value can leave behind
  ghost predicate WellFormed(v: Valuation) {
    forall s: Sym :: WellFormedAt(v, s)
  }

  predicate WellFormedAt(v: Valuation, s: Sym) {
    && (s.SymY? ==> v.tri(s) == YES)
    && (s.SymM? ==> v.tri(s) == MOD)
    && (!s.IsLogic() && !s.SymY? && !s.SymM? ==> v.tri(s) == NO)
    && (s.IsConst() ==> v.val(s) == s.Name())
    && (s.Type() == Boolean ==> v.tri(s) != MOD)
    && (s.Type() == Tristate && v.modules == NO ==> v.tri(s) != MOD)
  }

  // The string a symbol compares as (sym_get_string_value), given its curr
  function StringOf(s: Sym, tri: Tri, val: string, modules: Tri): string {
    if s.IsLogic() then
      if tri == MOD && modules == NO then "n" else TriName(tri)
    else val
  }

  function StringValue(v: Valuation, s: Sym): string {
    StringOf(s, v.tri(s), v.val(s), v.modules)
  }

  // strcmp
  function StrCmp(a: string, b: string): int {
    if a == [] then (if b == [] then 0 else -1)
    else if b == [] then 1
    else if a[0] != b[0] then (if a[0] < b[0] then -1 else 1)
    else StrCmp(a[1..], b[1..])
  }

  // The comparison of two symbols with these strings; order is the result for
  // two numbers or other strings
  function CompareStrings(a: Sym, b: Sym, x: string, y: string, order: int): int {
    if a.IsLogic() || b.IsLogic() || a.IsYMN() || b.IsYMN() then StrCmp(x, y) else order
  }

  function Compare(v: Valuation, a: Sym, b: Sym): int {
    CompareStrings(a, b, StringValue(v, a), StringValue(v, b), v.order(a, b))
  }

  function Holds(op: CmpOp, res: int): bool {
    match op
    case Eq => res == 0
    case Ne => res != 0
    case Lt => res < 0
    case Le => res <= 0
    case Gt => res > 0
    case Ge => res >= 0
  }

  // expr_calc_value
  function Value(v: Valuation, e: Expr): Tri {
    match e
    case Leaf(s) => v.tri(s)
    case Not(x) => Neg(Value(v, x))
    case Cmp(op, a, b) => FromBool(Holds(op, Compare(v, a, b)))
    case Bin(op, a, b) => Apply(op, Value(v, a), Value(v, b))
  }

  // an expression that may be missing, which stands for y
  type Dep = Option<Expr>

  function DepValue(v: Valuation, d: Dep): Tri { if d.None? then YES else Value(v, d.value) }

  ghost predicate Equivalent(a: Expr, b: Expr) {
    forall v: Valuation :: WellFormed(v) ==> Value(v, a) == Value(v, b)
  }

  // expr_contains_symbol
  predicate Contains(e: Expr, s: Sym) {
    match e
    case Leaf(t) => t == s
    case Not(x) => Contains(x, s)
    case Cmp(_, l, r) => l == s || r == s
    case Bin(_, a, b) => Contains(a, s) || Contains(b, s)
  }

  // the symbols of an expression from left to right
  function Mentions(e: Expr): seq<Sym> {
    match e
    case Leaf(s) => [s]
    case Not(x) => Mentions(x)
    case Cmp(_, a, b) => [a, b]
    case Bin(_, a, b) => Mentions(a) + Mentions(b)
  }

  // all symbols an expression mentions
  function Syms(e: Expr): (r: set<Sym>)
    ensures forall s: Sym :: s in r <==> Contains(e, s)
  {
    match e
    case Leaf(s) => {s}
    case Not(x) => Syms(x)
    case Cmp(_, a, b) => {a, b}
    case Bin(_, a, b) => Syms(a) + Syms(b)
  }

  function Size(e: Expr): (n: nat)
    ensures n >= 1
  {
    match e
    case Not(x) => 1 + Size(x)
    case Bin(_, a, b) => 1 + Size(a) + Size(b)
    case _ => 1
  }

  // Number of symbol and comparison leaves
  function LeafCount(e: Expr): (n: nat)
    ensures n >= 1
  {
    match e
    case Not(x) => LeafCount(x)
    case Bin(_, a, b) => LeafCount(a) + LeafCount(b)
    case _ => 1
  }

  lemma {:induction false} StrCmpZero(a: string, b: string)
    ensures StrCmp(a, b) == 0 <==> a == b
  {
    if a != [] && b != [] {
      StrCmpZero(a[1..], b[1..]);
      assert a == [a[0]] + a[1..] && b == [b[0]] + b[1..];
    }
  }

  // What comparing a boolean or tristate symbol with y, m or n means
  lemma CompareLogic(v: Valuation, s: Sym, c: Sym)
    requires WellFormed(v) && s.IsLogic() && c.IsConst()
    ensures Compare(v, s, c) == 0 <==> TriName(v.tri(s)) == c.Name()
    ensures c.IsYMN() ==> (Compare(v, s, c) == 0 <==> v.tri(s) == v.tri(c))
  {
    assert WellFormedAt(v, s) && WellFormedAt(v, c);
    StrCmpZero(StringValue(v, s), StringValue(v, c));
  }
}
