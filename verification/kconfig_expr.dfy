/** Kconfig expressions as the parser builds them, and their smart constructors. */
module KconfigExpr {
  import opened Tristate

  datatype SymbolType = UnknownType | BoolType | TristateType | IntType | HexType | StringType

  /**
   * A symbol as an expression sees it. The source compares symbols by pointer; a tree holds at most
   * one symbol per (name, constant) pair, so equality of values is the same relation there.
   * `declared` says that some menu entry defines the symbol.
   */
  datatype Symbol = Symbol(name: string, typ: SymbolType, constant: bool, declared: bool)

  datatype BinOp = And | Or

  /** `Span` is the ".." of a range property; it is never written inside a condition. */
  datatype CmpOp = Eq | Ne | Lt | Le | Gt | Ge | Span

  datatype Expr =
    | Nil
    | Sym(symbol: Symbol)
    | Not(x: Expr)
    | Binary(bop: BinOp, left: Expr, right: Expr)
    | Compare(cop: CmpOp, lhs: Expr, rhs: Expr)

  function TriFromConst(name: string): Option<Tri> {
    if name == "n" then Some(TRI_N)
    else if name == "m" then Some(TRI_M)
    else if name == "y" then Some(TRI_Y)
    else None
  }

  function TriName(t: Tri): string {
    if t == TRI_N then "n" else if t == TRI_M then "m" else "y"
  }

  predicate IsConst(e: Expr, name: string) {
    e.Sym? && e.symbol.constant && e.symbol.name == name
  }

  /** Conjunction with the simplifications the parser applies; a missing operand is the identity. */
  function AndExpr(left: Expr, right: Expr): Expr {
    if left.Nil? then right
    else if right.Nil? then left
    else if IsConst(left, "y") then right
    else if IsConst(right, "y") then left
    else if IsConst(left, "n") then left
    else if IsConst(right, "n") then right
    else Binary(And, left, right)
  }

  /** Disjunction with the simplifications the parser applies; a missing operand is the identity. */
  function OrExpr(left: Expr, right: Expr): Expr {
    if left.Nil? then right
    else if right.Nil? then left
    else if IsConst(left, "n") then right
    else if IsConst(right, "n") then left
    else if IsConst(left, "y") then left
    else if IsConst(right, "y") then right
    else Binary(Or, left, right)
  }

  /** Replaces the constant m by `m && modules` everywhere but inside comparisons. */
  function RewriteM(e: Expr, modules: Symbol): Expr {
    match e
    case Nil => Nil
    case Sym(s) => if s.constant && s.name == "m" then AndExpr(e, Sym(modules)) else e
    case Not(x) => Not(RewriteM(x, modules))
    case Binary(op, l, r) => Binary(op, RewriteM(l, modules), RewriteM(r, modules))
    case Compare(_, _, _) => e
  }

  function CompareTri(left: Tri, right: Tri, op: CmpOp): bool {
    match op
    case Eq => left == right
    case Ne => left != right
    case Lt => left < right
    case Le => left <= right
    case Gt => left > right
    case Ge => left >= right
    case Span => false
  }

  predicate TriType(t: SymbolType) {
    t.BoolType? || t.TristateType?
  }

  // ----- comparisons of scalars -----

  datatype CompareMode = SignedMode | UnsignedMode | StringMode

  datatype Operand =
    | ConstOperand(value: string, constType: SymbolType)
    | FlagOperand(name: string, flagType: SymbolType)
  {
    function Type(): SymbolType {
      if ConstOperand? then constType else flagType
    }
  }

  datatype DerivedComparison = DerivedComparison(mode: CompareMode, left: Operand, op: CmpOp, right: Operand)

  function OperandFor(e: Expr): Option<Operand> {
    if !e.Sym? then None
    else if e.symbol.constant then Some(ConstOperand(e.symbol.name, e.symbol.typ))
    else if !e.symbol.declared then Some(ConstOperand("n", TristateType))
    else Some(FlagOperand(e.symbol.name, e.symbol.typ))
  }

  function CompareModeFor(left: Operand, right: Operand): Option<CompareMode> {
    var l, r := left.Type(), right.Type();
    if TriType(l) || TriType(r) then None
    else if l.StringType? || r.StringType? then Some(StringMode)
    else if l.HexType? || r.HexType? then Some(UnsignedMode)
    else Some(SignedMode)
  }

  function DerivedComparisonFor(op: CmpOp, lhs: Expr, rhs: Expr): Option<DerivedComparison> {
    var left, right := OperandFor(lhs), OperandFor(rhs);
    if left.None? || right.None? then None
    else
      var mode := CompareModeFor(left.value, right.value);
      if mode.None? then None
      else Some(DerivedComparison(mode.value, left.value, op, right.value))
  }

  predicate IsTriSymbol(s: Symbol) {
    if s.constant then TriFromConst(s.name).Some?
    else !s.declared || TriType(s.typ)
  }

  /** Says which operands are compared as tristates rather than as scalars. */
  predicate IsTriExpression(e: Expr) {
    match e
    case Nil => true
    case Sym(s) => IsTriSymbol(s)
    case Not(x) => IsTriExpression(x)
    case Binary(_, l, r) => IsTriExpression(l) && IsTriExpression(r)
    case Compare(op, l, r) =>
      op != Span && (DerivedComparisonFor(op, l, r).Some? || (IsTriExpression(l) && IsTriExpression(r)))
  }
}
