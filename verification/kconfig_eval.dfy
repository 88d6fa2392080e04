/** Evaluation of Kconfig expressions against the resolver's current values. */
module KconfigEval {
  import opened Tristate
  import opened KconfigExpr

  /**
   * The number and string handling of the host language, which nothing here depends on:
   * `number` reads an int or hex literal of a given symbol type, `integer` any integer literal,
   * `unsigned` a hexadecimal literal; `less` orders strings and `quote` puts one in quotes.
   * `integer` leaves a number even when it reports an error: an overlong literal leaves the largest.
   */
  datatype Text = Text(
    number: (SymbolType, string) -> Option<int>,
    integer: string -> (int, bool),
    unsigned: string -> Option<int>,
    validHex: string -> bool,
    less: (string, string) -> bool,
    quote: string -> string)

  /** The three maps a resolver keeps. A missing key reads as n, "" and false. */
  datatype State = State(effective: map<Symbol, Tri>, values: map<Symbol, string>, written: map<Symbol, bool>) {
    function Effective(s: Symbol): Tri {
      if s in effective then effective[s] else TRI_N
    }

    function Value(s: Symbol): string {
      if s in values then values[s] else ""
    }

    function Written(s: Symbol): bool {
      s in written && written[s]
    }
  }

  datatype Env = Env(text: Text, modules: Symbol, st: State)

  function ModulesTri(env: Env): Tri {
    if env.modules.constant then TRI_N else env.st.Effective(env.modules)
  }

  function TrimQuotes(s: string): string
    decreases |s|
  {
    if |s| > 0 && s[0] == '"' then TrimQuotes(s[1..])
    else if |s| > 0 && s[|s| - 1] == '"' then TrimQuotes(s[..|s| - 1])
    else s
  }

  function DefaultScalar(t: SymbolType): string {
    match t
    case IntType => "0"
    case HexType => "0x0"
    case StringType => "\"\""
    case _ => ""
  }

  /** An integer literal, perhaps in quotes, and whether it is one. */
  function ConfigInt(value: string, text: Text): (int, bool) {
    var literal := TrimQuotes(value);
    if literal == "" then (0, false) else text.integer(literal)
  }

  /** With `gate`, the constant m is no more than the modules symbol allows. */
  function EvalSymbol(s: Symbol, gate: bool, env: Env): Tri {
    if s.constant then
      var t := TriFromConst(s.name);
      if t.None? then BoolTri(s.name != "")
      else if gate && s.name == "m" then Min(t.value, ModulesTri(env))
      else t.value
    else if !s.declared then TRI_N
    else
      match s.typ
      case BoolType => env.st.Effective(s)
      case TristateType => env.st.Effective(s)
      case StringType => BoolTri(env.st.Value(s) != "" && env.st.Value(s) != "\"\"")
      case _ => BoolTri(ConfigInt(env.st.Value(s), env.text).0 != 0)
  }

  function Eval(e: Expr, gate: bool, env: Env): Tri
    decreases e, 0
  {
    match e
    case Nil => TRI_Y
    case Sym(s) => EvalSymbol(s, gate, env)
    case Not(x) => TRI_Y - Eval(x, gate, env)
    case Binary(And, l, r) => Min(Eval(l, gate, env), Eval(r, gate, env))
    case Binary(Or, l, r) => Max(Eval(l, gate, env), Eval(r, gate, env))
    case Compare(op, l, r) =>
      BoolTri(
        if IsTriExpression(l) && IsTriExpression(r)
        then CompareTri(Eval(l, false, env), Eval(r, false, env), op)
        else CompareText(ExprValue(l, env), ExprValue(r, env), op, env.text))
  }

  function ExprValue(e: Expr, env: Env): string
    decreases e, 1
  {
    if !e.Sym? then TriName(Eval(e, false, env))
    else if e.symbol.constant then e.symbol.name
    else SymbolText(e.symbol, env.st)
  }

  function SymbolText(s: Symbol, st: State): string {
    if s !in st.values then "n"
    else
      var value := TrimQuotes(st.values[s]);
      if value == "" && (s.typ.IntType? || s.typ.HexType?) then DefaultScalar(s.typ) else value
  }

  function CompareInt(a: int, b: int, op: CmpOp): bool {
    match op
    case Eq => a == b
    case Ne => a != b
    case Lt => a < b
    case Le => a <= b
    case Gt => a > b
    case Ge => a >= b
    case Span => false
  }

  function CompareText(a: string, b: string, op: CmpOp, text: Text): bool {
    var (m, mOk), (n, nOk) := ConfigInt(a, text), ConfigInt(b, text);
    if mOk && nOk then CompareInt(m, n, op)
    else
      match op
      case Eq => a == b
      case Ne => a != b
      case Lt => text.less(a, b)
      case Le => a == b || text.less(a, b)
      case Gt => text.less(b, a)
      case Ge => a == b || text.less(b, a)
      case Span => false
  }

  /** A dependency: gated, with a value for the missing expression. */
  function Dep(e: Expr, missing: Tri, env: Env): Tri {
    if e.Nil? then missing else Eval(e, true, env)
  }

  // ----- what symbols are worth and say -----

  /** A text with the quotes at its two ends taken off, all of them. */
  ghost predicate Unquoted(s: string, r: string) {
    && (r == "" || (r[0] != '"' && r[|r| - 1] != '"'))
    && exists front, back :: OnlyQuotes(front) && OnlyQuotes(back) && s == front + r + back
  }

  predicate OnlyQuotes(s: string) {
    forall k :: 0 <= k < |s| ==> s[k] == '"'
  }

  lemma {:induction false} TrimQuotesMeaning(s: string)
    ensures Unquoted(s, TrimQuotes(s))
    decreases |s|
  {
    var r, n := TrimQuotes(s), |s|;
    if n > 0 && s[0] == '"' {
      TrimQuotesMeaning(s[1..]);
      var front, back :| OnlyQuotes(front) && OnlyQuotes(back) && s[1..] == front + r + back;
      QuotedAround(s, [s[0]] + front, r, back);
    } else if n > 0 && s[n - 1] == '"' {
      TrimQuotesMeaning(s[..n - 1]);
      var front, back :| OnlyQuotes(front) && OnlyQuotes(back) && s[..n - 1] == front + r + back;
      QuotedAround(s, front, r, back + [s[n - 1]]);
    } else {
      QuotedAround(s, "", r, "");
    }
  }

  lemma QuotedAround(s: string, front: string, r: string, back: string)
    requires OnlyQuotes(front) && OnlyQuotes(back) && s == front + r + back
    requires r == "" || (r[0] != '"' && r[|r| - 1] != '"')
    ensures Unquoted(s, r)
  {
  }

  /** A symbol used as a condition: a declared string is y when it is not empty, and a number when it is not zero. */
  lemma ScalarAsCondition(s: Symbol, gate: bool, env: Env)
    requires !s.constant && s.declared && !TriType(s.typ)
    ensures var text, worth := env.st.Value(s), Eval(Sym(s), gate, env);
            && worth != TRI_M
            && if s.typ.StringType? then worth == TRI_N <==> text == "" || text == "\"\""
               else worth == TRI_N <==> TrimQuotes(text) == "" || env.text.integer(TrimQuotes(text)).0 == 0
  {
  }

  /** As an operand of a comparison of texts a symbol is its text without quotes, and where a number has none, zero. */
  lemma SymbolAsOperand(s: Symbol, env: Env)
    requires !s.constant && s in env.st.values
    ensures var text := ExprValue(Sym(s), env);
            if s.typ.IntType? && OnlyQuotes(env.st.values[s]) then text == "0"
            else if s.typ.HexType? && OnlyQuotes(env.st.values[s]) then text == "0x0"
            else Unquoted(env.st.values[s], text)
  {
    TrimQuotesMeaning(env.st.values[s]);
    QuotesOnly(env.st.values[s]);
  }

  lemma {:induction false} QuotesOnly(s: string)
    ensures TrimQuotes(s) == "" <==> OnlyQuotes(s)
    decreases |s|
  {
    if |s| > 0 && s[0] == '"' {
      QuotesOnly(s[1..]);
      assert s == [s[0]] + s[1..];
    } else if |s| > 0 && s[|s| - 1] == '"' {
      QuotesOnly(s[..|s| - 1]);
      assert s == s[..|s| - 1] + [s[|s| - 1]];
    }
  }

  // ----- what comparisons mean -----

  /** What the operator becomes when its operands change places. */
  function Swapped(op: CmpOp): CmpOp {
    match op
    case Lt => Gt
    case Le => Ge
    case Gt => Lt
    case Ge => Le
    case _ => op
  }

  /** The operator that holds where this one does not. */
  function Opposite(op: CmpOp): CmpOp {
    match op
    case Eq => Ne
    case Ne => Eq
    case Lt => Ge
    case Ge => Lt
    case Gt => Le
    case Le => Gt
    case Span => Span
  }

  /** Of two texts one is less, or they are the same. */
  ghost predicate TotalOrder(text: Text) {
    forall a, b :: OneOf(text.less(a, b), a == b, text.less(b, a))
  }

  predicate OneOf(a: bool, b: bool, c: bool) {
    (a && !b && !c) || (!a && b && !c) || (!a && !b && c)
  }

  /**
   * A comparison is y or n. Of tristate operands it compares the states; of others it compares numbers
   * when both are numbers, and else texts.
   */
  lemma ComparisonMeaning(l: Expr, r: Expr, gate: bool, env: Env)
    ensures var same, less := Eval(Compare(Eq, l, r), gate, env), Eval(Compare(Lt, l, r), gate, env);
            && same != TRI_M && less != TRI_M
            && if IsTriExpression(l) && IsTriExpression(r) then
                 var a, b := Eval(l, false, env), Eval(r, false, env);
                 (same == TRI_Y <==> a == b) && (less == TRI_Y <==> a < b)
               else
                 var a, b := ExprValue(l, env), ExprValue(r, env);
                 var (m, mOk), (n, nOk) := ConfigInt(a, env.text), ConfigInt(b, env.text);
                 if mOk && nOk then (same == TRI_Y <==> m == n) && (less == TRI_Y <==> m < n)
                 else (same == TRI_Y <==> a == b) && (less == TRI_Y <==> env.text.less(a, b))
  {
  }

  /** A comparison may be read from either side. */
  lemma ComparisonSwaps(op: CmpOp, l: Expr, r: Expr, gate: bool, env: Env)
    ensures Eval(Compare(Swapped(op), r, l), gate, env) == Eval(Compare(op, l, r), gate, env)
  {
  }

  /** And of two opposite operators exactly one holds, so the two laws give all six from = and <. */
  lemma ComparisonOpposes(op: CmpOp, l: Expr, r: Expr, gate: bool, env: Env)
    requires TotalOrder(env.text) && op != Span
    ensures Eval(Compare(Opposite(op), l, r), gate, env) == TRI_Y - Eval(Compare(op, l, r), gate, env)
  {
    var a, b := ExprValue(l, env), ExprValue(r, env);
    assert OneOf(env.text.less(a, b), a == b, env.text.less(b, a));
  }

  // ----- simplification and m-rewriting preserve meaning -----

  lemma {:induction false} AndExprMeaning(l: Expr, r: Expr, gate: bool, env: Env)
    ensures Eval(AndExpr(l, r), gate, env) == Min(Eval(l, gate, env), Eval(r, gate, env))
  {
  }

  lemma {:induction false} OrExprMeaning(l: Expr, r: Expr, gate: bool, env: Env)
    requires !l.Nil? && !r.Nil?
    ensures Eval(OrExpr(l, r), gate, env) == Max(Eval(l, gate, env), Eval(r, gate, env))
  {
  }

  /**
   * A missing operand is y when evaluated, but not when it is OR-ed: the disjunction is the maximum
   * when both operands are there, when neither is, and else exactly when the one that is there is y.
   */
  lemma OrExprMissing(l: Expr, r: Expr, gate: bool, env: Env)
    ensures Eval(OrExpr(l, r), gate, env) == Max(Eval(l, gate, env), Eval(r, gate, env))
        <==> (l.Nil? <==> r.Nil?) || Eval(if l.Nil? then r else l, gate, env) == TRI_Y
  {
    if l.Nil? || r.Nil? {
    } else {
      OrExprMeaning(l, r, gate, env);
    }
  }

  /** What the parser makes the modules symbol: the constant n, or a declared bool or tristate. */
  predicate ModulesWellFormed(m: Symbol) {
    if m.constant then m.name == "n" else m.declared && TriType(m.typ)
  }

  /** Up to m, the modules symbol used as an expression is worth what the gate takes it for. */
  ghost predicate ModulesAgree(env: Env) {
    Min(TRI_M, EvalSymbol(env.modules, false, env)) == Min(TRI_M, ModulesTri(env))
  }

  lemma {:induction false} RewriteMStep(e: Expr, env: Env)
    requires ModulesAgree(env)
    ensures Eval(RewriteM(e, env.modules), false, env) == Eval(e, true, env)
  {
    match e
    case Nil =>
    case Sym(s) =>
      if s.constant && s.name == "m" {
        AndExprMeaning(e, Sym(env.modules), false, env);
      }
    case Not(x) => RewriteMStep(x, env);
    case Binary(_, l, r) => RewriteMStep(l, env); RewriteMStep(r, env);
    case Compare(_, _, _) =>
  }

  /** Evaluating the rewritten expression without the gate is evaluating the original with it. */
  lemma RewriteMMeaning(e: Expr, env: Env)
    requires ModulesWellFormed(env.modules)
    ensures Eval(RewriteM(e, env.modules), false, env) == Eval(e, true, env)
  {
    RewriteMStep(e, env);
  }

  /** For every expression at once: rewriting is right exactly when the modules symbol means the gate. */
  lemma RewriteMExactly(env: Env)
    ensures (forall e :: Eval(RewriteM(e, env.modules), false, env) == Eval(e, true, env)) <==> ModulesAgree(env)
  {
    if ModulesAgree(env) {
      forall e ensures Eval(RewriteM(e, env.modules), false, env) == Eval(e, true, env) {
        RewriteMStep(e, env);
      }
    } else {
      var m := Sym(Symbol("m", TristateType, true, false));
      AndExprMeaning(m, Sym(env.modules), false, env);
      assert Eval(RewriteM(m, env.modules), false, env) != Eval(m, true, env);
    }
  }

  /** After rewriting the gate has nothing left to do. */
  lemma {:induction false} RewriteMUngated(e: Expr, env: Env)
    requires ModulesWellFormed(env.modules)
    ensures Eval(RewriteM(e, env.modules), true, env) == Eval(RewriteM(e, env.modules), false, env)
  {
    match e
    case Nil =>
    case Sym(s) =>
      if s.constant && s.name == "m" {
        AndExprMeaning(e, Sym(env.modules), false, env);
        AndExprMeaning(e, Sym(env.modules), true, env);
      }
    case Not(x) => RewriteMUngated(x, env);
    case Binary(_, l, r) => RewriteMUngated(l, env); RewriteMUngated(r, env);
    case Compare(_, _, _) =>
  }

  // ----- what an evaluation reads -----

  function ModulesRead(modules: Symbol): set<Symbol> {
    if modules.constant then {} else {modules}
  }

  /** The symbols whose current values an evaluation can depend on. */
  function Reads(e: Expr, gate: bool, modules: Symbol): set<Symbol> {
    match e
    case Nil => {}
    case Sym(s) =>
      if !s.constant then {s}
      else if gate && s.name == "m" then ModulesRead(modules)
      else {}
    case Not(x) => Reads(x, gate, modules)
    case Binary(_, l, r) => Reads(l, gate, modules) + Reads(r, gate, modules)
    case Compare(_, l, r) => Reads(l, false, modules) + Reads(r, false, modules)
  }

  ghost predicate AgreeAt(a: State, b: State, s: Symbol) {
    && a.Effective(s) == b.Effective(s)
    && a.Written(s) == b.Written(s)
    && (s in a.values <==> s in b.values)
    && a.Value(s) == b.Value(s)
  }

  ghost predicate Agree(a: State, b: State, over: set<Symbol>) {
    forall s :: s in over ==> AgreeAt(a, b, s)
  }

  lemma {:induction false} EvalFrame(e: Expr, gate: bool, text: Text, modules: Symbol, a: State, b: State)
    requires Agree(a, b, Reads(e, gate, modules))
    ensures Eval(e, gate, Env(text, modules, a)) == Eval(e, gate, Env(text, modules, b))
  {
    match e
    case Nil =>
    case Sym(s) =>
    case Not(x) => EvalFrame(x, gate, text, modules, a, b);
    case Binary(_, l, r) =>
      EvalFrame(l, gate, text, modules, a, b);
      EvalFrame(r, gate, text, modules, a, b);
    case Compare(_, l, r) =>
      EvalFrame(l, false, text, modules, a, b);
      EvalFrame(r, false, text, modules, a, b);
      assert ExprValue(l, Env(text, modules, a)) == ExprValue(l, Env(text, modules, b));
      assert ExprValue(r, Env(text, modules, a)) == ExprValue(r, Env(text, modules, b));
  }

  lemma ExprValueFrame(e: Expr, text: Text, modules: Symbol, a: State, b: State)
    requires Agree(a, b, Reads(e, false, modules))
    ensures ExprValue(e, Env(text, modules, a)) == ExprValue(e, Env(text, modules, b))
  {
    EvalFrame(e, false, text, modules, a, b);
  }
}
