/** The grammar of expressions over tokens, and the printer that parsing undoes. */
module ExprGrammar {
  import opened Tristate
  import opened KconfigExpr

  datatype Token = Token(value: string, quoted: bool)

  /** The tree's symbol for a name, one for constants and one for configuration symbols. */
  datatype SymbolTable = SymbolTable(lookup: (string, bool) -> Symbol) {
    ghost predicate Valid() {
      forall name, constant :: lookup(name, constant).name == name && lookup(name, constant).constant == constant
    }
  }

  predicate IsDigits(s: string) {
    forall c :: c in s ==> '0' <= c <= '9'
  }

  predicate IsHexDigits(s: string) {
    forall c :: c in s ==> '0' <= c <= '9' || 'a' <= c <= 'f' || 'A' <= c <= 'F'
  }

  predicate IsNumericLiteral(value: string) {
    var digits := if value != "" && value[0] == '-' then value[1..] else value;
    digits != ""
    && if |digits| > 2 && digits[0] == '0' && (digits[1] == 'x' || digits[1] == 'X')
       then IsHexDigits(digits[2..]) else IsDigits(digits)
  }

  /** Words that denote constants even without quotes. */
  predicate IsConstantWord(value: string) {
    value == "y" || value == "m" || value == "n" || IsNumericLiteral(value)
  }

  function SymbolFromToken(t: Token, table: SymbolTable): Symbol {
    table.lookup(t.value, t.quoted || IsConstantWord(t.value))
  }

  function CompareOpOf(value: string): Option<CmpOp> {
    if value == "=" then Some(Eq)
    else if value == "!=" then Some(Ne)
    else if value == "<" then Some(Lt)
    else if value == "<=" then Some(Le)
    else if value == ">" then Some(Gt)
    else if value == ">=" then Some(Ge)
    else None
  }

  // ----- the grammar, as functions from the remaining tokens -----

  type Parsed = Option<(Expr, seq<Token>)>

  predicate Starts(ts: seq<Token>, value: string) {
    ts != [] && ts[0].value == value
  }

  function ParseOr(ts: seq<Token>, table: SymbolTable): (r: Parsed)
    ensures r.Some? ==> |r.value.1| < |ts|
    decreases |ts|, 5
  {
    var left := ParseAnd(ts, table);
    if left.None? then None else OrRest(left.value.0, left.value.1, table)
  }

  function OrRest(left: Expr, ts: seq<Token>, table: SymbolTable): (r: Parsed)
    ensures r.Some? ==> |r.value.1| <= |ts|
    decreases |ts|, 4
  {
    if !Starts(ts, "||") then Some((left, ts))
    else
      var right := ParseAnd(ts[1..], table);
      if right.None? then None else OrRest(OrExpr(left, right.value.0), right.value.1, table)
  }

  function ParseAnd(ts: seq<Token>, table: SymbolTable): (r: Parsed)
    ensures r.Some? ==> |r.value.1| < |ts|
    decreases |ts|, 3
  {
    var left := ParseCompare(ts, table);
    if left.None? then None else AndRest(left.value.0, left.value.1, table)
  }

  function AndRest(left: Expr, ts: seq<Token>, table: SymbolTable): (r: Parsed)
    ensures r.Some? ==> |r.value.1| <= |ts|
    decreases |ts|, 2
  {
    if !Starts(ts, "&&") then Some((left, ts))
    else
      var right := ParseCompare(ts[1..], table);
      if right.None? then None else AndRest(AndExpr(left, right.value.0), right.value.1, table)
  }

  function ParseCompare(ts: seq<Token>, table: SymbolTable): (r: Parsed)
    ensures r.Some? ==> |r.value.1| < |ts|
    decreases |ts|, 2
  {
    var left := ParseUnary(ts, table);
    if left.None? then None
    else
      var (l, rest) := left.value;
      if rest == [] || CompareOpOf(rest[0].value).None? then left
      else
        var right := ParseUnary(rest[1..], table);
        if right.None? then None
        else Some((Compare(CompareOpOf(rest[0].value).value, l, right.value.0), right.value.1))
  }

  function ParseUnary(ts: seq<Token>, table: SymbolTable): (r: Parsed)
    ensures r.Some? ==> |r.value.1| < |ts|
    decreases |ts|, 1
  {
    if Starts(ts, "!") then
      var x := ParseUnary(ts[1..], table);
      if x.None? then None else Some((Not(x.value.0), x.value.1))
    else ParsePrimary(ts, table)
  }

  function ParsePrimary(ts: seq<Token>, table: SymbolTable): (r: Parsed)
    ensures r.Some? ==> |r.value.1| < |ts|
    decreases |ts|, 0
  {
    if ts == [] then None
    else if ts[0].value == "(" then
      var inner := ParseOr(ts[1..], table);
      if inner.None? || !Starts(inner.value.1, ")") then None
      else Some((inner.value.0, inner.value.1[1..]))
    else if ts[0].value == ")" then None
    else Some((Sym(SymbolFromToken(ts[0], table)), ts[1..]))
  }

  /** A whole statement must be one expression. */
  function ParseExpr(ts: seq<Token>, table: SymbolTable): Option<Expr> {
    var r := ParseOr(ts, table);
    if ts == [] || r.None? || r.value.1 != [] then None else Some(r.value.0)
  }

  // ----- printing -----

  function Word(value: string): seq<Token> {
    [Token(value, false)]
  }

  function CompareWord(op: CmpOp): string {
    match op
    case Eq => "="
    case Ne => "!="
    case Lt => "<"
    case Le => "<="
    case Gt => ">"
    case Ge => ">="
    case Span => ".."
  }

  function Print(e: Expr): seq<Token>
    decreases e, 0
  {
    match e
    case Nil => Word("<nil>")
    case Sym(s) => [Token(s.name, s.constant)]
    case Not(x) => Word("!") + Parenthesize(x)
    case Binary(op, l, r) => Parenthesize(l) + Word(if op.And? then "&&" else "||") + Parenthesize(r)
    case Compare(op, l, r) => Parenthesize(l) + Word(CompareWord(op)) + Parenthesize(r)
  }

  function Parenthesize(e: Expr): seq<Token>
    decreases e, 1
  {
    if e.Binary? || e.Compare? then Word("(") + Print(e) + Word(")") else Print(e)
  }

  // ----- what the parser can build -----

  predicate IsExtreme(e: Expr) {
    IsConst(e, "y") || IsConst(e, "n")
  }

  predicate Buildable(e: Expr, table: SymbolTable) {
    match e
    case Nil => false
    case Sym(s) =>
      && s == table.lookup(s.name, s.constant)
      && s.name != "!" && s.name != "(" && s.name != ")"
      && (!s.constant ==> !IsConstantWord(s.name))
    case Not(x) => Buildable(x, table)
    case Binary(_, l, r) => Buildable(l, table) && Buildable(r, table) && !IsExtreme(l) && !IsExtreme(r)
    case Compare(op, l, r) => Buildable(l, table) && Buildable(r, table) && op != Span
  }

  ghost predicate Sound(r: Parsed, table: SymbolTable) {
    r.Some? ==> Buildable(r.value.0, table)
  }

  lemma {:induction false} OrBuilds(ts: seq<Token>, table: SymbolTable)
    requires table.Valid()
    ensures Sound(ParseOr(ts, table), table)
    decreases |ts|, 5
  {
    AndBuilds(ts, table);
    var left := ParseAnd(ts, table);
    if left.Some? {
      OrRestBuilds(left.value.0, left.value.1, table);
    }
  }

  lemma {:induction false} OrRestBuilds(left: Expr, ts: seq<Token>, table: SymbolTable)
    requires table.Valid() && Buildable(left, table)
    ensures Sound(OrRest(left, ts, table), table)
    decreases |ts|, 4
  {
    if Starts(ts, "||") {
      AndBuilds(ts[1..], table);
      var right := ParseAnd(ts[1..], table);
      if right.Some? {
        OrRestBuilds(OrExpr(left, right.value.0), right.value.1, table);
      }
    }
  }

  lemma {:induction false} AndBuilds(ts: seq<Token>, table: SymbolTable)
    requires table.Valid()
    ensures Sound(ParseAnd(ts, table), table)
    decreases |ts|, 3
  {
    CompareBuilds(ts, table);
    var left := ParseCompare(ts, table);
    if left.Some? {
      AndRestBuilds(left.value.0, left.value.1, table);
    }
  }

  lemma {:induction false} AndRestBuilds(left: Expr, ts: seq<Token>, table: SymbolTable)
    requires table.Valid() && Buildable(left, table)
    ensures Sound(AndRest(left, ts, table), table)
    decreases |ts|, 2
  {
    if Starts(ts, "&&") {
      CompareBuilds(ts[1..], table);
      var right := ParseCompare(ts[1..], table);
      if right.Some? {
        AndRestBuilds(AndExpr(left, right.value.0), right.value.1, table);
      }
    }
  }

  lemma {:induction false} CompareBuilds(ts: seq<Token>, table: SymbolTable)
    requires table.Valid()
    ensures Sound(ParseCompare(ts, table), table)
    decreases |ts|, 2
  {
    UnaryBuilds(ts, table);
    var left := ParseUnary(ts, table);
    if left.Some? && left.value.1 != [] {
      UnaryBuilds(left.value.1[1..], table);
    }
  }

  lemma {:induction false} UnaryBuilds(ts: seq<Token>, table: SymbolTable)
    requires table.Valid()
    ensures Sound(ParseUnary(ts, table), table)
    decreases |ts|, 1
  {
    if Starts(ts, "!") {
      UnaryBuilds(ts[1..], table);
    } else {
      PrimaryBuilds(ts, table);
    }
  }

  lemma {:induction false} PrimaryBuilds(ts: seq<Token>, table: SymbolTable)
    requires table.Valid() && !Starts(ts, "!")
    ensures Sound(ParsePrimary(ts, table), table)
    decreases |ts|, 0
  {
    if Starts(ts, "(") {
      OrBuilds(ts[1..], table);
    } else if ts != [] {
      var constant := ts[0].quoted || IsConstantWord(ts[0].value);
      assert table.lookup(ts[0].value, constant).name == ts[0].value;
    }
  }

  // ----- parsing undoes printing -----

  /** What may follow an expression that has to end there. */
  predicate Closes(rest: seq<Token>) {
    rest == [] || rest[0].value == ")"
  }

  lemma SymbolUndoes(s: Symbol, rest: seq<Token>, table: SymbolTable)
    requires table.Valid() && Buildable(Sym(s), table)
    ensures Parenthesize(Sym(s)) == Print(Sym(s))
    ensures ParseUnary(Print(Sym(s)) + rest, table) == Some((Sym(s), rest))
  {
    var ts := [Token(s.name, s.constant)] + rest;
    assert Print(Sym(s)) + rest == ts;
    assert ts[1..] == rest;
    assert SymbolFromToken(ts[0], table) == s;
  }

  lemma NotUndoes(x: Expr, rest: seq<Token>, table: SymbolTable)
    requires ParseUnary(Parenthesize(x) + rest, table) == Some((x, rest))
    ensures Parenthesize(Not(x)) == Print(Not(x))
    ensures ParseUnary(Print(Not(x)) + rest, table) == Some((Not(x), rest))
  {
    var ts := Print(Not(x)) + rest;
    assert ts[0] == Token("!", false);
    assert ts[1..] == Parenthesize(x) + rest;
  }

  lemma GroupUndoes(e: Expr, rest: seq<Token>, table: SymbolTable)
    requires e.Binary? || e.Compare?
    requires ParseOr(Print(e) + (Word(")") + rest), table) == Some((e, Word(")") + rest))
    ensures ParseUnary(Parenthesize(e) + rest, table) == Some((e, rest))
  {
    var ts := Parenthesize(e) + rest;
    assert ts[0] == Token("(", false);
    assert ts[1..] == Print(e) + (Word(")") + rest);
    assert (Word(")") + rest)[1..] == rest;
    assert ParseUnary(ts, table) == ParsePrimary(ts, table);
  }

  /** A unary expression that no operator of a higher level follows is an operand of that level. */
  lemma UnaryIsCompare(ts: seq<Token>, e: Expr, rest: seq<Token>, table: SymbolTable)
    requires ParseUnary(ts, table) == Some((e, rest))
    requires Closes(rest) || Starts(rest, "&&") || Starts(rest, "||")
    ensures ParseCompare(ts, table) == Some((e, rest))
  {
  }

  lemma CompareIsOr(ts: seq<Token>, e: Expr, rest: seq<Token>, table: SymbolTable)
    requires ParseCompare(ts, table) == Some((e, rest)) && Closes(rest)
    ensures ParseOr(ts, table) == Some((e, rest))
  {
    assert ParseAnd(ts, table) == AndRest(e, rest, table) == Some((e, rest));
  }

  /** Two unary operands around an operator, up to a place where the expression has to end. */
  lemma AndParses(ts: seq<Token>, l: Expr, tail: seq<Token>, r: Expr, rest: seq<Token>, table: SymbolTable)
    requires ParseUnary(ts, table) == Some((l, tail)) && Starts(tail, "&&")
    requires ParseUnary(tail[1..], table) == Some((r, rest)) && Closes(rest)
    ensures ParseOr(ts, table) == Some((AndExpr(l, r), rest))
  {
    UnaryIsCompare(ts, l, tail, table);
    UnaryIsCompare(tail[1..], r, rest, table);
    assert AndRest(AndExpr(l, r), rest, table) == Some((AndExpr(l, r), rest));
    assert ParseAnd(ts, table) == AndRest(l, tail, table) == Some((AndExpr(l, r), rest));
  }

  lemma OrParses(ts: seq<Token>, l: Expr, tail: seq<Token>, r: Expr, rest: seq<Token>, table: SymbolTable)
    requires ParseUnary(ts, table) == Some((l, tail)) && Starts(tail, "||")
    requires ParseUnary(tail[1..], table) == Some((r, rest)) && Closes(rest)
    ensures ParseOr(ts, table) == Some((OrExpr(l, r), rest))
  {
    UnaryIsCompare(ts, l, tail, table);
    UnaryIsCompare(tail[1..], r, rest, table);
    assert ParseAnd(ts, table) == AndRest(l, tail, table) == Some((l, tail));
    assert ParseAnd(tail[1..], table) == AndRest(r, rest, table) == Some((r, rest));
    assert OrRest(OrExpr(l, r), rest, table) == Some((OrExpr(l, r), rest));
  }

  lemma CompareParses(ts: seq<Token>, op: CmpOp, l: Expr, tail: seq<Token>, r: Expr, rest: seq<Token>,
      table: SymbolTable)
    requires ParseUnary(ts, table) == Some((l, tail)) && tail != [] && CompareOpOf(tail[0].value) == Some(op)
    requires ParseUnary(tail[1..], table) == Some((r, rest)) && Closes(rest)
    ensures ParseOr(ts, table) == Some((Compare(op, l, r), rest))
  {
    CompareIsOr(ts, Compare(op, l, r), rest, table);
  }

  lemma InfixTokens(l: seq<Token>, word: string, r: seq<Token>, rest: seq<Token>)
    ensures (l + Word(word) + r) + rest == l + (Word(word) + (r + rest))
    ensures (Word(word) + (r + rest))[1..] == r + rest
  {
  }

  lemma {:induction false} UnaryUndoes(e: Expr, rest: seq<Token>, table: SymbolTable)
    requires table.Valid() && Buildable(e, table)
    ensures ParseUnary(Parenthesize(e) + rest, table) == Some((e, rest))
    decreases e, 1
  {
    match e
    case Sym(s) => SymbolUndoes(s, rest, table);
    case Not(x) =>
      UnaryUndoes(x, rest, table);
      NotUndoes(x, rest, table);
    case Binary(_, _, _) =>
      OrUndoes(e, Word(")") + rest, table);
      GroupUndoes(e, rest, table);
    case Compare(_, _, _) =>
      OrUndoes(e, Word(")") + rest, table);
      GroupUndoes(e, rest, table);
  }

  lemma {:induction false} OrUndoes(e: Expr, rest: seq<Token>, table: SymbolTable)
    requires table.Valid() && Buildable(e, table) && Closes(rest)
    ensures ParseOr(Print(e) + rest, table) == Some((e, rest))
    decreases e, 0
  {
    match e
    case Sym(s) =>
      SymbolUndoes(s, rest, table);
      UnaryIsCompare(Print(e) + rest, e, rest, table);
      CompareIsOr(Print(e) + rest, e, rest, table);
    case Not(x) =>
      UnaryUndoes(x, rest, table);
      NotUndoes(x, rest, table);
      UnaryIsCompare(Print(e) + rest, e, rest, table);
      CompareIsOr(Print(e) + rest, e, rest, table);
    case Binary(op, l, r) =>
      var word := if op.And? then "&&" else "||";
      var tail := Word(word) + (Parenthesize(r) + rest);
      InfixTokens(Parenthesize(l), word, Parenthesize(r), rest);
      UnaryUndoes(l, tail, table);
      UnaryUndoes(r, rest, table);
      if op.And? {
        AndParses(Print(e) + rest, l, tail, r, rest, table);
      } else {
        OrParses(Print(e) + rest, l, tail, r, rest, table);
      }
    case Compare(op, l, r) =>
      var tail := Word(CompareWord(op)) + (Parenthesize(r) + rest);
      InfixTokens(Parenthesize(l), CompareWord(op), Parenthesize(r), rest);
      UnaryUndoes(l, tail, table);
      UnaryUndoes(r, rest, table);
      CompareParses(Print(e) + rest, op, l, tail, r, rest, table);
  }

  /** Printing what the parser built and parsing it again returns the same tree. */
  lemma ParsePrintParse(ts: seq<Token>, table: SymbolTable)
    requires table.Valid() && ParseExpr(ts, table).Some?
    ensures var e := ParseExpr(ts, table).value;
            Buildable(e, table) && ParseExpr(Print(e), table) == Some(e)
  {
    OrBuilds(ts, table);
    PrintParse(ParseExpr(ts, table).value, table);
  }

  /** A tree survives printing and parsing exactly when the parser can build it. */
  lemma PrintParse(e: Expr, table: SymbolTable)
    requires table.Valid()
    ensures ParseExpr(Print(e), table) == Some(e) <==> Buildable(e, table)
  {
    if Buildable(e, table) {
      OrUndoes(e, [], table);
      assert Print(e) + [] == Print(e);
    } else {
      OrBuilds(Print(e), table);
    }
  }

}

/** The parser as the source runs it: a position that advances over the tokens. */
module ExprParsing {
  import opened Tristate
  import opened KconfigExpr
  import opened ExprGrammar

  class ExprParser {
    const toks: seq<Token>
    const table: SymbolTable
    var pos: nat

    constructor (toks: seq<Token>, table: SymbolTable)
      ensures this.toks == toks && this.table == table && pos == 0
    {
      this.toks := toks;
      this.table := table;
      pos := 0;
    }

    ghost predicate Valid()
      reads this
    {
      pos <= |toks|
    }

    /** `r` and the position are what parsing from `from` on gives. */
    ghost predicate Follows(r: Option<Expr>, parsed: Parsed)
      reads this
    {
      Valid() && if parsed.None? then r.None? else r == Some(parsed.value.0) && toks[pos..] == parsed.value.1
    }

    method Accept(value: string) returns (accepted: bool)
      requires Valid()
      modifies this`pos
      ensures Valid() && accepted == Starts(toks[old(pos)..], value)
      ensures pos == if accepted then old(pos) + 1 else old(pos)
    {
      accepted := pos < |toks| && toks[pos].value == value;
      if accepted {
        pos := pos + 1;
      }
    }

    method ParseOr() returns (r: Option<Expr>)
      requires Valid()
      modifies this`pos
      ensures Follows(r, ExprGrammar.ParseOr(toks[old(pos)..], table))
      decreases |toks| - pos, 3
    {
      ghost var start := pos;
      r := ParseAnd();
      if r.None? {
        return;
      }
      var more := Accept("||");
      while more
        invariant start < pos <= |toks| && r.Some?
        invariant ExprGrammar.ParseOr(toks[start..], table) ==
                  OrRest(r.value, if more then toks[pos - 1..] else toks[pos..], table)
        invariant if more then Starts(toks[pos - 1..], "||") else !Starts(toks[pos..], "||")
        decreases |toks| - pos, more
      {
        assert toks[pos - 1..][1..] == toks[pos..];
        var right := ParseAnd();
        if right.None? {
          return None;
        }
        r := Some(OrExpr(r.value, right.value));
        more := Accept("||");
      }
    }

    method ParseAnd() returns (r: Option<Expr>)
      requires Valid()
      modifies this`pos
      ensures Follows(r, ExprGrammar.ParseAnd(toks[old(pos)..], table))
      decreases |toks| - pos, 2
    {
      ghost var start := pos;
      r := ParseCompare();
      if r.None? {
        return;
      }
      var more := Accept("&&");
      while more
        invariant start < pos <= |toks| && r.Some?
        invariant ExprGrammar.ParseAnd(toks[start..], table) ==
                  AndRest(r.value, if more then toks[pos - 1..] else toks[pos..], table)
        invariant if more then Starts(toks[pos - 1..], "&&") else !Starts(toks[pos..], "&&")
        decreases |toks| - pos, more
      {
        assert toks[pos - 1..][1..] == toks[pos..];
        var right := ParseCompare();
        if right.None? {
          return None;
        }
        r := Some(AndExpr(r.value, right.value));
        more := Accept("&&");
      }
    }

    method ParseCompare() returns (r: Option<Expr>)
      requires Valid()
      modifies this`pos
      ensures Follows(r, ExprGrammar.ParseCompare(toks[old(pos)..], table))
      decreases |toks| - pos, 1
    {
      var left := ParseUnary();
      if left.None? || pos >= |toks| || CompareOpOf(toks[pos].value).None? {
        return left;
      }
      var op := CompareOpOf(toks[pos].value).value;
      assert toks[pos..][1..] == toks[pos + 1..];
      pos := pos + 1;
      var right := ParseUnary();
      if right.None? {
        return None;
      }
      return Some(Compare(op, left.value, right.value));
    }

    method ParseUnary() returns (r: Option<Expr>)
      requires Valid()
      modifies this`pos
      ensures Follows(r, ExprGrammar.ParseUnary(toks[old(pos)..], table))
      decreases |toks| - pos, 0
    {
      assert pos < |toks| ==> toks[pos..][1..] == toks[pos + 1..];
      var negated := Accept("!");
      if negated {
        var x := ParseUnary();
        if x.None? {
          return None;
        }
        return Some(Not(x.value));
      }
      if pos >= |toks| {
        return None;
      }
      var tok := toks[pos];
      assert toks[pos..][0] == tok;
      assert ExprGrammar.ParseUnary(toks[pos..], table) == ParsePrimary(toks[pos..], table);
      pos := pos + 1;
      if tok.value == "(" {
        var inner := ParseOr();
        if inner.None? {
          return None;
        }
        assert pos < |toks| ==> toks[pos..][1..] == toks[pos + 1..];
        var closed := Accept(")");
        return if closed then inner else None;
      }
      if tok.value == ")" {
        return None;
      }
      return Some(Sym(SymbolFromToken(tok, table)));
    }

    /** Parses all tokens as one expression. */
    method Parse() returns (r: Option<Expr>)
      requires pos == 0
      modifies this`pos
      ensures r == ParseExpr(toks, table)
    {
      assert toks[0..] == toks;
      if toks == [] {
        return None;
      }
      r := ParseOr();
      if r.Some? && pos != |toks| {
        return None;
      }
    }
  }
}
