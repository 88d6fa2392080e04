/**
 * The language of expressions as rules over whole token sequences: an operator may stand anywhere, and
 * the rules alone say what binds tighter. The parser accepts exactly this language, with this meaning.
 */
module ExprPrecedence {
  import opened ExprGrammar
  import opened KconfigExpr
  import opened Tristate

  // ----- the rules -----

  /** or ::= and | or "||" and */
  ghost predicate IsOr(ts: seq<Token>, e: Expr, table: SymbolTable)
    decreases |ts|, 4
  {
    || IsAnd(ts, e, table)
    || exists k: nat, l, r :: k < |ts| && ts[k].value == "||" && e == OrExpr(l, r)
         && IsOr(ts[..k], l, table) && IsAnd(ts[k + 1..], r, table)
  }

  /** and ::= comparison | and "&&" comparison */
  ghost predicate IsAnd(ts: seq<Token>, e: Expr, table: SymbolTable)
    decreases |ts|, 3
  {
    || IsComparison(ts, e, table)
    || exists k: nat, l, r :: k < |ts| && ts[k].value == "&&" && e == AndExpr(l, r)
         && IsAnd(ts[..k], l, table) && IsComparison(ts[k + 1..], r, table)
  }

  /** comparison ::= unary | unary operator unary */
  ghost predicate IsComparison(ts: seq<Token>, e: Expr, table: SymbolTable)
    decreases |ts|, 2
  {
    || IsUnary(ts, e, table)
    || exists k: nat, op, l, r :: k < |ts| && CompareOpOf(ts[k].value) == Some(op) && e == Compare(op, l, r)
         && IsUnary(ts[..k], l, table) && IsUnary(ts[k + 1..], r, table)
  }

  /** unary ::= "!" unary | "(" or ")" | word */
  ghost predicate IsUnary(ts: seq<Token>, e: Expr, table: SymbolTable)
    decreases |ts|, 1
  {
    || (|ts| > 1 && ts[0].value == "!" && e.Not? && IsUnary(ts[1..], e.x, table))
    || (|ts| > 2 && ts[0].value == "(" && ts[|ts| - 1].value == ")" && IsOr(ts[1..|ts| - 1], e, table))
    || (|ts| == 1 && ts[0].value !in {"!", "(", ")"} && e == Sym(SymbolFromToken(ts[0], table)))
  }

  // ----- what follows the rules is parsed so -----

  predicate StartsComparison(ts: seq<Token>) {
    ts != [] && CompareOpOf(ts[0].value).Some?
  }

  /** Tokens cut at an operator, with more behind them. */
  lemma Rejoin(ts: seq<Token>, k: nat, rest: seq<Token>)
    requires k < |ts|
    ensures ts + rest == ts[..k] + (ts[k..] + rest)
    ensures (ts[k..] + rest)[0] == ts[k] && (ts[k..] + rest)[1..] == ts[k + 1..] + rest
  {
  }

  lemma {:induction false} UnaryParses(ts: seq<Token>, e: Expr, rest: seq<Token>, table: SymbolTable)
    requires IsUnary(ts, e, table)
    ensures ParseUnary(ts + rest, table) == Some((e, rest))
    decreases |ts|, 1
  {
    var all := ts + rest;
    if |ts| > 1 && ts[0].value == "!" && e.Not? && IsUnary(ts[1..], e.x, table) {
      UnaryParses(ts[1..], e.x, rest, table);
      assert all[1..] == ts[1..] + rest;
    } else if |ts| > 2 && ts[0].value == "(" && ts[|ts| - 1].value == ")" && IsOr(ts[1..|ts| - 1], e, table) {
      var closed := [ts[|ts| - 1]] + rest;
      OrParsesOn(ts[1..|ts| - 1], e, closed, table);
      assert all[1..] == ts[1..|ts| - 1] + closed;
      assert closed[1..] == rest;
    } else {
      assert all[1..] == rest;
    }
  }

  lemma {:induction false} ComparisonParses(ts: seq<Token>, e: Expr, rest: seq<Token>, table: SymbolTable)
    requires IsComparison(ts, e, table) && !StartsComparison(rest)
    ensures ParseCompare(ts + rest, table) == Some((e, rest))
    decreases |ts|, 2
  {
    if IsUnary(ts, e, table) {
      UnaryParses(ts, e, rest, table);
    } else {
      var k: nat, op, l, r :| k < |ts| && CompareOpOf(ts[k].value) == Some(op) && e == Compare(op, l, r)
        && IsUnary(ts[..k], l, table) && IsUnary(ts[k + 1..], r, table);
      Rejoin(ts, k, rest);
      UnaryParses(ts[..k], l, ts[k..] + rest, table);
      UnaryParses(ts[k + 1..], r, rest, table);
    }
  }

  /** Up to here the parser has `e` in hand, whatever conjuncts follow. */
  lemma {:induction false} AndParsesOn(ts: seq<Token>, e: Expr, rest: seq<Token>, table: SymbolTable)
    requires IsAnd(ts, e, table) && !StartsComparison(rest)
    ensures ParseAnd(ts + rest, table) == AndRest(e, rest, table)
    decreases |ts|, 3
  {
    if IsComparison(ts, e, table) {
      ComparisonParses(ts, e, rest, table);
    } else {
      var k: nat, l, r :| k < |ts| && ts[k].value == "&&" && e == AndExpr(l, r)
        && IsAnd(ts[..k], l, table) && IsComparison(ts[k + 1..], r, table);
      Rejoin(ts, k, rest);
      AndParsesOn(ts[..k], l, ts[k..] + rest, table);
      ComparisonParses(ts[k + 1..], r, rest, table);
    }
  }

  lemma {:induction false} OrParsesOn(ts: seq<Token>, e: Expr, rest: seq<Token>, table: SymbolTable)
    requires IsOr(ts, e, table) && !StartsComparison(rest) && !Starts(rest, "&&")
    ensures ParseOr(ts + rest, table) == OrRest(e, rest, table)
    decreases |ts|, 4
  {
    if IsAnd(ts, e, table) {
      AndParsesOn(ts, e, rest, table);
    } else {
      var k: nat, l, r :| k < |ts| && ts[k].value == "||" && e == OrExpr(l, r)
        && IsOr(ts[..k], l, table) && IsAnd(ts[k + 1..], r, table);
      Rejoin(ts, k, rest);
      OrParsesOn(ts[..k], l, ts[k..] + rest, table);
      AndParsesOn(ts[k + 1..], r, rest, table);
    }
  }

  // ----- what is parsed follows the rules -----

  /** How many tokens a parser took. */
  function Taken(ts: seq<Token>, r: Parsed): (n: int) {
    if r.None? then 0 else |ts| - |r.value.1|
  }

  /** What was parsed is a front part of the tokens, and the rest is the rest. */
  ghost predicate Splits(ts: seq<Token>, r: Parsed) {
    r.Some? ==> 0 < Taken(ts, r) <= |ts| && r.value.1 == ts[Taken(ts, r)..]
  }

  lemma {:induction false} UnaryFollows(ts: seq<Token>, table: SymbolTable)
    ensures var r := ParseUnary(ts, table);
            Splits(ts, r) && (r.Some? ==> IsUnary(ts[..Taken(ts, r)], r.value.0, table))
    decreases |ts|, 1
  {
    var r := ParseUnary(ts, table);
    if r.Some? {
      var n := Taken(ts, r);
      if Starts(ts, "!") {
        UnaryFollows(ts[1..], table);
        assert n == Taken(ts[1..], ParseUnary(ts[1..], table)) + 1;
        assert ts[..n][1..] == ts[1..][..n - 1];
      } else if ts[0].value == "(" {
        OrFollows(ts[1..], table);
        assert r == ParsePrimary(ts, table);
        assert n == Taken(ts[1..], ParseOr(ts[1..], table)) + 2;
        assert ts[..n][1..n - 1] == ts[1..][..n - 2];
        assert ts[1..][n - 2..][0] == ts[n - 1];
      }
    }
  }

  lemma {:induction false} ComparisonFollows(ts: seq<Token>, table: SymbolTable)
    ensures var r := ParseCompare(ts, table);
            Splits(ts, r) && (r.Some? ==> IsComparison(ts[..Taken(ts, r)], r.value.0, table))
    decreases |ts|, 2
  {
    var r := ParseCompare(ts, table);
    UnaryFollows(ts, table);
    if r.Some? && r != ParseUnary(ts, table) {
      var (l, tail) := ParseUnary(ts, table).value;
      var k, n := Taken(ts, ParseUnary(ts, table)), Taken(ts, r);
      UnaryFollows(tail[1..], table);
      assert ts[..n][..k] == ts[..k] && ts[..n][k] == tail[0] && ts[..n][k + 1..] == tail[1..][..n - k - 1];
      assert IsUnary(ts[..n][..k], l, table) && IsUnary(ts[..n][k + 1..], r.value.0.rhs, table);
    }
  }

  lemma {:induction false} AndFollows(ts: seq<Token>, table: SymbolTable)
    ensures var r := ParseAnd(ts, table);
            Splits(ts, r) && (r.Some? ==> IsAnd(ts[..Taken(ts, r)], r.value.0, table))
    decreases |ts|, 3
  {
    ComparisonFollows(ts, table);
    var left := ParseCompare(ts, table);
    if left.Some? {
      AndRestFollows(ts, Taken(ts, left), left.value.0, table);
    }
  }

  lemma {:induction false} AndRestFollows(ts: seq<Token>, k: nat, left: Expr, table: SymbolTable)
    requires 0 < k <= |ts| && IsAnd(ts[..k], left, table)
    ensures var r := AndRest(left, ts[k..], table);
            Splits(ts, r) && (r.Some? ==> IsAnd(ts[..Taken(ts, r)], r.value.0, table))
    decreases |ts| - k, 3
  {
    var tail := ts[k..];
    if Starts(tail, "&&") {
      var right := ParseCompare(tail[1..], table);
      ComparisonFollows(tail[1..], table);
      if right.Some? {
        var n := k + 1 + Taken(tail[1..], right);
        assert ts[..n][..k] == ts[..k] && ts[..n][k] == tail[0] && ts[..n][k + 1..] == tail[1..][..n - k - 1];
        assert IsAnd(ts[..n][..k], left, table) && IsComparison(ts[..n][k + 1..], right.value.0, table);
        assert right.value.1 == ts[n..];
        AndRestFollows(ts, n, AndExpr(left, right.value.0), table);
      }
    }
  }

  lemma {:induction false} OrFollows(ts: seq<Token>, table: SymbolTable)
    ensures var r := ParseOr(ts, table);
            Splits(ts, r) && (r.Some? ==> IsOr(ts[..Taken(ts, r)], r.value.0, table))
    decreases |ts|, 5
  {
    AndFollows(ts, table);
    var left := ParseAnd(ts, table);
    if left.Some? {
      OrRestFollows(ts, Taken(ts, left), left.value.0, table);
    }
  }

  lemma {:induction false} OrRestFollows(ts: seq<Token>, k: nat, left: Expr, table: SymbolTable)
    requires 0 < k <= |ts| && IsOr(ts[..k], left, table)
    ensures var r := OrRest(left, ts[k..], table);
            Splits(ts, r) && (r.Some? ==> IsOr(ts[..Taken(ts, r)], r.value.0, table))
    decreases |ts| - k, 4
  {
    var tail := ts[k..];
    if Starts(tail, "||") {
      var right := ParseAnd(tail[1..], table);
      AndFollows(tail[1..], table);
      if right.Some? {
        var n := k + 1 + Taken(tail[1..], right);
        assert ts[..n][..k] == ts[..k] && ts[..n][k] == tail[0] && ts[..n][k + 1..] == tail[1..][..n - k - 1];
        assert IsOr(ts[..n][..k], left, table) && IsAnd(ts[..n][k + 1..], right.value.0, table);
        assert right.value.1 == ts[n..];
        OrRestFollows(ts, n, OrExpr(left, right.value.0), table);
      }
    }
  }

  /** The parser accepts exactly what follows the rules, and builds what they say; so they are unambiguous. */
  lemma ParsesExactly(ts: seq<Token>, e: Expr, table: SymbolTable)
    ensures ParseExpr(ts, table) == Some(e) <==> IsOr(ts, e, table)
  {
    if IsOr(ts, e, table) {
      NothingIsOr(e, table);
      OrParsesOn(ts, e, [], table);
      assert ts + [] == ts;
    }
    if ParseExpr(ts, table) == Some(e) {
      OrFollows(ts, table);
      assert ts[..|ts|] == ts;
    }
  }

  lemma NothingIsOr(e: Expr, table: SymbolTable)
    ensures !IsOr([], e, table)
  {
    assert !IsUnary([], e, table);
    assert !IsComparison([], e, table);
    assert !IsAnd([], e, table);
  }

  // ----- what binds tighter -----

  /** The parentheses opened and not closed before token k. */
  function Depth(ts: seq<Token>, k: nat): int
    requires k <= |ts|
  {
    if k == 0 then 0
    else Depth(ts, k - 1) + (if ts[k - 1].value == "(" then 1 else if ts[k - 1].value == ")" then -1 else 0)
  }

  /** The word stands nowhere outside parentheses. */
  ghost predicate Outside(ts: seq<Token>, word: string) {
    forall k :: 0 <= k < |ts| && Depth(ts, k) == 0 ==> ts[k].value != word
  }

  ghost predicate Closed(ts: seq<Token>) {
    Depth(ts, |ts|) == 0
  }

  lemma {:induction false} DepthConcat(a: seq<Token>, b: seq<Token>, k: nat)
    requires k <= |b|
    ensures Depth(a + b, |a| + k) == Depth(a, |a|) + Depth(b, k)
  {
    if k == 0 {
      DepthPrefix(a, b, |a|);
    } else {
      DepthConcat(a, b, k - 1);
    }
  }

  lemma {:induction false} DepthPrefix(a: seq<Token>, b: seq<Token>, k: nat)
    requires k <= |a|
    ensures Depth(a + b, k) == Depth(a, k)
  {
    if k > 0 {
      DepthPrefix(a, b, k - 1);
    }
  }

  lemma DepthSplit(ts: seq<Token>, k: nat)
    requires k <= |ts|
    ensures Depth(ts, k) == Depth(ts[..k], k)
    ensures Depth(ts, |ts|) == Depth(ts, k) + Depth(ts[k..], |ts| - k)
  {
    assert ts == ts[..k] + ts[k..];
    DepthPrefix(ts[..k], ts[k..], k);
    DepthConcat(ts[..k], ts[k..], |ts| - k);
  }

  /** Two closed sequences around a word that is no parenthesis. */
  lemma InfixCloses(ts: seq<Token>, k: nat)
    requires k < |ts| && ts[k].value != "(" && ts[k].value != ")" && Closed(ts[..k])
    ensures Depth(ts, k) == 0 && (Closed(ts) <==> Closed(ts[k + 1..]))
  {
    DepthSplit(ts, k);
    DepthSplit(ts, k + 1);
    assert Depth(ts, k + 1) == Depth(ts, k);
  }

  lemma {:induction false} UnaryCloses(ts: seq<Token>, e: Expr, table: SymbolTable)
    requires IsUnary(ts, e, table)
    ensures Closed(ts)
    decreases |ts|, 1
  {
    var n := |ts| - 1;
    if |ts| > 1 && ts[0].value == "!" && e.Not? && IsUnary(ts[1..], e.x, table) {
      UnaryCloses(ts[1..], e.x, table);
      InfixCloses(ts, 0);
    } else if |ts| > 2 && ts[0].value == "(" && ts[n].value == ")" && IsOr(ts[1..n], e, table) {
      OrCloses(ts[1..n], e, table);
      assert ts == ts[..1] + ts[1..n] + ts[n..];
      DepthConcat(ts[..1], ts[1..n], n - 1);
      DepthConcat(ts[..1] + ts[1..n], ts[n..], 1);
      assert Depth(ts[..1], 1) == 1 && Depth(ts[n..], 1) == -1;
    } else {
      assert Depth(ts, 1) == Depth(ts, 0);
    }
  }

  lemma {:induction false} ComparisonCloses(ts: seq<Token>, e: Expr, table: SymbolTable)
    requires IsComparison(ts, e, table)
    ensures Closed(ts)
    decreases |ts|, 2
  {
    if IsUnary(ts, e, table) {
      UnaryCloses(ts, e, table);
    } else {
      var k: nat, op, l, r :| k < |ts| && CompareOpOf(ts[k].value) == Some(op) && e == Compare(op, l, r)
        && IsUnary(ts[..k], l, table) && IsUnary(ts[k + 1..], r, table);
      UnaryCloses(ts[..k], l, table);
      UnaryCloses(ts[k + 1..], r, table);
      InfixCloses(ts, k);
    }
  }

  /** A conjunction closes its parentheses, and without a "&&" outside them it is a comparison. */
  lemma {:induction false} AndCloses(ts: seq<Token>, e: Expr, table: SymbolTable)
    requires IsAnd(ts, e, table)
    ensures Closed(ts) && (Outside(ts, "&&") ==> IsComparison(ts, e, table))
    decreases |ts|, 3
  {
    if IsComparison(ts, e, table) {
      ComparisonCloses(ts, e, table);
    } else {
      var k: nat, l, r :| k < |ts| && ts[k].value == "&&" && e == AndExpr(l, r)
        && IsAnd(ts[..k], l, table) && IsComparison(ts[k + 1..], r, table);
      AndCloses(ts[..k], l, table);
      ComparisonCloses(ts[k + 1..], r, table);
      InfixCloses(ts, k);
    }
  }

  lemma {:induction false} OrCloses(ts: seq<Token>, e: Expr, table: SymbolTable)
    requires IsOr(ts, e, table)
    ensures Closed(ts) && (Outside(ts, "||") ==> IsAnd(ts, e, table))
    decreases |ts|, 4
  {
    if IsAnd(ts, e, table) {
      AndCloses(ts, e, table);
    } else {
      var k: nat, l, r :| k < |ts| && ts[k].value == "||" && e == OrExpr(l, r)
        && IsOr(ts[..k], l, table) && IsAnd(ts[k + 1..], r, table);
      OrCloses(ts[..k], l, table);
      AndCloses(ts[k + 1..], r, table);
      InfixCloses(ts, k);
    }
  }

  lemma InfixTokensAt(l: seq<Token>, word: Token, r: seq<Token>)
    ensures var ts := l + [word] + r;
            |l| < |ts| && ts[|l|] == word && ts[..|l|] == l && ts[|l| + 1..] == r
  {
  }

  /** The last "||" outside parentheses is what an expression is an OR of, whatever stands before it. */
  lemma OrSplitsLast(l: seq<Token>, word: Token, r: seq<Token>, left: Expr, right: Expr, table: SymbolTable)
    requires word.value == "||" && Outside(r, "||")
    requires ParseExpr(l, table) == Some(left) && ParseExpr(r, table) == Some(right)
    ensures ParseExpr(l + [word] + r, table) == Some(OrExpr(left, right))
  {
    ParsesExactly(l, left, table);
    ParsesExactly(r, right, table);
    OrCloses(r, right, table);
    InfixTokensAt(l, word, r);
    ParsesExactly(l + [word] + r, OrExpr(left, right), table);
  }

  /** Where no "||" stands outside parentheses, the last "&&" is what it is an AND of. */
  lemma AndSplitsLast(l: seq<Token>, word: Token, r: seq<Token>, left: Expr, right: Expr, table: SymbolTable)
    requires word.value == "&&" && Outside(l, "||") && Outside(r, "||") && Outside(r, "&&")
    requires ParseExpr(l, table) == Some(left) && ParseExpr(r, table) == Some(right)
    ensures ParseExpr(l + [word] + r, table) == Some(AndExpr(left, right))
  {
    ParsesExactly(l, left, table);
    ParsesExactly(r, right, table);
    OrCloses(l, left, table);
    OrCloses(r, right, table);
    AndCloses(r, right, table);
    InfixTokensAt(l, word, r);
    ParsesExactly(l + [word] + r, AndExpr(left, right), table);
  }

  /** A comparison has unary operands, so a negation before it negates its left operand alone. */
  lemma ComparisonSplits(l: seq<Token>, word: Token, r: seq<Token>, left: Expr, right: Expr, table: SymbolTable)
    requires CompareOpOf(word.value).Some? && IsUnary(l, left, table) && IsUnary(r, right, table)
    ensures ParseExpr(l + [word] + r, table) == Some(Compare(CompareOpOf(word.value).value, left, right))
  {
    var ts, e := l + [word] + r, Compare(CompareOpOf(word.value).value, left, right);
    InfixTokensAt(l, word, r);
    assert IsComparison(ts, e, table);
    assert IsAnd(ts, e, table);
    ParsesExactly(ts, e, table);
  }

  // ----- words -----

  predicate OnlyOf(s: string, characters: string) {
    forall c :: c in s ==> c in characters
  }

  predicate IsUnsigned(digits: string) {
    || (digits != "" && OnlyOf(digits, "0123456789"))
    || (|digits| > 2 && ("0x" <= digits || "0X" <= digits) && OnlyOf(digits[2..], "0123456789abcdefABCDEF"))
  }

  /** Decimal digits, or hexadecimal ones behind their prefix, perhaps with a minus before them. */
  ghost predicate IsNumber(value: string) {
    IsUnsigned(value) || (value != "" && value[0] == '-' && IsUnsigned(value[1..]))
  }

  lemma DigitsOnly(s: string)
    ensures IsDigits(s) <==> OnlyOf(s, "0123456789")
    ensures IsHexDigits(s) <==> OnlyOf(s, "0123456789abcdefABCDEF")
  {
    forall c: char ensures '0' <= c <= '9' <==> c in "0123456789" {
    }
    forall c: char ensures ('0' <= c <= '9' || 'a' <= c <= 'f' || 'A' <= c <= 'F') <==> c in "0123456789abcdefABCDEF" {
    }
  }

  lemma LiteralIsNumber(value: string)
    ensures IsNumericLiteral(value) <==> IsNumber(value)
  {
    var digits := if value != "" && value[0] == '-' then value[1..] else value;
    DigitsOnly(digits);
    if |digits| > 2 {
      DigitsOnly(digits[2..]);
      PrefixTwo(digits);
      assert digits[1] in digits;
    }
    assert value != "" && value[0] == '-' ==> !IsUnsigned(value) by {
      assert value != "" ==> value[0] in value;
    }
  }

  lemma PrefixTwo(v: string)
    requires |v| >= 2
    ensures "0x" <= v || "0X" <= v <==> v[0] == '0' && (v[1] == 'x' || v[1] == 'X')
  {
  }

  /** A single word is a symbol of that name, and a constant when it is quoted, a state, or a number. */
  lemma WordMeaning(t: Token, table: SymbolTable)
    requires table.Valid() && t.value !in {"!", "(", ")"}
    ensures var r := ParseExpr([t], table);
            && r.Some? && r.value.Sym? && r.value.symbol.name == t.value
            && (r.value.symbol.constant <==> t.quoted || t.value in {"y", "m", "n"} || IsNumber(t.value))
  {
    var e := Sym(SymbolFromToken(t, table));
    LiteralIsNumber(t.value);
    assert IsUnary([t], e, table);
    assert IsComparison([t], e, table);
    assert IsAnd([t], e, table);
    ParsesExactly([t], e, table);
  }
}
