/**
  RPN: evaluation of a reverse Polish expression of single-digit operands.

  The expression is split at whitespace into tokens. Every token must be one
  character: a digit pushes its value on a stack; one of `+ - * /` pops the
  right operand and then the left one and pushes the result; anything else is
  an error. The result is the single value left on the stack.
 */
module RPN {
  import opened Wrappers
  import opened Chars

  /** The `std::runtime_error` messages `evaluate` and `applyOp` can throw. */
  datatype Error =
    | EmptyExpression      // "empty expression"
    | InvalidTokenLength   // "invalid token length"
    | NotEnoughOperands    // "not enough operands"
    | DivisionByZero       // "division by zero"
    | UnknownOperator      // "unknown operator"
    | InvalidCharacter     // "invalid character"
    | LeftoverValues       // "leftover values"

  // ---------------------------------------------------------------------------
  // Operators
  // ---------------------------------------------------------------------------

  /** `isOperator`: the four arithmetic operator characters. */
  function IsOperator(c: char): (b: bool)
    ensures b ==> !IsDigit(c) && !IsSpace(c) && Utf8Length(c) == 1
  {
    c == '+' || c == '-' || c == '*' || c == '/'
  }

  function Abs(x: int): nat {
    if x < 0 then -x else x
  }

  /**
    C++ integer division `a / b`: the quotient truncated toward zero, so the
    remainder `a - q * b` is smaller than `b` in magnitude and has the sign
    of `a` (Dafny's own `/` is Euclidean instead).
   */
  function TruncDiv(a: int, b: int): int
    requires b != 0
  {
    if a >= 0 then
      (if b > 0 then a / b else -(a / -b))
    else
      (if b > 0 then -(-a / b) else -a / -b)
  }

  /** The remainder left by `TruncDiv`: below `b` in magnitude, with the sign of `a`. */
  lemma TruncDivRemainder(a: int, b: int)
    requires b != 0
    ensures Abs(a - TruncDiv(a, b) * b) < Abs(b)
    ensures a >= 0 ==> a - TruncDiv(a, b) * b >= 0
    ensures a <= 0 ==> a - TruncDiv(a, b) * b <= 0
  {
  }

  /** The truncating quotient is the only one with those remainder properties. */
  lemma TruncDivUnique(a: int, b: int, q: int)
    requires b != 0
    requires Abs(a - q * b) < Abs(b)
    requires a >= 0 ==> a - q * b >= 0
    requires a <= 0 ==> a - q * b <= 0
    ensures q == TruncDiv(a, b)
  {
    TruncDivRemainder(a, b);
    var t := TruncDiv(a, b);
    var r1, r2 := a - t * b, a - q * b;
    RemaindersClose(a, b, r1, r2);
    DifferenceOfProducts(q, t, b);
    if q != t {
      AbsProduct(q - t, b);
    }
  }

  lemma DifferenceOfProducts(q: int, t: int, b: int)
    ensures q * b - t * b == (q - t) * b
  {
  }

  /** Two remainders with the sign of `a`, both below `b` in magnitude, differ by less than `b`. */
  lemma RemaindersClose(a: int, b: int, r1: int, r2: int)
    requires Abs(r1) < Abs(b) && Abs(r2) < Abs(b)
    requires a >= 0 ==> r1 >= 0 && r2 >= 0
    requires a <= 0 ==> r1 <= 0 && r2 <= 0
    ensures Abs(r1 - r2) < Abs(b)
  {
  }

  lemma AbsProduct(d: int, b: int)
    requires d != 0
    ensures Abs(d * b) >= Abs(b)
  {
    if d > 0 {
      if b >= 0 {
        assert d * b >= b;
      } else {
        assert d * b <= b;
      }
    } else {
      if b >= 0 {
        assert d * b <= -b;
      } else {
        assert d * b >= -b;
      }
    }
  }

  /** Truncation is symmetric: negating the dividend negates the quotient. */
  lemma TruncDivNegate(a: int, b: int)
    requires b != 0
    ensures TruncDiv(-a, b) == -TruncDiv(a, b)
  {
    var q := TruncDiv(a, b);
    TruncDivRemainder(a, b);
    assert -a - (-q) * b == -(a - q * b);
    TruncDivUnique(-a, b, -q);
  }

  /**
    `applyOp(a, b, op)`: `a` is the left operand (popped second) and `b` the
    right one. Division by zero and a character that is not an operator are
    errors.
   */
  function ApplyOp(a: int, b: int, op: char): (r: Result<int, Error>)
    ensures r.Failure? <==> !IsOperator(op) || (op == '/' && b == 0)
    ensures r.Failure? ==> r.error == if IsOperator(op) then DivisionByZero else UnknownOperator
    ensures op == '+' ==> r == Success(a + b)
    ensures op == '-' ==> r == Success(a - b)
    ensures op == '*' ==> r == Success(a * b)
    ensures op == '/' && b != 0 ==> r == Success(TruncDiv(a, b))
  {
    match op
    case '+' => Success(a + b)
    case '-' => Success(a - b)
    case '*' => Success(a * b)
    case '/' => if b == 0 then Failure(DivisionByZero) else Success(TruncDiv(a, b))
    case _ => Failure(UnknownOperator)
  }

  // ---------------------------------------------------------------------------
  // Tokens
  // ---------------------------------------------------------------------------

  /**
    `expr.c_str()` read as a C string: the text up to, and not including, the
    first NUL character.
   */
  function CString(s: string): (c: string)
    ensures c <= s && '\0' !in c
    ensures |c| < |s| ==> s[|c|] == '\0'
  {
    if |s| == 0 || s[0] == '\0' then "" else [s[0]] + CString(s[1..])
  }

  /** A text without NUL is read whole. */
  lemma CStringWhole(s: string)
    requires '\0' !in s
    ensures CString(s) == s
  {
  }

  /** A token as `operator>>` extracts it: non-empty, no whitespace. */
  predicate Word(t: string) {
    |t| > 0 && forall i :: 0 <= i < |t| ==> !IsSpace(t[i])
  }

  /** The length of the run of non-whitespace characters that starts `s`. */
  function WordLength(s: string): (n: nat)
    ensures n <= |s|
    ensures forall i :: 0 <= i < n ==> !IsSpace(s[i])
    ensures n < |s| ==> IsSpace(s[n])
  {
    if |s| == 0 || IsSpace(s[0]) then 0 else 1 + WordLength(s[1..])
  }

  /**
    The tokens `while (iss >> tok)` extracts from `s`, in order: the maximal
    runs of non-whitespace characters.
   */
  function Tokens(s: string): (ts: seq<string>)
    ensures forall k :: 0 <= k < |ts| ==> Word(ts[k])
    decreases |s|
  {
    if |s| == 0 then []
    else if IsSpace(s[0]) then Tokens(s[1..])
    else
      var n := WordLength(s);
      [s[..n]] + Tokens(s[n..])
  }

  /** The tokens separated by single spaces. */
  function Unwords(ts: seq<string>): string {
    if |ts| == 0 then ""
    else if |ts| == 1 then ts[0]
    else ts[0] + " " + Unwords(ts[1..])
  }

  /** A word followed by whitespace or nothing is read up to its end. */
  lemma {:induction false} WordLengthOfWord(t: string, u: string)
    requires Word(t) && (|u| == 0 || IsSpace(u[0]))
    ensures WordLength(t + u) == |t|
    decreases |t|
  {
    if |t| > 1 {
      assert (t + u)[1..] == t[1..] + u;
      WordLengthOfWord(t[1..], u);
    } else {
      assert (t + u)[1..] == u;
    }
  }

  /** Splitting words joined by spaces gives the words back. */
  lemma {:induction false} TokensOfUnwords(ts: seq<string>)
    requires forall k :: 0 <= k < |ts| ==> Word(ts[k])
    ensures Tokens(Unwords(ts)) == ts
    decreases |ts|
  {
    if |ts| == 1 {
      var t := ts[0];
      WordLengthOfWord(t, "");
      assert t + "" == t && t[..|t|] == t && t[|t|..] == "";
    } else if |ts| > 1 {
      var t, u := ts[0], Unwords(ts[1..]);
      var s := t + " " + u;
      assert s == t + (" " + u);
      WordLengthOfWord(t, " " + u);
      assert s[..|t|] == t && s[|t|..] == " " + u && (" " + u)[1..] == u;
      TokensOfUnwords(ts[1..]);
    }
  }

  /** Whitespace after a text does not change the length of its leading word. */
  lemma {:induction false} WordLengthPrefix(s: string, v: string)
    requires |v| > 0 && IsSpace(v[0])
    ensures WordLength(s + v) == WordLength(s)
    decreases |s|
  {
    if |s| == 0 {
      assert s + v == v;
    } else if !IsSpace(s[0]) {
      assert (s + v)[0] == s[0] && (s + v)[1..] == s[1..] + v;
      WordLengthPrefix(s[1..], v);
    } else {
      assert (s + v)[0] == s[0];
    }
  }

  /**
    A whitespace character separates the tokens of the texts on either side:
    together with `TokensOfBlank` this fixes the tokens of every text.
   */
  lemma TokensSplit(s: string, c: char, t: string)
    requires IsSpace(c)
    ensures Tokens(s + [c] + t) == Tokens(s) + Tokens(t)
  {
    var v := [c] + t;
    assert s + [c] + t == s + v && v[1..] == t;
    TokensBeforeSpace(s, v);
  }

  lemma {:induction false} TokensBeforeSpace(s: string, v: string)
    requires |v| > 0 && IsSpace(v[0])
    ensures Tokens(s + v) == Tokens(s) + Tokens(v)
    decreases |s|
  {
    if |s| == 0 {
      assert s + v == v;
    } else if IsSpace(s[0]) {
      assert (s + v)[0] == s[0] && (s + v)[1..] == s[1..] + v;
      TokensBeforeSpace(s[1..], v);
    } else {
      LeadingWord(s, v);
      TokensBeforeSpace(s[WordLength(s)..], v);
    }
  }

  /** A text that starts with a word, followed by whitespace: the word is its first token. */
  lemma LeadingWord(s: string, v: string)
    requires |s| > 0 && !IsSpace(s[0]) && |v| > 0 && IsSpace(v[0])
    ensures WordLength(s) > 0
    ensures Tokens(s + v) == [s[..WordLength(s)]] + Tokens(s[WordLength(s)..] + v)
  {
    var n := WordLength(s);
    WordLengthPrefix(s, v);
    assert (s + v)[0] == s[0];
    assert (s + v)[..n] == s[..n];
    assert (s + v)[n..] == s[n..] + v;
  }

  /** A string of whitespace only has no tokens. */
  lemma {:induction false} TokensOfBlank(s: string)
    requires forall i :: 0 <= i < |s| ==> IsSpace(s[i])
    ensures Tokens(s) == []
    decreases |s|
  {
    if |s| > 0 {
      TokensOfBlank(s[1..]);
    }
  }

  // ---------------------------------------------------------------------------
  // Evaluation
  // ---------------------------------------------------------------------------

  /**
    One iteration of the token loop on the stack `st` (top at the end): a
    token of other than one byte fails; a digit pushes its value; an operator
    replaces the two top values with its result; any other byte fails.
   */
  function Step(st: seq<int>, tok: string): (r: Result<seq<int>, Error>)
    ensures ByteLength(tok) != 1 ==> r == Failure(InvalidTokenLength)
    ensures |tok| == 1 && IsDigit(tok[0]) ==> r == Success(st + [DigitValue(tok[0])])
    ensures |tok| == 1 && IsOperator(tok[0]) && |st| < 2 ==> r == Failure(NotEnoughOperands)
    ensures ByteLength(tok) == 1 && !IsDigit(tok[0]) && !IsOperator(tok[0]) ==>
              r == Failure(InvalidCharacter)
    ensures |tok| == 1 && IsOperator(tok[0]) && |st| >= 2 ==>
              match ApplyOp(st[|st| - 2], st[|st| - 1], tok[0])
              case Success(v) => r == Success(st[..|st| - 2] + [v])
              case Failure(e) => r == Failure(e)
  {
    if ByteLength(tok) != 1 then Failure(InvalidTokenLength)
    else
      var c := tok[0];
      if IsDigit(c) then Success(st + [DigitValue(c)])
      else if IsOperator(c) then
        if |st| < 2 then Failure(NotEnoughOperands)
        else
          var b, a := st[|st| - 1], st[|st| - 2];
          match ApplyOp(a, b, c)
          case Success(v) => Success(st[..|st| - 2] + [v])
          case Failure(e) => Failure(e)
      else Failure(InvalidCharacter)
  }

  /**
    The token loop: the tokens applied in order, stopping at the first error.
    No token yields the errors that belong to the whole expression.
   */
  function Run(toks: seq<string>, st: seq<int>): (r: Result<seq<int>, Error>)
    ensures r.Failure? ==> r.error != EmptyExpression && r.error != LeftoverValues
    decreases |toks|
  {
    if |toks| == 0 then Success(st)
    else
      match Step(st, toks[0])
      case Failure(e) => Failure(e)
      case Success(st') => Run(toks[1..], st')
  }

  /**
    `evaluate(expr)` as a function of the expression text: the emptiness test
    sees the whole string, the tokens come from its C-string prefix.
   */
  function Evaluation(expr: string): (r: Result<int, Error>)
    ensures r == Failure(EmptyExpression) <==> |expr| == 0
    ensures r.Success? ==> Run(Tokens(CString(expr)), []) == Success([r.value])
    ensures |expr| > 0 && Run(Tokens(CString(expr)), []).Success? &&
            |Run(Tokens(CString(expr)), []).value| == 1 ==>
              r == Success(Run(Tokens(CString(expr)), []).value[0])
    ensures |expr| > 0 && Run(Tokens(CString(expr)), []).Failure? ==>
              r == Failure(Run(Tokens(CString(expr)), []).error)
    ensures r == Failure(LeftoverValues) <==>
              |expr| > 0 && Run(Tokens(CString(expr)), []).Success? &&
              |Run(Tokens(CString(expr)), []).value| != 1
  {
    if |expr| == 0 then Failure(EmptyExpression)
    else
      match Run(Tokens(CString(expr)), [])
      case Failure(e) => Failure(e)
      case Success(st) =>
        if |st| != 1 then Failure(LeftoverValues)
        else
          assert st == [st[0]];
          Success(st[0])
  }

  /**
    `evaluate`: reads the tokens in turn, keeping the operand stack in a
    sequence; throws on an empty expression, a bad token, a missing operand,
    a division by zero, and when other than one value is left at the end.
   */
  method Evaluate(expr: string) returns (r: Result<int, Error>)
    ensures r == Evaluation(expr)
  {
    if |expr| == 0 {
      return Failure(EmptyExpression);
    }
    var toks := Tokens(CString(expr));
    var st: seq<int> := [];
    for i := 0 to |toks|
      invariant Run(toks, []) == Run(toks[i..], st)
    {
      var tok := toks[i];
      ghost var st0 := st;
      assert toks[i..][0] == tok && toks[i..][1..] == toks[i + 1..];
      if ByteLength(tok) != 1 {
        return Failure(InvalidTokenLength);
      }
      var c := tok[0];
      if IsDigit(c) {
        st := st + [DigitValue(c)];
      } else if IsOperator(c) {
        if |st| < 2 {
          return Failure(NotEnoughOperands);
        }
        var b := st[|st| - 1];
        st := st[..|st| - 1];
        var a := st[|st| - 1];
        st := st[..|st| - 1];
        var v := ApplyOp(a, b, c);
        if v.Failure? {
          return Failure(v.error);
        }
        st := st + [v.value];
        assert st == st0[..|st0| - 2] + [v.value];
      } else {
        return Failure(InvalidCharacter);
      }
    }
    if |st| != 1 {
      return Failure(LeftoverValues);
    }
    return Success(st[0]);
  }

  // ---------------------------------------------------------------------------
  // Properties
  // ---------------------------------------------------------------------------

  /** How the stack depth changes over a run: +1 per digit, -1 per operator. */
  function Balance(toks: seq<string>): int {
    if |toks| == 0 then 0
    else (if |toks[0]| == 1 && IsDigit(toks[0][0]) then 1 else -1) + Balance(toks[1..])
  }

  /** A successful run changes the stack depth by the balance of its tokens. */
  lemma {:induction false} RunDepth(toks: seq<string>, st: seq<int>)
    requires Run(toks, st).Success?
    ensures |Run(toks, st).value| == |st| + Balance(toks)
    decreases |toks|
  {
    if |toks| > 0 {
      var st' := Step(st, toks[0]).value;
      RunDepth(toks[1..], st');
    }
  }

  /** An accepted expression has one more operand than operators. */
  lemma EvaluationBalance(expr: string)
    requires Evaluation(expr).Success?
    ensures Balance(Tokens(CString(expr))) == 1
  {
    RunDepth(Tokens(CString(expr)), []);
  }

  /** A non-empty expression of whitespace only leaves no value on the stack. */
  lemma BlankExpression(expr: string)
    requires |expr| > 0 && forall i :: 0 <= i < |expr| ==> IsSpace(expr[i])
    ensures Evaluation(expr) == Failure(LeftoverValues)
  {
    CStringWhole(expr);
    TokensOfBlank(expr);
  }

  /** A non-ASCII character is a token of more than one byte. */
  lemma MultiByteToken()
    ensures Evaluation("\U{00E9}") == Failure(InvalidTokenLength)
  {
    var t := "\U{00E9}";
    assert t[1..] == "" && t[..1] == t;
    assert Tokens(t) == [t];
  }

  /** A NUL ends the expression: what follows it is never read. */
  lemma NulEndsExpression()
    ensures Evaluation("1\0") == Success(1)
    ensures Evaluation("1\0 +") == Success(1)
  {
    assert CString("1\0") == "1";
    assert CString("1\0 +") == "1";
    assert Tokens("1") == ["1"];
  }

  /** An expression that starts with NUL is not empty, but has no tokens. */
  lemma NulOnlyExpression()
    ensures Evaluation("\0") == Failure(LeftoverValues)
  {
    assert CString("\0") == "";
  }

  /** An arithmetic expression tree over single digits. */
  datatype Expr = Lit(d: int) | Bin(op: char, left: Expr, right: Expr)

  predicate WellFormed(e: Expr) {
    match e
    case Lit(d) => 0 <= d <= 9
    case Bin(op, l, r) => IsOperator(op) && WellFormed(l) && WellFormed(r)
  }

  /** The tree written in postfix: operands first, then the operator. */
  function Postfix(e: Expr): (ts: seq<string>)
    requires WellFormed(e)
    ensures |ts| > 0
    ensures forall k :: 0 <= k < |ts| ==> |ts[k]| == 1 && (IsDigit(ts[k][0]) || IsOperator(ts[k][0]))
  {
    match e
    case Lit(d) => [[DigitChar(d)]]
    case Bin(op, l, r) => Postfix(l) + Postfix(r) + [[op]]
  }

  /** The value of the tree, left operand before right, failing as `applyOp` does. */
  function Value(e: Expr): Result<int, Error>
    requires WellFormed(e)
  {
    match e
    case Lit(d) => Success(d)
    case Bin(op, l, r) =>
      match Value(l)
      case Failure(err) => Failure(err)
      case Success(x) =>
        match Value(r)
        case Failure(err) => Failure(err)
        case Success(y) => ApplyOp(x, y, op)
  }

  /** Running the postfix form of a tree pushes its value, or fails with its error. */
  lemma {:induction false} RunPostfix(e: Expr, rest: seq<string>, st: seq<int>)
    requires WellFormed(e)
    ensures Run(Postfix(e) + rest, st) ==
            match Value(e)
            case Success(v) => Run(rest, st + [v])
            case Failure(err) => Failure(err)
    decreases e
  {
    match e
    case Lit(d) =>
      var toks := Postfix(e) + rest;
      assert toks[0] == [DigitChar(d)] && toks[1..] == rest;
    case Bin(op, l, r) =>
      var tail := Postfix(r) + ([[op]] + rest);
      assert Postfix(e) + rest == Postfix(l) + tail;
      RunPostfix(l, tail, st);
      if Value(l).Success? {
        var x := Value(l).value;
        RunPostfix(r, [[op]] + rest, st + [x]);
        if Value(r).Success? {
          var y := Value(r).value;
          var st2 := st + [x] + [y];
          assert st + [x] + [y] == st + [x, y];
          assert st2[..|st2| - 2] == st && st2[|st2| - 2] == x && st2[|st2| - 1] == y;
          assert ([[op]] + rest)[0] == [op] && ([[op]] + rest)[1..] == rest;
        }
      }
  }

  /** Evaluating the postfix text of a tree gives the tree's value. */
  lemma EvaluatePostfix(e: Expr)
    requires WellFormed(e)
    ensures Evaluation(Unwords(Postfix(e))) == Value(e)
  {
    PostfixText(e);
    RunPostfix(e, [], []);
    assert Postfix(e) + [] == Postfix(e);
  }

  /** The postfix text of a tree is not empty and reads back as its postfix tokens. */
  lemma PostfixText(e: Expr)
    requires WellFormed(e)
    ensures |Unwords(Postfix(e))| > 0 && Tokens(CString(Unwords(Postfix(e)))) == Postfix(e)
  {
    var ts := Postfix(e);
    forall k | 0 <= k < |ts| ensures Word(ts[k]) {
    }
    TokensOfUnwords(ts);
    UnwordsNonEmpty(ts);
    UnwordsWithoutNul(ts);
    CStringWhole(Unwords(ts));
  }

  /** Joining words that hold no NUL with spaces gives a text without NUL. */
  lemma {:induction false} UnwordsWithoutNul(ts: seq<string>)
    requires forall k :: 0 <= k < |ts| ==> '\0' !in ts[k]
    ensures '\0' !in Unwords(ts)
    decreases |ts|
  {
    if |ts| > 1 {
      UnwordsWithoutNul(ts[1..]);
    }
  }

  lemma UnwordsNonEmpty(ts: seq<string>)
    requires |ts| > 0 && |ts[0]| > 0
    ensures |Unwords(ts)| > 0
  {
  }
}
