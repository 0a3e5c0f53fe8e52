/** The parentheses compiler.py puts around nested arithmetic keep the
    source's grouping: on arithmetic over names and integer constants, the
    lowered text can be read back to the tree it came from, up to the one
    distinction the tokens forget (`//` and `/` both become `/`). utils.py
    writes the same operands without parentheses, which loses the grouping
    (`Utils.GroupingLost`). */
module Grouping {

  import opened Results
  import opened Ast
  import opened Text
  import opened Lexicon
  import Compiler

  // ---------------------------------------------------------------------
  // The fragment and its normal form
  // ---------------------------------------------------------------------

  predicate NoSpaceOrParen(s: string) {
    forall k :: 0 <= k < |s| ==> s[k] != ' ' && s[k] != '(' && s[k] != ')'
  }

  /** Arithmetic over names and integer constants with handled operators. */
  predicate Arith(e: Expr) {
    match e
    case Name(id) => NoSpaceOrParen(id)
    case Constant(c) => c.CInt?
    case BinOp(l, op, r) => op != OtherBinOp && Arith(l) && Arith(r)
    case _ => false
  }

  /** The tree with floor division written as true division. */
  function Normalize(e: Expr): Expr {
    match e
    case BinOp(l, op, r) => BinOp(Normalize(l), if op == FloorDiv then Div else op, Normalize(r))
    case _ => e
  }

  // ---------------------------------------------------------------------
  // Reading lowered arithmetic back
  // ---------------------------------------------------------------------

  function IndexOf(s: string, c: char): (r: Option<nat>)
    ensures r.Some? ==> r.value < |s| && s[r.value] == c && c !in s[..r.value]
  {
    if s == [] then None
    else if s[0] == c then Some(0)
    else match IndexOf(s[1..], c)
      case None => None
      case Some(j) => assert s[..j + 1] == [s[0]] + s[1..][..j]; Some(j + 1)
  }

  /** The first occurrence of `c` is the one with no earlier `c`. */
  lemma {:induction false} IndexOfAt(s: string, c: char, p: nat)
    requires p < |s| && s[p] == c && c !in s[..p]
    ensures IndexOf(s, c) == Some(p)
    decreases p
  {
    if p > 0 {
      assert s[0] in s[..p];
      assert s[1..][p - 1] == c;
      assert s[1..][..p - 1] == s[1..p];
      assert forall k :: 0 <= k < p - 1 ==> s[1..p][k] == s[..p][k + 1];
      IndexOfAt(s[1..], c, p - 1);
    }
  }

  /** The position of the `)` that brings the nesting depth from `depth`
      down to zero, scanning from `i`. */
  function FindClose(s: string, i: nat, depth: nat): Option<nat>
    decreases |s| - i
  {
    if i >= |s| then None
    else if s[i] == '(' then FindClose(s, i + 1, depth + 1)
    else if s[i] == ')' then
      if depth == 1 then Some(i) else if depth == 0 then None else FindClose(s, i + 1, depth - 1)
    else FindClose(s, i + 1, depth)
  }

  /** The length of the first operand of `s`: a parenthesised group, or the
      text up to the first space. */
  function FirstOperandLength(s: string): Option<nat> {
    if |s| > 0 && s[0] == '(' then
      match FindClose(s, 0, 0)
      case None => None
      case Some(j) => Some(j + 1)
    else IndexOf(s, ' ')
  }

  function TokenOperator(t: string): Option<BinOperator> {
    if t == "+" then Some(Add)
    else if t == "-" then Some(Sub)
    else if t == "*" then Some(Mult)
    else if t == "/" then Some(Div)
    else if t == "mod" then Some(Mod)
    else if t == "^" then Some(Pow)
    else None
  }

  function ParseAtom(t: string): Option<Expr> {
    if |t| > 0 && t[0] == '_' then Some(Name(t[1..]))
    else match ReadInt(t)
      case None => None
      case Some(i) => Some(Constant(CInt(i)))
  }

  function ParseOperand(t: string): Option<Expr>
    decreases |t|, 0
  {
    if |t| >= 2 && t[0] == '(' && t[|t| - 1] == ')' then ParseArith(t[1..|t| - 1]) else ParseAtom(t)
  }

  /** Reads `left op right`, or an atom when there is no space. */
  function ParseArith(s: string): Option<Expr>
    decreases |s|, 1
  {
    if ' ' !in s then ParseAtom(s)
    else match FirstOperandLength(s)
      case None => None
      case Some(j) =>
        if j >= |s| || s[j] != ' ' then None
        else
          var rest := s[j + 1..];
          match IndexOf(rest, ' ')
          case None => None
          case Some(m) =>
            match TokenOperator(rest[..m])
            case None => None
            case Some(op) =>
              match ParseOperand(s[..j])
              case None => None
              case Some(l) =>
                match ParseOperand(rest[m + 1..])
                case None => None
                case Some(r) => Some(BinOp(l, op, r))
  }

  // ---------------------------------------------------------------------
  // Parenthesis depth
  // ---------------------------------------------------------------------

  function Depth(s: string): int {
    Count(s, '(') - Count(s, ')')
  }

  lemma DepthConcat(a: string, b: string)
    ensures Depth(a + b) == Depth(a) + Depth(b)
  {
    CountConcat(a, b, '(');
    CountConcat(a, b, ')');
  }

  /** Every prefix opens at least as many parentheses as it closes, and the
      whole text closes all it opens. */
  predicate Balanced(u: string) {
    Depth(u) == 0 && forall k :: 0 <= k <= |u| ==> Depth(u[..k]) >= 0
  }

  lemma NoParenBalanced(s: string)
    requires '(' !in s && ')' !in s
    ensures Balanced(s)
  {
    CountZero(s, '(');
    CountZero(s, ')');
    forall k | 0 <= k <= |s|
      ensures Depth(s[..k]) == 0
    {
      assert '(' !in s[..k] && ')' !in s[..k];
      CountZero(s[..k], '(');
      CountZero(s[..k], ')');
    }
  }

  lemma BalancedConcat(a: string, b: string)
    requires Balanced(a) && Balanced(b)
    ensures Balanced(a + b)
  {
    DepthConcat(a, b);
    forall k | 0 <= k <= |a + b|
      ensures Depth((a + b)[..k]) >= 0
    {
      if k <= |a| {
        assert (a + b)[..k] == a[..k];
      } else {
        assert (a + b)[..k] == a + b[..k - |a|];
        DepthConcat(a, b[..k - |a|]);
      }
    }
  }

  lemma BalancedWrap(u: string)
    requires Balanced(u)
    ensures Balanced("(" + u + ")")
  {
    var w := "(" + u + ")";
    DepthConcat("(", u);
    DepthConcat("(" + u, ")");
    assert Depth("(") == 1 && Depth(")") == -1;
    forall k | 0 <= k <= |w|
      ensures Depth(w[..k]) >= 0
    {
      if k == 0 {
        assert w[..k] == [];
      } else if k <= |u| + 1 {
        assert w[..k] == "(" + u[..k - 1];
        DepthConcat("(", u[..k - 1]);
      } else {
        assert w[..k] == w;
      }
    }
  }

  /** Scanning over a stretch `u` that never brings the depth below one
      only adds `u`'s depth. */
  lemma {:induction false} ScanOver(w: string, i: nat, d: nat, u: string)
    requires i + |u| <= |w| && w[i..i + |u|] == u
    requires forall k :: 0 <= k <= |u| ==> d + Depth(u[..k]) >= 1
    ensures d + Depth(u) >= 1
    ensures FindClose(w, i, d) == FindClose(w, i + |u|, d + Depth(u))
    decreases |u|
  {
    assert u[..|u|] == u;
    if u != [] {
      var c := u[0];
      var tail := u[1..];
      assert w[i] == c;
      assert u == [c] + tail;
      DepthConcat([c], tail);
      assert u[..1] == [c];
      var d' := d + Depth([c]);
      assert d' >= 1;
      forall k | 0 <= k <= |tail|
        ensures d' + Depth(tail[..k]) >= 1
      {
        assert u[..k + 1] == [c] + tail[..k];
        DepthConcat([c], tail[..k]);
      }
      assert w[i + 1..i + 1 + |tail|] == tail;
      ScanOver(w, i + 1, d', tail);
      if c == ')' {
        assert Depth([c]) == -1;
      } else if c == '(' {
        assert Depth([c]) == 1;
      } else {
        assert Depth([c]) == 0;
      }
    }
  }

  lemma GroupLength(u: string, v: string)
    requires Balanced(u)
    ensures FirstOperandLength("(" + u + ")" + v) == Some(|u| + 2)
  {
    var w := "(" + u + ")" + v;
    assert w[1..1 + |u|] == u;
    forall k | 0 <= k <= |u|
      ensures 1 + Depth(u[..k]) >= 1
    {
    }
    ScanOver(w, 1, 1, u);
    assert w[1 + |u|] == ')';
  }

  // ---------------------------------------------------------------------
  // The round trip
  // ---------------------------------------------------------------------

  lemma AtomText(e: Expr)
    requires Arith(e) && !e.BinOp?
    ensures Compiler.TranslateExpr(e).Ok?
    ensures var t := Compiler.TranslateExpr(e).value;
            && |t| > 0 && t[0] != '(' && ' ' !in t && '(' !in t && ')' !in t
            && ParseAtom(t) == Some(e)
  {
    match e
    case Name(id) =>
      assert ("_" + id)[1..] == id;
    case Constant(c) =>
      IntTextRoundTrip(c.i);
      IntTextChars(c.i);
  }

  lemma {:induction false} ArithText(e: Expr)
    requires Arith(e)
    ensures Compiler.TranslateExpr(e).Ok?
    ensures Balanced(Compiler.TranslateExpr(e).value)
    ensures e.BinOp? ==> ' ' in Compiler.TranslateExpr(e).value
    decreases e
  {
    if e.BinOp? {
      ArithText(e.left);
      ArithText(e.right);
      var l := Compiler.TranslateExpr(e.left).value;
      var r := Compiler.TranslateExpr(e.right).value;
      var tok := BinOpToken(e.op).value;
      var wl := Compiler.WrapOperand(e.left, l);
      var wr := Compiler.WrapOperand(e.right, r);
      if e.left.BinOp? { BalancedWrap(l); }
      if e.right.BinOp? { BalancedWrap(r); }
      NoParenBalanced(" ");
      NoParenBalanced(tok);
      BalancedConcat(wl, " ");
      BalancedConcat(wl + " ", tok);
      BalancedConcat(wl + " " + tok, " ");
      BalancedConcat(wl + " " + tok + " ", wr);
      assert (wl + " " + tok + " " + wr)[|wl|] == ' ';
    } else {
      AtomText(e);
      NoParenBalanced(Compiler.TranslateExpr(e).value);
    }
  }

  /** An operand reads back from its (possibly parenthesised) text. */
  lemma {:induction false} OperandRoundTrip(x: Expr)
    requires Arith(x)
    ensures Compiler.TranslateExpr(x).Ok?
    ensures ParseOperand(Compiler.WrapOperand(x, Compiler.TranslateExpr(x).value)) == Some(Normalize(x))
    decreases x, 1
  {
    ArithText(x);
    var t := Compiler.TranslateExpr(x).value;
    if x.BinOp? {
      var w := "(" + t + ")";
      assert w[1..|w| - 1] == t;
      ArithRoundTrip(x);
    } else {
      AtomText(x);
    }
  }

  /** The first operand of `left op right` ends where its own text ends. */
  lemma LeftOperandLength(x: Expr, rest: string)
    requires Arith(x) && |rest| > 0 && rest[0] == ' '
    ensures Compiler.TranslateExpr(x).Ok?
    ensures var w := Compiler.WrapOperand(x, Compiler.TranslateExpr(x).value);
            FirstOperandLength(w + rest) == Some(|w|)
  {
    ArithText(x);
    var t := Compiler.TranslateExpr(x).value;
    if x.BinOp? {
      GroupLength(t, rest);
    } else {
      AtomText(x);
      var s := t + rest;
      assert s[|t|] == ' ';
      assert s[..|t|] == t;
      IndexOfAt(s, ' ', |t|);
    }
  }

  /** The same, with the rest spelt as the token and the right operand. */
  lemma LeftOperandBeforeToken(x: Expr, tok: string, wr: string)
    requires Arith(x)
    ensures Compiler.TranslateExpr(x).Ok?
    ensures var w := Compiler.WrapOperand(x, Compiler.TranslateExpr(x).value);
            FirstOperandLength(w + " " + tok + " " + wr) == Some(|w|)
  {
    var rest := " " + tok + " " + wr;
    LeftOperandLength(x, rest);
    Regroup(Compiler.WrapOperand(x, Compiler.TranslateExpr(x).value), tok, wr);
  }

  lemma Regroup(w: string, tok: string, wr: string)
    ensures w + (" " + tok + " " + wr) == w + " " + tok + " " + wr
  {
  }

  /** Each handled operator's token is one word and names the operator back,
      except that `//` and `/` share a token. */
  lemma TokenRead(op: BinOperator)
    requires op != OtherBinOp
    ensures BinOpToken(op).Ok?
    ensures ' ' !in BinOpToken(op).value
    ensures TokenOperator(BinOpToken(op).value) == Some(if op == FloorDiv then Div else op)
  {
    match op {
      case Add =>
      case Sub =>
      case Mult =>
      case Div =>
      case FloorDiv =>
      case Mod =>
      case Pow =>
    }
  }

  /** `left token right` reads back once the first operand's extent is known
      and both operands read back on their own. */
  lemma Assemble(wl: string, tok: string, wr: string, l: Expr, op: BinOperator, r: Expr)
    requires FirstOperandLength(wl + " " + tok + " " + wr) == Some(|wl|)
    requires ParseOperand(wl) == Some(l) && ParseOperand(wr) == Some(r)
    requires ' ' !in tok && TokenOperator(tok) == Some(op)
    ensures ParseArith(wl + " " + tok + " " + wr) == Some(BinOp(l, op, r))
  {
    Pieces(wl, tok, wr);
    ParseArithSplit(wl + " " + tok + " " + wr, |wl|, |tok|, l, op, r);
  }

  /** Where the pieces of `left token right` sit in the text. */
  lemma Pieces(wl: string, tok: string, wr: string)
    requires ' ' !in tok
    ensures var s := wl + " " + tok + " " + wr;
            && |wl| < |s| && s[|wl|] == ' ' && ' ' in s && s[..|wl|] == wl
            && IndexOf(s[|wl| + 1..], ' ') == Some(|tok|)
            && s[|wl| + 1..][..|tok|] == tok
            && s[|wl| + 1..][|tok| + 1..] == wr
  {
    var s := wl + " " + tok + " " + wr;
    var rest := s[|wl| + 1..];
    assert s[|wl|] == ' ';
    assert rest == tok + " " + wr;
    assert s[..|wl|] == wl;
    assert rest[|tok|] == ' ' && rest[..|tok|] == tok;
    IndexOfAt(rest, ' ', |tok|);
    assert rest[|tok| + 1..] == wr;
  }

  /** How `ParseArith` reads `left op right` once its pieces are found. */
  lemma ParseArithSplit(s: string, j: nat, m: nat, l: Expr, op: BinOperator, r: Expr)
    requires ' ' in s && FirstOperandLength(s) == Some(j) && j < |s| && s[j] == ' '
    requires IndexOf(s[j + 1..], ' ') == Some(m)
    requires TokenOperator(s[j + 1..][..m]) == Some(op)
    requires ParseOperand(s[..j]) == Some(l)
    requires ParseOperand(s[j + 1..][m + 1..]) == Some(r)
    ensures ParseArith(s) == Some(BinOp(l, op, r))
  {
  }

  /** `left token right` reads back once each operand reads back from its
      own (possibly parenthesised) text. */
  lemma BinOpRoundTrip(l: Expr, op: BinOperator, r: Expr, tl: string, tr: string)
    requires Arith(l) && Arith(r) && op != OtherBinOp
    requires Compiler.TranslateExpr(l) == Ok(tl) && Compiler.TranslateExpr(r) == Ok(tr)
    requires ParseOperand(Compiler.WrapOperand(l, tl)) == Some(Normalize(l))
    requires ParseOperand(Compiler.WrapOperand(r, tr)) == Some(Normalize(r))
    ensures BinOpToken(op).Ok?
    ensures ParseArith(Compiler.WrapOperand(l, tl) + " " + BinOpToken(op).value + " " + Compiler.WrapOperand(r, tr))
            == Some(BinOp(Normalize(l), if op == FloorDiv then Div else op, Normalize(r)))
  {
    var tok := BinOpToken(op).value;
    var wr := Compiler.WrapOperand(r, tr);
    LeftOperandBeforeToken(l, tok, wr);
    TokenRead(op);
    Assemble(Compiler.WrapOperand(l, tl), tok, wr, Normalize(l), if op == FloorDiv then Div else op, Normalize(r));
  }

  /** Lowered arithmetic reads back to its tree, with `//` as `/`. */
  lemma {:induction false} ArithRoundTrip(e: Expr)
    requires Arith(e)
    ensures Compiler.TranslateExpr(e).Ok?
    ensures ParseArith(Compiler.TranslateExpr(e).value) == Some(Normalize(e))
    decreases e, 0
  {
    if e.BinOp? {
      OperandRoundTrip(e.left);
      OperandRoundTrip(e.right);
      var tl := Compiler.TranslateExpr(e.left).value;
      var tr := Compiler.TranslateExpr(e.right).value;
      BinOpRoundTrip(e.left, e.op, e.right, tl, tr);
      Compiler.BinOpLowering(e.left, e.op, e.right);
    } else {
      AtomText(e);
    }
  }

  /** Consequently two arithmetic trees with the same lowered text differ at
      most in `//` against `/`. */
  lemma CompilerKeepsGrouping(e1: Expr, e2: Expr)
    requires Arith(e1) && Arith(e2)
    requires Compiler.TranslateExpr(e1) == Compiler.TranslateExpr(e2)
    ensures Normalize(e1) == Normalize(e2)
  {
    ArithRoundTrip(e1);
    ArithRoundTrip(e2);
  }
}
