/** The `translate` rules of utils.py, the older variant that the command
    line entry point uses. It shares its tokens, constants and several
    statement pieces with compiler.py (module `Lexicon`) and differs from it
    in these rules: `BinOp` adds no parentheses; `Subscript`, `JoinedStr`,
    `FormattedValue`, `Break`, `Continue` and `async def` have no handler;
    `Dict` has one that emits nothing; assignments accept only name targets;
    the fatal branches raise `RuntimeError`; parameters are joined by `","`. */
module Utils {

  import opened Results
  import opened Ast
  import opened Text
  import opened Lexicon
  import Layout

  // ---------------------------------------------------------------------
  // Expressions
  // ---------------------------------------------------------------------

  function TranslateAll(es: seq<Expr>): Result<seq<string>>
    decreases es
  {
    if es == [] then Ok([])
    else
      var head :- TranslateExpr(es[0]);
      var tail :- TranslateAll(es[1..]);
      Ok([head] + tail)
  }

  function TranslateExpr(e: Expr): Result<string>
    decreases e
  {
    match e
    case Constant(c) => Ok(LowerConstant(c))
    case FormattedValue(_, _, _) => Err(UnknownNode)
    case JoinedStr(_) => Err(UnknownNode)
    case List(elts) =>
      var parts :- TranslateAll(elts);
      Ok("[" + Join(", ", parts) + "]")
    case Tuple(elts) =>
      var parts :- TranslateAll(elts);
      Ok("[" + Join(", ", parts) + "]")
    case Name(id) => Ok("_" + id)
    case UnaryOp(op, operand) =>
      var token :- UnaryOpToken(op);
      var x :- TranslateExpr(operand);
      Ok(token + x)
    case BinOp(left, op, right) =>
      var l :- TranslateExpr(left);
      var token :- BinOpToken(op);
      var r :- TranslateExpr(right);
      Ok(l + " " + token + " " + r)
    case BoolOp(op, operands) =>
      var parts :- TranslateAll(operands);
      Ok(Join(BoolOpToken(op), parts))
    case Compare(first, comparisons) =>
      if |comparisons| != 1 then Ok("")
      else
        var l :- TranslateExpr(first);
        var token :- CmpOpToken(comparisons[0].op);
        var r :- TranslateExpr(comparisons[0].comparator);
        Ok(l + " " + token + " " + r)
    case Call(func, args, keywords) =>
      if |keywords| != 0 then Ok("")
      else if HasStarred(args) then Ok("")
      else if func.Name? then
        if |args| == 1 then
          var a :- TranslateExpr(args[0]);
          Ok(a + " call " + func.id)
        else
          var parts :- TranslateAll(args);
          Ok("[" + Join(", ", parts) + "] call " + func.id)
      else if func.Attribute? then
        if |args| == 1 then
          var f :- TranslateExpr(func);
          var a :- TranslateExpr(args[0]);
          Ok(f + " " + a)
        else
          var parts :- TranslateAll(args);
          var f :- TranslateExpr(func);
          Ok(f + " [" + Join(", ", parts) + "]")
      else Ok("")
    case IfExp(test, body, orelse) =>
      var c :- TranslateExpr(test);
      var b :- TranslateExpr(body);
      var o :- TranslateExpr(orelse);
      Ok("if (" + c + ") then {" + b + "} else {" + o + "};")
    case Attribute(receiver, attr) =>
      if receiver.Name? && receiver.id == "GLOBAL" then Ok(attr)
      else
        var v :- TranslateExpr(receiver);
        Ok(v + " " + attr)
    case Subscript(_, _) => Err(UnknownNode)
    case Starred(_) => Err(UnknownNode)
    case Slice(_, _, _) => Err(UnknownNode)
    case Dict(_, _) => Ok("")
    case OtherExpr => Err(UnknownNode)
  }

  // ---------------------------------------------------------------------
  // Statements
  // ---------------------------------------------------------------------

  function AssignPieces(targets: seq<Expr>, rhs: string): (r: seq<string>)
    requires AllNames(targets)
    ensures |r| == |targets|
    ensures forall k :: 0 <= k < |targets| ==> r[k] == "_" + targets[k].id + " = " + rhs + ";"
  {
    if targets == [] then [] else ["_" + targets[0].id + " = " + rhs + ";"] + AssignPieces(targets[1..], rhs)
  }

  /** The outcome of the `Assign` handler's loop over `targets`, where `rhs`
      is the outcome of translating the right-hand side: the loop gives up
      with `""` at the first target that is not a name, and translates the
      right-hand side (which may raise) only once it has accepted one. */
  function LowerAssign(targets: seq<Expr>, rhs: Result<string>): Result<string> {
    if targets == [] || !targets[0].Name? then Ok("")
    else if rhs.Err? then Err(rhs.fault)
    else if !AllNames(targets) then Ok("")
    else Ok(Join("", AssignPieces(targets, rhs.value)))
  }

  function TranslateStmt(s: Stmt): Result<string>
    decreases s
  {
    match s
    case ExprStmt(value) =>
      var v :- TranslateExpr(value);
      Ok(v + ";")
    case Assign(targets, rhs) => LowerAssign(targets, TranslateExpr(rhs))
    case AnnAssign(_, _, value) => if value.None? then Ok("") else Err(MissingAttribute)
    case AugAssign(target, op, value) =>
      if !target.Name? then Err(RuntimeFailure)
      else
        var token :- BinOpToken(op);
        var v :- TranslateExpr(value);
        Ok("_" + target.id + " = _" + target.id + " " + token + " " + v + ";")
    case Delete(targets) => Ok(LowerDelete(targets))
    case Pass => Ok("")
    case If(test, body, orelse) =>
      var c :- TranslateExpr(test);
      var b :- TranslateBody(body);
      if |orelse| != 0 then
        var o :- TranslateBody(orelse);
        Ok("if (" + c + ") then {" + b + "} else {" + o + "};")
      else Ok("if (" + c + ") then {" + b + "};")
    case For(target, iter, body, orelse) =>
      if |orelse| != 0 then Ok("")
      else if IsRangeCall(iter) then
        if !AllConstantArgs(iter.args) then Err(RuntimeFailure)
        else if !target.Name? then Ok("")
        else
          var bounds := RangeBounds(iter.args);
          var b :- TranslateBody(body);
          Ok("for \"_" + target.id + "\" from " + bounds.0 + " to " + bounds.1 + " step " + bounds.2
             + " do{" + b + "};")
      else if !target.Name? then Ok("")
      else
        var b :- TranslateBody(body);
        var it :- TranslateExpr(iter);
        Ok("{" + ForEachBinding(target.id) + ";" + b + "} forEach " + it + ";")
    case While(test, body, orelse) =>
      if |orelse| != 0 then Ok("")
      else
        var c :- TranslateExpr(test);
        var b :- TranslateBody(body);
        Ok("while {" + c + "} do {" + b + "};")
    case Break => Err(UnknownNode)
    case Continue => Err(UnknownNode)
    case FunctionDef(name, params, body, decorators, isAsync) =>
      if isAsync then Err(UnknownNode)
      else if |params.kwonlyargs| != 0 || |params.defaults| != 0 then Ok("")
      else if |decorators| != 0 then Ok("")
      else
        var b :- TranslateBody(body);
        Ok(name + " = {params [" + Join(",", ParamNames(params.args)) + "];" + b + "};")
    case Return(value) => if value.Some? then TranslateExpr(value.value) else Ok("")
    case OtherStmt => Err(UnknownNode)
  }

  /** `"".join(translate(child) for child in body)`. */
  function TranslateBody(body: seq<Stmt>): Result<string>
    decreases body
  {
    if body == [] then Ok("")
    else
      var head :- TranslateStmt(body[0]);
      var tail :- TranslateBody(body[1..]);
      Ok(head + tail)
  }

  /** The `Module` handler: the statements of the body, concatenated. */
  function TranslateModule(m: Module): Result<string> {
    TranslateBody(m.body)
  }

  // ---------------------------------------------------------------------
  // The handlers that build their output step by step
  // ---------------------------------------------------------------------

  /** The `Assign` handler as written: a loop over the targets that appends
      one piece per name and returns `""` at the first other target. The
      right-hand side is translated again for every piece. */
  method TranslateAssign(targets: seq<Expr>, rhs: Expr) returns (r: Result<string>)
    ensures r == LowerAssign(targets, TranslateExpr(rhs))
  {
    var syntax: seq<string> := [];
    var i := 0;
    while i < |targets|
      invariant 0 <= i <= |targets|
      invariant AllNames(targets[..i])
      invariant i == 0 ==> syntax == []
      invariant i > 0 ==> TranslateExpr(rhs).Ok? && syntax == AssignPieces(targets[..i], TranslateExpr(rhs).value)
    {
      var lhs := targets[i];
      if !lhs.Name? {
        return Ok("");
      }
      var value := TranslateExpr(rhs);
      if value.Err? {
        return Err(value.fault);
      }
      assert targets[..i + 1] == targets[..i] + [lhs];
      AssignPiecesSnoc(targets[..i], lhs, value.value);
      syntax := syntax + ["_" + lhs.id + " = " + value.value + ";"];
      i := i + 1;
    }
    assert targets[..i] == targets;
    r := Ok(Join("", syntax));
  }

  lemma {:induction false} AssignPiecesSnoc(targets: seq<Expr>, t: Expr, rhs: string)
    requires AllNames(targets) && t.Name?
    ensures AssignPieces(targets + [t], rhs) == AssignPieces(targets, rhs) + ["_" + t.id + " = " + rhs + ";"]
  {
  }

  /** The `For` handler as written: `start`, `stop` and `step` begin as
      0, 0 and 1 and are overwritten by a `match` on the number of `range`
      arguments. */
  method TranslateFor(target: Expr, iter: Expr, body: seq<Stmt>, orelse: seq<Stmt>) returns (r: Result<string>)
    ensures r == TranslateStmt(For(target, iter, body, orelse))
  {
    if |orelse| != 0 {
      return Ok("");
    }
    if IsRangeCall(iter) {
      var args := iter.args;
      if !AllConstantArgs(args) {
        return Err(RuntimeFailure);
      }
      if !target.Name? {
        return Ok("");
      }
      var start, stop, step := "0", "0", "1";
      match |args| {
        case 1 =>
          stop := PyStr(args[0].value);
        case 2 =>
          start, stop := PyStr(args[0].value), PyStr(args[1].value);
        case 3 =>
          start, stop, step := PyStr(args[0].value), PyStr(args[1].value), PyStr(args[2].value);
        case _ =>
      }
      assert (start, stop, step) == RangeBounds(args);
      var b := TranslateBody(body);
      if b.Err? {
        return Err(b.fault);
      }
      return Ok("for \"_" + target.id + "\" from " + start + " to " + stop + " step " + step + " do{" + b.value + "};");
    }
    if !target.Name? {
      return Ok("");
    }
    var binding := ForEachBinding(target.id);
    var b := TranslateBody(body);
    if b.Err? {
      return Err(b.fault);
    }
    var it := TranslateExpr(iter);
    if it.Err? {
      return Err(it.fault);
    }
    r := Ok("{" + binding + ";" + b.value + "} forEach " + it.value + ";");
  }

  // ---------------------------------------------------------------------
  // Properties of the rules
  // ---------------------------------------------------------------------

  /** An arithmetic expression is its operands' texts around the token, with
      no parentheses whatever the operands are. */
  lemma BinOpNoParentheses(left: Expr, op: BinOperator, right: Expr)
    ensures TranslateExpr(BinOp(left, op, right)).Ok?
            <==> TranslateExpr(left).Ok? && op != OtherBinOp && TranslateExpr(right).Ok?
    ensures TranslateExpr(BinOp(left, op, right)).Ok? ==>
              TranslateExpr(BinOp(left, op, right)).value
              == TranslateExpr(left).value + " " + BinOpToken(op).value + " " + TranslateExpr(right).value
  {
  }

  /** Without parentheses the grouping is lost: `(a + b) * c` and
      `a + (b * c)` are different trees with the same text. */
  lemma GroupingLost()
    ensures BinOp(BinOp(Name("a"), Add, Name("b")), Mult, Name("c"))
            != BinOp(Name("a"), Add, BinOp(Name("b"), Mult, Name("c")))
    ensures TranslateExpr(BinOp(BinOp(Name("a"), Add, Name("b")), Mult, Name("c")))
            == TranslateExpr(BinOp(Name("a"), Add, BinOp(Name("b"), Mult, Name("c"))))
  {
    assert TranslateExpr(Name("a")).value == "_a";
    assert TranslateExpr(Name("b")).value == "_b";
    assert TranslateExpr(Name("c")).value == "_c";
    var left := TranslateExpr(BinOp(BinOp(Name("a"), Add, Name("b")), Mult, Name("c")));
    var right := TranslateExpr(BinOp(Name("a"), Add, BinOp(Name("b"), Mult, Name("c"))));
    assert left.value == ("_a" + " " + "+" + " " + "_b") + " " + "*" + " " + "_c";
    assert right.value == "_a" + " " + "+" + " " + ("_b" + " " + "*" + " " + "_c");
    assert left.value == right.value;
  }

  /** The elements of a list are lowered one by one, in order; the list
      fails exactly when one element fails. */
  lemma {:induction false} TranslateAllElements(es: seq<Expr>)
    ensures TranslateAll(es).Ok? <==> forall k :: 0 <= k < |es| ==> TranslateExpr(es[k]).Ok?
    ensures TranslateAll(es).Ok? ==>
              |TranslateAll(es).value| == |es|
              && forall k :: 0 <= k < |es| ==> TranslateAll(es).value[k] == TranslateExpr(es[k]).value
  {
    if es != [] {
      TranslateAllElements(es[1..]);
      assert forall k :: 1 <= k < |es| ==> es[1..][k - 1] == es[k];
      if TranslateAll(es).Ok? {
        assert TranslateAll(es).value == [TranslateExpr(es[0]).value] + TranslateAll(es[1..]).value;
      }
    }
  }

  /** A name gets the private-variable marker `_`; an attribute of the
      reserved name `GLOBAL` is the bare attribute; any other attribute is
      the lowered receiver, a space and the attribute. */
  lemma NamesAndAttributes(id: string, receiver: Expr, attr: string)
    requires !(receiver.Name? && receiver.id == "GLOBAL")
    ensures TranslateExpr(Name(id)) == Ok("_" + id)
    ensures TranslateExpr(Attribute(Name("GLOBAL"), attr)) == Ok(attr)
    ensures TranslateExpr(receiver).Err? ==> TranslateExpr(Attribute(receiver, attr)) == TranslateExpr(receiver)
    ensures TranslateExpr(receiver).Ok? ==>
              TranslateExpr(Attribute(receiver, attr)) == Ok(TranslateExpr(receiver).value + " " + attr)
  {
  }

  /** A comparison with other than exactly one comparator yields nothing,
      whatever its operands; with one it is `left op right`. */
  lemma CompareLowering(first: Expr, comparisons: seq<Comparison>)
    ensures |comparisons| != 1 ==> TranslateExpr(Compare(first, comparisons)) == Ok("")
    ensures |comparisons| == 1 && TranslateExpr(Compare(first, comparisons)).Ok? ==>
              var c := comparisons[0];
              && TranslateExpr(first).Ok? && CmpOpToken(c.op).Ok? && TranslateExpr(c.comparator).Ok?
              && TranslateExpr(Compare(first, comparisons)).value
                 == TranslateExpr(first).value + " " + CmpOpToken(c.op).value + " " + TranslateExpr(c.comparator).value
    ensures |comparisons| == 1 ==>
              (TranslateExpr(Compare(first, comparisons)).Ok?
               <==> TranslateExpr(first).Ok? && CmpOpToken(comparisons[0].op).Ok?
                    && TranslateExpr(comparisons[0].comparator).Ok?)
  {
  }

  /** Calls: keyword arguments, then starred arguments, yield nothing; a
      named callee is called with `call` on its one argument or on the array
      of its arguments; a method callee is followed by its one argument or
      by the array of them; any other callee yields nothing. */
  lemma CallLowering(func: Expr, args: seq<Expr>, keywords: seq<Keyword>)
    ensures |keywords| != 0 ==> TranslateExpr(Call(func, args, keywords)) == Ok("")
    ensures |keywords| == 0 && HasStarred(args) ==> TranslateExpr(Call(func, args, keywords)) == Ok("")
    ensures |keywords| == 0 && !HasStarred(args) && func.Name? && |args| == 1 ==>
              TranslateExpr(Call(func, args, keywords)) == TranslateExpr(args[0]).Map(a => a + " call " + func.id)
    ensures |keywords| == 0 && !HasStarred(args) && func.Name? && |args| != 1 ==>
              TranslateExpr(Call(func, args, keywords))
              == TranslateAll(args).Map(ps => "[" + Join(", ", ps) + "] call " + func.id)
    ensures |keywords| == 0 && !HasStarred(args) && func.Attribute? && |args| == 1
            && TranslateExpr(func).Ok? && TranslateExpr(args[0]).Ok? ==>
              TranslateExpr(Call(func, args, keywords))
              == Ok(TranslateExpr(func).value + " " + TranslateExpr(args[0]).value)
    ensures |keywords| == 0 && !HasStarred(args) && func.Attribute? && |args| != 1
            && TranslateExpr(func).Ok? && TranslateAll(args).Ok? ==>
              TranslateExpr(Call(func, args, keywords))
              == Ok(TranslateExpr(func).value + " [" + Join(", ", TranslateAll(args).value) + "]")
    ensures |keywords| == 0 && !HasStarred(args) && func.Attribute? ==>
              (TranslateExpr(Call(func, args, keywords)).Ok?
               <==> TranslateExpr(func).Ok? && (if |args| == 1 then TranslateExpr(args[0]).Ok? else TranslateAll(args).Ok?))
    ensures |keywords| == 0 && !HasStarred(args) && func.Attribute? && |args| == 1 && TranslateExpr(func).Err? ==>
              TranslateExpr(Call(func, args, keywords)) == Err(TranslateExpr(func).fault)
    ensures |keywords| == 0 && !HasStarred(args) && func.Attribute? && |args| != 1 && TranslateAll(args).Err? ==>
              TranslateExpr(Call(func, args, keywords)) == Err(TranslateAll(args).fault)
    ensures |keywords| == 0 && !HasStarred(args) && func.Attribute? && |args| == 1
            && TranslateExpr(func).Ok? && TranslateExpr(args[0]).Err? ==>
              TranslateExpr(Call(func, args, keywords)) == Err(TranslateExpr(args[0]).fault)
    ensures |keywords| == 0 && !HasStarred(args) && func.Attribute? && |args| != 1
            && TranslateAll(args).Ok? && TranslateExpr(func).Err? ==>
              TranslateExpr(Call(func, args, keywords)) == Err(TranslateExpr(func).fault)
    ensures |keywords| == 0 && !HasStarred(args) && !func.Name? && !func.Attribute? ==>
              TranslateExpr(Call(func, args, keywords)) == Ok("")
  {
  }

  /** A list or tuple display is the bracketed, comma-separated sequence of
      its lowered elements; it fails exactly when an element fails. */
  lemma ListLowering(elts: seq<Expr>)
    ensures TranslateExpr(Tuple(elts)) == TranslateExpr(List(elts))
    ensures TranslateExpr(List(elts)).Ok? <==> forall k :: 0 <= k < |elts| ==> TranslateExpr(elts[k]).Ok?
    ensures TranslateExpr(List(elts)).Ok? ==>
              TranslateExpr(List(elts)).value
              == "[" + Join(", ", seq(|elts|, k requires 0 <= k < |elts| && TranslateExpr(elts[k]).Ok? => TranslateExpr(elts[k]).value)) + "]"
  {
    TranslateAllElements(elts);
    if TranslateAll(elts).Ok? {
      assert TranslateAll(elts).value
             == seq(|elts|, k requires 0 <= k < |elts| && TranslateExpr(elts[k]).Ok? => TranslateExpr(elts[k]).value);
    }
  }

  /** `and`/`or` over several operands puts ` && ` or ` || ` between their
      lowered texts; it fails exactly when an operand fails. */
  lemma BoolOpLowering(op: BoolOperator, operands: seq<Expr>)
    ensures TranslateExpr(BoolOp(op, operands)).Ok? <==> forall k :: 0 <= k < |operands| ==> TranslateExpr(operands[k]).Ok?
    ensures TranslateExpr(BoolOp(op, operands)).Ok? ==>
              TranslateExpr(BoolOp(op, operands)).value
              == Join(if op == And then " && " else " || ",
                      seq(|operands|, k requires 0 <= k < |operands| && TranslateExpr(operands[k]).Ok? => TranslateExpr(operands[k]).value))
  {
    TranslateAllElements(operands);
    if TranslateAll(operands).Ok? {
      assert TranslateAll(operands).value
             == seq(|operands|, k requires 0 <= k < |operands| && TranslateExpr(operands[k]).Ok? => TranslateExpr(operands[k]).value);
    }
  }

  /** `not x` is `!` glued to the operand; every other unary operator has
      no handler and is fatal. */
  lemma UnaryOpLowering(op: UnaryOperator, x: Expr)
    ensures TranslateExpr(UnaryOp(op, x)).Ok? <==> op == Not && TranslateExpr(x).Ok?
    ensures TranslateExpr(UnaryOp(op, x)).Ok? ==> TranslateExpr(UnaryOp(op, x)).value == "!" + TranslateExpr(x).value
    ensures op != Not ==> TranslateExpr(UnaryOp(op, x)) == Err(UnknownNode)
  {
  }

  /** A conditional expression is an `if ... then ... else ...;` over the
      lowered test and branches. */
  lemma IfExpLowering(test: Expr, body: Expr, orelse: Expr)
    ensures TranslateExpr(IfExp(test, body, orelse)).Ok?
            <==> TranslateExpr(test).Ok? && TranslateExpr(body).Ok? && TranslateExpr(orelse).Ok?
    ensures TranslateExpr(IfExp(test, body, orelse)).Ok? ==>
              TranslateExpr(IfExp(test, body, orelse)).value
              == "if (" + TranslateExpr(test).value + ") then {" + TranslateExpr(body).value + "} else {"
                 + TranslateExpr(orelse).value + "};"
  {
  }

  /** An expression statement is its expression followed by `;`; `pass`
      emits nothing. */
  lemma SimpleStatements(value: Expr)
    ensures TranslateStmt(ExprStmt(value)).Ok? <==> TranslateExpr(value).Ok?
    ensures TranslateStmt(ExprStmt(value)).Ok? ==> TranslateStmt(ExprStmt(value)).value == TranslateExpr(value).value + ";"
    ensures TranslateStmt(Pass) == Ok("")
  {
  }

  /** A `while` loop with an `else` yields nothing; otherwise it is
      `while {c} do {body};`. */
  lemma WhileLowering(test: Expr, body: seq<Stmt>, orelse: seq<Stmt>)
    ensures |orelse| != 0 ==> TranslateStmt(While(test, body, orelse)) == Ok("")
    ensures |orelse| == 0 && TranslateExpr(test).Ok? && TranslateBody(body).Ok? ==>
              TranslateStmt(While(test, body, orelse))
              == Ok("while {" + TranslateExpr(test).value + "} do {" + TranslateBody(body).value + "};")
    ensures |orelse| == 0 ==>
              (TranslateStmt(While(test, body, orelse)).Ok? <==> TranslateExpr(test).Ok? && TranslateBody(body).Ok?)
    ensures |orelse| == 0 && TranslateExpr(test).Err? ==>
              TranslateStmt(While(test, body, orelse)) == Err(TranslateExpr(test).fault)
    ensures |orelse| == 0 && TranslateExpr(test).Ok? && TranslateBody(body).Err? ==>
              TranslateStmt(While(test, body, orelse)) == Err(TranslateBody(body).fault)
  {
  }

  /** A body is the concatenation of its statements' outputs in order; it
      fails exactly when one of them fails. */
  lemma {:induction false} TranslateBodyConcat(body: seq<Stmt>)
    ensures TranslateBody(body).Ok? <==> forall k :: 0 <= k < |body| ==> TranslateStmt(body[k]).Ok?
    ensures TranslateBody(body).Ok? ==>
              TranslateBody(body).value
              == Join("", seq(|body|, k requires 0 <= k < |body| && TranslateStmt(body[k]).Ok? => TranslateStmt(body[k]).value))
  {
    if body != [] {
      TranslateBodyConcat(body[1..]);
      assert forall k :: 1 <= k < |body| ==> body[1..][k - 1] == body[k];
      if TranslateBody(body).Ok? {
        var parts := seq(|body|, k requires 0 <= k < |body| && TranslateStmt(body[k]).Ok? => TranslateStmt(body[k]).value);
        var rest := seq(|body| - 1, k requires 0 <= k < |body| - 1 && TranslateStmt(body[1..][k]).Ok? => TranslateStmt(body[1..][k]).value);
        assert parts[1..] == rest;
        JoinEmptyCons(parts);
      }
    }
  }

  /** Assignment: a missing value yields nothing; each name target `t`
      contributes `_t = <rhs>;`, in target order; a target that is not a
      name anywhere in the list makes the whole statement empty, unless the
      right-hand side failed when the first target was accepted: then the
      statement fails with its fault, whatever the later targets are. */
  lemma AssignLowering(targets: seq<Expr>, rhs: Expr, target: Expr, annotation: Expr)
    ensures TranslateStmt(AnnAssign(target, annotation, None)) == Ok("")
    ensures AllNames(targets) && TranslateExpr(rhs).Ok? ==>
              TranslateStmt(Assign(targets, rhs))
              == Ok(Join("", seq(|targets|, k requires 0 <= k < |targets| =>
                                   "_" + targets[k].id + " = " + TranslateExpr(rhs).value + ";")))
    ensures !AllNames(targets) ==>
              TranslateStmt(Assign(targets, rhs))
              == if targets[0].Name? && TranslateExpr(rhs).Err? then Err(TranslateExpr(rhs).fault) else Ok("")
    ensures targets != [] && targets[0].Name? && TranslateExpr(rhs).Err? ==>
              TranslateStmt(Assign(targets, rhs)) == Err(TranslateExpr(rhs).fault)
  {
    if AllNames(targets) && TranslateExpr(rhs).Ok? {
      var v := TranslateExpr(rhs).value;
      assert AssignPieces(targets, v)
             == seq(|targets|, k requires 0 <= k < |targets| => "_" + targets[k].id + " = " + v + ";");
    }
  }

  /** Deleting names sets each to `nil`, in order; any other target makes the
      whole statement empty. */
  lemma DeleteLowering(targets: seq<Expr>)
    ensures AllNames(targets) ==>
              TranslateStmt(Delete(targets))
              == Ok(Join("", seq(|targets|, k requires 0 <= k < |targets| => "_" + targets[k].id + " = nil;")))
    ensures !AllNames(targets) ==> TranslateStmt(Delete(targets)) == Ok("")
  {
    if AllNames(targets) {
      assert DeletePieces(targets) == seq(|targets|, k requires 0 <= k < |targets| => "_" + targets[k].id + " = nil;");
    }
  }

  /** Keyword-only or default parameters, then decorators, make a definition
      empty; otherwise it binds the name to a code block whose `params` lists
      the quoted, marker-prefixed positional parameters in declared order,
      joined by `","`. An `async def` has no handler. */
  lemma FunctionDefLowering(name: string, params: Arguments, body: seq<Stmt>, decorators: seq<Expr>)
    ensures TranslateStmt(FunctionDef(name, params, body, decorators, true)) == Err(UnknownNode)
    ensures |params.kwonlyargs| != 0 || |params.defaults| != 0 ==>
              TranslateStmt(FunctionDef(name, params, body, decorators, false)) == Ok("")
    ensures |decorators| != 0 ==> TranslateStmt(FunctionDef(name, params, body, decorators, false)) == Ok("")
    ensures |params.kwonlyargs| == 0 && |params.defaults| == 0 && |decorators| == 0 && TranslateBody(body).Ok? ==>
              TranslateStmt(FunctionDef(name, params, body, decorators, false))
              == Ok(name + " = {params [" + Join(",", ParamNames(params.args)) + "];" + TranslateBody(body).value + "};")
    ensures |params.kwonlyargs| == 0 && |params.defaults| == 0 && |decorators| == 0 && TranslateBody(body).Err? ==>
              TranslateStmt(FunctionDef(name, params, body, decorators, false)) == Err(TranslateBody(body).fault)
  {
  }

  lemma TwoParams()
    ensures Join(",", ParamNames(["a", "b"])) == "\"_a\",\"_b\""
  {
    assert ["a", "b"][1..] == ["b"] && ["b"][1..] == [];
    assert ParamNames([]) == [];
    assert "\"_" + "b" + "\"" == "\"_b\"" && "\"_" + "a" + "\"" == "\"_a\"";
    assert ParamNames(["b"]) == ["\"_b\""];
    assert ParamNames(["a", "b"]) == ["\"_a\"", "\"_b\""];
  }

  lemma PassBody()
    ensures TranslateBody([Pass]) == Ok("")
  {
    assert [Pass][1..] == [];
    assert TranslateBody([]) == Ok("");
    assert TranslateBody([Pass]).value == "" + "";
  }

  /** `def f(a, b): pass` is `f = {params ["_a","_b"];};`. */
  lemma FunctionDefExample()
    ensures var r := TranslateStmt(FunctionDef("f", Arguments([], ["a", "b"], None, [], None, []), [Pass], [], false));
            r.Ok? && r.value == "f" + " = {params [" + "\"_a\",\"_b\"" + "];" + "" + "};"
  {
    FunctionDefLowering("f", Arguments([], ["a", "b"], None, [], None, []), [Pass], []);
    TwoParams();
    PassBody();
  }

  /** A conditional with an `else` is `if (c) then {body} else {orelse};`, one
      without it is `if (c) then {body};`. */
  lemma IfLowering(test: Expr, body: seq<Stmt>, orelse: seq<Stmt>)
    ensures TranslateExpr(test).Ok? && TranslateBody(body).Ok? && TranslateBody(orelse).Ok? ==>
              var c := TranslateExpr(test).value;
              var b := TranslateBody(body).value;
              TranslateStmt(If(test, body, orelse))
              == if |orelse| != 0 then Ok("if (" + c + ") then {" + b + "} else {" + TranslateBody(orelse).value + "};")
                 else Ok("if (" + c + ") then {" + b + "};")
    ensures TranslateStmt(If(test, body, orelse)).Ok?
            <==> TranslateExpr(test).Ok? && TranslateBody(body).Ok? && TranslateBody(orelse).Ok?
    ensures TranslateExpr(test).Err? ==> TranslateStmt(If(test, body, orelse)) == Err(TranslateExpr(test).fault)
    ensures TranslateExpr(test).Ok? && TranslateBody(body).Err? ==>
              TranslateStmt(If(test, body, orelse)) == Err(TranslateBody(body).fault)
    ensures TranslateExpr(test).Ok? && TranslateBody(body).Ok? && TranslateBody(orelse).Err? ==>
              TranslateStmt(If(test, body, orelse)) == Err(TranslateBody(orelse).fault)
  {
  }

  /** A `for` loop with an `else` yields nothing. Over `range` any
      non-constant argument raises; then a target that is not a name yields
      nothing; otherwise it is a counted loop, taking stop from one argument,
      start and stop from two, and all three from three, and counting from 0
      to 0 by 1 for any other number of arguments. Over any other iterable a
      name target gives a `forEach` block, its body lowered before the
      iterable, and any other target yields nothing. Each loop fails exactly
      when a part it lowers fails. */
  lemma ForLowering(target: Expr, args: seq<Expr>, keywords: seq<Keyword>, iter: Expr, body: seq<Stmt>, orelse: seq<Stmt>)
    ensures |orelse| != 0 ==> TranslateStmt(For(target, iter, body, orelse)) == Ok("")
    ensures |orelse| == 0 && !AllConstantArgs(args) ==>
              TranslateStmt(For(target, Call(Name("range"), args, keywords), body, orelse)) == Err(RuntimeFailure)
    ensures |orelse| == 0 && AllConstantArgs(args) && !target.Name? ==>
              TranslateStmt(For(target, Call(Name("range"), args, keywords), body, orelse)) == Ok("")
    ensures |orelse| == 0 && AllConstantArgs(args) && target.Name? && 1 <= |args| <= 3 && TranslateBody(body).Ok? ==>
              var start := if |args| == 1 then "0" else PyStr(args[0].value);
              var stop := if |args| == 1 then PyStr(args[0].value) else PyStr(args[1].value);
              var step := if |args| == 3 then PyStr(args[2].value) else "1";
              TranslateStmt(For(target, Call(Name("range"), args, keywords), body, orelse))
              == Ok("for \"_" + target.id + "\" from " + start + " to " + stop + " step " + step
                    + " do{" + TranslateBody(body).value + "};")
    ensures |orelse| == 0 && AllConstantArgs(args) && target.Name? && (|args| == 0 || |args| > 3)
            && TranslateBody(body).Ok? ==>
              TranslateStmt(For(target, Call(Name("range"), args, keywords), body, orelse))
              == Ok("for \"_" + target.id + "\" from " + "0" + " to " + "0" + " step " + "1" + " do{" + TranslateBody(body).value + "};")
    ensures |orelse| == 0 && AllConstantArgs(args) && target.Name? ==>
              (TranslateStmt(For(target, Call(Name("range"), args, keywords), body, orelse)).Ok?
               <==> TranslateBody(body).Ok?)
    ensures |orelse| == 0 && AllConstantArgs(args) && target.Name? && TranslateBody(body).Err? ==>
              TranslateStmt(For(target, Call(Name("range"), args, keywords), body, orelse)) == Err(TranslateBody(body).fault)
    ensures |orelse| == 0 && !IsRangeCall(iter) && !target.Name? ==> TranslateStmt(For(target, iter, body, orelse)) == Ok("")
    ensures |orelse| == 0 && !IsRangeCall(iter) && target.Name? && TranslateBody(body).Ok? && TranslateExpr(iter).Ok? ==>
              TranslateStmt(For(target, iter, body, orelse))
              == Ok("{" + ForEachBinding(target.id) + ";" + TranslateBody(body).value + "} forEach "
                    + TranslateExpr(iter).value + ";")
    ensures |orelse| == 0 && !IsRangeCall(iter) && target.Name? ==>
              (TranslateStmt(For(target, iter, body, orelse)).Ok? <==> TranslateBody(body).Ok? && TranslateExpr(iter).Ok?)
    ensures |orelse| == 0 && !IsRangeCall(iter) && target.Name? && TranslateBody(body).Err? ==>
              TranslateStmt(For(target, iter, body, orelse)) == Err(TranslateBody(body).fault)
    ensures |orelse| == 0 && !IsRangeCall(iter) && target.Name? && TranslateBody(body).Ok? && TranslateExpr(iter).Err? ==>
              TranslateStmt(For(target, iter, body, orelse)) == Err(TranslateExpr(iter).fault)
  {
  }

  /** The two explicit raises are fatal, as is every node kind without a
      handler; a dictionary display is the one unsupported expression that
      degrades to nothing. */
  lemma FatalErrors(target: Expr, op: BinOperator, value: Expr, v: string, args: seq<Expr>, body: seq<Stmt>, e: Expr)
    requires e.Subscript? || e.JoinedStr? || e.FormattedValue? || e.Starred? || e.Slice? || e.OtherExpr?
    ensures !target.Name? ==> TranslateStmt(AugAssign(target, op, value)) == Err(RuntimeFailure)
    ensures !AllConstantArgs(args) ==>
              TranslateStmt(For(Name(v), Call(Name("range"), args, []), body, [])) == Err(RuntimeFailure)
    ensures TranslateExpr(e) == Err(UnknownNode)
    ensures TranslateStmt(Break) == Err(UnknownNode) && TranslateStmt(Continue) == Err(UnknownNode)
    ensures TranslateBody([Break]) == Err(UnknownNode)
    ensures forall keys, values :: TranslateExpr(Dict(keys, values)) == Ok("")
  {
  }

  /** `t op= v` on a name is desugared to `_t = _t op v;`. */
  lemma AugAssignLowering(target: string, op: BinOperator, value: Expr)
    ensures TranslateStmt(AugAssign(Name(target), op, value)).Ok?
            <==> op != OtherBinOp && TranslateExpr(value).Ok?
    ensures TranslateStmt(AugAssign(Name(target), op, value)).Ok? ==>
              TranslateStmt(AugAssign(Name(target), op, value)).value
              == "_" + target + " = _" + target + " " + BinOpToken(op).value + " " + TranslateExpr(value).value + ";"
    ensures op == OtherBinOp ==> TranslateStmt(AugAssign(Name(target), op, value)) == Err(UnknownNode)
    ensures op != OtherBinOp && TranslateExpr(value).Err? ==>
              TranslateStmt(AugAssign(Name(target), op, value)) == Err(TranslateExpr(value).fault)
  {
  }

  // ---------------------------------------------------------------------
  // The whole pipeline
  // ---------------------------------------------------------------------

  /** `to_sqf` on an already parsed module: translate, then lay out. */
  method ToSqf(m: Module) returns (r: Result<string>)
    ensures TranslateModule(m).Err? ==> r == Err(TranslateModule(m).fault)
    ensures TranslateModule(m).Ok? ==>
              r == Ok(Join("\n", Layout.IndentedLines(Layout.Lines(TranslateModule(m).value))))
  {
    match TranslateModule(m)
    case Err(f) => r := Err(f);
    case Ok(flat) =>
      var text := Layout.Indenter(flat);
      r := Ok(text);
  }
}
