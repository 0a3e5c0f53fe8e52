/** The `translate` rules of compiler.py: one arm per registered node class,
    and the crashing fallback for every other class. An `Ok("")` is a node
    the handler logs as unsupported (or a no-op); an `Err` is an exception
    that aborts the whole translation. */
module Compiler {

  import opened Results
  import opened Ast
  import opened Text
  import opened Lexicon
  import Layout

  // ---------------------------------------------------------------------
  // Expressions
  // ---------------------------------------------------------------------

  predicate IsTextConstant(e: Expr) {
    e.Constant? && e.value.CStr?
  }

  predicate AllConstants(values: seq<Expr>) {
    forall k :: 0 <= k < |values| ==> values[k].Constant?
  }

  predicate AllTextConstants(values: seq<Expr>) {
    forall k :: 0 <= k < |values| ==> IsTextConstant(values[k])
  }

  /** Every constant part of the f-string is a `str`, as `str.join` needs. */
  predicate ConstantPartsAreText(values: seq<Expr>) {
    forall k :: 0 <= k < |values| && values[k].Constant? ==> values[k].value.CStr?
  }

  /** The text a constant part of an f-string contributes to the template. */
  function ConstantPart(e: Expr): string
    requires e.Constant?
  {
    PyStr(e.value)
  }

  function ConstantParts(values: seq<Expr>): (r: seq<string>)
    requires AllConstants(values)
    ensures |r| == |values|
    ensures forall k :: 0 <= k < |values| ==> r[k] == ConstantPart(values[k])
  {
    if values == [] then [] else [ConstantPart(values[0])] + ConstantParts(values[1..])
  }

  /** `"%" + str(index)`, the placeholder of the `index`-th formatted value. */
  function Placeholder(index: int): string {
    "%" + IntText(index)
  }

  /** The template parts and the lowered formatted values of an f-string
      whose first formatted value (if any) gets number `index`. */
  function JoinedParts(values: seq<Expr>, index: int): Result<(seq<string>, seq<string>)>
    decreases values
  {
    if values == [] then Ok(([], []))
    else if values[0].Constant? then
      var rest :- JoinedParts(values[1..], index);
      Ok(([ConstantPart(values[0])] + rest.0, rest.1))
    else
      var text :- TranslateExpr(values[0]);
      var rest :- JoinedParts(values[1..], index + 1);
      Ok(([Placeholder(index)] + rest.0, [text] + rest.1))
  }

  /** The lowered elements of a sequence of expressions, in order; the first
      failing element aborts. */
  function TranslateAll(es: seq<Expr>): Result<seq<string>>
    decreases es
  {
    if es == [] then Ok([])
    else
      var head :- TranslateExpr(es[0]);
      var tail :- TranslateAll(es[1..]);
      Ok([head] + tail)
  }

  /** An operand of `BinOp`, parenthesised exactly when it is itself a `BinOp`. */
  function WrapOperand(operand: Expr, text: string): string {
    if operand.BinOp? then "(" + text + ")" else text
  }

  /** The `Subscript` handler, given the outcome of lowering the container.
      The handler consults that outcome only on the paths where it lowers the
      container, so a failing container fails only those. */
  function LowerSubscript(container: Result<string>, slice: Expr): Result<string> {
    if slice.Constant? then
      var v :- container;
      Ok(v + " select " + PyStr(slice.value))
    else if slice.Slice? then
      if slice.step.Some? then Ok("")
      else if slice.lower.None? || slice.upper.None? then Ok("")
      else if !slice.lower.value.Constant? || !slice.upper.value.Constant? then Err(AssertionFailed)
      else
        var v :- container;
        var lo := slice.lower.value.value;
        var hi := slice.upper.value.value;
        if NumericValue(lo).None? || NumericValue(hi).None? then Err(BadOperandType)
        else Ok(v + " select [" + PyStr(lo) + ", " + IntText(NumericValue(hi).value - NumericValue(lo).value) + "]")
    else Ok("")
  }

  function TranslateExpr(e: Expr): Result<string>
    decreases e
  {
    match e
    case Constant(c) => Ok(LowerConstant(c))
    case FormattedValue(inner, conversion, hasFormatSpec) =>
      if conversion != -1 || hasFormatSpec then Ok("") else TranslateExpr(inner)
    case JoinedStr(values) =>
      if AllConstants(values) then
        if AllTextConstants(values) then Ok(Join("", ConstantParts(values))) else Err(BadOperandType)
      else
        var parts :- JoinedParts(values, 1);
        if !ConstantPartsAreText(values) then Err(BadOperandType)
        else Ok("format [\"" + Join("", parts.0) + "\", " + Join(", ", parts.1) + "]")
    case List(elts) =>
      var parts :- TranslateAll(elts);
      Ok("[" + Join(", ", parts) + "]")
    case Tuple(elts) =>
      var parts :- TranslateAll(elts);
      Ok("[" + Join(", ", parts) + "]")
    case Name(id) => Ok("_" + id)
    case UnaryOp(op, operand) =>
      var token :- UnaryOpToken(op);
      var x :- TranslateExpr(operand);
      Ok(token + x)
    case BinOp(left, op, right) =>
      var l :- TranslateExpr(left);
      var r :- TranslateExpr(right);
      var token :- BinOpToken(op);
      Ok(WrapOperand(left, l) + " " + token + " " + WrapOperand(right, r))
    case BoolOp(op, operands) =>
      var parts :- TranslateAll(operands);
      Ok(Join(BoolOpToken(op), parts))
    case Compare(first, comparisons) =>
      if |comparisons| != 1 then Ok("")
      else
        var l :- TranslateExpr(first);
        var token :- CmpOpToken(comparisons[0].op);
        var r :- TranslateExpr(comparisons[0].comparator);
        Ok(l + " " + token + " " + r)
    case Call(func, args, keywords) =>
      if |keywords| != 0 then Ok("")
      else if HasStarred(args) then Ok("")
      else if func.Name? then
        if |args| == 1 then
          var a :- TranslateExpr(args[0]);
          Ok(a + " call " + func.id)
        else
          var parts :- TranslateAll(args);
          Ok("[" + Join(", ", parts) + "] call " + func.id)
      else if func.Attribute? then
        if |args| == 1 then
          var f :- TranslateExpr(func);
          var a :- TranslateExpr(args[0]);
          Ok(f + " " + a)
        else
          var parts :- TranslateAll(args);
          var f :- TranslateExpr(func);
          Ok(f + " [" + Join(", ", parts) + "]")
      else Ok("")
    case IfExp(test, body, orelse) =>
      var c :- TranslateExpr(test);
      var b :- TranslateExpr(body);
      var o :- TranslateExpr(orelse);
      Ok("if (" + c + ") then {" + b + "} else {" + o + "};")
    case Attribute(receiver, attr) =>
      if receiver.Name? && receiver.id == "GLOBAL" then Ok(attr)
      else
        var v :- TranslateExpr(receiver);
        Ok(v + " " + attr)
    case Subscript(container, slice) => LowerSubscript(TranslateExpr(container), slice)
    case Starred(_) => Err(UnknownNode)
    case Slice(_, _, _) => Err(UnknownNode)
    case Dict(_, _) => Err(UnknownNode)
    case OtherExpr => Err(UnknownNode)
  }

  // ---------------------------------------------------------------------
  // Statements
  // ---------------------------------------------------------------------

  /** An assignment target the loop of the `Assign` handler accepts. */
  predicate AssignableTarget(t: Expr) {
    t.Name? || (t.Subscript? && t.slice.Constant?)
  }

  /** What one accepted target contributes, given the lowered right-hand
      side. As written, a subscript target puts the right-hand side where the
      receiver belongs and ends without a semicolon. */
  function AssignPiece(t: Expr, rhs: string): string
    requires AssignableTarget(t)
  {
    if t.Name? then "_" + t.id + " = " + rhs + ";"
    else rhs + " set [" + PyStr(t.slice.value) + ", " + rhs + "]"
  }

  function AssignPieces(targets: seq<Expr>, rhs: string): (r: seq<string>)
    requires forall k :: 0 <= k < |targets| ==> AssignableTarget(targets[k])
    ensures |r| == |targets|
    ensures forall k :: 0 <= k < |targets| ==> r[k] == AssignPiece(targets[k], rhs)
  {
    if targets == [] then [] else [AssignPiece(targets[0], rhs)] + AssignPieces(targets[1..], rhs)
  }

  /** The outcome of the `Assign` handler's loop over `targets`, where `rhs`
      is the outcome of translating the right-hand side: the loop gives up
      with `""` at the first target it does not accept, and translates the
      right-hand side (which may raise) only once it has accepted one. */
  function LowerAssign(targets: seq<Expr>, rhs: Result<string>): Result<string> {
    if targets == [] || !AssignableTarget(targets[0]) then Ok("")
    else if rhs.Err? then Err(rhs.fault)
    else if exists k :: 0 <= k < |targets| && !AssignableTarget(targets[k]) then Ok("")
    else Ok(Join("", AssignPieces(targets, rhs.value)))
  }

  function TranslateStmt(s: Stmt): Result<string>
    decreases s
  {
    match s
    case ExprStmt(value) =>
      var v :- TranslateExpr(value);
      Ok(v + ";")
    case Assign(targets, rhs) => LowerAssign(targets, TranslateExpr(rhs))
    case AnnAssign(_, _, value) => if value.None? then Ok("") else Err(MissingAttribute)
    case AugAssign(target, op, value) =>
      if !target.Name? then Err(AssertionFailed)
      else
        var token :- BinOpToken(op);
        var v :- TranslateExpr(value);
        Ok("_" + target.id + " = _" + target.id + " " + token + " " + v + ";")
    case Delete(targets) => Ok(LowerDelete(targets))
    case Pass => Ok("")
    case If(test, body, orelse) =>
      var c :- TranslateExpr(test);
      var b :- TranslateBody(body);
      if |orelse| != 0 then
        var o :- TranslateBody(orelse);
        Ok("if (" + c + ") then {" + b + "} else {" + o + "};")
      else Ok("if (" + c + ") then {" + b + "};")
    case For(target, iter, body, orelse) =>
      if |orelse| != 0 then Ok("")
      else if IsRangeCall(iter) then
        if !AllConstantArgs(iter.args) then Err(AssertionFailed)
        else if !target.Name? then Ok("")
        else
          var bounds := RangeBounds(iter.args);
          var b :- TranslateBody(body);
          Ok("for \"_" + target.id + "\" from " + bounds.0 + " to " + bounds.1 + " step " + bounds.2
             + " do{" + b + "};")
      else if !target.Name? then Ok("")
      else
        var b :- TranslateBody(body);
        var it :- TranslateExpr(iter);
        Ok("{" + ForEachBinding(target.id) + ";" + b + "} forEach " + it + ";")
    case While(test, body, orelse) =>
      if |orelse| != 0 then Ok("")
      else
        var c :- TranslateExpr(test);
        var b :- TranslateBody(body);
        Ok("while {" + c + "} do {" + b + "};")
    case Break => Ok("break;")
    case Continue => Ok("continue;")
    case FunctionDef(name, params, body, decorators, _) =>
      if |params.kwonlyargs| != 0 || |params.defaults| != 0 then Ok("")
      else if |decorators| != 0 then Ok("")
      else
        var b :- TranslateBody(body);
        Ok(name + " = {params [" + Join(", ", ParamNames(params.args)) + "];" + b + "};")
    case Return(value) => if value.Some? then TranslateExpr(value.value) else Ok("")
    case OtherStmt => Err(UnknownNode)
  }

  /** `"".join(translate(child) for child in body)`. */
  function TranslateBody(body: seq<Stmt>): Result<string>
    decreases body
  {
    if body == [] then Ok("")
    else
      var head :- TranslateStmt(body[0]);
      var tail :- TranslateBody(body[1..]);
      Ok(head + tail)
  }

  /** The `Module` handler: the statements of the body, concatenated. */
  function TranslateModule(m: Module): Result<string> {
    TranslateBody(m.body)
  }

  // ---------------------------------------------------------------------
  // The handlers that build their output in a loop
  // ---------------------------------------------------------------------

  /** Puts a computed prefix of template parts and formatted values in front
      of the outcome for the remaining parts. */
  function Prepend(syntax: seq<string>, formatted: seq<string>,
                   rest: Result<(seq<string>, seq<string>)>): Result<(seq<string>, seq<string>)> {
    match rest
    case Ok(p) => Ok((syntax + p.0, formatted + p.1))
    case Err(f) => Err(f)
  }

  lemma PrependNothing(rest: Result<(seq<string>, seq<string>)>)
    ensures Prepend([], [], rest) == rest
  {
    match rest
    case Ok(p) => assert [] + p.0 == p.0 && [] + p.1 == p.1;
    case Err(_) =>
  }

  lemma PrependTwice(s1: seq<string>, f1: seq<string>, s2: seq<string>, f2: seq<string>,
                     rest: Result<(seq<string>, seq<string>)>)
    ensures Prepend(s1, f1, Prepend(s2, f2, rest)) == Prepend(s1 + s2, f1 + f2, rest)
  {
    match rest
    case Ok(p) =>
      assert s1 + (s2 + p.0) == (s1 + s2) + p.0;
      assert f1 + (f2 + p.1) == (f1 + f2) + p.1;
    case Err(_) =>
  }

  /** The `JoinedStr` handler as written: a loop that numbers the formatted
      values with a counter and appends to two lists. */
  method TranslateJoinedStr(values: seq<Expr>) returns (r: Result<string>)
    ensures r == TranslateExpr(JoinedStr(values))
  {
    if AllConstants(values) {
      if AllTextConstants(values) {
        r := Ok(Join("", ConstantParts(values)));
      } else {
        r := Err(BadOperandType);
      }
      return;
    }
    var index := 1;
    var formatted: seq<string> := [];
    var syntax: seq<string> := [];
    var i := 0;
    assert values[i..] == values;
    PrependNothing(JoinedParts(values, 1));
    while i < |values|
      invariant 0 <= i <= |values|
      invariant JoinedParts(values, 1) == Prepend(syntax, formatted, JoinedParts(values[i..], index))
    {
      var value := values[i];
      assert values[i..][1..] == values[i + 1..];
      ghost var rest := JoinedParts(values[i + 1..], index + (if value.Constant? then 0 else 1));
      if value.Constant? {
        PrependTwice(syntax, formatted, [ConstantPart(value)], [], rest);
        syntax := syntax + [ConstantPart(value)];
      } else {
        var text := TranslateExpr(value);
        if text.Err? {
          assert JoinedParts(values[i..], index) == Err(text.fault);
          assert JoinedParts(values, 1) == Err(text.fault);
          return Err(text.fault);
        }
        PrependTwice(syntax, formatted, [Placeholder(index)], [text.value], rest);
        formatted := formatted + [text.value];
        syntax := syntax + [Placeholder(index)];
        index := index + 1;
      }
      i := i + 1;
    }
    assert values[i..] == [];
    assert syntax + [] == syntax && formatted + [] == formatted;
    assert JoinedParts(values, 1) == Ok((syntax, formatted));
    if !ConstantPartsAreText(values) {
      return Err(BadOperandType);
    }
    r := Ok("format [\"" + Join("", syntax) + "\", " + Join(", ", formatted) + "]");
  }

  /** The `Assign` handler as written: a loop over the targets that appends
      one piece per accepted target and returns `""` at the first other one.
      The right-hand side is translated again for every piece. */
  method TranslateAssign(targets: seq<Expr>, rhs: Expr) returns (r: Result<string>)
    ensures r == LowerAssign(targets, TranslateExpr(rhs))
  {
    ghost var rv := TranslateExpr(rhs);
    var syntax: seq<string> := [];
    var i := 0;
    while i < |targets|
      invariant 0 <= i <= |targets|
      invariant forall k :: 0 <= k < i ==> AssignableTarget(targets[k])
      invariant i == 0 ==> syntax == []
      invariant i > 0 ==> rv.Ok? && syntax == AssignPieces(targets[..i], rv.value)
    {
      var lhs := targets[i];
      var piece: string;
      if lhs.Name? {
        var value := TranslateExpr(rhs);
        if value.Err? {
          return Err(value.fault);
        }
        piece := "_" + lhs.id + " = " + value.value + ";";
      } else if lhs.Subscript? {
        if !lhs.slice.Constant? {
          AssignStopsAt(targets, i, rv);
          return Ok("");
        }
        var index := lhs.slice.value;
        var receiver := TranslateExpr(rhs);
        if receiver.Err? {
          return Err(receiver.fault);
        }
        var value := TranslateExpr(rhs);
        piece := receiver.value + " set [" + PyStr(index) + ", " + value.value + "]";
      } else {
        AssignStopsAt(targets, i, rv);
        return Ok("");
      }
      assert piece == AssignPiece(lhs, rv.value);
      AssignPiecesStep(targets, i, rv.value, syntax, piece);
      syntax := syntax + [piece];
      i := i + 1;
    }
    assert targets[..i] == targets;
    r := Ok(Join("", syntax));
    if i > 0 {
      AssignAllAccepted(targets, rv);
    }
  }

  /** The loop gives up with `""` at a target it does not accept, once the
      targets before it were accepted. */
  lemma AssignStopsAt(targets: seq<Expr>, i: int, rhs: Result<string>)
    requires 0 <= i < |targets| && !AssignableTarget(targets[i])
    requires i > 0 ==> rhs.Ok?
    ensures LowerAssign(targets, rhs) == Ok("")
  {
  }

  /** When the loop accepts every target it joins their pieces. */
  lemma AssignAllAccepted(targets: seq<Expr>, rhs: Result<string>)
    requires targets != [] && rhs.Ok?
    requires forall k :: 0 <= k < |targets| ==> AssignableTarget(targets[k])
    ensures LowerAssign(targets, rhs) == Ok(Join("", AssignPieces(targets, rhs.value)))
  {
  }

  /** One more accepted target appends its piece. */
  lemma AssignPiecesStep(targets: seq<Expr>, i: nat, rhs: string, syntax: seq<string>, piece: string)
    requires i < |targets|
    requires forall k :: 0 <= k <= i ==> AssignableTarget(targets[k])
    requires i == 0 ==> syntax == []
    requires i > 0 ==> syntax == AssignPieces(targets[..i], rhs)
    requires piece == AssignPiece(targets[i], rhs)
    ensures syntax + [piece] == AssignPieces(targets[..i + 1], rhs)
  {
    assert targets[..i + 1] == targets[..i] + [targets[i]];
  }

  // ---------------------------------------------------------------------
  // Properties of the expression rules
  // ---------------------------------------------------------------------

  /** The decimal texts the examples below use. */
  lemma SmallIntText()
    ensures IntText(1) == "1" && IntText(2) == "2" && IntText(3) == "3" && IntText(10) == "10"
  {
    assert NatText(1) == [DigitChar(1)] == "1";
    assert NatText(2) == [DigitChar(2)] == "2";
    assert NatText(3) == [DigitChar(3)] == "3";
    assert NatText(10) == NatText(1) + [DigitChar(0)] == "10";
  }

  /** A name gets the private-variable marker `_`; an attribute of the
      reserved name `GLOBAL` is the bare attribute. */
  lemma NamesAndGlobals(id: string, attr: string)
    ensures TranslateExpr(Name(id)) == Ok("_" + id)
    ensures TranslateExpr(Attribute(Name("GLOBAL"), attr)) == Ok(attr)
  {
  }

  /** Any other attribute access is the lowered receiver, a space and the
      attribute; a failing receiver fails it. */
  lemma AttributeLowering(receiver: Expr, attr: string)
    requires !(receiver.Name? && receiver.id == "GLOBAL")
    ensures TranslateExpr(receiver).Err? ==> TranslateExpr(Attribute(receiver, attr)) == TranslateExpr(receiver)
    ensures TranslateExpr(receiver).Ok? ==>
              TranslateExpr(Attribute(receiver, attr)) == Ok(TranslateExpr(receiver).value + " " + attr)
  {
  }

  /** The elements of a list are lowered one by one, in order; the list
      fails exactly when one element fails. */
  lemma {:induction false} TranslateAllElements(es: seq<Expr>)
    ensures TranslateAll(es).Ok? <==> forall k :: 0 <= k < |es| ==> TranslateExpr(es[k]).Ok?
    ensures TranslateAll(es).Ok? ==>
              |TranslateAll(es).value| == |es|
              && forall k :: 0 <= k < |es| ==> TranslateAll(es).value[k] == TranslateExpr(es[k]).value
  {
    if es != [] {
      TranslateAllElements(es[1..]);
      assert forall k :: 1 <= k < |es| ==> es[1..][k - 1] == es[k];
      if TranslateAll(es).Ok? {
        assert TranslateAll(es).value == [TranslateExpr(es[0]).value] + TranslateAll(es[1..]).value;
      }
    }
  }

  /** A list or tuple display is the bracketed, comma-separated sequence of
      its lowered elements; it fails exactly when an element fails. */
  lemma ListLowering(elts: seq<Expr>)
    ensures TranslateExpr(Tuple(elts)) == TranslateExpr(List(elts))
    ensures TranslateExpr(List(elts)).Ok? <==> forall k :: 0 <= k < |elts| ==> TranslateExpr(elts[k]).Ok?
    ensures TranslateExpr(List(elts)).Ok? ==>
              TranslateExpr(List(elts)).value
              == "[" + Join(", ", seq(|elts|, k requires 0 <= k < |elts| && TranslateExpr(elts[k]).Ok? => TranslateExpr(elts[k]).value)) + "]"
  {
    TranslateAllElements(elts);
    if TranslateAll(elts).Ok? {
      assert TranslateAll(elts).value
             == seq(|elts|, k requires 0 <= k < |elts| && TranslateExpr(elts[k]).Ok? => TranslateExpr(elts[k]).value);
    }
  }

  /** `and`/`or` over several operands puts ` && ` or ` || ` between their
      lowered texts; it fails exactly when an operand fails. */
  lemma BoolOpLowering(op: BoolOperator, operands: seq<Expr>)
    ensures TranslateExpr(BoolOp(op, operands)).Ok? <==> forall k :: 0 <= k < |operands| ==> TranslateExpr(operands[k]).Ok?
    ensures TranslateExpr(BoolOp(op, operands)).Ok? ==>
              TranslateExpr(BoolOp(op, operands)).value
              == Join(if op == And then " && " else " || ",
                      seq(|operands|, k requires 0 <= k < |operands| && TranslateExpr(operands[k]).Ok? => TranslateExpr(operands[k]).value))
  {
    TranslateAllElements(operands);
    if TranslateAll(operands).Ok? {
      assert TranslateAll(operands).value
             == seq(|operands|, k requires 0 <= k < |operands| && TranslateExpr(operands[k]).Ok? => TranslateExpr(operands[k]).value);
    }
  }

  /** `not x` is `!` glued to the operand; every other unary operator has
      no handler and is fatal. */
  lemma UnaryOpLowering(op: UnaryOperator, x: Expr)
    ensures TranslateExpr(UnaryOp(op, x)).Ok? <==> op == Not && TranslateExpr(x).Ok?
    ensures TranslateExpr(UnaryOp(op, x)).Ok? ==> TranslateExpr(UnaryOp(op, x)).value == "!" + TranslateExpr(x).value
    ensures op != Not ==> TranslateExpr(UnaryOp(op, x)) == Err(UnknownNode)
  {
  }

  /** A conditional expression is an `if ... then ... else ...;` over the
      lowered test and branches. */
  lemma IfExpLowering(test: Expr, body: Expr, orelse: Expr)
    ensures TranslateExpr(IfExp(test, body, orelse)).Ok?
            <==> TranslateExpr(test).Ok? && TranslateExpr(body).Ok? && TranslateExpr(orelse).Ok?
    ensures TranslateExpr(IfExp(test, body, orelse)).Ok? ==>
              TranslateExpr(IfExp(test, body, orelse)).value
              == "if (" + TranslateExpr(test).value + ") then {" + TranslateExpr(body).value + "} else {"
                 + TranslateExpr(orelse).value + "};"
  {
  }

  /** An expression statement is its expression followed by `;`; `pass`
      emits nothing; `break` and `continue` are kept as they are. */
  lemma SimpleStatements(value: Expr)
    ensures TranslateStmt(ExprStmt(value)).Ok? <==> TranslateExpr(value).Ok?
    ensures TranslateStmt(ExprStmt(value)).Ok? ==> TranslateStmt(ExprStmt(value)).value == TranslateExpr(value).value + ";"
    ensures TranslateStmt(Pass) == Ok("")
    ensures TranslateStmt(Break) == Ok("break;") && TranslateStmt(Continue) == Ok("continue;")
  {
  }

  /** A binary operation fails exactly when an operand fails or the
      operator has no token; otherwise it is `left token right`, each operand
      in parentheses when it is itself a binary operation. */
  lemma BinOpLowering(left: Expr, op: BinOperator, right: Expr)
    ensures TranslateExpr(BinOp(left, op, right)).Ok? <==>
              TranslateExpr(left).Ok? && TranslateExpr(right).Ok? && op != OtherBinOp
    ensures TranslateExpr(BinOp(left, op, right)).Ok? ==>
              TranslateExpr(BinOp(left, op, right)).value
                == WrapOperand(left, TranslateExpr(left).value) + " " + BinOpToken(op).value + " "
                   + WrapOperand(right, TranslateExpr(right).value)
  {
  }

  /** A comparison with other than exactly one comparator yields nothing,
      whatever its operands; with one it is `left op right`, which is never
      empty. */
  lemma CompareLowering(first: Expr, comparisons: seq<Comparison>)
    ensures |comparisons| != 1 ==> TranslateExpr(Compare(first, comparisons)) == Ok("")
    ensures |comparisons| == 1 && TranslateExpr(Compare(first, comparisons)).Ok? ==>
              var c := comparisons[0];
              && TranslateExpr(first).Ok? && CmpOpToken(c.op).Ok? && TranslateExpr(c.comparator).Ok?
              && TranslateExpr(Compare(first, comparisons)).value
                 == TranslateExpr(first).value + " " + CmpOpToken(c.op).value + " " + TranslateExpr(c.comparator).value
              && TranslateExpr(Compare(first, comparisons)).value != ""
    ensures |comparisons| == 1 ==>
              (TranslateExpr(Compare(first, comparisons)).Ok?
               <==> TranslateExpr(first).Ok? && CmpOpToken(comparisons[0].op).Ok?
                    && TranslateExpr(comparisons[0].comparator).Ok?)
  {
  }

  /** Indexing by a constant is `select` with the index's Python text. */
  lemma SubscriptIndex(container: Expr, k: Const)
    ensures TranslateExpr(Subscript(container, Constant(k)))
            == TranslateExpr(container).Map(v => v + " select " + PyStr(k))
  {
  }

  /** A slice with a step or a missing bound yields nothing; non-constant
      bounds fail the assertion. */
  lemma SliceUnsupported(container: Expr, lower: Option<Expr>, upper: Option<Expr>, step: Option<Expr>)
    ensures step.Some? ==> TranslateExpr(Subscript(container, Slice(lower, upper, step))) == Ok("")
    ensures lower.None? || upper.None? ==> TranslateExpr(Subscript(container, Slice(lower, upper, step))) == Ok("")
    ensures step.None? && lower.Some? && upper.Some? && !(lower.value.Constant? && upper.value.Constant?) ==>
              TranslateExpr(Subscript(container, Slice(lower, upper, step))) == Err(AssertionFailed)
  {
  }

  /** Constant bounds `lo:hi` become the pair `[lo, hi - lo]`, an offset
      and a length, when both are numbers to Python's `-` (`int` or
      `bool`). */
  lemma SliceBounds(container: Expr, v: string, lo: Const, hi: Const)
    requires TranslateExpr(container) == Ok(v) && NumericValue(lo).Some? && NumericValue(hi).Some?
    ensures TranslateExpr(Subscript(container, Slice(Some(Constant(lo)), Some(Constant(hi)), None)))
            == Ok(v + " select [" + PyStr(lo) + ", " + IntText(NumericValue(hi).value - NumericValue(lo).value) + "]")
  {
    var bounds := Slice(Some(Constant(lo)), Some(Constant(hi)), None);
    assert TranslateExpr(Subscript(container, bounds)) == LowerSubscript(Ok(v), bounds);
    LowerSliceBounds(v, lo, hi);
  }

  lemma LowerSliceBounds(v: string, lo: Const, hi: Const)
    requires NumericValue(lo).Some? && NumericValue(hi).Some?
    ensures LowerSubscript(Ok(v), Slice(Some(Constant(lo)), Some(Constant(hi)), None))
            == Ok(v + " select [" + PyStr(lo) + ", " + IntText(NumericValue(hi).value - NumericValue(lo).value) + "]")
  {
  }

  /** A failing container fails the slice first; otherwise any other
      constant bound is a type error. */
  lemma SliceFaults(container: Expr, lo: Const, hi: Const)
    ensures var e := Subscript(container, Slice(Some(Constant(lo)), Some(Constant(hi)), None));
            && (TranslateExpr(container).Err? ==> TranslateExpr(e) == TranslateExpr(container))
            && (TranslateExpr(container).Ok? && (NumericValue(lo).None? || NumericValue(hi).None?) ==>
                  TranslateExpr(e) == Err(BadOperandType))
  {
  }

  /** For integer bounds `l` and `u`, `recv[l:u]` is `recv select [a, b]`
      where `a` reads back to the offset `l` and `b` to the length `u - l`,
      so the two add up to the exclusive end `u`. */
  lemma SliceBoundsReadBack(container: Expr, v: string, l: int, u: int)
    requires TranslateExpr(container) == Ok(v)
    ensures var r := TranslateExpr(Subscript(container, Slice(Some(Constant(CInt(l))), Some(Constant(CInt(u))), None)));
            && r == Ok(v + " select [" + IntText(l) + ", " + IntText(u - l) + "]")
            && ReadInt(IntText(l)) == Some(l) && ReadInt(IntText(u - l)).Some?
            && l + ReadInt(IntText(u - l)).value == u
  {
    SliceBounds(container, v, CInt(l), CInt(u));
    IntTextRoundTrip(l);
    IntTextRoundTrip(u - l);
  }

  /** `seq[2:5]` is `_seq select [2, 3]`. */
  lemma SliceExample()
    ensures var r := TranslateExpr(Subscript(Name("seq"), Slice(Some(Constant(CInt(2))), Some(Constant(CInt(5))), None)));
            r.Ok? && r.value == "_seq" + " select [" + "2" + ", " + "3" + "]"
  {
    SmallIntText();
    assert TranslateExpr(Name("seq")).value == "_seq";
    SliceBounds(Name("seq"), "_seq", CInt(2), CInt(5));
  }

  /** Calls: keyword arguments, then starred arguments, yield nothing before
      anything else is looked at; a named callee is called with `call` on
      its one argument or on the array of its arguments; a method callee is
      followed by its one argument or by the array of them; any other callee
      yields nothing. */
  lemma CallLowering(func: Expr, args: seq<Expr>, keywords: seq<Keyword>)
    ensures |keywords| != 0 ==> TranslateExpr(Call(func, args, keywords)) == Ok("")
    ensures |keywords| == 0 && HasStarred(args) ==> TranslateExpr(Call(func, args, keywords)) == Ok("")
    ensures |keywords| == 0 && !HasStarred(args) && func.Name? && |args| == 1 ==>
              TranslateExpr(Call(func, args, keywords)) == TranslateExpr(args[0]).Map(a => a + " call " + func.id)
    ensures |keywords| == 0 && !HasStarred(args) && func.Name? && |args| != 1 ==>
              TranslateExpr(Call(func, args, keywords))
              == TranslateAll(args).Map(ps => "[" + Join(", ", ps) + "] call " + func.id)
    ensures |keywords| == 0 && !HasStarred(args) && func.Attribute? && |args| == 1
            && TranslateExpr(func).Ok? && TranslateExpr(args[0]).Ok? ==>
              TranslateExpr(Call(func, args, keywords))
              == Ok(TranslateExpr(func).value + " " + TranslateExpr(args[0]).value)
    ensures |keywords| == 0 && !HasStarred(args) && func.Attribute? && |args| != 1
            && TranslateExpr(func).Ok? && TranslateAll(args).Ok? ==>
              TranslateExpr(Call(func, args, keywords))
              == Ok(TranslateExpr(func).value + " [" + Join(", ", TranslateAll(args).value) + "]")
    ensures |keywords| == 0 && !HasStarred(args) && func.Attribute? ==>
              (TranslateExpr(Call(func, args, keywords)).Ok?
               <==> TranslateExpr(func).Ok? && (if |args| == 1 then TranslateExpr(args[0]).Ok? else TranslateAll(args).Ok?))
    ensures |keywords| == 0 && !HasStarred(args) && func.Attribute? && |args| == 1 && TranslateExpr(func).Err? ==>
              TranslateExpr(Call(func, args, keywords)) == Err(TranslateExpr(func).fault)
    ensures |keywords| == 0 && !HasStarred(args) && func.Attribute? && |args| != 1 && TranslateAll(args).Err? ==>
              TranslateExpr(Call(func, args, keywords)) == Err(TranslateAll(args).fault)
    ensures |keywords| == 0 && !HasStarred(args) && func.Attribute? && |args| == 1
            && TranslateExpr(func).Ok? && TranslateExpr(args[0]).Err? ==>
              TranslateExpr(Call(func, args, keywords)) == Err(TranslateExpr(args[0]).fault)
    ensures |keywords| == 0 && !HasStarred(args) && func.Attribute? && |args| != 1
            && TranslateAll(args).Ok? && TranslateExpr(func).Err? ==>
              TranslateExpr(Call(func, args, keywords)) == Err(TranslateExpr(func).fault)
    ensures |keywords| == 0 && !HasStarred(args) && !func.Name? && !func.Attribute? ==>
              TranslateExpr(Call(func, args, keywords)) == Ok("")
  {
  }

  /** The number of formatted (non-constant) parts of an f-string. */
  function FormattedCount(values: seq<Expr>): (n: nat)
    ensures n <= |values|
  {
    if values == [] then 0 else (if values[0].Constant? then 0 else 1) + FormattedCount(values[1..])
  }

  lemma {:induction false} FormattedCountSnoc(values: seq<Expr>, k: int)
    requires 0 <= k < |values|
    ensures FormattedCount(values[..k + 1]) == FormattedCount(values[..k]) + (if values[k].Constant? then 0 else 1)
  {
    if k > 0 {
      assert values[..k + 1][1..] == values[1..][..k];
      assert values[..k][1..] == values[1..][..k - 1];
      FormattedCountSnoc(values[1..], k - 1);
    } else {
      assert values[..1][1..] == [];
    }
  }

  /** The template of an f-string keeps every constant part in place and
      replaces the formatted part at position `k` by the placeholder
      numbered `index` plus the number of formatted parts before it; the
      lowered values are listed in the same order, so the value a
      placeholder stands for sits at that placeholder's rank in the list. */
  lemma {:induction false} JoinedPartsNumbering(values: seq<Expr>, index: int)
    requires JoinedParts(values, index).Ok?
    ensures PartsNumbered(values, index, JoinedParts(values, index).value)
  {
    if values != [] {
      var head := JoinedPartsStep(values, index);
      JoinedPartsNumbering(values[1..], index + |head|);
      NumberingShift(values, index, JoinedParts(values, index).value, JoinedParts(values[1..], index + |head|).value, head);
    }
  }

  /** The template parts `p.0` keep the constant parts in place and number
      the formatted ones from `index`; `p.1` holds the lowered values at the
      matching ranks. */
  predicate PartsNumbered(values: seq<Expr>, index: int, p: (seq<string>, seq<string>)) {
    && |p.0| == |values| && |p.1| == FormattedCount(values)
    && (forall k :: 0 <= k < |values| && values[k].Constant? ==> p.0[k] == ConstantPart(values[k]))
    && (forall k :: 0 <= k < |values| && !values[k].Constant? ==> NumberedAt(values, index, p, k))
  }

  /** The numbering of the parts after the first carries over to all parts. */
  lemma NumberingShift(values: seq<Expr>, index: int, p: (seq<string>, seq<string>), q: (seq<string>, seq<string>),
                       head: seq<string>)
    requires values != []
    requires |head| == if values[0].Constant? then 0 else 1
    requires |p.0| > 0 && p.0 == [p.0[0]] + q.0 && p.1 == head + q.1
    requires p.0[0] == (if values[0].Constant? then ConstantPart(values[0]) else Placeholder(index))
    requires !values[0].Constant? ==> TranslateExpr(values[0]) == Ok(head[0])
    requires PartsNumbered(values[1..], index + |head|, q)
    ensures PartsNumbered(values, index, p)
  {
    assert |p.1| == FormattedCount(values);
    forall k | 0 <= k < |values| && values[k].Constant?
      ensures p.0[k] == ConstantPart(values[k])
    {
      if k > 0 {
        assert values[1..][k - 1] == values[k];
      }
    }
    forall k | 0 <= k < |values| && !values[k].Constant?
      ensures NumberedAt(values, index, p, k)
    {
      if k == 0 {
        assert values[..0] == [];
      } else {
        NumberedShift(values, index, p, q, k, head);
      }
    }
  }

  /** One step of `JoinedParts`: the first part, then the parts of the
      rest numbered from one more when the first part is formatted. */
  lemma JoinedPartsStep(values: seq<Expr>, index: int) returns (head: seq<string>)
    requires values != [] && JoinedParts(values, index).Ok?
    ensures |head| == if values[0].Constant? then 0 else 1
    ensures JoinedParts(values[1..], index + |head|).Ok?
    ensures var p := JoinedParts(values, index).value;
            var q := JoinedParts(values[1..], index + |head|).value;
            && p.0 == [p.0[0]] + q.0
            && p.1 == head + q.1
            && p.0[0] == (if values[0].Constant? then ConstantPart(values[0]) else Placeholder(index))
            && (!values[0].Constant? ==> TranslateExpr(values[0]) == Ok(head[0]))
  {
    if values[0].Constant? {
      head := [];
    } else {
      head := [TranslateExpr(values[0]).value];
    }
  }

  /** A formatted part after the first keeps its numbering relative to the
      rest of the parts, moved past the first part. */
  lemma NumberedShift(values: seq<Expr>, index: int, p: (seq<string>, seq<string>), q: (seq<string>, seq<string>),
                      k: int, head: seq<string>)
    requires 1 <= k < |values| && !values[k].Constant?
    requires |p.0| == |values| && p.0 == [p.0[0]] + q.0
    requires |head| == if values[0].Constant? then 0 else 1
    requires p.1 == head + q.1
    requires NumberedAt(values[1..], index + |head|, q, k - 1)
    ensures NumberedAt(values, index, p, k)
  {
    var rest := values[1..];
    assert values[..k][1..] == rest[..k - 1];
    assert rest[k - 1] == values[k];
    var rank := FormattedCount(rest[..k - 1]);
    var r0 := FormattedCount(values[..k]);
    assert r0 == |head| + rank;
    assert index + r0 == index + |head| + rank;
    assert p.0[k] == q.0[k - 1];
    assert p.1[r0] == q.1[rank];
  }

  /** The formatted part at position `k` of `values` has its placeholder
      and its value at matching ranks in `p`, the template parts and the
      values produced from a first number `index`. */
  predicate NumberedAt(values: seq<Expr>, index: int, p: (seq<string>, seq<string>), k: int)
    requires 0 <= k < |values| && |p.0| == |values|
  {
    var rank := FormattedCount(values[..k]);
    && p.0[k] == Placeholder(index + rank)
    && rank < |p.1|
    && TranslateExpr(values[k]) == Ok(p.1[rank])
  }

  /** A formatted value with a conversion (`!r`, `!s`, `!a`) or a format
      spec lowers to nothing; otherwise it is its inner expression. */
  lemma FormattedValueLowering(inner: Expr, conversion: int, hasFormatSpec: bool)
    ensures conversion != -1 || hasFormatSpec ==>
              TranslateExpr(FormattedValue(inner, conversion, hasFormatSpec)) == Ok("")
    ensures conversion == -1 && !hasFormatSpec ==>
              TranslateExpr(FormattedValue(inner, conversion, hasFormatSpec)) == TranslateExpr(inner)
  {
  }

  /** In the value list of an f-string, a formatted part with a conversion
      or a format spec is listed as the empty text, and any other formatted
      part as its inner expression's text, at its placeholder's rank. */
  lemma FormattedPartValue(values: seq<Expr>, k: int)
    requires JoinedParts(values, 1).Ok?
    requires 0 <= k < |values| && values[k].FormattedValue?
    ensures var p := JoinedParts(values, 1).value;
            var rank := FormattedCount(values[..k]);
            var v := values[k];
            && rank < |p.1| && |p.0| == |values|
            && p.0[k] == Placeholder(1 + rank)
            && (v.conversion != -1 || v.hasFormatSpec ==> p.1[rank] == "")
            && (v.conversion == -1 && !v.hasFormatSpec ==> TranslateExpr(v.inner) == Ok(p.1[rank]))
  {
    JoinedPartsNumbering(values, 1);
    assert NumberedAt(values, 1, JoinedParts(values, 1).value, k);
  }

  /** The parts of an f-string lower exactly when every formatted part
      lowers; constant parts cannot fail. */
  lemma {:induction false} JoinedPartsSucceed(values: seq<Expr>, index: int)
    ensures JoinedParts(values, index).Ok?
            <==> forall k :: 0 <= k < |values| && !values[k].Constant? ==> TranslateExpr(values[k]).Ok?
  {
    if values != [] {
      JoinedPartsSucceed(values[1..], if values[0].Constant? then index else index + 1);
      assert forall k :: 1 <= k < |values| ==> values[1..][k - 1] == values[k];
    }
  }

  /** An f-string whose parts are all string constants is their plain
      concatenation, without quotes; one with formatted parts is a `format`
      call on the template and the lowered values, whose count is the number
      of formatted parts. */
  lemma JoinedStrLowering(values: seq<Expr>)
    ensures AllTextConstants(values) ==> TranslateExpr(JoinedStr(values)) == Ok(Join("", ConstantParts(values)))
    ensures AllConstants(values) && !AllTextConstants(values) ==> TranslateExpr(JoinedStr(values)) == Err(BadOperandType)
    ensures !AllConstants(values) && TranslateExpr(JoinedStr(values)).Ok? ==>
              && JoinedParts(values, 1).Ok?
              && |JoinedParts(values, 1).value.1| == FormattedCount(values) > 0
              && TranslateExpr(JoinedStr(values)).value
                 == "format [\"" + Join("", JoinedParts(values, 1).value.0) + "\", "
                    + Join(", ", JoinedParts(values, 1).value.1) + "]"
    ensures !AllConstants(values) ==>
              (TranslateExpr(JoinedStr(values)).Ok?
               <==> ConstantPartsAreText(values)
                    && forall k :: 0 <= k < |values| && !values[k].Constant? ==> TranslateExpr(values[k]).Ok?)
  {
    JoinedPartsSucceed(values, 1);
    if !AllConstants(values) && TranslateExpr(JoinedStr(values)).Ok? {
      JoinedPartsNumbering(values, 1);
      var k :| 0 <= k < |values| && !values[k].Constant?;
    }
  }

  lemma FormatParts(values: seq<Expr>)
    requires values == [Constant(CStr("a")), FormattedValue(Name("x"), -1, false),
                        Constant(CStr("b")), FormattedValue(Name("y"), -1, false)]
    ensures var p := JoinedParts(values, 1);
            p.Ok? && p.value.0 == ["a", "%1", "b", "%2"] && p.value.1 == ["_x", "_y"]
  {
    SmallIntText();
    assert values[3..][1..] == [];
    assert values[2..][1..] == values[3..];
    assert values[1..][1..] == values[2..];
    assert values[3..][0] == values[3] && values[2..][0] == values[2] && values[1..][0] == values[1];
    assert Placeholder(1) == "%1" && Placeholder(2) == "%2";
    assert TranslateExpr(Name("x")).value == "_x" && TranslateExpr(Name("y")).value == "_y";
    assert JoinedParts([], 3) == Ok(([], []));
    assert TranslateExpr(values[1]).Ok? && TranslateExpr(values[1]).value == "_x";
    assert TranslateExpr(values[3]).Ok? && TranslateExpr(values[3]).value == "_y";
    var p3 := JoinedParts(values[3..], 2);
    assert p3.Ok? && p3.value.0 == ["%2"] && p3.value.1 == ["_y"];
    var p2 := JoinedParts(values[2..], 2);
    assert p2.Ok? && p2.value.0 == ["b", "%2"] && p2.value.1 == ["_y"];
    var p1 := JoinedParts(values[1..], 1);
    assert p1.Ok? && p1.value.0 == ["%1", "b", "%2"] && p1.value.1 == ["_x", "_y"];
  }

  lemma FormatJoins()
    ensures Join("", ["a", "%1", "b", "%2"]) == "a%1b%2"
    ensures Join(", ", ["_x", "_y"]) == "_x, _y"
  {
    assert ["a", "%1", "b", "%2"][1..] == ["%1", "b", "%2"];
    assert ["%1", "b", "%2"][1..] == ["b", "%2"];
    assert ["b", "%2"][1..] == ["%2"];
    assert ["_x", "_y"][1..] == ["_y"];
  }

  /** `f"a{x}b{y}"` is `format ["a%1b%2", _x, _y]`. */
  lemma FormatExample(values: seq<Expr>)
    requires values == [Constant(CStr("a")), FormattedValue(Name("x"), -1, false),
                        Constant(CStr("b")), FormattedValue(Name("y"), -1, false)]
    ensures var r := TranslateExpr(JoinedStr(values));
            r.Ok? && r.value == "format [\"a%1b%2\", _x, _y]"
  {
    FormatParts(values);
    FormatJoins();
    assert !AllConstants(values) by { assert !values[1].Constant?; }
    assert ConstantPartsAreText(values);
    var r := TranslateExpr(JoinedStr(values));
    assert r == Ok("format [\"" + "a%1b%2" + "\", " + "_x, _y" + "]");
  }

  // ---------------------------------------------------------------------
  // Properties of the statement rules
  // ---------------------------------------------------------------------

  /** A body is the concatenation of its statements' outputs in order; it
      fails exactly when one of them fails. */
  lemma {:induction false} TranslateBodyConcat(body: seq<Stmt>)
    ensures TranslateBody(body).Ok? <==> forall k :: 0 <= k < |body| ==> TranslateStmt(body[k]).Ok?
    ensures TranslateBody(body).Ok? ==>
              TranslateBody(body).value
              == Join("", seq(|body|, k requires 0 <= k < |body| && TranslateStmt(body[k]).Ok? => TranslateStmt(body[k]).value))
  {
    if body != [] {
      TranslateBodyConcat(body[1..]);
      assert forall k :: 1 <= k < |body| ==> body[1..][k - 1] == body[k];
      if TranslateBody(body).Ok? {
        var parts := seq(|body|, k requires 0 <= k < |body| && TranslateStmt(body[k]).Ok? => TranslateStmt(body[k]).value);
        var rest := seq(|body| - 1, k requires 0 <= k < |body| - 1 && TranslateStmt(body[1..][k]).Ok? => TranslateStmt(body[1..][k]).value);
        assert parts[1..] == rest;
        JoinEmptyCons(parts);
      }
    }
  }

  /** Assignment to names: each target `t` contributes `_t = <rhs>;`, in
      target order. A right-hand side that fails at an accepted first target fails
      the statement with its fault. Otherwise a target the handler does not
      accept anywhere in the list makes the whole statement empty. */
  lemma AssignLowering(targets: seq<Expr>, rhs: Expr)
    ensures AllNames(targets) && TranslateExpr(rhs).Ok? ==>
              TranslateStmt(Assign(targets, rhs))
              == Ok(Join("", seq(|targets|, k requires 0 <= k < |targets| =>
                                   "_" + targets[k].id + " = " + TranslateExpr(rhs).value + ";")))
    ensures (exists k :: 0 <= k < |targets| && !AssignableTarget(targets[k])) ==>
              TranslateStmt(Assign(targets, rhs))
              == if AssignableTarget(targets[0]) && TranslateExpr(rhs).Err? then Err(TranslateExpr(rhs).fault) else Ok("")
    ensures targets != [] && AssignableTarget(targets[0]) && TranslateExpr(rhs).Err? ==>
              TranslateStmt(Assign(targets, rhs)) == Err(TranslateExpr(rhs).fault)
  {
    if AllNames(targets) && TranslateExpr(rhs).Ok? {
      var v := TranslateExpr(rhs).value;
      assert AssignPieces(targets, v)
             == seq(|targets|, k requires 0 <= k < |targets| => "_" + targets[k].id + " = " + v + ";");
    }
  }

  /** When the handler accepts every target, names and constant-index
      subscripts alike, the statement is the targets' pieces in order, or
      the right-hand side's fault when it fails; with no targets at all the
      right-hand side is never lowered. */
  lemma AcceptedTargetsLowering(targets: seq<Expr>, rhs: Expr)
    ensures targets == [] ==> TranslateStmt(Assign(targets, rhs)) == Ok("")
    ensures targets != [] && (forall k :: 0 <= k < |targets| ==> AssignableTarget(targets[k])) ==>
              TranslateStmt(Assign(targets, rhs))
              == TranslateExpr(rhs).Map(v => Join("", seq(|targets|, k requires 0 <= k < |targets| => AssignPiece(targets[k], v))))
  {
    if targets != [] && (forall k :: 0 <= k < |targets| ==> AssignableTarget(targets[k])) && TranslateExpr(rhs).Ok? {
      var v := TranslateExpr(rhs).value;
      assert AssignPieces(targets, v) == seq(|targets|, k requires 0 <= k < |targets| => AssignPiece(targets[k], v));
    }
  }

  /** As written, assigning to `recv[k]` emits `<rhs> set [k, <rhs>]` with no
      closing semicolon: the output does not depend on the receiver at all. */
  lemma SubscriptAssignAsWritten(receiver: Expr, other: Expr, k: Const, rhs: Expr)
    ensures TranslateStmt(Assign([Subscript(receiver, Constant(k))], rhs))
            == TranslateExpr(rhs).Map(v => v + " set [" + PyStr(k) + ", " + v + "]")
    ensures TranslateStmt(Assign([Subscript(receiver, Constant(k))], rhs))
            == TranslateStmt(Assign([Subscript(other, Constant(k))], rhs))
  {
  }

  /** An annotated assignment without a value yields nothing; with one, the
      handler reads `targets`, which `AnnAssign` does not have. */
  lemma AnnotatedAssignment(target: Expr, annotation: Expr, value: Option<Expr>)
    ensures TranslateStmt(AnnAssign(target, annotation, value)) == if value.None? then Ok("") else Err(MissingAttribute)
  {
  }

  /** `t op= v` on a name is desugared to `_t = _t op v;`; on any other target
      the assertion fails. */
  lemma AugAssignLowering(target: Expr, op: BinOperator, value: Expr)
    ensures !target.Name? ==> TranslateStmt(AugAssign(target, op, value)) == Err(AssertionFailed)
    ensures target.Name? && op != OtherBinOp && TranslateExpr(value).Ok? ==>
              TranslateStmt(AugAssign(target, op, value))
              == Ok("_" + target.id + " = _" + target.id + " " + BinOpToken(op).value + " "
                    + TranslateExpr(value).value + ";")
    ensures target.Name? ==>
              (TranslateStmt(AugAssign(target, op, value)).Ok? <==> op != OtherBinOp && TranslateExpr(value).Ok?)
    ensures target.Name? && op == OtherBinOp ==> TranslateStmt(AugAssign(target, op, value)) == Err(UnknownNode)
    ensures target.Name? && op != OtherBinOp && TranslateExpr(value).Err? ==>
              TranslateStmt(AugAssign(target, op, value)) == Err(TranslateExpr(value).fault)
  {
  }

  /** Deleting names sets each to `nil`, in order; any other target makes the
      whole statement empty. */
  lemma DeleteLowering(targets: seq<Expr>)
    ensures AllNames(targets) ==>
              TranslateStmt(Delete(targets))
              == Ok(Join("", seq(|targets|, k requires 0 <= k < |targets| => "_" + targets[k].id + " = nil;")))
    ensures !AllNames(targets) ==> TranslateStmt(Delete(targets)) == Ok("")
  {
    if AllNames(targets) {
      assert DeletePieces(targets) == seq(|targets|, k requires 0 <= k < |targets| => "_" + targets[k].id + " = nil;");
    }
  }

  /** A conditional with an `else` is `if (c) then {body} else {orelse};`, one
      without it is `if (c) then {body};`. */
  lemma IfLowering(test: Expr, body: seq<Stmt>, orelse: seq<Stmt>)
    ensures TranslateExpr(test).Ok? && TranslateBody(body).Ok? && TranslateBody(orelse).Ok? ==>
              var c := TranslateExpr(test).value;
              var b := TranslateBody(body).value;
              TranslateStmt(If(test, body, orelse))
              == if |orelse| != 0 then Ok("if (" + c + ") then {" + b + "} else {" + TranslateBody(orelse).value + "};")
                 else Ok("if (" + c + ") then {" + b + "};")
    ensures TranslateStmt(If(test, body, orelse)).Ok?
            <==> TranslateExpr(test).Ok? && TranslateBody(body).Ok? && TranslateBody(orelse).Ok?
    ensures TranslateExpr(test).Err? ==> TranslateStmt(If(test, body, orelse)) == Err(TranslateExpr(test).fault)
    ensures TranslateExpr(test).Ok? && TranslateBody(body).Err? ==>
              TranslateStmt(If(test, body, orelse)) == Err(TranslateBody(body).fault)
    ensures TranslateExpr(test).Ok? && TranslateBody(body).Ok? && TranslateBody(orelse).Err? ==>
              TranslateStmt(If(test, body, orelse)) == Err(TranslateBody(orelse).fault)
  {
  }

  /** A `while` loop with an `else` yields nothing; otherwise it is
      `while {c} do {body};`. */
  lemma WhileLowering(test: Expr, body: seq<Stmt>, orelse: seq<Stmt>)
    ensures |orelse| != 0 ==> TranslateStmt(While(test, body, orelse)) == Ok("")
    ensures |orelse| == 0 && TranslateExpr(test).Ok? && TranslateBody(body).Ok? ==>
              TranslateStmt(While(test, body, orelse))
              == Ok("while {" + TranslateExpr(test).value + "} do {" + TranslateBody(body).value + "};")
    ensures |orelse| == 0 ==>
              (TranslateStmt(While(test, body, orelse)).Ok? <==> TranslateExpr(test).Ok? && TranslateBody(body).Ok?)
    ensures |orelse| == 0 && TranslateExpr(test).Err? ==>
              TranslateStmt(While(test, body, orelse)) == Err(TranslateExpr(test).fault)
    ensures |orelse| == 0 && TranslateExpr(test).Ok? && TranslateBody(body).Err? ==>
              TranslateStmt(While(test, body, orelse)) == Err(TranslateBody(body).fault)
  {
  }

  /** A `for` loop with an `else` yields nothing. Over `range` any
      non-constant argument fails the assertion; then a target that is not a
      name yields nothing; otherwise it is a counted loop, taking stop from
      one argument, start and stop from two, and all three from three, and
      counting from 0 to 0 by 1 for any other number of arguments. The loop
      fails exactly when its body fails. */
  lemma ForRangeLowering(target: Expr, args: seq<Expr>, keywords: seq<Keyword>, body: seq<Stmt>, orelse: seq<Stmt>)
    ensures |orelse| != 0 ==> TranslateStmt(For(target, Call(Name("range"), args, keywords), body, orelse)) == Ok("")
    ensures |orelse| == 0 && !AllConstantArgs(args) ==>
              TranslateStmt(For(target, Call(Name("range"), args, keywords), body, orelse)) == Err(AssertionFailed)
    ensures |orelse| == 0 && AllConstantArgs(args) && !target.Name? ==>
              TranslateStmt(For(target, Call(Name("range"), args, keywords), body, orelse)) == Ok("")
    ensures |orelse| == 0 && AllConstantArgs(args) && target.Name? && 1 <= |args| <= 3 && TranslateBody(body).Ok? ==>
              var start := if |args| == 1 then "0" else PyStr(args[0].value);
              var stop := if |args| == 1 then PyStr(args[0].value) else PyStr(args[1].value);
              var step := if |args| == 3 then PyStr(args[2].value) else "1";
              TranslateStmt(For(target, Call(Name("range"), args, keywords), body, orelse))
              == Ok("for \"_" + target.id + "\" from " + start + " to " + stop + " step " + step
                    + " do{" + TranslateBody(body).value + "};")
    ensures |orelse| == 0 && AllConstantArgs(args) && target.Name? && (|args| == 0 || |args| > 3)
            && TranslateBody(body).Ok? ==>
              TranslateStmt(For(target, Call(Name("range"), args, keywords), body, orelse))
              == Ok("for \"_" + target.id + "\" from " + "0" + " to " + "0" + " step " + "1" + " do{" + TranslateBody(body).value + "};")
    ensures |orelse| == 0 && AllConstantArgs(args) && target.Name? ==>
              (TranslateStmt(For(target, Call(Name("range"), args, keywords), body, orelse)).Ok?
               <==> TranslateBody(body).Ok?)
    ensures |orelse| == 0 && AllConstantArgs(args) && target.Name? && TranslateBody(body).Err? ==>
              TranslateStmt(For(target, Call(Name("range"), args, keywords), body, orelse)) == Err(TranslateBody(body).fault)
  {
  }

  lemma PassBody()
    ensures TranslateBody([Pass]) == Ok("")
  {
    assert [Pass][1..] == [];
    assert TranslateBody([]) == Ok("");
    assert TranslateBody([Pass]).value == "" + "";
  }

  /** `for i in range(2, 10, 2): pass` is `for "_i" from 2 to 10 step 2 do{};`. */
  lemma RangeExample()
    ensures var r := TranslateStmt(For(Name("i"), Call(Name("range"), [Constant(CInt(2)), Constant(CInt(10)), Constant(CInt(2))], []),
                                       [Pass], []));
            r.Ok? && r.value == "for \"_" + "i" + "\" from " + "2" + " to " + "10" + " step " + "2" + " do{" + "" + "};"
  {
    var args := [Constant(CInt(2)), Constant(CInt(10)), Constant(CInt(2))];
    SmallIntText();
    PassBody();
    assert AllConstantArgs(args);
    ForRangeLowering(Name("i"), args, [], [Pass], []);
  }

  /** Over any other iterable a target that is not a name yields nothing;
      otherwise the loop is a `forEach` block, which rebinds the loop
      variable from the cursor `_x` exactly when the variable is not `x`.
      The body is lowered before the iterable, and the loop fails exactly
      when one of them fails. */
  lemma ForEachLowering(target: Expr, iter: Expr, body: seq<Stmt>)
    ensures !IsRangeCall(iter) && !target.Name? ==> TranslateStmt(For(target, iter, body, [])) == Ok("")
    ensures !IsRangeCall(iter) && target.Name? && TranslateBody(body).Ok? && TranslateExpr(iter).Ok? ==>
              TranslateStmt(For(target, iter, body, []))
              == Ok("{" + ForEachBinding(target.id) + ";" + TranslateBody(body).value + "} forEach "
                    + TranslateExpr(iter).value + ";")
    ensures !IsRangeCall(iter) && target.Name? ==>
              (TranslateStmt(For(target, iter, body, [])).Ok? <==> TranslateBody(body).Ok? && TranslateExpr(iter).Ok?)
    ensures !IsRangeCall(iter) && target.Name? && TranslateBody(body).Err? ==>
              TranslateStmt(For(target, iter, body, [])) == Err(TranslateBody(body).fault)
    ensures !IsRangeCall(iter) && target.Name? && TranslateBody(body).Ok? && TranslateExpr(iter).Err? ==>
              TranslateStmt(For(target, iter, body, [])) == Err(TranslateExpr(iter).fault)
    ensures target.Name? ==> ((ForEachBinding(target.id) == "") <==> target.id == "x")
  {
  }

  /** Keyword-only or default parameters, then decorators, make a definition
      empty; otherwise it binds the name to a code block whose `params` lists
      the quoted, marker-prefixed positional parameters in declared order,
      joined by `", "`. */
  lemma FunctionDefLowering(name: string, params: Arguments, body: seq<Stmt>, decorators: seq<Expr>, isAsync: bool)
    ensures |params.kwonlyargs| != 0 || |params.defaults| != 0 ==>
              TranslateStmt(FunctionDef(name, params, body, decorators, isAsync)) == Ok("")
    ensures |decorators| != 0 ==> TranslateStmt(FunctionDef(name, params, body, decorators, isAsync)) == Ok("")
    ensures |params.kwonlyargs| == 0 && |params.defaults| == 0 && |decorators| == 0 && TranslateBody(body).Ok? ==>
              TranslateStmt(FunctionDef(name, params, body, decorators, isAsync))
              == Ok(name + " = {params [" + Join(", ", ParamNames(params.args)) + "];" + TranslateBody(body).value + "};")
    ensures |params.kwonlyargs| == 0 && |params.defaults| == 0 && |decorators| == 0 && TranslateBody(body).Err? ==>
              TranslateStmt(FunctionDef(name, params, body, decorators, isAsync)) == Err(TranslateBody(body).fault)
  {
  }

  lemma TwoParams()
    ensures Join(", ", ParamNames(["a", "b"])) == "\"_a\", \"_b\""
  {
    assert ["a", "b"][1..] == ["b"] && ["b"][1..] == [];
    assert ParamNames([]) == [];
    assert "\"_" + "b" + "\"" == "\"_b\"" && "\"_" + "a" + "\"" == "\"_a\"";
    assert ParamNames(["b"]) == ["\"_b\""];
    assert ParamNames(["a", "b"]) == ["\"_a\"", "\"_b\""];
  }

  lemma ReturnSum()
    ensures TranslateBody([Return(Some(BinOp(Name("a"), Add, Name("b"))))]) == Ok("_a + _b")
  {
    var ret := [Return(Some(BinOp(Name("a"), Add, Name("b"))))];
    assert ret[1..] == [];
    assert TranslateBody([]) == Ok("");
    assert TranslateExpr(Name("a")).value == "_a" && TranslateExpr(Name("b")).value == "_b";
    assert TranslateStmt(ret[0]).value == "_a + _b";
    assert TranslateBody(ret).Ok? && TranslateBody(ret).value == "_a + _b" + "" == "_a + _b";
  }

  /** `def f(a, b): return a + b` is `f = {params ["_a", "_b"];_a + _b};`. */
  lemma FunctionDefExample()
    ensures var r := TranslateStmt(FunctionDef("f", Arguments([], ["a", "b"], None, [], None, []),
                                               [Return(Some(BinOp(Name("a"), Add, Name("b"))))], [], false));
            r.Ok? && r.value == "f" + " = {params [" + "\"_a\", \"_b\"" + "];" + "_a + _b" + "};"
  {
    var params := Arguments([], ["a", "b"], None, [], None, []);
    var body := [Return(Some(BinOp(Name("a"), Add, Name("b"))))];
    FunctionDefLowering("f", params, body, [], false);
    TwoParams();
    ReturnSum();
  }

  /** A `return` is its bare lowered value (the last value of a block is its
      result); without a value it is empty. */
  lemma ReturnLowering(value: Option<Expr>)
    ensures TranslateStmt(Return(value)) == if value.Some? then TranslateExpr(value.value) else Ok("")
  {
  }

  /** Node kinds without a handler reach the fallback, whose message
      formatting raises: the whole translation fails. */
  lemma UnhandledKindsAreFatal(e: Expr, op: UnaryOperator, x: Expr)
    requires e.Starred? || e.Slice? || e.Dict? || e.OtherExpr?
    requires op != Not
    ensures TranslateExpr(e) == Err(UnknownNode)
    ensures TranslateExpr(UnaryOp(op, x)) == Err(UnknownNode)
    ensures TranslateStmt(OtherStmt) == Err(UnknownNode)
    ensures TranslateBody([OtherStmt]) == Err(UnknownNode)
  {
  }

  // ---------------------------------------------------------------------
  // The whole pipeline
  // ---------------------------------------------------------------------

  /** `to_sqf` on an already parsed module: translate, then lay out. */
  method ToSqf(m: Module) returns (r: Result<string>)
    ensures TranslateModule(m).Err? ==> r == Err(TranslateModule(m).fault)
    ensures TranslateModule(m).Ok? ==>
              r == Ok(Join("\n", Layout.IndentedLines(Layout.Lines(TranslateModule(m).value))))
  {
    match TranslateModule(m)
    case Err(f) => r := Err(f);
    case Ok(flat) =>
      var text := Layout.Indenter(flat);
      r := Ok(text);
  }
}
