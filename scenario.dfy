/** A whole program through compiler.py: two assignments, then an `if` with
    an `else` branch, lowered by `translate` and laid out by `indenter`. */
module Scenario {

  import opened Results
  import opened Ast
  import opened Text
  import opened Lexicon
  import Compiler
  import Layout

  /** `x = 1`, `y = 2`, then `if x < y: z = x + y` with `else: z = x - y`. */
  function IfElseProgram(): Module {
    Module([
      Assign([Name("x")], Constant(CInt(1))),
      Assign([Name("y")], Constant(CInt(2))),
      If(Compare(Name("x"), [Comparison(Lt, Name("y"))]),
         [Assign([Name("z")], BinOp(Name("x"), Add, Name("y")))],
         [Assign([Name("z")], BinOp(Name("x"), Sub, Name("y")))])
    ])
  }

  /** The flat SQF text of the program, line by line. */
  function IfElseLines(): seq<string> {
    ["_x = 1;", "_y = 2;", "if (_x < _y) then {", "_z = _x + _y;", "} else {", "_z = _x - _y;", "};"]
  }

  /** A name stands for its marked variable. */
  lemma NameText(v: string)
    ensures Compiler.TranslateExpr(Name(v)) == Ok("_" + v)
  {
  }

  /** `v = e` for a name `v` whose value lowers to `t`. */
  lemma AssignText(v: string, e: Expr, t: string)
    requires Compiler.TranslateExpr(e) == Ok(t)
    ensures Compiler.TranslateStmt(Assign([Name(v)], e)) == Ok("_" + v + " = " + t + ";")
  {
    Compiler.AssignLowering([Name(v)], e);
    assert Compiler.AssignableTarget(Name(v));
  }

  /** `a op b` over two names, with the operator's token `tok`. */
  lemma NamesBinOp(a: string, op: BinOperator, b: string, tok: string)
    requires BinOpToken(op) == Ok(tok)
    ensures Compiler.TranslateExpr(BinOp(Name(a), op, Name(b))) == Ok(("_" + a) + " " + tok + " " + ("_" + b))
  {
    Compiler.BinOpLowering(Name(a), op, Name(b));
    NameText(a);
    NameText(b);
    assert Compiler.WrapOperand(Name(a), "_" + a) == "_" + a;
    assert Compiler.WrapOperand(Name(b), "_" + b) == "_" + b;
  }

  /** `a tok b` over two names, for the comparison with token `tok`. */
  lemma NamesCompare(a: string, op: CmpOperator, b: string, tok: string)
    requires CmpOpToken(op) == Ok(tok)
    ensures Compiler.TranslateExpr(Compare(Name(a), [Comparison(op, Name(b))])) == Ok(("_" + a) + " " + tok + " " + ("_" + b))
  {
    Compiler.CompareLowering(Name(a), [Comparison(op, Name(b))]);
    NameText(a);
    NameText(b);
  }

  /** The two assignments of the first lines. */
  lemma IfElseAssignments()
    ensures Compiler.TranslateStmt(Assign([Name("x")], Constant(CInt(1)))) == Ok("_x = 1;")
    ensures Compiler.TranslateStmt(Assign([Name("y")], Constant(CInt(2)))) == Ok("_y = 2;")
  {
    Compiler.SmallIntText();
    assert Compiler.TranslateExpr(Constant(CInt(1))) == Ok("1");
    assert Compiler.TranslateExpr(Constant(CInt(2))) == Ok("2");
    AssignText("x", Constant(CInt(1)), "1");
    AssignText("y", Constant(CInt(2)), "2");
    assert "_" + "x" + " = " + "1" + ";" == "_x = 1;";
    assert "_" + "y" + " = " + "2" + ";" == "_y = 2;";
  }

  /** A block holding the one statement `v = a op b` over names. */
  lemma AssignOpBody(v: string, a: string, op: BinOperator, b: string, tok: string)
    requires BinOpToken(op) == Ok(tok)
    ensures Compiler.TranslateBody([Assign([Name(v)], BinOp(Name(a), op, Name(b)))])
            == Ok("_" + v + " = " + (("_" + a) + " " + tok + " " + ("_" + b)) + ";")
  {
    var st := Assign([Name(v)], BinOp(Name(a), op, Name(b)));
    var text := "_" + v + " = " + (("_" + a) + " " + tok + " " + ("_" + b)) + ";";
    NamesBinOp(a, op, b, tok);
    AssignText(v, BinOp(Name(a), op, Name(b)), ("_" + a) + " " + tok + " " + ("_" + b));
    assert Compiler.TranslateBody([]) == Ok("");
    BodyCons(st, [], text, "");
    assert [st] + [] == [st] && text + "" == text;
  }

  /** The texts of the parts of the `if` statement. */
  lemma IfElsePartTexts()
    ensures "_" + "z" + " = " + (("_" + "x") + " " + "+" + " " + ("_" + "y")) + ";" == "_z = _x + _y;"
    ensures "_" + "z" + " = " + (("_" + "x") + " " + "-" + " " + ("_" + "y")) + ";" == "_z = _x - _y;"
    ensures "if (" + (("_" + "x") + " " + "<" + " " + ("_" + "y")) + ") then {" == "if (_x < _y) then {"
  {
  }

  /** The `if` statement with both branches. */
  lemma IfElseStatement(st: Stmt)
    requires st == If(Compare(Name("x"), [Comparison(Lt, Name("y"))]),
                      [Assign([Name("z")], BinOp(Name("x"), Add, Name("y")))],
                      [Assign([Name("z")], BinOp(Name("x"), Sub, Name("y")))])
    ensures Compiler.TranslateStmt(st)
            == Ok("if (_x < _y) then {" + "_z = _x + _y;" + "} else {" + "_z = _x - _y;" + "};")
  {
    AssignOpBody("z", "x", Add, "y", "+");
    AssignOpBody("z", "x", Sub, "y", "-");
    NamesCompare("x", Lt, "y", "<");
    IfElsePartTexts();
    Compiler.IfLowering(st.ifTest, st.ifBody, st.ifElse);
  }

  /** The program lowers to its three statements' texts, in order. */
  lemma IfElseTranslation()
    ensures Compiler.TranslateModule(IfElseProgram())
            == Ok("_x = 1;" + "_y = 2;" + ("if (_x < _y) then {" + "_z = _x + _y;" + "} else {" + "_z = _x - _y;" + "};"))
  {
    var body := IfElseProgram().body;
    IfElseAssignments();
    IfElseStatement(body[2]);
    var ifText := "if (_x < _y) then {" + "_z = _x + _y;" + "} else {" + "_z = _x - _y;" + "};";
    BodyCons(body[2], [], ifText, "");
    assert [body[2]] + [] == body[2..];
    BodyCons(body[1], body[2..], "_y = 2;", ifText + "");
    assert [body[1]] + body[2..] == body[1..];
    BodyCons(body[0], body[1..], "_x = 1;", "_y = 2;" + (ifText + ""));
    assert [body[0]] + body[1..] == body;
    Regroup3("_x = 1;", "_y = 2;", ifText);
  }

  lemma Regroup3(a: string, b: string, c: string)
    ensures a + (b + (c + "")) == a + b + c
  {
  }

  /** A statement in front of a body. */
  lemma BodyCons(st: Stmt, rest: seq<Stmt>, a: string, b: string)
    requires Compiler.TranslateStmt(st) == Ok(a) && Compiler.TranslateBody(rest) == Ok(b)
    ensures Compiler.TranslateBody([st] + rest) == Ok(a + b)
  {
    assert ([st] + rest)[1..] == rest;
  }

  /** The flat text is its lines written one after the other. */
  lemma IfElseJoined()
    ensures Join("", IfElseLines())
            == "_x = 1;" + "_y = 2;" + ("if (_x < _y) then {" + "_z = _x + _y;" + "} else {" + "_z = _x - _y;" + "};")
  {
    var ls := IfElseLines();
    assert ls[6..] == ["};"];
    assert ls[5..][1..] == ls[6..];
    assert ls[4..][1..] == ls[5..];
    assert ls[3..][1..] == ls[4..];
    assert ls[2..][1..] == ls[3..];
    assert ls[1..][1..] == ls[2..];
  }

  /** The lines are chained: each ends a line or is followed by a `}`. */
  lemma IfElseChained()
    ensures Layout.Chained(IfElseLines())
  {
    var ls := IfElseLines();
    IfElseWellSplit();
  }

  /** Each line of the program is well split. */
  lemma IfElseWellSplit()
    ensures forall k :: 0 <= k < |IfElseLines()| ==> Layout.WellSplit(IfElseLines()[k])
  {
    AssignmentsWellSplit();
    BlocksWellSplit();
  }

  lemma AssignmentsWellSplit()
    ensures Layout.WellSplit("_x = 1;") && Layout.WellSplit("_y = 2;")
    ensures Layout.WellSplit("_z = _x + _y;") && Layout.WellSplit("_z = _x - _y;")
  {
    PlainLine("_x = 1", ";");
    PlainLine("_y = 2", ";");
    PlainLine("_z = _x + _y", ";");
    PlainLine("_z = _x - _y", ";");
  }

  lemma BlocksWellSplit()
    ensures Layout.WellSplit("if (_x < _y) then {") && Layout.WellSplit("} else {") && Layout.WellSplit("};")
  {
    PlainLine("if (_x < _y) then ", "{");
    Layout.WellSplitOf("}", " else ", "{");
    Layout.WellSplitOf("}", "", ";");
    assert "}" + " else " + "{" == "} else {" && "}" + "" + ";" == "};";
  }

  lemma PlainLine(mid: string, last: string)
    requires Layout.PlainText(mid) && (last == "{" || last == ";")
    ensures Layout.WellSplit(mid + last)
  {
    Layout.WellSplitOf("", mid, last);
    assert "" + mid + last == mid + last;
  }

  /** Which lines open and which close a block. */
  lemma IfElseBraces()
    ensures var ls := IfElseLines();
            && !Layout.Opens(ls[0]) && !Layout.Closes(ls[0])
            && !Layout.Opens(ls[1]) && !Layout.Closes(ls[1])
            && Layout.Opens(ls[2]) && !Layout.Closes(ls[2])
            && !Layout.Opens(ls[3]) && !Layout.Closes(ls[3])
            && Layout.Opens(ls[4]) && Layout.Closes(ls[4])
            && !Layout.Opens(ls[5]) && !Layout.Closes(ls[5])
            && !Layout.Opens(ls[6]) && Layout.Closes(ls[6])
  {
    var ls := IfElseLines();
    IfElseWellSplit();
    Layout.BracesAtEnds(ls[0]);
    Layout.BracesAtEnds(ls[1]);
    Layout.BracesAtEnds(ls[2]);
    Layout.BracesAtEnds(ls[3]);
    Layout.BracesAtEnds(ls[4]);
    Layout.BracesAtEnds(ls[5]);
    Layout.BracesAtEnds(ls[6]);
  }

  /** The depth counter before each line: 1 inside the two branches, 0
      before and after them. */
  lemma IfElseDepths()
    ensures var ls := IfElseLines();
            forall k :: 0 <= k <= |ls| ==> Layout.DepthAfter(ls[..k]) == if 3 <= k < 7 then 1 else 0
  {
    var ls := IfElseLines();
    IfElseBraces();
    assert Layout.DepthAfter(ls[..0]) == 0 by { assert ls[..0] == []; }
    for k := 0 to 7
      invariant forall j :: 0 <= j <= k ==> Layout.DepthAfter(ls[..j]) == if 3 <= j < 7 then 1 else 0
    {
      Layout.DepthAfterSnoc(ls, k);
    }
  }

  /** The level each line prints at: one level in for the two branches. */
  lemma IfElseLevels()
    ensures Layout.IndentedLines(IfElseLines())
            == ["_x = 1;", "_y = 2;", "if (_x < _y) then {", "    " + "_z = _x + _y;", "} else {", "    " + "_z = _x - _y;", "};"]
  {
    var ls := IfElseLines();
    var out := Layout.IndentedLines(ls);
    IfElseBraces();
    IfElseDepths();
    assert Layout.Indent(1) == "    " by { assert Layout.Indent(0) == ""; }
    assert Layout.Indent(0) == "";
    assert out[0] == Layout.Indent(0) + ls[0] == ls[0];
    assert out[1] == Layout.Indent(0) + ls[1] == ls[1];
    assert out[2] == Layout.Indent(0) + ls[2] == ls[2];
    assert out[3] == Layout.Indent(1) + ls[3] == "    " + ls[3];
    assert out[4] == Layout.Indent(0) + ls[4] == ls[4];
    assert out[5] == Layout.Indent(1) + ls[5] == "    " + ls[5];
    assert out[6] == Layout.Indent(0) + ls[6] == ls[6];
    assert |out| == 7;
  }

  /** The if/else program end to end: it becomes `_x = 1;`,
      `_y = 2;` and `if (_x < _y) then {_z = _x + _y;} else {_z = _x - _y;};`,
      and the layout pass prints each branch's assignment one level deeper
      than the lines around it. */
  lemma IfElseScenario()
    ensures Compiler.TranslateModule(IfElseProgram()) == Ok(Join("", IfElseLines()))
    ensures Join("\n", Layout.IndentedLines(Layout.Lines(Compiler.TranslateModule(IfElseProgram()).value)))
            == Join("\n", ["_x = 1;", "_y = 2;", "if (_x < _y) then {", "    " + "_z = _x + _y;", "} else {",
                           "    " + "_z = _x - _y;", "};"])
  {
    IfElseTranslation();
    IfElseJoined();
    IfElseChained();
    Layout.ResplitChained(IfElseLines());
    IfElseLevels();
  }
}
