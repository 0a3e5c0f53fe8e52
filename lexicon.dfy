/** The operator tokens and the constant lowering, which both source files
    define alike (the token handlers compiler.py:145-147, 166-198, 206-213
    and 224-251 against utils.py:246-253, 261-293, 301-303 and 330-357; the
    `Constant` handler compiler.py:78-92 against utils.py:388-402), and the
    pieces that the call, `Delete`, `For` and `FunctionDef` handlers of both
    files are assembled from. Where the two files assemble these pieces
    differently, the difference lives in Compiler and Utils. */
module Lexicon {

  import opened Results
  import opened Ast
  import opened Text

  /** The token of an arithmetic operator; operators without a handler reach
      the crashing fallback arm. */
  function BinOpToken(op: BinOperator): (r: Result<string>)
    ensures r.Err? <==> op == OtherBinOp
    ensures r.Err? ==> r.fault == UnknownNode
  {
    match op
    case Add => Ok("+")
    case Sub => Ok("-")
    case Mult => Ok("*")
    case Div => Ok("/")
    case FloorDiv => Ok("/")
    case Mod => Ok("mod")
    case Pow => Ok("^")
    case OtherBinOp => Err(UnknownNode)
  }

  /** Lowering arithmetic operators forgets exactly one distinction: true
      division and floor division share the token `/`. */
  lemma BinOpTokenCollisions(a: BinOperator, b: BinOperator)
    requires BinOpToken(a).Ok? && BinOpToken(b).Ok?
    ensures BinOpToken(a) == BinOpToken(b) <==> a == b || ({a, b} == {Div, FloorDiv})
  {
    if a != b && {a, b} == {Div, FloorDiv} {
      assert a == Div || a == FloorDiv;
    }
  }

  function UnaryOpToken(op: UnaryOperator): (r: Result<string>)
    ensures r.Ok? <==> op == Not
    ensures r.Ok? ==> r.value == "!"
    ensures r.Err? ==> r.fault == UnknownNode
  {
    match op
    case Not => Ok("!")
    case OtherUnaryOp => Err(UnknownNode)
  }

  /** The separator `BoolOp` places between its operands, spaces included. */
  function BoolOpToken(op: BoolOperator): (r: string)
    ensures |r| == 4 && r[0] == ' ' && r[3] == ' '
    ensures (r == " && ") <==> op == And
  {
    match op
    case And => " && "
    case Or => " || "
  }

  function CmpOpToken(op: CmpOperator): (r: Result<string>)
    ensures r.Err? <==> op == OtherCmpOp
    ensures r.Err? ==> r.fault == UnknownNode
  {
    match op
    case Eq => Ok("==")
    case NotEq => Ok("!=")
    case Lt => Ok("<")
    case LtE => Ok("<=")
    case Gt => Ok(">")
    case GtE => Ok(">=")
    case OtherCmpOp => Err(UnknownNode)
  }

  /** Each supported comparison has its own token, so the emitted text names
      exactly one of the six comparisons. */
  lemma CmpOpTokenInjective(a: CmpOperator, b: CmpOperator)
    requires CmpOpToken(a).Ok? && CmpOpToken(a) == CmpOpToken(b)
    ensures a == b
  {
  }

  /** The handler for `ast.Constant`; kinds it does not support (here `bytes`)
      are logged and yield nothing. */
  function LowerConstant(c: Const): (r: string)
    ensures c.CStr? ==> r == "\"" + c.s + "\""
    ensures r == "" <==> c.CEllipsis? || c.CBytes?
  {
    match c
    case CNone => "nil"
    case CEllipsis => ""
    case CStr(s) => "\"" + s + "\""
    case CBool(b) => if b then "true" else "false"
    case CInt(i) => IntText(i)
    case CBytes(_) => ""
  }

  /** Python's `str()` of a constant's value, which is what an f-string or
      `Template.substitute` inserts when the handler formats `.value` itself
      rather than translating the node. */
  function PyStr(c: Const): string {
    match c
    case CNone => "None"
    case CEllipsis => "Ellipsis"
    case CStr(s) => s
    case CBool(b) => if b then "True" else "False"
    case CInt(i) => IntText(i)
    case CBytes(text) => text
  }

  /** The integer Python's `-` sees in a constant: `bool` is a subclass of
      `int`; every other kind modelled here makes `-` raise TypeError. */
  function NumericValue(c: Const): (r: Option<int>)
    ensures r.Some? <==> c.CInt? || c.CBool?
  {
    match c
    case CInt(i) => Some(i)
    case CBool(b) => Some(if b then 1 else 0)
    case _ => None
  }

  predicate NoQuote(s: string) {
    forall k :: 0 <= k < |s| ==> s[k] != '"'
  }

  /** Reads a target-language literal back into the constant it denotes. */
  function ReadLiteral(t: string): Option<Const> {
    if t == "nil" then Some(CNone)
    else if t == "true" then Some(CBool(true))
    else if t == "false" then Some(CBool(false))
    else if |t| >= 2 && t[0] == '"' && t[|t| - 1] == '"' && NoQuote(t[1..|t| - 1]) then
      Some(CStr(t[1..|t| - 1]))
    else
      match ReadInt(t)
      case Some(i) => Some(CInt(i))
      case None => None
  }

  /** Every literal the translator emits text for reads back as the same
      constant, provided a string contains no double quote (no escaping is
      performed). */
  lemma LowerConstantRoundTrip(c: Const)
    requires !c.CEllipsis? && !c.CBytes?
    requires c.CStr? ==> NoQuote(c.s)
    ensures ReadLiteral(LowerConstant(c)) == Some(c)
  {
    match c
    case CStr(s) =>
      var t := LowerConstant(c);
      assert t[1..|t| - 1] == s;
    case CInt(i) =>
      IntTextRoundTrip(i);
      var t := IntText(i);
      assert t != "nil" && t != "true" && t != "false" by {
        if i < 0 { assert t[0] == '-'; } else { assert '0' <= t[0] <= '9'; }
      }
      assert !(t[0] == '"') by {
        if i < 0 { assert t[0] == '-'; } else { assert '0' <= t[0] <= '9'; }
      }
    case _ =>
  }

  // ---------------------------------------------------------------------
  // Pieces the call and statement handlers of both files are built from
  // ---------------------------------------------------------------------

  predicate HasStarred(args: seq<Expr>) {
    exists k :: 0 <= k < |args| && args[k].Starred?
  }

  predicate AllNames(targets: seq<Expr>) {
    forall k :: 0 <= k < |targets| ==> targets[k].Name?
  }

  function DeletePieces(targets: seq<Expr>): (r: seq<string>)
    requires AllNames(targets)
    ensures |r| == |targets|
    ensures forall k :: 0 <= k < |targets| ==> r[k] == "_" + targets[k].id + " = nil;"
  {
    if targets == [] then [] else ["_" + targets[0].id + " = nil;"] + DeletePieces(targets[1..])
  }

  /** What the `Delete` handler emits: one `_t = nil;` per name target, or
      nothing at all when any target is not a plain name. */
  function LowerDelete(targets: seq<Expr>): string {
    if AllNames(targets) then Join("", DeletePieces(targets)) else ""
  }

  /** `iter` is a call of the reserved function `range`. */
  predicate IsRangeCall(iter: Expr) {
    iter.Call? && iter.func.Name? && iter.func.id == "range"
  }

  predicate AllConstantArgs(args: seq<Expr>) {
    forall k :: 0 <= k < |args| ==> args[k].Constant?
  }

  /** The texts of `start`, `stop` and `step` for a `range` call with
      constant arguments; other argument counts keep the initial 0, 0, 1. */
  function RangeBounds(args: seq<Expr>): (string, string, string)
    requires AllConstantArgs(args)
  {
    if |args| == 1 then ("0", PyStr(args[0].value), "1")
    else if |args| == 2 then (PyStr(args[0].value), PyStr(args[1].value), "1")
    else if |args| == 3 then (PyStr(args[0].value), PyStr(args[1].value), PyStr(args[2].value))
    else ("0", "0", "1")
  }

  /** The rebinding of the loop variable inside a `forEach` block; the
      target language's cursor is `_x`, so a loop over `x` needs none. */
  function ForEachBinding(name: string): string {
    if name != "x" then "private _" + name + " = _x" else ""
  }

  /** The quoted, marker-prefixed parameter names of a function definition. */
  function ParamNames(args: seq<string>): (r: seq<string>)
    ensures |r| == |args|
    ensures forall k :: 0 <= k < |args| ==> r[k] == "\"_" + args[k] + "\""
  {
    if args == [] then [] else ["\"_" + args[0] + "\""] + ParamNames(args[1..])
  }

  /** The `Delete` handler as written: a loop that appends `_t = nil;` per
      target and returns `""` at the first target that is not a name. */
  method TranslateDelete(targets: seq<Expr>) returns (r: string)
    ensures r == LowerDelete(targets)
  {
    var syntax: seq<string> := [];
    var i := 0;
    while i < |targets|
      invariant 0 <= i <= |targets|
      invariant AllNames(targets[..i])
      invariant syntax == DeletePieces(targets[..i])
    {
      var target := targets[i];
      if !target.Name? {
        return "";
      }
      assert targets[..i + 1] == targets[..i] + [target];
      syntax := syntax + ["_" + target.id + " = nil;"];
      i := i + 1;
    }
    assert targets[..i] == targets;
    r := Join("", syntax);
  }
}
