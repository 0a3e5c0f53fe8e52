/** The layout pass `indenter`, which compiler.py:31-53 and utils.py:39-61
    define identically: fixed replacements that put every `{` and `;` at the
    end of a line and every `}` at the start of one, Python's `splitlines`,
    then one pass over the lines with a single depth counter. */
module Layout {

  import opened Text

  // ---------------------------------------------------------------------
  // The text pipeline before the loop
  // ---------------------------------------------------------------------

  /** `s.replace(c, rep)` for a one-character pattern. */
  function ReplaceChar(s: string, c: char, rep: string): string {
    if s == [] then [] else (if s[0] == c then rep else [s[0]]) + ReplaceChar(s[1..], c, rep)
  }

  /** `s.replace("\n\n", "\n")`: occurrences are found left to right and do
      not overlap, so a run of three line feeds becomes two. */
  function CollapseNewlines(s: string): string {
    if |s| >= 2 && s[0] == '\n' && s[1] == '\n' then "\n" + CollapseNewlines(s[2..])
    else if s == [] then []
    else [s[0]] + CollapseNewlines(s[1..])
  }

  /** The characters at which Python's `str.splitlines` ends a line. */
  predicate IsLineBreak(c: char) {
    c == '\n' || c == '\r' || c == '\U{b}' || c == '\U{c}' || c == '\U{1c}' || c == '\U{1d}'
    || c == '\U{1e}' || c == '\U{85}' || c == '\U{2028}' || c == '\U{2029}'
  }

  /** `splitlines` of `s`, where `cur` is the part of the current line already
      read. A `\r\n` pair ends one line; a final line break adds no empty line. */
  function SplitLinesFrom(s: string, cur: string): seq<string>
    decreases |s|
  {
    if s == [] then (if cur == [] then [] else [cur])
    else if IsLineBreak(s[0]) then
      var skip := if s[0] == '\r' && |s| >= 2 && s[1] == '\n' then 2 else 1;
      [cur] + SplitLinesFrom(s[skip..], [])
    else SplitLinesFrom(s[1..], cur + [s[0]])
  }

  function SplitLines(s: string): seq<string> {
    SplitLinesFrom(s, [])
  }

  /** The text after the four replacements. */
  function Prepared(source: string): string {
    CollapseNewlines(ReplaceChar(ReplaceChar(ReplaceChar(source, '{', "{\n"), '}', "\n}"), ';', ";\n"))
  }

  /** The lines the loop of `indenter` visits. */
  function Lines(source: string): seq<string> {
    SplitLines(Prepared(source))
  }

  // ---------------------------------------------------------------------
  // The loop
  // ---------------------------------------------------------------------

  predicate Opens(line: string) { '{' in line }
  predicate Closes(line: string) { '}' in line }

  /** The depth after a line printed at depth `depth`. */
  function Step(line: string, depth: int): int {
    if Opens(line) && Closes(line) then depth
    else if Opens(line) then depth + 1
    else if Closes(line) then depth - 1
    else depth
  }

  /** The level at which a line is printed when the depth before it is `depth`. */
  function Level(line: string, depth: int): int {
    if Opens(line) && Closes(line) then depth - 1
    else if Opens(line) then depth
    else if Closes(line) then depth - 1
    else depth
  }

  /** The depth counter after the loop has visited `lines`, starting from 0. */
  function DepthAfter(lines: seq<string>): int {
    if lines == [] then 0
    else Step(lines[|lines| - 1], DepthAfter(lines[..|lines| - 1]))
  }

  /** `" " * 4 * n` in Python: `n` copies of four spaces, nothing when `n <= 0`. */
  function Indent(n: int): string
    decreases if n <= 0 then 0 else n
  {
    if n <= 0 then "" else "    " + Indent(n - 1)
  }

  /** The output lines: line `i` unchanged, after the indentation of the level
      the depth reached before it gives it. */
  function IndentedLines(lines: seq<string>): seq<string> {
    seq(|lines|, i requires 0 <= i < |lines| => IndentedLine(lines, i))
  }

  function IndentedLine(lines: seq<string>, i: int): string
    requires 0 <= i < |lines|
  {
    Indent(Level(lines[i], DepthAfter(lines[..i]))) + lines[i]
  }

  /** The `indenter` function: the loop over the lines with its depth counter,
      then `"\n".join`. */
  method Indenter(source: string) returns (out: string)
    ensures out == Join("\n", IndentedLines(Lines(source)))
  {
    var all := Lines(source);
    var depth := 0;
    var lines: seq<string> := [];
    var i := 0;
    while i < |all|
      invariant 0 <= i <= |all|
      invariant depth == DepthAfter(all[..i])
      invariant |lines| == i
      invariant forall j :: 0 <= j < i ==> lines[j] == IndentedLine(all, j)
    {
      var line := all[i];
      DepthAfterSnoc(all, i);
      if '{' in line && '}' in line {
        lines := lines + [Indent(depth - 1) + line];
      } else if '{' in line {
        lines := lines + [Indent(depth) + line];
        depth := depth + 1;
      } else if '}' in line {
        depth := depth - 1;
        lines := lines + [Indent(depth) + line];
      } else {
        lines := lines + [Indent(depth) + line];
      }
      i := i + 1;
    }
    assert lines == IndentedLines(all);
    out := Join("\n", lines);
  }

  lemma DepthAfterSnoc(lines: seq<string>, i: int)
    requires 0 <= i < |lines|
    ensures DepthAfter(lines[..i + 1]) == Step(lines[i], DepthAfter(lines[..i]))
  {
    assert lines[..i + 1][..i] == lines[..i];
  }

  // ---------------------------------------------------------------------
  // What each output line is
  // ---------------------------------------------------------------------

  /** The indentation of level `n` is `4 * max(n, 0)` spaces. */
  lemma {:induction false} IndentIsSpaces(n: int)
    ensures |Indent(n)| == 4 * (if n <= 0 then 0 else n)
    ensures forall k :: 0 <= k < |Indent(n)| ==> Indent(n)[k] == ' '
    decreases if n <= 0 then 0 else n
  {
    if n > 0 {
      IndentIsSpaces(n - 1);
    }
  }

  /** One output line per input line, in order; output line `i` is
      `4 * max(d, 0)` spaces followed by input line `i` unchanged, where `d`
      is the level the depth before line `i` gives it. */
  lemma IndentedLinesShape(lines: seq<string>, i: int)
    requires 0 <= i < |lines|
    ensures |IndentedLines(lines)| == |lines|
    ensures var d := Level(lines[i], DepthAfter(lines[..i]));
            var pad := 4 * (if d <= 0 then 0 else d);
            var out := IndentedLines(lines)[i];
            |out| == pad + |lines[i]| && out[pad..] == lines[i]
            && forall k :: 0 <= k < pad ==> out[k] == ' '
  {
    IndentIsSpaces(Level(lines[i], DepthAfter(lines[..i])));
  }

  /** The depth rises by one only after a line that opens a block without
      closing one, and falls by one only at a line that closes a block without
      opening one; a line doing both is printed one level out and leaves the
      depth as it was. */
  lemma DepthChange(lines: seq<string>, i: int)
    requires 0 <= i < |lines|
    ensures var before := DepthAfter(lines[..i]);
            DepthAfter(lines[..i + 1]) - before
              == (if Opens(lines[i]) && !Closes(lines[i]) then 1
                  else if Closes(lines[i]) && !Opens(lines[i]) then -1
                  else 0)
    ensures Level(lines[i], DepthAfter(lines[..i])) == DepthAfter(lines[..i]) - (if Closes(lines[i]) then 1 else 0)
  {
    DepthAfterSnoc(lines, i);
  }

  // ---------------------------------------------------------------------
  // Where the braces sit on the lines
  // ---------------------------------------------------------------------

  /** What the three one-character replacements make of one character. */
  function Expand(c: char): string {
    if c == '{' then "{\n" else if c == '}' then "\n}" else if c == ';' then ";\n" else [c]
  }

  function ExpandAll(s: string): string {
    if s == [] then [] else Expand(s[0]) + ExpandAll(s[1..])
  }

  lemma {:induction false} ReplaceCharConcat(a: string, b: string, c: char, rep: string)
    ensures ReplaceChar(a + b, c, rep) == ReplaceChar(a, c, rep) + ReplaceChar(b, c, rep)
  {
    if a == [] {
      assert a + b == b;
    } else {
      assert (a + b)[1..] == a[1..] + b;
      ReplaceCharConcat(a[1..], b, c, rep);
    }
  }

  /** None of the replacements introduces a character another one replaces,
      so together they expand each character on its own. */
  lemma {:induction false} ReplacementsExpand(s: string)
    ensures ReplaceChar(ReplaceChar(ReplaceChar(s, '{', "{\n"), '}', "\n}"), ';', ";\n") == ExpandAll(s)
  {
    if s != [] {
      var head := if s[0] == '{' then "{\n" else [s[0]];
      var r1 := ReplaceChar(s[1..], '{', "{\n");
      assert ReplaceChar(s, '{', "{\n") == head + r1;
      ReplaceCharConcat(head, r1, '}', "\n}");
      var h2 := ReplaceChar(head, '}', "\n}");
      var r2 := ReplaceChar(r1, '}', "\n}");
      ReplaceCharConcat(h2, r2, ';', ";\n");
      assert ReplaceChar(h2, ';', ";\n") == Expand(s[0]);
      ReplacementsExpand(s[1..]);
    }
  }

  predicate EndsLine(c: char) {
    c == '{' || c == ';'
  }

  /** Every `{` or `;` that is not the last character is followed by a line
      feed, and every `}` that is not the first is preceded by one. */
  predicate BreaksAround(t: string) {
    && (forall j :: 0 <= j < |t| - 1 && EndsLine(t[j]) ==> t[j + 1] == '\n')
    && (forall j :: 0 < j < |t| && t[j] == '}' ==> t[j - 1] == '\n')
  }

  lemma BreaksAroundConcat(a: string, b: string)
    requires BreaksAround(a) && BreaksAround(b)
    requires a != [] && b != [] ==> (EndsLine(a[|a| - 1]) ==> b[0] == '\n')
    requires a != [] && b != [] && b[0] == '}' ==> a[|a| - 1] == '\n'
    ensures BreaksAround(a + b)
  {
    var t := a + b;
    forall j | 0 <= j < |t| - 1 && EndsLine(t[j])
      ensures t[j + 1] == '\n'
    {
      if j < |a| - 1 {
        assert t[j] == a[j] && t[j + 1] == a[j + 1];
      } else if j == |a| - 1 {
        assert t[j] == a[j] && t[j + 1] == b[0];
      } else {
        assert t[j] == b[j - |a|] && t[j + 1] == b[j - |a| + 1];
      }
    }
    forall j | 0 < j < |t| && t[j] == '}'
      ensures t[j - 1] == '\n'
    {
      if j < |a| {
        assert t[j] == a[j] && t[j - 1] == a[j - 1];
      } else if j == |a| {
        assert t[j] == b[0] && t[j - 1] == a[|a| - 1];
      } else {
        assert t[j] == b[j - |a|] && t[j - 1] == b[j - |a| - 1];
      }
    }
  }

  lemma BreaksAroundSuffix(t: string, n: nat)
    requires BreaksAround(t) && n <= |t|
    ensures BreaksAround(t[n..])
  {
    var u := t[n..];
    forall j | 0 <= j < |u| - 1 && EndsLine(u[j])
      ensures u[j + 1] == '\n'
    {
      assert u[j] == t[n + j] && u[j + 1] == t[n + j + 1];
    }
    forall j | 0 < j < |u| && u[j] == '}'
      ensures u[j - 1] == '\n'
    {
      assert u[j] == t[n + j] && u[j - 1] == t[n + j - 1];
    }
  }

  lemma {:induction false} ExpandAllBreaks(s: string)
    ensures BreaksAround(ExpandAll(s))
    ensures ExpandAll(s) != [] ==> ExpandAll(s)[0] != '}' && !EndsLine(ExpandAll(s)[|ExpandAll(s)| - 1])
  {
    if s != [] {
      ExpandAllBreaks(s[1..]);
      var h := Expand(s[0]);
      var t := ExpandAll(s[1..]);
      ExpandCharBreaks(s[0]);
      BreaksAroundConcat(h, t);
      if t != [] {
        assert (h + t)[|h + t| - 1] == t[|t| - 1];
      } else {
        assert h + t == h;
      }
    }
  }

  /** The expansion of one character already has its line feeds in place. */
  lemma ExpandCharBreaks(c: char)
    ensures var h := Expand(c);
            && h != [] && BreaksAround(h) && h[0] != '}' && !EndsLine(h[|h| - 1])
  {
  }

  /** The replacements insert only line feeds. */
  lemma {:induction false} ExpandAllCount(s: string, c: char)
    requires c != '\n'
    ensures Count(ExpandAll(s), c) == Count(s, c)
  {
    if s != [] {
      ExpandAllCount(s[1..], c);
      CountConcat(Expand(s[0]), ExpandAll(s[1..]), c);
      assert Count(Expand(s[0]), c) == (if s[0] == c then 1 else 0);
    }
  }

  lemma {:induction false} CollapseKeeps(t: string)
    requires BreaksAround(t)
    ensures BreaksAround(CollapseNewlines(t))
    ensures (CollapseNewlines(t) == []) == (t == [])
    ensures t != [] ==> CollapseNewlines(t)[0] == t[0]
    decreases |t|
  {
    if |t| >= 2 && t[0] == '\n' && t[1] == '\n' {
      BreaksAroundSuffix(t, 2);
      CollapseKeeps(t[2..]);
      BreaksAroundConcat("\n", CollapseNewlines(t[2..]));
    } else if t != [] {
      BreaksAroundSuffix(t, 1);
      CollapseKeeps(t[1..]);
      var rest := CollapseNewlines(t[1..]);
      if rest != [] {
        assert rest[0] == t[1];
      }
      BreaksAroundConcat([t[0]], rest);
    }
  }

  /** Collapsing removes only line feeds. */
  lemma {:induction false} CollapseCount(t: string, c: char)
    requires c != '\n'
    ensures Count(CollapseNewlines(t), c) == Count(t, c)
    decreases |t|
  {
    if |t| >= 2 && t[0] == '\n' && t[1] == '\n' {
      CollapseCount(t[2..], c);
      CountConcat("\n", CollapseNewlines(t[2..]), c);
      assert t[1..][1..] == t[2..];
    } else if t != [] {
      CollapseCount(t[1..], c);
      CountConcat([t[0]], CollapseNewlines(t[1..]), c);
    }
  }

  /** A line as the pipeline leaves it: no line break inside, `{` and `;`
      only as its last character, `}` only as its first. */
  predicate WellSplit(line: string) {
    && (forall k :: 0 <= k < |line| ==> !IsLineBreak(line[k]))
    && (forall k :: 0 <= k < |line| - 1 ==> !EndsLine(line[k]))
    && (forall k :: 0 < k < |line| ==> line[k] != '}')
  }

  lemma {:induction false} SplitWellSplit(s: string, cur: string)
    requires WellSplit(cur) && BreaksAround(s)
    requires cur != [] && s != [] ==> (EndsLine(cur[|cur| - 1]) ==> s[0] == '\n') && s[0] != '}'
    ensures forall k :: 0 <= k < |SplitLinesFrom(s, cur)| ==> WellSplit(SplitLinesFrom(s, cur)[k])
    decreases |s|
  {
    if s == [] {
    } else if IsLineBreak(s[0]) {
      var skip := if s[0] == '\r' && |s| >= 2 && s[1] == '\n' then 2 else 1;
      BreaksAroundSuffix(s, skip);
      SplitWellSplit(s[skip..], []);
    } else {
      var next := cur + [s[0]];
      BreaksAroundSuffix(s, 1);
      if |s| >= 2 {
        assert s[1..][0] == s[1];
        assert s[1] != '}';
      }
      assert WellSplit(next) by {
        forall k | 0 <= k < |next| - 1
          ensures !EndsLine(next[k])
        {
          if k < |cur| - 1 { assert next[k] == cur[k]; }
          else { assert next[k] == cur[|cur| - 1]; }
        }
        forall k | 0 < k < |next|
          ensures next[k] != '}'
        {
          if k < |cur| { assert next[k] == cur[k]; }
        }
      }
      SplitWellSplit(s[1..], next);
    }
  }

  /** The lines `indenter` visits contain no line break, carry `{` and `;`
      only at their end and `}` only at their start; so a line with both
      braces is `} ... {`, like `} else {`. */
  lemma LinesWellSplit(source: string)
    ensures forall k :: 0 <= k < |Lines(source)| ==> WellSplit(Lines(source)[k])
  {
    ReplacementsExpand(source);
    ExpandAllBreaks(source);
    CollapseKeeps(ExpandAll(source));
    SplitWellSplit(Prepared(source), []);
  }

  // ---------------------------------------------------------------------
  // The depth counts braces
  // ---------------------------------------------------------------------

  /** The occurrences of `c` over a list of lines. */
  function CountIn(lines: seq<string>, c: char): nat {
    if lines == [] then 0 else Count(lines[0], c) + CountIn(lines[1..], c)
  }

  lemma {:induction false} CountInSnoc(lines: seq<string>, line: string, c: char)
    ensures CountIn(lines + [line], c) == CountIn(lines, c) + Count(line, c)
  {
    if lines == [] {
      assert [] + [line] == [line];
    } else {
      assert (lines + [line])[1..] == lines[1..] + [line];
      CountInSnoc(lines[1..], line, c);
    }
  }

  lemma {:induction false} SplitCount(s: string, cur: string, c: char)
    requires !IsLineBreak(c)
    ensures CountIn(SplitLinesFrom(s, cur), c) == Count(cur, c) + Count(s, c)
    decreases |s|
  {
    if s == [] {
    } else if IsLineBreak(s[0]) {
      var skip := if s[0] == '\r' && |s| >= 2 && s[1] == '\n' then 2 else 1;
      SplitCount(s[skip..], [], c);
      if skip == 2 {
        assert s[1..][1..] == s[2..];
      }
    } else {
      SplitCount(s[1..], cur + [s[0]], c);
      CountConcat(cur, [s[0]], c);
    }
  }

  /** A well-split line holds at most one `{` and at most one `}`. */
  lemma WellSplitCounts(line: string)
    requires WellSplit(line)
    ensures Count(line, '{') == if Opens(line) then 1 else 0
    ensures Count(line, '}') == if Closes(line) then 1 else 0
  {
    if line != [] {
      var n := |line|;
      assert line == line[..n - 1] + [line[n - 1]];
      CountConcat(line[..n - 1], [line[n - 1]], '{');
      var init := line[..n - 1];
      CountZero(init, '{');
      assert '{' !in init by {
        forall k | 0 <= k < n - 1 ensures init[k] != '{' {
          assert init[k] == line[k];
        }
      }
      var tail := line[1..];
      assert line == [line[0]] + tail;
      CountZero(tail, '}');
      assert '}' !in tail by {
        forall k | 0 <= k < n - 1 ensures tail[k] != '}' {
          assert tail[k] == line[k + 1];
        }
      }
      CountZero(line, '{');
      CountZero(line, '}');
    }
  }

  /** Over well-split lines, the depth counter is the number of `{` seen
      minus the number of `}` seen. */
  lemma {:induction false} DepthIsBraceBalance(lines: seq<string>)
    requires forall k :: 0 <= k < |lines| ==> WellSplit(lines[k])
    ensures DepthAfter(lines) == CountIn(lines, '{') - CountIn(lines, '}')
  {
    if lines != [] {
      var n := |lines|;
      var init := lines[..n - 1];
      DepthIsBraceBalance(init);
      assert lines == init + [lines[n - 1]];
      CountInSnoc(init, lines[n - 1], '{');
      CountInSnoc(init, lines[n - 1], '}');
      WellSplitCounts(lines[n - 1]);
    }
  }

  /** Line `i` is printed at the brace nesting of all the text before it,
      one level further out when it begins by closing a block. */
  lemma LevelIsNesting(source: string, i: int)
    requires 0 <= i < |Lines(source)|
    ensures var lines := Lines(source);
            Level(lines[i], DepthAfter(lines[..i]))
              == CountIn(lines[..i], '{') - CountIn(lines[..i], '}') - (if |lines[i]| > 0 && lines[i][0] == '}' then 1 else 0)
  {
    var lines := Lines(source);
    LinesWellSplit(source);
    assert forall k :: 0 <= k < i ==> lines[..i][k] == lines[k];
    DepthIsBraceBalance(lines[..i]);
    DepthChange(lines, i);
    assert Closes(lines[i]) <==> |lines[i]| > 0 && lines[i][0] == '}' by {
      if Closes(lines[i]) {
        var k :| 0 <= k < |lines[i]| && lines[i][k] == '}';
        assert k == 0;
      }
    }
  }

  /** After the last line the depth counter equals the number of `{` minus
      the number of `}` in the source text; it is 0 exactly when the braces
      are balanced in number. */
  lemma FinalDepth(source: string)
    ensures DepthAfter(Lines(source)) == Count(source, '{') - Count(source, '}')
  {
    LinesWellSplit(source);
    DepthIsBraceBalance(Lines(source));
    ReplacementsExpand(source);
    ExpandAllCount(source, '{');
    ExpandAllCount(source, '}');
    CollapseCount(ExpandAll(source), '{');
    CollapseCount(ExpandAll(source), '}');
    SplitCount(Prepared(source), [], '{');
    SplitCount(Prepared(source), [], '}');
  }

  // ---------------------------------------------------------------------
  // Re-formatting
  // ---------------------------------------------------------------------

  /** `s` without its line-break characters. */
  function Unbroken(s: string): string {
    if s == [] then [] else (if IsLineBreak(s[0]) then [] else [s[0]]) + Unbroken(s[1..])
  }

  lemma {:induction false} UnbrokenConcat(a: string, b: string)
    ensures Unbroken(a + b) == Unbroken(a) + Unbroken(b)
  {
    if a == [] {
      assert a + b == b;
    } else {
      assert (a + b)[1..] == a[1..] + b;
      UnbrokenConcat(a[1..], b);
    }
  }

  /** The line feeds the replacements add are the only characters they add. */
  lemma {:induction false} ExpandAllUnbroken(s: string)
    ensures Unbroken(ExpandAll(s)) == Unbroken(s)
  {
    if s != [] {
      UnbrokenConcat(Expand(s[0]), ExpandAll(s[1..]));
      assert Unbroken(Expand(s[0])) == Unbroken([s[0]]) by {
        if s[0] == '{' {
          assert Expand(s[0]) == ['{'] + ['\n'];
          UnbrokenConcat(['{'], ['\n']);
        } else if s[0] == '}' {
          assert Expand(s[0]) == ['\n'] + ['}'];
          UnbrokenConcat(['\n'], ['}']);
        } else if s[0] == ';' {
          assert Expand(s[0]) == [';'] + ['\n'];
          UnbrokenConcat([';'], ['\n']);
        }
      }
      ExpandAllUnbroken(s[1..]);
    }
  }

  lemma {:induction false} CollapseUnbroken(t: string)
    ensures Unbroken(CollapseNewlines(t)) == Unbroken(t)
  {
    if |t| >= 2 && t[0] == '\n' && t[1] == '\n' {
      CollapseUnbroken(t[2..]);
      assert t[1..][1..] == t[2..];
    } else if t != [] {
      CollapseUnbroken(t[1..]);
    }
  }

  lemma {:induction false} JoinConsEmpty(a: string, rest: seq<string>)
    ensures Join("", [a] + rest) == a + Join("", rest)
  {
    if rest != [] {
      assert ([a] + rest)[1..] == rest;
    }
  }

  /** Joining the lines `splitlines` finds gives the text without its line
      breaks, after the part `cur` of the first line already read. */
  lemma {:induction false} SplitUnbroken(s: string, cur: string)
    ensures Join("", SplitLinesFrom(s, cur)) == cur + Unbroken(s)
    decreases |s|
  {
    if s == [] {
    } else if IsLineBreak(s[0]) {
      var skip := BreaksUnbroken(s, cur);
      SplitUnbroken(s[skip..], []);
      JoinConsEmpty(cur, SplitLinesFrom(s[skip..], []));
    } else {
      KeptUnbroken(s, cur);
      SplitUnbroken(s[1..], cur + [s[0]]);
      ConcatAssoc(cur, [s[0]], Unbroken(s[1..]));
    }
  }

  lemma ConcatAssoc(a: string, b: string, c: string)
    ensures a + b + c == a + (b + c)
  {
  }

  /** A line break ends the current line and is dropped. */
  lemma BreaksUnbroken(s: string, cur: string) returns (skip: nat)
    requires s != [] && IsLineBreak(s[0])
    ensures skip <= |s|
    ensures SplitLinesFrom(s, cur) == [cur] + SplitLinesFrom(s[skip..], [])
    ensures Unbroken(s) == Unbroken(s[skip..])
  {
    skip := if s[0] == '\r' && |s| >= 2 && s[1] == '\n' then 2 else 1;
    if skip == 2 {
      assert s[1..][1..] == s[2..];
    }
  }

  /** Any other character joins the current line and is kept. */
  lemma KeptUnbroken(s: string, cur: string)
    requires s != [] && !IsLineBreak(s[0])
    ensures SplitLinesFrom(s, cur) == SplitLinesFrom(s[1..], cur + [s[0]])
    ensures Unbroken(s) == [s[0]] + Unbroken(s[1..])
  {
  }

  /** Stripping the formatted output back to one line: the lines `indenter`
      indents, joined without their indentation and line breaks, are the
      source without its line breaks, and for a source already on one line
      they are the source itself. */
  lemma RejoinedLines(source: string)
    ensures Join("", Lines(source)) == Unbroken(source)
    ensures (forall k :: 0 <= k < |source| ==> !IsLineBreak(source[k])) ==> Join("", Lines(source)) == source
  {
    ReplacementsExpand(source);
    ExpandAllUnbroken(source);
    CollapseUnbroken(ExpandAll(source));
    SplitUnbroken(Prepared(source), []);
    if forall k :: 0 <= k < |source| ==> !IsLineBreak(source[k]) {
      FlatUnbroken(source);
    }
  }

  lemma {:induction false} FlatUnbroken(s: string)
    requires forall k :: 0 <= k < |s| ==> !IsLineBreak(s[k])
    ensures Unbroken(s) == s
  {
    if s != [] {
      assert forall k :: 0 <= k < |s[1..]| ==> s[1..][k] == s[k + 1];
      FlatUnbroken(s[1..]);
    }
  }

  // ---------------------------------------------------------------------
  // Splitting text that is already a sequence of lines
  // ---------------------------------------------------------------------

  /** A character none of the replacements touches and `splitlines` does not
      break at. */
  predicate Plain(c: char) {
    !IsLineBreak(c) && !EndsLine(c) && c != '}'
  }

  /** Lines that, written one after the other without separators, the
      pipeline splits back apart: each is non-empty and well split, the
      first does not begin with `}`, and every line either ends a line by
      itself (`{` or `;`) or is followed by one that begins with `}`. */
  predicate Chained(ls: seq<string>) {
    Linked(ls) && (|ls| > 0 ==> ls[0][0] != '}')
  }

  /** Chained lines, except that the first may begin with `}`. */
  predicate Linked(ls: seq<string>) {
    && (forall i :: 0 <= i < |ls| ==> ls[i] != [] && WellSplit(ls[i]))
    && (forall i :: 0 <= i < |ls| - 1 ==> EndsLine(ls[i][|ls[i]| - 1]) || ls[i + 1][0] == '}')
  }

  lemma LinkedRest(ls: seq<string>)
    requires ls != [] && Linked(ls)
    ensures Linked(ls[1..])
    ensures ls[0] != [] && WellSplit(ls[0])
    ensures |ls| > 1 ==> ls[1] != [] && WellSplit(ls[1]) && (EndsLine(ls[0][|ls[0]| - 1]) || ls[1][0] == '}')
  {
    var rest := ls[1..];
    forall i | 0 <= i < |rest| ensures rest[i] != [] && WellSplit(rest[i]) {
      assert rest[i] == ls[i + 1];
    }
    forall i | 0 <= i < |rest| - 1 ensures EndsLine(rest[i][|rest[i]| - 1]) || rest[i + 1][0] == '}' {
      assert rest[i] == ls[i + 1] && rest[i + 1] == ls[i + 2];
    }
  }

  /** The line feed the replacements put after a line ending in `{` or `;`. */
  function Trail(l: string): string {
    if l != [] && EndsLine(l[|l| - 1]) then "\n" else ""
  }

  /** The prepared text of chained lines: the lines separated by one line
      feed, with a final one after a line ending in `{` or `;`. */
  function Rendered(ls: seq<string>): string
    decreases |ls|
  {
    if ls == [] then "" else if |ls| == 1 then ls[0] + Trail(ls[0]) else ls[0] + "\n" + Rendered(ls[1..])
  }

  lemma {:induction false} ExpandAllConcat(a: string, b: string)
    ensures ExpandAll(a + b) == ExpandAll(a) + ExpandAll(b)
  {
    if a != [] {
      assert (a + b)[1..] == a[1..] + b;
      ExpandAllConcat(a[1..], b);
    } else {
      assert a + b == b;
    }
  }

  lemma {:induction false} ExpandAllPlain(s: string)
    requires PlainText(s)
    ensures ExpandAll(s) == s
  {
    if s != [] {
      assert forall k :: 0 <= k < |s[1..]| ==> s[1..][k] == s[k + 1];
      ExpandAllPlain(s[1..]);
    }
  }

  /** A well-split line expands to itself, with a line feed before a leading
      `}` and after a final `{` or `;`. */
  lemma {:induction false} ExpandLine(l: string)
    requires l != [] && WellSplit(l)
    ensures ExpandAll(l) == Lead(l) + l + Trail(l)
  {
    var n := |l|;
    if n == 1 {
      assert ExpandAll(l) == Expand(l[0]) + ExpandAll([]);
      assert Expand(l[0]) == Lead(l) + l + Trail(l);
    } else {
      var mid := l[1..n - 1];
      assert PlainText(mid) by {
        forall k | 0 <= k < |mid| ensures Plain(mid[k]) {
          assert mid[k] == l[k + 1];
        }
      }
      assert l == [l[0]] + mid + [l[n - 1]];
      ExpandLongLine(l[0], mid, l[n - 1]);
    }
  }

  lemma {:induction false} ExpandLongLine(a: char, mid: string, b: char)
    requires !EndsLine(a) && !IsLineBreak(a) && PlainText(mid) && b != '}' && !IsLineBreak(b)
    ensures ExpandAll([a] + mid + [b]) == Lead([a] + mid + [b]) + ([a] + mid + [b]) + Trail([a] + mid + [b])
  {
    var l := [a] + mid + [b];
    ExpandAllPlain(mid);
    ExpandEnds(a, mid, b);
    assert l[0] == a && l[|l| - 1] == b;
    assert Expand(a) == Lead(l) + [a];
    assert Expand(b) == [b] + Trail(l);
    Regroup5(Lead(l), [a], mid, [b], Trail(l));
  }

  lemma Regroup5(a: string, b: string, c: string, d: string, e: string)
    ensures (a + b) + c + (d + e) == a + (b + c + d) + e
  {
  }

  lemma {:induction false} ExpandEnds(a: char, mid: string, b: char)
    ensures ExpandAll([a] + mid + [b]) == Expand(a) + ExpandAll(mid) + Expand(b)
  {
    ExpandAllConcat([a] + mid, [b]);
    ExpandAllConcat([a], mid);
    assert ExpandAll([a]) == Expand(a) + ExpandAll([]);
    assert ExpandAll([b]) == Expand(b) + ExpandAll([]);
  }

  lemma {:induction false} CollapseNoBreakPrefix(u: string, w: string)
    requires forall k :: 0 <= k < |u| ==> u[k] != '\n'
    ensures CollapseNewlines(u + w) == u + CollapseNewlines(w)
  {
    if u == [] {
      assert u + w == w;
    } else {
      assert (u + w)[1..] == u[1..] + w;
      assert forall k :: 0 <= k < |u[1..]| ==> u[1..][k] == u[k + 1];
      CollapseNoBreakPrefix(u[1..], w);
    }
  }

  lemma {:induction false} SplitNoBreakPrefix(u: string, w: string, cur: string)
    requires forall k :: 0 <= k < |u| ==> !IsLineBreak(u[k])
    ensures SplitLinesFrom(u + w, cur) == SplitLinesFrom(w, cur + u)
    decreases |u|
  {
    if u == [] {
      assert u + w == w && cur + u == cur;
    } else {
      assert (u + w)[1..] == u[1..] + w;
      assert forall k :: 0 <= k < |u[1..]| ==> u[1..][k] == u[k + 1];
      SplitNoBreakPrefix(u[1..], w, cur + [u[0]]);
      assert cur + [u[0]] + u[1..] == cur + u;
    }
  }

  /** Chained lines prepare to their rendering, after a line feed when the
      first begins with `}`. */
  lemma {:induction false} PreparedChain(ls: seq<string>)
    requires ls != [] && Linked(ls)
    ensures CollapseNewlines(ExpandAll(Join("", ls))) == Lead(ls[0]) + Rendered(ls)
    decreases |ls|
  {
    LinkedRest(ls);
    if |ls| == 1 {
      PreparedSingle(ls[0]);
      assert Join("", ls) == ls[0];
    } else {
      PreparedChain(ls[1..]);
      PreparedCons(ls[0], ls[1..]);
      assert ls == [ls[0]] + ls[1..];
    }
  }

  lemma {:induction false} PreparedSingle(l: string)
    requires l != [] && WellSplit(l)
    ensures CollapseNewlines(ExpandAll(l)) == Lead(l) + Rendered([l])
  {
    PreparedLine(l, "");
    assert ExpandAll(l) + "" == ExpandAll(l);
    assert Trail(l) + "" == Trail(l);
    assert CollapseNewlines(Trail(l)) == Trail(l);
  }

  /** One more line in front of lines already shown to prepare to their
      rendering. */
  lemma {:induction false} PreparedCons(l: string, rest: seq<string>)
    requires l != [] && WellSplit(l) && rest != [] && rest[0] != [] && WellSplit(rest[0])
    requires EndsLine(l[|l| - 1]) || rest[0][0] == '}'
    requires CollapseNewlines(ExpandAll(Join("", rest))) == Lead(rest[0]) + Rendered(rest)
    ensures CollapseNewlines(ExpandAll(Join("", [l] + rest))) == Lead(l) + Rendered([l] + rest)
  {
    JoinConsEmpty(l, rest);
    var x := ExpandAll(Join("", rest));
    ExpandAllConcat(l, Join("", rest));
    GapCollapses(Trail(l), x, rest);
    PreparedLine(l, x);
    RenderedCons(l, rest);
  }

  lemma RenderedCons(l: string, rest: seq<string>)
    requires rest != []
    ensures Rendered([l] + rest) == l + ("\n" + Rendered(rest))
  {
    assert ([l] + rest)[1..] == rest;
  }

  /** The line feed the replacements put before a line beginning with `}`. */
  function Lead(l: string): string {
    if l != [] && l[0] == '}' then "\n" else ""
  }

  /** One line, then the expanded text `x` after it. */
  lemma {:induction false} PreparedLine(l: string, x: string)
    requires l != [] && WellSplit(l)
    ensures CollapseNewlines(ExpandAll(l) + x) == Lead(l) + (l + CollapseNewlines(Trail(l) + x))
  {
    ExpandLine(l);
    NoLineFeed(l);
    CollapseNoBreakPrefix(l, Trail(l) + x);
    Regroup4(Lead(l), l, Trail(l), x);
    if l[0] == '}' {
      CollapseLoneBreak(l + (Trail(l) + x));
    } else {
      assert Lead(l) + (l + (Trail(l) + x)) == l + (Trail(l) + x);
    }
  }

  lemma NoLineFeed(l: string)
    requires WellSplit(l)
    ensures forall k :: 0 <= k < |l| ==> l[k] != '\n'
  {
    forall k | 0 <= k < |l| ensures l[k] != '\n' {
      assert !IsLineBreak(l[k]);
    }
  }

  lemma Regroup4(a: string, b: string, c: string, d: string)
    ensures a + b + c + d == a + (b + (c + d))
  {
  }

  /** A line feed not followed by another one is kept as it is. */
  lemma CollapseLoneBreak(y: string)
    requires y != [] && y[0] != '\n'
    ensures CollapseNewlines("\n" + y) == "\n" + CollapseNewlines(y)
  {
    assert ("\n" + y)[1] == y[0];
    assert ("\n" + y)[1..] == y;
  }

  /** Between two chained lines exactly one line feed survives. */
  lemma {:induction false} GapCollapses(t: string, x: string, rest: seq<string>)
    requires rest != [] && rest[0] != [] && WellSplit(rest[0])
    requires t == "\n" || (t == "" && rest[0][0] == '}')
    requires CollapseNewlines(x) == Lead(rest[0]) + Rendered(rest)
    requires x == ExpandAll(Join("", rest))
    ensures CollapseNewlines(t + x) == "\n" + Rendered(rest)
  {
    var z := FirstExpanded(rest);
    GapCollapsesAt(t, x, z, rest[0][0] == '}', Rendered(rest));
  }

  /** The expanded text of lines begins with the expansion of the first. */
  lemma {:induction false} FirstExpanded(rest: seq<string>) returns (z: string)
    requires rest != [] && rest[0] != [] && WellSplit(rest[0])
    ensures z != [] && z[0] == rest[0][0] && z[0] != '\n'
    ensures ExpandAll(Join("", rest)) == Lead(rest[0]) + z
  {
    var l := rest[0];
    var j := Join("", rest[1..]);
    assert Join("", rest) == l + j by {
      JoinConsEmpty(l, rest[1..]);
      assert rest == [l] + rest[1..];
    }
    ExpandAllConcat(l, j);
    ExpandLine(l);
    NoLineFeed(l);
    z := LeadSplit(Lead(l), l, Trail(l), ExpandAll(j));
  }

  /** Text after a leading part, starting with the non-empty `l`. */
  lemma LeadSplit(a: string, l: string, t: string, y: string) returns (z: string)
    requires l != []
    ensures z == l + t + y && z[0] == l[0]
    ensures a + l + t + y == a + z
  {
    z := l + t + y;
  }

  lemma {:induction false} GapCollapsesAt(t: string, x: string, z: string, closes: bool, r: string)
    requires z != [] && z[0] != '\n' && (closes <==> z[0] == '}')
    requires x == (if closes then "\n" else "") + z
    requires t == "\n" || (t == "" && closes)
    requires CollapseNewlines(x) == (if closes then "\n" else "") + r
    ensures CollapseNewlines(t + x) == "\n" + r
  {
    if closes {
      CollapseLoneBreak(z);
      assert CollapseNewlines(z) == r by {
        assert ("\n" + CollapseNewlines(z))[1..] == CollapseNewlines(z);
        assert ("\n" + r)[1..] == r;
      }
      if t == "\n" {
        CollapseDoubleBreak(z);
        assert t + x == "\n" + ("\n" + z);
      } else {
        assert t + x == x;
      }
    } else {
      assert x == z;
      CollapseLoneBreak(x);
    }
  }

  /** Two line feeds in a row collapse into one. */
  lemma CollapseDoubleBreak(z: string)
    ensures CollapseNewlines("\n" + ("\n" + z)) == "\n" + CollapseNewlines(z)
  {
    assert ("\n" + ("\n" + z))[2..] == z;
  }

  /** Text made only of plain characters. */
  predicate PlainText(s: string) {
    forall k :: 0 <= k < |s| ==> Plain(s[k])
  }

  /** Plain text, optionally after a `}` and before a `{` or `;`, is a
      well-split line. */
  lemma WellSplitOf(lead: string, mid: string, last: string)
    requires lead == "" || lead == "}"
    requires PlainText(mid)
    requires last == "" || last == "{" || last == ";"
    ensures WellSplit(lead + mid + last)
  {
    var l := lead + mid + last;
    forall k | 0 <= k < |l| ensures !IsLineBreak(l[k]) {
      if k < |lead| { assert l[k] == lead[k]; }
      else if k < |lead| + |mid| { assert l[k] == mid[k - |lead|]; }
      else { assert l[k] == last[k - |lead| - |mid|]; }
    }
    forall k | 0 <= k < |l| - 1 ensures !EndsLine(l[k]) {
      if k < |lead| { assert l[k] == lead[k]; }
      else { assert l[k] == mid[k - |lead|]; }
    }
    forall k | 0 < k < |l| ensures l[k] != '}' {
      if k < |lead| + |mid| { assert l[k] == mid[k - |lead|]; }
      else { assert l[k] == last[k - |lead| - |mid|]; }
    }
  }

  /** A well-split line opens a block exactly when it ends with `{` and
      closes one exactly when it begins with `}`. */
  lemma BracesAtEnds(l: string)
    requires l != [] && WellSplit(l)
    ensures Opens(l) <==> l[|l| - 1] == '{'
    ensures Closes(l) <==> l[0] == '}'
  {
    if Opens(l) {
      var k :| 0 <= k < |l| && l[k] == '{';
      assert !(k < |l| - 1 && EndsLine(l[k]));
    }
    if Closes(l) {
      var k :| 0 <= k < |l| && l[k] == '}';
    }
  }

  /** `splitlines` of the rendering gives the lines back. */
  lemma {:induction false} SplitRendered(ls: seq<string>)
    requires Linked(ls)
    ensures SplitLinesFrom(Rendered(ls), []) == ls
    decreases |ls|
  {
    if ls != [] {
      LinkedRest(ls);
      var l := ls[0];
      assert forall k :: 0 <= k < |l| ==> !IsLineBreak(l[k]);
      if |ls| == 1 {
        SplitNoBreakPrefix(l, Trail(l), []);
        assert [] + l == l;
        if Trail(l) != "" {
          assert Trail(l)[1..] == [];
        }
      } else {
        SplitRendered(ls[1..]);
        SplitNoBreakPrefix(l, "\n" + Rendered(ls[1..]), []);
        assert l + "\n" + Rendered(ls[1..]) == l + ("\n" + Rendered(ls[1..]));
        assert [] + l == l;
        assert ("\n" + Rendered(ls[1..]))[1..] == Rendered(ls[1..]);
        assert ls == [l] + ls[1..];
      }
    }
  }

  /** Chained lines written one after the other are split back into the
      same lines, so `indenter` lays out such a text line by line. */
  lemma ResplitChained(ls: seq<string>)
    requires Chained(ls)
    ensures Lines(Join("", ls)) == ls
  {
    if ls == [] {
      assert Prepared("") == "";
    } else {
      ReplacementsExpand(Join("", ls));
      PreparedChain(ls);
      assert Lead(ls[0]) == "";
      assert Prepared(Join("", ls)) == Rendered(ls);
      SplitRendered(ls);
    }
  }
}
