/**
  The method-length scanner: one pass over the lines of a Python file that
  skips docstrings, notices `def` lines and counts, for the function being read,
  the non-blank, non-comment lines indented deeper than its `def`. Functions
  with more than 20 such lines are reported as (name, first line, last line,
  counted lines), lines numbered from 1. The file is given as its list of lines.
 */
module AnalyzeMethods {
  import opened Wrappers
  import opened Text

  const MAX_CODE_LINES: nat := 20
  const TRIPLE_DOUBLE: string := "\"\"\""
  const TRIPLE_SINGLE: string := "'''"

  datatype Violation = Violation(name: string, start: nat, end: nat, codeLines: nat)

  /** Whether the scan is inside a docstring, and the quote that will close it. */
  datatype Doc = Doc(inDocstring: bool, delim: string)

  const OUTSIDE: Doc := Doc(false, "")

  /** The loop variables of `count_method_lines`; `current` is `current_func`. */
  datatype ScanState = ScanState(current: Option<string>, start: nat, indent: nat, doc: Doc,
                                 codeLines: nat, found: seq<Violation>)

  const INITIAL: ScanState := ScanState(None, 0, 0, OUTSIDE, 0, [])

  /** `len(line) - len(line.lstrip())`. */
  function Indent(line: string): nat {
    |line| - |LStrip(line)|
  }

  /** The indent is the number of leading whitespace characters. */
  lemma IndentSpec(line: string)
    ensures Indent(line) <= |line|
    ensures forall k :: 0 <= k < Indent(line) ==> IsSpace(line[k])
    ensures Indent(line) == |line| || !IsSpace(line[Indent(line)])
  {
  }

  /** `re.match(r'^\s*(def |async def )', line)`. */
  predicate IsDefLine(line: string) {
    StartsWith(LStrip(line), "def ") || StartsWith(LStrip(line), "async def ")
  }

  /** The run of `\w` characters starting at `j`. */
  function WordRun(s: string, j: nat): string
    requires j <= |s|
    decreases |s| - j
  {
    if j < |s| && IsWordChar(s[j]) then [s[j]] + WordRun(s, j + 1) else []
  }

  /** The longest run of word characters at `j`. */
  lemma {:induction false} WordRunSpec(s: string, j: nat)
    requires j <= |s|
    ensures var r := WordRun(s, j);
            && |r| <= |s| - j && r == s[j..j + |r|]
            && (forall k :: 0 <= k < |r| ==> IsWordChar(r[k]))
            && (j + |r| == |s| || !IsWordChar(s[j + |r|]))
    decreases |s| - j
  {
    if j < |s| && IsWordChar(s[j]) {
      WordRunSpec(s, j + 1);
      var rest := WordRun(s, j + 1);
      assert s[j..j + 1 + |rest|] == [s[j]] + s[j + 1..j + 1 + |rest|];
    }
  }

  /** `def ` at `j` followed by a word character: where `def (\w+)` can match. */
  predicate DefNameAt(line: string, j: int) {
    OccursAt(line, "def ", j) && j + 4 < |line| && IsWordChar(line[j + 4])
  }

  /** `re.search(r'def (\w+)', line)` from index `k`: the group of the leftmost match. */
  function DefNameFrom(line: string, k: nat): Option<string>
    requires k <= |line|
    decreases |line| - k
  {
    if k + 4 >= |line| then None
    else if DefNameAt(line, k) then Some(WordRun(line, k + 4))
    else DefNameFrom(line, k + 1)
  }

  /** No name exactly when `def (\w+)` matches nowhere; otherwise the name is the word run of the leftmost match. */
  lemma {:induction false} DefNameFromSpec(line: string, k: nat)
    requires k <= |line|
    ensures DefNameFrom(line, k).None? <==> forall j :: k <= j <= |line| ==> !DefNameAt(line, j)
    ensures DefNameFrom(line, k).Some? ==>
              exists j :: (&& k <= j < |line| && DefNameAt(line, j)
                           && DefNameFrom(line, k).value == WordRun(line, j + 4)
                           && forall i :: k <= i < j ==> !DefNameAt(line, i))
    decreases |line| - k
  {
    if k + 4 >= |line| {
      assert forall j :: k <= j <= |line| ==> !DefNameAt(line, j);
    } else if DefNameAt(line, k) {
      assert DefNameFrom(line, k).value == WordRun(line, k + 4);
    } else {
      DefNameFromSpec(line, k + 1);
      if DefNameFrom(line, k).Some? {
        var j :| && k + 1 <= j < |line| && DefNameAt(line, j)
                 && DefNameFrom(line, k + 1).value == WordRun(line, j + 4)
                 && forall i :: k + 1 <= i < j ==> !DefNameAt(line, i);
        assert forall i :: k <= i < j ==> !DefNameAt(line, i);
      }
    }
  }

  function DefName(line: string): Option<string> {
    DefNameFrom(line, 0)
  }

  /** `stripped.startswith('"""') or stripped.startswith("'''")`. */
  predicate OpensDocstring(stripped: string) {
    StartsWith(stripped, TRIPLE_DOUBLE) || StartsWith(stripped, TRIPLE_SINGLE)
  }

  /** A non-blank line that is not a comment. */
  predicate IsCode(stripped: string) {
    stripped != [] && !StartsWith(stripped, "#")
  }

  /** The line is docstring text: read inside a docstring, or opening one. */
  predicate Skips(d: Doc, stripped: string) {
    d.inDocstring || OpensDocstring(stripped)
  }

  /**
    The docstring branches of the loop: inside a docstring a line only decides
    whether it closes; an opening line picks its quote and leaves the docstring
    open only when that quote occurs on it exactly once.
   */
  function DocStep(d: Doc, stripped: string): Doc {
    if d.inDocstring then d.(inDocstring := !Contains(stripped, d.delim))
    else if OpensDocstring(stripped) then
      var delim := if Contains(stripped, TRIPLE_DOUBLE) then TRIPLE_DOUBLE else TRIPLE_SINGLE;
      Doc(CountOf(stripped, delim) == 1, delim)
    else d
  }

  /**
    Closing the open function at line `last`: it is reported when it has more
    than 20 counted lines. A new `def` closes it at the line before; "Check last
    function" closes it at the last line of the file.
   */
  function Finish(st: ScanState, total: nat): seq<Violation> {
    if st.current.Some? && st.codeLines > MAX_CODE_LINES
    then st.found + [Violation(st.current.value, st.start, total, st.codeLines)]
    else st.found
  }

  /**
    One turn of the loop, for line `line` numbered `i`. `keepOnNameless` chooses
    what a `def` line without a `def (\w+)` name does: the code keeps the previous
    function open (true); the corrected scanner starts an unnamed one (false).
   */
  function Step(st: ScanState, line: string, i: nat, keepOnNameless: bool): ScanState
    requires i >= 1
  {
    var stripped := Strip(line);
    if Skips(st.doc, stripped) then st.(doc := DocStep(st.doc, stripped))
    else if IsDefLine(line) then
      var next := st.(found := Finish(st, i - 1), indent := Indent(line));
      match DefName(line)
      case Some(name) => next.(current := Some(name), start := i, codeLines := 0)
      case None => if keepOnNameless then next else next.(current := None, start := i, codeLines := 0)
    else if st.current.Some? && IsCode(stripped) && Indent(line) > st.indent then
      st.(codeLines := st.codeLines + 1)
    else st
  }

  /** The state after reading `lines`. */
  function Run(lines: seq<string>, keepOnNameless: bool): ScanState
    decreases |lines|
  {
    if |lines| == 0 then INITIAL
    else Step(Run(lines[..|lines| - 1], keepOnNameless), lines[|lines| - 1], |lines|, keepOnNameless)
  }

  /** Reading one more line is one more step. */
  lemma RunSnoc(lines: seq<string>, line: string, keepOnNameless: bool)
    ensures Run(lines + [line], keepOnNameless) == Step(Run(lines, keepOnNameless), line, |lines| + 1, keepOnNameless)
  {
    var all := lines + [line];
    assert all[..|all| - 1] == lines;
  }

  lemma RunNext(file: seq<string>, n: nat, keepOnNameless: bool)
    requires 1 <= n <= |file|
    ensures Run(file[..n], keepOnNameless) == Step(Run(file[..n - 1], keepOnNameless), file[n - 1], n, keepOnNameless)
  {
    assert file[..n] == file[..n - 1] + [file[n - 1]];
    RunSnoc(file[..n - 1], file[n - 1], keepOnNameless);
  }

  /** `count_method_lines` as written. */
  function CountMethodLinesAsWritten(lines: seq<string>): seq<Violation> {
    Finish(Run(lines, true), |lines|)
  }

  /** `count_method_lines` with every `def` line closing the function before it. */
  function CountMethodLines(lines: seq<string>): seq<Violation> {
    Finish(Run(lines, false), |lines|)
  }

  /**
    What a report says about the file: more than 20 counted lines; the first line
    is a `def` line naming the function; the last line is the end of the file or
    the line before another `def` line.
   */
  predicate Reported(lines: seq<string>, v: Violation) {
    && v.codeLines > MAX_CODE_LINES
    && 1 <= v.start <= v.end <= |lines|
    && IsDefLine(lines[v.start - 1]) && DefName(lines[v.start - 1]) == Some(v.name)
    && (v.end == |lines| || IsDefLine(lines[v.end]))
  }

  /** Report start lines in order: strictly increasing, or only non-decreasing when `strict` is false. */
  predicate StartsOrdered(found: seq<Violation>, strict: bool) {
    forall a, b :: 0 <= a < b < |found| ==>
      (if strict then found[a].start < found[b].start else found[a].start <= found[b].start)
  }

  /** The loop invariant of the scan after reading `lines`. */
  predicate RunInv(lines: seq<string>, st: ScanState, strict: bool) {
    && (forall k :: 0 <= k < |st.found| ==> Reported(lines, st.found[k]) && st.found[k].end < |lines|)
    && StartsOrdered(st.found, strict)
    && st.start <= |lines|
    && (forall k :: 0 <= k < |st.found| ==> if strict then st.found[k].start < st.start else st.found[k].start <= st.start)
    && CurrentAt(lines, st.start, st.current)
  }

  /** The open function, if any, is named by the `def` line numbered `start`. */
  predicate CurrentAt(lines: seq<string>, start: nat, current: Option<string>) {
    current.Some? ==> 1 <= start <= |lines| && IsDefLine(lines[start - 1]) && DefName(lines[start - 1]) == current
  }

  /** Text starting with a non-space character keeps that character first after `rstrip()`. */
  lemma RStripKeepsHead(l: string)
    requires |l| > 0 && !IsSpace(l[0])
    ensures |RStrip(l)| > 0 && RStrip(l)[0] == l[0]
  {
    var r := RStrip(l);
    assert r[0] == l[..|r|][0];
  }

  /** The stripped text of a `def` line starts with its `d` or `a`: it is code and opens no docstring. */
  lemma DefLineShape(line: string)
    ensures IsDefLine(line) ==> IsCode(Strip(line)) && !OpensDocstring(Strip(line))
  {
    if IsDefLine(line) {
      DefLineHead(line);
      LetterHeadShape(Strip(line));
    }
  }

  lemma DefLineHead(line: string)
    requires IsDefLine(line)
    ensures |Strip(line)| > 0 && (Strip(line)[0] == 'd' || Strip(line)[0] == 'a')
  {
    var l := LStrip(line);
    assert l[0] == l[..4][0];
    RStripKeepsHead(l);
  }

  /** Text starting with a letter is code and opens no docstring. */
  lemma LetterHeadShape(s: string)
    requires |s| > 0 && (s[0] == 'd' || s[0] == 'a')
    ensures IsCode(s) && !OpensDocstring(s)
  {
    assert s[..1][0] == s[0];
    if |s| >= 3 {
      assert s[..3][0] == s[0];
    }
  }

  /** A line is handled by the `def` branch of the loop. */
  predicate DefCase(st: ScanState, line: string) {
    !Skips(st.doc, Strip(line)) && IsDefLine(line)
  }

  /** Only the `def` branch reports or moves the start line; it reports exactly what closing gives. */
  lemma StepShape(st: ScanState, line: string, i: nat, keepOnNameless: bool)
    requires i >= 1
    ensures var r := Step(st, line, i, keepOnNameless);
            && (!DefCase(st, line) ==> r.found == st.found && r.start == st.start && r.current == st.current)
            && (DefCase(st, line) ==> r.found == Finish(st, i - 1))
            && (DefCase(st, line) && DefName(line).Some? ==> r.current == DefName(line) && r.start == i)
            && (DefCase(st, line) && DefName(line).None? ==>
                  if keepOnNameless then r.current == st.current && r.start == st.start
                  else r.current.None? && r.start == i)
  {
    if Skips(st.doc, Strip(line)) {
      assert Step(st, line, i, keepOnNameless) == st.(doc := DocStep(st.doc, Strip(line)));
    }
  }

  /** Closing the open function keeps the invariant's promises about every report. */
  lemma InvFinish(lines: seq<string>, st: ScanState, strict: bool)
    requires RunInv(lines, st, strict)
    ensures var f := Finish(st, |lines|);
            && (forall k :: 0 <= k < |f| ==> Reported(lines, f[k]))
            && StartsOrdered(f, strict)
            && (forall k :: 0 <= k < |f| ==> f[k].start <= st.start)
  {
    if st.current.Some? && st.codeLines > MAX_CODE_LINES {
      var v := Violation(st.current.value, st.start, |lines|, st.codeLines);
      ReportCurrent(lines, st.start, st.current, st.codeLines);
      AppendReport(lines, st.found, v, strict);
    }
  }

  lemma ReportCurrent(lines: seq<string>, start: nat, current: Option<string>, codeLines: nat)
    requires CurrentAt(lines, start, current) && current.Some? && codeLines > MAX_CODE_LINES
    ensures Reported(lines, Violation(current.value, start, |lines|, codeLines))
  {
  }

  lemma AppendReport(lines: seq<string>, found: seq<Violation>, v: Violation, strict: bool)
    requires forall k :: 0 <= k < |found| ==> Reported(lines, found[k])
    requires forall k :: 0 <= k < |found| ==> if strict then found[k].start < v.start else found[k].start <= v.start
    requires StartsOrdered(found, strict)
    requires Reported(lines, v)
    ensures var f := found + [v];
            && (forall k :: 0 <= k < |f| ==> Reported(lines, f[k]))
            && StartsOrdered(f, strict)
            && (forall k :: 0 <= k < |f| ==> f[k].start <= v.start)
  {
    var f := found + [v];
    forall k | 0 <= k < |f|
      ensures Reported(lines, f[k]) && f[k].start <= v.start
    {
      if k < |found| {
        assert f[k] == found[k];
      }
    }
    forall a, b | 0 <= a < b < |f|
      ensures if strict then f[a].start < f[b].start else f[a].start <= f[b].start
    {
      assert f[a] == found[a];
      if b < |found| {
        assert f[b] == found[b];
      }
    }
  }

  /** A report about the first lines of a file stays true of the whole file when its end is followed by a `def`. */
  lemma ReportedExtend(pre: seq<string>, lines: seq<string>, v: Violation)
    requires |pre| < |lines| && pre == lines[..|pre|]
    requires Reported(pre, v)
    requires v.end < |pre| || IsDefLine(lines[|pre|])
    ensures Reported(lines, v) && v.end < |lines|
  {
    assert lines[v.start - 1] == pre[v.start - 1];
    if v.end < |pre| {
      assert lines[v.end] == pre[v.end];
    }
  }

  /**
    How one line moves the scan, as far as the invariant cares: a non-`def` line
    keeps reports, start and open function; a `def` line closes the open function
    and either starts a new one at line `n` or, only for the code as written,
    leaves the open function as it was.
   */
  predicate StepOutcome(st: ScanState, r: ScanState, line: string, n: nat, isDef: bool, strict: bool) {
    && (!isDef ==> r.found == st.found && r.start == st.start && r.current == st.current)
    && (isDef ==> n >= 1 && IsDefLine(line) && r.found == Finish(st, n - 1))
    && (isDef ==>
          || (r.start == n && (r.current.Some? ==> r.current == DefName(line)))
          || (!strict && r.start == st.start && r.current == st.current))
  }

  lemma StepHasOutcome(st: ScanState, line: string, n: nat, keepOnNameless: bool)
    requires n >= 1
    ensures StepOutcome(st, Step(st, line, n, keepOnNameless), line, n, DefCase(st, line), !keepOnNameless)
  {
    StepShape(st, line, n, keepOnNameless);
  }

  /** The reports after one more line are still true of the longer file. */
  lemma StepKeepsReports(pre: seq<string>, line: string, st: ScanState, r: ScanState, isDef: bool, strict: bool)
    requires RunInv(pre, st, strict)
    requires StepOutcome(st, r, line, |pre| + 1, isDef, strict)
    ensures forall k :: 0 <= k < |r.found| ==> Reported(pre + [line], r.found[k]) && r.found[k].end < |pre| + 1
    ensures StartsOrdered(r.found, strict)
    ensures forall k :: 0 <= k < |r.found| ==> r.found[k].start <= st.start
  {
    var lines := pre + [line];
    assert pre == lines[..|pre|];
    if isDef {
      InvFinish(pre, st, strict);
      assert lines[|pre|] == line;
    }
    forall k | 0 <= k < |r.found|
      ensures Reported(lines, r.found[k]) && r.found[k].end < |lines|
    {
      ReportedExtend(pre, lines, r.found[k]);
    }
  }

  /** The open function after one more line is still named by its `def` line. */
  lemma CurrentExtend(pre: seq<string>, line: string, start: nat, current: Option<string>)
    requires CurrentAt(pre, start, current)
    ensures CurrentAt(pre + [line], start, current)
  {
    if current.Some? {
      assert (pre + [line])[start - 1] == pre[start - 1];
    }
  }

  lemma CurrentAtLast(pre: seq<string>, line: string, current: Option<string>)
    requires current.Some? ==> IsDefLine(line) && DefName(line) == current
    ensures CurrentAt(pre + [line], |pre| + 1, current)
  {
    assert (pre + [line])[|pre|] == line;
  }

  /** The open function after one more line is still named by its `def` line. */
  lemma StepKeepsCurrent(pre: seq<string>, line: string, st: ScanState, r: ScanState, isDef: bool, strict: bool)
    requires RunInv(pre, st, strict)
    requires StepOutcome(st, r, line, |pre| + 1, isDef, strict)
    ensures r.start <= |pre| + 1
    ensures CurrentAt(pre + [line], r.start, r.current)
  {
    if r.start == |pre| + 1 && isDef {
      CurrentAtLast(pre, line, r.current);
    } else {
      CurrentExtend(pre, line, st.start, st.current);
    }
  }

  lemma InvAfterStep(pre: seq<string>, line: string, st: ScanState, r: ScanState, isDef: bool, strict: bool)
    requires RunInv(pre, st, strict)
    requires StepOutcome(st, r, line, |pre| + 1, isDef, strict)
    ensures RunInv(pre + [line], r, strict)
  {
    StepKeepsReports(pre, line, st, r, isDef, strict);
    StepKeepsCurrent(pre, line, st, r, isDef, strict);
  }

  lemma {:induction false} RunInvHolds(lines: seq<string>, keepOnNameless: bool)
    ensures RunInv(lines, Run(lines, keepOnNameless), !keepOnNameless)
    decreases |lines|
  {
    if |lines| > 0 {
      var pre, line := lines[..|lines| - 1], lines[|lines| - 1];
      RunInvHolds(pre, keepOnNameless);
      var st := Run(pre, keepOnNameless);
      StepHasOutcome(st, line, |lines|, keepOnNameless);
      OutcomeKeepsInv(lines, st, Step(st, line, |lines|, keepOnNameless), DefCase(st, line), !keepOnNameless);
    }
  }

  /** Reading the last line of `lines` keeps the invariant. */
  lemma OutcomeKeepsInv(lines: seq<string>, st: ScanState, r: ScanState, isDef: bool, strict: bool)
    requires |lines| > 0 && RunInv(lines[..|lines| - 1], st, strict)
    requires StepOutcome(st, r, lines[|lines| - 1], |lines|, isDef, strict)
    ensures RunInv(lines, r, strict)
  {
    SplitLast(lines);
    InvAfterStep(lines[..|lines| - 1], lines[|lines| - 1], st, r, isDef, strict);
  }

  lemma SplitLast(lines: seq<string>)
    requires |lines| > 0
    ensures lines[..|lines| - 1] + [lines[|lines| - 1]] == lines
  {
  }

  lemma FinishFacts(lines: seq<string>, keepOnNameless: bool)
    ensures var found := Finish(Run(lines, keepOnNameless), |lines|);
            && (forall k :: 0 <= k < |found| ==> Reported(lines, found[k]))
            && StartsOrdered(found, !keepOnNameless)
  {
    RunInvHolds(lines, keepOnNameless);
    InvFinish(lines, Run(lines, keepOnNameless), !keepOnNameless);
  }

  /**
    The corrected scanner reports exactly the long functions of the file, each
    once: every report is a named function of more than 20 counted lines with its
    count given correctly, every such function is reported, and the reports come
    in strictly increasing start order.
   */
  lemma CountMethodLinesFacts(lines: seq<string>)
    ensures var found := CountMethodLines(lines);
            && (forall k :: 0 <= k < |found| ==> Reported(lines, found[k]) && IsLongFunction(lines, found[k]))
            && (forall d: nat, e: nat :: FunctionAt(lines, d, e) && CountedLines(lines, d, e) > MAX_CODE_LINES
                                         ==> LongFunction(lines, d, e) in found)
            && StartsOrdered(found, true)
  {
    FinishFacts(lines, false);
    CountMethodLinesExact(lines);
  }

  /**
    The code as written keeps every per-report fact of `Reported` but only orders
    start lines weakly; on a file whose every `def` line has a name it reports
    exactly what the corrected scanner reports.
   */
  lemma CountMethodLinesAsWrittenFacts(lines: seq<string>)
    ensures var found := CountMethodLinesAsWritten(lines);
            && (forall k :: 0 <= k < |found| ==> Reported(lines, found[k]))
            && StartsOrdered(found, false)
    ensures (forall i :: 0 <= i < |lines| && IsDefLine(lines[i]) ==> DefName(lines[i]).Some?)
            ==> CountMethodLinesAsWritten(lines) == CountMethodLines(lines)
  {
    FinishFacts(lines, true);
    if forall i :: 0 <= i < |lines| && IsDefLine(lines[i]) ==> DefName(lines[i]).Some? {
      AllNamedScansAgree(lines);
    }
  }

  // ---------------------------------------------------------------------------
  // The functions of a file, stated over the whole file
  // ---------------------------------------------------------------------------

  /** The docstring state after reading `lines`. */
  function DocAfter(lines: seq<string>): Doc
    decreases |lines|
  {
    if |lines| == 0 then OUTSIDE
    else DocStep(DocAfter(lines[..|lines| - 1]), Strip(lines[|lines| - 1]))
  }

  /** Line `i` of the file (numbered from 1) is docstring text. */
  predicate DocstringLine(file: seq<string>, i: nat)
    requires 1 <= i <= |file|
  {
    Skips(DocAfter(file[..i - 1]), Strip(file[i - 1]))
  }

  /** Line `i` is a `def` line outside docstrings. */
  predicate DefAt(file: seq<string>, i: nat)
    requires 1 <= i <= |file|
  {
    !DocstringLine(file, i) && IsDefLine(file[i - 1])
  }

  /** Line `i` counts towards the function whose `def` is line `d`: code outside docstrings, deeper than the `def`. */
  predicate CountsFor(file: seq<string>, d: nat, i: nat)
    requires 1 <= d <= |file| && 1 <= i <= |file|
  {
    && !DocstringLine(file, i) && !IsDefLine(file[i - 1])
    && IsCode(Strip(file[i - 1])) && Indent(file[i - 1]) > Indent(file[d - 1])
  }

  /** How many of the lines `d + 1` to `e` count towards the function whose `def` is line `d`. */
  function CountedLines(file: seq<string>, d: nat, e: nat): nat
    requires 1 <= d <= e <= |file|
    decreases e - d
  {
    if e == d then 0 else CountedLines(file, d, e - 1) + (if CountsFor(file, d, e) then 1 else 0)
  }

  /**
    Lines `d` to `e` are one named function: line `d` is a `def` line with a name,
    no later line up to `e` is a `def` line, and `e` is the end of the file or the
    line before the next `def` line.
   */
  predicate FunctionAt(file: seq<string>, d: nat, e: nat) {
    && 1 <= d <= e <= |file|
    && DefAt(file, d) && DefName(file[d - 1]).Some?
    && (forall j :: d < j <= e ==> !DefAt(file, j))
    && (e == |file| || DefAt(file, e + 1))
  }

  /** The report a function of lines `d` to `e` deserves. */
  function LongFunction(file: seq<string>, d: nat, e: nat): Violation
    requires FunctionAt(file, d, e)
  {
    Violation(DefName(file[d - 1]).value, d, e, CountedLines(file, d, e))
  }

  /** `v` reports a function of the file with more than 20 counted lines, counted correctly. */
  predicate IsLongFunction(file: seq<string>, v: Violation) {
    && FunctionAt(file, v.start, v.end)
    && v == LongFunction(file, v.start, v.end)
    && v.codeLines > MAX_CODE_LINES
  }

  /**
    What the corrected scan knows about the function open after the first `n`
    lines: it starts at the last `def` line so far, with that line's indent and
    name, and it has counted exactly the lines that count towards it.
   */
  predicate OpenInv(file: seq<string>, n: nat, st: ScanState)
    requires n <= |file|
  {
    && st.start <= n
    && NoDefBetween(file, st.start, n)
    && OpenHead(file, st.start, st.indent, st.current)
    && CountedSoFar(file, n, st.start, st.current, st.codeLines)
  }

  /** No line after `s` up to `n` is a `def` line outside docstrings. */
  predicate NoDefBetween(file: seq<string>, s: nat, n: nat)
    requires n <= |file|
  {
    forall j :: s < j <= n ==> !DefAt(file, j)
  }

  /** The open function starts at the `def` line `start`, with that line's indent and name; none is open before any `def`. */
  predicate OpenHead(file: seq<string>, start: nat, indent: nat, current: Option<string>) {
    && start <= |file|
    && (start >= 1 ==> && DefAt(file, start) && indent == Indent(file[start - 1])
                       && current == DefName(file[start - 1]))
    && (start == 0 ==> current.None?)
  }

  /** A named open function has counted exactly the lines up to `n` that count towards it. */
  predicate CountedSoFar(file: seq<string>, n: nat, start: nat, current: Option<string>, codeLines: nat) {
    current.Some? ==> 1 <= start <= n <= |file| && codeLines == CountedLines(file, start, n)
  }

  /** Every report is a correctly counted long function that ended before line `n`. */
  predicate FoundSound(file: seq<string>, n: nat, found: seq<Violation>) {
    forall k :: 0 <= k < |found| ==> IsLongFunction(file, found[k]) && found[k].end < n
  }

  /** Every long function that ended before line `n` is reported. */
  ghost predicate FoundComplete(file: seq<string>, n: nat, found: seq<Violation>) {
    forall d: nat, e: nat :: e < n && FunctionAt(file, d, e) && CountedLines(file, d, e) > MAX_CODE_LINES
                             ==> LongFunction(file, d, e) in found
  }

  /** The loop invariant of the corrected scan after the first `n` lines of `file`. */
  ghost predicate CountInv(file: seq<string>, n: nat, st: ScanState)
    requires n <= |file|
  {
    && st.doc == DocAfter(file[..n])
    && OpenInv(file, n, st)
    && FoundSound(file, n, st.found)
    && FoundComplete(file, n, st.found)
  }

  /** The docstring state of a longer prefix is one more docstring step. */
  lemma DocAfterNext(file: seq<string>, n: nat)
    requires n < |file|
    ensures DocAfter(file[..n + 1]) == DocStep(DocAfter(file[..n]), Strip(file[n]))
  {
    var lines := file[..n + 1];
    assert lines[..|lines| - 1] == file[..n];
  }

  /** A line outside docstrings leaves the docstring state alone. */
  lemma DocAfterCode(file: seq<string>, n: nat)
    requires n < |file| && !DocstringLine(file, n + 1)
    ensures DocAfter(file[..n + 1]) == DocAfter(file[..n])
  {
    DocAfterNext(file, n);
  }

  /** The function whose lines run to line `n` starts at the open `def`. */
  lemma OpenFunctionIsCurrent(file: seq<string>, n: nat, st: ScanState, d: nat)
    requires n <= |file| && OpenInv(file, n, st)
    requires 1 <= d <= n && DefAt(file, d) && forall j :: d < j <= n ==> !DefAt(file, j)
    ensures d == st.start
  {
  }

  /** Closed at line `n`, the open named function is a function of the file with the count the scan holds. */
  lemma OpenIsFunction(file: seq<string>, n: nat, st: ScanState)
    requires n <= |file| && OpenInv(file, n, st) && st.current.Some?
    requires n == |file| || DefAt(file, n + 1)
    ensures FunctionAt(file, st.start, n)
    ensures LongFunction(file, st.start, n) == Violation(st.current.value, st.start, n, st.codeLines)
  {
  }

  /** Closing the open function at line `n` keeps every report true and adds the long functions that end there. */
  lemma FinishCurrent(file: seq<string>, n: nat, st: ScanState)
    requires n <= |file| && OpenInv(file, n, st)
    requires FoundSound(file, n, st.found) && FoundComplete(file, n, st.found)
    requires n == |file| || DefAt(file, n + 1)
    ensures FoundSound(file, n + 1, Finish(st, n))
    ensures FoundComplete(file, n + 1, Finish(st, n))
  {
    FinishSound(file, n, st);
    FinishComplete(file, n, st);
  }

  lemma FinishSound(file: seq<string>, n: nat, st: ScanState)
    requires n <= |file| && OpenInv(file, n, st) && FoundSound(file, n, st.found)
    requires n == |file| || DefAt(file, n + 1)
    ensures FoundSound(file, n + 1, Finish(st, n))
  {
    var f := Finish(st, n);
    if st.current.Some? {
      OpenIsFunction(file, n, st);
    }
    forall k | 0 <= k < |f|
      ensures IsLongFunction(file, f[k]) && f[k].end < n + 1
    {
      if k < |st.found| {
        assert f[k] == st.found[k];
      }
    }
  }

  lemma FinishComplete(file: seq<string>, n: nat, st: ScanState)
    requires n <= |file| && OpenInv(file, n, st) && FoundComplete(file, n, st.found)
    requires n == |file| || DefAt(file, n + 1)
    ensures FoundComplete(file, n + 1, Finish(st, n))
  {
    var f := Finish(st, n);
    assert forall v :: v in st.found ==> v in f;
    forall d: nat, e: nat | e < n + 1 && FunctionAt(file, d, e) && CountedLines(file, d, e) > MAX_CODE_LINES
      ensures LongFunction(file, d, e) in f
    {
      if e == n {
        FinishReportsOpen(file, n, st, d);
      }
    }
  }

  /** A long function ending at line `n` is the open one, and closing it reports it. */
  lemma FinishReportsOpen(file: seq<string>, n: nat, st: ScanState, d: nat)
    requires n <= |file| && OpenInv(file, n, st)
    requires FunctionAt(file, d, n) && CountedLines(file, d, n) > MAX_CODE_LINES
    ensures LongFunction(file, d, n) in Finish(st, n)
  {
    OpenFunctionIsCurrent(file, n, st, d);
    OpenIsFunction(file, n, st);
    var f := Finish(st, n);
    assert f[|f| - 1] == LongFunction(file, d, n);
  }

  /** Reports about lines before `n` are still reports about lines before `n + 1`. */
  lemma FoundGrows(file: seq<string>, n: nat, found: seq<Violation>)
    requires n < |file| && !DefAt(file, n + 1)
    requires FoundSound(file, n, found) && FoundComplete(file, n, found)
    ensures FoundSound(file, n + 1, found) && FoundComplete(file, n + 1, found)
  {
    forall d: nat, e: nat | e < n + 1 && FunctionAt(file, d, e) && CountedLines(file, d, e) > MAX_CODE_LINES
      ensures LongFunction(file, d, e) in found
    {
      assert e != n;
    }
  }

  /** A line that is not a `def` line outside docstrings keeps the open function, adding it when it counts. */
  lemma OpenGrows(file: seq<string>, n: nat, st: ScanState, r: ScanState)
    requires n < |file| && OpenInv(file, n, st) && !DefAt(file, n + 1)
    requires r.start == st.start && r.indent == st.indent && r.current == st.current
    requires st.current.Some? ==> r.codeLines == st.codeLines + (if CountsFor(file, st.start, n + 1) then 1 else 0)
    ensures OpenInv(file, n + 1, r)
  {
    NoDefAfter(file, n, st.start);
    CountedGrows(file, n, st.start, st.current, st.codeLines, r.codeLines);
  }

  lemma NoDefAfter(file: seq<string>, n: nat, s: nat)
    requires s <= n < |file| && !DefAt(file, n + 1) && NoDefBetween(file, s, n)
    ensures NoDefBetween(file, s, n + 1)
  {
  }

  lemma CountedGrows(file: seq<string>, n: nat, start: nat, current: Option<string>, c: nat, c': nat)
    requires n < |file| && start <= n && CountedSoFar(file, n, start, current, c)
    requires current.Some? ==> c' == c + (if CountsFor(file, start, n + 1) then 1 else 0)
    ensures CountedSoFar(file, n + 1, start, current, c')
  {
  }

  /** What the corrected loop body makes of `st` and line `line` numbered `i`, case by case. */
  predicate StrictOutcome(st: ScanState, line: string, i: nat, r: ScanState)
    requires i >= 1
  {
    && (Skips(st.doc, Strip(line)) ==> r == st.(doc := DocStep(st.doc, Strip(line))))
    && (!Skips(st.doc, Strip(line)) && IsDefLine(line) ==>
          r == st.(found := Finish(st, i - 1), indent := Indent(line), current := DefName(line),
                   start := i, codeLines := 0))
    && (!Skips(st.doc, Strip(line)) && !IsDefLine(line) ==>
          r == st.(codeLines := if st.current.Some? && IsCode(Strip(line)) && Indent(line) > st.indent
                                then st.codeLines + 1 else st.codeLines))
  }

  lemma StrictStep(st: ScanState, line: string, i: nat)
    requires i >= 1
    ensures StrictOutcome(st, line, i, Step(st, line, i, false))
  {
  }

  /** A docstring line changes only the docstring state. */
  lemma SkipKeepsCountInv(file: seq<string>, n: nat, st: ScanState, r: ScanState)
    requires n < |file| && CountInv(file, n, st) && DocstringLine(file, n + 1)
    requires r == st.(doc := DocStep(st.doc, Strip(file[n])))
    ensures CountInv(file, n + 1, r)
  {
    DocAfterNext(file, n);
    OpenGrows(file, n, st, r);
    FoundGrows(file, n, st.found);
  }

  /** A `def` line closes the open function, reporting it when it is long, and opens its own. */
  lemma DefKeepsCountInv(file: seq<string>, n: nat, st: ScanState, r: ScanState)
    requires n < |file| && CountInv(file, n, st) && DefAt(file, n + 1)
    requires r == st.(found := Finish(st, n), indent := Indent(file[n]), current := DefName(file[n]),
                      start := n + 1, codeLines := 0)
    ensures CountInv(file, n + 1, r)
  {
    DocAfterCode(file, n);
    FinishCurrent(file, n, st);
  }

  /** Any other line adds one to the count exactly when it counts towards the open function. */
  lemma OtherKeepsCountInv(file: seq<string>, n: nat, st: ScanState, r: ScanState)
    requires n < |file| && CountInv(file, n, st) && !DocstringLine(file, n + 1) && !IsDefLine(file[n])
    requires r == st.(codeLines := if st.current.Some? && IsCode(Strip(file[n])) && Indent(file[n]) > st.indent
                                   then st.codeLines + 1 else st.codeLines)
    ensures CountInv(file, n + 1, r)
  {
    DocAfterCode(file, n);
    OpenGrows(file, n, st, r);
    FoundGrows(file, n, st.found);
  }

  /** Reading line `n + 1` keeps the invariant. */
  lemma StepKeepsCountInv(file: seq<string>, n: nat, st: ScanState)
    requires n < |file| && CountInv(file, n, st)
    ensures CountInv(file, n + 1, Step(st, file[n], n + 1, false))
  {
    StrictStep(st, file[n], n + 1);
    OutcomeKeepsCountInv(file, n, st, Step(st, file[n], n + 1, false));
  }

  lemma OutcomeKeepsCountInv(file: seq<string>, n: nat, st: ScanState, r: ScanState)
    requires n < |file| && CountInv(file, n, st) && StrictOutcome(st, file[n], n + 1, r)
    ensures CountInv(file, n + 1, r)
  {
    if DocstringLine(file, n + 1) {
      SkipKeepsCountInv(file, n, st, r);
    } else if IsDefLine(file[n]) {
      DefKeepsCountInv(file, n, st, r);
    } else {
      OtherKeepsCountInv(file, n, st, r);
    }
  }

  lemma {:induction false} CountInvHolds(file: seq<string>, n: nat)
    requires n <= |file|
    ensures CountInv(file, n, Run(file[..n], false))
    decreases n
  {
    if n == 0 {
      assert file[..0] == [];
    } else {
      CountInvHolds(file, n - 1);
      RunNext(file, n, false);
      StepKeepsCountInv(file, n - 1, Run(file[..n - 1], false));
    }
  }

  /**
    The corrected scanner reports exactly the long functions: each report is a
    named function of the file whose counted lines it gives correctly and which
    has more than 20 of them, and every such function is reported.
   */
  lemma CountMethodLinesExact(file: seq<string>)
    ensures forall k :: 0 <= k < |CountMethodLines(file)| ==> IsLongFunction(file, CountMethodLines(file)[k])
    ensures forall d: nat, e: nat :: FunctionAt(file, d, e) && CountedLines(file, d, e) > MAX_CODE_LINES
                                     ==> LongFunction(file, d, e) in CountMethodLines(file)
  {
    assert file[..|file|] == file;
    CountInvHolds(file, |file|);
    FinishCurrent(file, |file|, Run(file, false));
  }

  /** With every `def` line naming its function, the code as written and the corrected scanner agree. */
  lemma {:induction false} AllNamedScansAgree(lines: seq<string>)
    requires forall i :: 0 <= i < |lines| && IsDefLine(lines[i]) ==> DefName(lines[i]).Some?
    ensures Run(lines, true) == Run(lines, false)
    ensures CountMethodLinesAsWritten(lines) == CountMethodLines(lines)
    decreases |lines|
  {
    if |lines| > 0 {
      var pre := lines[..|lines| - 1];
      assert forall i :: 0 <= i < |pre| ==> pre[i] == lines[i];
      AllNamedScansAgree(pre);
    }
  }

  /** Blank lines and comment lines never add to the count and never close a function. */
  lemma BlankAndCommentLinesNotCounted(st: ScanState, line: string, i: nat, keepOnNameless: bool)
    requires i >= 1
    requires !IsCode(Strip(line))
    ensures Step(st, line, i, keepOnNameless).codeLines == st.codeLines
    ensures Step(st, line, i, keepOnNameless).found == st.found
  {
    DefLineShape(line);
  }

  /**
    A line adds one to the count exactly when it is read outside a docstring,
    is neither a docstring opener nor a `def` line, belongs to an open function,
    is code, and is indented deeper than that function's `def`.
   */
  lemma CountedIff(st: ScanState, line: string, i: nat, keepOnNameless: bool)
    requires i >= 1
    ensures Step(st, line, i, keepOnNameless).codeLines == st.codeLines + 1 <==>
              && !st.doc.inDocstring && !OpensDocstring(Strip(line)) && !IsDefLine(line)
              && st.current.Some? && IsCode(Strip(line)) && Indent(line) > st.indent
  {
  }

  /** Inside a docstring a line only decides whether the docstring ends; nothing else changes. */
  lemma DocstringLinesSkipped(st: ScanState, line: string, i: nat, keepOnNameless: bool)
    requires i >= 1 && st.doc.inDocstring
    ensures var r := Step(st, line, i, keepOnNameless);
            && r.codeLines == st.codeLines && r.found == st.found && r.current == st.current
            && (r.doc.inDocstring <==> !Contains(Strip(line), st.doc.delim))
  {
  }

  /** A docstring opened and closed on one line does not put the scan into docstring mode. */
  lemma OneLineDocstring(st: ScanState, line: string, i: nat, keepOnNameless: bool)
    requires i >= 1 && !st.doc.inDocstring
    requires StartsWith(Strip(line), TRIPLE_DOUBLE) && CountOf(Strip(line), TRIPLE_DOUBLE) >= 2
    ensures var r := Step(st, line, i, keepOnNameless);
            && !r.doc.inDocstring && r.codeLines == st.codeLines && r.found == st.found
  {
    var s := Strip(line);
    assert OccursAt(s, TRIPLE_DOUBLE, 0);
    ContainsIff(s, TRIPLE_DOUBLE);
  }

  /**
    The code as written: if the scan is inside a function of more than 20 counted
    lines and the next line is a `def` line without a `def (\w+)` name (such as
    `def  g():`, with two spaces), that function is reported once when the line is
    read and again at the end of the file, with the same start line.
   */
  lemma NamelessDefReportsTwice(lines: seq<string>, line: string)
    requires var st := Run(lines, true);
             !st.doc.inDocstring && st.current.Some? && st.codeLines > MAX_CODE_LINES
    requires IsDefLine(line) && DefName(line).None?
    ensures var found := CountMethodLinesAsWritten(lines + [line]);
            var st := Run(lines, true);
            && |found| >= 2
            && found[|found| - 2] == Violation(st.current.value, st.start, |lines|, st.codeLines)
            && found[|found| - 1] == Violation(st.current.value, st.start, |lines| + 1, st.codeLines)
  {
    var st := Run(lines, true);
    RunSnoc(lines, line, true);
    DefLineShape(line);
    NamelessDefKeepsOpen(st, line, |lines| + 1);
    FinishTwice(st, |lines|, Indent(line));
  }

  /** As written, a `def` line without a name reports the open function and keeps it open. */
  lemma NamelessDefKeepsOpen(st: ScanState, line: string, i: nat)
    requires i >= 1 && !Skips(st.doc, Strip(line)) && IsDefLine(line) && DefName(line).None?
    ensures Step(st, line, i, true) == st.(found := Finish(st, i - 1), indent := Indent(line))
  {
  }

  lemma FinishTwice(st: ScanState, n: nat, indent: nat)
    requires st.current.Some? && st.codeLines > MAX_CODE_LINES
    ensures Finish(st.(found := Finish(st, n), indent := indent), n + 1)
            == st.found + [Violation(st.current.value, st.start, n, st.codeLines)]
                        + [Violation(st.current.value, st.start, n + 1, st.codeLines)]
  {
  }

  /** The corrected scanner on the same input reports the function once. */
  lemma NamelessDefReportedOnce(lines: seq<string>, line: string)
    requires var st := Run(lines, false);
             !st.doc.inDocstring && st.current.Some? && st.codeLines > MAX_CODE_LINES
    requires IsDefLine(line) && DefName(line).None?
    ensures var st := Run(lines, false);
            CountMethodLines(lines + [line]) == st.found + [Violation(st.current.value, st.start, |lines|, st.codeLines)]
  {
    RunSnoc(lines, line, false);
    DefLineShape(line);
    StepShape(Run(lines, false), line, |lines| + 1, false);
  }

  /** `def  g():` (two spaces after `def`) is a `def` line from which `def (\w+)` reads no name. */
  lemma DoubleSpaceDefHasNoName(line: string)
    requires line == "def  g():"
    ensures IsDefLine(line) && DefName(line).None?
  {
    DoubleSpaceParts(line);
    DefNameFromSpec(line, 0);
    forall j | 0 <= j <= |line|
      ensures !DefNameAt(line, j)
    {
      if 1 <= j && j + 4 <= |line| {
        assert line[j..j + 4][0] == line[j];
      }
    }
  }

  lemma DoubleSpaceParts(line: string)
    requires line == "def  g():"
    ensures LStrip(line) == line && StartsWith(line, "def ")
    ensures !IsWordChar(line[4])
    ensures forall j :: 1 <= j < |line| ==> line[j] != 'd'
  {
    DoubleSpaceStripped(line);
    DoubleSpaceLetters(line);
  }

  lemma DoubleSpaceStripped(line: string)
    requires line == "def  g():"
    ensures LStrip(line) == line && StartsWith(line, "def ")
  {
    assert !IsSpace(line[0]);
    assert line[..4] == "def ";
  }

  lemma DoubleSpaceLetters(line: string)
    requires line == "def  g():"
    ensures !IsWordChar(line[4])
    ensures forall j :: 1 <= j < |line| ==> line[j] != 'd'
  {
  }
}
