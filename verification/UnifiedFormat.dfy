/** PatchToUnified and ParsePatch of internal/diffpatch: exactly which patches survive being
    printed and parsed again. */
module UnifiedFormat {
  import opened Myers
  import opened Hunks
  import opened Text
  import opened Apply
  import opened Decimal
  import opened Options

  // -------------------------------------------------------------------- strings

  function TrimPrefix(s: string, prefix: string): string { if prefix <= s then s[|prefix|..] else s }

  /** strings.Index: where the pattern first occurs, or -1. */
  function Index(s: string, pattern: string): (i: int)
    ensures -1 <= i <= |s|
    decreases |s|
  {
    if pattern <= s then 0
    else if s == [] then -1
    else
      var i := Index(s[1..], pattern);
      if i < 0 then -1 else i + 1
  }

  function CharIndex(s: string, c: char): (i: nat)
    ensures i <= |s|
  {
    if s == [] || s[0] == c then 0 else 1 + CharIndex(s[1..], c)
  }

  /** strings.SplitN(s, c, 2): what is before the first c, and what is after it if there is one. */
  function Before(s: string, c: char): string { s[..CharIndex(s, c)] }

  function After(s: string, c: char): Option<string> {
    var i := CharIndex(s, c);
    if i < |s| then Some(s[i + 1..]) else None
  }

  lemma {:induction false} SplitsAt(a: string, c: char, b: string)
    requires c !in a
    ensures Before(a + [c] + b, c) == a && After(a + [c] + b, c) == Some(b)
    decreases |a|
  {
    var s := a + [c] + b;
    if a == [] {
      assert s == [c] + b;
    } else {
      assert s[1..] == a[1..] + [c] + b;
      SplitsAt(a[1..], c, b);
      assert CharIndex(s, c) == |a|;
    }
  }

  // -------------------------------------------------------------------- printing

  function HeaderLine(h: Hunk): string {
    "@@ " + (['-'] + Print(h.oldStart) + [','] + Print(h.oldCount)) + [' ']
    + (['+'] + Print(h.newStart) + [','] + Print(h.newCount)) + " @@"
  }

  function Mark(op: Op): char { match op case OpEqual => ' ' case OpDelete => '-' case OpInsert => '+' }

  function LineText(l: Line): string { [Mark(l.op)] + l.content }

  function LineTexts(ls: seq<Line>): (r: seq<string>)
    ensures |r| == |ls| && forall i :: 0 <= i < |ls| ==> r[i] == LineText(ls[i])
  {
    seq(|ls|, i requires 0 <= i < |ls| => LineText(ls[i]))
  }

  function HunkLines(h: Hunk): seq<string> { [HeaderLine(h)] + LineTexts(h.lines) }

  function HunksLines(hs: seq<Hunk>): seq<string> {
    if hs == [] then [] else HunksLines(hs[..|hs| - 1]) + HunkLines(hs[|hs| - 1])
  }

  function PatchLines(p: Patch): seq<string> {
    ["--- " + p.header.oldFile, "+++ " + p.header.newFile] + HunksLines(p.hunks)
  }

  /** A patch in print. */
  lemma KnownText(x: string, y: string, z: string)
    ensures var lines := [Line(x, OpEqual, 3, 4), Line(y, OpDelete, 4, 0), Line(z, OpInsert, 0, 5)];
      PatchLines(Patch(Header("a", "b"), [Hunk(3, 2, 4, 12, lines)]))
        == ["--- a", "+++ b", "@@ -3,2 +4,12 @@", " " + x, "-" + y, "+" + z]
  {
    var lines := [Line(x, OpEqual, 3, 4), Line(y, OpDelete, 4, 0), Line(z, OpInsert, 0, 5)];
    var h := Hunk(3, 2, 4, 12, lines);
    KnownHeader(h);
    assert LineTexts(lines) == [" " + x, "-" + y, "+" + z];
    hide HeaderLine, LineTexts;
    assert HunkLines(h) == ["@@ -3,2 +4,12 @@", " " + x, "-" + y, "+" + z];
    assert [h][..0] == [] && HunksLines([h]) == [] + HunkLines(h);
    assert "--- " + "a" == "--- a" && "+++ " + "b" == "+++ b";
    assert PatchLines(Patch(Header("a", "b"), [h])) == ["--- a", "+++ b"] + HunkLines(h);
  }

  lemma KnownHeader(h: Hunk)
    requires h.oldStart == 3 && h.oldCount == 2 && h.newStart == 4 && h.newCount == 12
    ensures HeaderLine(h) == "@@ -3,2 +4,12 @@"
  {
    assert Digits(12) == [Digit(1)] + [Digit(2)];
    assert Print(3) == "3" && Print(2) == "2" && Print(4) == "4" && Print(12) == "12";
  }

  /** Every line with a newline after it. */
  function Unlines(lines: seq<string>): string {
    if lines == [] then "" else Unlines(lines[..|lines| - 1]) + lines[|lines| - 1] + "\n"
  }

  lemma {:induction false} UnlinesJoin(a: seq<string>, b: seq<string>)
    ensures Unlines(a + b) == Unlines(a) + Unlines(b)
    decreases |b|
  {
    if b == [] {
      assert a + b == a;
    } else {
      var b', l := b[..|b| - 1], b[|b| - 1];
      UnlinesJoin(a, b');
      assert (a + b)[..|a + b| - 1] == a + b';
      assert Unlines(a + b) == (Unlines(a) + Unlines(b')) + l + "\n";
      assert Unlines(a) + (Unlines(b') + l + "\n") == (Unlines(a) + Unlines(b')) + l + "\n";
    }
  }

  method PatchToUnified(p: Patch) returns (text: string)
    ensures text == Unlines(PatchLines(p))
  {
    var first, second := "--- " + p.header.oldFile, "+++ " + p.header.newFile;
    TwoLines(first, second);
    text := PrintHunks(p.hunks, first + "\n" + second + "\n", [first, second]);
  }

  lemma TwoLines(a: string, b: string)
    ensures Unlines([a, b]) == a + "\n" + b + "\n"
  {
    OneMore([], a);
    OneMore([a], b);
    assert [] + [a] == [a] && [a] + [b] == [a, b];
  }

  method PrintHunks(hunks: seq<Hunk>, text0: string, ghost lines: seq<string>) returns (text: string)
    requires text0 == Unlines(lines)
    ensures text == Unlines(lines + HunksLines(hunks))
  {
    text := text0;
    ghost var done := lines;
    assert lines + HunksLines(hunks[..0]) == lines;
    for i := 0 to |hunks|
      invariant text == Unlines(done) && done == lines + HunksLines(hunks[..i])
    {
      text := PrintHunk(hunks[i], text, done);
      HunksNext(lines, hunks, i);
      done := done + HunkLines(hunks[i]);
    }
    assert hunks[..|hunks|] == hunks;
  }

  lemma HunksNext(lines: seq<string>, hunks: seq<Hunk>, i: int)
    requires 0 <= i < |hunks|
    ensures lines + HunksLines(hunks[..i]) + HunkLines(hunks[i]) == lines + HunksLines(hunks[..i + 1])
  {
    assert hunks[..i + 1][..i] == hunks[..i];
  }

  method PrintHunk(h: Hunk, text0: string, ghost lines: seq<string>) returns (text: string)
    requires text0 == Unlines(lines)
    ensures text == Unlines(lines + HunkLines(h))
  {
    hide HeaderLine, LineText, Unlines;
    text := text0 + HeaderLine(h) + "\n";
    OneMore(lines, HeaderLine(h));
    ghost var top := lines + [HeaderLine(h)];
    ghost var done := top;
    for i := 0 to |h.lines|
      invariant text == Unlines(done) && done == top + LineTexts(h.lines[..i])
    {
      OneMore(done, LineText(h.lines[i]));
      text := text + LineText(h.lines[i]) + "\n";
      TextsNext(h.lines, i);
      done := done + [LineText(h.lines[i])];
    }
    assert h.lines[..|h.lines|] == h.lines;
    assert done == lines + HunkLines(h);
  }

  lemma TextsNext(ls: seq<Line>, i: int)
    requires 0 <= i < |ls|
    ensures LineTexts(ls[..i + 1]) == LineTexts(ls[..i]) + [LineText(ls[i])]
  {
  }

  lemma OneMore(lines: seq<string>, l: string)
    ensures Unlines(lines + [l]) == Unlines(lines) + l + "\n"
  {
    assert (lines + [l])[..|lines|] == lines;
  }

  // --------------------------------------------------------------------- parsing

  function ParseRange(s: string): Option<(int, int)> {
    var t := TrimPrefix(TrimPrefix(s, "-"), "+");
    var start := Scan(Before(t, ','));
    if start.None? then None
    else match After(t, ',')
      case None => Some((start.value, 1))
      case Some(rest) =>
        var count := Scan(rest);
        if count.None? then None else Some((start.value, count.value))
  }

  function ParseHunkHeader(line: string): Option<Hunk> {
    var t := TrimPrefix(line, "@@ ");
    var i := Index(t, " @@");
    if i < 0 then None
    else
      var rangePart := t[..i];
      match After(rangePart, ' ')
      case None => None
      case Some(second) =>
        var old', new' := ParseRange(Before(rangePart, ' ')), ParseRange(second);
        if old'.None? || new'.None? then None
        else Some(Hunk(old'.value.0, old'.value.1, new'.value.0, new'.value.1, []))
  }

  datatype State = State(header: Header, hunks: seq<Hunk>, current: Option<Hunk>)

  predicate Consistent(h: Hunk) {
    h.oldCount == |OldSide(Edits(h.lines))| && h.newCount == |NewSide(Edits(h.lines))|
  }

  /** finalizeHunk: the hunk being read joins the others if its counts are right. */
  function Finalize(st: State): Option<seq<Hunk>> {
    match st.current
    case None => Some(st.hunks)
    case Some(h) => if Consistent(h) then Some(st.hunks + [h]) else None
  }

  function OpOf(line: string): Option<Op> {
    if "-" <= line then Some(OpDelete) else if "+" <= line then Some(OpInsert) else if " " <= line then Some(OpEqual) else None
  }

  /** One line of the patch text. */
  function Step(st: State, line: string): Option<State> {
    if "--- " <= line then Some(st.(header := st.header.(oldFile := TrimPrefix(line, "--- "))))
    else if "+++ " <= line then Some(st.(header := st.header.(newFile := TrimPrefix(line, "+++ "))))
    else if "@@ " <= line then
      var hunks, h := Finalize(st), ParseHunkHeader(line);
      if hunks.None? || h.None? then None else Some(State(st.header, hunks.value, Some(h.value)))
    else match st.current
      case None => Some(st)
      case Some(h) =>
        if OpOf(line).None? then None
        else Some(st.(current := Some(h.(lines := h.lines + [Line(line[1..], OpOf(line).value, 0, 0)]))))
  }

  function Run(st: Option<State>, lines: seq<string>): Option<State> {
    if lines == [] then st
    else
      var s := Run(st, lines[..|lines| - 1]);
      if s.None? then None else Step(s.value, lines[|lines| - 1])
  }

  const START: State := State(Header("", ""), [], None)

  function Finish(st: Option<State>): Option<Patch> {
    if st.None? then None
    else
      var hunks := Finalize(st.value);
      if hunks.None? || (st.value.header == Header("", "") && hunks.value == []) then None
      else Some(Patch(st.value.header, hunks.value))
  }

  function Parse(lines: seq<string>): Option<Patch> {
    if |lines| < 2 then None else Finish(Run(Some(START), lines))
  }

  method ParsePatch(patchText: string) returns (r: Option<Patch>)
    ensures r == Parse(Split(patchText))
  {
    var lines := SplitText(patchText);
    if |lines| < 2 { return None; }
    var st := START;
    for i := 0 to |lines|
      invariant Run(Some(START), lines[..i]) == Some(st)
    {
      assert lines[..i + 1][..i] == lines[..i];
      var next := Step(st, lines[i]);
      if next.None? {
        Fails(lines, i + 1);
        return None;
      }
      st := next.value;
    }
    assert lines[..|lines|] == lines;
    return Finish(Some(st));
  }

  /** Once a line is refused the whole text is. */
  lemma {:induction false} Fails(lines: seq<string>, i: int)
    requires 0 <= i <= |lines| && Run(Some(START), lines[..i]).None?
    ensures Run(Some(START), lines).None?
    decreases |lines| - i
  {
    if i < |lines| {
      assert lines[..i + 1][..i] == lines[..i];
      Fails(lines, i + 1);
    } else {
      assert lines[..i] == lines;
    }
  }

  // ------------------------------------------------------------------- header lines

  lemma {:induction false} IndexOfEnd(body: string)
    requires body != [] && '@' !in body
    ensures Index(body + " @@", " @@") == |body|
    decreases |body|
  {
    var s := body + " @@";
    assert s[1] == if |body| == 1 then ' ' else body[1];
    assert !(" @@" <= s) by { assert " @@"[1] == '@'; }
    if |body| > 1 {
      assert s[1..] == body[1..] + " @@";
      IndexOfEnd(body[1..]);
    } else {
      assert s[1..] == " @@";
    }
  }

  function RangeText(sign: char, start: int, count: int): string { [sign] + Print(start) + [','] + Print(count) }

  lemma {:induction false} PrintHas(n: int, c: char)
    requires !IsDigit(c) && c != '-'
    ensures c !in Print(n)
  {
    forall i | 0 <= i < |Print(n)| ensures Print(n)[i] != c { PrintChars(n, i); }
  }

  lemma ParsesRange(sign: char, start: int, count: int)
    requires (sign == '-' || sign == '+') && IsInt(start) && IsInt(count)
    ensures ParseRange(RangeText(sign, start, count)) == Some((start, count))
  {
    hide Scan, Print, CharIndex, TrimPrefix;
    var s, t := RangeText(sign, start, count), Print(start) + [','] + Print(count);
    assert s == [sign] + t && s[1..] == t;
    Trimmed(sign, start, t);
    PrintHas(start, ',');
    SplitsAt(Print(start), ',', Print(count));
    ScanPrint(start, []);
    ScanPrint(count, []);
    assert Print(start) + [] == Print(start) && Print(count) + [] == Print(count);
  }

  /** A range without a count stands for one line. */
  lemma ParsesShortRange(sign: char, start: int)
    requires (sign == '-' || sign == '+') && IsInt(start)
    ensures ParseRange([sign] + Print(start)) == Some((start, 1))
  {
    hide Scan, Print, CharIndex, TrimPrefix;
    var s, t := [sign] + Print(start), Print(start);
    assert s[1..] == t;
    Trimmed(sign, start, t);
    PrintHas(start, ',');
    NoSplit(t, ',');
    ScanPrint(start, []);
    assert t + [] == t;
  }

  lemma {:induction false} NoSplit(s: string, c: char)
    requires c !in s
    ensures CharIndex(s, c) == |s|
    decreases |s|
  {
    if s != [] { NoSplit(s[1..], c); }
  }

  /** Only the sign of the range goes, not that of the number. */
  lemma Trimmed(sign: char, start: int, t: string)
    requires (sign == '-' || sign == '+') && Print(start) <= t
    ensures TrimPrefix(TrimPrefix([sign] + t, "-"), "+") == t
  {
    PrintChars(start, 0);
    assert t[0] == Print(start)[0];
    assert ([sign] + t)[1..] == t;
  }

  lemma {:induction false} ParsesHeader(h: Hunk)
    requires IsInt(h.oldStart) && IsInt(h.oldCount) && IsInt(h.newStart) && IsInt(h.newCount)
    ensures ParseHunkHeader(HeaderLine(h)) == Some(h.(lines := []))
  {
    var a, b := RangeText('-', h.oldStart, h.oldCount), RangeText('+', h.newStart, h.newCount);
    var body := a + [' '] + b;
    var line := HeaderLine(h);
    assert line == "@@ " + (body + " @@");
    assert line[3..] == body + " @@";
    RangeHas('-', h.oldStart, h.oldCount, '@');
    RangeHas('+', h.newStart, h.newCount, '@');
    RangeHas('-', h.oldStart, h.oldCount, ' ');
    IndexOfEnd(body);
    assert (body + " @@")[..|body|] == body;
    SplitsAt(a, ' ', b);
    ParsesRange('-', h.oldStart, h.oldCount);
    ParsesRange('+', h.newStart, h.newCount);
  }

  lemma RangeHas(sign: char, start: int, count: int, c: char)
    requires !IsDigit(c) && c != '-' && c != sign && c != ','
    ensures c !in RangeText(sign, start, count)
  {
    PrintHas(start, c);
    PrintHas(count, c);
  }

  // -------------------------------------------------------------------- round trip

  lemma {:induction false} RunJoin(st: Option<State>, a: seq<string>, b: seq<string>)
    ensures Run(st, a + b) == Run(Run(st, a), b)
    decreases |b|
  {
    if b == [] {
      assert a + b == a;
    } else {
      RunJoin(st, a, b[..|b| - 1]);
      assert (a + b)[..|a + b| - 1] == a + b[..|b| - 1];
    }
  }

  lemma RunOne(st: State, line: string)
    ensures Run(Some(st), [line]) == Step(st, line)
  {
    assert [line][..0] == [];
  }

  /** Line numbers are not printed. */
  function EraseLine(l: Line): Line { l.(oldLineNo := 0, newLineNo := 0) }

  function EraseLines(ls: seq<Line>): (r: seq<Line>)
    ensures |r| == |ls| && forall i :: 0 <= i < |ls| ==> r[i] == EraseLine(ls[i])
  {
    seq(|ls|, i requires 0 <= i < |ls| => EraseLine(ls[i]))
  }

  function EraseHunk(h: Hunk): Hunk { h.(lines := EraseLines(h.lines)) }

  function EraseHunks(hs: seq<Hunk>): (r: seq<Hunk>)
    ensures |r| == |hs| && forall i :: 0 <= i < |hs| ==> r[i] == EraseHunk(hs[i])
  {
    seq(|hs|, i requires 0 <= i < |hs| => EraseHunk(hs[i]))
  }

  function Erase(p: Patch): Patch { p.(hunks := EraseHunks(p.hunks)) }

  /** A deleted or inserted line that reads like a file header once it is marked. */
  predicate LooksLikeHeader(l: Line) {
    (l.op.OpDelete? && "-- " <= l.content) || (l.op.OpInsert? && "++ " <= l.content)
  }

  predicate PlainLines(ls: seq<Line>) { forall i :: 0 <= i < |ls| ==> !LooksLikeHeader(ls[i]) }

  lemma MarkedLine(l: Line)
    ensures !("@@ " <= LineText(l))
    ensures LooksLikeHeader(l) <==> "--- " <= LineText(l) || "+++ " <= LineText(l)
    ensures OpOf(LineText(l)) == Some(l.op) && LineText(l)[1..] == l.content
  {
    var t := LineText(l);
    assert "--- " == "-" + "-- " && "+++ " == "+" + "++ ";
    assert "--- "[0] == '-' && "+++ "[0] == '+' && "@@ "[0] == '@';
    assert "--- "[1..] == "-- " && "+++ "[1..] == "++ ";
    assert t[1..] == l.content;
    assert "--- " <= t <==> t[0] == '-' && "-- " <= t[1..];
    assert "+++ " <= t <==> t[0] == '+' && "++ " <= t[1..];
  }

  lemma StepContent(st: State, h: Hunk, done: seq<Line>, l: Line)
    requires !LooksLikeHeader(l)
    ensures Step(st.(current := Some(h.(lines := done))), LineText(l))
         == Some(st.(current := Some(h.(lines := done + [Line(l.content, l.op, 0, 0)]))))
  {
    MarkedLine(l);
    hide ParseHunkHeader, LooksLikeHeader, LineText, OpOf;
  }

  lemma {:induction false} RunLines(st: State, h: Hunk, ls: seq<Line>)
    requires st.current == Some(h.(lines := [])) && PlainLines(ls)
    ensures Run(Some(st), LineTexts(ls)) == Some(st.(current := Some(h.(lines := EraseLines(ls)))))
    decreases |ls|
  {
    hide Step, LineText, LooksLikeHeader;
    if ls == [] {
      assert EraseLines(ls) == [];
    } else {
      var init, l := ls[..|ls| - 1], ls[|ls| - 1];
      RunLines(st, h, init);
      assert LineTexts(ls)[..|ls| - 1] == LineTexts(init);
      StepContent(st, h, EraseLines(init), l);
      assert EraseLines(init) + [Line(l.content, l.op, 0, 0)] == EraseLines(ls);
    }
  }

  predicate GoInts(h: Hunk) { IsInt(h.oldStart) && IsInt(h.oldCount) && IsInt(h.newStart) && IsInt(h.newCount) }

  predicate GoodHunk(h: Hunk) { GoInts(h) && Consistent(h) && PlainLines(h.lines) }

  /** The parser's state after it has read the given hunks. */
  function ReadHunks(header: Header, hs: seq<Hunk>): State {
    if hs == [] then State(header, [], None)
    else State(header, EraseHunks(hs[..|hs| - 1]), Some(EraseHunk(hs[|hs| - 1])))
  }

  lemma ErasedConsistent(h: Hunk)
    ensures Consistent(EraseHunk(h)) <==> Consistent(h)
  {
    assert Edits(EraseLines(h.lines)) == Edits(h.lines);
  }

  predicate AllConsistent(hs: seq<Hunk>) { forall i :: 0 <= i < |hs| ==> Consistent(hs[i]) }

  lemma FinalizeRead(header: Header, hs: seq<Hunk>)
    requires AllConsistent(hs)
    ensures Finalize(ReadHunks(header, hs)) == Some(EraseHunks(hs)) && ReadHunks(header, hs).header == header
  {
    if hs != [] {
      ErasedConsistent(hs[|hs| - 1]);
      assert EraseHunks(hs[..|hs| - 1]) + [EraseHunk(hs[|hs| - 1])] == EraseHunks(hs);
    } else {
      assert EraseHunks(hs) == [];
    }
  }

  predicate AllGood(hs: seq<Hunk>) { forall i :: 0 <= i < |hs| ==> GoodHunk(hs[i]) }

  lemma GoodInit(hs: seq<Hunk>)
    requires AllGood(hs)
    ensures AllConsistent(hs) && (hs != [] ==> AllGood(hs[..|hs| - 1]) && GoodHunk(hs[|hs| - 1]))
  {
    forall i | 0 <= i < |hs| ensures Consistent(hs[i]) { assert GoodHunk(hs[i]); }
  }

  lemma StepAt(st: State, line: string, hunks: seq<Hunk>, h: Hunk)
    requires "@@ " <= line && Finalize(st) == Some(hunks) && ParseHunkHeader(line) == Some(h)
    ensures Step(st, line) == Some(State(st.header, hunks, Some(h)))
  {
    assert line[0] == '@';
  }

  lemma HeaderStarts(h: Hunk)
    ensures "@@ " <= HeaderLine(h)
  {
  }

  lemma StepHeader(header: Header, hs: seq<Hunk>, h: Hunk)
    requires GoInts(h) && AllGood(hs)
    ensures Step(ReadHunks(header, hs), HeaderLine(h)) == Some(State(header, EraseHunks(hs), Some(h.(lines := []))))
  {
    hide Step, ParseHunkHeader, HeaderLine, EraseHunks, AllGood, AllConsistent, Finalize, ReadHunks;
    GoodInit(hs);
    FinalizeRead(header, hs);
    HeaderStarts(h);
    ParsesHeader(h);
    StepAt(ReadHunks(header, hs), HeaderLine(h), EraseHunks(hs), h.(lines := []));
  }

  lemma RunHunk(header: Header, hs: seq<Hunk>, h: Hunk)
    requires GoodHunk(h) && AllGood(hs)
    ensures Run(Some(ReadHunks(header, hs)), HunkLines(h)) == Some(ReadHunks(header, hs + [h]))
  {
    StepHeader(header, hs, h);
    RunOne(ReadHunks(header, hs), HeaderLine(h));
    RunJoin(Some(ReadHunks(header, hs)), [HeaderLine(h)], LineTexts(h.lines));
    RunLines(State(header, EraseHunks(hs), Some(h.(lines := []))), h, h.lines);
    assert (hs + [h])[..|hs|] == hs;
  }

  lemma RunNothing(header: Header)
    ensures Run(Some(State(header, [], None)), []) == Some(ReadHunks(header, []))
  {
  }

  lemma {:induction false} RunHunks(header: Header, hs: seq<Hunk>)
    requires AllGood(hs)
    ensures Run(Some(State(header, [], None)), HunksLines(hs)) == Some(ReadHunks(header, hs))
    decreases |hs|
  {
    hide Run, ReadHunks, HunkLines, AllGood, GoodHunk;
    if hs == [] {
      RunNothing(header);
    } else {
      var init, h := hs[..|hs| - 1], hs[|hs| - 1];
      GoodInit(hs);
      RunHunks(header, init);
      RunNext(header, init, h, HunksLines(init));
      assert init + [h] == hs;
    }
  }

  lemma RunNext(header: Header, init: seq<Hunk>, h: Hunk, lines: seq<string>)
    requires Run(Some(State(header, [], None)), lines) == Some(ReadHunks(header, init)) && AllGood(init) && GoodHunk(h)
    ensures Run(Some(State(header, [], None)), lines + HunkLines(h)) == Some(ReadHunks(header, init + [h]))
  {
    RunJoin(Some(State(header, [], None)), lines, HunkLines(h));
    RunHunk(header, init, h);
  }

  lemma RunHeader(header: Header)
    ensures Run(Some(START), ["--- " + header.oldFile, "+++ " + header.newFile]) == Some(State(header, [], None))
  {
    var a, b := "--- " + header.oldFile, "+++ " + header.newFile;
    RunOne(START, a);
    assert a[4..] == header.oldFile && b[4..] == header.newFile;
    assert b[0] == '+' && !("--- " <= b);
    RunJoin(Some(START), [a], [b]);
    assert [a] + [b] == [a, b];
    RunOne(START.(header := Header(header.oldFile, "")), b);
  }

  // ------------------------------------------------------------------- text and lines

  lemma {:induction false} SplitUnlines(lines: seq<string>)
    requires AreLines(lines)
    ensures Split(Unlines(lines)) == lines
    decreases |lines|
  {
    if lines != [] {
      var l, rest := lines[0], lines[1..];
      SplitUnlines(rest);
      UnlinesJoin([l], rest);
      assert [l] + rest == lines;
      OneMore([], l);
      assert [] + [l] == [l];
      var t := Unlines(lines);
      assert t == l + "\n" + Unlines(rest);
      assert t[..|l|] == l && t[|l| + 1..] == Unlines(rest);
      SplitAt(t, |l|);
    }
  }

  // ------------------------------------------------- what every parsed patch is like

  predicate OneLineHunk(h: Hunk) { forall i :: 0 <= i < |h.lines| ==> OneLine(h.lines[i].content) }

  predicate AllOneLine(hs: seq<Hunk>) { forall i :: 0 <= i < |hs| ==> OneLineHunk(hs[i]) }

  predicate CleanHeader(h: Header) { OneLine(h.oldFile) && OneLine(h.newFile) }

  predicate Clean(st: State) {
    && CleanHeader(st.header)
    && AllOneLine(st.hunks) && AllConsistent(st.hunks)
    && (st.current.Some? ==> OneLineHunk(st.current.value))
  }

  lemma StepClean(st: State, line: string)
    requires Clean(st) && OneLine(line) && Step(st, line).Some?
    ensures Clean(Step(st, line).value)
  {
    hide ParseHunkHeader, OneLine, AllOneLine, AllConsistent, OneLineHunk;
    var st' := Step(st, line).value;
    if "--- " <= line || "+++ " <= line {
      RestIsOneLine(line, 4);
    } else if "@@ " <= line {
      FinalizedClean(st);
      NewHunkClean(line);
    } else if st.current.Some? {
      RestIsOneLine(line, 1);
      MoreIsOneLine(st.current.value, Line(line[1..], OpOf(line).value, 0, 0));
    }
  }

  lemma RestIsOneLine(line: string, n: nat)
    requires OneLine(line) && n <= |line|
    ensures OneLine(line[n..])
  {
  }

  lemma MoreIsOneLine(h: Hunk, l: Line)
    requires OneLineHunk(h) && OneLine(l.content)
    ensures OneLineHunk(h.(lines := h.lines + [l]))
  {
  }

  lemma NewHunkClean(line: string)
    requires ParseHunkHeader(line).Some?
    ensures OneLineHunk(ParseHunkHeader(line).value)
  {
  }

  lemma FinalizedClean(st: State)
    requires Clean(st) && Finalize(st).Some?
    ensures AllOneLine(Finalize(st).value) && AllConsistent(Finalize(st).value)
  {
  }

  lemma {:induction false} RunClean(lines: seq<string>)
    requires (forall i :: 0 <= i < |lines| ==> OneLine(lines[i])) && Run(Some(START), lines).Some?
    ensures Clean(Run(Some(START), lines).value)
    decreases |lines|
  {
    if lines != [] {
      RunClean(lines[..|lines| - 1]);
      StepClean(Run(Some(START), lines[..|lines| - 1]).value, lines[|lines| - 1]);
    }
  }

  /** Lines that can only be read as content. */
  predicate IsContent(line: string) { !("--- " <= line) && !("+++ " <= line) && !("@@ " <= line) }

  function CountContent(lines: seq<string>): nat {
    if lines == [] then 0 else CountContent(lines[..|lines| - 1]) + (if IsContent(lines[|lines| - 1]) then 1 else 0)
  }

  function CountLines(hs: seq<Hunk>): nat {
    if hs == [] then 0 else CountLines(hs[..|hs| - 1]) + |hs[|hs| - 1].lines|
  }

  function CountRead(st: State): nat { CountLines(st.hunks) + (if st.current.Some? then |st.current.value.lines| else 0) }

  lemma CountFinalized(st: State)
    requires Finalize(st).Some?
    ensures CountLines(Finalize(st).value) == CountRead(st)
  {
    if st.current.Some? { assert (st.hunks + [st.current.value])[..|st.hunks|] == st.hunks; }
  }

  lemma StepCounts(st: State, line: string)
    requires Step(st, line).Some?
    ensures CountRead(Step(st, line).value) <= CountRead(st) + (if IsContent(line) then 1 else 0)
  {
    if "@@ " <= line {
      assert line[0] == '@';
      CountFinalized(st);
      assert ParseHunkHeader(line).value.lines == [];
    }
  }

  lemma {:induction false} RunCounts(lines: seq<string>)
    requires Run(Some(START), lines).Some?
    ensures CountRead(Run(Some(START), lines).value) <= CountContent(lines)
    decreases |lines|
  {
    if lines != [] {
      RunCounts(lines[..|lines| - 1]);
      StepCounts(Run(Some(START), lines[..|lines| - 1]).value, lines[|lines| - 1]);
    }
  }

  lemma {:induction false} ContentJoin(a: seq<string>, b: seq<string>)
    ensures CountContent(a + b) == CountContent(a) + CountContent(b)
    decreases |b|
  {
    if b == [] {
      assert a + b == a;
    } else {
      ContentJoin(a, b[..|b| - 1]);
      assert (a + b)[..|a + b| - 1] == a + b[..|b| - 1];
    }
  }

  lemma {:induction false} ContentOfLines(ls: seq<Line>)
    ensures CountContent(LineTexts(ls)) <= |ls|
    ensures CountContent(LineTexts(ls)) == |ls| ==> PlainLines(ls)
    decreases |ls|
  {
    if ls != [] {
      var init, l := ls[..|ls| - 1], ls[|ls| - 1];
      ContentOfLines(init);
      assert LineTexts(ls)[..|ls| - 1] == LineTexts(init);
      MarkedLine(l);
    }
  }

  predicate AllPlain(hs: seq<Hunk>) { forall i :: 0 <= i < |hs| ==> PlainLines(hs[i].lines) }

  lemma PlainLast(hs: seq<Hunk>)
    requires hs != [] && AllPlain(hs[..|hs| - 1]) && PlainLines(hs[|hs| - 1].lines)
    ensures AllPlain(hs)
  {
    var init := hs[..|hs| - 1];
    forall i | 0 <= i < |hs| ensures PlainLines(hs[i].lines) {
      if i < |init| { assert init[i] == hs[i]; }
    }
  }

  lemma ContentOfHunk(h: Hunk)
    ensures CountContent(HunkLines(h)) <= |h.lines|
    ensures CountContent(HunkLines(h)) == |h.lines| ==> PlainLines(h.lines)
  {
    ContentJoin([HeaderLine(h)], LineTexts(h.lines));
    assert "@@ " <= HeaderLine(h);
    ContentOne(HeaderLine(h));
    ContentOfLines(h.lines);
  }

  lemma {:induction false} ContentOfHunks(hs: seq<Hunk>)
    ensures CountContent(HunksLines(hs)) <= CountLines(hs)
    ensures CountContent(HunksLines(hs)) == CountLines(hs) ==> AllPlain(hs)
    decreases |hs|
  {
    if hs != [] {
      var init, h := hs[..|hs| - 1], hs[|hs| - 1];
      ContentOfHunks(init);
      ContentJoin(HunksLines(init), HunkLines(h));
      ContentOfHunk(h);
      if AllPlain(init) && PlainLines(h.lines) { PlainLast(hs); }
    }
  }

  // ----------------------------------------------------------------------- theorem

  /** Newline-free names and lines, right counts, something to print, and no changed line that
      reads like a file header. */
  predicate Printable(p: Patch) {
    && CleanHeader(p.header) && AllOneLine(p.hunks) && AllConsistent(p.hunks) && AllPlain(p.hunks)
    && (p.header != Header("", "") || p.hunks != [])
  }

  predicate AllGoInts(hs: seq<Hunk>) { forall i :: 0 <= i < |hs| ==> GoInts(hs[i]) }

  lemma HeaderIsOneLine(h: Hunk)
    ensures OneLine(HeaderLine(h))
  {
    RangeHas('-', h.oldStart, h.oldCount, '\n');
    RangeHas('+', h.newStart, h.newCount, '\n');
    assert HeaderLine(h) == "@@ " + RangeText('-', h.oldStart, h.oldCount) + [' '] + RangeText('+', h.newStart, h.newCount) + " @@";
  }

  lemma HunkIsOneLine(h: Hunk)
    requires OneLineHunk(h)
    ensures AreLines(HunkLines(h))
  {
    HeaderIsOneLine(h);
  }

  lemma AreLinesJoin(a: seq<string>, b: seq<string>)
    requires AreLines(a) && AreLines(b)
    ensures AreLines(a + b)
  {
  }

  lemma {:induction false} HunksAreOneLine(hs: seq<Hunk>)
    requires AllOneLine(hs)
    ensures AreLines(HunksLines(hs))
    decreases |hs|
  {
    if hs != [] {
      HunksAreOneLine(hs[..|hs| - 1]);
      HunkIsOneLine(hs[|hs| - 1]);
      AreLinesJoin(HunksLines(hs[..|hs| - 1]), HunkLines(hs[|hs| - 1]));
    }
  }

  lemma PatchIsOneLine(p: Patch)
    requires CleanHeader(p.header) && AllOneLine(p.hunks)
    ensures AreLines(PatchLines(p))
  {
    HunksAreOneLine(p.hunks);
    AreLinesJoin(["--- " + p.header.oldFile, "+++ " + p.header.newFile], HunksLines(p.hunks));
  }

  lemma PrintableGood(p: Patch)
    requires Printable(p) && AllGoInts(p.hunks)
    ensures AllGood(p.hunks)
  {
  }

  /** A printable patch is read back. */
  lemma ReadsBack(p: Patch)
    requires Printable(p) && AllGoInts(p.hunks)
    ensures Parse(Split(Unlines(PatchLines(p)))) == Some(Erase(p))
  {
    PatchIsOneLine(p);
    SplitUnlines(PatchLines(p));
    PrintableGood(p);
    RunHeader(p.header);
    RunHunks(p.header, p.hunks);
    RunJoin(Some(START), ["--- " + p.header.oldFile, "+++ " + p.header.newFile], HunksLines(p.hunks));
    FinalizeRead(p.header, p.hunks);
  }

  lemma {:induction false} CountErased(hs: seq<Hunk>)
    ensures CountLines(EraseHunks(hs)) == CountLines(hs)
    decreases |hs|
  {
    if hs != [] {
      CountErased(hs[..|hs| - 1]);
      assert EraseHunks(hs)[..|hs| - 1] == EraseHunks(hs[..|hs| - 1]);
    }
  }

  lemma ErasedClean(p: Patch)
    requires AllOneLine(EraseHunks(p.hunks)) && AllConsistent(EraseHunks(p.hunks))
    ensures AllOneLine(p.hunks) && AllConsistent(p.hunks)
  {
    forall i | 0 <= i < |p.hunks| ensures OneLineHunk(p.hunks[i]) && Consistent(p.hunks[i]) {
      assert OneLineHunk(EraseHunks(p.hunks)[i]) && Consistent(EraseHunks(p.hunks)[i]);
      ErasedConsistent(p.hunks[i]);
      var ls := p.hunks[i].lines;
      assert forall j :: 0 <= j < |ls| ==> EraseLines(ls)[j].content == ls[j].content;
    }
  }

  lemma FinishIsClean(st: State)
    requires Clean(st) && Finish(Some(st)).Some?
    ensures var p := Finish(Some(st)).value;
      && CleanHeader(p.header) && AllOneLine(p.hunks) && AllConsistent(p.hunks) && (p.header != Header("", "") || p.hunks != [])
      && CountLines(p.hunks) == CountRead(st)
  {
    CountFinalized(st);
  }

  /** What the parser returns is newline-free and consistent, and no longer than the text. */
  lemma ParsedIsClean(text: string)
    requires Parse(Split(text)).Some?
    ensures var p := Parse(Split(text)).value;
      && CleanHeader(p.header) && AllOneLine(p.hunks) && AllConsistent(p.hunks) && (p.header != Header("", "") || p.hunks != [])
      && CountLines(p.hunks) <= CountContent(Split(text))
  {
    var lines := Split(text);
    SplitIsOneLine(text);
    RunClean(lines);
    RunCounts(lines);
    FinishIsClean(Run(Some(START), lines).value);
  }

  /** Only a printable patch is read back. */
  lemma OnlyPrintable(p: Patch)
    requires Parse(Split(Unlines(PatchLines(p)))) == Some(Erase(p))
    ensures Printable(p)
  {
    ParsedIsClean(Unlines(PatchLines(p)));
    ErasedClean(p);
    PatchIsOneLine(p);
    SplitUnlines(PatchLines(p));
    CountErased(p.hunks);
    HeaderContent(p);
    ContentOfHunks(p.hunks);
  }

  lemma HeaderContent(p: Patch)
    ensures CountContent(PatchLines(p)) == CountContent(HunksLines(p.hunks))
  {
    var a, b := "--- " + p.header.oldFile, "+++ " + p.header.newFile;
    ContentJoin([a, b], HunksLines(p.hunks));
    ContentJoin([a], [b]);
    assert [a] + [b] == [a, b];
    ContentOne(a);
    ContentOne(b);
  }

  lemma ContentOne(line: string)
    ensures CountContent([line]) == if IsContent(line) then 1 else 0
  {
    assert [line][..0] == [];
  }

  /** A patch survives printing and parsing, up to line numbers, exactly when it is printable. */
  lemma {:induction false} RoundTrip(p: Patch)
    requires AllGoInts(p.hunks)
    ensures Parse(Split(Unlines(PatchLines(p)))) == Some(Erase(p)) <==> Printable(p)
  {
    if Printable(p) { ReadsBack(p); }
    if Parse(Split(Unlines(PatchLines(p)))) == Some(Erase(p)) { OnlyPrintable(p); }
  }
}
