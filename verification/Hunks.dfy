/** buildHunks of internal/diffpatch: an edit script is cut into hunks with three lines of
    context around every change. */
module Hunks {
  import opened Myers

  const CONTEXT_SIZE: int := 3

  datatype Line = Line(content: string, op: Op, oldLineNo: int, newLineNo: int)

  datatype Hunk = Hunk(oldStart: int, oldCount: int, newStart: int, newCount: int, lines: seq<Line>)

  function Edits(lines: seq<Line>): (r: seq<Edit>)
    ensures |r| == |lines| && forall i :: 0 <= i < |r| ==> r[i] == Edit(lines[i].op, lines[i].content)
  {
    seq(|lines|, i requires 0 <= i < |lines| => Edit(lines[i].op, lines[i].content))
  }

  // ----------------------------------------------------------- sides of a script

  lemma {:induction false} OldJoin(s: seq<Edit>, t: seq<Edit>)
    ensures OldSide(s + t) == OldSide(s) + OldSide(t)
    decreases |s|
  {
    if s == [] {
      assert s + t == t;
    } else {
      var first := if s[0].op.OpInsert? then [] else [s[0].line];
      assert (s + t)[1..] == s[1..] + t;
      OldJoin(s[1..], t);
      assert first + (OldSide(s[1..]) + OldSide(t)) == (first + OldSide(s[1..])) + OldSide(t);
    }
  }

  lemma {:induction false} NewJoin(s: seq<Edit>, t: seq<Edit>)
    ensures NewSide(s + t) == NewSide(s) + NewSide(t)
    decreases |s|
  {
    if s == [] {
      assert s + t == t;
    } else {
      var first := if s[0].op.OpDelete? then [] else [s[0].line];
      assert (s + t)[1..] == s[1..] + t;
      NewJoin(s[1..], t);
      assert first + (NewSide(s[1..]) + NewSide(t)) == (first + NewSide(s[1..])) + NewSide(t);
    }
  }

  lemma SidesJoin(s: seq<Edit>, t: seq<Edit>)
    ensures OldSide(s + t) == OldSide(s) + OldSide(t)
    ensures NewSide(s + t) == NewSide(s) + NewSide(t)
  {
    OldJoin(s, t);
    NewJoin(s, t);
  }

  lemma SidesSplit(s: seq<Edit>, i: int, j: int)
    requires 0 <= i <= j <= |s|
    ensures OldSide(s[..j]) == OldSide(s[..i]) + OldSide(s[i..j])
    ensures NewSide(s[..j]) == NewSide(s[..i]) + NewSide(s[i..j])
  {
    var t, u := s[..i], s[i..j];
    assert s[..j] == t + u;
    SidesJoin(t, u);
  }

  lemma SidesWhole(s: seq<Edit>, i: int)
    requires 0 <= i <= |s|
    ensures OldSide(s) == OldSide(s[..i]) + OldSide(s[i..])
    ensures NewSide(s) == NewSide(s[..i]) + NewSide(s[i..])
  {
    var t, u := s[..i], s[i..];
    assert s == t + u;
    SidesJoin(t, u);
  }

  lemma SidesStep(s: seq<Edit>, i: int, j: int)
    requires 0 <= i <= j < |s|
    ensures OldSide(s[i..j + 1]) == OldSide(s[i..j]) + (if s[j].op.OpInsert? then [] else [s[j].line])
    ensures NewSide(s[i..j + 1]) == NewSide(s[i..j]) + (if s[j].op.OpDelete? then [] else [s[j].line])
  {
    assert s[i..j + 1] == s[i..j] + [s[j]];
    SidesAppend(s[i..j], s[j]);
  }

  ghost predicate AllEqual(s: seq<Edit>, i: int, j: int) {
    0 <= i <= j <= |s| && forall k :: i <= k < j ==> s[k].op.OpEqual?
  }

  /** Over equal lines the two sides are the same. */
  lemma {:induction false} EqualSides(s: seq<Edit>, i: int, j: int)
    requires AllEqual(s, i, j)
    ensures OldSide(s[i..j]) == NewSide(s[i..j]) && |OldSide(s[i..j])| == j - i
    ensures forall k :: i <= k < j ==> OldSide(s[i..j])[k - i] == s[k].line
    decreases j - i
  {
    if i < j {
      EqualSides(s, i, j - 1);
      SidesStep(s, i, j - 1);
    }
  }

  // ------------------------------------------------------------ what hunks describe

  /** The part of the script a hunk shows, with its first and its last change. */
  datatype Span = Span(from: int, first: int, last: int, end: int)

  /** The 1-based places of edit i in the old and in the new text. */
  ghost function OldNo(ses: seq<Edit>, i: int): int
    requires 0 <= i <= |ses|
  {
    |OldSide(ses[..i])| + 1
  }

  ghost function NewNo(ses: seq<Edit>, i: int): int
    requires 0 <= i <= |ses|
  {
    |NewSide(ses[..i])| + 1
  }

  /** The numbers on the line that shows edit i of a hunk that starts at edit from.  Context
      before the first change carries its old number twice. */
  ghost predicate NumberedLine(ses: seq<Edit>, from: int, i: int, line: Line)
    requires 0 <= from <= i < |ses|
  {
    match line.op
    case OpDelete => line.oldLineNo == OldNo(ses, i) && line.newLineNo == 0
    case OpInsert => line.oldLineNo == 0 && line.newLineNo == NewNo(ses, i)
    case OpEqual =>
      line.oldLineNo == OldNo(ses, i) && line.newLineNo == if AllEqual(ses, from, i + 1) then OldNo(ses, i) else NewNo(ses, i)
  }

  ghost predicate Numbered(ses: seq<Edit>, from: int, lines: seq<Line>) {
    0 <= from && from + |lines| <= |ses| &&
    forall j {:trigger lines[j]} :: 0 <= j < |lines| ==> NumberedLine(ses, from, from + j, lines[j])
  }

  /** The hunk shows edits from .. end, with the places and counts of its lines. */
  ghost predicate PartOf(ses: seq<Edit>, from: int, end: int, h: Hunk) {
    && 0 <= from <= end <= |ses| && Edits(h.lines) == ses[from..end]
    && h.oldStart == OldNo(ses, from) && h.oldCount == |OldSide(ses[from..end])|
    && h.newStart == NewNo(ses, from) && h.newCount == |NewSide(ses[from..end])|
  }

  ghost predicate HunkOf(ses: seq<Edit>, from: int, end: int, h: Hunk) {
    PartOf(ses, from, end, h) && Numbered(ses, from, h.lines)
  }

  function Smaller(x: int, y: int): int { if x < y then x else y }

  ghost predicate SevenEqual(s: seq<Edit>, i: int) { AllEqual(s, i, i + 7) }

  /** The changes of a hunk are never seven equal lines apart, and three lines of context lead
      up to the first if there are that many. */
  ghost predicate Leads(ses: seq<Edit>, previous: int, s: Span) {
    && 0 <= previous <= s.from <= s.first <= s.last < |ses|
    && AllEqual(ses, previous, s.from) && AllEqual(ses, s.from, s.first)
    && s.first - s.from == Smaller(CONTEXT_SIZE, s.first - previous)
    && !ses[s.first].op.OpEqual? && !ses[s.last].op.OpEqual?
    && (forall i {:trigger SevenEqual(ses, i)} :: s.first <= i && i + 7 <= s.last ==> !SevenEqual(ses, i))
  }

  /** Four lines follow the last change if seven equal ones do, else up to three to the end. */
  ghost predicate Trails(ses: seq<Edit>, s: Span) {
    && s.last < s.end <= |ses| && AllEqual(ses, s.last + 1, s.end)
    && if SevenEqual(ses, s.last + 1) then s.end == s.last + 5
       else AllEqual(ses, s.last + 1, |ses|) && s.end == Smaller(s.last + 1 + CONTEXT_SIZE, |ses|)
  }

  ghost function EndOf(spans: seq<Span>): int { if spans == [] then 0 else spans[|spans| - 1].end }

  /** Hunk i shows its span, after the hunk before it, and only equal lines lie between. */
  ghost predicate Follows(ses: seq<Edit>, spans: seq<Span>, hunks: seq<Hunk>, i: int)
    requires 0 <= i < |spans| == |hunks|
  {
    && HunkOf(ses, spans[i].from, spans[i].end, hunks[i])
    && Leads(ses, EndOf(spans[..i]), spans[i]) && Trails(ses, spans[i])
  }

  ghost predicate Shows(ses: seq<Edit>, spans: seq<Span>, hunks: seq<Hunk>) {
    |spans| == |hunks| && forall i {:trigger Follows(ses, spans, hunks, i)} :: 0 <= i < |hunks| ==> Follows(ses, spans, hunks, i)
  }

  /** The hunks show every change of the script, in order and without overlap. */
  ghost predicate Describes(ses: seq<Edit>, spans: seq<Span>, hunks: seq<Hunk>) {
    Shows(ses, spans, hunks) && AllEqual(ses, EndOf(spans), |ses|)
  }

  lemma ShowsOne(ses: seq<Edit>, spans: seq<Span>, hunks: seq<Hunk>, s: Span, h: Hunk)
    requires Shows(ses, spans, hunks) && HunkOf(ses, s.from, s.end, h) && Leads(ses, EndOf(spans), s) && Trails(ses, s)
    ensures Shows(ses, spans + [s], hunks + [h]) && EndOf(spans + [s]) == s.end
  {
    var spans', hunks' := spans + [s], hunks + [h];
    forall i | 0 <= i < |hunks'| ensures Follows(ses, spans', hunks', i) {
      assert spans'[..i] == spans[..i];
      if i < |hunks| { assert Follows(ses, spans, hunks, i); } else { assert spans[..i] == spans; }
    }
  }

  // ------------------------------------------------------------------- the builder

  /** The local variables of the loop. */
  datatype Builder = Builder(hunks: seq<Hunk>, lines: seq<Line>, oldStart: int, newStart: int, oldCount: int, newCount: int,
                             inHunk: bool, oldIdx: int, newIdx: int, pendingEquals: int)

  ghost function Shown(st: Builder): Hunk { Hunk(st.oldStart, st.oldCount, st.newStart, st.newCount, st.lines) }

  /** Outside a hunk at least three equal lines, or all lines so far, are free for context. */
  ghost predicate Resting(ses: seq<Edit>, n: int, end: int) {
    AllEqual(ses, end, n) && (end == 0 || end + CONTEXT_SIZE <= n)
  }

  ghost predicate Open(ses: seq<Edit>, n: int, st: Builder, end: int, s: Span) {
    && Leads(ses, end, s) && HunkOf(ses, s.from, n, Shown(st))
    && st.pendingEquals == n - s.last - 1 && 0 <= st.pendingEquals <= 2 * CONTEXT_SIZE && AllEqual(ses, s.last + 1, n)
  }

  /** After n edits. */
  ghost predicate Built(ses: seq<Edit>, n: int, st: Builder, spans: seq<Span>, s: Span) {
    && 0 <= n <= |ses| && Shows(ses, spans, st.hunks)
    && st.oldIdx == |OldSide(ses[..n])| && st.newIdx == |NewSide(ses[..n])|
    && (if st.inHunk then Open(ses, n, st, EndOf(spans), s) else Resting(ses, n, EndOf(spans)))
  }

  /** The context before a change, copied from the old lines. */
  method OpenHunk(ses: seq<Edit>, n: int, st: Builder, oldLines: seq<string>, ghost end: int)
    returns (r: Builder, ghost from: int)
    requires 0 <= n < |ses| && Resting(ses, n, end) && OldSide(ses) == oldLines
    requires st.oldIdx == |OldSide(ses[..n])| && st.newIdx == |NewSide(ses[..n])|
    ensures HunkOf(ses, from, n, Shown(r)) && AllEqual(ses, end, from) && AllEqual(ses, from, n)
    ensures n - from == Smaller(CONTEXT_SIZE, n - end)
    ensures r.inHunk && r.hunks == st.hunks && r.oldIdx == st.oldIdx && r.newIdx == st.newIdx && r.pendingEquals == 0
  {
    hide OldSide, NewSide;
    var startOld := st.oldIdx - CONTEXT_SIZE;
    if startOld < 0 { startOld := 0; }
    ghost var c := st.oldIdx - startOld;
    from := n - c;
    var newStart := st.newIdx - (st.oldIdx - startOld) + 1;
    if newStart < 1 { newStart := 1; }
    ContextIsEqual(ses, n, st, end, c);
    var lines: seq<Line> := [];
    var i := startOld;
    while i < st.oldIdx
      invariant startOld <= i <= st.oldIdx && |lines| == i - startOld
      invariant forall j :: 0 <= j < |lines| ==> lines[j].op.OpEqual? && lines[j].content == ses[from + j].line
      invariant Numbered(ses, from, lines)
    {
      ContextLine(ses, n, from, i - startOld);
      assert AllEqual(ses, from, from + (i - startOld) + 1);
      lines := lines + [Line(oldLines[i], OpEqual, i + 1, i + 1)];
      i := i + 1;
    }
    assert Edits(lines) == ses[from..n];
    r := st.(lines := lines, oldStart := startOld + 1, newStart := newStart, oldCount := |lines|, newCount := |lines|,
             inHunk := true, pendingEquals := 0);
  }

  lemma ContextIsEqual(ses: seq<Edit>, n: int, st: Builder, end: int, c: int)
    requires 0 <= n <= |ses| && Resting(ses, n, end) && st.oldIdx == |OldSide(ses[..n])| && st.newIdx == |NewSide(ses[..n])|
    requires c == Smaller(CONTEXT_SIZE, st.oldIdx)
    ensures c == Smaller(CONTEXT_SIZE, n - end) && AllEqual(ses, end, n - c) && AllEqual(ses, n - c, n)
    ensures |OldSide(ses[..n - c])| == st.oldIdx - c && |NewSide(ses[..n - c])| == st.newIdx - c
    ensures |OldSide(ses[n - c..n])| == c == |NewSide(ses[n - c..n])|
  {
    EnoughContext(ses, n, end);
    EqualSides(ses, n - c, n);
    SidesSplit(ses, n - c, n);
  }

  lemma EnoughContext(ses: seq<Edit>, n: int, end: int)
    requires Resting(ses, n, end)
    ensures Smaller(CONTEXT_SIZE, |OldSide(ses[..n])|) == Smaller(CONTEXT_SIZE, n - end)
  {
    EqualSides(ses, end, n);
    SidesSplit(ses, end, n);
    assert ses[..0] == [];
  }

  lemma ContextLine(ses: seq<Edit>, n: int, from: int, j: int)
    requires 0 <= j < n - from && AllEqual(ses, from, n)
    ensures |OldSide(ses[..from])| + j < |OldSide(ses)| && OldSide(ses)[|OldSide(ses[..from])| + j] == ses[from + j].line
    ensures |OldSide(ses[..from + j])| == |OldSide(ses[..from])| + j
  {
    hide OldSide, NewSide;
    EqualSides(ses, from, from + j);
    SidesSplit(ses, from, from + j);
    EqualSides(ses, from, n);
    SidesSplit(ses, from, n);
    SidesWhole(ses, n);
    assert OldSide(ses[from..n])[from + j - from] == ses[from + j].line;
  }

  /** One more edit shown. */
  lemma GrowHunk(ses: seq<Edit>, from: int, n: int, h: Hunk, line: Line)
    requires HunkOf(ses, from, n, h) && n < |ses| && Edit(line.op, line.content) == ses[n]
    requires NumberedLine(ses, from, n, line)
    ensures HunkOf(ses, from, n + 1,
                   h.(lines := h.lines + [line],
                      oldCount := h.oldCount + (if line.op.OpInsert? then 0 else 1),
                      newCount := h.newCount + (if line.op.OpDelete? then 0 else 1)))
  {
    SidesStep(ses, from, n);
    assert |Edits(h.lines)| == n - from;
    assert Edits(h.lines + [line]) == ses[from..n + 1];
  }

  lemma TrimSides(ses: seq<Edit>, from: int, n: int, k: int)
    requires 0 <= k && 0 <= from <= n - k && AllEqual(ses, n - k, n)
    ensures |OldSide(ses[from..n - k])| == |OldSide(ses[from..n])| - k
    ensures |NewSide(ses[from..n - k])| == |NewSide(ses[from..n])| - k
  {
    EqualSides(ses, n - k, n);
    SidesJoin(ses[from..n - k], ses[n - k..n]);
    assert ses[from..n - k] + ses[n - k..n] == ses[from..n];
  }

  /** Trailing context given back. */
  lemma TrimHunk(ses: seq<Edit>, from: int, n: int, h: Hunk, k: int)
    requires HunkOf(ses, from, n, h) && 0 <= k && from <= n - k && AllEqual(ses, n - k, n)
    ensures |h.lines| == n - from
    ensures HunkOf(ses, from, n - k,
                   h.(lines := h.lines[..|h.lines| - k], oldCount := h.oldCount - k, newCount := h.newCount - k))
  {
    assert |Edits(h.lines)| == n - from;
    TrimSides(ses, from, n, k);
    assert Edits(h.lines[..|h.lines| - k]) == ses[from..n - k];
  }

  lemma Advance(ses: seq<Edit>, n: int)
    requires 0 <= n < |ses|
    ensures |OldSide(ses[..n + 1])| == |OldSide(ses[..n])| + (if ses[n].op.OpInsert? then 0 else 1)
    ensures |NewSide(ses[..n + 1])| == |NewSide(ses[..n])| + (if ses[n].op.OpDelete? then 0 else 1)
  {
    SidesStep(ses, 0, n);
    assert ses[0..n] == ses[..n] && ses[0..n + 1] == ses[..n + 1];
  }

  /** An equal line: shown while context is wanted; the seventh in a row ends the hunk. */
  method OnEqual(ses: seq<Edit>, n: int, st: Builder, ghost spans: seq<Span>, ghost s: Span)
    returns (r: Builder, ghost spans': seq<Span>)
    requires n < |ses| && Built(ses, n, st, spans, s) && ses[n].op.OpEqual?
    ensures Built(ses, n + 1, r, spans', s)
  {
    hide OldSide, NewSide, HunkOf, Shows;
    r, spans' := st, spans;
    Advance(ses, n);
    if r.inHunk {
      r := ShowEqual(ses, n, r, s.from, s.first);
      if r.pendingEquals > CONTEXT_SIZE * 2 {
        r, spans' := CloseHunk(ses, n + 1, r, spans, s);
      }
    }
    r := r.(oldIdx := r.oldIdx + 1, newIdx := r.newIdx + 1);
  }

  method ShowEqual(ses: seq<Edit>, n: int, st: Builder, ghost from: int, ghost first: int) returns (r: Builder)
    requires 0 <= n < |ses| && HunkOf(ses, from, n, Shown(st)) && ses[n].op.OpEqual?
    requires st.oldIdx == |OldSide(ses[..n])| && st.newIdx == |NewSide(ses[..n])|
    requires from <= first < n && !ses[first].op.OpEqual?
    ensures HunkOf(ses, from, n + 1, Shown(r)) && r.pendingEquals == st.pendingEquals + 1
    ensures r == st.(pendingEquals := r.pendingEquals, lines := r.lines, oldCount := r.oldCount, newCount := r.newCount)
  {
    var line := Line(ses[n].line, OpEqual, st.oldIdx + 1, st.newIdx + 1);
    GrowHunk(ses, from, n, Shown(st), line);
    r := st.(pendingEquals := st.pendingEquals + 1, lines := st.lines + [line],
             oldCount := st.oldCount + 1, newCount := st.newCount + 1);
  }

  method CloseHunk(ses: seq<Edit>, n: int, st: Builder, ghost spans: seq<Span>, ghost s: Span)
    returns (r: Builder, ghost spans': seq<Span>)
    requires Shows(ses, spans, st.hunks) && Leads(ses, EndOf(spans), s) && HunkOf(ses, s.from, n, Shown(st))
    requires n == s.last + 8 && AllEqual(ses, s.last + 1, n)
    ensures Shows(ses, spans', r.hunks) && !r.inHunk && Resting(ses, n, EndOf(spans'))
    ensures r.oldIdx == st.oldIdx && r.newIdx == st.newIdx
  {
    hide OldSide, NewSide;
    TrimHunk(ses, s.from, n, Shown(st), CONTEXT_SIZE);
    var hunk := Hunk(st.oldStart, st.oldCount - CONTEXT_SIZE, st.newStart, st.newCount - CONTEXT_SIZE,
                     st.lines[..|st.lines| - CONTEXT_SIZE]);
    ghost var done := s.(end := n - CONTEXT_SIZE);
    SameLead(ses, EndOf(spans), s, done);
    ShowsOne(ses, spans, st.hunks, done, hunk);
    spans' := spans + [done];
    r := st.(hunks := st.hunks + [hunk], lines := [], inHunk := false, pendingEquals := 0);
  }

  /** A change no more than six equal lines after the last one belongs to the same hunk. */
  lemma NextChange(ses: seq<Edit>, end: int, s: Span, n: int)
    requires Leads(ses, end, s) && s.last < n < |ses| && n <= s.last + 7 && AllEqual(ses, s.last + 1, n) && !ses[n].op.OpEqual?
    ensures Leads(ses, end, s.(last := n))
  {
    forall i | s.first <= i && i + 7 <= n ensures !SevenEqual(ses, i) {
      assert i + 7 <= s.last ==> !SevenEqual(ses, i);
    }
  }

  /** A deleted or inserted line, which opens a hunk if none is open. */
  method OnChange(ses: seq<Edit>, n: int, st: Builder, oldLines: seq<string>, ghost spans: seq<Span>, ghost s: Span)
    returns (r: Builder, ghost s': Span)
    requires n < |ses| && Built(ses, n, st, spans, s) && !ses[n].op.OpEqual? && OldSide(ses) == oldLines
    ensures Built(ses, n + 1, r, spans, s')
  {
    hide OldSide, NewSide;
    r, s' := st, s;
    if !r.inHunk {
      ghost var from;
      r, from := OpenHunk(ses, n, r, oldLines, EndOf(spans));
      s' := Span(from, n, n, n);
    } else {
      NextChange(ses, EndOf(spans), s, n);
      s' := s.(last := n);
      r := r.(pendingEquals := 0);
    }
    Advance(ses, n);
    if ses[n].op.OpDelete? {
      var line := Line(ses[n].line, OpDelete, r.oldIdx + 1, 0);
      GrowHunk(ses, s'.from, n, Shown(r), line);
      r := r.(lines := r.lines + [line], oldCount := r.oldCount + 1, oldIdx := r.oldIdx + 1);
    } else {
      var line := Line(ses[n].line, OpInsert, 0, r.newIdx + 1);
      GrowHunk(ses, s'.from, n, Shown(r), line);
      r := r.(lines := r.lines + [line], newCount := r.newCount + 1, newIdx := r.newIdx + 1);
    }
  }

  /** The last hunk keeps at most three lines of trailing context. */
  method Finish(ses: seq<Edit>, st: Builder, ghost spans: seq<Span>, ghost s: Span)
    returns (hunks: seq<Hunk>, ghost spans': seq<Span>)
    requires Shows(ses, spans, st.hunks) && Open(ses, |ses|, st, EndOf(spans), s)
    ensures Describes(ses, spans', hunks)
  {
    hide OldSide, NewSide;
    var lines, oldCount, newCount := st.lines, st.oldCount, st.newCount;
    ghost var done := s.(end := |ses|);
    if st.pendingEquals > CONTEXT_SIZE {
      var excess := st.pendingEquals - CONTEXT_SIZE;
      TrimHunk(ses, s.from, |ses|, Shown(st), excess);
      lines, oldCount, newCount := lines[..|lines| - excess], oldCount - excess, newCount - excess;
      done := s.(end := |ses| - excess);
    }
    var hunk := Hunk(st.oldStart, oldCount, st.newStart, newCount, lines);
    SameLead(ses, EndOf(spans), s, done);
    ShowsOne(ses, spans, st.hunks, done, hunk);
    return st.hunks + [hunk], spans + [done];
  }

  lemma SameLead(ses: seq<Edit>, end: int, s: Span, t: Span)
    requires Leads(ses, end, s) && t == s.(end := t.end)
    ensures Leads(ses, end, t)
  {
  }

  method BuildHunks(ses: seq<Edit>, oldLines: seq<string>) returns (hunks: seq<Hunk>, ghost spans: seq<Span>)
    requires OldSide(ses) == oldLines
    ensures Describes(ses, spans, hunks)
  {
    spans := [];
    if |ses| == 0 { return [], []; }
    var st := Builder([], [], 0, 0, 0, 0, false, 0, 0, 0);
    ghost var s := Span(0, 0, 0, 0);
    NothingBuilt(ses, st, s);
    hide Built, Describes, Shows, Open, OldSide, NewSide;
    for n := 0 to |ses|
      invariant Built(ses, n, st, spans, s)
    {
      if ses[n].op.OpEqual? {
        st, spans := OnEqual(ses, n, st, spans, s);
      } else {
        st, s := OnChange(ses, n, st, oldLines, spans, s);
      }
    }
    AllBuilt(ses, st, spans, s);
    if !st.inHunk { return st.hunks, spans; }
    hunks, spans := Finish(ses, st, spans, s);
  }

  lemma NothingBuilt(ses: seq<Edit>, st: Builder, s: Span)
    requires st == Builder([], [], 0, 0, 0, 0, false, 0, 0, 0)
    ensures Built(ses, 0, st, [], s)
  {
    assert ses[..0] == [];
  }

  lemma AllBuilt(ses: seq<Edit>, st: Builder, spans: seq<Span>, s: Span)
    requires Built(ses, |ses|, st, spans, s)
    ensures if st.inHunk then Shows(ses, spans, st.hunks) && Open(ses, |ses|, st, EndOf(spans), s) else Describes(ses, spans, st.hunks)
  {
  }

  // ---------------------------------------------------------------- the line numbers

  /** Every line of the hunk carries its place in the new text, if it is in it. */
  ghost predicate RightNewNumbers(ses: seq<Edit>, from: int, lines: seq<Line>)
    requires 0 <= from && from + |lines| <= |ses|
  {
    forall j {:trigger lines[j]} :: 0 <= j < |lines| && !lines[j].op.OpDelete? ==> lines[j].newLineNo == NewNo(ses, from + j)
  }

  /** Over equal lines both numbers go up alike. */
  lemma SameShift(ses: seq<Edit>, from: int, i: int)
    requires AllEqual(ses, from, i)
    ensures OldNo(ses, i) - OldNo(ses, from) == NewNo(ses, i) - NewNo(ses, from)
  {
    EqualSides(ses, from, i);
    SidesSplit(ses, from, i);
  }

  /** They do exactly when the hunk starts at one place in both texts or opens with a change. */
  lemma NumbersRightExactly(ses: seq<Edit>, from: int, end: int, h: Hunk)
    requires HunkOf(ses, from, end, h)
    ensures |h.lines| == end - from
    ensures RightNewNumbers(ses, from, h.lines) <==> h.oldStart == h.newStart || h.lines == [] || !h.lines[0].op.OpEqual?
  {
    hide OldNo, NewNo;
    assert |Edits(h.lines)| == end - from;
    if h.lines != [] {
      assert Edits(h.lines)[0] == ses[from];
      assert NumberedLine(ses, from, from, h.lines[0]);
    }
    if h.oldStart == h.newStart || h.lines == [] || !h.lines[0].op.OpEqual? {
      forall j | 0 <= j < |h.lines| && !h.lines[j].op.OpDelete? ensures h.lines[j].newLineNo == NewNo(ses, from + j) {
        if AllEqual(ses, from, from + j + 1) { SameShift(ses, from, from + j); }
        assert NumberedLine(ses, from, from + j, h.lines[j]);
      }
    }
  }

  /** An insertion, eight unchanged lines and a deletion. */
  const SHIFTED: seq<Edit> := [
    Edit(OpInsert, "x"), Edit(OpEqual, "a"), Edit(OpEqual, "b"), Edit(OpEqual, "c"), Edit(OpEqual, "d"),
    Edit(OpEqual, "e"), Edit(OpEqual, "f"), Edit(OpEqual, "g"), Edit(OpEqual, "h"), Edit(OpDelete, "z")]

  /** The context before the deletion is numbered 6 in the new text, where it is line 7. */
  lemma WrongContextNumber(spans: seq<Span>, hunks: seq<Hunk>)
    requires Describes(SHIFTED, spans, hunks)
    ensures |hunks| == 2 && |hunks[1].lines| == 4
    ensures hunks[1].lines[0].content == "f" && hunks[1].lines[0].newLineNo == 6 && NewNo(SHIFTED, 6) == 7
  {
    hide OldSide, NewSide;
    assert hunks != [] by { assert !SHIFTED[0].op.OpEqual?; }
    FirstSpan(spans, hunks);
    assert spans[..1][0] == spans[0] && EndOf(spans[..1]) == 5;
    assert !SHIFTED[9].op.OpEqual?;
    SecondSpan(spans, hunks);
    var h := hunks[1];
    assert |hunks| == 2 by { if |hunks| > 2 { NoThirdSpan(spans, hunks); } }
    assert |Edits(h.lines)| == 4 && Edits(h.lines)[0] == SHIFTED[6];
    assert NumberedLine(SHIFTED, 6, 6, h.lines[0]) && AllEqual(SHIFTED, 6, 7);
    CountShifted();
  }

  lemma FirstSpan(spans: seq<Span>, hunks: seq<Hunk>)
    requires Describes(SHIFTED, spans, hunks) && hunks != []
    ensures spans[0].end == 5
  {
    assert Follows(SHIFTED, spans, hunks, 0) && spans[..0] == [];
    var s := spans[0];
    assert s.first == 0;
    assert SevenEqual(SHIFTED, 1);
    assert s.last == 0;
  }

  lemma SecondSpan(spans: seq<Span>, hunks: seq<Hunk>)
    requires Describes(SHIFTED, spans, hunks) && |hunks| > 1 && EndOf(spans[..1]) == 5
    ensures spans[1].from == 6 && spans[1].end == 10 && HunkOf(SHIFTED, 6, 10, hunks[1])
  {
    assert Follows(SHIFTED, spans, hunks, 1);
    assert spans[1].first == 9;
  }

  lemma NoThirdSpan(spans: seq<Span>, hunks: seq<Hunk>)
    requires Describes(SHIFTED, spans, hunks) && |hunks| > 2
    ensures spans[1].end != 10
  {
    assert Follows(SHIFTED, spans, hunks, 2) && spans[..2][1] == spans[1];
  }

  lemma CountShifted()
    ensures OldNo(SHIFTED, 6) == 6 && NewNo(SHIFTED, 6) == 7
  {
    assert SHIFTED[..0] == [];
    Advance(SHIFTED, 0);
    Advance(SHIFTED, 1);
    Advance(SHIFTED, 2);
    Advance(SHIFTED, 3);
    Advance(SHIFTED, 4);
    Advance(SHIFTED, 5);
  }
}
