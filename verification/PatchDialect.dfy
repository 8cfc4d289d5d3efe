/** Patches as other tools write them: lines before the hunks, hunk headers with a heading after
    them, ranges of one line without a count.  The parser of internal/diffpatch reads them all as
    the plain form, and refuses a hunk with a line that has no mark. */
module PatchDialect {
  import opened Myers
  import opened Hunks
  import opened Text
  import opened Apply
  import opened Decimal
  import opened UnifiedFormat
  import opened Options

  /** How a hunk header is written. */
  datatype Style = Style(shortOld: bool, shortNew: bool, heading: string)

  function Side(sign: char, start: int, count: int, short: bool): string {
    if short then [sign] + Print(start) else RangeText(sign, start, count)
  }

  function Head(h: Hunk, d: Style): string {
    "@@ " + (Side('-', h.oldStart, h.oldCount, d.shortOld) + [' '] + Side('+', h.newStart, h.newCount, d.shortNew)) + " @@" + d.heading
  }

  /** Only a count of one may be left out. */
  predicate Suits(h: Hunk, d: Style) { (d.shortOld ==> h.oldCount == 1) && (d.shortNew ==> h.newCount == 1) }

  lemma {:induction false} IndexInside(body: string, rest: string)
    requires body != [] && '@' !in body
    ensures Index(body + " @@" + rest, " @@") == |body|
    decreases |body|
  {
    var s := body + " @@" + rest;
    assert s[1] == if |body| == 1 then ' ' else body[1];
    assert !(" @@" <= s) by { assert " @@"[1] == '@'; }
    assert s[1..] == body[1..] + " @@" + rest;
    if |body| > 1 {
      IndexInside(body[1..], rest);
    } else {
      assert body[1..] + " @@" + rest == " @@" + rest;
    }
  }

  lemma SideReads(sign: char, start: int, count: int, short: bool)
    requires (sign == '-' || sign == '+') && IsInt(start) && IsInt(count) && (short ==> count == 1)
    ensures ParseRange(Side(sign, start, count, short)) == Some((start, count)) && Side(sign, start, count, short) != []
  {
    if short { ParsesShortRange(sign, start); } else { ParsesRange(sign, start, count); }
  }

  lemma SideHas(sign: char, start: int, count: int, short: bool, c: char)
    requires !IsDigit(c) && c != '-' && c != sign && c != ','
    ensures c !in Side(sign, start, count, short)
  {
    if short { PrintHas(start, c); } else { RangeHas(sign, start, count, c); }
  }

  /** Every such header reads as the hunk it opens, whatever stands after it. */
  lemma {:induction false} ReadsHead(h: Hunk, d: Style)
    requires GoInts(h) && Suits(h, d)
    ensures "@@ " <= Head(h, d) && ParseHunkHeader(Head(h, d)) == Some(h.(lines := []))
  {
    hide ParseRange, Side, Index, CharIndex, Print;
    var a, b := Side('-', h.oldStart, h.oldCount, d.shortOld), Side('+', h.newStart, h.newCount, d.shortNew);
    var body := a + [' '] + b;
    var line := Head(h, d);
    assert line == "@@ " + (body + " @@" + d.heading);
    assert line[3..] == body + " @@" + d.heading;
    SideHas('-', h.oldStart, h.oldCount, d.shortOld, '@');
    SideHas('+', h.newStart, h.newCount, d.shortNew, '@');
    SideHas('-', h.oldStart, h.oldCount, d.shortOld, ' ');
    IndexInside(body, d.heading);
    assert (body + " @@" + d.heading)[..|body|] == body;
    SplitsAt(a, ' ', b);
    SideReads('-', h.oldStart, h.oldCount, d.shortOld);
    SideReads('+', h.newStart, h.newCount, d.shortNew);
  }

  // ------------------------------------------------------------------------ whole patches

  /** Lines that are neither a file header nor a hunk header. */
  predicate Remarks(lines: seq<string>) { forall i :: 0 <= i < |lines| ==> IsContent(lines[i]) }

  lemma {:induction false} RemarksIgnored(st: State, lines: seq<string>)
    requires st.current == None && Remarks(lines)
    ensures Run(Some(st), lines) == Some(st)
    decreases |lines|
  {
    if lines != [] { RemarksIgnored(st, lines[..|lines| - 1]); }
  }

  function Body(hs: seq<Hunk>, ds: seq<Style>): seq<string>
    requires |ds| == |hs|
  {
    if hs == [] then []
    else Body(hs[..|hs| - 1], ds[..|hs| - 1]) + ([Head(hs[|hs| - 1], ds[|hs| - 1])] + LineTexts(hs[|hs| - 1].lines))
  }

  predicate AllSuit(hs: seq<Hunk>, ds: seq<Style>) { |ds| == |hs| && forall i :: 0 <= i < |hs| ==> Suits(hs[i], ds[i]) }

  lemma HeadOpens(header: Header, hs: seq<Hunk>, h: Hunk, d: Style)
    requires GoInts(h) && Suits(h, d) && AllGood(hs)
    ensures Run(Some(ReadHunks(header, hs)), [Head(h, d)]) == Some(State(header, EraseHunks(hs), Some(h.(lines := []))))
  {
    hide Step, ParseHunkHeader, Head, EraseHunks, AllGood, AllConsistent, Finalize, ReadHunks, Run;
    GoodInit(hs);
    FinalizeRead(header, hs);
    ReadsHead(h, d);
    StepAt(ReadHunks(header, hs), Head(h, d), EraseHunks(hs), h.(lines := []));
    RunOne(ReadHunks(header, hs), Head(h, d));
  }

  lemma HunkReads(header: Header, hs: seq<Hunk>, h: Hunk, d: Style)
    requires GoodHunk(h) && Suits(h, d) && AllGood(hs)
    ensures Run(Some(ReadHunks(header, hs)), [Head(h, d)] + LineTexts(h.lines)) == Some(ReadHunks(header, hs + [h]))
  {
    hide Run, Head, LineTexts;
    HeadOpens(header, hs, h, d);
    RunJoin(Some(ReadHunks(header, hs)), [Head(h, d)], LineTexts(h.lines));
    RunLines(State(header, EraseHunks(hs), Some(h.(lines := []))), h, h.lines);
    assert (hs + [h])[..|hs|] == hs;
  }

  lemma {:induction false} BodyReads(header: Header, hs: seq<Hunk>, ds: seq<Style>)
    requires AllGood(hs) && AllSuit(hs, ds)
    ensures Run(Some(State(header, [], None)), Body(hs, ds)) == Some(ReadHunks(header, hs))
    decreases |hs|
  {
    hide Run, ReadHunks, AllGood, GoodHunk, Head;
    if hs == [] {
      RunNothing(header);
    } else {
      var init, h, d := hs[..|hs| - 1], hs[|hs| - 1], ds[|hs| - 1];
      GoodInit(hs);
      BodyReads(header, init, ds[..|init|]);
      RunJoin(Some(State(header, [], None)), Body(init, ds[..|init|]), [Head(h, d)] + LineTexts(h.lines));
      HunkReads(header, init, h, d);
      assert init + [h] == hs;
    }
  }

  /** The lines of a patch with remarks before and between its headers. */
  function Dialect(p: Patch, ds: seq<Style>, before: seq<string>, between: seq<string>): seq<string>
    requires |ds| == |p.hunks|
  {
    before + (["--- " + p.header.oldFile, "+++ " + p.header.newFile] + (between + Body(p.hunks, ds)))
  }

  /** However its headers are written and whatever is said before its hunks, the patch is read. */
  lemma DialectReads(p: Patch, ds: seq<Style>, before: seq<string>, between: seq<string>)
    requires AllGood(p.hunks) && AllSuit(p.hunks, ds) && Remarks(before) && Remarks(between)
    requires p.header != Header("", "") || p.hunks != []
    ensures Parse(Dialect(p, ds, before, between)) == Some(Erase(p))
  {
    hide Run, Body, ReadHunks, AllGood;
    var names := ["--- " + p.header.oldFile, "+++ " + p.header.newFile];
    var named := State(p.header, [], None);
    RunJoin(Some(START), before, names + (between + Body(p.hunks, ds)));
    RemarksIgnored(START, before);
    RunJoin(Some(START), names, between + Body(p.hunks, ds));
    RunHeader(p.header);
    RunJoin(Some(named), between, Body(p.hunks, ds));
    RemarksIgnored(named, between);
    BodyReads(p.header, p.hunks, ds);
    GoodInit(p.hunks);
    FinalizeRead(p.header, p.hunks);
  }

  // --------------------------------------------------------------------------- refusals

  predicate Unmarked(line: string) { IsContent(line) && OpOf(line).None? }

  lemma {:induction false} RunNone(lines: seq<string>)
    ensures Run(None, lines) == None
    decreases |lines|
  {
    if lines != [] { RunNone(lines[..|lines| - 1]); }
  }

  /** Once a hunk is open there is always one. */
  lemma {:induction false} HunkStaysOpen(st: State, lines: seq<string>)
    requires Run(Some(st), lines).Some? && (st.current.Some? || exists i :: 0 <= i < |lines| && "@@ " <= lines[i])
    ensures Run(Some(st), lines).value.current.Some?
    decreases |lines|
  {
    if lines != [] {
      var init, last := lines[..|lines| - 1], lines[|lines| - 1];
      if "@@ " <= last {
        assert last[0] == '@';
      } else {
        if i :| 0 <= i < |lines| && "@@ " <= lines[i] { assert init[i] == lines[i]; }
        HunkStaysOpen(st, init);
      }
    }
  }

  /** A line without a mark after a hunk header spoils the whole patch. */
  lemma UnmarkedRefused(before: seq<string>, line: string, after: seq<string>)
    requires Unmarked(line) && exists i :: 0 <= i < |before| && "@@ " <= before[i]
    ensures Parse(before + [line] + after) == None
  {
    RunJoin(Some(START), before + [line], after);
    RunJoin(Some(START), before, [line]);
    if Run(Some(START), before).Some? {
      HunkStaysOpen(START, before);
      RunOne(Run(Some(START), before).value, line);
    } else {
      RunNone([line]);
    }
    RunNone(after);
  }
}
