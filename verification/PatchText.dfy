/** GeneratePatch and ApplyPatch of internal/diffpatch: a difference that is printed, parsed and
    applied, all the way through its text. */
module PatchText {
  import opened Myers
  import opened Hunks
  import opened Text
  import opened Apply
  import opened Decimal
  import opened Options
  import opened UnifiedFormat

  method GeneratePatch(oldFile: string, newFile: string, oldText: string, newText: string)
    returns (r: Option<string>, ghost hunks: seq<Hunk>, ghost spans: seq<Span>)
    ensures r.None? <==> oldText == "" && newText == ""
    ensures r.Some? ==>
      && r.value == Unlines(PatchLines(Patch(Header(oldFile, newFile), hunks)))
      && Describes(Script(Split(oldText), Split(newText)), spans, hunks)
      && Transforms(Script(Split(oldText), Split(newText)), Split(oldText), Split(newText))
  {
    hide Script;
    var diff, ses, parts := Diff(oldText, newText);
    hunks, spans := [], parts;
    if diff.EmptyInput? { return None, hunks, spans; }
    hunks := diff.hunks;
    var text := PatchToUnified(Patch(Header(oldFile, newFile), diff.hunks));
    r := Some(text);
  }

  /** An unreadable patch is refused; any other is applied as ApplyPatchDirect applies it. */
  method ApplyPatch(originalText: string, patchText: string) returns (r: Option<ApplyResult>)
    ensures r.None? <==> Parse(Split(patchText)).None?
    ensures r.Some? ==>
      var lines, hunks := Split(originalText), Parse(Split(patchText)).value.hunks;
      && Countable(lines, hunks) && r.value.conflicts == Conflicts(lines, hunks) && (r.value.rejected <==> r.value.conflicts != [])
      && (Tidy(lines, hunks) ==> r.value.text == Rendered(Patched(lines, hunks) + lines[Passed(lines, hunks)..], originalText, hunks))
  {
    hide Parse, Split;
    var patch := ParsePatch(patchText);
    if patch.None? { return None; }
    ParsedCounts(patchText, Split(originalText));
    var result := ApplyPatchDirect(originalText, patch.value);
    r := Some(result);
  }

  /** What parses has no negative counts. */
  lemma ParsedCounts(patchText: string, lines: seq<string>)
    requires Parse(Split(patchText)).Some?
    ensures Countable(lines, Parse(Split(patchText)).value.hunks)
  {
    hide Parse, Split;
    ParsedIsClean(patchText);
    var hunks := Parse(Split(patchText)).value.hunks;
    forall i | 0 <= i < |hunks| ensures hunks[i].oldCount >= 0 { assert Consistent(hunks[i]); }
  }

  // ------------------------------------------------------------ what gets through

  /** No deleted line starts with "-- " and no inserted line with "++ ". */
  predicate PlainScript(ses: seq<Edit>) { forall i :: 0 <= i < |ses| ==> PlainEdit(ses[i]) }

  predicate PlainEdit(e: Edit) { !(e.op.OpDelete? && "-- " <= e.line) && !(e.op.OpInsert? && "++ " <= e.line) }

  /** Every line of a script is a line of one of its sides. */
  lemma {:induction false} ScriptLines(ses: seq<Edit>)
    requires AreLines(OldSide(ses)) && AreLines(NewSide(ses))
    ensures forall i :: 0 <= i < |ses| ==> OneLine(ses[i].line)
    decreases |ses|
  {
    if ses != [] {
      var e, rest := ses[0], ses[1..];
      var olds, news := (if e.op.OpInsert? then [] else [e.line]), (if e.op.OpDelete? then [] else [e.line]);
      SuffixLines(olds, OldSide(rest));
      SuffixLines(news, NewSide(rest));
      assert OneLine(if e.op.OpInsert? then news[0] else olds[0]);
      ScriptLines(rest);
      assert forall i :: 1 <= i < |ses| ==> ses[i] == rest[i - 1];
    }
  }

  lemma SuffixLines(a: seq<string>, b: seq<string>)
    requires AreLines(a + b)
    ensures AreLines(a) && AreLines(b)
  {
    forall i | 0 <= i < |a| ensures OneLine(a[i]) { assert (a + b)[i] == a[i]; }
    forall i | 0 <= i < |b| ensures OneLine(b[i]) { assert (a + b)[|a| + i] == b[i]; }
  }

  /** A hunk of a script of single lines prints well unless a changed line looks like a header. */
  lemma PartPrints(ses: seq<Edit>, from: int, end: int, h: Hunk)
    requires PartOf(ses, from, end, h) && (forall i :: 0 <= i < |ses| ==> OneLine(ses[i].line)) && PlainScript(ses)
    requires |OldSide(ses)| < MAX_INT && |NewSide(ses)| < MAX_INT
    ensures OneLineHunk(h) && Consistent(h) && PlainLines(h.lines) && GoInts(h)
  {
    hide OldSide, NewSide;
    assert |Edits(h.lines)| == end - from;
    forall j | 0 <= j < |h.lines| ensures OneLine(h.lines[j].content) && !LooksLikeHeader(h.lines[j]) {
      assert Edits(h.lines)[j] == ses[from + j];
      assert PlainEdit(ses[from + j]);
    }
    SidesSplit(ses, from, end);
    SidesWhole(ses, end);
  }

  lemma ErasedInOrder(ses: seq<Edit>, spans: seq<Span>, hunks: seq<Hunk>)
    requires InOrder(ses, spans, hunks)
    ensures InOrder(ses, spans, EraseHunks(hunks))
  {
    var erased := EraseHunks(hunks);
    forall i | 0 <= i < |erased| ensures ShownAt(ses, spans, erased, i) {
      assert ShownAt(ses, spans, hunks, i);
      assert Edits(EraseLines(hunks[i].lines)) == Edits(hunks[i].lines);
    }
  }

  lemma DiffPrints(header: Header, ses: seq<Edit>, spans: seq<Span>, hunks: seq<Hunk>)
    requires Describes(ses, spans, hunks) && AreLines(OldSide(ses)) && AreLines(NewSide(ses)) && PlainScript(ses)
    requires |OldSide(ses)| < MAX_INT && |NewSide(ses)| < MAX_INT
    requires CleanHeader(header) && (header != Header("", "") || hunks != [])
    ensures Printable(Patch(header, hunks)) && AllGoInts(hunks)
  {
    hide OldSide, NewSide;
    ScriptLines(ses);
    forall i | 0 <= i < |hunks| ensures OneLineHunk(hunks[i]) && Consistent(hunks[i]) && PlainLines(hunks[i].lines) && GoInts(hunks[i]) {
      assert Follows(ses, spans, hunks, i);
      PartPrints(ses, spans[i].from, spans[i].end, hunks[i]);
    }
  }

  /** The names fit on a line, there is something to print, and no changed line looks like a
      file header. */
  predicate Transmits(oldFile: string, newFile: string, oldText: string, newText: string) {
    && OneLine(oldFile) && OneLine(newFile) && PlainScript(Script(Split(oldText), Split(newText)))
    && (oldFile != "" || newFile != "" || Split(oldText) != Split(newText))
    && |Split(oldText)| < MAX_INT && |Split(newText)| < MAX_INT
  }

  /** A difference that went through its text applies without conflict, and gives the new text
      under the same condition on final newlines as one that did not. */
  method GenerateThenApply(oldFile: string, newFile: string, oldText: string, newText: string) returns (r: Option<ApplyResult>)
    requires oldText != "" || newText != ""
    ensures Transmits(oldFile, newFile, oldText, newText) ==>
      && r.Some? && !r.value.rejected
      && (r.value.text == newText <==> newText == "" || EndsLine(newText) == (oldText == "" || EndsLine(oldText)))
  {
    hide Script, Split, Parse, Patched, Tidy, PlainScript;
    var patch, hunks, spans := GeneratePatch(oldFile, newFile, oldText, newText);
    r := ApplyPatch(oldText, patch.value);
    if Transmits(oldFile, newFile, oldText, newText) {
      ghost var ses := Script(Split(oldText), Split(newText));
      Transmitted(Header(oldFile, newFile), oldText, newText, ses, spans, hunks);
      SameText(oldText, newText, EraseHunks(hunks), r.value.text);
    }
  }

  lemma Transmitted(header: Header, oldText: string, newText: string, ses: seq<Edit>, spans: seq<Span>, hunks: seq<Hunk>)
    requires Describes(ses, spans, hunks) && Transforms(ses, Split(oldText), Split(newText)) && PlainScript(ses)
    requires CleanHeader(header) && (header != Header("", "") || Split(oldText) != Split(newText))
    requires |Split(oldText)| < MAX_INT && |Split(newText)| < MAX_INT
    ensures Parse(Split(Unlines(PatchLines(Patch(header, hunks))))) == Some(Erase(Patch(header, hunks)))
    ensures var lines, erased := Split(oldText), EraseHunks(hunks);
      && Countable(lines, erased) && Conflicts(lines, erased) == [] && Tidy(lines, erased)
      && Patched(lines, erased) + lines[Passed(lines, erased)..] == Split(newText)
    ensures oldText == "" && newText != "" ==> EraseHunks(hunks) != []
  {
    hide Split, Parse, Patched, Passed, Tidy, Unlines, PatchLines, OldSide, NewSide;
    SplitIsOneLine(oldText);
    SplitIsOneLine(newText);
    SomeHunk(ses, spans, hunks);
    DiffPrints(header, ses, spans, hunks);
    ReadsBack(Patch(header, hunks));
    DescribesInOrder(ses, spans, hunks);
    ErasedInOrder(ses, spans, hunks);
    ErasedCounts(Split(oldText), ses, spans, hunks);
    InOrderRebuilds(Split(oldText), ses, spans, EraseHunks(hunks));
    JoinSplit(oldText);
    JoinSplit(newText);
  }

  lemma ErasedCounts(lines: seq<string>, ses: seq<Edit>, spans: seq<Span>, hunks: seq<Hunk>)
    requires InOrder(ses, spans, hunks)
    ensures Countable(lines, EraseHunks(hunks))
  {
    forall i | 0 <= i < |hunks| ensures hunks[i].oldCount >= 0 { assert ShownAt(ses, spans, hunks, i); }
  }
}
