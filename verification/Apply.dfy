/** ApplyPatchDirect of internal/diffpatch, and the promise that the hunks of Diff rebuild the
    new text from the old one. */
module Apply {
  import opened Myers
  import opened Hunks
  import opened Text

  datatype Header = Header(oldFile: string, newFile: string)

  datatype Patch = Patch(header: Header, hunks: seq<Hunk>)

  datatype Conflict = Conflict(startLine: int, endLine: int, ours: seq<string>, theirs: seq<string>, base: seq<string>)

  datatype ApplyResult = ApplyResult(text: string, rejected: bool, conflicts: seq<Conflict>)

  // ----------------------------------------------------------------- context check

  /** The lines a hunk expects to find. */
  function Expected(h: Hunk): seq<string> { OldSide(Edits(h.lines)) }

  /** They are in the text at the given place; a hunk that expects nothing fits anywhere. */
  predicate FitsAt(lines: seq<string>, start: nat, expected: seq<string>) {
    expected == [] || (start + |expected| <= |lines| && lines[start..start + |expected|] == expected)
  }

  function Place(h: Hunk): nat { if h.oldStart - 1 < 0 then 0 else h.oldStart - 1 }

  predicate FitsHunk(lines: seq<string>, h: Hunk) { FitsAt(lines, Place(h), Expected(h)) }

  lemma ExpectedStep(lines: seq<Line>, i: int)
    requires 0 <= i < |lines|
    ensures OldSide(Edits(lines[..i + 1])) == OldSide(Edits(lines[..i])) + (if lines[i].op.OpInsert? then [] else [lines[i].content])
  {
    assert Edits(lines[..i + 1]) == Edits(lines[..i]) + [Edit(lines[i].op, lines[i].content)];
    SidesAppend(Edits(lines[..i]), Edit(lines[i].op, lines[i].content));
  }

  lemma ExpectedPrefix(lines: seq<Line>, i: int)
    requires 0 <= i <= |lines|
    ensures OldSide(Edits(lines[..i])) <= OldSide(Edits(lines))
  {
    SidesWhole(Edits(lines), i);
    assert Edits(lines)[..i] == Edits(lines[..i]);
  }

  method VerifyContext(originalLines: seq<string>, startIdx: nat, contextLines: seq<Line>) returns (ok: bool)
    ensures ok <==> FitsAt(originalLines, startIdx, OldSide(Edits(contextLines)))
  {
    var origPos: nat := startIdx;
    for i := 0 to |contextLines|
      invariant origPos == startIdx + |OldSide(Edits(contextLines[..i]))|
      invariant FitsAt(originalLines, startIdx, OldSide(Edits(contextLines[..i])))
    {
      ExpectedStep(contextLines, i);
      var line := contextLines[i];
      match line.op
      case OpInsert =>
      case _ =>
        if origPos >= |originalLines| || originalLines[origPos] != line.content {
          Misfit(originalLines, startIdx, contextLines, i);
          return false;
        }
        FitsNext(originalLines, startIdx, OldSide(Edits(contextLines[..i])), line.content);
        origPos := origPos + 1;
    }
    assert contextLines[..|contextLines|] == contextLines;
    return true;
  }

  lemma FitsNext(lines: seq<string>, start: nat, expected: seq<string>, line: string)
    requires FitsAt(lines, start, expected) && start + |expected| < |lines| && lines[start + |expected|] == line
    ensures FitsAt(lines, start, expected + [line])
  {
    var n := |expected|;
    assert lines[start..start + n] == expected;
    assert lines[start..start + n + 1] == lines[start..start + n] + [line];
  }

  lemma Misfit(originalLines: seq<string>, start: nat, lines: seq<Line>, i: int)
    requires 0 <= i < |lines| && !lines[i].op.OpInsert?
    requires var p := start + |OldSide(Edits(lines[..i]))|; p >= |originalLines| || originalLines[p] != lines[i].content
    ensures !FitsAt(originalLines, start, OldSide(Edits(lines)))
  {
    ExpectedStep(lines, i);
    ExpectedPrefix(lines, i + 1);
    var e, k := OldSide(Edits(lines)), |OldSide(Edits(lines[..i]))|;
    assert k < |e| && e[k] == lines[i].content;
    assert start + |e| <= |originalLines| ==> originalLines[start..start + |e|][k] == originalLines[start + k];
  }

  // ---------------------------------------------------------------------- conflicts

  function InsertedLines(lines: seq<Line>): seq<string> {
    if lines == [] then []
    else InsertedLines(lines[..|lines| - 1]) + (if lines[|lines| - 1].op.OpInsert? then [lines[|lines| - 1].content] else [])
  }

  /** extractNewLines. */
  method ExtractNewLines(h: Hunk) returns (r: seq<string>)
    ensures r == InsertedLines(h.lines)
  {
    r := [];
    for i := 0 to |h.lines|
      invariant r == InsertedLines(h.lines[..i])
    {
      assert h.lines[..i + 1][..i] == h.lines[..i];
      if h.lines[i].op.OpInsert? { r := r + [h.lines[i].content]; }
    }
    assert h.lines[..|h.lines|] == h.lines;
  }

  /** extractBaseLines: what is there of the lines the hunk was meant for. */
  function BaseLines(lines: seq<string>, start: nat, count: int): (r: seq<string>)
    requires count >= 0 || start >= |lines|
    ensures (count >= 0 ==> |r| <= count) && forall i :: 0 <= i < |r| ==> start + i < |lines| && r[i] == lines[start + i]
    ensures |r| < count ==> start + |r| >= |lines|
  {
    if start >= |lines| then [] else lines[start..if start + count > |lines| then |lines| else start + count]
  }

  function ConflictOf(lines: seq<string>, h: Hunk): Conflict
    requires h.oldCount >= 0 || Place(h) >= |lines|
  {
    var base := BaseLines(lines, Place(h), h.oldCount);
    Conflict(h.oldStart, h.oldStart + h.oldCount - 1, base, InsertedLines(h.lines), base)
  }

  /** The one thing the code cannot cope with is a negative count on a hunk that does not fit
      at its place in the text. */
  predicate CanCount(lines: seq<string>, h: Hunk) { h.oldCount >= 0 || FitsHunk(lines, h) || Place(h) >= |lines| }

  predicate Countable(lines: seq<string>, hunks: seq<Hunk>) { forall i :: 0 <= i < |hunks| ==> CanCount(lines, hunks[i]) }

  /** One conflict for every hunk that does not fit, in order. */
  function Conflicts(lines: seq<string>, hunks: seq<Hunk>): seq<Conflict>
    requires Countable(lines, hunks)
  {
    if hunks == [] then []
    else
      var h := hunks[|hunks| - 1];
      Conflicts(lines, hunks[..|hunks| - 1]) + (if FitsHunk(lines, h) then [] else [ConflictOf(lines, h)])
  }

  /** Nothing is rejected exactly when every hunk fits. */
  lemma {:induction false} NoConflicts(lines: seq<string>, hunks: seq<Hunk>)
    requires Countable(lines, hunks)
    ensures Conflicts(lines, hunks) == [] <==> forall i :: 0 <= i < |hunks| ==> FitsHunk(lines, hunks[i])
    decreases |hunks|
  {
    if hunks != [] {
      var init := hunks[..|hunks| - 1];
      NoConflicts(lines, init);
      assert forall i :: 0 <= i < |init| ==> init[i] == hunks[i];
    }
  }

  /** A conflict reports its hunk: the lines it was meant for by number, what stands there
      now, as far as the text goes, and what it would have put in. */
  predicate Reports(c: Conflict, lines: seq<string>, h: Hunk) {
    && c.startLine == h.oldStart && c.endLine - c.startLine + 1 == h.oldCount
    && c.ours == c.base && c.theirs == InsertedLines(h.lines)
    && (forall i :: 0 <= i < |c.base| ==> Place(h) + i < |lines| && c.base[i] == lines[Place(h) + i])
    && (h.oldCount >= 0 ==> |c.base| <= h.oldCount) && (|c.base| < h.oldCount ==> Place(h) + |c.base| >= |lines|)
  }

  /** Every hunk that does not fit is reported, after those of the hunks before it. */
  lemma {:induction false} EachReported(lines: seq<string>, hunks: seq<Hunk>, i: int)
    requires 0 <= i < |hunks| && Countable(lines, hunks) && !FitsHunk(lines, hunks[i])
    ensures var k := |Conflicts(lines, hunks[..i])|;
      k < |Conflicts(lines, hunks)| && Reports(Conflicts(lines, hunks)[k], lines, hunks[i])
    decreases |hunks|
  {
    var init := hunks[..|hunks| - 1];
    if i < |init| {
      assert init[..i] == hunks[..i];
      EachReported(lines, init, i);
    }
  }

  lemma {:induction false} OnlyInserted(lines: seq<Line>)
    ensures OldSide(Edits(lines)) == [] <==> forall i :: 0 <= i < |lines| ==> lines[i].op.OpInsert?
    decreases |lines|
  {
    if lines != [] {
      var n := |lines| - 1;
      OnlyInserted(lines[..n]);
      ExpectedStep(lines, n);
      assert lines[..n + 1] == lines;
      assert forall i :: 0 <= i < n ==> lines[..n][i] == lines[i];
    }
  }

  /** The hunks no text can reject are those that only insert, wherever they say they belong. */
  lemma InsertOnlyFits(h: Hunk)
    ensures (forall lines :: FitsHunk(lines, h)) <==> forall i :: 0 <= i < |h.lines| ==> h.lines[i].op.OpInsert?
  {
    OnlyInserted(h.lines);
    assert FitsHunk([], h) <==> Expected(h) == [];
  }

  // ----------------------------------------------------------------------- applying

  /** The hunks show parts of the script in order, with only equal lines in between. */
  ghost predicate InOrder(ses: seq<Edit>, spans: seq<Span>, hunks: seq<Hunk>) {
    && |spans| == |hunks| && AllEqual(ses, EndOf(spans), |ses|)
    && (forall i {:trigger ShownAt(ses, spans, hunks, i)} :: 0 <= i < |hunks| ==> ShownAt(ses, spans, hunks, i))
  }

  ghost predicate ShownAt(ses: seq<Edit>, spans: seq<Span>, hunks: seq<Hunk>, i: int)
    requires 0 <= i < |hunks| == |spans|
  {
    && PartOf(ses, spans[i].from, spans[i].end, hunks[i])
    && AllEqual(ses, EndOf(spans[..i]), spans[i].from)
  }

  lemma DescribesInOrder(ses: seq<Edit>, spans: seq<Span>, hunks: seq<Hunk>)
    requires Describes(ses, spans, hunks)
    ensures InOrder(ses, spans, hunks) && forall lines :: Countable(lines, hunks)
  {
    forall i | 0 <= i < |hunks| ensures ShownAt(ses, spans, hunks, i) && hunks[i].oldCount >= 0 {
      assert Follows(ses, spans, hunks, i);
    }
  }

  function Cap(i: nat, n: nat): nat { if i < n then i else n }

  /** Copies the lines before the hunk. */
  method CopyUpTo(lines: seq<string>, origIdx0: nat, target: int, result0: seq<string>) returns (origIdx: nat, result: seq<string>)
    ensures origIdx == if origIdx0 < target then target else origIdx0
    ensures result == result0 + lines[Cap(origIdx0, |lines|)..Cap(origIdx, |lines|)]
  {
    origIdx, result := origIdx0, result0;
    while origIdx < target
      invariant origIdx0 <= origIdx && (origIdx0 < target ==> origIdx <= target) && (origIdx0 >= target ==> origIdx == origIdx0)
      invariant result == result0 + lines[Cap(origIdx0, |lines|)..Cap(origIdx, |lines|)]
    {
      if origIdx < |lines| {
        assert lines[origIdx0..origIdx + 1] == lines[origIdx0..origIdx] + [lines[origIdx]];
        result := result + [lines[origIdx]];
      }
      origIdx := origIdx + 1;
    }
  }

  /** The lines of a hunk that fits. */
  method ApplyLines(lines: seq<string>, h: Hunk, origIdx0: nat, result0: seq<string>) returns (origIdx: nat, result: seq<string>)
    ensures FitsAt(lines, origIdx0, Expected(h)) ==>
              origIdx == origIdx0 + |Expected(h)| && result == result0 + NewSide(Edits(h.lines))
  {
    origIdx, result := origIdx0, result0;
    ghost var fits := FitsAt(lines, origIdx0, Expected(h));
    for i := 0 to |h.lines|
      invariant fits ==> origIdx == origIdx0 + |OldSide(Edits(h.lines[..i]))|
      invariant fits ==> result == result0 + NewSide(Edits(h.lines[..i]))
    {
      ghost var done := Edits(h.lines[..i]);
      if fits { FitLine(lines, h, origIdx0, i); }
      var line := h.lines[i];
      match line.op
      case OpEqual =>
        if origIdx < |lines| {
          result := result + [lines[origIdx]];
          origIdx := origIdx + 1;
        }
      case OpDelete => origIdx := origIdx + 1;
      case OpInsert => result := result + [line.content];
    }
    assert h.lines[..|h.lines|] == h.lines;
  }

  /** Where the hunk fits, its old lines are the text's. */
  lemma FitLine(lines: seq<string>, h: Hunk, start: nat, i: int)
    requires FitsAt(lines, start, Expected(h)) && 0 <= i < |h.lines|
    ensures var done, next, p := Edits(h.lines[..i]), Edits(h.lines[..i + 1]), start + |OldSide(Edits(h.lines[..i]))|;
      && |OldSide(next)| == |OldSide(done)| + (if h.lines[i].op.OpInsert? then 0 else 1)
      && NewSide(next) == NewSide(done) + (if h.lines[i].op.OpDelete? then [] else [h.lines[i].content])
      && (!h.lines[i].op.OpInsert? ==> p < |lines| && lines[p] == h.lines[i].content)
  {
    var done := Edits(h.lines[..i]);
    assert Edits(h.lines[..i + 1]) == done + [Edit(h.lines[i].op, h.lines[i].content)];
    SidesAppend(done, Edit(h.lines[i].op, h.lines[i].content));
    ExpectedPrefix(h.lines, i + 1);
    if !h.lines[i].op.OpInsert? {
      var e, k := Expected(h), |OldSide(done)|;
      assert e[k] == h.lines[i].content;
      assert lines[start..start + |e|][k] == lines[start + k];
    }
  }

  /** Equal lines are copied from the old text. */
  lemma CopyEqual(lines: seq<string>, ses: seq<Edit>, i: int, j: int)
    requires OldSide(ses) == lines && AllEqual(ses, i, j)
    ensures var p, q := |OldSide(ses[..i])|, |OldSide(ses[..j])|;
      p <= q <= |lines| && NewSide(ses[..j]) == NewSide(ses[..i]) + lines[p..q]
  {
    EqualSides(ses, i, j);
    SidesSplit(ses, i, j);
    SidesWhole(ses, j);
  }

  /** A hunk of the script fits where it says. */
  lemma HunkFits(lines: seq<string>, ses: seq<Edit>, from: int, end: int, h: Hunk)
    requires OldSide(ses) == lines && PartOf(ses, from, end, h)
    ensures Place(h) == |OldSide(ses[..from])| && FitsAt(lines, Place(h), Expected(h))
    ensures |OldSide(ses[..end])| == Place(h) + |Expected(h)| && NewSide(ses[..end]) == NewSide(ses[..from]) + NewSide(Edits(h.lines))
  {
    SidesSplit(ses, from, end);
    SidesWhole(ses, end);
  }

  /** A hunk that does not fit leaves its lines as they are. */
  method KeepLines(lines: seq<string>, count: int, origIdx0: nat, result0: seq<string>) returns (origIdx: nat, result: seq<string>)
    requires count >= 0 || origIdx0 >= |lines|
    ensures var kept := BaseLines(lines, origIdx0, count); origIdx == origIdx0 + |kept| && result == result0 + kept
  {
    origIdx, result := origIdx0, result0;
    var i := 0;
    while i < count && origIdx < |lines|
      invariant 0 <= i && (i == 0 || i <= count) && origIdx == origIdx0 + i && (i > 0 ==> origIdx <= |lines|)
      invariant result == result0 + BaseLines(lines, origIdx0, i)
    {
      assert BaseLines(lines, origIdx0, i + 1) == BaseLines(lines, origIdx0, i) + [lines[origIdx]];
      result := result + [lines[origIdx]];
      origIdx := origIdx + 1;
      i := i + 1;
    }
    assert BaseLines(lines, origIdx0, i) == BaseLines(lines, origIdx0, count);
  }

  method ApplyHunk(lines: seq<string>, hunk: Hunk, origIdx0: nat, result0: seq<string>)
    returns (origIdx: nat, result: seq<string>, conflicts: seq<Conflict>)
    requires CanCount(lines, hunk)
    ensures conflicts == if FitsHunk(lines, hunk) then [] else [ConflictOf(lines, hunk)]
    ensures FitsHunk(lines, hunk) && origIdx0 <= Place(hunk) <= |lines| ==>
              origIdx == Place(hunk) + |Expected(hunk)| && result == result0 + lines[origIdx0..Place(hunk)] + NewSide(Edits(hunk.lines))
    ensures !FitsHunk(lines, hunk) && origIdx0 <= Place(hunk) <= |lines| ==>
              var kept := BaseLines(lines, Place(hunk), hunk.oldCount);
              origIdx == Place(hunk) + |kept| && result == result0 + lines[origIdx0..Place(hunk)] + kept
  {
    origIdx, result := CopyUpTo(lines, origIdx0, hunk.oldStart - 1, result0);
    var expectedStart := hunk.oldStart - 1;
    if expectedStart < 0 { expectedStart := 0; }
    var ok := VerifyContext(lines, expectedStart, hunk.lines);
    if !ok {
      var theirs := ExtractNewLines(hunk);
      var base := BaseLines(lines, expectedStart, hunk.oldCount);
      conflicts := [Conflict(hunk.oldStart, hunk.oldStart + hunk.oldCount - 1, base, theirs, base)];
      origIdx, result := KeepLines(lines, hunk.oldCount, origIdx, result);
      return;
    }
    origIdx, result := ApplyLines(lines, hunk, origIdx, result);
    conflicts := [];
  }

  // ---------------------------------------------------- hunks that need not all fit

  /** The old lines a hunk takes up, and what stands in their place afterwards. */
  function Taken(lines: seq<string>, h: Hunk): nat
    requires CanCount(lines, h)
  {
    if FitsHunk(lines, h) then |Expected(h)| else |BaseLines(lines, Place(h), h.oldCount)|
  }

  function Given(lines: seq<string>, h: Hunk): seq<string>
    requires CanCount(lines, h)
  {
    if FitsHunk(lines, h) then NewSide(Edits(h.lines)) else BaseLines(lines, Place(h), h.oldCount)
  }

  /** Where the last of the hunks ends in the old lines. */
  function Passed(lines: seq<string>, hunks: seq<Hunk>): nat
    requires Countable(lines, hunks)
  {
    if hunks == [] then 0 else Place(hunks[|hunks| - 1]) + Taken(lines, hunks[|hunks| - 1])
  }

  /** The hunks follow each other and start within the text. */
  predicate Tidy(lines: seq<string>, hunks: seq<Hunk>)
    requires Countable(lines, hunks)
    ensures Tidy(lines, hunks) ==> Passed(lines, hunks) <= |lines|
  {
    hunks == [] ||
    (var init, h := hunks[..|hunks| - 1], hunks[|hunks| - 1];
     Tidy(lines, init) && Passed(lines, init) <= Place(h) <= |lines|)
  }

  /** The old lines up to the last hunk, with every hunk that fits applied and no other. */
  function Patched(lines: seq<string>, hunks: seq<Hunk>): seq<string>
    requires Countable(lines, hunks) && Tidy(lines, hunks)
  {
    if hunks == [] then []
    else
      var init, h := hunks[..|hunks| - 1], hunks[|hunks| - 1];
      Patched(lines, init) + lines[Passed(lines, init)..Place(h)] + Given(lines, h)
  }

  /** A hunk that does not fit gives back what it took. */
  lemma KeptAsIs(lines: seq<string>, h: Hunk)
    requires CanCount(lines, h) && !FitsHunk(lines, h) && Place(h) <= |lines|
    ensures Place(h) + Taken(lines, h) <= |lines| && Given(lines, h) == lines[Place(h)..Place(h) + Taken(lines, h)]
  {
  }

  /** Hunks that are all rejected leave the text as it is. */
  lemma {:induction false} RejectedKeep(lines: seq<string>, hunks: seq<Hunk>)
    requires Countable(lines, hunks) && Tidy(lines, hunks) && forall i :: 0 <= i < |hunks| ==> !FitsHunk(lines, hunks[i])
    ensures Patched(lines, hunks) + lines[Passed(lines, hunks)..] == lines
    decreases |hunks|
  {
    hide Taken, Given, FitsHunk, CanCount, Place;
    if hunks != [] {
      var init, h := hunks[..|hunks| - 1], hunks[|hunks| - 1];
      RejectedKeep(lines, init);
      KeptAsIs(lines, h);
      KeepsText(lines, Patched(lines, init), Passed(lines, init), Place(h), Passed(lines, hunks));
    }
  }

  lemma KeepsText(lines: seq<string>, before: seq<string>, p: nat, q: nat, r: nat)
    requires p <= q <= r <= |lines| && before + lines[p..] == lines
    ensures before + lines[p..q] + lines[q..r] + lines[r..] == lines
  {
    assert lines[p..] == lines[p..q] + lines[q..r] + lines[r..];
  }

  /** After the given hunks of a tidy list. */
  ghost predicate Along(lines: seq<string>, hunks: seq<Hunk>, origIdx: int, result: seq<string>) {
    && Countable(lines, hunks) && Tidy(lines, hunks)
    && origIdx == Passed(lines, hunks) && result == Patched(lines, hunks)
  }

  lemma AlongNothing(lines: seq<string>, hunks: seq<Hunk>)
    ensures hunks[..0] == [] && Along(lines, [], 0, [])
  {
  }

  lemma AlongStep(lines: seq<string>, hunks: seq<Hunk>, i: int, origIdx: int, result: seq<string>)
    requires Countable(lines, hunks) && 0 <= i < |hunks| && Tidy(lines, hunks) && Along(lines, hunks[..i], origIdx, result)
    ensures 0 <= origIdx <= Place(hunks[i]) <= |lines|
    ensures Along(lines, hunks[..i + 1], Place(hunks[i]) + Taken(lines, hunks[i]),
                  result + lines[origIdx..Place(hunks[i])] + Given(lines, hunks[i]))
  {
    hide Taken, Given, CanCount, Place;
    TidyPrefix(lines, hunks, i + 1);
    assert hunks[..i + 1][..i] == hunks[..i];
  }

  lemma {:induction false} TidyPrefix(lines: seq<string>, hunks: seq<Hunk>, i: int)
    requires Countable(lines, hunks) && 0 <= i <= |hunks| && Tidy(lines, hunks)
    ensures Tidy(lines, hunks[..i])
    decreases |hunks|
  {
    hide Passed, CanCount, Place;
    if i < |hunks| {
      TidyPrefix(lines, hunks[..|hunks| - 1], i);
      assert hunks[..|hunks| - 1][..i] == hunks[..i];
    } else {
      assert hunks[..i] == hunks;
    }
  }

  method ApplyHunks(lines: seq<string>, hunks: seq<Hunk>) returns (result: seq<string>, conflicts: seq<Conflict>)
    requires Countable(lines, hunks)
    ensures conflicts == Conflicts(lines, hunks)
    ensures Tidy(lines, hunks) ==> result == Patched(lines, hunks) + lines[Passed(lines, hunks)..]
  {
    var origIdx: nat := 0;
    result, conflicts := [], [];
    ghost var tidy := Tidy(lines, hunks);
    AlongNothing(lines, hunks);
    hide Tidy, Passed, Patched, CanCount;
    for i := 0 to |hunks|
      invariant conflicts == Conflicts(lines, hunks[..i])
      invariant tidy ==> Along(lines, hunks[..i], origIdx, result)
    {
      hide Along;
      if tidy { AlongStep(lines, hunks, i, origIdx, result); }
      assert hunks[..i + 1][..i] == hunks[..i];
      var more;
      origIdx, result, more := ApplyHunk(lines, hunks[i], origIdx, result);
      conflicts := conflicts + more;
    }
    assert hunks[..|hunks|] == hunks;
    origIdx, result := CopyUpTo(lines, origIdx, |lines|, result);
  }

  /** Hunks that show an edit script of the text all fit, and rebuild its new side. */
  lemma InOrderRebuilds(lines: seq<string>, ses: seq<Edit>, spans: seq<Span>, hunks: seq<Hunk>)
    requires OldSide(ses) == lines && InOrder(ses, spans, hunks) && Countable(lines, hunks)
    ensures Conflicts(lines, hunks) == [] && Tidy(lines, hunks)
    ensures Patched(lines, hunks) + lines[Passed(lines, hunks)..] == NewSide(ses)
  {
    hide OldSide, NewSide, Patched, Tidy, Passed;
    InOrderAlong(lines, ses, spans, hunks, |hunks|);
    assert hunks[..|hunks|] == hunks && spans[..|spans|] == spans && ses[..|ses|] == ses;
    CopyEqual(lines, ses, EndOf(spans), |ses|);
  }

  lemma {:induction false} InOrderAlong(lines: seq<string>, ses: seq<Edit>, spans: seq<Span>, hunks: seq<Hunk>, i: int)
    requires OldSide(ses) == lines && InOrder(ses, spans, hunks) && Countable(lines, hunks) && 0 <= i <= |hunks|
    ensures var end := EndOf(spans[..i]);
      && 0 <= end <= |ses| && Conflicts(lines, hunks[..i]) == []
      && Along(lines, hunks[..i], |OldSide(ses[..end])|, NewSide(ses[..end]))
    decreases i
  {
    hide OldSide, NewSide, InOrder, FitsHunk, Place, Expected;
    if i == 0 {
      assert hunks[..0] == [] && spans[..0] == [] && ses[..0] == [];
      NoEdits();
    } else {
      InOrderAlong(lines, ses, spans, hunks, i - 1);
      StepFits(lines, hunks, ses, spans, i - 1);
      assert hunks[..i][..i - 1] == hunks[..i - 1] && hunks[..i][i - 1] == hunks[i - 1];
    }
  }

  lemma NoEdits()
    ensures OldSide([]) == [] && NewSide([]) == []
  {
  }

  lemma StepFits(lines: seq<string>, hunks: seq<Hunk>, ses: seq<Edit>, spans: seq<Span>, i: int)
    requires OldSide(ses) == lines && InOrder(ses, spans, hunks) && 0 <= i < |hunks|
    ensures var end, next := EndOf(spans[..i]), EndOf(spans[..i + 1]);
      && 0 <= end <= next <= |ses| && FitsHunk(lines, hunks[i]) && |OldSide(ses[..end])| <= Place(hunks[i]) <= |lines|
      && |OldSide(ses[..next])| == Place(hunks[i]) + |Expected(hunks[i])|
      && NewSide(ses[..next]) == NewSide(ses[..end]) + lines[|OldSide(ses[..end])|..Place(hunks[i])] + NewSide(Edits(hunks[i].lines))
  {
    assert ShownAt(ses, spans, hunks, i);
    assert spans[..i + 1][i] == spans[i];
    CopyEqual(lines, ses, EndOf(spans[..i]), spans[i].from);
    HunkFits(lines, ses, spans[i].from, spans[i].end, hunks[i]);
  }

  // ---------------------------------------------------------------------- whole texts

  /** Lines as a text, with a final newline if the old text has one. */
  ghost function Rendered(lines: seq<string>, originalText: string, hunks: seq<Hunk>): string {
    Join(lines) + (if KeepsNewline(originalText, hunks) && lines != [] then "\n" else "")
  }

  method ApplyPatchDirect(originalText: string, patch: Patch) returns (r: ApplyResult)
    requires Countable(Split(originalText), patch.hunks)
    ensures r.conflicts == Conflicts(Split(originalText), patch.hunks) && (r.rejected <==> r.conflicts != [])
    ensures var lines := Split(originalText);
      Tidy(lines, patch.hunks) ==>
        r.text == Rendered(Patched(lines, patch.hunks) + lines[Passed(lines, patch.hunks)..], originalText, patch.hunks)
  {
    var originalLines := SplitText(originalText);
    var trailingNewline := |originalText| > 0 && originalText[|originalText| - 1] == '\n';
    if |originalText| == 0 && |patch.hunks| > 0 { trailingNewline := true; }
    var result, conflicts := ApplyHunks(originalLines, patch.hunks);
    var text := Join(result);
    if trailingNewline && |result| > 0 { text := text + "\n"; }
    r := ApplyResult(text, |conflicts| > 0, conflicts);
  }

  /** Whether the result is given a final newline: the old text decides. */
  predicate KeepsNewline(text: string, hunks: seq<Hunk>) { EndsLine(text) || (text == "" && hunks != []) }

  datatype DiffOutcome = Hunked(hunks: seq<Hunk>) | EmptyInput

  method Diff(oldText: string, newText: string) returns (r: DiffOutcome, ghost ses: seq<Edit>, ghost spans: seq<Span>)
    ensures r.EmptyInput? <==> oldText == "" && newText == ""
    ensures r.Hunked? ==> ses == Script(Split(oldText), Split(newText)) && Describes(ses, spans, r.hunks)
    ensures r.Hunked? ==> Transforms(ses, Split(oldText), Split(newText))
    ensures r.Hunked? ==> forall s :: Transforms(s, Split(oldText), Split(newText)) ==> Cost(ses) <= Cost(s)
  {
    ses, spans := [], [];
    if oldText == "" && newText == "" { return EmptyInput, ses, spans; }
    var oldLines := SplitText(oldText);
    var newLines := SplitText(newText);
    hide Script;
    var script := MyersDiff(oldLines, newLines);
    ses := script;
    var hunks;
    hunks, spans := BuildHunks(script, oldLines);
    r := Hunked(hunks);
  }

  /** Applying the difference of two texts to the first is never rejected.  It gives the second
      one exactly when the result is empty or the two agree on the final newline, where an empty
      old text counts as ending in one. */
  method DiffThenApply(oldText: string, newText: string) returns (r: ApplyResult)
    requires oldText != "" || newText != ""
    ensures !r.rejected && r.conflicts == []
    ensures r.text == newText <==> newText == "" || EndsLine(newText) == (oldText == "" || EndsLine(oldText))
    ensures r.text == Join(Split(newText)) + (if newText != "" && (oldText == "" || EndsLine(oldText)) then "\n" else "")
  {
    var diff, ses, spans := Diff(oldText, newText);
    DescribesInOrder(ses, spans, diff.hunks);
    InOrderRebuilds(Split(oldText), ses, spans, diff.hunks);
    r := ApplyPatchDirect(oldText, Patch(Header("old", "new"), diff.hunks));
    SomeHunk(ses, spans, diff.hunks);
    SameText(oldText, newText, diff.hunks, r.text);
  }

  /** A script that changes anything has a hunk. */
  lemma SomeHunk(ses: seq<Edit>, spans: seq<Span>, hunks: seq<Hunk>)
    requires Describes(ses, spans, hunks)
    ensures OldSide(ses) != NewSide(ses) ==> hunks != []
  {
    if hunks == [] {
      EqualSides(ses, 0, |ses|);
      assert ses[0..|ses|] == ses;
    }
  }

  lemma SameText(oldText: string, newText: string, hunks: seq<Hunk>, text: string)
    requires oldText == "" && newText != "" ==> hunks != []
    requires text == Join(Split(newText)) + (if KeepsNewline(oldText, hunks) && Split(newText) != [] then "\n" else "")
    ensures text == newText <==> newText == "" || EndsLine(newText) == (oldText == "" || EndsLine(oldText))
    ensures text == Join(Split(newText)) + (if newText != "" && (oldText == "" || EndsLine(oldText)) then "\n" else "")
  {
    JoinSplit(newText);
  }
}
