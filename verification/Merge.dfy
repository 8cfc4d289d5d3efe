/** Three-way merge of internal/diffpatch: changes read off the hunks of two differences, and
    both spliced into the base when overlapping ones agree. */
module Merge {
  import opened Myers
  import opened Hunks
  import opened Text
  import opened Apply

  /** Old lines start .. end give way to newLines. */
  datatype Change = Change(oldStart: int, oldEnd: int, newLines: seq<string>)

  /** Ascending changes within n lines that do not overlap. */
  ghost predicate Ordered(cs: seq<Change>, n: int) {
    && (forall i {:trigger cs[i]} :: 0 <= i < |cs| ==> 0 <= cs[i].oldStart <= cs[i].oldEnd <= n)
    && (forall i, j {:trigger cs[i], cs[j]} :: 0 <= i < j < |cs| ==> cs[i].oldStart < cs[j].oldStart && cs[i].oldEnd <= cs[j].oldStart)
  }

  /** The base with the changes made, up to old line upto. */
  ghost function Spliced(base: seq<string>, cs: seq<Change>, upto: int): seq<string>
    requires Ordered(cs, upto) && 0 <= upto <= |base|
    decreases |cs|
  {
    if cs == [] then base[..upto]
    else
      var c := cs[|cs| - 1];
      Spliced(base, cs[..|cs| - 1], c.oldStart) + c.newLines + base[c.oldEnd..upto]
  }

  /** Further unchanged lines. */
  lemma SplicedMore(base: seq<string>, cs: seq<Change>, i: int, j: int)
    requires Ordered(cs, i) && 0 <= i <= j <= |base|
    ensures Ordered(cs, j) && Spliced(base, cs, j) == Spliced(base, cs, i) + base[i..j]
  {
    if cs == [] {
      assert base[..j] == base[..i] + base[i..j];
    } else {
      var c := cs[|cs| - 1];
      assert base[c.oldEnd..j] == base[c.oldEnd..i] + base[i..j];
      var a := Spliced(base, cs[..|cs| - 1], c.oldStart);
      assert a + c.newLines + (base[c.oldEnd..i] + base[i..j]) == (a + c.newLines + base[c.oldEnd..i]) + base[i..j];
    }
  }

  /** One more change. */
  lemma SplicedChange(base: seq<string>, cs: seq<Change>, c: Change)
    requires Ordered(cs, c.oldStart) && 0 <= c.oldStart <= c.oldEnd <= |base|
    requires cs != [] ==> cs[|cs| - 1].oldStart < c.oldStart
    ensures Ordered(cs + [c], c.oldEnd)
    ensures Spliced(base, cs + [c], c.oldEnd) == Spliced(base, cs, c.oldStart) + c.newLines
  {
    OrderedChange(cs, c);
    var all := cs + [c];
    assert all[..|all| - 1] == cs && all[|all| - 1] == c;
    assert base[c.oldEnd..c.oldEnd] == [];
  }

  lemma OrderedChange(cs: seq<Change>, c: Change)
    requires Ordered(cs, c.oldStart) && 0 <= c.oldStart <= c.oldEnd
    requires cs != [] ==> cs[|cs| - 1].oldStart < c.oldStart
    ensures Ordered(cs + [c], c.oldEnd)
  {
    var all := cs + [c];
    forall i, j | 0 <= i < j < |all| ensures all[i].oldStart < all[j].oldStart && all[i].oldEnd <= all[j].oldStart {
      if j == |cs| && i < |cs| - 1 { assert cs[i].oldStart < cs[|cs| - 1].oldStart; }
    }
  }

  // --------------------------------------------------------- changes of a difference

  /** The local variables of diffToChanges. */
  datatype Reader = Reader(changes: seq<Change>, changeStart: int, deleted: nat, inserted: seq<string>)

  function Flush(r: Reader): Reader {
    if r.deleted > 0 || |r.inserted| > 0 then
      Reader(r.changes + [Change(r.changeStart, r.changeStart + r.deleted, r.inserted)], r.changeStart + r.deleted, 0, [])
    else r
  }

  function ReadLine(r: Reader, line: Line): Reader {
    match line.op
    case OpDelete => r.(deleted := r.deleted + 1)
    case OpInsert => r.(inserted := r.inserted + [line.content])
    case OpEqual => Flush(r).(changeStart := line.oldLineNo)
  }

  /** The whole script read as one hunk, up to edit n. */
  ghost function Folded(ses: seq<Edit>, n: int): Reader
    requires 0 <= n <= |ses|
    decreases n
  {
    if n == 0 then Reader([], 0, 0, [])
    else ReadLine(Folded(ses, n - 1), Line(ses[n - 1].line, ses[n - 1].op, OldNo(ses, n - 1), 0))
  }

  /** The changes of a script: one for every run of deletions and insertions. */
  ghost function ChangesOf(ses: seq<Edit>): seq<Change> { Flush(Folded(ses, |ses|)).changes }

  lemma FoldStep(ses: seq<Edit>, n: int, r: Reader, line: Line)
    requires 0 <= n < |ses| && r == Folded(ses, n) && Edit(line.op, line.content) == ses[n]
    requires line.op.OpEqual? ==> line.oldLineNo == OldNo(ses, n)
    ensures ReadLine(r, line) == Folded(ses, n + 1)
  {
    hide OldNo;
  }

  lemma {:induction false} FoldGap(ses: seq<Edit>, i: int, j: int, r: Reader)
    requires AllEqual(ses, i, j) && r == Folded(ses, i) && Idle(r) && r.changeStart == |OldSide(ses[..i])|
    ensures r.(changeStart := |OldSide(ses[..j])|) == Folded(ses, j)
    decreases j - i
  {
    hide OldSide;
    if i < j {
      FoldGap(ses, i, j - 1, r);
      Advance(ses, j - 1);
    }
  }

  lemma {:induction false} FoldTail(ses: seq<Edit>, i: int, j: int)
    requires AllEqual(ses, i, j)
    ensures Flush(Folded(ses, j)).changes == Flush(Folded(ses, i)).changes
    decreases j - i
  {
    hide OldNo;
    if i < j { FoldTail(ses, i, j - 1); }
  }

  /** Lines taken away and put in. */
  ghost function Weight(cs: seq<Change>): int {
    if cs == [] then 0
    else var c := cs[|cs| - 1]; Weight(cs[..|cs| - 1]) + (c.oldEnd - c.oldStart) + |c.newLines|
  }

  /** No change is empty, and an unchanged line lies between any two of them. */
  ghost predicate Runs(cs: seq<Change>) {
    && (forall i :: 0 <= i < |cs| ==> cs[i].oldStart < cs[i].oldEnd || cs[i].newLines != [])
    && (forall i :: 0 <= i < |cs| - 1 ==> cs[i].oldEnd < cs[i + 1].oldStart)
  }

  lemma FlushRuns(r: Reader)
    requires Runs(r.changes) && (r.changes != [] ==> r.changes[|r.changes| - 1].oldEnd < r.changeStart)
    ensures Runs(Flush(r).changes) && Weight(Flush(r).changes) == Weight(r.changes) + r.deleted + |r.inserted|
    ensures Flush(r).changes != [] ==> Flush(r).changes[|Flush(r).changes| - 1].oldEnd <= r.changeStart + r.deleted
  {
    var all := Flush(r).changes;
    if r.deleted > 0 || |r.inserted| > 0 { assert all[..|all| - 1] == r.changes; }
  }

  lemma {:induction false} CostOfLast(ses: seq<Edit>, e: Edit)
    ensures Cost(ses + [e]) == Cost(ses) + if e.op.OpEqual? then 0 else 1
    decreases |ses|
  {
    if ses == [] {
      assert ses + [e] == [e];
    } else {
      CostOfLast(ses[1..], e);
      assert (ses + [e])[1..] == ses[1..] + [e];
    }
  }

  /** What a reader has gathered at old line p, at the given cost. */
  ghost predicate At(r: Reader, p: int, cost: int) {
    && r.changeStart + r.deleted == p && Weight(r.changes) + r.deleted + |r.inserted| == cost
    && Runs(r.changes) && (r.changes != [] ==> r.changes[|r.changes| - 1].oldEnd < r.changeStart)
  }

  lemma LineRuns(r: Reader, p: int, cost: int, line: Line)
    requires At(r, p, cost) && (line.op.OpEqual? ==> line.oldLineNo == p + 1)
    ensures At(ReadLine(r, line), p + (if line.op.OpInsert? then 0 else 1), cost + if line.op.OpEqual? then 0 else 1)
  {
    hide Weight, Runs;
    FlushRuns(r);
  }

  lemma NothingFolded(ses: seq<Edit>)
    ensures At(Folded(ses, 0), |OldSide(ses[..0])|, Cost(ses[..0]))
  {
    assert ses[..0] == [];
  }

  lemma {:induction false} FoldedRuns(ses: seq<Edit>, n: int)
    requires 0 <= n <= |ses|
    ensures At(Folded(ses, n), |OldSide(ses[..n])|, Cost(ses[..n]))
    decreases n
  {
    hide Cost, OldSide, At, ReadLine;
    if n == 0 {
      NothingFolded(ses);
    } else {
      FoldedRuns(ses, n - 1);
      Advance(ses, n - 1);
      assert ses[..n] == ses[..n - 1] + [ses[n - 1]];
      CostOfLast(ses[..n - 1], ses[n - 1]);
      LineRuns(Folded(ses, n - 1), |OldSide(ses[..n - 1])|, Cost(ses[..n - 1]),
               Line(ses[n - 1].line, ses[n - 1].op, OldNo(ses, n - 1), 0));
    }
  }

  /** The changes are the runs of the script: together they take away and put in exactly what
      the script does, and unchanged lines keep them apart. */
  lemma ChangesAreRuns(ses: seq<Edit>)
    ensures Runs(ChangesOf(ses)) && Weight(ChangesOf(ses)) == Cost(ses)
  {
    FoldedRuns(ses, |ses|);
    FlushRuns(Folded(ses, |ses|));
    assert ses[..|ses|] == ses;
  }

  /** What has been read up to edit n of the script: the changes so far, and the one at hand. */
  ghost predicate ReadTo(base: seq<string>, ses: seq<Edit>, n: int, r: Reader) {
    && 0 <= n <= |ses| && OldSide(ses) == base
    && 0 <= r.changeStart && r.changeStart + r.deleted == |OldSide(ses[..n])| <= |base|
    && Ordered(r.changes, r.changeStart)
    && (r.changes != [] ==> r.changes[|r.changes| - 1].oldStart < r.changeStart)
    && Spliced(base, r.changes, r.changeStart) + r.inserted == NewSide(ses[..n])
  }

  predicate Idle(r: Reader) { r.deleted == 0 && r.inserted == [] }

  /** The changes make the new lines of the first n edits. */
  ghost predicate Complete(base: seq<string>, ses: seq<Edit>, n: int, cs: seq<Change>) {
    && 0 <= n <= |ses| && OldSide(ses) == base && |OldSide(ses[..n])| <= |base|
    && Ordered(cs, |OldSide(ses[..n])|) && Spliced(base, cs, |OldSide(ses[..n])|) == NewSide(ses[..n])
  }

  lemma FlushCompletes(base: seq<string>, ses: seq<Edit>, n: int, r: Reader)
    requires ReadTo(base, ses, n, r)
    ensures Complete(base, ses, n, Flush(r).changes) && Flush(r).changeStart == |OldSide(ses[..n])|
  {
    hide OldSide, NewSide, Spliced, Ordered;
    if Idle(r) {
      assert Spliced(base, r.changes, r.changeStart) + [] == Spliced(base, r.changes, r.changeStart);
    } else {
      SplicedChange(base, r.changes, Change(r.changeStart, r.changeStart + r.deleted, r.inserted));
    }
  }

  /** Equal lines are the base's own. */
  lemma EqualInBase(base: seq<string>, ses: seq<Edit>, i: int, j: int)
    requires OldSide(ses) == base && AllEqual(ses, i, j)
    ensures var p, q := |OldSide(ses[..i])|, |OldSide(ses[..j])|;
      p + (j - i) == q <= |base| && NewSide(ses[..j]) == NewSide(ses[..i]) + base[p..q]
  {
    EqualSides(ses, i, j);
    CopyEqual(base, ses, i, j);
    SidesSplit(ses, i, j);
  }

  /** Equal lines that follow. */
  lemma CompleteMore(base: seq<string>, ses: seq<Edit>, i: int, j: int, cs: seq<Change>)
    requires Complete(base, ses, i, cs) && AllEqual(ses, i, j)
    ensures Complete(base, ses, j, cs)
  {
    hide OldSide, NewSide, Spliced;
    EqualInBase(base, ses, i, j);
    SplicedMore(base, cs, |OldSide(ses[..i])|, |OldSide(ses[..j])|);
  }

  lemma ReadEqual(base: seq<string>, ses: seq<Edit>, n: int, r: Reader, line: Line)
    requires ReadTo(base, ses, n, r) && n < |ses| && ses[n].op.OpEqual?
    requires line.op.OpEqual? && line.oldLineNo == |OldSide(ses[..n])| + 1
    ensures ReadTo(base, ses, n + 1, ReadLine(r, line)) && Idle(ReadLine(r, line))
  {
    hide OldSide, NewSide, Spliced;
    FlushCompletes(base, ses, n, r);
    CompleteMore(base, ses, n, n + 1, Flush(r).changes);
    EqualInBase(base, ses, n, n + 1);
    var cs := Flush(r).changes;
    assert cs != [] ==> cs[|cs| - 1].oldStart <= |OldSide(ses[..n])|;
  }

  lemma ReadChanged(base: seq<string>, ses: seq<Edit>, n: int, r: Reader, line: Line)
    requires ReadTo(base, ses, n, r) && n < |ses| && !ses[n].op.OpEqual? && Edit(line.op, line.content) == ses[n]
    ensures ReadTo(base, ses, n + 1, ReadLine(r, line))
  {
    SidesStep(ses, 0, n);
    assert ses[0..n] == ses[..n] && ses[0..n + 1] == ses[..n + 1];
    SidesWhole(ses, n + 1);
    var a := Spliced(base, r.changes, r.changeStart);
    assert (a + r.inserted) + [line.content] == a + (r.inserted + [line.content]);
  }

  /** From the end of one hunk, or the beginning, to the start of the next. */
  lemma ReadGap(base: seq<string>, ses: seq<Edit>, i: int, j: int, r: Reader)
    requires ReadTo(base, ses, i, r) && Idle(r) && AllEqual(ses, i, j)
    ensures ReadTo(base, ses, j, r.(changeStart := |OldSide(ses[..j])|))
  {
    hide OldSide, NewSide, Spliced;
    EqualInBase(base, ses, i, j);
    SplicedMore(base, r.changes, |OldSide(ses[..i])|, |OldSide(ses[..j])|);
  }

  method ReadHunk(h: Hunk, r0: Reader, ghost base: seq<string>, ghost ses: seq<Edit>, ghost from: int, ghost end: int)
    returns (r: Reader)
    requires HunkOf(ses, from, end, h) && ReadTo(base, ses, from, r0) && Idle(r0) && r0 == Folded(ses, from)
    ensures ReadTo(base, ses, end, r) && (from < end && ses[end - 1].op.OpEqual? ==> Idle(r)) && r == Folded(ses, end)
  {
    hide ReadTo, Folded;
    r := r0;
    assert |Edits(h.lines)| == end - from;
    for i := 0 to |h.lines|
      invariant ReadTo(base, ses, from + i, r) && r == Folded(ses, from + i)
      invariant 0 < i && ses[from + i - 1].op.OpEqual? ==> Idle(r)
    {
      assert Edits(h.lines)[i] == ses[from + i];
      assert NumberedLine(ses, from, from + i, h.lines[i]);
      FoldStep(ses, from + i, r, h.lines[i]);
      if h.lines[i].op.OpEqual? {
        ReadEqual(base, ses, from + i, r, h.lines[i]);
      } else {
        ReadChanged(base, ses, from + i, r, h.lines[i]);
      }
      r := ReadLine(r, h.lines[i]);
    }
  }

  /** Every hunk but the last ends in context. */
  lemma EndsEqual(ses: seq<Edit>, spans: seq<Span>, hunks: seq<Hunk>, i: int)
    requires Describes(ses, spans, hunks) && 0 <= i < |hunks| - 1
    ensures spans[i].from < spans[i].end <= |ses| && 0 < spans[i].end && ses[spans[i].end - 1].op.OpEqual?
  {
    assert Follows(ses, spans, hunks, i) && Follows(ses, spans, hunks, i + 1);
    assert spans[..i + 1][i] == spans[i];
  }

  /** diffToChanges: the changes make the new lines out of the old ones. */
  method DiffToChanges(hunks: seq<Hunk>, ghost base: seq<string>, ghost ses: seq<Edit>, ghost spans: seq<Span>)
    returns (changes: seq<Change>)
    requires Describes(ses, spans, hunks) && OldSide(ses) == base
    ensures Ordered(changes, |base|) && Spliced(base, changes, |base|) == NewSide(ses) && changes == ChangesOf(ses)
  {
    hide ReadTo, Complete, OldSide, NewSide, Folded;
    changes := [];
    var r := Reader([], 0, 0, []);
    ReadNothing(base, ses);
    for i := 0 to |hunks|
      invariant 0 <= EndOf(spans[..i]) <= |ses|
      invariant i < |hunks| ==> ReadTo(base, ses, EndOf(spans[..i]), r) && Idle(r) && r == Folded(ses, EndOf(spans[..i]))
      invariant r.changes == Flush(Folded(ses, EndOf(spans[..i]))).changes
      invariant Complete(base, ses, EndOf(spans[..i]), r.changes)
    {
      assert Follows(ses, spans, hunks, i);
      ReadGap(base, ses, EndOf(spans[..i]), spans[i].from, r);
      ReadSoFar(base, ses, EndOf(spans[..i]), r);
      FoldGap(ses, EndOf(spans[..i]), spans[i].from, r);
      r := r.(changeStart := if hunks[i].oldStart - 1 < 0 then 0 else hunks[i].oldStart - 1);
      r := ReadHunk(hunks[i], r, base, ses, spans[i].from, spans[i].end);
      assert spans[..i + 1][i] == spans[i];
      FlushCompletes(base, ses, spans[i].end, r);
      if i < |hunks| - 1 { EndsEqual(ses, spans, hunks, i); }
      r := Flush(r);
    }
    assert spans[..|hunks|] == spans;
    changes := r.changes;
    CompleteMore(base, ses, EndOf(spans), |ses|, changes);
    FoldTail(ses, EndOf(spans), |ses|);
    AllComplete(base, ses, changes);
  }

  lemma ReadSoFar(base: seq<string>, ses: seq<Edit>, n: int, r: Reader)
    requires ReadTo(base, ses, n, r) && Idle(r)
    ensures 0 <= n <= |ses| && r.changeStart == |OldSide(ses[..n])|
  {
  }

  lemma ReadNothing(base: seq<string>, ses: seq<Edit>)
    requires OldSide(ses) == base
    ensures ReadTo(base, ses, 0, Reader([], 0, 0, [])) && Complete(base, ses, 0, []) && Folded(ses, 0) == Reader([], 0, 0, [])
  {
    assert ses[..0] == [];
  }

  lemma AllComplete(base: seq<string>, ses: seq<Edit>, cs: seq<Change>)
    requires Complete(base, ses, |ses|, cs)
    ensures Ordered(cs, |base|) && Spliced(base, cs, |base|) == NewSide(ses)
  {
    assert ses[..|ses|] == ses;
  }

  // -------------------------------------------------------------------------- merging

  predicate RangesOverlap(a: Change, b: Change) {
    a.oldStart == b.oldStart || (a.oldStart < b.oldEnd && a.oldEnd > b.oldStart)
  }

  predicate Covers(c: Change, k: int) { c.oldStart <= k < c.oldEnd }

  /** c only inserts, strictly inside d. */
  predicate Within(c: Change, d: Change) { d.oldStart < c.oldStart == c.oldEnd < d.oldEnd }

  /** The changes start at one place, replace a common line, or one inserts inside the other. */
  ghost predicate Meet(o: Change, t: Change) {
    || o.oldStart == t.oldStart
    || (exists k {:trigger Covers(o, k)} :: Covers(o, k) && Covers(t, k))
    || Within(o, t) || Within(t, o)
  }

  /** The test of the two ranges says whether the changes meet. */
  lemma OverlapIsMeeting(o: Change, t: Change)
    requires o.oldStart <= o.oldEnd && t.oldStart <= t.oldEnd
    ensures RangesOverlap(o, t) <==> Meet(o, t)
  {
    if o.oldStart < t.oldEnd && o.oldEnd > t.oldStart {
      var k := if o.oldStart < t.oldStart then t.oldStart else o.oldStart;
      assert (Covers(o, k) && Covers(t, k)) || Within(o, t) || Within(t, o) || o.oldStart == t.oldStart;
    }
  }

  /** Changes of the two sides that meet are one and the same. */
  ghost predicate Agree(ours: seq<Change>, theirs: seq<Change>) {
    forall o, t :: o in ours && t in theirs && Meet(o, t) ==> o == t
  }

  predicate StartsAscend(cs: seq<Change>) { forall i, j :: 0 <= i < j < |cs| ==> cs[i].oldStart < cs[j].oldStart }

  /** cs holds the changes of both sides. */
  ghost predicate Both(cs: seq<Change>, ours: seq<Change>, theirs: seq<Change>) {
    forall c :: c in cs <==> c in ours || c in theirs
  }

  /** For every start of a change of either side, cs has one that starts there. */
  ghost predicate Selects(cs: seq<Change>, ours: seq<Change>, theirs: seq<Change>) {
    && StartsAscend(cs)
    && (forall c :: c in cs ==> c in ours || c in theirs)
    && (forall c :: c in ours || c in theirs ==> c.oldStart in Starts(cs))
  }

  ghost function Starts(cs: seq<Change>): set<int> { set i | 0 <= i < |cs| :: cs[i].oldStart }

  lemma SameStart(cs: seq<Change>, c: Change) returns (d: Change)
    requires c.oldStart in Starts(cs)
    ensures d in cs && d.oldStart == c.oldStart
  {
    var i :| 0 <= i < |cs| && cs[i].oldStart == c.oldStart;
    d := cs[i];
  }

  /** Two changes of the merged list, in order, leave each other alone. */
  lemma PairApart(ours: seq<Change>, theirs: seq<Change>, n: int, a: Change, b: Change)
    requires Ordered(ours, n) && Ordered(theirs, n) && Agree(ours, theirs)
    requires (a in ours || a in theirs) && (b in ours || b in theirs) && a.oldStart < b.oldStart
    ensures 0 <= a.oldStart <= a.oldEnd <= b.oldStart
  {
    InRange(ours, theirs, n, a);
    InRange(ours, theirs, n, b);
    if a in ours && b in ours {
      SameSide(ours, n, a, b);
    } else if a in theirs && b in theirs {
      SameSide(theirs, n, a, b);
    } else {
      assert !Meet(a, b) && !Meet(b, a);
      OverlapIsMeeting(a, b);
    }
  }

  lemma InRange(ours: seq<Change>, theirs: seq<Change>, n: int, c: Change)
    requires Ordered(ours, n) && Ordered(theirs, n) && (c in ours || c in theirs)
    ensures 0 <= c.oldStart <= c.oldEnd <= n
  {
    if c in ours {
      var i :| 0 <= i < |ours| && ours[i] == c;
    } else {
      var i :| 0 <= i < |theirs| && theirs[i] == c;
    }
  }

  lemma SameSide(cs: seq<Change>, n: int, a: Change, b: Change)
    requires Ordered(cs, n) && a in cs && b in cs
    ensures a.oldStart < b.oldStart ==> a.oldEnd <= b.oldStart
    ensures a.oldStart == b.oldStart ==> a == b
  {
    var i :| 0 <= i < |cs| && cs[i] == a;
    var j :| 0 <= j < |cs| && cs[j] == b;
    if j < i { assert cs[j].oldStart < cs[i].oldStart; } else if i < j { assert cs[i].oldStart < cs[j].oldStart; }
  }

  /** When the sides agree, all their changes are selected and can be made one after the other. */
  lemma SelectedMerge(cs: seq<Change>, ours: seq<Change>, theirs: seq<Change>, n: int)
    requires Selects(cs, ours, theirs) && Ordered(ours, n) && Ordered(theirs, n) && Agree(ours, theirs)
    ensures Both(cs, ours, theirs) && Ordered(cs, n)
  {
    forall c | c in ours || c in theirs ensures c in cs {
      var d := SameStart(cs, c);
      if c in ours && d in ours {
        SameSide(ours, n, c, d);
      } else if c in theirs && d in theirs {
        SameSide(theirs, n, c, d);
      } else {
        assert Meet(c, d) && Meet(d, c);
      }
    }
    forall i | 0 <= i < |cs| ensures 0 <= cs[i].oldStart <= cs[i].oldEnd <= n {
      assert cs[i] in cs;
      InRange(ours, theirs, n, cs[i]);
    }
    forall i, j | 0 <= i < j < |cs| ensures cs[i].oldStart < cs[j].oldStart && cs[i].oldEnd <= cs[j].oldStart {
      assert cs[i] in cs && cs[j] in cs;
      PairApart(ours, theirs, n, cs[i], cs[j]);
    }
  }

  lemma LastStarts(cs: seq<Change>, c: Change)
    requires StartsAscend(cs) && c in cs
    ensures var last := cs[|cs| - 1]; c.oldStart <= last.oldStart && (c.oldStart == last.oldStart ==> c == last)
  {
    var i :| 0 <= i < |cs| && cs[i] == c;
  }

  ghost predicate SameChanges(a: seq<Change>, b: seq<Change>) { forall c :: c in a <==> c in b }

  lemma SameLast(a: seq<Change>, b: seq<Change>)
    requires StartsAscend(a) && StartsAscend(b) && SameChanges(a, b) && a != []
    ensures b != [] && a[|a| - 1] == b[|b| - 1] && SameChanges(a[..|a| - 1], b[..|b| - 1])
  {
    var x := a[|a| - 1];
    assert x in a;
    assert x in b;
    var y := b[|b| - 1];
    assert y in b;
    assert y in a;
    LastStarts(b, x);
    LastStarts(a, y);
    WithoutLast(a);
    WithoutLast(b);
    var a', b' := a[..|a| - 1], b[..|b| - 1];
    forall c | c in a' ensures c in b' { assert c in a && c in b; }
    forall c | c in b' ensures c in a' { assert c in b && c in a; }
  }

  /** There is only one such list. */
  lemma {:induction false} SortedUnique(a: seq<Change>, b: seq<Change>)
    requires StartsAscend(a) && StartsAscend(b) && SameChanges(a, b)
    ensures a == b
    decreases |a|
  {
    hide StartsAscend, SameChanges;
    if a != [] {
      SameLast(a, b);
      WithoutLast(a);
      WithoutLast(b);
      SortedUnique(a[..|a| - 1], b[..|b| - 1]);
    } else if b != [] {
      NotEmpty(a, b);
    }
  }

  lemma NotEmpty(a: seq<Change>, b: seq<Change>)
    requires SameChanges(a, b) && b != []
    ensures a != []
  {
    assert b[0] in b;
  }

  lemma WithoutLast(cs: seq<Change>)
    requires StartsAscend(cs) && cs != []
    ensures StartsAscend(cs[..|cs| - 1]) && cs == cs[..|cs| - 1] + [cs[|cs| - 1]]
    ensures forall c :: c in cs[..|cs| - 1] <==> c in cs && c != cs[|cs| - 1]
  {
    assert cs == cs[..|cs| - 1] + [cs[|cs| - 1]];
  }

  // ------------------------------------------------------------------- the exchange sort

  function Swap(cs: seq<Change>, i: nat, j: nat): (r: seq<Change>)
    requires i < j < |cs|
    ensures |r| == |cs| && multiset(r) == multiset(cs)
  {
    cs[i := cs[j]][j := cs[i]]
  }

  /** Entries before i are sorted and no later entry starts before them. */
  ghost predicate SortedUpTo(cs: seq<Change>, i: nat) {
    i <= |cs| && forall p, q :: 0 <= p < i && p < q < |cs| ==> cs[p].oldStart <= cs[q].oldStart
  }

  lemma SwapSorted(cs: seq<Change>, i: nat, j: nat)
    requires i < j < |cs| && SortedUpTo(cs, i)
    ensures SortedUpTo(Swap(cs, i, j), i)
  {
  }

  lemma OneMoreSorted(cs: seq<Change>, i: nat)
    requires i < |cs| && SortedUpTo(cs, i) && forall q :: i < q < |cs| ==> cs[i].oldStart <= cs[q].oldStart
    ensures SortedUpTo(cs, i + 1)
  {
  }

  /** Puts the least of the entries from i on at i. */
  method SelectLeast(cs0: seq<Change>, i: nat) returns (cs: seq<Change>)
    requires i < |cs0| && SortedUpTo(cs0, i)
    ensures |cs| == |cs0| && multiset(cs) == multiset(cs0) && SortedUpTo(cs, i + 1)
  {
    cs := cs0;
    for j := i + 1 to |cs0|
      invariant |cs| == |cs0| && multiset(cs) == multiset(cs0) && SortedUpTo(cs, i)
      invariant forall q :: i < q < j ==> cs[i].oldStart <= cs[q].oldStart
    {
      if cs[i].oldStart > cs[j].oldStart {
        SwapSorted(cs, i, j);
        cs := Swap(cs, i, j);
      }
    }
    OneMoreSorted(cs, i);
  }

  method SortByStart(cs0: seq<Change>) returns (cs: seq<Change>)
    ensures multiset(cs) == multiset(cs0) && SortedUpTo(cs, |cs|)
  {
    cs := cs0;
    for i := 0 to |cs0|
      invariant |cs| == |cs0| && multiset(cs) == multiset(cs0) && SortedUpTo(cs, i)
    {
      cs := SelectLeast(cs, i);
    }
  }

  /** The first change at each start. */
  function Firsts(cs: seq<Change>): seq<Change> {
    if cs == [] then []
    else
      var r, c := Firsts(cs[..|cs| - 1]), cs[|cs| - 1];
      if exists i :: 0 <= i < |r| && r[i].oldStart == c.oldStart then r else r + [c]
  }

  method DeduplicateChanges(cs: seq<Change>) returns (r: seq<Change>)
    ensures r == Firsts(cs)
  {
    var seen: set<int> := {};
    r := [];
    for i := 0 to |cs|
      invariant forall s :: s in seen <==> exists j :: 0 <= j < |r| && r[j].oldStart == s
      invariant r == Firsts(cs[..i])
    {
      assert cs[..i + 1][..i] == cs[..i];
      if cs[i].oldStart !in seen {
        ghost var before := r;
        seen := seen + {cs[i].oldStart};
        r := r + [cs[i]];
        assert forall j :: 0 <= j < |before| ==> r[j] == before[j];
        assert r[|before|].oldStart == cs[i].oldStart;
      }
    }
    assert cs[..|cs|] == cs;
  }

  /** r has a change of cs for every start in cs. */
  ghost predicate OnePerStart(r: seq<Change>, cs: seq<Change>) {
    && StartsAscend(r) && (forall c :: c in r ==> c in cs)
    && (forall c :: c in cs ==> c.oldStart in Starts(r))
  }

  lemma StartMatters(r: seq<Change>, c: Change)
    ensures (exists i :: 0 <= i < |r| && r[i].oldStart == c.oldStart) <==> c.oldStart in Starts(r)
  {
  }

  lemma AddFirst(r: seq<Change>, init: seq<Change>, c: Change)
    requires OnePerStart(r, init) && (forall d :: d in init ==> d.oldStart <= c.oldStart)
    ensures OnePerStart(if c.oldStart in Starts(r) then r else r + [c], init + [c])
  {
    if c.oldStart !in Starts(r) {
      StartsMore(r, c);
      forall i | 0 <= i < |r| ensures r[i].oldStart < c.oldStart {
        assert r[i] in r;
        assert r[i].oldStart in Starts(r);
      }
    }
  }

  lemma NothingStarts()
    ensures OnePerStart([], [])
  {
  }

  lemma SortedInit(cs: seq<Change>)
    requires SortedUpTo(cs, |cs|) && cs != []
    ensures cs == cs[..|cs| - 1] + [cs[|cs| - 1]] && SortedUpTo(cs[..|cs| - 1], |cs| - 1)
    ensures forall d :: d in cs[..|cs| - 1] ==> d.oldStart <= cs[|cs| - 1].oldStart
  {
    forall d | d in cs[..|cs| - 1] ensures d.oldStart <= cs[|cs| - 1].oldStart {
      var j :| 0 <= j < |cs| - 1 && cs[j] == d;
    }
  }

  /** One change per start is left, and they ascend if all did. */
  lemma {:induction false} FirstsSelect(cs: seq<Change>)
    requires SortedUpTo(cs, |cs|)
    ensures OnePerStart(Firsts(cs), cs)
    decreases |cs|
  {
    hide OnePerStart, SortedUpTo, Starts;
    if cs == [] {
      NothingStarts();
    } else {
      var init, c := cs[..|cs| - 1], cs[|cs| - 1];
      SortedInit(cs);
      FirstsSelect(init);
      StartMatters(Firsts(init), c);
      AddFirst(Firsts(init), init, c);
    }
  }

  lemma StartsMore(r: seq<Change>, c: Change)
    ensures Starts(r + [c]) == Starts(r) + {c.oldStart}
  {
    assert (r + [c])[|r|] == c;
    forall x | x in Starts(r) ensures x in Starts(r + [c]) {
      var i :| 0 <= i < |r| && r[i].oldStart == x;
      assert (r + [c])[i] == r[i];
    }
  }

  /** mergeChanges: a change for every start, and when the sides agree all of them. */
  method MergeChanges(ours: seq<Change>, theirs: seq<Change>, ghost n: int) returns (all: seq<Change>)
    ensures Selects(all, ours, theirs)
    ensures Ordered(ours, n) && Ordered(theirs, n) && Agree(ours, theirs) ==> Merges(all, ours, theirs, n)
  {
    var sorted := SortByStart(ours + theirs);
    FirstsSelect(sorted);
    all := DeduplicateChanges(sorted);
    forall c ensures c in sorted <==> c in ours || c in theirs {
      assert c in multiset(sorted) <==> c in multiset(ours + theirs);
    }
    if Ordered(ours, n) && Ordered(theirs, n) && Agree(ours, theirs) { SelectedMerge(all, ours, theirs, n); }
  }

  // --------------------------------------------------------------- making the changes

  ghost predicate Inside(cs: seq<Change>, n: int) { forall i :: 0 <= i < |cs| ==> 0 <= cs[i].oldStart <= cs[i].oldEnd <= n }

  /** The old line after the last that a change of cs covers. */
  ghost function Covered(cs: seq<Change>): int {
    if cs == [] then 0
    else
      var c := cs[|cs| - 1];
      if Covered(cs[..|cs| - 1]) < c.oldEnd then c.oldEnd else Covered(cs[..|cs| - 1])
  }

  ghost function Between(base: seq<string>, i: int, j: int): seq<string> { if 0 <= i <= j <= |base| then base[i..j] else [] }

  /** The changes made one after the other, whether they overlap or not. */
  ghost function Laid(base: seq<string>, cs: seq<Change>): seq<string> {
    if cs == [] then []
    else
      var init, c := cs[..|cs| - 1], cs[|cs| - 1];
      Laid(base, init) + Between(base, Covered(init), c.oldStart) + c.newLines
  }

  ghost function Overlaid(base: seq<string>, cs: seq<Change>): seq<string> {
    Laid(base, cs) + Between(base, Covered(cs), |base|)
  }

  /** Changes in order are simply spliced in. */
  lemma {:induction false} LaidInOrder(base: seq<string>, cs: seq<Change>, upto: int)
    requires Ordered(cs, upto) && 0 <= upto <= |base|
    ensures 0 <= Covered(cs) <= upto && (cs != [] ==> Covered(cs) == cs[|cs| - 1].oldEnd)
    ensures Laid(base, cs) + base[Covered(cs)..upto] == Spliced(base, cs, upto)
    decreases |cs|
  {
    if cs != [] {
      var init, c := cs[..|cs| - 1], cs[|cs| - 1];
      LaidInOrder(base, init, c.oldStart);
    }
  }

  /** applyBothChanges before its lines are joined. */
  method Splice(base: seq<string>, all: seq<Change>) returns (result: seq<string>)
    requires Inside(all, |base|)
    ensures result == Overlaid(base, all)
  {
    result := [];
    var baseIdx: int := 0;
    for i := 0 to |all|
      invariant result == Laid(base, all[..i]) && baseIdx == Covered(all[..i]) && 0 <= baseIdx <= |base|
    {
      var ch := all[i];
      assert all[..i + 1][..i] == all[..i] && all[..i + 1][i] == ch;
      result, baseIdx := CopyBase(base, baseIdx, ch.oldStart, result);
      if baseIdx < ch.oldEnd { baseIdx := ch.oldEnd; }
      result := result + ch.newLines;
    }
    assert all[..|all|] == all;
    result, baseIdx := CopyBase(base, baseIdx, |base|, result);
  }

  method CopyBase(base: seq<string>, from: int, upto: int, result0: seq<string>) returns (result: seq<string>, baseIdx: int)
    requires 0 <= from <= |base| && 0 <= upto <= |base|
    ensures result == result0 + Between(base, from, upto) && baseIdx == if from < upto then upto else from
  {
    result, baseIdx := result0, from;
    while baseIdx < upto && baseIdx < |base|
      invariant from <= baseIdx <= |base| && (from < upto ==> baseIdx <= upto) && (from >= upto ==> baseIdx == from)
      invariant result == result0 + base[from..baseIdx]
    {
      result := result + [base[baseIdx]];
      baseIdx := baseIdx + 1;
    }
  }

  // ------------------------------------------------------------------- whole texts

  datatype MergeResult = Merged(text: string) | Conflicting(pairs: seq<(Change, Change)>)

  predicate Differ(o: Change, t: Change) { RangesOverlap(o, t) && o.newLines != t.newLines }

  function PairsOf(o: Change, theirs: seq<Change>): (pairs: seq<(Change, Change)>)
    ensures forall p :: p in pairs <==> p.0 == o && p.1 in theirs && Differ(o, p.1)
  {
    if theirs == [] then []
    else
      var init, last := theirs[..|theirs| - 1], theirs[|theirs| - 1];
      assert theirs == init + [last];
      PairsOf(o, init) + (if Differ(o, last) then [(o, last)] else [])
  }

  /** Overlapping changes that say different things, each pair once, ours before theirs. */
  function AllPairs(ours: seq<Change>, theirs: seq<Change>): (pairs: seq<(Change, Change)>)
    ensures forall p :: p in pairs <==> p.0 in ours && p.1 in theirs && Differ(p.0, p.1)
  {
    if ours == [] then []
    else
      var init, last := ours[..|ours| - 1], ours[|ours| - 1];
      assert ours == init + [last];
      AllPairs(init, theirs) + PairsOf(last, theirs)
  }

  ghost predicate Forward(cs: seq<Change>) { forall c :: c in cs ==> c.oldStart <= c.oldEnd }

  /** The changes meet and say different things. */
  ghost predicate Disagree(o: Change, t: Change) { Meet(o, t) && o.newLines != t.newLines }

  lemma PairsDisagree(ours: seq<Change>, theirs: seq<Change>)
    requires Forward(ours) && Forward(theirs)
    ensures forall o, t :: (o, t) in AllPairs(ours, theirs) <==> o in ours && t in theirs && Disagree(o, t)
  {
    forall o, t ensures (o, t) in AllPairs(ours, theirs) <==> o in ours && t in theirs && Disagree(o, t) {
      if o in ours && t in theirs { OverlapIsMeeting(o, t); }
    }
  }

  method DetectConflicts(ours: seq<Change>, theirs: seq<Change>) returns (pairs: seq<(Change, Change)>)
    ensures pairs == AllPairs(ours, theirs)
    ensures Forward(ours) && Forward(theirs) ==>
      forall o, t :: (o, t) in pairs <==> o in ours && t in theirs && Disagree(o, t)
  {
    if Forward(ours) && Forward(theirs) { PairsDisagree(ours, theirs); }
    pairs := [];
    for i := 0 to |ours|
      invariant pairs == AllPairs(ours[..i], theirs)
    {
      assert ours[..i + 1][..i] == ours[..i];
      ghost var before := pairs;
      for j := 0 to |theirs|
        invariant pairs == before + PairsOf(ours[i], theirs[..j])
      {
        assert theirs[..j + 1][..j] == theirs[..j];
        if RangesOverlap(ours[i], theirs[j]) && ours[i].newLines != theirs[j].newLines {
          pairs := pairs + [(ours[i], theirs[j])];
        }
      }
      assert theirs[..|theirs|] == theirs;
    }
    assert ours[..|ours|] == ours;
  }

  /** The changes from one text to another. */
  ghost function Changes(oldText: string, newText: string): seq<Change> { ChangesOf(Script(Split(oldText), Split(newText))) }

  method ChangesBetween(oldText: string, newText: string) returns (changes: seq<Change>)
    requires oldText != "" || newText != ""
    ensures changes == Changes(oldText, newText) && Ordered(changes, |Split(oldText)|)
    ensures Spliced(Split(oldText), changes, |Split(oldText)|) == Split(newText)
  {
    hide Script, ChangesOf;
    var diff, ses, spans := Diff(oldText, newText);
    changes := DiffToChanges(diff.hunks, Split(oldText), ses, spans);
  }

  /** Lists that merge two sides of the base. */
  ghost predicate Merges(all: seq<Change>, ours: seq<Change>, theirs: seq<Change>, n: int) {
    Both(all, ours, theirs) && StartsAscend(all) && Ordered(all, n)
  }

  ghost predicate Clash(ours: seq<Change>, theirs: seq<Change>) {
    exists o, t :: o in ours && t in theirs && Disagree(o, t)
  }

  /** The text is made of the given lines.  Its final newline is lost, and with it a last line
      that is empty. */
  ghost predicate Glued(text: string, lines: seq<string>) {
    && text == Join(lines)
    && (Split(text) == lines <==> !EndsEmpty(lines))
    && (EndsLine(text) <==> |lines| >= 2 && EndsEmpty(lines))
  }

  /** What a merge of three texts that differ gives.  Without a conflict, the lines are the
      base's with a change made for every start; when overlapping changes are the same, with
      every change of both sides made exactly once. */
  ghost predicate MergedFrom(baseText: string, oursText: string, theirsText: string, r: MergeResult, all: seq<Change>) {
    var base, ours, theirs := Split(baseText), Changes(baseText, oursText), Changes(baseText, theirsText);
    && Ordered(ours, |base|) && Spliced(base, ours, |base|) == Split(oursText)
    && Ordered(theirs, |base|) && Spliced(base, theirs, |base|) == Split(theirsText)
    && (r.Conflicting? <==> Clash(ours, theirs)) && (r.Conflicting? ==> r.pairs == AllPairs(ours, theirs))
    && (r.Conflicting? ==> forall o, t :: (o, t) in r.pairs <==> o in ours && t in theirs && Disagree(o, t))
    && (r.Merged? ==> Selects(all, ours, theirs) && Glued(r.text, Overlaid(base, all)))
    && (Agree(ours, theirs) ==>
          r.Merged? && Merges(all, ours, theirs, |base|) && Overlaid(base, all) == Spliced(base, all, |base|))
  }

  /** What a merge gives: a side that is as the base, or as the other, leaves no choice. */
  ghost predicate MergeOf(baseText: string, oursText: string, theirsText: string, r: MergeResult, all: seq<Change>) {
    if baseText == oursText then r == Merged(theirsText)
    else if baseText == theirsText || oursText == theirsText then r == Merged(oursText)
    else MergedFrom(baseText, oursText, theirsText, r, all)
  }

  /** ThreeWayMerge without the rendering of conflicts. */
  method ThreeWayMerge(baseText: string, oursText: string, theirsText: string) returns (r: MergeResult)
    ensures exists all :: MergeOf(baseText, oursText, theirsText, r, all)
  {
    hide Changes, Spliced, Split, Overlaid, Selects, Agree, AllPairs, Ordered;
    r := Merged(theirsText);
    if baseText == oursText { assert MergeOf(baseText, oursText, theirsText, r, []); return; }
    r := Merged(oursText);
    if baseText == theirsText { assert MergeOf(baseText, oursText, theirsText, r, []); return; }
    if oursText == theirsText { assert MergeOf(baseText, oursText, theirsText, r, []); return; }
    var ours := ChangesBetween(baseText, oursText);
    var theirs := ChangesBetween(baseText, theirsText);
    var conflicts := DetectConflicts(ours, theirs);
    OrderedForward(ours, |Split(baseText)|);
    OrderedForward(theirs, |Split(baseText)|);
    ClashIsPair(ours, theirs);
    AgreeNoClash(ours, theirs);
    if |conflicts| > 0 {
      r := Conflicting(conflicts);
      assert MergeOf(baseText, oursText, theirsText, r, []);
      return;
    }
    var baseLines := SplitText(baseText);
    var all := MergeChanges(ours, theirs, |baseLines|);
    SelectedInside(all, ours, theirs, |baseLines|);
    var lines := Splice(baseLines, all);
    r := Merged(Join(lines));
    LinesGlue(baseText, oursText, theirsText, ours, theirs, all);
    if Agree(ours, theirs) { InOrderOverlaid(baseLines, all); }
    assert MergeOf(baseText, oursText, theirsText, r, all);
  }

  // ------------------------------------------------------------------- merged lines

  lemma {:induction false} SplicedHas(base: seq<string>, cs: seq<Change>, upto: int, i: int)
    requires Ordered(cs, upto) && 0 <= upto <= |base| && 0 <= i < |cs|
    ensures forall x :: x in cs[i].newLines ==> x in Spliced(base, cs, upto)
    decreases |cs|
  {
    var c := cs[|cs| - 1];
    if i < |cs| - 1 { SplicedHas(base, cs[..|cs| - 1], c.oldStart, i); }
  }

  lemma {:induction false} LaidAreLines(base: seq<string>, cs: seq<Change>)
    requires AreLines(base) && forall i :: 0 <= i < |cs| ==> AreLines(cs[i].newLines)
    ensures AreLines(Laid(base, cs))
    decreases |cs|
  {
    if cs != [] { LaidAreLines(base, cs[..|cs| - 1]); }
  }

  lemma SelectedInside(cs: seq<Change>, ours: seq<Change>, theirs: seq<Change>, n: int)
    requires Selects(cs, ours, theirs) && Ordered(ours, n) && Ordered(theirs, n)
    ensures Inside(cs, n)
  {
    forall i | 0 <= i < |cs| ensures 0 <= cs[i].oldStart <= cs[i].oldEnd <= n {
      assert cs[i] in cs;
      InRange(ours, theirs, n, cs[i]);
    }
  }

  lemma InOrderOverlaid(base: seq<string>, cs: seq<Change>)
    requires Ordered(cs, |base|)
    ensures Overlaid(base, cs) == Spliced(base, cs, |base|)
  {
    LaidInOrder(base, cs, |base|);
  }

  lemma SideIsLines(base: seq<string>, cs: seq<Change>, text: string, c: Change)
    requires Ordered(cs, |base|) && Spliced(base, cs, |base|) == Split(text) && c in cs
    ensures AreLines(c.newLines)
  {
    hide Spliced, Split;
    var i :| 0 <= i < |cs| && cs[i] == c;
    SplicedHas(base, cs, |base|, i);
    SplitIsOneLine(text);
    forall j | 0 <= j < |c.newLines| ensures OneLine(c.newLines[j]) {
      assert c.newLines[j] in c.newLines && c.newLines[j] in Split(text);
    }
  }

  lemma LinesGlue(baseText: string, oursText: string, theirsText: string, ours: seq<Change>, theirs: seq<Change>, all: seq<Change>)
    requires var base := Split(baseText);
      && Ordered(ours, |base|) && Spliced(base, ours, |base|) == Split(oursText)
      && Ordered(theirs, |base|) && Spliced(base, theirs, |base|) == Split(theirsText)
      && Selects(all, ours, theirs)
    ensures var lines := Overlaid(Split(baseText), all); Glued(Join(lines), lines)
  {
    hide Spliced, Split, Laid, Covered;
    var base := Split(baseText);
    SplitIsOneLine(baseText);
    forall i | 0 <= i < |all| ensures AreLines(all[i].newLines) {
      assert all[i] in all;
      if all[i] in ours { SideIsLines(base, ours, oursText, all[i]); } else { SideIsLines(base, theirs, theirsText, all[i]); }
    }
    LaidAreLines(base, all);
    SplitJoin(Overlaid(base, all));
    JoinEnds(Overlaid(base, all));
  }

  // ------------------------------------------------------------------------ symmetry

  lemma BothWays(ours: seq<Change>, theirs: seq<Change>)
    ensures Agree(ours, theirs) == Agree(theirs, ours) && Clash(ours, theirs) == Clash(theirs, ours)
  {
    if Clash(ours, theirs) {
      var o, t :| o in ours && t in theirs && Disagree(o, t);
      MeetBothWays(o, t);
    }
    if Clash(theirs, ours) {
      var o, t :| o in theirs && t in ours && Disagree(o, t);
      MeetBothWays(o, t);
    }
    if Agree(ours, theirs) {
      forall o, t | o in theirs && t in ours && Meet(o, t) ensures o == t { MeetBothWays(o, t); }
    }
    if Agree(theirs, ours) {
      forall o, t | o in ours && t in theirs && Meet(o, t) ensures o == t { MeetBothWays(o, t); }
    }
  }

  lemma MeetBothWays(o: Change, t: Change)
    requires Meet(o, t)
    ensures Meet(t, o)
  {
    if k :| Covers(o, k) && Covers(t, k) { assert Covers(t, k); }
  }

  /** Two runs with the sides swapped conflict alike, and give one text when overlapping changes agree. */
  lemma MergeSymmetric(baseText: string, oursText: string, theirsText: string, r: MergeResult, all: seq<Change>,
                       r': MergeResult, all': seq<Change>)
    requires MergeOf(baseText, oursText, theirsText, r, all) && MergeOf(baseText, theirsText, oursText, r', all')
    ensures r.Conflicting? == r'.Conflicting?
    ensures (baseText in [oursText, theirsText] || oursText == theirsText ||
             Agree(Changes(baseText, oursText), Changes(baseText, theirsText))) ==> r == r'
  {
    hide Changes, Spliced, Split;
    var ours, theirs := Changes(baseText, oursText), Changes(baseText, theirsText);
    BothWays(ours, theirs);
    if baseText !in [oursText, theirsText] && oursText != theirsText && Agree(ours, theirs) {
      assert SameChanges(all, all');
      SortedUnique(all, all');
    }
  }

  lemma OrderedForward(cs: seq<Change>, n: int)
    requires Ordered(cs, n)
    ensures Forward(cs)
  {
    forall c | c in cs ensures c.oldStart <= c.oldEnd {
      var i :| 0 <= i < |cs| && cs[i] == c;
    }
  }

  lemma ClashIsPair(ours: seq<Change>, theirs: seq<Change>)
    requires Forward(ours) && Forward(theirs)
    ensures AllPairs(ours, theirs) != [] <==> Clash(ours, theirs)
  {
    var pairs := AllPairs(ours, theirs);
    PairsDisagree(ours, theirs);
    if pairs != [] { assert (pairs[0].0, pairs[0].1) in pairs; }
    forall o, t | o in ours && t in theirs && Disagree(o, t) ensures pairs != [] { assert (o, t) in pairs; }
  }

  /** Changes of separate lines, with different starts, always merge, each made once. */
  lemma SeparateChangesMerge(baseText: string, oursText: string, theirsText: string, r: MergeResult, all: seq<Change>)
    requires baseText != oursText && baseText != theirsText && oursText != theirsText && MergeOf(baseText, oursText, theirsText, r, all)
    requires forall o, t :: o in Changes(baseText, oursText) && t in Changes(baseText, theirsText) ==>
      o.oldStart != t.oldStart && (o.oldEnd <= t.oldStart || t.oldEnd <= o.oldStart)
    ensures r.Merged? && Merges(all, Changes(baseText, oursText), Changes(baseText, theirsText), |Split(baseText)|)
    ensures r.text == Join(Spliced(Split(baseText), all, |Split(baseText)|))
  {
    hide Changes, Split, Spliced, Overlaid, AllPairs;
    var ours, theirs := Changes(baseText, oursText), Changes(baseText, theirsText);
    OrderedForward(ours, |Split(baseText)|);
    OrderedForward(theirs, |Split(baseText)|);
    forall o, t | o in ours && t in theirs ensures !Meet(o, t) { OverlapIsMeeting(o, t); }
  }

  lemma AgreeNoClash(ours: seq<Change>, theirs: seq<Change>)
    ensures Agree(ours, theirs) ==> !Clash(ours, theirs)
  {
  }

  // ---------------------------------------------------------------------- an example

  function Lines2(x: string, y: string): string { x + "\n" + y + "\n" }

  lemma TwoLines(x: string, y: string)
    requires OneLine(x) && OneLine(y)
    ensures Split(Lines2(x, y)) == [x, y]
  {
    hide Split;
    var t, u := Lines2(x, y), y + "\n";
    assert t[..|x|] == x && t[|x| + 1..] == u;
    SplitAt(t, |x|);
    assert u[..|y|] == y && u[|y| + 1..] == "";
    SplitAt(u, |y|);
    SplitNothing();
  }

  lemma TwoLineDist(a: seq<string>, b: seq<string>)
    requires |a| == 2 && |b| == 2 && (a[0] == b[0]) != (a[1] == b[1]) && a[0] != b[1] && a[1] != b[0]
    ensures Dist(a, b, 2, 2) == 2
  {
    assert Dist(a, b, 1, 1) == if a[0] == b[0] then 0 else 2;
    assert Dist(a, b, 1, 2) == Dist(a, b, 2, 1) == if a[0] == b[0] then 1 else 3;
  }

  /** Where the first rounds get on two lines of which one is changed. */
  lemma TwoLineReach(a: seq<string>, b: seq<string>)
    requires |a| == 2 && |b| == 2 && (a[0] == b[0]) != (a[1] == b[1]) && a[0] != b[1] && a[1] != b[0]
    ensures var n := if a[0] == b[0] then 1 else 0;
      Reach(a, b, 0, 0) == n && Reach(a, b, 1, -1) == n && Reach(a, b, 1, 1) == n + 1
  {
    var n := if a[0] == b[0] then 1 else 0;
    assert SlideTo(a, b, 0, n) == n;
    assert Down(a, b, 1, -1) && !Down(a, b, 1, 1);
    assert !Slides(a, b, -1, n) && !Slides(a, b, 1, n + 1);
  }

  lemma TwoLineScript(a: seq<string>, b: seq<string>)
    requires |a| == 2 && |b| == 2 && (a[0] == b[0]) != (a[1] == b[1]) && a[0] != b[1] && a[1] != b[0]
    ensures Script(a, b) == if a[0] == b[0]
      then [Edit(OpEqual, a[0]), Edit(OpDelete, a[1]), Edit(OpInsert, b[1])]
      else [Edit(OpDelete, a[0]), Edit(OpInsert, b[0]), Edit(OpEqual, a[1])]
  {
    TwoLineDist(a, b);
    TwoLineReach(a, b);
    hide Reach, Dist;
    var n := if a[0] == b[0] then 1 else 0;
    assert Down(a, b, 2, 0) && !Down(a, b, 1, 1);
    assert Path(a, b, 0, n, n) == Same(a, 0, n);
    assert Same(a, 2, 2) == [] && Same(a, 1, 1) == [] && Same(a, 0, 0) == [];
    assert Same(a, 0, 1) == [Edit(OpEqual, a[0])] && Same(a, 1, 2) == [Edit(OpEqual, a[1])];
    assert Path(a, b, 1, n + 1, n) == Same(a, 0, n) + ([Edit(OpDelete, a[n])] + Same(a, n + 1, n + 1));
    assert Path(a, b, 2, 2, 2) == Path(a, b, 1, n + 1, n) + ([Edit(OpInsert, b[n])] + Same(a, n + 1, 2));
  }

  lemma TwoLineChanges(a: seq<string>, b: seq<string>)
    requires |a| == 2 && |b| == 2 && (a[0] == b[0]) != (a[1] == b[1]) && a[0] != b[1] && a[1] != b[0]
    ensures ChangesOf(Script(a, b)) == if a[0] == b[0] then [Change(1, 2, [b[1]])] else [Change(0, 1, [b[0]])]
  {
    TwoLineScript(a, b);
    var s := Script(a, b);
    hide Script;
    assert s[..0] == [];
    Advance(s, 0);
    Advance(s, 1);
    var r := Reader([], 0, 0, []);
    assert Folded(s, 0) == r;
    var r1 := ReadLine(r, Line(s[0].line, s[0].op, 1, 0));
    assert Folded(s, 1) == r1;
    var r2 := ReadLine(r1, Line(s[1].line, s[1].op, OldNo(s, 1), 0));
    assert Folded(s, 2) == r2;
    var r3 := ReadLine(r2, Line(s[2].line, s[2].op, OldNo(s, 2), 0));
    assert Folded(s, 3) == r3 && |s| == 3;
    if a[0] == b[0] {
      assert r3 == Reader([], 1, 1, [b[1]]);
      assert Flush(r3).changes == [Change(1, 2, [b[1]])];
    } else {
      assert r2 == Reader([], 0, 1, [b[0]]);
      assert r3.changes == [Change(0, 1, [b[0]])];
    }
  }

  lemma ExampleSplice(x: string, y: string)
    ensures var all := [Change(0, 1, [x]), Change(1, 2, [y])];
      && Merges(all, [Change(0, 1, [x])], [Change(1, 2, [y])], 2) && Agree([Change(0, 1, [x])], [Change(1, 2, [y])])
      && Spliced(["a", "b"], all, 2) == [x, y]
  {
    var base, one, two := ["a", "b"], [Change(0, 1, [x])], [Change(1, 2, [y])];
    var all := [Change(0, 1, [x]), Change(1, 2, [y])];
    assert all == one + two && all[..1] == one && one[..0] == [];
    assert Spliced(base, [], 0) == [];
    assert Spliced(base, one, 1) == [x];
  }

  lemma ExampleChanges(y: string)
    requires OneLine(y) && y != "a" && y != "b"
    ensures Split(Lines2("a", "b")) == ["a", "b"] && Split(Lines2("x", "b")) == ["x", "b"] && Split(Lines2("a", y)) == ["a", y]
    ensures Changes(Lines2("a", "b"), Lines2("x", "b")) == [Change(0, 1, ["x"])]
    ensures Changes(Lines2("a", "b"), Lines2("a", y)) == [Change(1, 2, [y])]
  {
    hide Split, Script, ChangesOf, Lines2;
    TwoLines("a", "b");
    TwoLines("x", "b");
    TwoLines("a", y);
    TwoLineChanges(["a", "b"], ["x", "b"]);
    TwoLineChanges(["a", "b"], ["a", y]);
  }

  /** There is but one way to merge separate changes. */
  lemma MergedOnce(baseText: string, oursText: string, theirsText: string, r: MergeResult, all: seq<Change>, want: seq<Change>)
    requires MergedFrom(baseText, oursText, theirsText, r, all)
    requires var ours, theirs := Changes(baseText, oursText), Changes(baseText, theirsText);
      Agree(ours, theirs) && Merges(want, ours, theirs, |Split(baseText)|)
    ensures r == Merged(Join(Spliced(Split(baseText), want, |Split(baseText)|)))
  {
    hide Changes, Split, Spliced, Join;
    assert SameChanges(all, want);
    SortedUnique(all, want);
  }

  /** The first line changed on one side, the second on the other. */
  lemma MergeExample(y: string, r: MergeResult, all: seq<Change>)
    requires OneLine(y) && y != "a" && y != "b" && MergeOf(Lines2("a", "b"), Lines2("x", "b"), Lines2("a", y), r, all)
    ensures r == Merged("x\n" + y)
  {
    hide Split, Changes, Lines2, Spliced, MergedFrom, Merges, Agree, Join;
    ExampleChanges(y);
    assert ["a", "b"] != ["x", "b"] && ["a", "b"] != ["a", y] && ["x", "b"] != ["a", y];
    ExampleSplice("x", y);
    MergedOnce(Lines2("a", "b"), Lines2("x", "b"), Lines2("a", y), r, all, [Change(0, 1, ["x"]), Change(1, 2, [y])]);
    JoinTwo("x", y);
  }

  lemma JoinTwo(x: string, y: string)
    ensures Join([x, y]) == x + "\n" + y
  {
    assert [x, y][1..] == [y];
  }

  /** Three texts that end in a newline, and a merge that does not. */
  lemma NewlineLost(r: MergeResult, all: seq<Change>)
    requires MergeOf("a\nb\n", "x\nb\n", "a\ny\n", r, all)
    ensures r == Merged("x\ny") && !EndsLine(r.text)
  {
    hide MergeOf;
    assert Lines2("a", "b") == "a\nb\n" && Lines2("x", "b") == "x\nb\n" && Lines2("a", "y") == "a\ny\n";
    MergeExample("y", r, all);
  }

  /** An empty second line that both the merged lines and one side have, and the text has not. */
  lemma LineLost(r: MergeResult, all: seq<Change>)
    requires MergeOf("a\nb\n", "x\nb\n", "a\n\n", r, all)
    ensures r == Merged("x\n") && Split("a\n\n") == ["a", ""] && Split(r.text) == ["x"]
  {
    hide MergeOf, Split, Join;
    assert Lines2("a", "b") == "a\nb\n" && Lines2("x", "b") == "x\nb\n" && Lines2("a", "") == "a\n\n";
    MergeExample("", r, all);
    TwoLines("a", "");
    JoinTwo("x", "");
    SplitJoin(["x", ""]);
    assert ["x", ""][..1] == ["x"] && EndsEmpty(["x", ""]);
    assert "x\n" + "" == "x\n" == "x" + "\n" + "";
  }
}
