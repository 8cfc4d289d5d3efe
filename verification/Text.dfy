/** Texts and their lines: splitText of internal/diffpatch and strings.Join. */
module Text {

  predicate EndsLine(t: string) { t != [] && t[|t| - 1] == '\n' }

  /** The index of the first newline, or the length of the text. */
  function LineEnd(t: string): (n: nat)
    ensures n <= |t| && (n < |t| ==> t[n] == '\n') && forall i :: 0 <= i < n ==> t[i] != '\n'
  {
    if t == [] || t[0] == '\n' then 0 else 1 + LineEnd(t[1..])
  }

  /** The lines of a text; a final newline ends the last line and starts no other. */
  function Split(t: string): seq<string>
    decreases |t|
  {
    if t == [] then []
    else if LineEnd(t) == |t| then [t]
    else [t[..LineEnd(t)]] + Split(t[LineEnd(t) + 1..])
  }

  function Join(lines: seq<string>): string {
    if lines == [] then "" else if |lines| == 1 then lines[0] else lines[0] + "\n" + Join(lines[1..])
  }

  /** The lines before start have been read. */
  ghost predicate Scanned(t: string, lines: seq<string>, start: int) {
    0 <= start <= |t| && Split(t) == lines + Split(t[start..])
  }

  /** The scanning loop. */
  method SplitText(t: string) returns (lines: seq<string>)
    ensures lines == Split(t)
  {
    lines := [];
    var start := 0;
    ScanStart(t);
    for i := 0 to |t|
      invariant start <= i && Scanned(t, lines, start)
      invariant forall j :: start <= j < i ==> t[j] != '\n'
    {
      if t[i] == '\n' {
        ScanLine(t, lines, start, i);
        lines := lines + [t[start..i]];
        start := i + 1;
      }
    }
    ScanLast(t, lines, start);
    if start < |t| {
      lines := lines + [t[start..]];
    }
  }

  lemma ScanStart(t: string)
    ensures Scanned(t, [], 0)
  {
    assert t[0..] == t;
  }

  lemma ScanLine(t: string, lines: seq<string>, start: int, i: int)
    requires Scanned(t, lines, start) && start <= i < |t| && t[i] == '\n' && forall j :: start <= j < i ==> t[j] != '\n'
    ensures Scanned(t, lines + [t[start..i]], i + 1)
  {
    hide Split;
    var u, head := t[start..], t[start..i];
    SplitAt(u, i - start);
    assert u[..i - start] == head && u[i - start + 1..] == t[i + 1..];
    Regroup(lines, head, Split(t[i + 1..]));
  }

  lemma Regroup(lines: seq<string>, line: string, rest: seq<string>)
    ensures lines + ([line] + rest) == (lines + [line]) + rest
  {
  }

  lemma ScanLast(t: string, lines: seq<string>, start: int)
    requires Scanned(t, lines, start) && forall j :: start <= j < |t| ==> t[j] != '\n'
    ensures Split(t) == if start < |t| then lines + [t[start..]] else lines
  {
    if start < |t| { LastLine(t[start..]); }
  }

  lemma SplitAt(t: string, n: int)
    requires 0 <= n < |t| && t[n] == '\n' && forall j :: 0 <= j < n ==> t[j] != '\n'
    ensures Split(t) == [t[..n]] + Split(t[n + 1..])
  {
    assert LineEnd(t) == n;
  }

  lemma LastLine(t: string)
    requires t != [] && forall j :: 0 <= j < |t| ==> t[j] != '\n'
    ensures Split(t) == [t]
  {
    assert LineEnd(t) == |t|;
  }

  lemma JoinCons(line: string, lines: seq<string>)
    requires lines != []
    ensures Join([line] + lines) == line + "\n" + Join(lines)
  {
    assert ([line] + lines)[1..] == lines;
  }

  function Ending(t: string): string { if EndsLine(t) then "\n" else "" }

  /** Joining the lines gives the text back, but for its final newline. */
  lemma {:induction false} JoinSplit(t: string)
    ensures Join(Split(t)) + Ending(t) == t
    ensures Split(t) == [] <==> t == ""
    decreases |t|
  {
    if t != [] && LineEnd(t) < |t| {
      var n := LineEnd(t);
      var head, rest := t[..n], t[n + 1..];
      assert t == head + "\n" + rest;
      if rest == [] {
        assert Split(t) == [head];
        assert t == head + "\n";
      } else {
        JoinSplit(rest);
        JoinCons(head, Split(rest));
        JoinParts(head, Join(Split(rest)), Ending(rest), rest);
        assert EndsLine(t) == EndsLine(rest);
      }
    }
  }

  lemma JoinParts(head: string, joined: string, ending: string, rest: string)
    requires joined + ending == rest
    ensures head + "\n" + joined + ending == head + "\n" + rest
  {
    assert head + "\n" + joined + ending == head + "\n" + (joined + ending);
  }

  /** Only the final newline of a text is lost by splitting it. */
  lemma {:induction false} SplitDetermines(t: string, u: string)
    requires Split(t) == Split(u)
    ensures t == u <==> EndsLine(t) == EndsLine(u)
  {
    JoinSplit(t);
    JoinSplit(u);
  }

  // ------------------------------------------------------------------- joined lines

  predicate OneLine(s: string) { '\n' !in s }

  predicate AreLines(lines: seq<string>) { forall i :: 0 <= i < |lines| ==> OneLine(lines[i]) }

  lemma {:induction false} SplitIsOneLine(t: string)
    ensures AreLines(Split(t))
    decreases |t|
  {
    if t != [] && LineEnd(t) < |t| { SplitIsOneLine(t[LineEnd(t) + 1..]); }
  }

  predicate EndsEmpty(lines: seq<string>) { lines != [] && lines[|lines| - 1] == "" }

  /** Joined lines split into themselves, but an empty last line is lost. */
  lemma {:induction false} SplitJoin(lines: seq<string>)
    requires AreLines(lines)
    ensures Split(Join(lines)) == if EndsEmpty(lines) then lines[..|lines| - 1] else lines
    decreases |lines|
  {
    hide Split, LineEnd;
    if |lines| == 0 {
      SplitNothing();
    } else if |lines| == 1 {
      SplitNothing();
      if lines[0] != "" { LastLine(lines[0]); }
      assert lines == [lines[0]];
    } else {
      var l, rest := lines[0], lines[1..];
      var t := Join(lines);
      assert t == l + "\n" + Join(rest);
      assert t[..|l|] == l && t[|l| + 1..] == Join(rest);
      SplitAt(t, |l|);
      SplitJoin(rest);
    }
  }

  lemma SplitNothing()
    ensures Split("") == []
  {
  }

  /** They end in a newline exactly when an empty line comes last and another before it. */
  lemma {:induction false} JoinEnds(lines: seq<string>)
    requires AreLines(lines)
    ensures EndsLine(Join(lines)) <==> |lines| >= 2 && EndsEmpty(lines)
    ensures |lines| >= 2 ==> Join(lines) != ""
    decreases |lines|
  {
    if |lines| >= 2 {
      var rest := lines[1..];
      JoinEnds(rest);
      var t := Join(lines);
      assert t == lines[0] + "\n" + Join(rest);
      if Join(rest) != "" { assert t[|t| - 1] == Join(rest)[|Join(rest)| - 1]; }
    }
  }
}
