/** Myers' greedy O(ND) difference of internal/diffpatch/myers.go: the script it returns
    turns one line list into the other with the fewest possible deletions and insertions. */
module Myers {

  datatype Op = OpEqual | OpDelete | OpInsert

  datatype Edit = Edit(op: Op, line: string)

  /** The lines an edit script reads. */
  function OldSide(ses: seq<Edit>): seq<string> {
    if ses == [] then [] else (if ses[0].op.OpInsert? then [] else [ses[0].line]) + OldSide(ses[1..])
  }

  /** The lines an edit script writes. */
  function NewSide(ses: seq<Edit>): seq<string> {
    if ses == [] then [] else (if ses[0].op.OpDelete? then [] else [ses[0].line]) + NewSide(ses[1..])
  }

  function Cost(ses: seq<Edit>): nat {
    if ses == [] then 0 else (if ses[0].op.OpEqual? then 0 else 1) + Cost(ses[1..])
  }

  predicate Transforms(ses: seq<Edit>, a: seq<string>, b: seq<string>) {
    OldSide(ses) == a && NewSide(ses) == b
  }

  // -------------------------------------------------------------- edit distance

  function Min(x: nat, y: nat): nat { if x < y then x else y }

  predicate Match(a: seq<string>, b: seq<string>, x: int, y: int) {
    0 <= x < |a| && 0 <= y < |b| && a[x] == b[y]
  }

  /** Distance of the point (x, y) from the origin of the edit graph.  The graph goes on
      beyond the two texts, without diagonals, because the search does. */
  function Dist(a: seq<string>, b: seq<string>, x: nat, y: nat): nat {
    if x == 0 then y
    else if y == 0 then x
    else
      var step := 1 + Min(Dist(a, b, x - 1, y), Dist(a, b, x, y - 1));
      if Match(a, b, x - 1, y - 1) then Min(step, Dist(a, b, x - 1, y - 1)) else step
  }

  lemma {:induction false} DistBounds(a: seq<string>, b: seq<string>, x: nat, y: nat)
    ensures x - y <= Dist(a, b, x, y) <= x + y
    ensures y - x <= Dist(a, b, x, y)
    decreases x + y
  {
    if x > 0 && y > 0 {
      DistBounds(a, b, x - 1, y);
      DistBounds(a, b, x, y - 1);
      DistBounds(a, b, x - 1, y - 1);
    }
  }

  predicate Even(n: int) { n % 2 == 0 }

  lemma {:induction false} EvenSum(m: int, n: int)
    ensures Even(m) && Even(n) ==> Even(m + n)
    ensures Even(m) && !Even(n) ==> !Even(m + n)
    ensures Even(m + 2) == Even(m) && Even(m - 2) == Even(m)
  {
  }

  lemma {:induction false} EvenShift(m: int, n: int)
    ensures Even(m + 2 * n) == Even(m)
  {
  }

  lemma {:induction false} DistParity(a: seq<string>, b: seq<string>, x: nat, y: nat)
    ensures Even(Dist(a, b, x, y) - x - y)
    decreases x + y
  {
    if x > 0 && y > 0 {
      var d := Dist(a, b, x, y);
      if d == Dist(a, b, x - 1, y) + 1 {
        DistParity(a, b, x - 1, y);
      } else if d == Dist(a, b, x, y - 1) + 1 {
        DistParity(a, b, x, y - 1);
      } else {
        DistParity(a, b, x - 1, y - 1);
        EvenShift(d - x - y, 1);
      }
    } else {
      EvenShift(0, if x == 0 then -x else -y);
    }
  }

  /** One step changes the distance by at most one. */
  lemma {:induction false} DistSteps(a: seq<string>, b: seq<string>, x: nat, y: nat)
    ensures Dist(a, b, x, y) <= Dist(a, b, x + 1, y) + 1
    ensures Dist(a, b, x, y) <= Dist(a, b, x, y + 1) + 1
    ensures Dist(a, b, x + 1, y) <= Dist(a, b, x, y) + 1
    ensures Dist(a, b, x, y + 1) <= Dist(a, b, x, y) + 1
    decreases x + y
  {
    DistBounds(a, b, x, y);
    if x > 0 { DistSteps(a, b, x - 1, y); }
    if y > 0 { DistSteps(a, b, x, y - 1); }
  }

  /** The distance never falls along a diagonal, and stays the same over a match. */
  lemma {:induction false} Diagonal(a: seq<string>, b: seq<string>, x: nat, y: nat)
    ensures Dist(a, b, x, y) <= Dist(a, b, x + 1, y + 1)
    ensures Match(a, b, x, y) ==> Dist(a, b, x + 1, y + 1) == Dist(a, b, x, y)
  {
    DistSteps(a, b, x, y);
  }

  /** Past the end of a line list only single steps are left. */
  lemma {:induction false} BeyondOld(a: seq<string>, b: seq<string>, x: nat, y: nat)
    requires x >= |a|
    ensures Dist(a, b, x, y) >= Dist(a, b, |a|, y) + (x - |a|)
    decreases x + y
  {
    if x > |a| && y > 0 {
      BeyondOld(a, b, x - 1, y);
      BeyondOld(a, b, x, y - 1);
      DistSteps(a, b, |a|, y - 1);
    }
  }

  lemma {:induction false} BeyondNew(a: seq<string>, b: seq<string>, x: nat, y: nat)
    requires y >= |b|
    ensures Dist(a, b, x, y) >= Dist(a, b, x, |b|) + (y - |b|)
    decreases x + y
  {
    if x > 0 && y > |b| {
      BeyondNew(a, b, x - 1, y);
      BeyondNew(a, b, x, y - 1);
      DistSteps(a, b, x - 1, |b|);
    }
  }

  // ---------------------------------------------------- furthest points, one round

  /** (x, x - k) is the furthest point of diagonal k within distance d. */
  predicate Furthest(a: seq<string>, b: seq<string>, d: int, k: int, x: int) {
    && 0 <= x && 0 <= x - k
    && Dist(a, b, x, x - k) <= d < Dist(a, b, x + 1, x + 1 - k)
  }

  lemma {:induction false} FurthestIsMax(a: seq<string>, b: seq<string>, d: int, k: int, x: int, z: int)
    requires Furthest(a, b, d, k, x) && z > x
    ensures Dist(a, b, z, z - k) > d
    decreases z
  {
    if z > x + 1 {
      FurthestIsMax(a, b, d, k, x, z - 1);
      Diagonal(a, b, z - 1, z - 1 - k);
    }
  }

  /** The diagonals round d visits. */
  predicate OnRound(d: int, k: int) { -d <= k <= d && Even(d - k) }

  lemma {:induction false} Neighbours(d: int, k: int)
    requires OnRound(d, k)
    ensures k != -d ==> OnRound(d - 1, k - 1)
    ensures k != d ==> OnRound(d - 1, k + 1)
  {
    EvenSum(d - k, 0);
    assert (d - 1) - (k + 1) == d - k - 2;
  }

  function VAt(v: seq<int>, offset: int, k: int): int
    requires 0 <= offset + k < |v|
  {
    v[offset + k]
  }

  /** Where round d starts on diagonal k, given what round d-1 left in v. */
  predicate GoesDown(v: seq<int>, offset: int, d: int, k: int)
    requires |v| == 2 * offset + 1 && 0 <= d <= offset && -d <= k <= d && 0 < offset
  {
    k == -d || (k != d && VAt(v, offset, k - 1) < VAt(v, offset, k + 1))
  }

  function StartX(v: seq<int>, offset: int, d: int, k: int): int
    requires |v| == 2 * offset + 1 && 0 <= d <= offset && -d <= k <= d && 0 < offset
  {
    if GoesDown(v, offset, d, k) then VAt(v, offset, k + 1) else VAt(v, offset, k - 1) + 1
  }

  /** Line i of a continues diagonal k. */
  predicate Slides(a: seq<string>, b: seq<string>, k: int, i: int) { Match(a, b, i, i - k) }

  predicate Snake(a: seq<string>, b: seq<string>, k: int, start: int, end: int) {
    start <= end && forall i :: start <= i < end ==> Slides(a, b, k, i)
  }

  /** What round d-1 leaves: the furthest points on its diagonals. */
  ghost predicate Round(a: seq<string>, b: seq<string>, offset: int, d: int, v: seq<int>) {
    && |v| == 2 * offset + 1 && 0 < offset && 0 <= d <= offset
    && (d == 0 ==> VAt(v, offset, 1) == 0)
    && (forall k {:trigger VAt(v, offset, k)} :: OnRound(d - 1, k) ==> Furthest(a, b, d - 1, k, VAt(v, offset, k)))
  }

  lemma {:induction false} OneDown(a: seq<string>, b: seq<string>, d: int, k: int, x: int)
    requires Furthest(a, b, d - 1, k + 1, x)
    ensures 0 <= x && 0 <= x - k && Dist(a, b, x, x - k) <= d
  {
    DistSteps(a, b, x, x - k - 1);
  }

  lemma {:induction false} OneRight(a: seq<string>, b: seq<string>, d: int, k: int, x: int)
    requires Furthest(a, b, d - 1, k - 1, x)
    ensures 0 <= x + 1 && 0 <= x + 1 - k && Dist(a, b, x + 1, x + 1 - k) <= d
  {
    DistSteps(a, b, x, x - k + 1);
  }

  lemma {:induction false} StartReached(a: seq<string>, b: seq<string>, offset: int, d: int, v: seq<int>, k: int)
    requires Round(a, b, offset, d, v) && OnRound(d, k)
    ensures var x := StartX(v, offset, d, k); 0 <= x && 0 <= x - k && Dist(a, b, x, x - k) <= d
  {
    if d > 0 {
      Neighbours(d, k);
      if GoesDown(v, offset, d, k) {
        OneDown(a, b, d, k, VAt(v, offset, k + 1));
      } else {
        OneRight(a, b, d, k, VAt(v, offset, k - 1));
      }
    }
  }

  lemma {:induction false} SnakeKeepsDist(a: seq<string>, b: seq<string>, k: int, start: int, end: int)
    requires 0 <= start <= end && 0 <= start - k && Snake(a, b, k, start, end)
    ensures Dist(a, b, end, end - k) == Dist(a, b, start, start - k)
    decreases end - start
  {
    if start < end {
      assert Slides(a, b, k, start);
      Diagonal(a, b, start, start - k);
      SnakeKeepsDist(a, b, k, start + 1, end);
    }
  }

  /** The left neighbour of the point after the snake is out of reach. */
  lemma {:induction false} LeftOutOfReach(a: seq<string>, b: seq<string>, offset: int, d: int, v: seq<int>, k: int, x: int)
    requires Round(a, b, offset, d, v) && OnRound(d, k)
    requires StartX(v, offset, d, k) <= x && 0 <= x && 0 <= x - k
    ensures Dist(a, b, x, x + 1 - k) > d - 1
  {
    if d > 0 && k != -d {
      Neighbours(d, k);
      FurthestIsMax(a, b, d - 1, k - 1, VAt(v, offset, k - 1), x);
    } else {
      DistBounds(a, b, x, x + 1 - k);
    }
  }

  lemma {:induction false} UpperOutOfReach(a: seq<string>, b: seq<string>, offset: int, d: int, v: seq<int>, k: int, x: int)
    requires Round(a, b, offset, d, v) && OnRound(d, k)
    requires StartX(v, offset, d, k) <= x && 0 <= x && 0 <= x - k
    ensures Dist(a, b, x + 1, x - k) > d - 1
  {
    if d > 0 && k != d {
      Neighbours(d, k);
      FurthestIsMax(a, b, d - 1, k + 1, VAt(v, offset, k + 1), x + 1);
    } else {
      DistBounds(a, b, x + 1, x - k);
    }
  }

  /** The greedy choice: following the snake from the better neighbour reaches furthest. */
  lemma {:induction false} GreedyIsFurthest(a: seq<string>, b: seq<string>, offset: int, d: int, v: seq<int>, k: int, x: int)
    requires Round(a, b, offset, d, v) && OnRound(d, k)
    requires Snake(a, b, k, StartX(v, offset, d, k), x) && !Slides(a, b, k, x)
    ensures Furthest(a, b, d, k, x)
  {
    hide Dist;
    StartReached(a, b, offset, d, v, k);
    SnakeKeepsDist(a, b, k, StartX(v, offset, d, k), x);
    LeftOutOfReach(a, b, offset, d, v, k, x);
    UpperOutOfReach(a, b, offset, d, v, k, x);
    BothOutOfReach(a, b, d, x, x - k);
  }

  lemma BothOutOfReach(a: seq<string>, b: seq<string>, d: int, x: nat, y: nat)
    requires Dist(a, b, x, y + 1) > d - 1 && Dist(a, b, x + 1, y) > d - 1 && !Match(a, b, x, y)
    ensures Dist(a, b, x + 1, y + 1) > d
  {
  }

  /** The search stops exactly at the end of both texts, at the distance between them. */
  lemma {:induction false} StopsAtEnd(a: seq<string>, b: seq<string>, d: int, k: int, x: int)
    requires Furthest(a, b, d, k, x) && x >= |a| && x - k >= |b| && Dist(a, b, |a|, |b|) >= d
    ensures x == |a| && x - k == |b| && Dist(a, b, |a|, |b|) == d
  {
    BeyondOld(a, b, x, x - k);
    BeyondNew(a, b, |a|, x - k);
  }

  /** A round that does not stop shows that the texts are further apart. */
  lemma {:induction false} NotYet(a: seq<string>, b: seq<string>, offset: int, d: int, v: seq<int>, prev: seq<int>)
    requires AllDone(Done(a, b, offset, d, prev), offset, d, v)
    ensures Dist(a, b, |a|, |b|) != d
  {
    var k := |a| - |b|;
    if OnRound(d, k) {
      var x := VAt(v, offset, k);
      assert Done(a, b, offset, d, prev)(k, x);
      ShortOfEnd(a, b, d, x);
    } else {
      OtherDiagonals(a, b, d);
    }
  }

  lemma {:induction false} ShortOfEnd(a: seq<string>, b: seq<string>, d: int, x: int)
    requires Furthest(a, b, d, |a| - |b|, x) && x < |a|
    ensures Dist(a, b, |a|, |b|) > d
  {
    FurthestIsMax(a, b, d, |a| - |b|, x, |a|);
    assert |a| - (|a| - |b|) == |b|;
  }

  /** The end of both texts lies on a diagonal of the round that reaches it. */
  lemma {:induction false} OtherDiagonals(a: seq<string>, b: seq<string>, d: int)
    requires !OnRound(d, |a| - |b|)
    ensures Dist(a, b, |a|, |b|) != d
  {
    var e := Dist(a, b, |a|, |b|);
    DistBounds(a, b, |a|, |b|);
    DistParity(a, b, |a|, |b|);
    EvenShift(e - |a| - |b|, |b|);
    assert Even(e - (|a| - |b|));
  }

  // -------------------------------------------------------------- the search

  /** What a whole round records: where the snake starts, and that it reaches furthest. */
  ghost predicate Recorded(a: seq<string>, b: seq<string>, offset: int, d: int, k: int, v: seq<int>, x: int) {
    && Round(a, b, offset, d, v) && OnRound(d, k)
    && Snake(a, b, k, StartX(v, offset, d, k), x)
    && Furthest(a, b, d, k, x)
  }

  /** Diagonals -d .. d of round d; v holds the furthest points of the previous round. */
  method ExploreRound(a: seq<string>, b: seq<string>, offset: int, d: int, v: array<int>) returns (found: bool)
    requires Round(a, b, offset, d, v[..]) && Dist(a, b, |a|, |b|) >= d
    modifies v
    ensures !found ==> Dist(a, b, |a|, |b|) > d && AllDone(Done(a, b, offset, d, old(v[..])), offset, d, v[..])
    ensures found ==> Recorded(a, b, offset, d, |a| - |b|, old(v[..]), |a|) && Dist(a, b, |a|, |b|) == d
  {
    ghost var prev := v[..];
    ghost var done := Done(a, b, offset, d, prev);
    EvenShift(0, d);
    var k := -d;
    while k <= d
      invariant -d <= k <= d + 2 && Even(d - k)
      invariant Earlier(done, offset, d, k, prev, v[..])
    {
      assert OnRound(d, k);
      SameStart(done, offset, d, k, prev, v[..]);
      ghost var before := v[..];
      var x := ExploreDiagonal(a, b, offset, d, k, v, prev);
      if x >= |a| && x - k >= |b| {
        FoundEnd(a, b, offset, d, prev, k, x);
        return true;
      }
      GoesOn(a, b, offset, d, prev, k, x);
      EarlierStep(done, offset, d, k, prev, before, x);
      k := k + 2;
    }
    RoundDone(done, offset, d, k, prev, v[..]);
    NotYet(a, b, offset, d, v[..], prev);
    return false;
  }

  /** One diagonal: the better neighbour, then the snake. */
  method ExploreDiagonal(a: seq<string>, b: seq<string>, offset: int, d: int, k: int, v: array<int>, ghost prev: seq<int>)
    returns (x: int)
    requires Round(a, b, offset, d, prev) && OnRound(d, k) && v.Length == 2 * offset + 1
    requires StartX(v[..], offset, d, k) == StartX(prev, offset, d, k)
    modifies v
    ensures v[..] == old(v[..])[offset + k := x]
    ensures Found(a, b, offset, d, prev)(k, x)
  {
    StartReached(a, b, offset, d, prev, k);
    if k == -d || (k != d && v[offset + k - 1] < v[offset + k + 1]) {
      x := v[offset + k + 1];
    } else {
      x := v[offset + k - 1] + 1;
    }
    x := Slide(a, b, k, x);
    GreedyIsFurthest(a, b, offset, d, prev, k, x);
    v[offset + k] := x;
  }

  ghost function Found(a: seq<string>, b: seq<string>, offset: int, d: int, prev: seq<int>): (int, int) -> bool {
    (j, x) => Recorded(a, b, offset, d, j, prev, x)
  }

  lemma {:induction false} FoundEnd(a: seq<string>, b: seq<string>, offset: int, d: int, prev: seq<int>, k: int, x: int)
    requires Found(a, b, offset, d, prev)(k, x) && x >= |a| && x - k >= |b| && Dist(a, b, |a|, |b|) >= d
    ensures Recorded(a, b, offset, d, |a| - |b|, prev, |a|) && Dist(a, b, |a|, |b|) == d
  {
    StopsAtEnd(a, b, d, k, x);
  }

  lemma {:induction false} GoesOn(a: seq<string>, b: seq<string>, offset: int, d: int, prev: seq<int>, k: int, x: int)
    requires Found(a, b, offset, d, prev)(k, x) && (x < |a| || x - k < |b|)
    ensures Done(a, b, offset, d, prev)(k, x)
  {
  }

  /** Round d found (j, x) and did not stop there. */
  ghost function Done(a: seq<string>, b: seq<string>, offset: int, d: int, prev: seq<int>): (int, int) -> bool {
    (j, x) => Recorded(a, b, offset, d, j, prev, x) && (x < |a| || x - j < |b|)
  }

  ghost predicate AllDone(done: (int, int) -> bool, offset: int, d: int, v: seq<int>) {
    && |v| == 2 * offset + 1 && 0 <= d <= offset
    && forall j {:trigger VAt(v, offset, j)} :: OnRound(d, j) ==> done(j, VAt(v, offset, j))
  }

  /** Round d has done the diagonals before k and left those of round d-1 alone. */
  ghost predicate Earlier(done: (int, int) -> bool, offset: int, d: int, k: int, prev: seq<int>, v: seq<int>) {
    && |v| == |prev| == 2 * offset + 1 && 0 < offset && 0 <= d <= offset
    && (forall j {:trigger VAt(v, offset, j)} :: OnRound(d, j) && j < k ==> done(j, VAt(v, offset, j)))
    && (forall j {:trigger VAt(v, offset, j)} :: OnRound(d - 1, j) ==> VAt(v, offset, j) == VAt(prev, offset, j))
    && (k == -d ==> v == prev)
  }

  lemma {:induction false} EarlierStep(done: (int, int) -> bool, offset: int, d: int, k: int, prev: seq<int>, v: seq<int>, x: int)
    requires Earlier(done, offset, d, k, prev, v) && OnRound(d, k) && done(k, x)
    ensures Earlier(done, offset, d, k + 2, prev, v[offset + k := x])
  {
    var w := v[offset + k := x];
    forall j | OnRound(d, j) && j < k + 2
      ensures done(j, VAt(w, offset, j))
    {
      if j != k { var y := VAt(v, offset, j); }
    }
    forall j | OnRound(d - 1, j)
      ensures VAt(w, offset, j) == VAt(prev, offset, j)
    {
      var y := VAt(v, offset, j);
    }
  }

  lemma {:induction false} RoundDone(done: (int, int) -> bool, offset: int, d: int, k: int, prev: seq<int>, v: seq<int>)
    requires Earlier(done, offset, d, k, prev, v) && k > d
    ensures AllDone(done, offset, d, v)
  {
  }

  lemma {:induction false} SameStart(done: (int, int) -> bool, offset: int, d: int, k: int, prev: seq<int>, v: seq<int>)
    requires Earlier(done, offset, d, k, prev, v) && OnRound(d, k)
    ensures StartX(v, offset, d, k) == StartX(prev, offset, d, k)
  {
    Neighbours(d, k);
  }

  method Slide(a: seq<string>, b: seq<string>, k: int, start: int) returns (x: int)
    requires 0 <= start && 0 <= start - k
    ensures Snake(a, b, k, start, x) && !Slides(a, b, k, x)
  {
    x := start;
    var y := x - k;
    while x < |a| && y < |b| && a[x] == b[y]
      invariant y == x - k && Snake(a, b, k, start, x)
      decreases |a| - x
    {
      assert Slides(a, b, k, x);
      x := x + 1;
      y := y + 1;
    }
  }

  /** Round d+1 may start from what round d left. */
  lemma {:induction false} NextRound(a: seq<string>, b: seq<string>, offset: int, d: int, v: seq<int>, prev: seq<int>)
    requires AllDone(Done(a, b, offset, d, prev), offset, d, v) && 0 < offset && d + 1 <= offset
    ensures Round(a, b, offset, d + 1, v)
  {
    forall k | OnRound(d, k)
      ensures Furthest(a, b, d, k, VAt(v, offset, k))
    {
      assert Done(a, b, offset, d, prev)(k, VAt(v, offset, k));
    }
  }

  /** trace[d] is the state before round d: it starts well and each round did its diagonals. */
  ghost predicate TraceOk(a: seq<string>, b: seq<string>, offset: int, trace: seq<seq<int>>) {
    && (|trace| > 0 ==> Round(a, b, offset, 0, trace[0]))
    && (forall d :: 1 <= d < |trace| ==> RoundOk(a, b, offset, trace, d))
  }

  ghost predicate RoundOk(a: seq<string>, b: seq<string>, offset: int, trace: seq<seq<int>>, d: int)
    requires 1 <= d < |trace|
  {
    AllDone(Done(a, b, offset, d - 1, trace[d - 1]), offset, d - 1, trace[d])
  }

  // ------------------------------------------------------- the script as a function

  /** Where the snake from x ends. */
  function SlideTo(a: seq<string>, b: seq<string>, k: int, x: int): int
    decreases |a| - x
  {
    if Slides(a, b, k, x) then SlideTo(a, b, k, x + 1) else x
  }

  /** How far round d gets on diagonal k, and whether it comes there by a step down. */
  function Reach(a: seq<string>, b: seq<string>, d: nat, k: int): int
    decreases d, 1
  {
    SlideTo(a, b, k, if d == 0 then 0 else if Down(a, b, d, k) then Reach(a, b, d - 1, k + 1) else Reach(a, b, d - 1, k - 1) + 1)
  }

  predicate Down(a: seq<string>, b: seq<string>, d: nat, k: int)
    requires d > 0
    decreases d, 0
  {
    k + d == 0 || (k != d && Reach(a, b, d - 1, k - 1) < Reach(a, b, d - 1, k + 1))
  }

  function At(lines: seq<string>, i: int): string { if 0 <= i < |lines| then lines[i] else "" }

  /** Lines i up to j, unchanged. */
  function Same(a: seq<string>, i: int, j: int): seq<Edit>
    decreases j - i
  {
    if i >= j then [] else [Edit(OpEqual, At(a, i))] + Same(a, i + 1, j)
  }

  /** The way to (x, y), which round d reached. */
  function Path(a: seq<string>, b: seq<string>, d: nat, x: int, y: int): seq<Edit> {
    if d == 0 then Same(a, 0, x)
    else
      var k := x - y;
      if Down(a, b, d, k) then
        var p := Reach(a, b, d - 1, k + 1);
        Path(a, b, d - 1, p, p - k - 1) + ([Edit(OpInsert, At(b, p - k - 1))] + Same(a, p, x))
      else
        var p := Reach(a, b, d - 1, k - 1);
        Path(a, b, d - 1, p, p - k + 1) + ([Edit(OpDelete, At(a, p))] + Same(a, p + 1, x))
  }

  function Only(op: Op, lines: seq<string>): seq<Edit> {
    if lines == [] then [] else Only(op, lines[..|lines| - 1]) + [Edit(op, lines[|lines| - 1])]
  }

  /** The one script the code returns. */
  function Script(a: seq<string>, b: seq<string>): seq<Edit> {
    if a == [] then Only(OpInsert, b)
    else if b == [] then Only(OpDelete, a)
    else Path(a, b, Dist(a, b, |a|, |b|), |a|, |b|)
  }

  lemma {:induction false} SlideToIsSnake(a: seq<string>, b: seq<string>, k: int, x: int)
    ensures Snake(a, b, k, x, SlideTo(a, b, k, x)) && !Slides(a, b, k, SlideTo(a, b, k, x))
    decreases |a| - x
  {
    if Slides(a, b, k, x) { SlideToIsSnake(a, b, k, x + 1); }
  }

  lemma FurthestUnique(a: seq<string>, b: seq<string>, d: int, k: int, x: int, y: int)
    requires Furthest(a, b, d, k, x) && Furthest(a, b, d, k, y)
    ensures x == y
  {
    if x < y { FurthestIsMax(a, b, d, k, x, y); }
    if y < x { FurthestIsMax(a, b, d, k, y, x); }
  }

  /** What round d-1 left is what Reach says. */
  ghost predicate Agrees(a: seq<string>, b: seq<string>, offset: int, d: int, v: seq<int>) {
    && |v| == 2 * offset + 1 && 0 < d <= offset
    && forall k {:trigger VAt(v, offset, k)} :: OnRound(d - 1, k) ==> VAt(v, offset, k) == Reach(a, b, d - 1, k)
  }

  lemma SameChoice(a: seq<string>, b: seq<string>, offset: int, d: int, v: seq<int>, k: int)
    requires Agrees(a, b, offset, d, v) && OnRound(d, k)
    ensures GoesDown(v, offset, d, k) == Down(a, b, d, k)
    ensures k != -d ==> VAt(v, offset, k - 1) == Reach(a, b, d - 1, k - 1)
    ensures k != d ==> VAt(v, offset, k + 1) == Reach(a, b, d - 1, k + 1)
  {
    hide Reach;
    Neighbours(d, k);
    if k != -d { var x := VAt(v, offset, k - 1); }
    if k != d { var x := VAt(v, offset, k + 1); }
  }

  /** Reach gives the furthest points. */
  lemma {:induction false} ReachIsFurthest(a: seq<string>, b: seq<string>, d: nat, k: int)
    requires OnRound(d, k)
    ensures Furthest(a, b, d, k, Reach(a, b, d, k))
    decreases d
  {
    var offset := d + 1;
    var v := seq(2 * offset + 1, i => if d == 0 then 0 else Reach(a, b, d - 1, i - offset));
    forall j | OnRound(d - 1, j) ensures Furthest(a, b, d - 1, j, VAt(v, offset, j)) { ReachIsFurthest(a, b, d - 1, j); }
    var start := StartX(v, offset, d, k);
    ReachStarts(a, b, offset, d, v, k);
    hide Reach, SlideTo;
    SlideToIsSnake(a, b, k, start);
    GreedyIsFurthest(a, b, offset, d, v, k, SlideTo(a, b, k, start));
  }

  lemma ReachStarts(a: seq<string>, b: seq<string>, offset: int, d: nat, v: seq<int>, k: int)
    requires OnRound(d, k) && |v| == 2 * offset + 1 && d < offset
    requires forall i :: 0 <= i < |v| ==> v[i] == if d == 0 then 0 else Reach(a, b, d - 1, i - offset)
    ensures Reach(a, b, d, k) == SlideTo(a, b, k, StartX(v, offset, d, k))
  {
  }

  lemma RoundAgrees(a: seq<string>, b: seq<string>, offset: int, d: int, v: seq<int>)
    requires Round(a, b, offset, d, v) && d > 0
    ensures Agrees(a, b, offset, d, v)
  {
    forall k | OnRound(d - 1, k) ensures VAt(v, offset, k) == Reach(a, b, d - 1, k) {
      ReachIsFurthest(a, b, d - 1, k);
      FurthestUnique(a, b, d - 1, k, VAt(v, offset, k), Reach(a, b, d - 1, k));
    }
  }

  /** The edits come before what was there, read backwards. */
  ghost predicate Adds(scripts0: seq<Edit>, scripts: seq<Edit>, edits: seq<Edit>) {
    Reversed(scripts) == edits + Reversed(scripts0)
  }

  lemma AddsOne(scripts0: seq<Edit>, scripts: seq<Edit>, edits: seq<Edit>, e: Edit)
    requires Adds(scripts0, scripts, edits)
    ensures Adds(scripts0, scripts + [e], [e] + edits)
  {
    Push(scripts, e);
    assert [e] + (edits + Reversed(scripts0)) == ([e] + edits) + Reversed(scripts0);
  }

  lemma AddsNothing(a: seq<string>, scripts: seq<Edit>, x: int)
    ensures Adds(scripts, scripts, Same(a, x, x))
  {
    assert Reversed(scripts) == [] + Reversed(scripts);
  }

  lemma AddsSame(a: seq<string>, scripts0: seq<Edit>, scripts: seq<Edit>, x: int, x0: int)
    requires 0 < x <= |a| && x <= x0 && Adds(scripts0, scripts, Same(a, x, x0))
    ensures Adds(scripts0, scripts + [Edit(OpEqual, a[x - 1])], Same(a, x - 1, x0))
  {
    hide Adds;
    AddsOne(scripts0, scripts, Same(a, x, x0), Edit(OpEqual, a[x - 1]));
  }

  // ---------------------------------------------------------------- backtracking

  function Reversed(s: seq<Edit>): seq<Edit> {
    if s == [] then [] else [s[|s| - 1]] + Reversed(s[..|s| - 1])
  }

  /** Read backwards, the script so far is a shortest one for what follows (x, y). */
  ghost predicate Covers(scripts: seq<Edit>, a: seq<string>, b: seq<string>, x: int, y: int, cost: int) {
    && 0 <= x <= |a| && 0 <= y <= |b|
    && OldSide(Reversed(scripts)) == a[x..]
    && NewSide(Reversed(scripts)) == b[y..]
    && Cost(Reversed(scripts)) == cost
  }

  lemma {:induction false} Push(scripts: seq<Edit>, e: Edit)
    ensures Reversed(scripts + [e]) == [e] + Reversed(scripts)
    ensures OldSide(Reversed(scripts + [e])) == (if e.op.OpInsert? then [] else [e.line]) + OldSide(Reversed(scripts))
    ensures NewSide(Reversed(scripts + [e])) == (if e.op.OpDelete? then [] else [e.line]) + NewSide(Reversed(scripts))
    ensures Cost(Reversed(scripts + [e])) == (if e.op.OpEqual? then 0 else 1) + Cost(Reversed(scripts))
  {
    assert (scripts + [e])[..|scripts|] == scripts;
    assert ([e] + Reversed(scripts))[1..] == Reversed(scripts);
  }

  lemma {:induction false} PushEqual(scripts: seq<Edit>, a: seq<string>, b: seq<string>, x: int, y: int, cost: int)
    requires Covers(scripts, a, b, x, y, cost) && Match(a, b, x - 1, y - 1)
    ensures Covers(scripts + [Edit(OpEqual, a[x - 1])], a, b, x - 1, y - 1, cost)
  {
    Push(scripts, Edit(OpEqual, a[x - 1]));
  }

  lemma {:induction false} PushDelete(scripts: seq<Edit>, a: seq<string>, b: seq<string>, x: int, y: int, cost: int)
    requires Covers(scripts, a, b, x, y, cost) && x > 0
    ensures Covers(scripts + [Edit(OpDelete, a[x - 1])], a, b, x - 1, y, cost + 1)
  {
    Push(scripts, Edit(OpDelete, a[x - 1]));
  }

  lemma {:induction false} PushInsert(scripts: seq<Edit>, a: seq<string>, b: seq<string>, x: int, y: int, cost: int)
    requires Covers(scripts, a, b, x, y, cost) && y > 0
    ensures Covers(scripts + [Edit(OpInsert, b[y - 1])], a, b, x, y - 1, cost + 1)
  {
    Push(scripts, Edit(OpInsert, b[y - 1]));
  }

  /** Follows a snake back to the point start, never past it. */
  method UnwindSnake(a: seq<string>, b: seq<string>, k: int, prevX: int, prevY: int, ghost start: int,
                     scripts0: seq<Edit>, x0: int, y0: int, ghost cost: int)
    returns (scripts: seq<Edit>, x: int, y: int)
    requires Covers(scripts0, a, b, x0, y0, cost) && y0 == x0 - k && Snake(a, b, k, start, x0)
    requires (start == prevX && prevY < start - k) || (start > prevX && prevY == start - k)
    ensures Covers(scripts, a, b, x, y, cost) && x == start && y == start - k
    ensures Adds(scripts0, scripts, Same(a, start, x0))
  {
    scripts, x, y := scripts0, x0, y0;
    AddsNothing(a, scripts0, x0);
    hide Adds, Same, Covers;
    while x > prevX && y > prevY
      invariant Covers(scripts, a, b, x, y, cost) && y == x - k && start <= x <= x0
      invariant Adds(scripts0, scripts, Same(a, x, x0))
    {
      assert Slides(a, b, k, x - 1);
      PushEqual(scripts, a, b, x, y, cost);
      AddsSame(a, scripts0, scripts, x, x0);
      scripts := scripts + [Edit(OpEqual, a[x - 1])];
      x, y := x - 1, y - 1;
    }
  }

  /** One round back: the snake, then the single step before it. */
  method StepBack(v: seq<int>, a: seq<string>, b: seq<string>, dd: int, offset: int,
                  scripts0: seq<Edit>, x0: int, y0: int, ghost cost: int)
    returns (scripts: seq<Edit>, x: int, y: int)
    requires Entered(a, b, offset, dd, x0 - y0, v, x0) && Covers(scripts0, a, b, x0, y0, cost)
    ensures Covers(scripts, a, b, x, y, cost + 1)
    ensures OnRound(dd - 1, x - y) && x == VAt(v, offset, x - y)
    ensures Agrees(a, b, offset, dd, v) ==> Retraces(a, b, dd, x0, y0, x, y, scripts0, scripts)
  {
    hide Agrees, Retraces, Adds, Same;
    var k := x0 - y0;
    var prevK;
    if k == -dd || (k != dd && v[offset + k - 1] < v[offset + k + 1]) {
      prevK := k + 1;
    } else {
      prevK := k - 1;
    }
    var prevX := v[offset + prevK];
    var prevY := prevX - prevK;
    scripts, x, y := UnwindSnake(a, b, k, prevX, prevY, StartX(v, offset, dd, k), scripts0, x0, y0, cost);
    ghost var mid := scripts;
    if x > prevX {
      PushDelete(scripts, a, b, x, y, cost);
      scripts := scripts + [Edit(OpDelete, a[x - 1])];
      x := x - 1;
    } else if y > prevY {
      PushInsert(scripts, a, b, x, y, cost);
      scripts := scripts + [Edit(OpInsert, b[y - 1])];
      y := y - 1;
    }
    if Agrees(a, b, offset, dd, v) { StepDone(v, a, b, dd, offset, scripts0, mid, scripts, x0, y0, x, y); }
  }

  lemma StepDone(v: seq<int>, a: seq<string>, b: seq<string>, d: int, offset: int, scripts0: seq<Edit>, mid: seq<Edit>,
                 scripts: seq<Edit>, x0: int, y0: int, x: int, y: int)
    requires |v| == 2 * offset + 1 && 0 < d <= offset && -d <= x0 - y0 <= d
    requires Agrees(a, b, offset, d, v) && OnRound(d, x0 - y0)
    requires Adds(scripts0, mid, Same(a, StartX(v, offset, d, x0 - y0), x0))
    requires var k := x0 - y0; var start := StartX(v, offset, d, k);
      if GoesDown(v, offset, d, k)
      then x == start && y == start - k - 1 && 0 <= y < |b| && scripts == mid + [Edit(OpInsert, b[y])]
      else x == start - 1 && y == start - k && 0 <= x < |a| && scripts == mid + [Edit(OpDelete, a[x])]
    ensures Retraces(a, b, d, x0, y0, x, y, scripts0, scripts)
  {
    hide Agrees, Retraces, Adds, Same, OnRound;
    StepRetraces(v, a, b, d, offset, scripts0, mid, x0, y0);
  }

  /** Going one round back, the path gets shorter by what the script gets longer. */
  ghost predicate Retraces(a: seq<string>, b: seq<string>, d: int, x0: int, y0: int, x: int, y: int, scripts0: seq<Edit>, scripts: seq<Edit>) {
    d > 0 && Path(a, b, d, x0, y0) + Reversed(scripts0) == Path(a, b, d - 1, x, y) + Reversed(scripts)
  }

  /** The single step that enters diagonal k at start. */
  function Enters(a: seq<string>, b: seq<string>, k: int, start: int, down: bool): Edit {
    if down then Edit(OpInsert, At(b, start - k - 1)) else Edit(OpDelete, At(a, start - 1))
  }

  lemma PathStep(a: seq<string>, b: seq<string>, d: nat, x: int, y: int, start: int, down: bool)
    requires d > 0 && down == Down(a, b, d, x - y)
    requires start == if down then Reach(a, b, d - 1, x - y + 1) else Reach(a, b, d - 1, x - y - 1) + 1
    ensures Path(a, b, d, x, y) ==
            Path(a, b, d - 1, if down then start else start - 1, if down then start - (x - y) - 1 else start - (x - y))
            + ([Enters(a, b, x - y, start, down)] + Same(a, start, x))
  {
    hide Reach, Down, Same;
  }

  lemma Regroup(before: seq<Edit>, step: seq<Edit>, rest: seq<Edit>)
    ensures (before + step) + rest == before + (step + rest)
  {
  }

  lemma StartIsReach(a: seq<string>, b: seq<string>, offset: int, d: int, v: seq<int>, k: int)
    requires |v| == 2 * offset + 1 && 0 < d <= offset && -d <= k <= d
    requires Agrees(a, b, offset, d, v) && OnRound(d, k)
    ensures GoesDown(v, offset, d, k) == Down(a, b, d, k)
    ensures StartX(v, offset, d, k) == if Down(a, b, d, k) then Reach(a, b, d - 1, k + 1) else Reach(a, b, d - 1, k - 1) + 1
  {
    hide Reach, Agrees;
    SameChoice(a, b, offset, d, v, k);
  }

  lemma StepRetraces(v: seq<int>, a: seq<string>, b: seq<string>, d: int, offset: int, scripts0: seq<Edit>, mid: seq<Edit>, x0: int, y0: int)
    requires |v| == 2 * offset + 1 && 0 < d <= offset && -d <= x0 - y0 <= d
    requires Agrees(a, b, offset, d, v) && OnRound(d, x0 - y0)
    requires Adds(scripts0, mid, Same(a, StartX(v, offset, d, x0 - y0), x0))
    ensures var k := x0 - y0; var start, down := StartX(v, offset, d, k), GoesDown(v, offset, d, k);
      Retraces(a, b, d, x0, y0, if down then start else start - 1, if down then start - k - 1 else start - k,
               scripts0, mid + [Enters(a, b, k, start, down)])
  {
    hide *;
    var k := x0 - y0;
    StartIsReach(a, b, offset, d, v, k);
    var start, down := StartX(v, offset, d, k), GoesDown(v, offset, d, k);
    var e, same := Enters(a, b, k, start, down), Same(a, start, x0);
    PathStep(a, b, d, x0, y0, start, down);
    AddsOne(scripts0, mid, same, e);
    Retraced(a, b, d, x0, y0, if down then start else start - 1, if down then start - k - 1 else start - k,
             scripts0, mid + [e], [e] + same);
  }

  lemma Retraced(a: seq<string>, b: seq<string>, d: int, x0: int, y0: int, x: int, y: int, scripts0: seq<Edit>, scripts: seq<Edit>, step: seq<Edit>)
    requires d > 0 && Path(a, b, d, x0, y0) == Path(a, b, d - 1, x, y) + step && Adds(scripts0, scripts, step)
    ensures Retraces(a, b, d, x0, y0, x, y, scripts0, scripts)
  {
    hide Path;
    Regroup(Path(a, b, d - 1, x, y), step, Reversed(scripts0));
  }

  /** The snake to (x, x - k) and the point of the round before that it was entered from. */
  ghost predicate Entered(a: seq<string>, b: seq<string>, offset: int, d: int, k: int, v: seq<int>, x: int) {
    && |v| == 2 * offset + 1 && 0 < d <= offset && OnRound(d, k)
    && Snake(a, b, k, StartX(v, offset, d, k), x)
    && var prevK := if GoesDown(v, offset, d, k) then k + 1 else k - 1;
       OnRound(d - 1, prevK) && 0 <= VAt(v, offset, prevK) && 0 <= VAt(v, offset, prevK) - prevK
  }

  lemma {:induction false} Predecessor(a: seq<string>, b: seq<string>, offset: int, trace: seq<seq<int>>, d: int, k: int, x: int)
    requires Reached(a, b, offset, trace, d, k, x) && d > 0
    ensures d < |trace| && Entered(a, b, offset, d, k, trace[d], x)
  {
    var v := trace[d];
    Neighbours(d, k);
    var prevK := if GoesDown(v, offset, d, k) then k + 1 else k - 1;
    assert Furthest(a, b, d - 1, prevK, VAt(v, offset, prevK));
  }

  lemma {:induction false} EarlierRound(a: seq<string>, b: seq<string>, offset: int, trace: seq<seq<int>>, d: int, k: int)
    requires TraceOk(a, b, offset, trace) && 1 <= d < |trace| && OnRound(d - 1, k) && |trace[d]| == 2 * offset + 1 && d <= offset
    ensures Reached(a, b, offset, trace, d - 1, k, VAt(trace[d], offset, k))
  {
    var x := VAt(trace[d], offset, k);
    assert RoundOk(a, b, offset, trace, d);
    assert Done(a, b, offset, d - 1, trace[d - 1])(k, x);
  }

  ghost predicate Reached(a: seq<string>, b: seq<string>, offset: int, trace: seq<seq<int>>, d: int, k: int, x: int) {
    0 <= d < |trace| && Recorded(a, b, offset, d, k, trace[d], x)
  }

  lemma {:induction false} FirstSnake(a: seq<string>, b: seq<string>, offset: int, trace: seq<seq<int>>, k: int, x: int)
    requires Reached(a, b, offset, trace, 0, k, x)
    ensures k == 0 && Snake(a, b, 0, 0, x)
  {
  }

  method Backtrack(trace: seq<seq<int>>, a: seq<string>, b: seq<string>, d: int, offset: int) returns (ses: seq<Edit>)
    requires 0 <= d && |trace| == d + 1 && TraceOk(a, b, offset, trace) && Reached(a, b, offset, trace, d, |a| - |b|, |a|)
    ensures Transforms(ses, a, b) && Cost(ses) == d && ses == Path(a, b, d, |a|, |b|)
  {
    hide TraceOk, Reached, Covers, Path, Agrees;
    var x, y := |a|, |b|;
    var scripts: seq<Edit> := [];
    CoversNothing(a, b);
    var dd := d;
    while dd > 0
      invariant 0 <= dd <= d
      invariant Covers(scripts, a, b, x, y, d - dd)
      invariant Reached(a, b, offset, trace, dd, x - y, x)
      invariant Path(a, b, d, |a|, |b|) == Path(a, b, dd, x, y) + Reversed(scripts)
    {
      Predecessor(a, b, offset, trace, dd, x - y, x);
      ReachedAgrees(a, b, offset, trace, dd, x - y, x);
      scripts, x, y := StepBack(trace[dd], a, b, dd, offset, scripts, x, y, d - dd);
      EarlierRound(a, b, offset, trace, dd, x - y);
      dd := dd - 1;
    }
    FirstSnake(a, b, offset, trace, x - y, x);
    FirstPath(a, b, x, y);
    scripts := UnwindFirst(a, b, scripts, x, d);
    ses := Reverse(scripts);
  }

  lemma FirstPath(a: seq<string>, b: seq<string>, x: int, y: int)
    ensures Path(a, b, 0, x, y) == Same(a, 0, x)
  {
  }

  lemma ReachedAgrees(a: seq<string>, b: seq<string>, offset: int, trace: seq<seq<int>>, d: int, k: int, x: int)
    requires Reached(a, b, offset, trace, d, k, x) && d > 0
    ensures d < |trace| && Agrees(a, b, offset, d, trace[d])
  {
    RoundAgrees(a, b, offset, d, trace[d]);
  }

  lemma CoversNothing(a: seq<string>, b: seq<string>)
    ensures Covers([], a, b, |a|, |b|, 0)
  {
  }

  /** The leading common lines. */
  method UnwindFirst(a: seq<string>, b: seq<string>, scripts0: seq<Edit>, x0: int, ghost d: int) returns (scripts: seq<Edit>)
    requires Covers(scripts0, a, b, x0, x0, d) && Snake(a, b, 0, 0, x0)
    ensures Transforms(Reversed(scripts), a, b) && Cost(Reversed(scripts)) == d
    ensures Adds(scripts0, scripts, Same(a, 0, x0))
  {
    scripts := scripts0;
    var x, y := x0, x0;
    AddsNothing(a, scripts0, x0);
    hide Adds, Same;
    while x > 0 && y > 0
      invariant 0 <= x == y <= x0 && Covers(scripts, a, b, x, y, d)
      invariant Adds(scripts0, scripts, Same(a, x, x0))
    {
      assert Slides(a, b, 0, x - 1);
      PushEqual(scripts, a, b, x, y, d);
      AddsSame(a, scripts0, scripts, x, x0);
      scripts := scripts + [Edit(OpEqual, a[x - 1])];
      x, y := x - 1, y - 1;
    }
  }

  lemma {:induction false} ReversedAt(s: seq<Edit>, i: int)
    requires 0 <= i < |s|
    ensures |Reversed(s)| == |s| && Reversed(s)[i] == s[|s| - 1 - i]
    decreases |s|
  {
    if |s| > 1 { ReversedAt(s[..|s| - 1], if i > 0 then i - 1 else 0); }
  }

  /** The swap loop that puts the script in reading order. */
  method Reverse(s: seq<Edit>) returns (r: seq<Edit>)
    ensures r == Reversed(s)
  {
    r := s;
    var i, j := 0, |s| - 1;
    while i < j
      invariant 0 <= i && i + j == |s| - 1 && |r| == |s| && i <= j + 2
      invariant forall p {:trigger r[p]} :: 0 <= p < |s| ==> r[p] == if p < i || p > j then s[|s| - 1 - p] else s[p]
    {
      r := r[i := r[j]][j := r[i]];
      i, j := i + 1, j - 1;
    }
    if s != [] { ReversedAt(s, 0); }
    forall p | 0 <= p < |s| ensures r[p] == Reversed(s)[p] { ReversedAt(s, p); }
  }

  /** The script turns a into b, and no script that does has fewer deletions and insertions. */
  method MyersDiff(a: seq<string>, b: seq<string>) returns (ses: seq<Edit>)
    ensures ses == Script(a, b)
    ensures Transforms(ses, a, b)
    ensures forall s :: Transforms(s, a, b) ==> Cost(ses) <= Cost(s)
  {
    DistIsLeast(a, b);
    if |a| == 0 && |b| == 0 { return []; }
    if |a| == 0 {
      ses := Fill(OpInsert, b);
      OnlySides(OpInsert, b);
      return;
    }
    if |b| == 0 {
      ses := Fill(OpDelete, a);
      OnlySides(OpDelete, a);
      return;
    }
    ses := Search(a, b);
  }

  /** The rounds of the search, with the trace of what each one started from. */
  method Search(a: seq<string>, b: seq<string>) returns (ses: seq<Edit>)
    requires |a| > 0 && |b| > 0
    ensures Transforms(ses, a, b) && Cost(ses) == Dist(a, b, |a|, |b|) && ses == Path(a, b, Dist(a, b, |a|, |b|), |a|, |b|)
  {
    var n, m := |a|, |b|;
    var max := n + m;
    var offset := max;
    var v := new int[2 * max + 1](_ => 0);
    var trace: seq<seq<int>> := [];
    DistBounds(a, b, n, m);
    for d := 0 to max + 1
      invariant v.Length == 2 * max + 1 && |trace| == d && Dist(a, b, n, m) >= d
      invariant TraceOk(a, b, offset, trace + [v[..]])
      invariant d <= max ==> Round(a, b, offset, d, v[..])
    {
      trace := trace + [v[..]];
      var found := ExploreRound(a, b, offset, d, v);
      if found {
        ses := Backtrack(trace, a, b, d, offset);
        return;
      }
      ExtendTrace(a, b, offset, trace, v[..]);
      if d < max { NextRound(a, b, offset, d, v[..], trace[d]); }
    }
    assert false;
  }

  lemma {:induction false} ExtendTrace(a: seq<string>, b: seq<string>, offset: int, trace: seq<seq<int>>, v: seq<int>)
    requires |trace| > 0 && TraceOk(a, b, offset, trace)
    requires AllDone(Done(a, b, offset, |trace| - 1, trace[|trace| - 1]), offset, |trace| - 1, v)
    ensures TraceOk(a, b, offset, trace + [v])
  {
    var t := trace + [v];
    forall d | 1 <= d < |t|
      ensures RoundOk(a, b, offset, t, d)
    {
      assert t[d - 1] == trace[d - 1];
      if d < |trace| { assert RoundOk(a, b, offset, trace, d) && t[d] == trace[d]; }
    }
  }

  /** A script of one kind of edit only. */
  method Fill(op: Op, lines: seq<string>) returns (ses: seq<Edit>)
    requires !op.OpEqual?
    ensures ses == Only(op, lines)
  {
    ses := [];
    for i := 0 to |lines|
      invariant ses == Only(op, lines[..i])
    {
      assert lines[..i + 1][..i] == lines[..i];
      ses := ses + [Edit(op, lines[i])];
    }
    assert lines[..|lines|] == lines;
  }

  lemma {:induction false} OnlySides(op: Op, lines: seq<string>)
    requires !op.OpEqual?
    ensures OldSide(Only(op, lines)) == (if op.OpDelete? then lines else [])
    ensures NewSide(Only(op, lines)) == (if op.OpInsert? then lines else [])
    ensures Cost(Only(op, lines)) == |lines|
    decreases |lines|
  {
    if lines != [] {
      var init, last := lines[..|lines| - 1], lines[|lines| - 1];
      OnlySides(op, init);
      SidesAppend(Only(op, init), Edit(op, last));
      assert lines == init + [last];
    }
  }

  // ------------------------------------------------------------------ optimality

  lemma {:induction false} SidesAppend(s: seq<Edit>, e: Edit)
    ensures OldSide(s + [e]) == OldSide(s) + (if e.op.OpInsert? then [] else [e.line])
    ensures NewSide(s + [e]) == NewSide(s) + (if e.op.OpDelete? then [] else [e.line])
    ensures Cost(s + [e]) == Cost(s) + (if e.op.OpEqual? then 0 else 1)
  {
    if s != [] {
      SidesAppend(s[1..], e);
      assert (s + [e])[1..] == s[1..] + [e];
    }
  }

  /** No script is cheaper than the distance. */
  lemma {:induction false} ScriptCostsAtLeast(s: seq<Edit>, a: seq<string>, b: seq<string>)
    requires OldSide(s) <= a && NewSide(s) <= b
    ensures Cost(s) >= Dist(a, b, |OldSide(s)|, |NewSide(s)|)
    decreases |s|
  {
    if s != [] {
      var r, e := s[..|s| - 1], s[|s| - 1];
      assert s == r + [e];
      SidesAppend(r, e);
      ScriptCostsAtLeast(r, a, b);
      LastEdit(a, b, OldSide(r), NewSide(r), e);
    }
  }

  lemma {:induction false} LastEdit(a: seq<string>, b: seq<string>, old': seq<string>, new': seq<string>, e: Edit)
    requires old' + (if e.op.OpInsert? then [] else [e.line]) <= a
    requires new' + (if e.op.OpDelete? then [] else [e.line]) <= b
    ensures Dist(a, b, |old' + (if e.op.OpInsert? then [] else [e.line])|, |new' + (if e.op.OpDelete? then [] else [e.line])|)
            <= Dist(a, b, |old'|, |new'|) + (if e.op.OpEqual? then 0 else 1)
  {
    hide Dist;
    DistSteps(a, b, |old'|, |new'|);
    Diagonal(a, b, |old'|, |new'|);
  }

  lemma {:induction false} DistIsLeast(a: seq<string>, b: seq<string>)
    ensures forall s :: Transforms(s, a, b) ==> Dist(a, b, |a|, |b|) <= Cost(s)
  {
    forall s | Transforms(s, a, b)
      ensures Dist(a, b, |a|, |b|) <= Cost(s)
    {
      ScriptCostsAtLeast(s, a, b);
    }
  }
}
