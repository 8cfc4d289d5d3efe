/** Content-defined chunking of internal/datadedup/chunker.go: where the cuts fall depends on
    the bytes since the last cut and on nothing else. */
module Chunker {
  import opened Bytes
  import opened RollingHash

  type Fingerprint = string

  datatype Chunk = Chunk(data: seq<Byte>, offset: int, fingerprint: Fingerprint)

  datatype Config = Config(minSize: nat, maxSize: nat, boundary: Byte, hash: seq<Byte> -> Fingerprint)

  predicate Sensible(cfg: Config) { 0 < cfg.minSize <= cfg.maxSize }

  /** calcRollingWindowSize. */
  function WindowSize(minSize: nat): (w: nat)
    ensures minSize > 0 ==> 0 < w <= minSize
  {
    if minSize >= 48 then 48
    else
      var w := if minSize / 2 < 4 then 4 else minSize / 2;
      if w > minSize then minSize else w
  }

  /** value & calcTargetMask(minSize) == 0: the mask is one less than a power of two, so masking
      is taking the remainder. */
  predicate Masked(value: int, minSize: nat) {
    if minSize < 256 then value % 256 == 0 else if minSize < 1024 then value % 1024 == 0 else value % 8192 == 0
  }

  predicate LowBitsZero(value: nat, bits: nat) { bits == 0 || (value % 2 == 0 && LowBitsZero(value / 2, bits - 1)) }

  function PowerOfTwo(n: nat): (p: nat)
    ensures p > 0
  {
    if n == 0 then 1 else 2 * PowerOfTwo(n - 1)
  }

  lemma Halved(value: nat, p: nat)
    requires p > 0
    ensures value % (2 * p) == 0 <==> value % 2 == 0 && (value / 2) % p == 0
  {
    var h := value / 2;
    var q, r := h / p, h % p;
    assert h == q * p + r && value == 2 * h + value % 2;
    var r' := 2 * r + value % 2;
    assert value == q * (2 * p) + r' && 0 <= r' < 2 * p;
    OneRemainder(value, 2 * p, q, r');
  }

  lemma NoMultiple(k: int, p: int, d: int)
    requires k * p == d && -p < d < p
    ensures d == 0
  {
  }

  lemma OneRemainder(value: nat, p: nat, q: int, r: int)
    requires p > 0 && value == q * p + r && 0 <= r < p
    ensures value % p == r
  {
    var q', r' := value / p, value % p;
    assert value == q' * p + r';
    assert (q - q') * p == q * p - q' * p;
    NoMultiple(q - q', p, r' - r);
  }

  lemma {:induction false} LowBits(value: nat, bits: nat)
    ensures LowBitsZero(value, bits) <==> value % PowerOfTwo(bits) == 0
    decreases bits
  {
    if bits > 0 {
      LowBits(value / 2, bits - 1);
      Halved(value, PowerOfTwo(bits - 1));
    }
  }

  /** The mask has eight, ten or thirteen bits. */
  lemma MaskedMeans(value: nat, minSize: nat)
    ensures Masked(value, minSize) <==> LowBitsZero(value, if minSize < 256 then 8 else if minSize < 1024 then 10 else 13)
  {
    LowBits(value, 8);
    LowBits(value, 10);
    LowBits(value, 13);
    assert PowerOfTwo(4) == 16 && PowerOfTwo(8) == 256 && PowerOfTwo(10) == 1024 && PowerOfTwo(13) == 8192;
  }

  // ------------------------------------------------------------ where a chunk ends

  /** A chunk of length n may end here: at the boundary byte, or where the hash of the last
      bytes has all target bits zero. */
  predicate Stops(cfg: Config, s: seq<Byte>, n: nat)
    requires 0 < n <= |s|
  {
    s[n - 1] == cfg.boundary || Masked(Poly(Last(s[..n], WindowSize(cfg.minSize))), cfg.minSize)
  }

  function Limit(cfg: Config, s: seq<Byte>): nat { if cfg.maxSize < |s| then cfg.maxSize else |s| }

  function CutFrom(cfg: Config, s: seq<Byte>, n: nat): (r: nat)
    requires Sensible(cfg) && cfg.minSize <= n <= Limit(cfg, s)
    ensures n <= r <= Limit(cfg, s) && (r == Limit(cfg, s) || Stops(cfg, s, r))
    ensures forall k :: n <= k < r ==> !Stops(cfg, s, k)
    decreases Limit(cfg, s) - n
  {
    if n == Limit(cfg, s) || Stops(cfg, s, n) then n else CutFrom(cfg, s, n + 1)
  }

  /** The length of the first chunk of s. */
  function Cut(cfg: Config, s: seq<Byte>): (r: nat)
    requires Sensible(cfg) && s != []
    ensures 0 < r <= |s| && r <= cfg.maxSize && (r < |s| ==> cfg.minSize <= r)
  {
    if |s| <= cfg.minSize then |s| else CutFrom(cfg, s, cfg.minSize)
  }

  // ---------------------------------------------------------------- cutting repeatedly

  /** A rule that says how long the first chunk is. */
  type Rule = seq<Byte> -> nat

  ghost predicate Proper(cut: Rule) { forall s :: s != [] ==> 0 < cut(s) <= |s| }

  /** The input cut up by a rule. */
  ghost function Parts(cut: Rule, s: seq<Byte>): seq<seq<Byte>>
    requires Proper(cut)
    decreases |s|
  {
    if s == [] then [] else [s[..cut(s)]] + Parts(cut, s[cut(s)..])
  }

  lemma {:induction false} JoinCons(p: seq<Byte>, parts: seq<seq<Byte>>)
    ensures Join([p] + parts) == p + Join(parts)
    decreases |parts|
  {
    var all := [p] + parts;
    if parts == [] {
      assert all[..0] == [] && all[0] == p;
    } else {
      var init, last := parts[..|parts| - 1], parts[|parts| - 1];
      assert all[..|all| - 1] == [p] + init && all[|all| - 1] == last;
      JoinCons(p, init);
      assert (p + Join(init)) + last == p + (Join(init) + last);
    }
  }

  lemma PartsCons(cut: Rule, s: seq<Byte>)
    requires Proper(cut) && s != []
    ensures Parts(cut, s) == [s[..cut(s)]] + Parts(cut, s[cut(s)..])
  {
  }

  /** The parts put together are the input. */
  lemma {:induction false} PartsRebuild(cut: Rule, s: seq<Byte>)
    requires Proper(cut)
    ensures Join(Parts(cut, s)) == s
    decreases |s|
  {
    if s != [] {
      var first, tail := s[..cut(s)], s[cut(s)..];
      assert s == first + tail;
      PartsRebuild(cut, tail);
      PartsCons(cut, s);
      JoinCons(first, Parts(cut, tail));
    }
  }

  lemma ConsSlices(p: seq<Byte>, parts: seq<seq<Byte>>, i: nat)
    requires 0 < i <= |parts| + 1
    ensures ([p] + parts)[..i] == [p] + parts[..i - 1] && ([p] + parts)[i..] == parts[i - 1..]
  {
  }

  /** From any cut on, the parts are those of the rest of the input by itself. */
  lemma {:induction false} PartsFromCut(cut: Rule, s: seq<Byte>, i: nat)
    requires Proper(cut) && i <= |Parts(cut, s)|
    ensures var k := |Join(Parts(cut, s)[..i])|; k <= |s| && Parts(cut, s)[i..] == Parts(cut, s[k..])
    decreases |s|
  {
    var c := Parts(cut, s);
    if i == 0 {
      assert c[..0] == [] && c[0..] == c && s[0..] == s;
    } else {
      var n := cut(s);
      var first, tail := s[..n], s[n..];
      var rest := Parts(cut, tail);
      PartsCons(cut, s);
      PartsFromCut(cut, tail, i - 1);
      ConsSlices(first, rest, i);
      JoinCons(first, rest[..i - 1]);
      var k := |Join(rest[..i - 1])|;
      assert tail[k..] == s[n + k..];
    }
  }

  // ----------------------------------------------------------------- content chunks

  ghost function CutRule(cfg: Config): (r: Rule)
    requires Sensible(cfg)
    ensures Proper(r)
  {
    s => if s == [] then 0 else Cut(cfg, s)
  }

  lemma RuleIs(cfg: Config, s: seq<Byte>)
    requires Sensible(cfg) && s != []
    ensures CutRule(cfg)(s) == Cut(cfg, s)
  {
  }

  /** Each part with its place in the input and its fingerprint. */
  ghost function Labelled(hash: seq<Byte> -> Fingerprint, parts: seq<seq<Byte>>): (r: seq<Chunk>)
    ensures |r| == |parts|
    ensures forall i :: 0 <= i < |r| ==> r[i] == Chunk(parts[i], |Join(parts[..i])|, hash(parts[i]))
  {
    seq(|parts|, i requires 0 <= i < |parts| => Chunk(parts[i], |Join(parts[..i])|, hash(parts[i])))
  }

  lemma LabelledNext(hash: seq<Byte> -> Fingerprint, parts: seq<seq<Byte>>, p: seq<Byte>)
    ensures Labelled(hash, parts + [p]) == Labelled(hash, parts) + [Chunk(p, |Join(parts)|, hash(p))]
  {
    var all := parts + [p];
    forall i | 0 <= i < |all| ensures all[..i] == parts[..i] { }
    assert all[..|parts|] == parts && parts[..|parts|] == parts;
  }

  /** A chunk is as long as the rule says for what follows the chunks before it, no longer than
      the maximum and, unless it is the last, no shorter than the minimum. */
  lemma PartAt(cfg: Config, s: seq<Byte>, i: nat)
    requires Sensible(cfg) && i < |Parts(CutRule(cfg), s)|
    ensures var c := Parts(CutRule(cfg), s); var k := |Join(c[..i])|;
      && k < |s| && c[i] == s[k..][..Cut(cfg, s[k..])]
      && 0 < |c[i]| <= cfg.maxSize && (i < |c| - 1 ==> cfg.minSize <= |c[i]|)
  {
    var cut := CutRule(cfg);
    var c := Parts(cut, s);
    var k := |Join(c[..i])|;
    PartsFromCut(cut, s, i);
    assert c[i..][0] == c[i] && |c[i..]| == |c| - i;
    FirstPart(cut, s[k..]);
    RuleIs(cfg, s[k..]);
  }

  lemma FirstPart(cut: Rule, s: seq<Byte>)
    requires Proper(cut) && Parts(cut, s) != []
    ensures s != [] && Parts(cut, s)[0] == s[..cut(s)] && (|Parts(cut, s)| > 1 ==> cut(s) < |s|)
  {
  }

  /** Two inputs that share what follows a cut of each are cut alike from there on: an edit
      moves no later cut once the two are in step again. */
  lemma Resynchronises(cut: Rule, s: seq<Byte>, t: seq<Byte>, i: nat, j: nat)
    requires Proper(cut) && i <= |Parts(cut, s)| && j <= |Parts(cut, t)|
    requires var k, l := |Join(Parts(cut, s)[..i])|, |Join(Parts(cut, t)[..j])|; k <= |s| && l <= |t| && s[k..] == t[l..]
    ensures Parts(cut, s)[i..] == Parts(cut, t)[j..]
  {
    PartsFromCut(cut, s, i);
    PartsFromCut(cut, t, j);
  }

  // ------------------------------------------------------------------- the chunker

  lemma LastOfSlice(data: seq<Byte>, start: int, i: int, w: nat)
    requires 0 <= start <= i < |data| && 0 < w
    ensures Last(Last(data[start..i], w) + [data[i]], w) == Last(data[start..i + 1], w)
  {
    hide Last;
    assert data[start..i + 1] == data[start..i] + [data[i]];
    LastPushed(data[start..i], data[i], w);
  }

  lemma LastPushed(a: seq<Byte>, x: Byte, w: nat)
    requires 0 < w
    ensures Last(Last(a, w) + [x], w) == Last(a + [x], w)
  {
  }

  /** No chunk of s may end at a length from the minimum up to n. */
  ghost predicate NoStop(cfg: Config, s: seq<Byte>, n: int) {
    n <= |s| && forall k :: cfg.minSize <= k <= n && 0 < k ==> !Stops(cfg, s, k)
  }

  lemma NoStopYet(cfg: Config, s: seq<Byte>)
    ensures NoStop(cfg, s, 0)
  {
  }

  lemma NoStopNext(cfg: Config, s: seq<Byte>, n: int)
    requires 0 < n <= |s| && NoStop(cfg, s, n - 1) && !(cfg.minSize <= n && Stops(cfg, s, n))
    ensures NoStop(cfg, s, n)
  {
    forall k | cfg.minSize <= k <= n && 0 < k ensures !Stops(cfg, s, k) {
      if k < n { assert NoStop(cfg, s, n - 1); }
    }
  }

  /** What the loop tests once it has fed byte i, with the window's contents. */
  lemma StopTest(cfg: Config, data: seq<Byte>, start: int, i: int, contents: seq<Byte>)
    requires Sensible(cfg) && 0 <= start && start + cfg.minSize - 1 <= i < |data|
    requires contents == Last(data[start..i + 1], WindowSize(cfg.minSize))
    ensures |contents| == WindowSize(cfg.minSize)
    ensures Stops(cfg, data[start..], i + 1 - start) <==>
            data[i] == cfg.boundary || Masked(Poly(contents), cfg.minSize)
  {
    assert data[start..][..i + 1 - start] == data[start..i + 1];
  }

  class ContentBasedChunker {
    const cfg: Config
    const rh: RollingHash

    ghost predicate Valid()
      reads this, rh, rh.window
    {
      Sensible(cfg) && rh.Valid() && rh.windowSize == WindowSize(cfg.minSize)
    }

    constructor (cfg: Config)
      requires Sensible(cfg)
      ensures Valid() && this.cfg == cfg && fresh(rh) && fresh(rh.window)
    {
      this.cfg := cfg;
      var hash := new RollingHash(WindowSize(cfg.minSize));
      rh := hash;
    }

    /** The hash has been fed the bytes from start up to i. */
    ghost predicate Fed(data: seq<Byte>, start: int, i: int)
      reads this, rh, rh.window
    {
      Valid() && 0 <= start <= i <= |data| && rh.Contents() == Last(data[start..i], rh.windowSize)
    }

    method Feed(data: seq<Byte>, start: int, i: int) returns (stop: bool)
      requires Fed(data, start, i) && i < |data|
      modifies rh, rh.window
      ensures Fed(data, start, i + 1) && rh.window == old(rh.window)
      ensures stop <==> start + cfg.minSize - 1 <= i && Stops(cfg, data[start..], i + 1 - start)
    {
      rh.AppendByte(data[i]);
      LastOfSlice(data, start, i, rh.windowSize);
      stop := false;
      if i >= start + cfg.minSize - 1 {
        StopTest(cfg, data, start, i, rh.Contents());
        stop := data[i] == cfg.boundary || (rh.Full() && Masked(rh.hash, cfg.minSize));
      }
    }

    /** The end of the chunk that begins at start. */
    method FindEnd(data: seq<Byte>, start: int) returns (end: int)
      requires Valid() && 0 <= start < |data|
      modifies rh, rh.window
      ensures Valid() && rh.window == old(rh.window) && end == start + Cut(cfg, data[start..])
    {
      rh.Reset();
      if |data| - start <= cfg.minSize { return |data|; }
      var maxEnd := if start + cfg.maxSize > |data| then |data| else start + cfg.maxSize;
      assert data[start..start] == [];
      end := Scan(data, start, maxEnd);
    }

    /** The inner loop. */
    method Scan(data: seq<Byte>, start: int, maxEnd: int) returns (end: int)
      requires Fed(data, start, start) && cfg.minSize < |data| - start && maxEnd - start == Limit(cfg, data[start..])
      modifies rh, rh.window
      ensures Valid() && rh.window == old(rh.window) && end == start + Cut(cfg, data[start..])
    {
      hide NoStop, Cut, Stops, Last, Pow, Poly, WindowSize;
      ghost var s := data[start..];
      var i := start;
      NoStopYet(cfg, s);
      while i < maxEnd
        invariant i <= maxEnd && Fed(data, start, i) && rh.window == old(rh.window) && NoStop(cfg, s, i - start)
      {
        var stop := Feed(data, start, i);
        if stop {
          CutsAt(cfg, s, i + 1 - start);
          return i + 1;
        }
        NoStopNext(cfg, s, i + 1 - start);
        i := i + 1;
      }
      CutsAtLimit(cfg, s, maxEnd - start);
      return maxEnd;
    }

    method Chunk(data: seq<Byte>) returns (chunks: seq<Chunk>, empty: bool)
      requires Valid()
      modifies rh, rh.window
      ensures Valid() && empty == (data == []) && chunks == Labelled(cfg.hash, Parts(CutRule(cfg), data))
    {
      chunks, empty := [], |data| == 0;
      if empty {
        CutStart(cfg, data);
        CutEnd(cfg, data, [], []);
        return;
      }
      var start := 0;
      ghost var done: seq<seq<Byte>> := [];
      CutStart(cfg, data);
      while start < |data|
        invariant Valid() && rh.window == old(rh.window) && CutSoFar(cfg, data, chunks, start, done)
      {
        var end := FindEnd(data, start);
        var chunkData := data[start..end];
        CutNext(cfg, data, chunks, start, end, done);
        chunks := chunks + [ChunkOf(cfg, chunkData, start)];
        start, done := end, done + [chunkData];
      }
      CutEnd(cfg, data, chunks, done);
    }
  }

  ghost predicate CutSoFar(cfg: Config, data: seq<Byte>, chunks: seq<Chunk>, start: int, done: seq<seq<Byte>>) {
    && Sensible(cfg) && 0 <= start <= |data| && start == |Join(done)|
    && chunks == Labelled(cfg.hash, done)
    && Parts(CutRule(cfg), data) == done + Parts(CutRule(cfg), data[start..])
  }

  lemma CutStart(cfg: Config, data: seq<Byte>)
    requires Sensible(cfg)
    ensures CutSoFar(cfg, data, [], 0, [])
  {
    assert data[0..] == data;
  }

  lemma CutEnd(cfg: Config, data: seq<Byte>, chunks: seq<Chunk>, done: seq<seq<Byte>>)
    requires CutSoFar(cfg, data, chunks, |data|, done)
    ensures chunks == Labelled(cfg.hash, Parts(CutRule(cfg), data))
  {
    assert data[|data|..] == [];
    assert Parts(CutRule(cfg), data) == done;
  }

  lemma CutNext(cfg: Config, data: seq<Byte>, chunks: seq<Chunk>, start: int, end: int, done: seq<seq<Byte>>)
    requires CutSoFar(cfg, data, chunks, start, done) && start < |data| && end == start + Cut(cfg, data[start..])
    ensures start < end <= |data|
    ensures CutSoFar(cfg, data, chunks + [ChunkOf(cfg, data[start..end], start)], end, done + [data[start..end]])
  {
    RuleIs(cfg, data[start..]);
    NextPart(CutRule(cfg), data, start, end, done);
    LabelledNext(cfg.hash, done, data[start..end]);
  }

  function ChunkOf(cfg: Config, data: seq<Byte>, offset: int): Chunk { Chunk(data, offset, cfg.hash(data)) }

  lemma NextPart(cut: Rule, data: seq<Byte>, start: int, end: int, done: seq<seq<Byte>>)
    requires Proper(cut) && 0 <= start < |data| && end == start + cut(data[start..]) && start == |Join(done)|
    ensures end <= |data| && |Join(done + [data[start..end]])| == end
    ensures done + Parts(cut, data[start..]) == (done + [data[start..end]]) + Parts(cut, data[end..])
  {
    var s := data[start..];
    PartsCons(cut, s);
    assert s[..end - start] == data[start..end] && s[end - start..] == data[end..];
    assert (done + [data[start..end]])[..|done|] == done;
  }

  /** The first length that may end a chunk, or the limit, is the cut. */
  lemma CutsAt(cfg: Config, s: seq<Byte>, n: nat)
    requires Sensible(cfg) && cfg.minSize < |s| && cfg.minSize <= n <= Limit(cfg, s)
    requires NoStop(cfg, s, n - 1) && (n == Limit(cfg, s) || Stops(cfg, s, n))
    ensures Cut(cfg, s) == n
  {
    CutsFrom(cfg, s, cfg.minSize, n);
  }

  lemma CutsAtLimit(cfg: Config, s: seq<Byte>, n: nat)
    requires Sensible(cfg) && cfg.minSize < |s| && n == Limit(cfg, s) && NoStop(cfg, s, n)
    ensures Cut(cfg, s) == n
  {
    CutsFrom(cfg, s, cfg.minSize, n);
  }

  lemma {:induction false} CutsFrom(cfg: Config, s: seq<Byte>, m: nat, n: nat)
    requires Sensible(cfg) && cfg.minSize <= m <= n <= Limit(cfg, s)
    requires NoStop(cfg, s, n - 1) && (n == Limit(cfg, s) || Stops(cfg, s, n))
    ensures CutFrom(cfg, s, m) == n
    decreases n - m
  {
    if m < n { CutsFrom(cfg, s, m + 1, n); }
  }
}
