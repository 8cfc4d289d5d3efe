/** The rolling hash of internal/datadedup/chunker.go: a polynomial hash of the last bytes,
    kept up to date over a circular window in uint64 arithmetic. */
module RollingHash {
  import opened Bytes

  const BASE: int := 257
  const MOD: int := 1000000007

  /** uint64 arithmetic wraps around. */
  function U64(x: int): int { x % 0x1_0000_0000_0000_0000 }

  function Pow(n: nat): nat { if n == 0 then 1 else Pow(n - 1) * BASE }

  /** The polynomial with the bytes as coefficients, not reduced. */
  function Raw(s: seq<Byte>): nat {
    if s == [] then 0 else Raw(s[..|s| - 1]) * BASE + s[|s| - 1]
  }

  /** The hash of a byte string. */
  function Poly(s: seq<Byte>): nat { Raw(s) % MOD }

  /** The hash of four bytes, in numbers. */
  lemma KnownHash(a: Byte, b: Byte, c: Byte, d: Byte)
    ensures Poly([a, b, c, d]) == (16974593 * a + 66049 * b + 257 * c + d) % 1000000007
  {
    var s := [a, b, c, d];
    assert s[..3] == [a, b, c] && s[..3][..2] == [a, b] && s[..3][..2][..1] == [a] && [a][..0] == [];
    assert Raw([a]) == a && Raw([a, b]) == 257 * a + b && Raw([a, b, c]) == 66049 * a + 257 * b + c;
  }

  lemma {:induction false} RawFirst(o: Byte, r: seq<Byte>)
    ensures Raw([o] + r) == o * Pow(|r|) + Raw(r)
    decreases |r|
  {
    if r == [] {
      assert [o] + r == [o] && [o][..0] == [];
      assert Raw([o]) == o;
    } else {
      var r', b := r[..|r| - 1], r[|r| - 1];
      assert ([o] + r)[..|r|] == [o] + r';
      RawFirst(o, r');
      Distribute(o, Pow(|r'|), Raw(r'), b);
    }
  }

  lemma Distribute(o: int, p: int, x: int, b: int)
    ensures (o * p + x) * BASE + b == o * (p * BASE) + (x * BASE + b)
  {
    assert (o * p + x) * BASE == (o * p) * BASE + x * BASE;
    assert (o * p) * BASE == o * (p * BASE);
  }

  // ------------------------------------------------------------- modular arithmetic

  lemma {:induction false} SameRemainder(a: int, b: int, k: int)
    requires a == b + k * MOD
    ensures a % MOD == b % MOD
  {
    var qa, qb := a / MOD, b / MOD;
    assert a == qa * MOD + a % MOD && b == qb * MOD + b % MOD;
    assert (qa - qb - k) * MOD == b % MOD - a % MOD;
  }

  lemma MulRemainder(a: int, b: int)
    ensures (a * (b % MOD)) % MOD == (a * b) % MOD
  {
    var q := b / MOD;
    assert b == q * MOD + b % MOD;
    assert a * b == a * (q * MOD) + a * (b % MOD);
    assert a * (q * MOD) == (a * q) * MOD;
    SameRemainder(a * b, a * (b % MOD), a * q);
  }

  lemma StepRemainder(x: int, b: int)
    ensures ((x % MOD) * BASE + b) % MOD == (x * BASE + b) % MOD
  {
    var q := x / MOD;
    assert x == q * MOD + x % MOD;
    SameRemainder(x * BASE + b, (x % MOD) * BASE + b, q * BASE);
  }

  lemma DropRemainder(x: int, y: int)
    ensures ((x + y) % MOD + MOD - y % MOD) % MOD == x % MOD
  {
    var q, p := (x + y) / MOD, y / MOD;
    assert x + y == q * MOD + (x + y) % MOD && y == p * MOD + y % MOD;
    SameRemainder(x, (x + y) % MOD + MOD - y % MOD, q - p - 1);
  }

  // ------------------------------------------------------------------- the two steps

  /** The window grows by one byte; nothing overflows. */
  lemma Grows(s: seq<Byte>, b: Byte)
    ensures U64(U64(Poly(s) * BASE) + b) % MOD == Poly(s + [b])
    ensures U64(U64(Poly(s) * BASE) + b) == Poly(s) * BASE + b
  {
    assert (s + [b])[..|s|] == s;
    StepRemainder(Raw(s), b);
  }

  /** In the ranges that occur no step wraps around. */
  lemma NoWrap(h: int, o: int, power: int)
    requires 0 <= h < MOD && 0 <= o < 256 && 0 <= power < MOD
    ensures U64(U64(h + MOD) - U64(o * power) % MOD) == h + MOD - (o * power) % MOD
  {
    assert 0 <= o * power <= 255 * power;
  }

  /** The oldest byte leaves a full window. */
  lemma Shrinks(o: Byte, r: seq<Byte>, power: int)
    requires power == Pow(|r|) % MOD
    ensures U64(U64(Poly([o] + r) + MOD) - U64(o * power) % MOD) % MOD == Poly(r)
  {
    NoWrap(Poly([o] + r), o, power);
    RawFirst(o, r);
    DropsOldest(Raw([o] + r), Raw(r), o, Pow(|r|));
  }

  lemma DropsOldest(whole: int, rest: int, o: int, p: int)
    requires whole == o * p + rest
    ensures (whole % MOD + MOD - (o * (p % MOD)) % MOD) % MOD == rest % MOD
  {
    MulRemainder(o, p);
    DropRemainder(rest, o * p);
  }

  // Slices of the circular window.

  function Turned(w: seq<Byte>, head: nat): seq<Byte>
    requires head <= |w|
  {
    w[head..] + w[..head]
  }

  lemma TurnedFirst(w: seq<Byte>, head: nat)
    requires head < |w|
    ensures Turned(w, head) == [w[head]] + (w[head + 1..] + w[..head])
  {
  }

  method Following(head: nat, n: nat) returns (r: nat)
    requires head < n
    ensures r < n && r == if head + 1 == n then 0 else head + 1
  {
    r := (head + 1) % n;
  }

  lemma TurnedNext(w: seq<Byte>, head: nat, b: Byte)
    requires head < |w|
    ensures Turned(w[head := b], if head + 1 == |w| then 0 else head + 1) == (w[head + 1..] + w[..head]) + [b]
  {
    var w' := w[head := b];
    assert w'[..head + 1] == w[..head] + [b] && w'[head + 1..] == w[head + 1..];
    if head + 1 == |w| {
      assert w'[0..] + w'[..0] == w';
    }
  }

  method Add(hash: int, b: Byte, ghost s: seq<Byte>) returns (h: int)
    requires hash == Poly(s)
    ensures h == Poly(s + [b])
  {
    Grows(s, b);
    h := U64(U64(hash * BASE) + b) % MOD;
  }

  method Drop(hash: int, outgoing: Byte, power: int, ghost r: seq<Byte>) returns (h: int)
    requires hash == Poly([outgoing] + r) && power == Pow(|r|) % MOD
    ensures h == Poly(r)
  {
    Shrinks(outgoing, r, power);
    h := U64(U64(hash + MOD) - U64(outgoing * power) % MOD) % MOD;
  }

  method Roll(hash: int, head: nat, outgoing: Byte, power: int, b: Byte, ghost w: seq<Byte>) returns (h: int)
    requires head < |w| && outgoing == w[head] && power == Pow(|w| - 1) % MOD && hash == Poly(Turned(w, head))
    ensures var next := Turned(w[head := b], if head + 1 == |w| then 0 else head + 1);
      h == Poly(next) && next == Turned(w, head)[1..] + [b]
  {
    ghost var rest := w[head + 1..] + w[..head];
    TurnedFirst(w, head);
    TurnedNext(w, head, b);
    h := Drop(hash, outgoing, power, rest);
    h := Add(h, b, rest);
  }

  /** The last n bytes. */
  function Last(s: seq<Byte>, n: nat): seq<Byte> { if |s| <= n then s else s[|s| - n..] }

  class RollingHash {
    const windowSize: nat
    var window: array<Byte>
    var head: nat
    var count: nat
    var hash: int
    var power: int

    ghost predicate Valid()
      reads this, window
    {
      && window.Length == windowSize && 0 < windowSize && head < windowSize && count <= windowSize
      && (count < windowSize ==> head == 0)
      && power == Pow(windowSize - 1) % MOD
      && hash == Poly(Contents())
    }

    /** The bytes in the window, oldest first; whatever else the array holds is stale. */
    ghost function Contents(): seq<Byte>
      requires window.Length == windowSize && head < windowSize && count <= windowSize
      reads this, window
    {
      if count < windowSize then window[..count] else Turned(window[..], head)
    }

    constructor (windowSize: nat)
      requires windowSize > 0
      ensures Valid() && fresh(window) && Contents() == [] && this.windowSize == windowSize
    {
      var p := 1;
      for i := 0 to windowSize - 1
        invariant p == Pow(i) % MOD
      {
        StepRemainder(Pow(i), 0);
        p := U64(p * BASE) % MOD;
      }
      this.windowSize := windowSize;
      window := new Byte[windowSize];
      head, count, hash, power := 0, 0, 0, p;
      new;
      assert window[..0] == [];
    }

    method AppendByte(b: Byte)
      requires Valid()
      modifies this, window
      ensures Valid() && window == old(window)
      ensures Contents() == Last(old(Contents()) + [b], windowSize)
    {
      if count < windowSize {
        Fill(b);
      } else {
        Slide(b);
      }
    }

    method Fill(b: Byte)
      requires Valid() && count < windowSize
      modifies this, window
      ensures Valid() && window == old(window) && Contents() == old(Contents()) + [b]
    {
      hash := Add(hash, b, Contents());
      window[count] := b;
      count := count + 1;
      assert window[..count] == old(window[..count]) + [b];
      assert count == windowSize ==> Turned(window[..], 0) == window[..count];
    }

    method Slide(b: Byte)
      requires Valid() && count == windowSize
      modifies this, window
      ensures Valid() && window == old(window) && Contents() == old(Contents())[1..] + [b]
    {
      ghost var w := window[..];
      hash := Roll(hash, head, window[head], power, b, w);
      window[head] := b;
      assert window[..] == w[head := b];
      head := Following(head, windowSize);
    }

    method Reset()
      requires Valid()
      modifies this
      ensures Valid() && Contents() == [] && window == old(window)
    {
      head, count, hash := 0, 0, 0;
      assert window[..0] == [];
    }

    predicate Full()
      reads this
    {
      count >= windowSize
    }
  }
}
