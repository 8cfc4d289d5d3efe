/** Go's string order, and why keys of the B+ tree may be taken to be real numbers. */
module GoStrings {
  import opened Bytes

  /** Go's < on strings: bytewise, a proper prefix first. */
  predicate Less(a: seq<Byte>, b: seq<Byte>) {
    if b == [] then false
    else if a == [] then true
    else a[0] < b[0] || (a[0] == b[0] && Less(a[1..], b[1..]))
  }

  /** The bytes read as digits after the point in base 257. */
  ghost function Rank(s: seq<Byte>): (r: real)
    ensures 0.0 <= r < 1.0
    ensures s != [] ==> 0.0 < r
  {
    if s == [] then 0.0 else (s[0] as real + 1.0 + Rank(s[1..])) / 257.0
  }

  /** Rank is an order embedding: comparing ranks is comparing strings. */
  lemma {:induction false} RankOrder(a: seq<Byte>, b: seq<Byte>)
    ensures Rank(a) < Rank(b) <==> Less(a, b)
    ensures Rank(a) == Rank(b) <==> a == b
  {
    if a != [] && b != [] {
      RankOrder(a[1..], b[1..]);
      var x, y := a[0] as real, b[0] as real;
      var u, v := Rank(a[1..]), Rank(b[1..]);
      assert a[0] < b[0] ==> x + u < y + v;
      assert b[0] < a[0] ==> y + v < x + u;
      assert a == [a[0]] + a[1..] && b == [b[0]] + b[1..];
    }
  }
}
