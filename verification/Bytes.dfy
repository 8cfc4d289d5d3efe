/** Bytes, and big-endian numbers as encoding/binary writes them. */
module Bytes {

  type Byte = x: int | 0 <= x < 256

  function Power(k: nat): nat { if k == 0 then 1 else 256 * Power(k - 1) }

  /** The k low-order bytes of n, highest first. */
  function BigEndian(n: nat, k: nat): (s: seq<Byte>)
    ensures |s| == k
  {
    if k == 0 then [] else BigEndian(n / 256, k - 1) + [n % 256]
  }

  function Number(s: seq<Byte>): nat {
    if s == [] then 0 else 256 * Number(s[..|s| - 1]) + s[|s| - 1]
  }

  /** Reading a number that fits gives it back. */
  lemma {:induction false} ReadsNumber(n: nat, k: nat)
    requires n < Power(k)
    ensures Number(BigEndian(n, k)) == n
    decreases k
  {
    if k > 0 {
      ReadsNumber(n / 256, k - 1);
      var s := BigEndian(n, k);
      assert s[..k - 1] == BigEndian(n / 256, k - 1);
    }
  }

  lemma Powers()
    ensures Power(2) == 0x1_0000 && Power(4) == 0x1_0000_0000 && Power(8) == 0x1_0000_0000_0000_0000
  {
    assert Power(1) == 256;
    assert Power(3) == 0x100_0000;
    assert Power(5) == 0x100_0000_0000 && Power(6) == 0x1_0000_0000_0000 && Power(7) == 0x100_0000_0000_0000;
  }

  /** Byte strings one after the other. */
  function Join(parts: seq<seq<Byte>>): seq<Byte> {
    if parts == [] then [] else Join(parts[..|parts| - 1]) + parts[|parts| - 1]
  }

  lemma {:induction false} JoinThree(a: seq<Byte>, b: seq<Byte>, c: seq<Byte>)
    ensures Join([a, b, c]) == a + b + c
  {
    assert [a, b, c][..2] == [a, b] && [a, b][..1] == [a] && [a][..0] == [];
    assert Join([a]) == a;
  }

  lemma {:induction false} JoinFour(a: seq<Byte>, b: seq<Byte>, c: seq<Byte>, d: seq<Byte>)
    ensures Join([a, b, c, d]) == a + b + c + d
  {
    assert [a, b, c, d][..3] == [a, b, c];
    JoinThree(a, b, c);
  }

  lemma Middle(pre: seq<Byte>, mid: seq<Byte>, post: seq<Byte>, i: nat, j: nat)
    requires i <= j <= |mid|
    ensures (pre + mid + post)[|pre| + i..|pre| + j] == mid[i..j]
  {
  }

  lemma Flatten(msg: seq<Byte>, pre: seq<Byte>, a: seq<Byte>, b: seq<Byte>, post: seq<Byte>)
    requires msg == pre + (a + b) + post
    ensures msg == pre + a + (b + post)
  {
  }

  lemma Regroup(msg: seq<Byte>, pre: seq<Byte>, a: seq<Byte>, b: seq<Byte>, post: seq<Byte>)
    requires msg == pre + a + (b + post)
    ensures msg == (pre + a) + b + post
  {
  }
}
