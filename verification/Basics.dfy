/** A value that may be missing. */
module Options {

  datatype Option<T> = None | Some(value: T)
}

/** Machine numbers, and what they wrap to. */
module Numbers {

  const TWO32 := 0x1_0000_0000
  const TWO64 := 0x1_0000_0000_0000_0000

  type Byte = x: int | 0 <= x < 256
  type U32 = x: int | 0 <= x < TWO32
  type U64 = x: int | 0 <= x < TWO64

  function Wrap32(x: int): U32 {
    x % TWO32
  }

  function Wrap64(x: int): U64 {
    x % TWO64
  }

  function Zeros(n: nat): (r: seq<Byte>)
    ensures |r| == n
  {
    seq(n, _ => 0)
  }

  lemma ProductMonotone(d: nat, a: nat, b: nat)
    requires a <= b
    ensures d * a <= d * b && a * d <= b * d
  {
  }
}

/** Powers of 256, shared by the byte formats. */
module Powers256 {
  import opened Numbers

  function Power256(w: nat): (r: nat)
    ensures r >= 1
  {
    if w == 0 then 1 else 256 * Power256(w - 1)
  }

  lemma Powers()
    ensures Power256(1) == 0x100 && Power256(4) == 0x1_0000_0000 && Power256(8) == 0x1_0000_0000_0000_0000
  {
    assert Power256(2) == 0x1_0000;
    assert Power256(3) == 0x100_0000;
    assert Power256(5) == 0x100_0000_0000;
    assert Power256(6) == 0x1_0000_0000_0000;
    assert Power256(7) == 0x100_0000_0000_0000;
  }

  /** The number whose bytes are `s`, the lowest first. */
  function LittleEndian(s: seq<Byte>): (n: nat)
    ensures n < Power256(|s|)
  {
    if s == [] then 0 else s[0] + 256 * LittleEndian(s[1..])
  }

  lemma PowerStep(n: nat, k: nat)
    ensures n / Power256(k + 1) == n / 256 / Power256(k)
  {
    var p, q, r := Power256(k), n / 256, n % 256;
    var a, b := q / p, q % p;
    assert q == p * a + b && n == 256 * q + r;
    var d := 256 * p;
    assert d * a == 256 * (p * a);
    assert n == d * a + (256 * b + r);
    SameQuotient(n, d, a, 256 * b + r);
  }

  lemma SameQuotient(n: nat, d: nat, a: nat, b: nat)
    requires d > 0 && n == d * a + b && b < d
    ensures n / d == a
  {
    var q, r := n / d, n % d;
    assert n == d * q + r;
    if q < a { ProductMonotone(d, q + 1, a); }
    if a < q { ProductMonotone(d, a + 1, q); }
  }

  /** Bytes that are the digits of a number in base 256 spell that number. */
  lemma {:induction false} DigitsSpell(s: seq<Byte>, n: nat)
    requires n < Power256(|s|) && forall k :: 0 <= k < |s| ==> s[k] == n / Power256(k) % 256
    ensures LittleEndian(s) == n
  {
    if s != [] {
      assert s[0] == n / Power256(0) % 256 == n % 256;
      forall k | 0 <= k < |s[1..]| ensures s[1..][k] == n / 256 / Power256(k) % 256 {
        PowerStep(n, k);
        assert s[k + 1] == n / Power256(k + 1) % 256;
      }
      DigitsSpell(s[1..], n / 256);
    }
  }
}

/** Equalities of sequences that longer proofs use one at a time. */
module Sequences {

  lemma NothingBefore<T>(s: seq<T>)
    ensures [] + s == s
  {
  }

  lemma NothingAfter<T>(s: seq<T>)
    ensures s + [] == s
  {
  }

  lemma Regroup<T>(a: seq<T>, b: seq<T>, c: seq<T>)
    ensures (a + b) + c == a + (b + c)
  {
  }

  /** Each of four pieces is where it was put. */
  lemma Pieces<T>(a: seq<T>, b: seq<T>, c: seq<T>, d: seq<T>)
    ensures var s, i, j := a + b + c + d, |a| + |b|, |a| + |b| + |c|;
            s[0..|a|] == a && s[|a|..i] == b && s[i..j] == c && s[j..j + |d|] == d
  {
  }

  lemma Split<T>(s: seq<T>, k: nat)
    requires k <= |s|
    ensures s[..k] + s[k..] == s
  {
  }
}
