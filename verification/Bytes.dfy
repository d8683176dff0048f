/** Bytes, 32-bit words and the word alignment used by the message and file formats. */
module Bytes {

  type byte = b: int | 0 <= b < 256

  /** One more than the largest value of an `unsigned int`. */
  const WORD := 0x1_0000_0000

  type u32 = n: int | 0 <= n < 0x1_0000_0000

  /** `n` rounded up to a multiple of four. */
  function Align4(n: nat): (r: nat)
    ensures n <= r < n + 4
  {
    if n == 0 then 0 else if n <= 4 then 4 else 4 + Align4(n - 4)
  }

  lemma {:induction false} Align4IsRounding(n: nat)
    ensures Align4(n) == (n + 3) / 4 * 4
    ensures Align4(n) % 4 == 0
  {
    if n > 4 {
      Align4IsRounding(n - 4);
    }
  }

  /** The bytes of `count` elements of `elem` bytes: the product, as a repeated sum. */
  function Scaled(elem: nat, count: nat): nat {
    if count == 0 then 0 else Scaled(elem, count - 1) + elem
  }

  lemma {:induction false} ScaledIsProduct(elem: nat, count: nat)
    ensures Scaled(elem, count) == elem * count
  {
    if count != 0 {
      ScaledIsProduct(elem, count - 1);
    }
  }

  lemma {:induction false} ScaledAtLeast(elem: nat, count: nat)
    requires 1 <= elem
    ensures count <= Scaled(elem, count)
  {
    if count > 0 {
      ScaledAtLeast(elem, count - 1);
    }
  }

  lemma {:induction false} ScaledMonotone(elem: nat, a: nat, b: nat)
    requires a <= b
    ensures Scaled(elem, a) <= Scaled(elem, b)
    decreases b
  {
    if a < b {
      ScaledMonotone(elem, a, b - 1);
    }
  }

  lemma {:induction false} ScaledWords(elem: nat, count: nat)
    requires elem % 4 == 0
    ensures Scaled(elem, count) % 4 == 0
  {
    if count != 0 {
      ScaledWords(elem, count - 1);
    }
  }

  lemma DividedBy(n: nat, d: nat, q: nat, r: nat)
    requires n == d * q + r && r < d
    ensures n / d == q && n % d == r
  {
    var e := n / d - q;
    assert d * e == r - n % d;
    AtLeastOnce(d, e);
  }

  lemma AtLeastOnce(d: nat, e: int)
    ensures e > 0 ==> d * e >= d
    ensures e < 0 ==> d * e <= -(d as int)
  {
  }

  /** The four bytes in which an `unsigned int` is stored. */
  function EncodeU32(n: u32): (s: seq<byte>)
    ensures |s| == 4
  {
    [n % 256, n / 256 % 256, n / 65536 % 256, n / 16777216]
  }

  function DecodeU32(s: seq<byte>): u32
    requires |s| == 4
  {
    (s[0] as int) + 256 * (s[1] as int) + 65536 * (s[2] as int) + 16777216 * (s[3] as int)
  }

  lemma DecodeEncodeU32(n: u32)
    ensures DecodeU32(EncodeU32(n)) == n
  {
    var q := n / 256;
    assert n / 65536 == q / 256;
    assert n / 16777216 == q / 256 / 256;
    assert q == 256 * (q / 256) + q % 256;
  }

  /** Sequences that agree up to `q` agree on every slice below `q`. */
  lemma SliceOfPrefix<T>(m: seq<T>, m': seq<T>, q: nat, i: nat, j: nat)
    requires i <= j <= q <= |m| && q <= |m'| && m[..q] == m'[..q]
    ensures m[i..j] == m'[i..j]
  {
    forall t | 0 <= t < j - i
      ensures m[i..j][t] == m'[i..j][t]
    {
      assert m[..q][i + t] == m'[..q][i + t];
    }
  }

  /** Sequences that agree between `i` and `j` have the same slice there. */
  lemma SliceAgrees<T>(m: seq<T>, m': seq<T>, i: nat, j: nat)
    requires i <= j <= |m| && j <= |m'| && forall t :: i <= t < j ==> m[t] == m'[t]
    ensures m[i..j] == m'[i..j]
  {
  }

  lemma JoinSlices<T>(s: seq<T>, i: nat, j: nat, k: nat)
    requires i <= j <= k <= |s|
    ensures s[i..j] + s[j..k] == s[i..k]
  {
  }

  lemma SliceOfSlice<T>(s: seq<T>, i: nat, j: nat, n: nat)
    requires i <= j <= |s| && n <= j - i
    ensures s[i..j][..n] == s[i..i + n] && s[i..j][n..] == s[i + n..j]
  {
  }

  /** `memcpy(buf + at, data, |data|)`. */
  method Store(buf: array<byte>, at: nat, data: seq<byte>)
    requires at + |data| <= buf.Length
    modifies buf
    ensures buf[at..at + |data|] == data && forall i :: at <= i < at + |data| ==> buf[i] == data[i - at]
    ensures forall i :: 0 <= i < at || at + |data| <= i < buf.Length ==> buf[i] == old(buf[i])
  {
    for i := 0 to |data|
      invariant forall j :: 0 <= j < i ==> buf[at + j] == data[j]
      invariant forall j :: 0 <= j < at || at + i <= j < buf.Length ==> buf[j] == old(buf[j])
    {
      buf[at + i] := data[i];
    }
  }
}
