/** Octets, their big-endian values and the concatenation of octet strings. */
module Bytes {

  /** One element of a `Uint8Array`. */
  type Byte = x: int | 0 <= x < 256

  function Pow256(k: nat): (r: nat)
    ensures r >= 1
  {
    if k == 0 then 1 else 256 * Pow256(k - 1)
  }

  /** The unsigned big-endian value of an octet string. */
  function Unsigned(s: seq<Byte>): nat
  {
    if s == [] then 0 else Unsigned(s[..|s| - 1]) * 256 + s[|s| - 1]
  }

  /** The two's-complement value of an octet string, as section 8.3.3 of ITU-T X.690 reads INTEGER contents. */
  function Signed(s: seq<Byte>): int
  {
    if s != [] && s[0] >= 0x80 then Unsigned(s) - Pow256(|s|) else Unsigned(s)
  }

  /** The shortest big-endian octet string whose value is n (empty for 0). */
  function MinimalBytes(n: nat): seq<Byte>
  {
    if n == 0 then [] else MinimalBytes(n / 256) + [n % 256]
  }

  lemma {:induction false} UnsignedOfMinimalBytes(n: nat)
    ensures Unsigned(MinimalBytes(n)) == n
  {
    if n > 0 {
      var s := MinimalBytes(n);
      assert s[..|s| - 1] == MinimalBytes(n / 256);
      UnsignedOfMinimalBytes(n / 256);
    }
  }

  /** The minimal encoding of a positive number is non-empty and has no leading zero octet. */
  lemma {:induction false} MinimalBytesLeadingOctet(n: nat)
    requires n > 0
    ensures |MinimalBytes(n)| > 0 && MinimalBytes(n)[0] != 0
  {
    if n >= 256 {
      MinimalBytesLeadingOctet(n / 256);
    }
  }

  lemma {:induction false} MinimalBytesLength(n: nat, k: nat)
    requires n < Pow256(k)
    ensures |MinimalBytes(n)| <= k
  {
    if n > 0 {
      MinimalBytesLength(n / 256, k - 1);
    }
  }

  /** A leading zero octet does not change the unsigned value. */
  lemma {:induction false} UnsignedLeadingZero(s: seq<Byte>)
    ensures Unsigned([0] + s) == Unsigned(s)
  {
    if s != [] {
      assert ([0] + s)[..|s|] == [0] + s[..|s| - 1];
      UnsignedLeadingZero(s[..|s| - 1]);
    }
  }

  /** The octet strings of es, one after the other. */
  function Concat(es: seq<seq<Byte>>): seq<Byte>
  {
    if es == [] then [] else Concat(es[..|es| - 1]) + es[|es| - 1]
  }

  /** `elements.reduce((sum, el) => sum + el.length, 0)`. */
  function TotalLength(es: seq<seq<Byte>>): (r: nat)
    ensures r == |Concat(es)|
  {
    if es == [] then 0 else TotalLength(es[..|es| - 1]) + |es[|es| - 1]|
  }

  lemma ConcatPair(a: seq<Byte>, b: seq<Byte>)
    ensures Concat([a, b]) == a + b
  {
    assert [a, b][..1] == [a];
    assert [a][..0] == [];
    assert Concat([a]) == Concat([]) + a;
    assert Concat([a, b]) == Concat([a]) + b;
  }

  /** Concat of one more element extends the concatenation. */
  lemma ConcatSnoc(es: seq<seq<Byte>>, i: nat)
    requires i < |es|
    ensures Concat(es[..i + 1]) == Concat(es[..i]) + es[i]
  {
    assert es[..i + 1][..i] == es[..i];
  }

  /** Element i of es sits in Concat(es) right after the elements before it. */
  lemma {:induction false} ConcatSlice(es: seq<seq<Byte>>, i: nat)
    requires i < |es|
    ensures |Concat(es[..i])| + |es[i]| <= |Concat(es)|
    ensures Concat(es)[|Concat(es[..i])|..|Concat(es[..i])| + |es[i]|] == es[i]
  {
    var n := |es|;
    assert es[..n - 1] + [es[n - 1]] == es;
    if i == n - 1 {
      assert es[..i] == es[..n - 1];
    } else {
      var init := es[..n - 1];
      assert init[..i] == es[..i];
      ConcatSlice(init, i);
      assert Concat(es) == Concat(init) + es[n - 1];
    }
  }

  /** The first i elements concatenate to no more than all of them. */
  lemma {:induction false} ConcatPrefixLength(es: seq<seq<Byte>>, i: nat)
    requires i <= |es|
    ensures |Concat(es[..i])| <= |Concat(es)|
    decreases |es| - i
  {
    if i < |es| {
      ConcatSnoc(es, i);
      ConcatPrefixLength(es, i + 1);
    } else {
      assert es[..i] == es;
    }
  }

  /** A slice that lies wholly in the second part of a concatenation. */
  lemma SliceAfter(head: seq<Byte>, tail: seq<Byte>, lo: nat, hi: nat)
    requires lo <= hi <= |tail|
    ensures (head + tail)[|head| + lo..|head| + hi] == tail[lo..hi]
  {
  }
}
