/** Byte strings as Python's `bytes`: big-endian integer conversion
    (`int.to_bytes(n, byteorder="big")`) and the lexicographic order that
    `bytes` comparison uses. */
module Bytes {

  type byte = b: int | 0 <= b < 256

  /** The unsigned 64-bit values a Zobrist hash takes. */
  type u64 = x: int | 0 <= x < 0x1_0000_0000_0000_0000

  function Pow256(n: nat): (r: nat)
    ensures r >= 1
  {
    if n == 0 then 1 else 256 * Pow256(n - 1)
  }

  /** `x.to_bytes(n, byteorder="big")`; Python raises OverflowError when x does not fit,
      which callers rule out or model as an error before calling this. */
  function ToBytesBE(x: nat, n: nat): (r: seq<byte>)
    requires x < Pow256(n)
    ensures |r| == n
  {
    if n == 0 then [] else ToBytesBE(x / 256, n - 1) + [x % 256]
  }

  lemma ToBytesBELast(x: nat, n: nat)
    requires n > 0 && x < Pow256(n)
    ensures x / 256 < Pow256(n - 1)
    ensures ToBytesBE(x, n) == ToBytesBE(x / 256, n - 1) + [x % 256]
  {
  }

  /** The unsigned integer a big-endian byte string denotes (`int.from_bytes(s, "big")`). */
  function FromBytesBE(s: seq<byte>): (r: nat)
  {
    if s == [] then 0 else FromBytesBE(s[..|s| - 1]) * 256 + s[|s| - 1]
  }

  lemma {:induction false} FromBytesBEBound(s: seq<byte>)
    ensures FromBytesBE(s) < Pow256(|s|)
  {
    if s != [] {
      FromBytesBEBound(s[..|s| - 1]);
    }
  }

  /** Decoding undoes encoding. */
  lemma {:induction false} BytesRoundTrip(x: nat, n: nat)
    requires x < Pow256(n)
    ensures FromBytesBE(ToBytesBE(x, n)) == x
  {
    if n > 0 {
      BytesRoundTrip(x / 256, n - 1);
      var s := ToBytesBE(x, n);
      assert s[..|s| - 1] == ToBytesBE(x / 256, n - 1);
    }
  }

  /** Encoding undoes decoding: every n-byte string is the encoding of exactly one value. */
  lemma {:induction false} BytesRoundTripBack(s: seq<byte>)
    ensures FromBytesBE(s) < Pow256(|s|)
    ensures ToBytesBE(FromBytesBE(s), |s|) == s
  {
    FromBytesBEBound(s);
    if s != [] {
      BytesRoundTripBack(s[..|s| - 1]);
      assert s == s[..|s| - 1] + [s[|s| - 1]];
    }
  }

  /** Python's `a <= b` on `bytes`: lexicographic, a proper prefix is smaller. */
  predicate LexLe(a: seq<byte>, b: seq<byte>)
  {
    if a == [] then true
    else if b == [] then false
    else if a[0] != b[0] then a[0] < b[0]
    else LexLe(a[1..], b[1..])
  }

  /** Python's `a < b` on `bytes`. */
  predicate LexLt(a: seq<byte>, b: seq<byte>)
  {
    LexLe(a, b) && a != b
  }

  lemma {:induction false} LexLeTotal(a: seq<byte>, b: seq<byte>)
    ensures LexLe(a, b) || LexLe(b, a)
  {
    if a != [] && b != [] && a[0] == b[0] {
      LexLeTotal(a[1..], b[1..]);
    }
  }

  lemma {:induction false} LexLeAntisymmetric(a: seq<byte>, b: seq<byte>)
    requires LexLe(a, b) && LexLe(b, a)
    ensures a == b
  {
    if a != [] && b != [] {
      LexLeAntisymmetric(a[1..], b[1..]);
      assert a == [a[0]] + a[1..] && b == [b[0]] + b[1..];
    }
  }

  lemma {:induction false} LexLeTransitive(a: seq<byte>, b: seq<byte>, c: seq<byte>)
    requires LexLe(a, b) && LexLe(b, c)
    ensures LexLe(a, c)
  {
    if a != [] && b != [] && c != [] && a[0] == b[0] && b[0] == c[0] {
      LexLeTransitive(a[1..], b[1..], c[1..]);
    }
  }

  /** Comparing two equal-length strings by their last byte once the rest is compared. */
  lemma {:induction false} LexLeSnoc(a: seq<byte>, x: byte, b: seq<byte>, y: byte)
    requires |a| == |b|
    ensures LexLe(a + [x], b + [y]) <==> LexLt(a, b) || (a == b && x <= y)
  {
    if a == [] {
      assert b == [];
    } else {
      assert (a + [x])[1..] == a[1..] + [x];
      assert (b + [y])[1..] == b[1..] + [y];
      LexLeSnoc(a[1..], x, b[1..], y);
      if a[0] == b[0] && a[1..] == b[1..] {
        assert a == [a[0]] + a[1..] && b == [b[0]] + b[1..];
      }
      if a == b {
        assert a[1..] == b[1..];
      }
    }
  }

  /** For strings of one length, byte order is the order of the unsigned big-endian
      values: this is why sorting records by their key bytes sorts them by key. */
  lemma {:induction false} LexLeIsNumericOrder(a: seq<byte>, b: seq<byte>)
    requires |a| == |b|
    ensures LexLe(a, b) <==> FromBytesBE(a) <= FromBytesBE(b)
  {
    if a != [] {
      var a', b' := a[..|a| - 1], b[..|b| - 1];
      assert a == a' + [a[|a| - 1]] && b == b' + [b[|b| - 1]];
      LexLeSnoc(a', a[|a| - 1], b', b[|b| - 1]);
      LexLeIsNumericOrder(a', b');
      BytesRoundTripBack(a');
      BytesRoundTripBack(b');
      if FromBytesBE(a') == FromBytesBE(b') {
        assert a' == b';
      }
    }
  }
}
