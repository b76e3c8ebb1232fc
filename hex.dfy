/** The hexadecimal text form of a Zobrist key: `format_zobrist_key_hex`
    (`f"{key:016x}"`) and its inverse `bytes.fromhex`, which turns the book's
    position keys back into the 8 key bytes of a record. */
module Hex {
  import opened Wrappers
  import opened Bytes

  /** A digit of Python's `x` format: 0-9 then lowercase a-f. */
  predicate IsLowerHexDigit(c: char)
  {
    '0' <= c <= '9' || 'a' <= c <= 'f'
  }

  function HexChar(d: nat): (c: char)
    requires d < 16
  {
    if d < 10 then ('0' as int + d) as char else ('a' as int + d - 10) as char
  }

  predicate IsHexDigit(c: char)
  {
    '0' <= c <= '9' || 'a' <= c <= 'f' || 'A' <= c <= 'F'
  }

  function HexValue(c: char): (d: nat)
    requires IsHexDigit(c)
    ensures d < 16
  {
    if '0' <= c <= '9' then c as int - '0' as int
    else if 'a' <= c <= 'f' then c as int - 'a' as int + 10
    else c as int - 'A' as int + 10
  }

  lemma HexValueOfHexChar(d: nat)
    requires d < 16
    ensures IsHexDigit(HexChar(d)) && HexValue(HexChar(d)) == d
  {
  }

  /** The ASCII whitespace that `bytes.fromhex` skips between byte pairs. */
  predicate IsAsciiSpace(c: char)
  {
    c == ' ' || c == '\t' || c == '\n' || c == '\r' || c == '\U{0B}' || c == '\U{0C}'
  }

  /** The last n lowercase hexadecimal digits of x, most significant first, zero-padded. */
  function HexDigits(x: nat, n: nat): (r: string)
    ensures |r| == n
  {
    if n == 0 then "" else HexDigits(x / 16, n - 1) + [HexChar(x % 16)]
  }

  /** `format_zobrist_key_hex`: exactly 16 lowercase, zero-padded hexadecimal digits. */
  function FormatZobristKeyHex(key: u64): (r: string)
    ensures |r| == 16
    ensures forall i :: 0 <= i < 16 ==> IsLowerHexDigit(r[i])
  {
    HexDigitsAreLower(key, 16);
    HexDigits(key, 16)
  }

  /** `bytes.fromhex(s)`: ASCII whitespace is skipped before each pair of hexadecimal
      digits (either case); anything else, or a dangling digit, is a ValueError (None). */
  function FromHex(s: string): (r: Option<seq<byte>>)
    decreases |s|
  {
    if s == [] then Some([])
    else if IsAsciiSpace(s[0]) then FromHex(s[1..])
    else if |s| < 2 || !IsHexDigit(s[0]) || !IsHexDigit(s[1]) then None
    else match FromHex(s[2..])
      case None => None
      case Some(rest) => Some([HexValue(s[0]) * 16 + HexValue(s[1])] + rest)
  }

  predicate AllHexDigits(s: string)
  {
    forall i :: 0 <= i < |s| ==> IsHexDigit(s[i])
  }

  /** Appending one more digit pair to a run of digit pairs appends one byte. */
  lemma {:induction false} FromHexSnoc(s: string, c1: char, c2: char)
    requires AllHexDigits(s) && |s| % 2 == 0
    requires IsHexDigit(c1) && IsHexDigit(c2)
    ensures FromHex(s).Some?
    ensures FromHex(s + [c1, c2]) == Some(FromHex(s).value + [HexValue(c1) * 16 + HexValue(c2)])
  {
    if s == [] {
      assert s + [c1, c2] == [c1, c2];
      assert [c1, c2][2..] == [];
      var v := HexValue(c1) * 16 + HexValue(c2);
      assert FromHex([c1, c2]) == Some([v] + []);
      assert [v] + [] == [v] == [] + [v];
    } else {
      var t := s + [c1, c2];
      assert t[2..] == s[2..] + [c1, c2];
      assert t[0] == s[0] && t[1] == s[1];
      assert IsHexDigit(s[0]) && IsHexDigit(s[1]) && !IsAsciiSpace(s[0]);
      assert AllHexDigits(s[2..]) by {
        forall i | 0 <= i < |s[2..]| ensures IsHexDigit(s[2..][i]) {
          assert s[2..][i] == s[i + 2];
        }
      }
      FromHexSnoc(s[2..], c1, c2);
      var b := HexValue(s[0]) * 16 + HexValue(s[1]);
      var mid := FromHex(s[2..]).value;
      assert FromHex(s) == Some([b] + mid);
      assert FromHex(t) == Some([b] + (mid + [HexValue(c1) * 16 + HexValue(c2)]));
      assert [b] + (mid + [HexValue(c1) * 16 + HexValue(c2)])
          == ([b] + mid) + [HexValue(c1) * 16 + HexValue(c2)];
    }
  }

  lemma {:induction false} HexDigitsAreLower(x: nat, n: nat)
    ensures forall i :: 0 <= i < n ==> IsLowerHexDigit(HexDigits(x, n)[i])
  {
    if n > 0 {
      HexDigitsAreLower(x / 16, n - 1);
      var r := HexDigits(x, n);
      assert r == HexDigits(x / 16, n - 1) + [HexChar(x % 16)];
      forall i | 0 <= i < n ensures IsLowerHexDigit(r[i]) {
        if i < n - 1 {
          assert r[i] == HexDigits(x / 16, n - 1)[i];
        }
      }
    }
  }

  /** Two lowercase hexadecimal digits per byte. */
  function HexOfBytes(bs: seq<byte>): (r: string)
    ensures |r| == 2 * |bs|
  {
    if bs == [] then ""
    else HexOfBytes(bs[..|bs| - 1]) + [HexChar(bs[|bs| - 1] / 16), HexChar(bs[|bs| - 1] % 16)]
  }

  lemma {:induction false} HexOfBytesAreHex(bs: seq<byte>)
    ensures AllHexDigits(HexOfBytes(bs))
  {
    if bs != [] {
      var init := bs[..|bs| - 1];
      HexOfBytesAreHex(init);
      var r := HexOfBytes(bs);
      forall i | 0 <= i < |r| ensures IsHexDigit(r[i]) {
        if i < |r| - 2 {
          assert r[i] == HexOfBytes(init)[i];
        } else {
          assert IsLowerHexDigit(r[i]);
        }
      }
    }
  }

  /** `bytes.fromhex` inverts the two-digits-per-byte form. */
  lemma {:induction false} FromHexOfHexOfBytes(bs: seq<byte>)
    ensures FromHex(HexOfBytes(bs)) == Some(bs)
  {
    if bs != [] {
      var init, last := bs[..|bs| - 1], bs[|bs| - 1];
      FromHexOfHexOfBytes(init);
      HexOfBytesAreHex(init);
      HexValueOfHexChar(last / 16);
      HexValueOfHexChar(last % 16);
      FromHexSnoc(HexOfBytes(init), HexChar(last / 16), HexChar(last % 16));
      assert bs == init + [last];
    }
  }

  lemma DigitSplit(x: nat)
    ensures x / 16 / 16 == x / 256
    ensures (x % 256) / 16 == (x / 16) % 16 && (x % 256) % 16 == x % 16
  {
  }

  /** The 2m-digit form of x is the hexadecimal form of its m big-endian bytes. */
  lemma {:induction false} HexDigitsAreHexOfBytes(x: nat, m: nat)
    requires x < Pow256(m)
    ensures HexDigits(x, 2 * m) == HexOfBytes(ToBytesBE(x, m))
  {
    if m > 0 {
      ToBytesBELast(x, m);
      HexDigitsAreHexOfBytes(x / 256, m - 1);
      DigitSplit(x);
      var bs := ToBytesBE(x, m);
      assert bs[..|bs| - 1] == ToBytesBE(x / 256, m - 1);
      assert HexDigits(x, 2 * m) == HexDigits(x / 16 / 16, 2 * m - 2) + [HexChar((x / 16) % 16), HexChar(x % 16)];
    }
  }

  /** Round trip of the position key: `bytes.fromhex(format_zobrist_key_hex(k))`
      is the 8-byte big-endian encoding of k. */
  lemma KeyHexRoundTrip(key: u64)
    ensures Pow256(8) == 0x1_0000_0000_0000_0000
    ensures FromHex(FormatZobristKeyHex(key)) == Some(ToBytesBE(key, 8))
  {
    HexDigitsAreHexOfBytes(key, 8);
    FromHexOfHexOfBytes(ToBytesBE(key, 8));
  }

  /** Distinct Zobrist keys give distinct hexadecimal keys (the book never merges
      two hashes into one position). */
  lemma KeyHexInjective(k1: u64, k2: u64)
    requires FormatZobristKeyHex(k1) == FormatZobristKeyHex(k2)
    ensures k1 == k2
  {
    KeyHexRoundTrip(k1);
    KeyHexRoundTrip(k2);
    BytesRoundTrip(k1, 8);
    BytesRoundTrip(k2, 8);
  }
}
