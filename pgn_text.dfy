/** The Python string operations the PGN helpers of fetch_and_build.py rely on:
    `str.splitlines`, `str.strip`, `str.startswith`, `str.split('"')[1]` and `int(str)`,
    each with the character classes CPython uses. */
module PgnText {
  import opened Wrappers

  /** `str.isspace()`: the characters `strip()` removes. */
  predicate IsSpace(c: char)
  {
    || c == ' ' || ('\t' <= c <= '\r') || ('\U{1c}' <= c <= '\U{1f}')
    || c == '\U{85}' || c == '\U{a0}' || c == '\U{1680}'
    || ('\U{2000}' <= c <= '\U{200a}')
    || c == '\U{2028}' || c == '\U{2029}' || c == '\U{202f}' || c == '\U{205f}' || c == '\U{3000}'
  }

  /** The line boundaries of `str.splitlines()`. */
  predicate IsLineBreak(c: char)
  {
    || ('\n' <= c <= '\r') || ('\U{1c}' <= c <= '\U{1e}')
    || c == '\U{85}' || c == '\U{2028}' || c == '\U{2029}'
  }

  /** `s.lstrip()`. */
  function LStrip(s: string): (r: string)
    ensures |r| <= |s|
  {
    if s == [] || !IsSpace(s[0]) then s else LStrip(s[1..])
  }

  /** `s.rstrip()`. */
  function RStrip(s: string): (r: string)
    ensures |r| <= |s|
  {
    if s == [] || !IsSpace(s[|s| - 1]) then s else RStrip(s[..|s| - 1])
  }

  /** `s.strip()`. */
  function Strip(s: string): string
  {
    RStrip(LStrip(s))
  }

  /** `lstrip` removes the leading spaces and nothing else. */
  lemma {:induction false} LStripRemovesLeadingSpaces(s: string)
    ensures var r := LStrip(s);
      && |r| <= |s| && r == s[|s| - |r|..]
      && (r != [] ==> !IsSpace(r[0]))
      && forall i | 0 <= i < |s| - |r| :: IsSpace(s[i])
  {
    if s != [] && IsSpace(s[0]) {
      LStripRemovesLeadingSpaces(s[1..]);
    }
  }

  /** `rstrip` removes the trailing spaces and nothing else. */
  lemma {:induction false} RStripRemovesTrailingSpaces(s: string)
    ensures var r := RStrip(s);
      && |r| <= |s| && r == s[..|r|]
      && (r != [] ==> !IsSpace(r[|r| - 1]))
      && forall i | |r| <= i < |s| :: IsSpace(s[i])
  {
    if s != [] && IsSpace(s[|s| - 1]) {
      RStripRemovesTrailingSpaces(s[..|s| - 1]);
    }
  }

  /** `strip` leaves a piece of s that neither starts nor ends with a space, and what it
      cuts off at either end is all spaces. */
  lemma StripTrims(s: string)
    ensures var r := Strip(s);
      && (r != [] ==> !IsSpace(r[0]) && !IsSpace(r[|r| - 1]))
      && |LStrip(s)| <= |s| && |s| - |LStrip(s)| + |r| <= |s|
      && r == s[|s| - |LStrip(s)|..|s| - |LStrip(s)| + |r|]
      && (forall i | 0 <= i < |s| - |LStrip(s)| :: IsSpace(s[i]))
      && (forall i | |s| - |LStrip(s)| + |r| <= i < |s| :: IsSpace(s[i]))
  {
    var l := LStrip(s);
    LStripRemovesLeadingSpaces(s);
    RStripRemovesTrailingSpaces(l);
    var r := RStrip(l);
    var a := |s| - |l|;
    assert r == l[..|r|];
    forall i | a + |r| <= i < |s| ensures IsSpace(s[i]) {
      assert s[i] == l[i - a];
    }
  }

  /** A string without spaces at its ends is its own strip. */
  lemma StripTrimmed(s: string)
    requires s != [] ==> !IsSpace(s[0]) && !IsSpace(s[|s| - 1])
    ensures Strip(s) == s
  {
  }

  /** The index of the first occurrence of c in s, |s| when there is none. */
  function IndexOf(s: string, c: char): (i: nat)
    ensures i <= |s|
    ensures i < |s| ==> s[i] == c
    ensures forall j | 0 <= j < i :: s[j] != c
  {
    if s == [] || s[0] == c then 0 else 1 + IndexOf(s[1..], c)
  }

  /** The index of the first line boundary in s, |s| when there is none. */
  function LineEnd(s: string): (i: nat)
    ensures i <= |s|
    ensures i < |s| ==> IsLineBreak(s[i])
    ensures forall j | 0 <= j < i :: !IsLineBreak(s[j])
  {
    if s == [] || IsLineBreak(s[0]) then 0 else 1 + LineEnd(s[1..])
  }

  predicate NoLineBreak(l: string)
  {
    forall i | 0 <= i < |l| :: !IsLineBreak(l[i])
  }

  /** `s.splitlines()`: the text between line boundaries, "\r\n" counting as one
      boundary and a final boundary not starting another line. */
  function SplitLines(s: string): (r: seq<string>)
    ensures forall k | 0 <= k < |r| :: NoLineBreak(r[k])
    decreases |s|
  {
    if s == [] then []
    else
      var i := LineEnd(s);
      if i == |s| then [s]
      else
        var next := if s[i] == '\r' && i + 1 < |s| && s[i + 1] == '\n' then i + 2 else i + 1;
        [s[..i]] + SplitLines(s[next..])
  }

  /** The lines, each followed by "\n". */
  function JoinLines(ls: seq<string>): string
  {
    if ls == [] then "" else JoinLines(ls[..|ls| - 1]) + ls[|ls| - 1] + "\n"
  }

  lemma {:induction false} JoinLinesCons(l: string, ls: seq<string>)
    ensures JoinLines([l] + ls) == l + "\n" + JoinLines(ls)
    decreases |ls|
  {
    if ls != [] {
      var init, last := ls[..|ls| - 1], ls[|ls| - 1];
      assert ([l] + ls)[..|ls|] == [l] + init;
      JoinLinesCons(l, init);
    } else {
      assert [l] + ls == [l];
    }
  }

  lemma LineEndOfLine(l: string, rest: string)
    requires NoLineBreak(l)
    ensures LineEnd(l + "\n" + rest) == |l|
  {
    var s := l + "\n" + rest;
    assert s[|l|] == '\n';
    assert forall j | 0 <= j < |l| :: s[j] == l[j];
  }

  /** Splitting lines written one per "\n" gives the lines back. */
  lemma {:induction false} SplitJoinLines(ls: seq<string>)
    requires forall k | 0 <= k < |ls| :: NoLineBreak(ls[k])
    ensures SplitLines(JoinLines(ls)) == ls
    decreases |ls|
  {
    if ls != [] {
      var l, rest := ls[0], ls[1..];
      assert ls == [l] + rest;
      JoinLinesCons(l, rest);
      var s := l + "\n" + JoinLines(rest);
      LineEndOfLine(l, JoinLines(rest));
      assert s[..|l|] == l;
      assert s[|l| + 1..] == JoinLines(rest);
      SplitJoinLines(rest);
    }
  }

  /** `s.startswith(prefix)`. */
  predicate StartsWith(s: string, prefix: string)
  {
    |prefix| <= |s| && s[..|prefix|] == prefix
  }

  /** `s.split('"')[1]`: the text after the first quote up to the next one (or the end),
      None where the split has one part and indexing it raises IndexError. */
  function QuotedField(s: string): (r: Option<string>)
    ensures r.None? <==> '"' !in s
    ensures r.Some? ==> '"' !in r.value
  {
    var i := IndexOf(s, '"');
    if i == |s| then
      assert forall c | c in s :: c != '"';
      None
    else
      assert s[i] in s;
      var rest := s[i + 1..];
      Some(rest[..IndexOf(rest, '"')])
  }

  lemma IndexOfAt(s: string, c: char, k: nat)
    requires k < |s| && s[k] == c
    requires forall j | 0 <= j < k :: s[j] != c
    ensures IndexOf(s, c) == k
  {
  }

  /** A tag line `[Name "value"]` yields its value. */
  lemma QuotedFieldOfTag(name: string, v: string, rest: string)
    requires '"' !in name && '"' !in v
    ensures QuotedField(name + "\"" + v + "\"" + rest) == Some(v)
  {
    var s := name + "\"" + v + "\"" + rest;
    forall j | 0 <= j < |name| ensures s[j] != '"' {
      assert s[j] == name[j] && name[j] in name;
    }
    IndexOfAt(s, '"', |name|);
    var after := s[|name| + 1..];
    assert after == v + "\"" + rest;
    forall j | 0 <= j < |v| ensures after[j] != '"' {
      assert after[j] == v[j] && v[j] in v;
    }
    IndexOfAt(after, '"', |v|);
    assert after[..|v|] == v;
  }

  predicate IsDigit(c: char)
  {
    '0' <= c <= '9'
  }

  /** The digits of an integer literal as `int()` accepts them: at least one ASCII
      digit, single underscores allowed between digits. */
  predicate DigitRun(d: string)
  {
    && d != [] && IsDigit(d[0]) && IsDigit(d[|d| - 1])
    && (forall i | 0 <= i < |d| :: IsDigit(d[i]) || d[i] == '_')
    && (forall i | 0 <= i < |d| - 1 :: !(d[i] == '_' && d[i + 1] == '_'))
  }

  /** The value of a run of digits and underscores, read in base 10. */
  function DigitsValue(d: string): nat
  {
    if d == [] then 0
    else if !IsDigit(d[|d| - 1]) then DigitsValue(d[..|d| - 1])
    else DigitsValue(d[..|d| - 1]) * 10 + (d[|d| - 1] as int - '0' as int)
  }

  /** `int(s)` on text: surrounding spaces stripped, an optional sign, then digits;
      None where Python raises ValueError. */
  function ParseInt(s: string): (r: Option<int>)
  {
    var t := Strip(s);
    if t == [] then None
    else
      var negative := t[0] == '-';
      var digits := if t[0] == '-' || t[0] == '+' then t[1..] else t;
      if !DigitRun(digits) then None
      else if negative then Some(-(DigitsValue(digits) as int))
      else Some(DigitsValue(digits))
  }

  /** `str(n)` for a natural number: its decimal digits, no leading zero. */
  function DecimalString(n: nat): (r: string)
    ensures r != [] && forall i | 0 <= i < |r| :: IsDigit(r[i])
  {
    if n < 10 then [('0' as int + n) as char]
    else DecimalString(n / 10) + [('0' as int + n % 10) as char]
  }

  /** `str(n)`. */
  function IntString(n: int): (r: string)
  {
    if n < 0 then "-" + DecimalString(-n) else DecimalString(n)
  }

  lemma {:induction false} DecimalStringValue(n: nat)
    ensures DigitRun(DecimalString(n)) && DigitsValue(DecimalString(n)) == n
  {
    if n >= 10 {
      DecimalStringValue(n / 10);
      var d := DecimalString(n);
      assert d[..|d| - 1] == DecimalString(n / 10);
    }
  }

  /** `int(str(n)) == n`: the ratings PGN writes read back as written. */
  lemma ParseIntString(n: int)
    ensures ParseInt(IntString(n)) == Some(n)
  {
    if n < 0 {
      ParseNegative(-n);
    } else {
      ParseNatural(n);
    }
  }

  lemma ParseNatural(n: nat)
    ensures ParseInt(DecimalString(n)) == Some(n)
  {
    var s := DecimalString(n);
    DecimalStringValue(n);
    assert IsDigit(s[0]) && IsDigit(s[|s| - 1]);
    StripTrimmed(s);
  }

  lemma ParseNegative(n: nat)
    requires n > 0
    ensures ParseInt("-" + DecimalString(n)) == Some(-(n as int))
  {
    var d := DecimalString(n);
    var s := "-" + d;
    DecimalStringValue(n);
    assert IsDigit(s[|s| - 1]);
    StripTrimmed(s);
    assert s[1..] == d;
  }
}
