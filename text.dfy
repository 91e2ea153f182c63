/** The Python `str` operations that the segmenter and the comparator rely on,
    over Dafny strings (sequences of Unicode scalar values). */
module Text {

  datatype Option<T> = None | Some(value: T)

  /** `c.isspace()`: the characters Python treats as whitespace, which are also
      the ones `\s` matches in a `str` regular expression and `strip()` removes. */
  predicate IsSpace(c: char) {
    || ('\U{9}' <= c <= '\U{D}')
    || ('\U{1C}' <= c <= '\U{20}')
    || c == '\U{85}' || c == '\U{A0}' || c == '\U{1680}'
    || ('\U{2000}' <= c <= '\U{200A}')
    || c == '\U{2028}' || c == '\U{2029}' || c == '\U{202F}' || c == '\U{205F}' || c == '\U{3000}'
  }

  /** The characters at which `str.splitlines()` ends a line. */
  predicate IsLineBreak(c: char) {
    || ('\U{A}' <= c <= '\U{D}')
    || ('\U{1C}' <= c <= '\U{1E}')
    || c == '\U{85}' || c == '\U{2028}' || c == '\U{2029}'
  }

  predicate IsDigit(c: char) { '0' <= c <= '9' }
  predicate IsAsciiUpper(c: char) { 'A' <= c <= 'Z' }
  predicate IsAsciiLetter(c: char) { 'A' <= c <= 'Z' || 'a' <= c <= 'z' }

  ghost predicate NoLineBreak(s: string) {
    forall i :: 0 <= i < |s| ==> !IsLineBreak(s[i])
  }

  /** `s.lstrip()`: the longest suffix of `s` that does not start with whitespace. */
  function StripStart(s: string): (t: string)
    ensures |t| <= |s|
    ensures forall i :: 0 <= i < |s| - |t| ==> IsSpace(s[i])
    ensures t == [] || !IsSpace(t[0])
  {
    if s != [] && IsSpace(s[0]) then StripStart(s[1..]) else s
  }

  /** `s.rstrip()`: the longest prefix of `s` that does not end with whitespace. */
  function StripEnd(s: string): (t: string)
    ensures |t| <= |s|
    ensures forall i :: |t| <= i < |s| ==> IsSpace(s[i])
    ensures t == [] || !IsSpace(t[|t| - 1])
  {
    if s != [] && IsSpace(s[|s| - 1]) then StripEnd(s[..|s| - 1]) else s
  }

  /** `lstrip()` keeps the characters after the whitespace it removes. */
  lemma {:induction false} StripStartSuffix(s: string)
    ensures forall i :: 0 <= i < |StripStart(s)| ==> StripStart(s)[i] == s[|s| - |StripStart(s)| + i]
  {
    if s != [] && IsSpace(s[0]) {
      StripStartSuffix(s[1..]);
    }
  }

  /** `rstrip()` keeps the characters before the whitespace it removes. */
  lemma {:induction false} StripEndPrefix(s: string)
    ensures forall i :: 0 <= i < |StripEnd(s)| ==> StripEnd(s)[i] == s[i]
  {
    if s != [] && IsSpace(s[|s| - 1]) {
      StripEndPrefix(s[..|s| - 1]);
    }
  }

  /** `s.strip()` */
  function Strip(s: string): (t: string)
    ensures t == [] <==> forall i :: 0 <= i < |s| ==> IsSpace(s[i])
    ensures t == [] || (!IsSpace(t[0]) && !IsSpace(t[|t| - 1]))
  {
    var u := StripStart(s);
    var t := StripEnd(u);
    assert u != [] ==> u[0] == s[|s| - |u|] && !IsSpace(u[0]) by {
      StripStartSuffix(s);
    }
    assert t != [] ==> t[0] == u[0] by {
      StripEndPrefix(u);
    }
    assert t == [] ==> u == [];
    t
  }

  /** Text that neither starts nor ends with whitespace is its own `strip()`. */
  lemma StripTrimmed(s: string)
    requires s == [] || (!IsSpace(s[0]) && !IsSpace(s[|s| - 1]))
    ensures Strip(s) == s
  {
    var u := StripStart(s);
    assert u == s by {
      StripStartSuffix(s);
    }
    var t := StripEnd(u);
    assert t == u by {
      StripEndPrefix(u);
    }
  }

  /** Whitespace in front of `s` does not change `s.strip()`. */
  lemma StripSpaceBefore(c: char, s: string)
    requires IsSpace(c)
    ensures Strip([c] + s) == Strip(s)
  {
    assert ([c] + s)[1..] == s;
  }

  /** Whitespace in front of `s`, however much, does not change `s.strip()`. */
  lemma {:induction false} StripIndented(ws: string, s: string)
    requires forall i :: 0 <= i < |ws| ==> IsSpace(ws[i])
    ensures Strip(ws + s) == Strip(s)
  {
    if ws != [] {
      assert ws + s == [ws[0]] + (ws[1..] + s);
      StripSpaceBefore(ws[0], ws[1..] + s);
      StripIndented(ws[1..], s);
    } else {
      assert ws + s == s;
    }
  }

  /** Text that does not start with whitespace is its own `lstrip()`. */
  lemma StripStartNoSpace(s: string)
    requires s == [] || !IsSpace(s[0])
    ensures StripStart(s) == s
  {
  }

  /** A stretch that neither starts nor ends with whitespace survives, at the
      front, the `strip()` of any text it begins. */
  lemma StripKeepsPrefix(p: string, r: string)
    requires p != [] && !IsSpace(p[0]) && !IsSpace(p[|p| - 1])
    ensures p <= Strip(p + r)
  {
    var s := p + r;
    var t := StripEnd(s);
    assert Strip(s) == t by {
      StripStartNoSpace(s);
    }
    assert |t| >= |p| by {
      assert !IsSpace(s[|p| - 1]);
    }
    assert forall i :: 0 <= i < |p| ==> t[i] == p[i] by {
      StripEndPrefix(s);
      forall i | 0 <= i < |p|
        ensures t[i] == p[i]
      {
        assert t[i] == s[i];
      }
    }
  }

  /** Position of the first line break in `s`, or `|s|` when there is none. */
  function BreakIndex(s: string): (i: nat)
    ensures i <= |s|
    ensures forall j :: 0 <= j < i ==> !IsLineBreak(s[j])
    ensures i < |s| ==> IsLineBreak(s[i])
  {
    if s == [] || IsLineBreak(s[0]) then 0 else 1 + BreakIndex(s[1..])
  }

  /** `s.splitlines()`: the lines of `s` without their terminators. "\r\n" ends
      one line; a terminator at the very end does not start another line. */
  function SplitLines(s: string): (lines: seq<string>)
    ensures lines == [] <==> s == []
    ensures forall i :: 0 <= i < |lines| ==> NoLineBreak(lines[i])
    decreases |s|
  {
    if s == [] then []
    else
      var i := BreakIndex(s);
      if i == |s| then [s]
      else
        var next := if s[i] == '\r' && i + 1 < |s| && s[i + 1] == '\n' then i + 2 else i + 1;
        [s[..i]] + SplitLines(s[next..])
  }

  /** `"\n".join(lines)` */
  function Join(lines: seq<string>): (s: string)
    ensures lines != [] ==> lines[0] <= s
  {
    if lines == [] then ""
    else if |lines| == 1 then lines[0]
    else lines[0] + "\n" + Join(lines[1..])
  }

  /** Joining lines that hold no line break, the last one not empty, and
      splitting the result again gives the lines back. */
  lemma {:induction false} SplitLinesJoin(lines: seq<string>)
    requires forall i :: 0 <= i < |lines| ==> NoLineBreak(lines[i])
    requires lines == [] || lines[|lines| - 1] != ""
    ensures SplitLines(Join(lines)) == lines
  {
    if |lines| == 1 {
      var s := lines[0];
      assert BreakIndex(s) == |s|;
    } else if |lines| > 1 {
      JoinSplitsFirst(lines[0], Join(lines[1..]));
      assert Join(lines) == lines[0] + "\n" + Join(lines[1..]);
      SplitLinesJoin(lines[1..]);
    }
  }

  /** A line break after a line without one splits off exactly that line. */
  lemma JoinSplitsFirst(first: string, rest: string)
    requires NoLineBreak(first)
    ensures SplitLines(first + "\n" + rest) == [first] + SplitLines(rest)
  {
    var s := first + "\n" + rest;
    assert forall j :: 0 <= j < |first| ==> s[j] == first[j];
    assert s[|first|] == '\n';
    assert BreakIndex(s) == |first|;
    assert s[..|first|] == first;
    assert s[|first| + 1..] == rest;
  }

  /** `c.lower()`, restricted to what matters when the result is compared with
      lower-case ASCII text: ASCII capitals and the Kelvin sign (which lowers to
      'k'); every other character lowers to a character or text outside ASCII or
      to itself, so it is kept as it is. */
  function LowerChar(c: char): char {
    if IsAsciiUpper(c) then (c as int + 32) as char
    else if c == '\U{212A}' then 'k'
    else c
  }

  /** `s.lower()` */
  function Lower(s: string): (t: string)
    ensures |t| == |s| && forall i :: 0 <= i < |s| ==> t[i] == LowerChar(s[i])
  {
    seq(|s|, i requires 0 <= i < |s| => LowerChar(s[i]))
  }

  /** Lowering twice is lowering once. */
  lemma LowerIdempotent(s: string)
    ensures Lower(Lower(s)) == Lower(s)
  {
  }

  /** Position of the first `c` in `s`, or `|s|` when there is none. */
  function IndexOf(s: string, c: char): (i: nat)
    ensures i <= |s|
    ensures forall j :: 0 <= j < i ==> s[j] != c
    ensures i < |s| ==> s[i] == c
  {
    if s == [] || s[0] == c then 0 else 1 + IndexOf(s[1..], c)
  }

  /** `s.split(c, 1)[1]`: the text after the first `c`. */
  function AfterFirst(s: string, c: char): string
    requires c in s
  {
    s[IndexOf(s, c) + 1..]
  }

  /** `s.replace(c, '')` for a single character `c`. */
  function RemoveAll(s: string, c: char): (r: string)
    ensures c !in r
    ensures c !in s ==> r == s
  {
    if s == [] then []
    else (if s[0] == c then [] else [s[0]]) + RemoveAll(s[1..], c)
  }

  /** Removing characters adds none: what is left all comes from `s`. */
  lemma {:induction false} RemoveAllKeeps(s: string, c: char)
    ensures forall i :: 0 <= i < |RemoveAll(s, c)| ==> RemoveAll(s, c)[i] in s
  {
    if s != [] {
      RemoveAllKeeps(s[1..], c);
      var r := RemoveAll(s, c);
      var head := if s[0] == c then [] else [s[0]];
      assert r == head + RemoveAll(s[1..], c);
      forall i | 0 <= i < |r|
        ensures r[i] in s
      {
        if i >= |head| {
          assert r[i] == RemoveAll(s[1..], c)[i - |head|];
          assert r[i] in s[1..];
        }
      }
    }
  }

  lemma {:induction false} RemoveAllAppend(a: string, b: string, c: char)
    ensures RemoveAll(a + b, c) == RemoveAll(a, c) + RemoveAll(b, c)
  {
    if a != [] {
      var head := if a[0] == c then [] else [a[0]];
      assert (a + b)[0] == a[0] && (a + b)[1..] == a[1..] + b;
      assert RemoveAll(a + b, c) == head + RemoveAll(a[1..] + b, c);
      RemoveAllAppend(a[1..], b, c);
      assert RemoveAll(a, c) == head + RemoveAll(a[1..], c);
    } else {
      assert a + b == b;
    }
  }

  /** Removing `c` from `a + [c] + b` is removing it from `a + b`. */
  lemma RemoveAllDropsOne(a: string, b: string, c: char)
    ensures RemoveAll(a + [c] + b, c) == RemoveAll(a + b, c)
  {
    assert [c][1..] == [];
    assert RemoveAll([c], c) == [];
    RemoveAllAppend(a, [c], c);
    assert RemoveAll(a + [c], c) == RemoveAll(a, c);
    RemoveAllAppend(a + [c], b, c);
    RemoveAllAppend(a, b, c);
  }

  /** Value of a non-empty string of ASCII digits, most significant first. */
  function DigitsValue(ds: string): nat
    requires forall i :: 0 <= i < |ds| ==> IsDigit(ds[i])
  {
    if ds == [] then 0
    else
      var d := ds[|ds| - 1];
      assert IsDigit(d);
      10 * DigitsValue(ds[..|ds| - 1]) + (d as int - '0' as int)
  }

  /** The digit part `int()` accepts in base 10: digits, with single underscores
      allowed between two digits. */
  predicate IsDigitGroups(t: string) {
    && |t| > 0 && IsDigit(t[0]) && IsDigit(t[|t| - 1])
    && (forall i :: 0 <= i < |t| ==> IsDigit(t[i]) || t[i] == '_')
    && (forall i :: 0 <= i < |t| - 1 ==> !DoubleUnderscore(t, i))
  }

  /** Two underscores in a row at `i`. */
  predicate DoubleUnderscore(t: string, i: nat)
    requires i < |t| - 1
  {
    t[i] == '_' && t[i + 1] == '_'
  }

  /** The most digits `int` converts from a string, and `str` into one
      (`sys.int_info.default_max_str_digits`); beyond it both raise `ValueError`. */
  const MaxStrDigits: nat := 4300

  /** The digit part of `int(s)`, after the sign: digit groups of at most
      `MaxStrDigits` digits in all, read as their value. */
  function ParseUnsigned(digits: string): (r: Option<nat>)
  {
    if IsDigitGroups(digits) then
      var plain := RemoveAll(digits, '_');
      assert forall i :: 0 <= i < |plain| ==> IsDigit(plain[i]) by {
        RemoveAllKeeps(digits, '_');
      }
      if |plain| > MaxStrDigits then None else Some(DigitsValue(plain))
    else None
  }

  /** Plain digits, at most `MaxStrDigits` of them, are read as their value. */
  lemma ParseUnsignedDigits(ds: string)
    requires 0 < |ds| <= MaxStrDigits && forall i :: 0 <= i < |ds| ==> IsDigit(ds[i])
    ensures ParseUnsigned(ds) == Some(DigitsValue(ds))
  {
    assert '_' !in ds;
  }

  /** The whitespace `int()` skips around a number: that of `str.isspace()`
      except the four separators U+001C..U+001F, which `int()` refuses. */
  predicate IsIntSpace(c: char) {
    IsSpace(c) && !('\U{1C}' <= c <= '\U{1F}')
  }

  /** The longest suffix of `s` that does not start with `int()` whitespace. */
  function IntStripStart(s: string): (t: string)
    ensures |t| <= |s|
    ensures forall i :: 0 <= i < |s| - |t| ==> IsIntSpace(s[i])
    ensures t == [] || !IsIntSpace(t[0])
  {
    if s != [] && IsIntSpace(s[0]) then IntStripStart(s[1..]) else s
  }

  /** The longest prefix of `s` that does not end with `int()` whitespace. */
  function IntStripEnd(s: string): (t: string)
    ensures |t| <= |s|
    ensures forall i :: |t| <= i < |s| ==> IsIntSpace(s[i])
    ensures t == [] || !IsIntSpace(t[|t| - 1])
  {
    if s != [] && IsIntSpace(s[|s| - 1]) then IntStripEnd(s[..|s| - 1]) else s
  }

  lemma {:induction false} IntStripStartSuffix(s: string)
    ensures forall i :: 0 <= i < |IntStripStart(s)| ==> IntStripStart(s)[i] == s[|s| - |IntStripStart(s)| + i]
  {
    if s != [] && IsIntSpace(s[0]) {
      IntStripStartSuffix(s[1..]);
    }
  }

  lemma {:induction false} IntStripEndPrefix(s: string)
    ensures forall i :: 0 <= i < |IntStripEnd(s)| ==> IntStripEnd(s)[i] == s[i]
  {
    if s != [] && IsIntSpace(s[|s| - 1]) {
      IntStripEndPrefix(s[..|s| - 1]);
    }
  }

  /** The text `int()` reads once the whitespace around the number is skipped. */
  function IntStrip(s: string): (t: string)
    ensures t == [] <==> forall i :: 0 <= i < |s| ==> IsIntSpace(s[i])
    ensures t == [] || (!IsIntSpace(t[0]) && !IsIntSpace(t[|t| - 1]))
  {
    var u := IntStripStart(s);
    var t := IntStripEnd(u);
    assert u != [] ==> u[0] == s[|s| - |u|] && !IsIntSpace(u[0]) by {
      IntStripStartSuffix(s);
    }
    assert t != [] ==> t[0] == u[0] by {
      IntStripEndPrefix(u);
    }
    assert t == [] ==> u == [];
    t
  }

  /** Text that neither starts nor ends with `int()` whitespace is kept whole. */
  lemma IntStripTrimmed(s: string)
    requires s == [] || (!IsIntSpace(s[0]) && !IsIntSpace(s[|s| - 1]))
    ensures IntStrip(s) == s
  {
    var u := IntStripStart(s);
    assert u == s by {
      IntStripStartSuffix(s);
    }
    var t := IntStripEnd(u);
    assert t == u by {
      IntStripEndPrefix(u);
    }
  }

  /** `int()` skips its whitespace only: every other character stays, the
      separators U+001C..U+001F among them. */
  lemma IntStripKeeps(s: string, i: nat)
    requires i < |s| && !IsIntSpace(s[i])
    ensures s[i] in IntStrip(s)
  {
    var u := IntStripStart(s);
    var k := i - (|s| - |u|);
    assert 0 <= k < |u| && u[k] == s[i] by {
      IntStripStartSuffix(s);
    }
    var t := IntStripEnd(u);
    assert k < |t| && t[k] == u[k] by {
      IntStripEndPrefix(u);
    }
  }

  /** `int(s)`: `None` where Python raises `ValueError`. The whitespace around
      the number that `int()` skips (`IsIntSpace`) is ignored, then an optional
      sign, then the digits (`ParseUnsigned`). */
  function ParseInt(s: string): (r: Option<int>)
  {
    var t := IntStrip(s);
    var signed := |t| > 0 && (t[0] == '+' || t[0] == '-');
    match ParseUnsigned(if signed then t[1..] else t)
    case None => None
    case Some(n) => Some(if signed && t[0] == '-' then -(n as int) else n as int)
  }

  /** `int` refuses text with a character that is neither whitespace it skips,
      a sign, a digit nor an underscore: a decimal point, a letter, a percent
      sign, one of the separators U+001C..U+001F. */
  lemma ParseIntRefusesStray(s: string, i: nat)
    requires i < |s|
    requires !IsIntSpace(s[i]) && !IsDigit(s[i]) && s[i] !in "_+-"
    ensures ParseInt(s) == None
  {
    IntStripKeeps(s, i);
  }

  /** `int` refuses empty or blank text. */
  lemma ParseIntRefusesBlank(s: string)
    requires forall i :: 0 <= i < |s| ==> IsSpace(s[i])
    ensures ParseInt(s) == None
  {
    var u := IntStripStart(s);
    var t := IntStripEnd(u);
    if t != [] {
      assert t[0] == s[|s| - |u|] by {
        IntStripStartSuffix(s);
        IntStripEndPrefix(u);
      }
    }
  }

  /** More than `MaxStrDigits` digits make `int` fail, whatever their value. */
  lemma TooManyDigitsFail(ds: string)
    requires forall i :: 0 <= i < |ds| ==> IsDigit(ds[i])
    requires |ds| > MaxStrDigits
    ensures ParseInt(ds) == None
  {
    IntStripDigits(ds);
    ParseIntUnsigned(ds);
    assert ParseUnsigned(ds) == None by {
      assert '_' !in ds;
    }
  }

  /** `str(n)` succeeds: the digits of `n` are at most `MaxStrDigits`. */
  predicate Printable(n: int) {
    |NatToString(if n < 0 then -n else n)| <= MaxStrDigits
  }

  /** `str(n)` for a natural number. */
  function NatToString(n: nat): (s: string)
    ensures |s| > 0 && forall i :: 0 <= i < |s| ==> IsDigit(s[i])
  {
    var last := ['0' + (n % 10) as char];
    if n < 10 then last else NatToString(n / 10) + last
  }

  /** `str(n)` */
  function IntToString(n: int): string {
    if n < 0 then "-" + NatToString(-n) else NatToString(n)
  }

  lemma {:induction false} NatToStringValue(n: nat)
    ensures DigitsValue(NatToString(n)) == n
  {
    var s := NatToString(n);
    if n >= 10 {
      NatToStringValue(n / 10);
      assert s[..|s| - 1] == NatToString(n / 10);
    }
  }

  /** `int()` skips nothing around plain digits. */
  lemma IntStripDigits(ds: string)
    requires 0 < |ds| && forall i :: 0 <= i < |ds| ==> IsDigit(ds[i])
    ensures IntStrip(ds) == ds
  {
    assert !IsIntSpace(ds[0]) && !IsIntSpace(ds[|ds| - 1]);
    IntStripTrimmed(ds);
  }

  /** Text `int()` skips nothing around, with no sign in front: `int` reads it as the digit part. */
  lemma ParseIntUnsigned(t: string)
    requires IntStrip(t) == t && (t == [] || (t[0] != '+' && t[0] != '-'))
    ensures ParseInt(t) == (match ParseUnsigned(t) case None => None case Some(n) => Some(n as int))
  {
  }

  /** Text `int()` skips nothing around, after a minus sign: `int` reads the digit part, when it
      can, negated. */
  lemma ParseIntMinus(s: string, v: nat)
    requires |s| > 0 && s[0] == '-' && IntStrip(s) == s && ParseUnsigned(s[1..]) == Some(v)
    ensures ParseInt(s) == Some(-(v as int))
  {
  }

  /** `int` reads a string of at most `MaxStrDigits` digits as their value. */
  lemma ParseIntDigits(ds: string)
    requires 0 < |ds| <= MaxStrDigits && forall i :: 0 <= i < |ds| ==> IsDigit(ds[i])
    ensures ParseInt(ds) == Some(DigitsValue(ds))
  {
    IntStripDigits(ds);
    ParseIntUnsigned(ds);
    ParseUnsignedDigits(ds);
  }

  /** `int()` skips nothing around a minus sign followed by digits. */
  lemma IntStripSignedDigits(s: string)
    requires 1 < |s| && s[0] == '-' && forall i :: 1 <= i < |s| ==> IsDigit(s[i])
    ensures IntStrip(s) == s
  {
    assert !IsIntSpace(s[0]) && !IsIntSpace(s[|s| - 1]);
    IntStripTrimmed(s);
  }

  /** The digits after the minus sign are read as their value. */
  lemma ParseUnsignedAfterSign(s: string)
    requires 1 < |s| <= MaxStrDigits + 1 && forall i :: 1 <= i < |s| ==> IsDigit(s[i])
    ensures ParseUnsigned(s[1..]) == Some(DigitsValue(s[1..]))
  {
    var ds := s[1..];
    forall i | 0 <= i < |ds|
      ensures IsDigit(ds[i])
    {
      assert ds[i] == s[i + 1];
    }
    ParseUnsignedDigits(ds);
  }

  /** `int` reads such digits after a minus sign as their value negated. */
  lemma ParseIntNegated(s: string)
    requires 1 < |s| <= MaxStrDigits + 1 && s[0] == '-'
    requires forall i :: 1 <= i < |s| ==> IsDigit(s[i])
    ensures ParseInt(s) == Some(-(DigitsValue(s[1..]) as int))
  {
    IntStripSignedDigits(s);
    ParseUnsignedAfterSign(s);
    ParseIntMinus(s, DigitsValue(s[1..]));
  }

  /** `int(str(n)) == n` wherever `str(n)` succeeds. */
  lemma ParseIntToString(n: int)
    requires Printable(n)
    ensures ParseInt(IntToString(n)) == Some(n)
  {
    var m: nat := if n < 0 then -n else n;
    NatToStringValue(m);
    if n < 0 {
      var s := IntToString(n);
      assert s[1..] == NatToString(m);
      ParseIntNegated(s);
    } else {
      ParseIntDigits(NatToString(m));
    }
  }
}
