/** The built-in string operations of Python that the downloader relies on:
    substring replacement, splitting on and joining with a separator, trimming whitespace,
    rendering a natural number in decimal and left-padding it with zeros. */
module Text {

  /* ---------------- replace ---------------- */

  /** `s.replace(pat, rep)`: every non-overlapping occurrence of `pat`, found scanning
      left to right, is replaced by `rep`. */
  function Replace(s: string, pat: string, rep: string): string
    requires pat != []
    decreases |s|
  {
    if |s| < |pat| then s
    else if s[..|pat|] == pat then rep + Replace(s[|pat|..], pat, rep)
    else [s[0]] + Replace(s[1..], pat, rep)
  }

  /** Replacing a pattern whose first character never occurs changes nothing. */
  lemma {:induction false} ReplaceAbsent(s: string, pat: string, rep: string)
    requires pat != [] && pat[0] !in s
    ensures Replace(s, pat, rep) == s
    decreases |s|
  {
    if |pat| <= |s| {
      assert s[..|pat|][0] == s[0];
      ReplaceAbsent(s[1..], pat, rep);
      assert [s[0]] + s[1..] == s;
    }
  }

  /** Replacing one character by another maps the string character by character. */
  lemma {:induction false} ReplaceChar(s: string, c: char, d: char)
    ensures |Replace(s, [c], [d])| == |s|
    ensures forall k :: 0 <= k < |s| ==> Replace(s, [c], [d])[k] == if s[k] == c then d else s[k]
    decreases |s|
  {
    if s != [] {
      ReplaceChar(s[1..], c, d);
      assert s[..1] == [s[0]];
      var head := if s[0] == c then [d] else [s[0]];
      assert Replace(s, [c], [d]) == head + Replace(s[1..], [c], [d]);
    }
  }

  /* ---------------- split and join ---------------- */

  /** `s.split(sep)` for a one-character separator: the maximal runs between separators,
      built here from the right (the runs are the same as Python's left-to-right scan). */
  function Split(s: string, sep: char): (parts: seq<string>)
    ensures |parts| >= 1
    decreases |s|
  {
    if s == [] then [[]]
    else
      var init := Split(s[..|s| - 1], sep);
      var x := s[|s| - 1];
      if x == sep then init + [[]]
      else init[..|init| - 1] + [init[|init| - 1] + [x]]
  }

  /** A split has one part exactly when the separator does not occur, and no part
      contains the separator. */
  lemma {:induction false} SplitParts(s: string, sep: char)
    ensures |Split(s, sep)| == 1 <==> sep !in s
    ensures forall k :: 0 <= k < |Split(s, sep)| ==> sep !in Split(s, sep)[k]
    decreases |s|
  {
    if s != [] {
      var s' := s[..|s| - 1];
      var x := s[|s| - 1];
      SplitParts(s', sep);
      assert s == s' + [x];
      var init := Split(s', sep);
      var parts := Split(s, sep);
      if x != sep {
        forall k | 0 <= k < |parts|
          ensures sep !in parts[k]
        {
          if k < |init| - 1 {
            assert parts[k] == init[k];
          }
        }
      }
    }
  }

  /** `sep.join(parts)`. */
  function Join(parts: seq<string>, sep: char): string
  {
    if parts == [] then []
    else if |parts| == 1 then parts[0]
    else Join(parts[..|parts| - 1], sep) + [sep] + parts[|parts| - 1]
  }

  /** Joining the parts of a split gives back the string. */
  lemma {:induction false} JoinSplit(s: string, sep: char)
    ensures Join(Split(s, sep), sep) == s
    decreases |s|
  {
    if s != [] {
      var s' := s[..|s| - 1];
      var x := s[|s| - 1];
      var init := Split(s', sep);
      JoinSplit(s', sep);
      assert s == s' + [x];
      if x == sep {
        assert (init + [[]])[..|init|] == init;
      } else if |init| > 1 {
        var p := init[..|init| - 1] + [init[|init| - 1] + [x]];
        assert p[..|p| - 1] == init[..|init| - 1];
      }
    }
  }

  /** The first part of a split is the prefix before the first separator, or the whole
      string when there is no separator. */
  lemma {:induction false} SplitFirst(s: string, sep: char)
    ensures var f := Split(s, sep)[0];
      |f| <= |s| && f == s[..|f|] &&
      (sep in s ==> |f| < |s| && s[|f|] == sep) &&
      (sep !in s ==> f == s)
    decreases |s|
  {
    if s != [] {
      var s' := s[..|s| - 1];
      var x := s[|s| - 1];
      var init := Split(s', sep);
      var f := Split(s, sep)[0];
      SplitFirst(s', sep);
      SplitParts(s', sep);
      assert s'[..|init[0]|] == s[..|init[0]|];
      if x == sep {
        assert f == init[0];
      } else if |init| > 1 {
        assert f == init[0];
        assert sep in s';
      } else {
        assert f == init[0] + [x];
        assert init[0] == s';
      }
    }
  }

  /** The last part of a split is the suffix after the last separator, and everything
      before it joins back to the prefix before the last separator. */
  lemma {:induction false} SplitLast(s: string, sep: char)
    ensures var p := Split(s, sep);
      s == (if sep in s then Join(p[..|p| - 1], sep) + [sep] else []) + p[|p| - 1]
    decreases |s|
  {
    if s != [] {
      var s' := s[..|s| - 1];
      var x := s[|s| - 1];
      var init := Split(s', sep);
      SplitLast(s', sep);
      assert s == s' + [x];
      if x == sep {
        JoinSplit(s', sep);
        assert (init + [[]])[..|init|] == init;
      } else {
        var p := init[..|init| - 1] + [init[|init| - 1] + [x]];
        assert p[..|p| - 1] == init[..|init| - 1];
      }
    }
  }

  /** `s.split(sep)[-1]`: the text after the last separator. */
  function LastSegment(s: string, sep: char): string
  {
    var p := Split(s, sep);
    p[|p| - 1]
  }

  /** The last segment holds no separator and ends the string; without a separator it
      is the whole string. */
  lemma LastSegmentSpec(s: string, sep: char)
    ensures var r := LastSegment(s, sep);
      && sep !in r
      && |r| <= |s| && r == s[|s| - |r|..]
      && (sep !in s ==> r == s)
  {
    SplitLast(s, sep);
    SplitParts(s, sep);
  }

  /** `sep.join(s.split(sep)[:-1])`: the text before the last separator, or nothing when
      there is no separator. */
  function DropLastSegment(s: string, sep: char): string
  {
    var p := Split(s, sep);
    Join(p[..|p| - 1], sep)
  }

  /** The string is what comes before its last separator, the separator and its last
      segment; without a separator nothing comes before. */
  lemma DropLastSegmentSpec(s: string, sep: char)
    ensures sep in s ==> s == DropLastSegment(s, sep) + [sep] + LastSegment(s, sep)
    ensures sep !in s ==> DropLastSegment(s, sep) == []
  {
    SplitLast(s, sep);
    SplitParts(s, sep);
  }

  /* ---------------- strip ---------------- */

  /** The characters `str.isspace()` accepts: ASCII tab to carriage return, the four
      information separators, space, NEL, no-break space, and the Unicode space separators
      and line/paragraph separators. */
  predicate IsSpace(c: char)
  {
    var n := c as int;
    (0x09 <= n <= 0x0D) || (0x1C <= n <= 0x20) || n == 0x85 || n == 0xA0 ||
    n == 0x1680 || (0x2000 <= n <= 0x200A) || n == 0x2028 || n == 0x2029 ||
    n == 0x202F || n == 0x205F || n == 0x3000
  }

  /** `s.lstrip()`. */
  function TrimStart(s: string): string
    decreases |s|
  {
    if s != [] && IsSpace(s[0]) then TrimStart(s[1..]) else s
  }

  /** `s.lstrip()` keeps a suffix of `s`: everything it drops is whitespace, and what it
      keeps does not start with whitespace. */
  lemma {:induction false} TrimStartSpec(s: string)
    ensures var r := TrimStart(s);
      && |r| <= |s| && r == s[|s| - |r|..]
      && (forall k :: 0 <= k < |s| - |r| ==> IsSpace(s[k]))
      && (r != [] ==> !IsSpace(r[0]))
    decreases |s|
  {
    if s != [] && IsSpace(s[0]) {
      TrimStartSpec(s[1..]);
      var r := TrimStart(s);
      forall k | 0 <= k < |s| - |r|
        ensures IsSpace(s[k])
      {
        if k > 0 {
          assert s[k] == s[1..][k - 1];
        }
      }
    }
  }

  /** `s.rstrip()`. */
  function TrimEnd(s: string): string
    decreases |s|
  {
    if s != [] && IsSpace(s[|s| - 1]) then TrimEnd(s[..|s| - 1]) else s
  }

  /** `s.rstrip()` keeps a prefix of `s`: everything it drops is whitespace, and what it
      keeps does not end with whitespace. */
  lemma {:induction false} TrimEndSpec(s: string)
    ensures var r := TrimEnd(s);
      && |r| <= |s| && r == s[..|r|]
      && (forall k :: |r| <= k < |s| ==> IsSpace(s[k]))
      && (r != [] ==> !IsSpace(r[|r| - 1]))
    decreases |s|
  {
    if s != [] && IsSpace(s[|s| - 1]) {
      TrimEndSpec(s[..|s| - 1]);
      var r := TrimEnd(s);
      forall k | |r| <= k < |s|
        ensures IsSpace(s[k])
      {
        if k < |s| - 1 {
          assert s[k] == s[..|s| - 1][k];
        }
      }
    }
  }

  /** `s.strip()`. */
  function Strip(s: string): string
  {
    TrimEnd(TrimStart(s))
  }

  /** `s.strip()` is the slice of `s` left once leading and trailing whitespace is dropped:
      whitespace lies outside the slice, and the slice neither starts nor ends with it. */
  lemma StripSpec(s: string)
    ensures exists i, j :: (0 <= i <= j <= |s| && Strip(s) == s[i..j] &&
      (forall k :: 0 <= k < i ==> IsSpace(s[k])) &&
      (forall k :: j <= k < |s| ==> IsSpace(s[k])))
    ensures Strip(s) != [] ==> !IsSpace(Strip(s)[0]) && !IsSpace(Strip(s)[|Strip(s)| - 1])
  {
    var t := TrimStart(s);
    TrimStartSpec(s);
    TrimEndSpec(t);
    var r := TrimEnd(t);
    var i := |s| - |t|;
    assert r == s[i..i + |r|];
    forall k | i + |r| <= k < |s|
      ensures IsSpace(s[k])
    {
      assert s[k] == t[k - i];
    }
    if r != [] {
      assert r[0] == t[0];
    }
  }

  /* ---------------- decimal numbers ---------------- */

  predicate IsDigit(c: char)
  {
    '0' <= c <= '9'
  }

  predicate AllDigits(s: string)
  {
    forall k :: 0 <= k < |s| ==> IsDigit(s[k])
  }

  function DigitChar(d: nat): (c: char)
    requires d < 10
    ensures IsDigit(c)
  {
    (('0' as int) + d) as char
  }

  function DigitValue(c: char): nat
    requires IsDigit(c)
  {
    (c as int) - ('0' as int)
  }

  /** `str(n)` for a natural number: its decimal digits, most significant first. */
  function NatToString(n: nat): (s: string)
    ensures s != [] && AllDigits(s)
  {
    if n < 10 then [DigitChar(n)] else NatToString(n / 10) + [DigitChar(n % 10)]
  }

  /** The number a string of decimal digits denotes; leading zeros are allowed. */
  function DecimalValue(s: string): nat
    requires AllDigits(s)
  {
    if s == [] then 0 else 10 * DecimalValue(s[..|s| - 1]) + DigitValue(s[|s| - 1])
  }

  function Zeros(n: nat): (z: string)
  {
    seq(n, _ => '0')
  }

  /** `s.zfill(width)`: pad with `'0'` on the left up to `width` characters, keeping a
      leading sign in front of the padding. */
  function ZFill(s: string, width: nat): string
  {
    if |s| >= width then s
    else if s != [] && (s[0] == '+' || s[0] == '-') then [s[0]] + Zeros(width - |s|) + s[1..]
    else Zeros(width - |s|) + s
  }

  /** The result is `width` long unless `s` is longer; it ends with `s` (after a leading
      sign, which stays in front) and is `'0'` in between. */
  lemma ZFillSpec(s: string, width: nat)
    ensures var r := ZFill(s, width);
      && |r| == (if |s| < width then width else |s|)
      && ((s == [] || (s[0] != '+' && s[0] != '-')) ==>
            r[|r| - |s|..] == s && forall k :: 0 <= k < |r| - |s| ==> r[k] == '0')
      && (s != [] && (s[0] == '+' || s[0] == '-') ==>
            r[0] == s[0] && r[|r| - |s| + 1..] == s[1..] &&
            forall k :: 1 <= k < |r| - |s| + 1 ==> r[k] == '0')
  {
  }

  /** Reading back the decimal rendering of `n` gives `n`. */
  lemma {:induction false} DecimalOfNatToString(n: nat)
    ensures DecimalValue(NatToString(n)) == n
  {
    if n >= 10 {
      DecimalOfNatToString(n / 10);
      var s := NatToString(n);
      assert s[..|s| - 1] == NatToString(n / 10);
    }
  }

  /** A leading zero does not change the value. */
  lemma {:induction false} DecimalLeadingZero(t: string)
    requires AllDigits(t)
    ensures AllDigits(['0'] + t) && DecimalValue(['0'] + t) == DecimalValue(t)
    decreases |t|
  {
    var s := ['0'] + t;
    if t != [] {
      DecimalLeadingZero(t[..|t| - 1]);
      assert s[..|s| - 1] == ['0'] + t[..|t| - 1];
    } else {
      assert s[..0] == [];
    }
  }

  lemma {:induction false} DecimalLeadingZeros(n: nat, t: string)
    requires AllDigits(t)
    ensures AllDigits(Zeros(n) + t) && DecimalValue(Zeros(n) + t) == DecimalValue(t)
  {
    if n > 0 {
      DecimalLeadingZeros(n - 1, t);
      assert Zeros(n) + t == ['0'] + (Zeros(n - 1) + t);
      DecimalLeadingZero(Zeros(n - 1) + t);
    } else {
      assert Zeros(n) + t == t;
    }
  }

  /** Zero-padding the decimal rendering of `n` keeps it all digits and denoting `n`. */
  lemma ZFillDecimal(n: nat, width: nat)
    ensures AllDigits(ZFill(NatToString(n), width))
    ensures DecimalValue(ZFill(NatToString(n), width)) == n
  {
    var s := NatToString(n);
    assert IsDigit(s[0]);
    DecimalOfNatToString(n);
    if |s| < width {
      DecimalLeadingZeros(width - |s|, s);
    }
  }

  /** The prefixes before the first occurrence of a separator are unique: if `a` and `b`
      contain no `c` and `a + [c]` and `b + [c]` begin the same string, then `a == b`. */
  lemma SeparatedPrefix(a: string, b: string, x: string, y: string, c: char)
    requires c !in a && c !in b
    requires a + [c] + x == b + [c] + y
    ensures a == b
  {
    var s := a + [c] + x;
    assert s[|a|] == c && s[|b|] == c;
    assert |a| == |b|;
    assert a == s[..|a|] == b;
  }
}
