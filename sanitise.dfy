/** The sanitiser applied to the series name and the chapter title before either is used
    as a directory name (`validate` in mangoose.py). */
module Sanitise {
  import opened Text

  /** What a single character becomes once every `": "` has been rewritten. */
  function SafeChar(c: char): char
  {
    if c == ':' then '-' else if c == '?' || c == '/' then '_' else c
  }

  /** The three one-character replacements that follow `": "` to `" - "`. */
  function ReplaceSingles(s: string): string
  {
    Replace(Replace(Replace(s, ":", "-"), "?", "_"), "/", "_")
  }

  lemma ReplaceSinglesAt(s: string)
    ensures |ReplaceSingles(s)| == |s|
    ensures forall k :: 0 <= k < |s| ==> ReplaceSingles(s)[k] == SafeChar(s[k])
  {
    var a := Replace(s, ":", "-");
    ReplaceChar(s, ':', '-');
    var b := Replace(a, "?", "_");
    ReplaceChar(a, '?', '_');
    ReplaceChar(b, '/', '_');
  }

  lemma ReplaceSinglesAppend(a: string, b: string)
    ensures ReplaceSingles(a + b) == ReplaceSingles(a) + ReplaceSingles(b)
  {
    ReplaceSinglesAt(a);
    ReplaceSinglesAt(b);
    ReplaceSinglesAt(a + b);
    assert forall k :: 0 <= k < |a + b| ==>
      ReplaceSingles(a + b)[k] == (ReplaceSingles(a) + ReplaceSingles(b))[k];
  }

  /** `validate(title)`: the fixed chain of replacements `": "` to `" - "`, then `':'` to
      `'-'`, `'?'` to `'_'` and `'/'` to `'_'`. None of `':'`, `'?'` or `'/'` survives. */
  function Validate(title: string): (r: string)
    ensures ':' !in r && '?' !in r && '/' !in r
  {
    var u := Replace(title, ": ", " - ");
    ReplaceSinglesAt(u);
    ReplaceSingles(u)
  }

  /** A reference definition of the sanitiser as one left-to-right scan: a colon followed
      by a space becomes `" - "`; otherwise each character goes through `SafeChar`. */
  function SanitiseScan(s: string): string
  {
    if s == [] then []
    else if |s| >= 2 && s[0] == ':' && s[1] == ' ' then " - " + SanitiseScan(s[2..])
    else [SafeChar(s[0])] + SanitiseScan(s[1..])
  }

  /** A leading `": "` becomes `" - "`, and the rest is sanitised on its own. */
  lemma ValidateColon(s: string)
    requires |s| >= 2 && s[..2] == ": "
    ensures Validate(s) == " - " + Validate(s[2..])
  {
    ReplaceSinglesAppend(" - ", Replace(s[2..], ": ", " - "));
    ReplaceSinglesAt(" - ");
    assert ReplaceSingles(" - ") == " - ";
  }

  /** Any other leading character goes through `SafeChar`, and the rest is sanitised on
      its own. */
  lemma ValidateOther(s: string)
    requires |s| >= 2 && s[..2] != ": "
    ensures Validate(s) == [SafeChar(s[0])] + Validate(s[1..])
  {
    ReplaceSinglesAppend([s[0]], Replace(s[1..], ": ", " - "));
    ReplaceSinglesAt([s[0]]);
  }

  /** The chain of replacements is the single scan: `": "` is rewritten before any lone
      `':'`, and every other character is kept, in order, up to `SafeChar`. */
  lemma {:induction false} ValidateIsScan(s: string)
    ensures Validate(s) == SanitiseScan(s)
    decreases |s|
  {
    if |s| < 2 {
      ReplaceSinglesAt(s);
      if s != [] {
        assert SanitiseScan(s) == [SafeChar(s[0])];
      }
    } else if s[..2] == ": " {
      ValidateIsScan(s[2..]);
      ValidateColon(s);
    } else {
      ValidateIsScan(s[1..]);
      ValidateOther(s);
      assert !(s[0] == ':' && s[1] == ' ') by { assert s[..2] == [s[0], s[1]]; }
    }
  }

  /** Sanitising a sanitised name changes nothing. */
  lemma ValidateIdempotent(s: string)
    ensures Validate(Validate(s)) == Validate(s)
  {
    var t := Validate(s);
    ReplaceAbsent(t, ": ", " - ");
    ReplaceSinglesAt(t);
    assert ReplaceSingles(t) == t;
  }
}
