/** The Python string primitives the bot's parsers and lookups rely on:
    `str.strip()`, `str.lower()`, `str.split(sep)` and `str.replace(pat, '')`. */
module Text {

  /** Python's `str.isspace()` for one character. */
  predicate IsSpace(c: char)
  {
    || c == ' ' || c == '\t' || c == '\n' || c == '\r'
    || c == '\U{B}' || c == '\U{C}'
    || ('\U{1C}' <= c <= '\U{1F}')
    || c == '\U{85}' || c == '\U{A0}' || c == '\U{1680}'
    || ('\U{2000}' <= c <= '\U{200A}')
    || c == '\U{2028}' || c == '\U{2029}' || c == '\U{202F}' || c == '\U{205F}' || c == '\U{3000}'
  }

  predicate AllSpace(s: string)
  {
    forall k :: 0 <= k < |s| ==> IsSpace(s[k])
  }

  /** Leading whitespace removed: the longest all-space prefix is dropped. */
  function StripLeft(s: string): (r: string)
    ensures |r| <= |s| && r == s[|s| - |r|..]
    ensures AllSpace(s[..|s| - |r|])
    ensures |r| > 0 ==> !IsSpace(r[0])
  {
    if |s| > 0 && IsSpace(s[0]) then StripLeft(s[1..]) else s
  }

  /** Trailing whitespace removed: the longest all-space suffix is dropped. */
  function StripRight(s: string): (r: string)
    ensures |r| <= |s| && r == s[..|r|]
    ensures AllSpace(s[|r|..])
    ensures |r| > 0 ==> !IsSpace(r[|r| - 1])
  {
    if |s| > 0 && IsSpace(s[|s| - 1]) then StripRight(s[..|s| - 1]) else s
  }

  /** Number of whitespace characters `s` starts with. */
  function LeadingSpace(s: string): (n: nat)
    ensures n <= |s| && AllSpace(s[..n])
    ensures n < |s| ==> !IsSpace(s[n])
  {
    |s| - |StripLeft(s)|
  }

  /** Slicing a suffix of `s` is slicing `s` itself, shifted. */
  lemma SuffixSlices(s: string, i: nat, n: nat)
    requires i + n <= |s|
    ensures s[i..][..n] == s[i..i + n]
    ensures s[i..][n..] == s[i + n..]
  {
  }

  /** `s.strip()`: `r` is the infix of `s` that starts after its leading
      whitespace and is followed only by whitespace, and it neither starts
      nor ends with whitespace. */
  function Strip(s: string): (r: string)
    ensures LeadingSpace(s) + |r| <= |s|
    ensures r == s[LeadingSpace(s)..LeadingSpace(s) + |r|]
    ensures AllSpace(s[LeadingSpace(s) + |r|..])
    ensures |r| > 0 ==> !IsSpace(r[0]) && !IsSpace(r[|r| - 1])
  {
    var l := StripLeft(s);
    var r := StripRight(l);
    SuffixSlices(s, |s| - |l|, |r|);
    r
  }

  /** No whitespace at either end: what `strip()` leaves. */
  predicate Stripped(s: string)
  {
    |s| > 0 ==> !IsSpace(s[0]) && !IsSpace(s[|s| - 1])
  }

  /** A string without surrounding whitespace is its own strip. */
  lemma StripFixedPoint(s: string)
    requires Stripped(s)
    ensures Strip(s) == s
  {
    assert StripLeft(s) == s;
    assert StripRight(s) == s;
  }

  /** Stripping only removes characters: everything in the result was in
      the input. */
  lemma StripKeepsChars(s: string, c: char)
    ensures c in Strip(s) ==> c in s
  {
    var r := Strip(s);
    if c in r {
      var i := LeadingSpace(s);
      var k :| 0 <= k < |r| && r[k] == c;
      assert s[i + k] == c;
    }
  }

  /** Stripping twice is stripping once. */
  lemma StripIdempotent(s: string)
    ensures Strip(Strip(s)) == Strip(s)
  {
    StripFixedPoint(Strip(s));
  }

  lemma {:induction false} StripLeftSpaces(pre: string, t: string)
    requires AllSpace(pre) && (|t| > 0 ==> !IsSpace(t[0]))
    ensures StripLeft(pre + t) == t
    decreases |pre|
  {
    if |pre| > 0 {
      assert (pre + t)[1..] == pre[1..] + t;
      StripLeftSpaces(pre[1..], t);
    } else {
      assert pre + t == t;
    }
  }

  lemma {:induction false} StripRightSpaces(t: string, post: string)
    requires AllSpace(post) && (|t| > 0 ==> !IsSpace(t[|t| - 1]))
    ensures StripRight(t + post) == t
    decreases |post|
  {
    if |post| > 0 {
      assert (t + post)[..|t + post| - 1] == t + post[..|post| - 1];
      StripRightSpaces(t, post[..|post| - 1]);
    } else {
      assert t + post == t;
    }
  }

  /** Whitespace around a string without surrounding whitespace is exactly
      what `strip` removes. */
  lemma StripPadded(pre: string, s: string, post: string)
    requires AllSpace(pre) && AllSpace(post) && Stripped(s)
    ensures Strip(pre + s + post) == s
  {
    if |s| == 0 {
      assert pre + s + post == pre + post;
      StripLeftSpaces(pre + post, "");
      assert pre + post + "" == pre + post;
    } else {
      assert pre + s + post == pre + (s + post);
      StripLeftSpaces(pre, s + post);
      StripRightSpaces(s, post);
    }
  }

  /** One space on each side of an already stripped string is stripped
      away again. */
  lemma StripSpaced(s: string)
    requires Stripped(s)
    ensures Strip(" " + s + " ") == s
  {
    StripPadded(" ", s, " ");
  }

  /** A trailing space after an already stripped string is stripped away. */
  lemma StripTrailingSpace(s: string)
    requires Stripped(s)
    ensures Strip(s + " ") == s
  {
    assert "" + s + " " == s + " ";
    StripPadded("", s, " ");
  }

  /** A leading space before an already stripped string is stripped away. */
  lemma StripLeadingSpace(s: string)
    requires Stripped(s)
    ensures Strip(" " + s) == s
  {
    assert " " + s + "" == " " + s;
    StripPadded(" ", s, "");
  }

  /** `str.lower()` for one character, on ASCII and Latin-1 letters. */
  function LowerChar(c: char): char
  {
    if 'A' <= c <= 'Z' || ('\U{C0}' <= c <= '\U{DE}' && c != '\U{D7}') then
      (c as int + 32) as char
    else c
  }

  /** `s.lower()`, character by character. */
  function Lower(s: string): string
  {
    seq(|s|, i requires 0 <= i < |s| => LowerChar(s[i]))
  }

  /** Lower-casing a lower-cased string changes nothing, so comparing
      `a.lower() == b.lower()` is an equivalence on strings. */
  lemma LowerIdempotent(s: string)
    ensures Lower(Lower(s)) == Lower(s)
  {
  }

  /** Number of occurrences of `c` in `s`. */
  function Count(s: string, c: char): nat
  {
    if |s| == 0 then 0 else (if s[0] == c then 1 else 0) + Count(s[1..], c)
  }

  /** Inverse of `Split`: `sep.join(parts)`. */
  function Join(parts: seq<string>, sep: char): string
    requires |parts| >= 1
  {
    if |parts| == 1 then parts[0] else parts[0] + [sep] + Join(parts[1..], sep)
  }

  /** `s.split(sep)` for a one-character separator: one more part than there
      are separators, no part holds the separator, and joining the parts
      with the separator gives back `s`. */
  function Split(s: string, sep: char): (parts: seq<string>)
    ensures |parts| == Count(s, sep) + 1
    ensures forall i :: 0 <= i < |parts| ==> sep !in parts[i]
    ensures Join(parts, sep) == s
  {
    if |s| == 0 then [""]
    else if s[0] == sep then
      var rest := Split(s[1..], sep);
      assert s == [sep] + s[1..];
      [""] + rest
    else
      var rest := Split(s[1..], sep);
      var parts := [[s[0]] + rest[0]] + rest[1..];
      assert parts[1..] == rest[1..];
      assert s == [s[0]] + s[1..];
      parts
  }

  lemma {:induction false} SplitNoSeparator(a: string, sep: char)
    requires sep !in a
    ensures Split(a, sep) == [a]
    decreases |a|
  {
    if |a| > 0 {
      SplitNoSeparator(a[1..], sep);
      assert [a[0]] + a[1..] == a;
    }
  }

  lemma {:induction false} SplitAfterPart(a: string, b: string, sep: char)
    requires sep !in a
    ensures Split(a + [sep] + b, sep) == [a] + Split(b, sep)
    decreases |a|
  {
    var s := a + [sep] + b;
    if |a| == 0 {
      assert s[0] == sep && s[1..] == b;
    } else {
      assert s[0] == a[0] && s[1..] == a[1..] + [sep] + b;
      SplitAfterPart(a[1..], b, sep);
      assert [a[0]] + a[1..] == a;
    }
  }

  /** Round trip the other way: splitting a join of separator-free parts
      recovers the parts. */
  lemma {:induction false} SplitJoin(parts: seq<string>, sep: char)
    requires |parts| >= 1
    requires forall i :: 0 <= i < |parts| ==> sep !in parts[i]
    ensures Split(Join(parts, sep), sep) == parts
    decreases |parts|
  {
    if |parts| == 1 {
      SplitNoSeparator(parts[0], sep);
    } else {
      SplitJoin(parts[1..], sep);
      SplitAfterPart(parts[0], Join(parts[1..], sep), sep);
      assert [parts[0]] + parts[1..] == parts;
    }
  }

  /** A character that is neither the separator nor in any part is not in
      their join. */
  lemma {:induction false} JoinAvoids(parts: seq<string>, sep: char, c: char)
    requires |parts| >= 1 && c != sep
    requires forall i :: 0 <= i < |parts| ==> c !in parts[i]
    ensures c !in Join(parts, sep)
    decreases |parts|
  {
    if |parts| > 1 {
      JoinAvoids(parts[1..], sep, c);
    }
  }

  /** Joining parts that have no surrounding whitespace with a non-space
      separator gives a string without surrounding whitespace. */
  lemma {:induction false} JoinStripped(parts: seq<string>, sep: char)
    requires |parts| >= 1 && !IsSpace(sep)
    requires forall i :: 0 <= i < |parts| ==> Stripped(parts[i])
    ensures Stripped(Join(parts, sep))
    decreases |parts|
  {
    if |parts| > 1 {
      JoinStripped(parts[1..], sep);
      var rest := Join(parts[1..], sep);
      var j := parts[0] + [sep] + rest;
      assert j[|parts[0]|] == sep;
      if |rest| == 0 {
        assert j[|j| - 1] == sep;
      } else {
        assert j[|j| - 1] == rest[|rest| - 1];
      }
    }
  }

  /** True when `pat` occurs in `s` starting at index `i`. */
  predicate OccursAt(pat: string, s: string, i: int)
  {
    0 <= i && i + |pat| <= |s| && s[i..i + |pat|] == pat
  }

  /** An occurrence in the tail of `s` is an occurrence in `s` one place on. */
  lemma OccursInTail(pat: string, s: string, j: int)
    requires |s| > 0 && 0 <= j
    ensures OccursAt(pat, s[1..], j) <==> OccursAt(pat, s, j + 1)
  {
    if 0 <= j && j + 1 + |pat| <= |s| {
      assert s[1..][j..j + |pat|] == s[j + 1..j + 1 + |pat|];
    }
  }

  /** Removing a pattern from a string that ends with it and holds it
      nowhere else leaves the rest. */
  lemma {:induction false} RemoveTrailingPattern(a: string, pat: string)
    requires |pat| > 0
    requires forall j :: 0 <= j < |a| ==> !OccursAt(pat, a + pat, j)
    ensures RemoveAll(a + pat, pat) == a
    decreases |a|
  {
    var s := a + pat;
    if |a| == 0 {
      assert s == pat && s[..|pat|] == pat && s[|pat|..] == [];
    } else {
      assert !OccursAt(pat, s, 0);
      assert s[..|pat|] != pat;
      var t := a[1..] + pat;
      assert s[1..] == t;
      assert RemoveAll(s, pat) == [s[0]] + RemoveAll(t, pat);
      forall j | 0 <= j < |a[1..]| ensures !OccursAt(pat, t, j) {
        OccursInTail(pat, s, j);
      }
      RemoveTrailingPattern(a[1..], pat);
      assert a == [a[0]] + a[1..];
    }
  }

  /** `s.replace(pat, '')`: occurrences are removed left to right without
      overlapping. The result is never longer than `s`, and a string in
      which `pat` does not occur is returned unchanged. */
  function RemoveAll(s: string, pat: string): (r: string)
    requires |pat| > 0
    ensures |r| <= |s|
    ensures (forall i :: !OccursAt(pat, s, i)) ==> r == s
    decreases |s|
  {
    if |s| < |pat| then s
    else if s[..|pat|] == pat then
      assert OccursAt(pat, s, 0);
      RemoveAll(s[|pat|..], pat)
    else
      var rest := RemoveAll(s[1..], pat);
      assert forall i :: OccursAt(pat, s[1..], i) ==> OccursAt(pat, s, i + 1) by {
        forall i | OccursAt(pat, s[1..], i) ensures OccursAt(pat, s, i + 1) {
          assert s[i + 1..i + 1 + |pat|] == s[1..][i..i + |pat|];
        }
      }
      assert s == [s[0]] + s[1..];
      [s[0]] + rest
  }
}
