/**
 * String helpers with the semantics of the Python string operations the
 * uploader relies on: `str.isspace`, `str.strip`, `str.splitlines`,
 * `str.endswith`, the `in` substring test, `str.split`, `str.join`,
 * reading a text file line by line, and decimal numbers.
 */
module Text {

  /** The characters for which Python's `str.isspace()` holds; `\s` in a
      `str` regular expression matches exactly these. */
  predicate IsSpace(c: char)
  {
    || c == ' ' || c == '\t' || c == '\n' || c == '\r'
    || c == '\U{000B}' || c == '\U{000C}'
    || ('\U{001C}' <= c <= '\U{001F}')
    || c == '\U{0085}' || c == '\U{00A0}' || c == '\U{1680}'
    || ('\U{2000}' <= c <= '\U{200A}')
    || c == '\U{2028}' || c == '\U{2029}' || c == '\U{202F}'
    || c == '\U{205F}' || c == '\U{3000}'
  }

  /** The line boundaries of Python's `str.splitlines()`. */
  predicate IsLineBreak(c: char)
  {
    || c == '\n' || c == '\r' || c == '\U{000B}' || c == '\U{000C}'
    || ('\U{001C}' <= c <= '\U{001E}')
    || c == '\U{0085}' || c == '\U{2028}' || c == '\U{2029}'
  }

  predicate StartsWith(s: string, prefix: string)
  {
    |prefix| <= |s| && s[..|prefix|] == prefix
  }

  predicate EndsWith(s: string, suffix: string)
  {
    |suffix| <= |s| && s[|s| - |suffix|..] == suffix
  }

  /** `sub` occurs in `s` starting at index `i`. */
  predicate OccursAt(s: string, sub: string, i: int)
  {
    0 <= i && i + |sub| <= |s| && s[i..i + |sub|] == sub
  }

  /** Python's `sub in s`. */
  predicate Contains(s: string, sub: string)
  {
    exists i | 0 <= i <= |s| :: OccursAt(s, sub, i)
  }

  /** Python's `str.lstrip()` with no argument. */
  function StripLeading(s: string): (r: string)
    ensures EndsWith(s, r)
    ensures r == [] || !IsSpace(r[0])
    ensures forall k :: 0 <= k < |s| - |r| ==> IsSpace(s[k])
    decreases |s|
  {
    if s != [] && IsSpace(s[0]) then StripLeading(s[1..]) else s
  }

  /** Python's `str.rstrip()` with no argument. */
  function StripTrailing(s: string): (r: string)
    ensures StartsWith(s, r)
    ensures r == [] || !IsSpace(r[|r| - 1])
    ensures forall k :: |r| <= k < |s| ==> IsSpace(s[k])
    decreases |s|
  {
    if s != [] && IsSpace(s[|s| - 1]) then StripTrailing(s[..|s| - 1]) else s
  }

  /** Python's `str.strip()` with no argument. */
  function Strip(s: string): string
  {
    StripTrailing(StripLeading(s))
  }

  /** The last index of `c` in `s`, or -1 (Python's `str.rfind`). */
  function LastIndexOf(s: string, c: char): (r: int)
    ensures -1 <= r < |s|
    ensures 0 <= r ==> s[r] == c
    ensures forall k :: r < k < |s| ==> s[k] != c
  {
    if s == [] then -1
    else if s[|s| - 1] == c then |s| - 1
    else LastIndexOf(s[..|s| - 1], c)
  }

  /** Regrouping appended sequences, given to the verifier explicitly where
      it would otherwise search for the grouping. */
  lemma AppendAssoc<T>(a: seq<T>, b: seq<T>, c: seq<T>)
    ensures a + (b + c) == (a + b) + c
  {
  }

  /** `c` does not occur in `s`. */
  predicate Lacks(s: string, c: char)
  {
    forall k :: 0 <= k < |s| ==> s[k] != c
  }

  /** A `c` followed by text without `c` is the last `c`. */
  lemma {:induction false} LastIndexAt(prefix: string, c: char, suffix: string)
    requires Lacks(suffix, c)
    ensures LastIndexOf(prefix + [c] + suffix, c) == |prefix|
  {
    var s := prefix + [c] + suffix;
    if suffix != [] {
      var init := suffix[..|suffix| - 1];
      assert s[..|s| - 1] == prefix + [c] + init;
      assert s[|s| - 1] == suffix[|suffix| - 1];
      LastIndexAt(prefix, c, init);
    }
  }

  /** Text without `c` has no last `c`. */
  lemma NoLastIndex(s: string, c: char)
    requires Lacks(s, c)
    ensures LastIndexOf(s, c) == -1
  {
  }

  /** The first index of `c` in `s`, or `|s|` when there is none. */
  function IndexOf(s: string, c: char): (r: nat)
    ensures r <= |s|
    ensures r < |s| ==> s[r] == c
    ensures forall k :: 0 <= k < r ==> s[k] != c
  {
    if s == [] then 0
    else if s[0] == c then 0
    else 1 + IndexOf(s[1..], c)
  }

  /** The first index of a line boundary in `s`, or `|s|`. */
  function FirstBreak(s: string): (r: nat)
    ensures r <= |s|
    ensures r < |s| ==> IsLineBreak(s[r])
    ensures forall k :: 0 <= k < r ==> !IsLineBreak(s[k])
  {
    if s == [] then 0
    else if IsLineBreak(s[0]) then 0
    else 1 + FirstBreak(s[1..])
  }

  /** Python's `str.splitlines()`: "\r\n" is one boundary, and a final
      boundary does not start an empty last line. */
  function SplitLines(s: string): (lines: seq<string>)
    ensures forall i, k :: 0 <= i < |lines| && 0 <= k < |lines[i]| ==> !IsLineBreak(lines[i][k])
    decreases |s|
  {
    if s == [] then []
    else
      var i := FirstBreak(s);
      if i == |s| then [s]
      else
        var next := if s[i] == '\r' && i + 1 < |s| && s[i + 1] == '\n' then i + 2 else i + 1;
        [s[..i]] + SplitLines(s[next..])
  }

  /** The first line boundary after a break-free prefix is the one that
      follows it. */
  lemma {:induction false} FirstBreakAfter(a: string, rest: string)
    requires forall k :: 0 <= k < |a| ==> !IsLineBreak(a[k])
    requires rest != [] && IsLineBreak(rest[0])
    ensures FirstBreak(a + rest) == |a|
    decreases |a|
  {
    if a != [] {
      assert (a + rest)[1..] == a[1..] + rest;
      FirstBreakAfter(a[1..], rest);
    } else {
      assert a + rest == rest;
    }
  }

  /** A break-free line followed by "\n" is split off as one line. */
  lemma SplitLinesCons(line: string, rest: string)
    requires forall k :: 0 <= k < |line| ==> !IsLineBreak(line[k])
    ensures SplitLines(line + "\n" + rest) == [line] + SplitLines(rest)
  {
    var s := line + "\n" + rest;
    assert s == line + ("\n" + rest);
    FirstBreakAfter(line, "\n" + rest);
    assert s[..|line|] == line && s[|line| + 1..] == rest;
  }

  /** A break-free, non-empty text is a single line. */
  lemma SplitLinesSingle(line: string)
    requires line != [] && forall k :: 0 <= k < |line| ==> !IsLineBreak(line[k])
    ensures SplitLines(line) == [line]
  {
    assert FirstBreak(line) == |line|;
  }

  /** Python's `sep.join(parts)`. */
  function Join(sep: string, parts: seq<string>): string
  {
    if parts == [] then ""
    else if |parts| == 1 then parts[0]
    else Join(sep, parts[..|parts| - 1]) + sep + parts[|parts| - 1]
  }

  /** Joining a first part to the join of the rest. */
  lemma {:induction false} JoinCons(sep: string, first: string, rest: seq<string>)
    requires rest != []
    ensures Join(sep, [first] + rest) == first + sep + Join(sep, rest)
    decreases |rest|
  {
    var parts := [first] + rest;
    if |rest| > 1 {
      var init := rest[..|rest| - 1];
      assert parts[..|parts| - 1] == [first] + init;
      JoinCons(sep, first, init);
    } else {
      assert parts == [first, rest[0]];
    }
  }

  /** Break-free lines joined by "\n" split back into the same lines, as
      long as the last one is not empty (`splitlines` drops a final empty
      line). */
  lemma {:induction false} SplitLinesJoin(lines: seq<string>)
    requires forall i, k :: 0 <= i < |lines| && 0 <= k < |lines[i]| ==> !IsLineBreak(lines[i][k])
    requires lines != [] ==> lines[|lines| - 1] != []
    ensures SplitLines(Join("\n", lines)) == lines
    decreases |lines|
  {
    if |lines| == 1 {
      SplitLinesSingle(lines[0]);
    } else if |lines| > 1 {
      var rest := lines[1..];
      assert lines == [lines[0]] + rest;
      SplitLinesJoin(rest);
      JoinCons("\n", lines[0], rest);
      SplitLinesCons(lines[0], Join("\n", rest));
    }
  }

  /** A text is the text before index `i`, the character there, and the
      text after it. */
  lemma CutAt<T>(s: seq<T>, i: nat)
    requires i < |s|
    ensures s == s[..i] + [s[i]] + s[i + 1..]
  {
    assert s == s[..i] + s[i..];
    assert s[i..] == [s[i]] + s[i + 1..];
  }

  /** At a "\n" boundary, `splitlines` takes the text before it as a line
      and goes on after it. */
  lemma SplitLinesAtNewline(s: string)
    requires FirstBreak(s) < |s| && s[FirstBreak(s)] == '\n'
    ensures SplitLines(s) == [s[..FirstBreak(s)]] + SplitLines(s[FirstBreak(s) + 1..])
  {
  }

  /** Text whose only line boundaries are "\n", and which does not end in
      one, is the "\n"-join of its `splitlines`. */
  lemma {:induction false} JoinSplitLines(s: string)
    requires forall k :: 0 <= k < |s| && IsLineBreak(s[k]) ==> s[k] == '\n'
    requires s == [] || s[|s| - 1] != '\n'
    ensures Join("\n", SplitLines(s)) == s
    decreases |s|
  {
    var i := FirstBreak(s);
    if s != [] && i < |s| {
      var line, rest := s[..i], s[i + 1..];
      assert rest != [] && rest[|rest| - 1] == s[|s| - 1];
      assert forall k :: 0 <= k < |rest| ==> rest[k] == s[i + 1 + k];
      JoinSplitLines(rest);
      SplitLinesAtNewline(s);
      JoinCons("\n", line, SplitLines(rest));
      CutAt(s, i);
    }
  }

  /** Python's `s.split(sep)` for a one-character separator. */
  function Split(s: string, sep: char): (parts: seq<string>)
    ensures |parts| >= 1
    decreases |s|
  {
    var i := IndexOf(s, sep);
    if i == |s| then [s] else [s[..i]] + Split(s[i + 1..], sep)
  }

  /** Universal-newline translation done when a file is read in text mode:
      "\r\n" and a lone "\r" both become "\n". */
  function TranslateNewlines(s: string): (r: string)
    decreases |s|
  {
    if s == [] then []
    else if s[0] == '\r' then
      "\n" + TranslateNewlines(if |s| > 1 && s[1] == '\n' then s[2..] else s[1..])
    else [s[0]] + TranslateNewlines(s[1..])
  }

  lemma {:induction false} TranslateNoCarriageReturn(s: string)
    requires forall k :: 0 <= k < |s| ==> s[k] != '\r'
    ensures TranslateNewlines(s) == s
    decreases |s|
  {
    if s != [] {
      TranslateNoCarriageReturn(s[1..]);
    }
  }

  /** The pieces in order, glued back together. */
  function Concat(pieces: seq<string>): string
  {
    if pieces == [] then [] else pieces[0] + Concat(pieces[1..])
  }

  /** The pieces of `s` that iterating over a file yields: they glue back
      to `s`, none is empty, a "\n" can only be a piece's last character,
      and every piece but the last ends with one. */
  function SplitKeepEnds(s: string): (lines: seq<string>)
    ensures Concat(lines) == s
    ensures forall i :: 0 <= i < |lines| ==> lines[i] != []
    ensures forall i, k :: 0 <= i < |lines| && 0 <= k < |lines[i]| - 1 ==> lines[i][k] != '\n'
    ensures forall i :: 0 <= i < |lines| - 1 ==> lines[i][|lines[i]| - 1] == '\n'
    decreases |s|
  {
    if s == [] then []
    else
      var i := IndexOf(s, '\n');
      if i == |s| then
        assert Concat([s]) == s + Concat([]);
        [s]
      else
        var rest := SplitKeepEnds(s[i + 1..]);
        assert ([s[..i + 1]] + rest)[1..] == rest;
        assert s[..i + 1] + s[i + 1..] == s;
        [s[..i + 1]] + rest
  }

  /** The lines Python yields for `for line in f` over a file opened in text
      mode whose bytes decode to `text`. */
  function ReadLines(text: string): seq<string>
  {
    SplitKeepEnds(TranslateNewlines(text))
  }

  /** A line ending in its only "\n" is split off as one piece. */
  lemma SplitKeepEndsCons(line: string, rest: string)
    requires line != [] && line[|line| - 1] == '\n'
    requires forall k :: 0 <= k < |line| - 1 ==> line[k] != '\n'
    ensures SplitKeepEnds(line + rest) == [line] + SplitKeepEnds(rest)
  {
    var s := line + rest;
    assert IndexOf(s, '\n') == |line| - 1 by {
      assert s[|line| - 1] == '\n';
      forall k | 0 <= k < |line| - 1 ensures s[k] != '\n' { assert s[k] == line[k]; }
    }
    assert s[..|line|] == line;
    assert s[|line|..] == rest;
  }

  // ---- decimal numbers ----

  predicate IsDigit(c: char)
  {
    '0' <= c <= '9'
  }

  /** Non-empty and made of decimal digits only. */
  predicate IsDecimal(s: string)
  {
    s != [] && forall k :: 0 <= k < |s| ==> IsDigit(s[k])
  }

  function DigitChar(d: nat): char
    requires d < 10
  {
    ['0', '1', '2', '3', '4', '5', '6', '7', '8', '9'][d]
  }

  function DigitValue(c: char): nat
    requires IsDigit(c)
  {
    (c as int - '0' as int) as nat
  }

  /** The decimal text of `n`, without leading zeros. */
  function NatToString(n: nat): (s: string)
    ensures IsDecimal(s)
  {
    if n < 10 then [DigitChar(n)] else NatToString(n / 10) + [DigitChar(n % 10)]
  }

  /** The value of a string of decimal digits. */
  function ParseNat(s: string): nat
    requires IsDecimal(s)
  {
    if |s| == 1 then DigitValue(s[0])
    else ParseNat(s[..|s| - 1]) * 10 + DigitValue(s[|s| - 1])
  }

  /** Writing a number in decimal and reading it back gives the number. */
  lemma {:induction false} ParseNatToString(n: nat)
    ensures ParseNat(NatToString(n)) == n
  {
    if n >= 10 {
      var s := NatToString(n);
      assert s[..|s| - 1] == NatToString(n / 10);
      ParseNatToString(n / 10);
    }
  }
}
