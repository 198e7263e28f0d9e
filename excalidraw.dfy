/**
 * The content filter applied to text files before upload (`my_filter`).
 * Every file passes unchanged except an Excalidraw drawing note (a name
 * ending in ".excalidraw.md"), of which only the "Text Elements" section is
 * kept, with the block-reference suffix " ^xxxxxxxx" cut off each line.
 * The three fixed regular expressions of the filter are written out as
 * predicates on a line.
 */
module Excalidraw {
  import opened Text

  const DrawingSuffix := ".excalidraw.md"
  const TriggerTitle := " Text Elements"

  /** The number of leading characters of `s` that are whitespace. */
  function SpaceRun(s: string): (n: nat)
    ensures n <= |s|
    ensures forall k :: 0 <= k < n ==> IsSpace(s[k])
    ensures n < |s| ==> !IsSpace(s[n])
  {
    if s != [] && IsSpace(s[0]) then 1 + SpaceRun(s[1..]) else 0
  }

  /** The number of leading '#' characters of `s`. */
  function HashRun(s: string): (n: nat)
    ensures n <= |s|
    ensures forall k :: 0 <= k < n ==> s[k] == '#'
    ensures n < |s| ==> s[n] != '#'
  {
    if s != [] && s[0] == '#' then 1 + HashRun(s[1..]) else 0
  }

  /** `re.match(r'^\s*#+ Text Elements', line)`: optional whitespace, one or
      more '#', then " Text Elements"; anything may follow. */
  predicate IsTrigger(line: string)
  {
    var w := SpaceRun(line);
    var h := HashRun(line[w..]);
    h >= 1 && StartsWith(line[w + h..], TriggerTitle)
  }

  /** `re.match(r'^#+\s+', line)`: one or more '#' at the very start, then
      whitespace. */
  predicate IsHeading(line: string)
  {
    var h := HashRun(line);
    1 <= h < |line| && IsSpace(line[h])
  }

  /** `line` splits as `w` whitespace characters, `h >= 1` '#' characters
      and then the title, as `^\s*#+ Text Elements` reads it. */
  predicate TriggerCut(line: string, w: nat, h: nat)
  {
    1 <= h && w + h <= |line|
    && (forall k :: 0 <= k < w ==> IsSpace(line[k]))
    && (forall k :: w <= k < w + h ==> line[k] == '#')
    && StartsWith(line[w + h..], TriggerTitle)
  }

  /** A cut of a trigger line is the one the greedy runs find: the '#'
      that follows the whitespace ends it, and the space of the title ends
      the run of '#'. */
  lemma TriggerCutIsGreedy(line: string, w: nat, h: nat)
    requires TriggerCut(line, w, h)
    ensures SpaceRun(line) == w && HashRun(line[w..]) == h
  {
    assert line[w] == '#';
    var rest := line[w + h..];
    assert rest[..|TriggerTitle|] == TriggerTitle && TriggerTitle[0] == ' ';
    assert line[w + h] == rest[..|TriggerTitle|][0];
    assert forall k :: 0 <= k < h ==> line[w..][k] == line[w + k];
  }

  /** The trigger test matches exactly when the line can be cut as the
      regular expression reads it, whichever way backtracking would try. */
  lemma TriggerMatches(line: string)
    ensures IsTrigger(line) <==> exists w: nat, h: nat :: TriggerCut(line, w, h)
  {
    if IsTrigger(line) {
      var w := SpaceRun(line);
      var h := HashRun(line[w..]);
      assert forall k :: w <= k < w + h ==> line[k] == line[w..][k - w];
      assert TriggerCut(line, w, h);
    }
    if w: nat, h: nat :| TriggerCut(line, w, h) {
      TriggerCutIsGreedy(line, w, h);
    }
  }

  /** `line` starts with `h >= 1` '#' characters and then whitespace, as
      `^#+\s+` reads it. */
  predicate HeadingCut(line: string, h: nat)
  {
    1 <= h < |line|
    && (forall k :: 0 <= k < h ==> line[k] == '#')
    && IsSpace(line[h])
  }

  /** The heading test matches exactly when the line can be cut as the
      regular expression reads it. */
  lemma HeadingMatches(line: string)
    ensures IsHeading(line) <==> exists h: nat :: HeadingCut(line, h)
  {
    if IsHeading(line) {
      assert HeadingCut(line, HashRun(line));
    }
    if h: nat :| HeadingCut(line, h) {
      assert line[h] != '#';
      assert HashRun(line) == h;
    }
  }

  /** A character of `[\w-]`, read as ASCII. */
  predicate IsBlockIdChar(c: char)
  {
    ('a' <= c <= 'z') || ('A' <= c <= 'Z') || ('0' <= c <= '9') || c == '_' || c == '-'
  }

  /** The eight characters of a block reference. */
  predicate IsBlockId(id: string)
  {
    |id| == 8 && forall k :: 0 <= k < 8 ==> IsBlockIdChar(id[k])
  }

  /** `line` ends with a space, a caret and a block id. */
  predicate HasBlockRef(line: string)
  {
    |line| >= 10 && line[|line| - 10] == ' ' && line[|line| - 9] == '^'
    && IsBlockId(line[|line| - 8..])
  }

  /** `re.sub(r' \^[\w-]{8}$', '', line)`. */
  function StripBlockRef(line: string): string
  {
    if HasBlockRef(line) then line[..|line| - 10] else line
  }

  /** A block reference appended to any text is removed exactly. */
  lemma StripBlockRefRemovesSuffix(text: string, id: string)
    requires IsBlockId(id)
    ensures StripBlockRef(text + " ^" + id) == text
  {
    var line := text + " ^" + id;
    assert line[|line| - 8..] == id;
    assert line[..|line| - 10] == text;
  }

  /** A line is either left alone or loses exactly a trailing block reference. */
  lemma StripBlockRefShape(line: string)
    ensures var r := StripBlockRef(line);
      r == line || (line == r + " ^" + line[|line| - 8..] && IsBlockId(line[|line| - 8..]))
  {
    if HasBlockRef(line) {
      var r := StripBlockRef(line);
      assert line == r + " ^" + line[|line| - 8..];
    }
  }

  /** The capturing flag after one more line. */
  function NextCapturing(capturing: bool, line: string): bool
  {
    if IsTrigger(line) then true
    else if IsHeading(line) && capturing then false
    else capturing
  }

  /** What one line adds to the output, given the flag before it: a trigger
      line is added as it is, and then every line for which the flag is on
      afterwards is added without its block reference. */
  function Emitted(capturing: bool, line: string): seq<string>
  {
    (if IsTrigger(line) then [line] else [])
    + (if NextCapturing(capturing, line) then [StripBlockRef(line)] else [])
  }

  /** The capturing flag after all of `lines`, starting from off. */
  function CapturingAfter(lines: seq<string>): bool
  {
    if lines == [] then false
    else NextCapturing(CapturingAfter(lines[..|lines| - 1]), lines[|lines| - 1])
  }

  /** The output lines for `lines`, in input order. */
  function FilteredLines(lines: seq<string>): seq<string>
  {
    if lines == [] then []
    else
      var init := lines[..|lines| - 1];
      FilteredLines(init) + Emitted(CapturingAfter(init), lines[|lines| - 1])
  }

  /** The result of `my_filter(filename, content)` for text content. */
  function FilterText(filename: string, content: string): string
  {
    if EndsWith(filename, DrawingSuffix) then Join("\n", FilteredLines(SplitLines(content)))
    else content
  }

  /** `my_filter`: the loop over the lines with its `capturing` flag. */
  method Filter(filename: string, content: string) returns (r: string)
    ensures r == FilterText(filename, content)
    ensures !EndsWith(filename, DrawingSuffix) ==> r == content
    ensures EndsWith(filename, DrawingSuffix)
      && (forall i | 0 <= i < |SplitLines(content)| :: !IsTrigger(SplitLines(content)[i]))
      ==> r == ""
  {
    if !EndsWith(filename, DrawingSuffix) {
      return content;
    }
    var lines := SplitLines(content);
    var filtered := FilterLines(lines);
    NoTriggerNoOutput(lines);
    r := Join("\n", filtered);
  }

  /** The loop of `my_filter` over the lines of a drawing note: the
      `capturing` flag and the lines gathered so far. */
  method FilterLines(lines: seq<string>) returns (filtered: seq<string>)
    ensures filtered == FilteredLines(lines)
  {
    filtered := [];
    var capturing := false;
    for i := 0 to |lines|
      invariant filtered == FilteredLines(lines[..i])
      invariant capturing == CapturingAfter(lines[..i])
    {
      assert lines[..i + 1][..i] == lines[..i];
      var line := lines[i];
      ghost var before, next := filtered, NextCapturing(capturing, line);
      ghost var head := if IsTrigger(line) then [line] else [];
      ghost var tail := if next then [StripBlockRef(line)] else [];
      assert FilteredLines(lines[..i + 1]) == before + (head + tail);
      if IsTrigger(line) {
        capturing := true;
        filtered := filtered + [line];
      } else if IsHeading(line) && capturing {
        capturing := false;
      }
      assert filtered == before + head && capturing == next;
      if capturing {
        filtered := filtered + [StripBlockRef(line)];
      }
      AppendAssoc(before, head, tail);
    }
    assert lines[..|lines|] == lines;
  }

  /** Without a trigger line nothing is ever captured, so the output is empty. */
  lemma {:induction false} NoTriggerNoOutput(lines: seq<string>)
    ensures (forall i | 0 <= i < |lines| :: !IsTrigger(lines[i])) ==>
      !CapturingAfter(lines) && FilteredLines(lines) == []
  {
    if lines != [] && forall i | 0 <= i < |lines| :: !IsTrigger(lines[i]) {
      var init := lines[..|lines| - 1];
      assert forall i | 0 <= i < |init| :: !IsTrigger(init[i]) by {
        forall i | 0 <= i < |init| ensures !IsTrigger(init[i]) {
          assert init[i] == lines[i];
        }
      }
      NoTriggerNoOutput(init);
      assert !IsTrigger(lines[|lines| - 1]);
    }
  }

  /** Line `j` of `lines` is a trigger line with no heading line after it. */
  ghost predicate OpenTrigger(lines: seq<string>, j: int)
  {
    0 <= j < |lines| && IsTrigger(lines[j])
    && forall k :: j < k < |lines| ==> !IsHeading(lines[k])
  }

  /** How an open trigger of `lines` relates to one of `lines` without its
      last line. */
  lemma OpenTriggerInit(lines: seq<string>, j: int)
    requires lines != [] && j < |lines| - 1
    ensures OpenTrigger(lines, j) <==>
      OpenTrigger(lines[..|lines| - 1], j) && !IsHeading(lines[|lines| - 1])
  {
    var init := lines[..|lines| - 1];
    assert forall k :: 0 <= k < |init| ==> init[k] == lines[k];
  }

  /** The flag is on after `lines` exactly when some trigger line has no
      heading line after it. */
  lemma {:induction false} CapturingIffOpenTrigger(lines: seq<string>)
    ensures CapturingAfter(lines) <==> exists j :: OpenTrigger(lines, j)
  {
    if lines != [] {
      var n := |lines|;
      var init := lines[..n - 1];
      var last := lines[n - 1];
      CapturingIffOpenTrigger(init);
      if IsTrigger(last) {
        assert OpenTrigger(lines, n - 1);
      } else if CapturingAfter(lines) {
        var j :| OpenTrigger(init, j);
        OpenTriggerInit(lines, j);
      } else {
        forall j | OpenTrigger(lines, j) ensures false {
          OpenTriggerInit(lines, j);
        }
      }
    }
  }

  /** A trigger line appears twice in the output: once as it is, then once
      more through the capturing branch, without its block reference. */
  lemma TriggerEmittedTwice(before: seq<string>, line: string)
    requires IsTrigger(line)
    ensures CapturingAfter(before + [line])
    ensures FilteredLines(before + [line]) == FilteredLines(before) + [line, StripBlockRef(line)]
  {
    FilteredSnoc(before, line);
  }

  /** While capturing, a heading that is not a trigger ends the section and
      is itself dropped. */
  lemma HeadingEndsCapture(before: seq<string>, line: string)
    requires CapturingAfter(before) && IsHeading(line) && !IsTrigger(line)
    ensures !CapturingAfter(before + [line])
    ensures FilteredLines(before + [line]) == FilteredLines(before)
  {
    FilteredSnoc(before, line);
    assert FilteredLines(before) + [] == FilteredLines(before);
  }

  /** Every output line is an input line, possibly without its block reference. */
  lemma {:induction false} OutputFromInput(lines: seq<string>)
    ensures forall o | o in FilteredLines(lines) ::
      exists i :: 0 <= i < |lines| && (o == lines[i] || o == StripBlockRef(lines[i]))
  {
    if lines != [] {
      var n := |lines|;
      var init := lines[..n - 1];
      OutputFromInput(init);
      var last := lines[n - 1];
      var emitted := Emitted(CapturingAfter(init), last);
      assert FilteredLines(lines) == FilteredLines(init) + emitted;
      forall o | o in FilteredLines(lines)
        ensures exists i :: 0 <= i < n && (o == lines[i] || o == StripBlockRef(lines[i]))
      {
        if o in FilteredLines(init) {
          var i :| 0 <= i < |init| && (o == init[i] || o == StripBlockRef(init[i]));
          assert lines[i] == init[i];
        } else {
          assert o in emitted;
          assert o == last || o == StripBlockRef(last);
        }
      }
    }
  }

  lemma ExampleTrigger(l: string)
    requires l == "## Text Elements"
    ensures IsTrigger(l) && StripBlockRef(l) == l
  {
    assert l[0] == '#' && l[1] == '#' && l[2] == ' ';
    assert SpaceRun(l) == 0;
    assert l[0..] == l;
    assert HashRun(l) == 2;
    assert l[2..] == TriggerTitle;
    assert l[|l| - 9] != '^';
  }

  lemma ExampleBody(l: string)
    requires l == "foo ^abc12345"
    ensures !IsTrigger(l) && !IsHeading(l)
    ensures StripBlockRef(l) == "foo"
  {
    assert SpaceRun(l) == 0 && HashRun(l) == 0;
    assert l[|l| - 8..] == "abc12345" && l[..|l| - 10] == "foo";
  }

  lemma ExampleOther(l: string)
    requires l == "## Other"
    ensures !IsTrigger(l) && IsHeading(l)
  {
    assert l[0] == '#' && l[1] == '#' && l[2] == ' ';
    assert SpaceRun(l) == 0;
    assert l[0..] == l;
    assert HashRun(l) == 2;
    assert l[2..] == " Other";
  }

  lemma ExampleTail(l: string)
    requires l == "bar"
    ensures !IsTrigger(l) && !IsHeading(l)
  {
    assert SpaceRun(l) == 0 && HashRun(l) == 0;
  }

  /** One more line extends the output by what that line emits. */
  lemma FilteredSnoc(before: seq<string>, line: string)
    ensures CapturingAfter(before + [line]) == NextCapturing(CapturingAfter(before), line)
    ensures FilteredLines(before + [line]) == FilteredLines(before) + Emitted(CapturingAfter(before), line)
  {
    assert (before + [line])[..|before|] == before;
  }

  /** A trigger, a body line, a heading and a line after it: the trigger is
      emitted twice, the body line once, and nothing from the heading on. */
  lemma FilteredSection(l0: string, l1: string, l2: string, l3: string)
    requires IsTrigger(l0)
    requires !IsTrigger(l1) && !IsHeading(l1)
    requires !IsTrigger(l2) && IsHeading(l2)
    requires !IsTrigger(l3)
    ensures FilteredLines([l0, l1, l2, l3]) == [l0, StripBlockRef(l0), StripBlockRef(l1)]
  {
    var a, b, c := [l0], [l0, l1], [l0, l1, l2];
    var out := [l0, StripBlockRef(l0)];
    TriggerEmittedTwice([], l0);
    assert [] + [l0] == a;
    assert FilteredLines(a) == out by { assert FilteredLines([]) + out == out; }
    FilteredCapturing(a, l1);
    assert a + [l1] == b;
    HeadingEndsCapture(b, l2);
    assert b + [l2] == c;
    FilteredIdle(c, l3);
    assert c + [l3] == [l0, l1, l2, l3];
    assert out + [StripBlockRef(l1)] == [l0, StripBlockRef(l0), StripBlockRef(l1)];
  }

  /** While capturing, a line that is neither a trigger nor a heading is
      emitted without its block reference. */
  lemma FilteredCapturing(before: seq<string>, line: string)
    requires CapturingAfter(before) && !IsTrigger(line) && !IsHeading(line)
    ensures CapturingAfter(before + [line])
    ensures FilteredLines(before + [line]) == FilteredLines(before) + [StripBlockRef(line)]
  {
    FilteredSnoc(before, line);
  }

  /** Outside a section, a line that is not a trigger is dropped. */
  lemma FilteredIdle(before: seq<string>, line: string)
    requires !CapturingAfter(before) && !IsTrigger(line)
    ensures !CapturingAfter(before + [line])
    ensures FilteredLines(before + [line]) == FilteredLines(before)
  {
    FilteredSnoc(before, line);
    assert FilteredLines(before) + [] == FilteredLines(before);
  }

  lemma ExampleOutputLines(trigger: string, body: string, other: string, tail: string)
    requires trigger == "## Text Elements" && body == "foo ^abc12345"
    requires other == "## Other" && tail == "bar"
    ensures FilteredLines([trigger, body, other, tail]) == [trigger, trigger, "foo"]
  {
    ExampleTrigger(trigger);
    ExampleBody(body);
    ExampleOther(other);
    ExampleTail(tail);
    FilteredSection(trigger, body, other, tail);
  }

  /** A drawing note with a "## Text Elements" section holding
      "foo ^abc12345", followed by "## Other" and "bar": the trigger heading
      comes out twice, then "foo", and the section from "## Other" on is
      dropped. (The four lines are parameters fixed by the precondition,
      which keeps the verifier from unfolding the filter over a literal.) */
  lemma TextElementsExample(trigger: string, body: string, other: string, tail: string)
    requires trigger == "## Text Elements" && body == "foo ^abc12345"
    requires other == "## Other" && tail == "bar"
    ensures FilterText("notes.excalidraw.md", Join("\n", [trigger, body, other, tail]))
      == Join("\n", [trigger, trigger, "foo"])
  {
    var lines := [trigger, body, other, tail];
    assert forall i, k :: 0 <= i < |lines| && 0 <= k < |lines[i]| ==> !IsLineBreak(lines[i][k]);
    SplitLinesJoin(lines);
    ExampleOutputLines(trigger, body, other, tail);
    assert EndsWith("notes.excalidraw.md", DrawingSuffix);
  }
}
