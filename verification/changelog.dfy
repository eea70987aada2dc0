/**
 The release-note section splitter of the `done` task in tasks/changelog.py.

 A release note is read line by line (each line keeping its newline). A line
 starting with "# " opens the section named by the rest of the line, stripped;
 any other line is appended to the open section, and is dropped while no
 section is open. The result is the `sections` dict, modelled as a map from
 title to text together with the dict's key insertion order.
 */
module Changelog {
  import opened Results
  import PyStr

  /** `line.startswith("# ")`. */
  predicate IsHeading(line: string) {
    |line| >= 2 && line[..2] == "# "
  }

  /** `line[2:].strip()`: the section key a heading line opens. */
  function Title(line: string): string
    requires IsHeading(line)
  {
    PyStr.Strip(line[2..])
  }

  /** The loop's variables: `sections`, its key order, and `current_section`. */
  datatype Parser = Parser(sections: map<string, string>, order: seq<string>, current: Option<string>)

  /** What the loop keeps true: the open section exists, so `+=` on it never fails. */
  predicate Valid(p: Parser) {
    p.current.Some? ==> p.current.value in p.sections
  }

  /** The recorded key order lists every key of the dict exactly once. */
  ghost predicate OrderMatches(p: Parser) {
    && (forall i, j :: 0 <= i < j < |p.order| ==> p.order[i] != p.order[j])
    && (forall k :: k in p.sections <==> k in p.order)
  }

  /** `sections = {}; current_section = None`. */
  const Start := Parser(map[], [], None)

  /** One iteration of the loop body. */
  function Step(p: Parser, line: string): (r: Parser)
    requires Valid(p)
    ensures Valid(r)
    ensures IsHeading(line) ==> r.current == Some(Title(line)) && r.sections[Title(line)] == ""
    ensures IsHeading(line) ==> r.sections.Keys == p.sections.Keys + {Title(line)}
    ensures !IsHeading(line) ==> r.current == p.current && r.sections.Keys == p.sections.Keys
    ensures forall k :: k in p.sections && r.current != Some(k) ==> k in r.sections && r.sections[k] == p.sections[k]
  {
    if IsHeading(line) then
      var t := Title(line);
      Parser(p.sections[t := ""], if t in p.sections then p.order else p.order + [t], Some(t))
    else if p.current.Some? then
      var c := p.current.value;
      Parser(p.sections[c := p.sections[c] + line], p.order, p.current)
    else
      p
  }

  /** The loop run over `lines` from state `p`. */
  function Run(p: Parser, lines: seq<string>): (r: Parser)
    requires Valid(p)
    ensures Valid(r)
  {
    if |lines| == 0 then p
    else Step(Run(p, lines[..|lines| - 1]), lines[|lines| - 1])
  }

  /** The sections of one release note. */
  function Parse(lines: seq<string>): (r: Parser)
    ensures Valid(r)
  {
    Run(Start, lines)
  }

  /** Each step keeps the key order in step with the dict. */
  lemma StepKeepsOrder(p: Parser, line: string)
    requires Valid(p) && OrderMatches(p)
    ensures OrderMatches(Step(p, line))
  {
  }

  /** After any number of lines, the key order lists every key exactly once. */
  lemma {:induction false} RunKeepsOrder(p: Parser, lines: seq<string>)
    requires Valid(p) && OrderMatches(p)
    ensures OrderMatches(Run(p, lines))
  {
    if |lines| > 0 {
      RunKeepsOrder(p, lines[..|lines| - 1]);
      StepKeepsOrder(Run(p, lines[..|lines| - 1]), lines[|lines| - 1]);
    }
  }

  /** The dict built from a note records each of its keys once, in insertion order. */
  lemma ParseKeepsOrder(lines: seq<string>)
    ensures OrderMatches(Parse(lines))
  {
    RunKeepsOrder(Start, lines);
  }

  // ---------------------------------------------------------------------------
  // An independent description of the result, in terms of the input lines.

  /** Some line of `lines` is a heading. */
  predicate HasHeading(lines: seq<string>) {
    exists i :: 0 <= i < |lines| && IsHeading(lines[i])
  }

  /** The distinct titles of the heading lines of `lines`. */
  function HeadingTitles(lines: seq<string>): set<string> {
    set i | 0 <= i < |lines| && IsHeading(lines[i]) :: Title(lines[i])
  }

  /** Concatenation of the lines of `lines` up to (not including) its first heading. */
  function Body(lines: seq<string>): string
  {
    if |lines| == 0 || IsHeading(lines[0]) then "" else lines[0] + Body(lines[1..])
  }

  /** Position of the last heading line of `lines`, or -1. */
  function LastHeading(lines: seq<string>): (r: int)
    ensures -1 <= r < |lines|
    ensures r >= 0 ==> IsHeading(lines[r])
    ensures forall j :: r < j < |lines| ==> !IsHeading(lines[j])
  {
    if |lines| == 0 then -1
    else if IsHeading(lines[|lines| - 1]) then |lines| - 1
    else LastHeading(lines[..|lines| - 1])
  }

  /** Position of the last heading line of `lines` whose title is `k`, or -1. */
  function LastHeadingOf(lines: seq<string>, k: string): (r: int)
    ensures -1 <= r < |lines|
    ensures r >= 0 ==> IsHeading(lines[r]) && Title(lines[r]) == k
    ensures forall j :: r < j < |lines| && IsHeading(lines[j]) ==> Title(lines[j]) != k
  {
    if |lines| == 0 then -1
    else if IsHeading(lines[|lines| - 1]) && Title(lines[|lines| - 1]) == k then |lines| - 1
    else LastHeadingOf(lines[..|lines| - 1], k)
  }

  /** Appending a line extends the body only while no heading has been met. */
  lemma {:induction false} BodySnoc(lines: seq<string>, x: string)
    ensures Body(lines + [x]) == if HasHeading(lines) || IsHeading(x) then Body(lines) else Body(lines) + x
    decreases |lines|
  {
    if |lines| == 0 {
      assert lines + [x] == [x];
    } else {
      assert (lines + [x])[0] == lines[0];
      assert (lines + [x])[1..] == lines[1..] + [x];
      if !IsHeading(lines[0]) {
        BodySnoc(lines[1..], x);
        assert HasHeading(lines) == HasHeading(lines[1..]) by {
          if HasHeading(lines[1..]) {
            var i :| 0 <= i < |lines[1..]| && IsHeading(lines[1..][i]);
            assert IsHeading(lines[i + 1]);
          }
          if HasHeading(lines) {
            var i :| 0 <= i < |lines| && IsHeading(lines[i]);
            assert IsHeading(lines[1..][i - 1]);
          }
        }
      }
    }
  }

  /** `current_section` is the title of the last heading seen, or None before any. */
  lemma {:induction false} CurrentIsLastHeading(lines: seq<string>)
    ensures Parse(lines).current == OpenAfter(lines)
  {
    if |lines| > 0 {
      CurrentIsLastHeading(lines[..|lines| - 1]);
    }
  }

  /** The section of `k` in `p` is as `SectionContent` describes it for `lines`. */
  ghost predicate Describes(p: Parser, lines: seq<string>, k: string) {
    && (k in p.sections <==> LastHeadingOf(lines, k) >= 0)
    && (k in p.sections ==> p.sections[k] == Body(lines[LastHeadingOf(lines, k) + 1..]))
  }

  /** The open section that `lines` leave behind: the title of their last heading. */
  function OpenAfter(lines: seq<string>): Option<string> {
    var m := LastHeading(lines);
    if m < 0 then None else Some(Title(lines[m]))
  }

  /**
   The central property. A key is present exactly when some heading has it as
   title, and its text is the body that follows the LAST such heading: the
   non-heading lines after it, in order, up to the next heading or the end.
   */
  lemma {:induction false} SectionContent(lines: seq<string>, k: string)
    ensures k in Parse(lines).sections <==> LastHeadingOf(lines, k) >= 0
    ensures var j := LastHeadingOf(lines, k);
            j >= 0 ==> Parse(lines).sections[k] == Body(lines[j + 1..])
  {
    ParseDescribes(lines, k);
  }

  /** Induction on the lines read so far. */
  lemma {:induction false} ParseDescribes(lines: seq<string>, k: string)
    ensures Describes(Parse(lines), lines, k)
  {
    if |lines| > 0 {
      var init := lines[..|lines| - 1];
      var x := lines[|lines| - 1];
      assert lines[..|lines| - 1] == init;
      assert init + [x] == lines;
      var p := Parse(init);
      assert Parse(lines) == Step(p, x);
      ParseDescribes(init, k);
      CurrentIsLastHeading(init);
      SectionContentStep(p, init, x, k);
    }
  }

  /** One more line keeps `Describes`. */
  lemma SectionContentStep(p: Parser, init: seq<string>, x: string, k: string)
    requires Valid(p) && Describes(p, init, k) && p.current == OpenAfter(init)
    ensures Describes(Step(p, x), init + [x], k)
  {
    if IsHeading(x) && Title(x) == k {
      SectionOpened(p, init, x, k);
    } else if !IsHeading(x) && p.current == Some(k) {
      SectionAppend(p, init, x, k);
    } else if IsHeading(x) {
      SectionKeptByHeading(p, init, x, k);
    } else {
      SectionKeptByContent(p, init, x, k);
    }
  }

  /** A heading titled `k` opens `k` with empty text. */
  lemma SectionOpened(p: Parser, init: seq<string>, x: string, k: string)
    requires Valid(p)
    requires IsHeading(x) && Title(x) == k
    ensures Describes(Step(p, x), init + [x], k)
  {
    var lines := init + [x];
    assert LastHeadingOf(lines, k) == |init|;
    assert lines[|init| + 1..] == [];
  }

  /** The last heading titled `k` after reading one more line. */
  lemma LastHeadingOfSnoc(init: seq<string>, x: string, k: string)
    ensures LastHeadingOf(init + [x], k)
         == if IsHeading(x) && Title(x) == k then |init| else LastHeadingOf(init, k)
  {
    assert (init + [x])[..|init|] == init;
  }

  /** A heading with another title leaves `k`'s section as it was. */
  lemma SectionKeptByHeading(p: Parser, init: seq<string>, x: string, k: string)
    requires Valid(p) && Describes(p, init, k)
    requires IsHeading(x) && Title(x) != k
    ensures Describes(Step(p, x), init + [x], k)
  {
    var q := Step(p, x);
    assert q.sections == p.sections[Title(x) := ""];
    assert k in q.sections <==> k in p.sections;
    assert k in p.sections ==> q.sections[k] == p.sections[k];
    var j := LastHeadingOf(init, k);
    LastHeadingOfSnoc(init, x, k);
    if j >= 0 {
      BodyEndsAtHeading(init, j, x);
    }
  }

  /** Appending a heading never extends a body. */
  lemma BodyEndsAtHeading(init: seq<string>, j: int, x: string)
    requires 0 <= j < |init| && IsHeading(x)
    ensures Body((init + [x])[j + 1..]) == Body(init[j + 1..])
  {
    assert (init + [x])[j + 1..] == init[j + 1..] + [x];
    BodySnoc(init[j + 1..], x);
  }

  /** A content line read while another section (or none) is open leaves `k`'s section as it was. */
  lemma SectionKeptByContent(p: Parser, init: seq<string>, x: string, k: string)
    requires Valid(p) && Describes(p, init, k) && p.current == OpenAfter(init)
    requires !IsHeading(x) && p.current != Some(k)
    ensures Describes(Step(p, x), init + [x], k)
  {
    var q := Step(p, x);
    assert k in q.sections <==> k in p.sections;
    assert k in p.sections ==> q.sections[k] == p.sections[k];
    var j := LastHeadingOf(init, k);
    LastHeadingOfSnoc(init, x, k);
    if j >= 0 {
      BodyClosedByLaterHeading(init, j, LastHeading(init), x);
    }
  }

  /** Once a later heading has closed the body after `j`, appending a line does not extend it. */
  lemma BodyClosedByLaterHeading(init: seq<string>, j: int, m: int, x: string)
    requires 0 <= j < m < |init| && IsHeading(init[m])
    ensures Body((init + [x])[j + 1..]) == Body(init[j + 1..])
  {
    var tail := init[j + 1..];
    assert (init + [x])[j + 1..] == tail + [x];
    assert IsHeading(tail[m - j - 1]);
    BodySnoc(tail, x);
  }

  /** A content line read while `k` is open is appended to `k`'s section. */
  lemma SectionAppend(p: Parser, init: seq<string>, x: string, k: string)
    requires Valid(p) && Describes(p, init, k) && p.current == OpenAfter(init)
    requires !IsHeading(x) && p.current == Some(k)
    ensures Describes(Step(p, x), init + [x], k)
  {
    var lines := init + [x];
    var j := LastHeadingOf(init, k);
    LastHeadingOfSnoc(init, x, k);
    assert j == LastHeading(init);
    assert lines[j + 1..] == init[j + 1..] + [x];
    var tail := init[j + 1..];
    assert !HasHeading(tail) by {
      forall i | 0 <= i < |tail| ensures !IsHeading(tail[i]) {
        assert tail[i] == init[j + 1 + i];
      }
    }
    BodySnoc(tail, x);
  }

  /** `k` is the title of some heading exactly when it has a last heading. */
  lemma HeadingTitleHasLast(lines: seq<string>, k: string)
    ensures k in HeadingTitles(lines) <==> LastHeadingOf(lines, k) >= 0
  {
    var r := LastHeadingOf(lines, k);
    if r >= 0 {
      assert Title(lines[r]) in HeadingTitles(lines);
    }
  }

  /** The key set is the set of distinct stripped heading titles. */
  lemma KeysAreHeadingTitles(lines: seq<string>)
    ensures Parse(lines).sections.Keys == HeadingTitles(lines)
  {
    forall k | k in HeadingTitles(lines) ensures k in Parse(lines).sections {
      HeadingTitleHasLast(lines, k);
      SectionContent(lines, k);
    }
    forall k | k in Parse(lines).sections ensures k in HeadingTitles(lines) {
      HeadingTitleHasLast(lines, k);
      SectionContent(lines, k);
    }
  }

  /** Input without any heading yields no sections. */
  lemma NoHeadingsNoSections(lines: seq<string>)
    requires !HasHeading(lines)
    ensures Parse(lines).sections == map[]
  {
    KeysAreHeadingTitles(lines);
  }

  /** Running over `a + b` is running over `a`, then over `b`. */
  lemma {:induction false} RunConcat(p: Parser, a: seq<string>, b: seq<string>)
    requires Valid(p)
    ensures Run(p, a + b) == Run(Run(p, a), b)
    decreases |b|
  {
    if |b| == 0 {
      assert a + b == a;
    } else {
      var b' := b[..|b| - 1];
      assert (a + b)[..|a + b| - 1] == a + b';
      assert (a + b)[|a + b| - 1] == b[|b| - 1];
      RunConcat(p, a, b');
    }
  }

  /** Before the first heading nothing is open, so the loop leaves its start state alone. */
  lemma {:induction false} PreambleKeepsStart(pre: seq<string>)
    requires !HasHeading(pre)
    ensures Run(Start, pre) == Start
  {
    if |pre| > 0 {
      var init := pre[..|pre| - 1];
      assert !IsHeading(pre[|pre| - 1]);
      assert !HasHeading(init) by {
        forall i | 0 <= i < |init| ensures !IsHeading(init[i]) {
          assert init[i] == pre[i];
        }
      }
      PreambleKeepsStart(init);
    }
  }

  /** Lines before the first heading are discarded: dropping them changes nothing. */
  lemma PreambleDropped(pre: seq<string>, rest: seq<string>)
    requires !HasHeading(pre)
    ensures Parse(pre + rest) == Parse(rest)
  {
    RunConcat(Start, pre, rest);
    PreambleKeepsStart(pre);
  }

  /** A repeated heading resets its section: only the lines after its last occurrence survive. */
  lemma RepeatedHeadingResets(before: seq<string>, h: string, after: seq<string>)
    requires IsHeading(h)
    requires forall i :: 0 <= i < |after| && IsHeading(after[i]) ==> Title(after[i]) != Title(h)
    ensures Title(h) in Parse(before + [h] + after).sections
    ensures Parse(before + [h] + after).sections[Title(h)] == Body(after)
  {
    var lines := before + [h] + after;
    var t := Title(h);
    assert lines[|before|] == h;
    forall i | |before| < i < |lines| ensures lines[i] == after[i - |before| - 1] {}
    assert LastHeadingOf(lines, t) == |before|;
    assert lines[|before| + 1..] == after;
    SectionContent(lines, t);
  }

  /** A line opening with '#' but not "# " (such as "## X" or "#x") is content of the open section. */
  lemma HashWithoutSpaceIsContent(p: Parser, line: string)
    requires Valid(p) && p.current.Some?
    requires |line| > 0 && line[0] == '#' && (|line| == 1 || line[1] != ' ')
    ensures !IsHeading(line)
    ensures Step(p, line).sections[p.current.value] == p.sections[p.current.value] + line
  {
  }

  // ---------------------------------------------------------------------------
  // Output file naming.

  /** `release_note[:-3]`: the file name without its last three characters ("" when shorter). */
  function NoteName(fileName: string): (r: string)
    ensures |fileName| >= 3 ==> |r| == |fileName| - 3
    ensures |fileName| < 3 ==> r == ""
    ensures r == fileName[..|r|]
  {
    if |fileName| >= 3 then fileName[..|fileName| - 3] else ""
  }

  /** The path of the YAML file written for a release note. */
  function OutputPath(fileName: string): string {
    "releasenotes/notes/" + NoteName(fileName) + ".yaml"
  }

  /** For a Markdown note `stem.md` the name is the stem, so the output is `releasenotes/notes/stem.yaml`. */
  lemma MarkdownNoteName(stem: string)
    ensures NoteName(stem + ".md") == stem
    ensures OutputPath(stem + ".md") == "releasenotes/notes/" + stem + ".yaml"
  {
    assert (stem + ".md")[..|stem|] == stem;
  }

  /** Distinct Markdown notes get distinct output files. */
  lemma OutputPathInjective(stem1: string, stem2: string)
    requires stem1 != stem2
    ensures OutputPath(stem1 + ".md") != OutputPath(stem2 + ".md")
  {
    MarkdownNoteName(stem1);
    MarkdownNoteName(stem2);
    var p1 := OutputPath(stem1 + ".md");
    var p2 := OutputPath(stem2 + ".md");
    assert p1[19..|p1| - 5] == stem1;
    assert p2[19..|p2| - 5] == stem2;
  }
}
