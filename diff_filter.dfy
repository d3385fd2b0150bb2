/**
 * The review script's filter that is meant to keep test code out of the diff
 * it sends for review. It walks the diff's lines with a `skip` flag that is
 * raised at the first `diff --git` header mentioning `test/` and never
 * lowered again, so what it keeps is the longest prefix of lines before that
 * header. Splitting the diff text into lines (`str.splitlines`) is a library
 * call: the input here is the sequence of lines it produced.
 */
module DiffFilter {
  import opened Text

  /** The line that opens one file's section of a `git diff`. */
  const FileHeader := "diff --git"

  /** The marker that identifies a test file's path. */
  const TestMarker := "test/"

  predicate IsFileHeader(line: string) {
    StartsWith(line, FileHeader)
  }

  /** The condition on which the filter raises its `skip` flag. */
  predicate IsTestHeader(line: string) {
    IsFileHeader(line) && Contains(line, TestMarker)
  }

  /** The index of the first test header, or `|lines|` when there is none. */
  function FirstTestHeader(lines: seq<string>): (k: nat)
    ensures k <= |lines|
    ensures forall j :: 0 <= j < k ==> !IsTestHeader(lines[j])
    ensures k < |lines| ==> IsTestHeader(lines[k])
  {
    if lines == [] then 0
    else if IsTestHeader(lines[0]) then 0
    else 1 + FirstTestHeader(lines[1..])
  }

  /** The lines the filter keeps. */
  function KeptLines(lines: seq<string>): seq<string> {
    lines[..FirstTestHeader(lines)]
  }

  /** `remove_unittest_from_gitdiff`, over the diff's lines. */
  method RemoveUnittestFromGitDiff(lines: seq<string>) returns (out: string)
    ensures out == Join(KeptLines(lines), '\n')
  {
    var filtered: seq<string> := [];
    var skip := false;
    for i := 0 to |lines|
      invariant skip <==> FirstTestHeader(lines) < i
      invariant filtered == lines[..if skip then FirstTestHeader(lines) else i]
    {
      var line := lines[i];
      if StartsWith(line, FileHeader) && Contains(line, TestMarker) {
        skip := true;
      }
      if !skip {
        filtered := filtered + [line];
      }
    }
    out := Join(filtered, '\n');
  }

  /**
   * What is kept is exactly the lines strictly before the first test header:
   * a prefix of the input that holds no test header, and the whole input when
   * there is no test header at all.
   */
  lemma KeptLinesPrefix(lines: seq<string>)
    ensures KeptLines(lines) <= lines
    ensures forall j :: 0 <= j < |KeptLines(lines)| ==> !IsTestHeader(KeptLines(lines)[j])
    ensures |KeptLines(lines)| < |lines| ==> IsTestHeader(lines[|KeptLines(lines)|])
    ensures (forall j :: 0 <= j < |lines| ==> !IsTestHeader(lines[j])) <==> KeptLines(lines) == lines
  {
  }

  /** Once a test header is met nothing after it is kept, whatever follows. */
  lemma {:induction false} NothingAfterTestHeader(before: seq<string>, header: string, after: seq<string>)
    requires forall j :: 0 <= j < |before| ==> !IsTestHeader(before[j])
    requires IsTestHeader(header)
    ensures KeptLines(before + [header] + after) == before
  {
    var lines := before + [header] + after;
    assert lines[|before|] == header;
    assert forall j :: 0 <= j < |before| ==> lines[j] == before[j];
    assert lines[..|before|] == before;
  }

  /** Filtering the kept lines again keeps all of them. */
  lemma KeptLinesIdempotent(lines: seq<string>)
    ensures KeptLines(KeptLines(lines)) == KeptLines(lines)
  {
  }

  // ---------------------------------------------------------------------
  // A diff read as sections: the lines before the first file header, then
  // one section per file, each a header followed by lines that are not
  // headers.

  datatype Section = Section(header: string, body: seq<string>)

  datatype Diff = Diff(prelude: seq<string>, sections: seq<Section>)

  predicate NoHeaders(lines: seq<string>) {
    forall j :: 0 <= j < |lines| ==> !IsFileHeader(lines[j])
  }

  predicate WellFormedSection(s: Section) {
    IsFileHeader(s.header) && NoHeaders(s.body)
  }

  predicate WellFormed(d: Diff) {
    NoHeaders(d.prelude) && forall i :: 0 <= i < |d.sections| ==> WellFormedSection(d.sections[i])
  }

  function SectionLines(sections: seq<Section>): seq<string> {
    if sections == [] then []
    else [sections[0].header] + sections[0].body + SectionLines(sections[1..])
  }

  function DiffLines(d: Diff): seq<string> {
    d.prelude + SectionLines(d.sections)
  }

  /** Groups lines into sections at each file header; the grouping loses nothing. */
  function Sections(lines: seq<string>): (d: Diff)
    ensures WellFormed(d)
    ensures DiffLines(d) == lines
  {
    if lines == [] then Diff([], [])
    else
      var rest := Sections(lines[1..]);
      assert lines == [lines[0]] + lines[1..];
      if IsFileHeader(lines[0]) then
        HeaderStep(lines[0], rest);
        Diff([], [Section(lines[0], rest.prelude)] + rest.sections)
      else
        PreludeStep(lines[0], rest);
        Diff([lines[0]] + rest.prelude, rest.sections)
  }

  /** A header opens a new section holding what was the prelude. */
  lemma HeaderStep(header: string, rest: Diff)
    requires IsFileHeader(header) && WellFormed(rest)
    ensures var d := Diff([], [Section(header, rest.prelude)] + rest.sections);
      WellFormed(d) && DiffLines(d) == [header] + DiffLines(rest)
  {
    var sections := [Section(header, rest.prelude)] + rest.sections;
    assert sections[1..] == rest.sections;
  }

  /** A line that is not a header joins the prelude. */
  lemma PreludeStep(line: string, rest: Diff)
    requires !IsFileHeader(line) && WellFormed(rest)
    ensures var d := Diff([line] + rest.prelude, rest.sections);
      WellFormed(d) && DiffLines(d) == [line] + DiffLines(rest)
  {
  }

  predicate IsTestSection(s: Section) {
    IsTestHeader(s.header)
  }

  /** The index of the first test section, or `|sections|` when there is none. */
  function FirstTestSection(sections: seq<Section>): (k: nat)
    ensures k <= |sections|
    ensures forall j :: 0 <= j < k ==> !IsTestSection(sections[j])
    ensures k < |sections| ==> IsTestSection(sections[k])
  {
    if sections == [] then 0
    else if IsTestSection(sections[0]) then 0
    else 1 + FirstTestSection(sections[1..])
  }

  /** The sections whose header does not mention the test marker, in order. */
  function NonTestSections(sections: seq<Section>): seq<Section> {
    if sections == [] then []
    else (if IsTestSection(sections[0]) then [] else [sections[0]]) + NonTestSections(sections[1..])
  }

  lemma KeptLinesCons(lines: seq<string>)
    requires lines != [] && !IsTestHeader(lines[0])
    ensures KeptLines(lines) == [lines[0]] + KeptLines(lines[1..])
  {
  }

  lemma {:induction false} KeptLinesAppendClear(clear: seq<string>, rest: seq<string>)
    requires forall j :: 0 <= j < |clear| ==> !IsTestHeader(clear[j])
    ensures KeptLines(clear + rest) == clear + KeptLines(rest)
    decreases |clear|
  {
    if clear == [] {
      assert clear + rest == rest;
    } else {
      assert (clear + rest)[1..] == clear[1..] + rest;
      assert (clear + rest)[0] == clear[0] && !IsTestHeader(clear[0]);
      KeptLinesCons(clear + rest);
      KeptLinesAppendClear(clear[1..], rest);
      assert [clear[0]] + (clear[1..] + KeptLines(rest)) == clear + KeptLines(rest);
    }
  }

  /**
   * In section terms, the filter as written keeps the prelude and the
   * sections before the first test section, and drops every section from
   * there on, test or not.
   */
  lemma {:induction false} KeptLinesBySection(d: Diff)
    requires WellFormed(d)
    ensures KeptLines(DiffLines(d)) == d.prelude + SectionLines(d.sections[..FirstTestSection(d.sections)])
  {
    KeptLinesAppendClear(d.prelude, SectionLines(d.sections));
    KeptSections(d.sections);
  }

  lemma {:induction false} KeptSections(sections: seq<Section>)
    requires forall i :: 0 <= i < |sections| ==> WellFormedSection(sections[i])
    ensures KeptLines(SectionLines(sections)) == SectionLines(sections[..FirstTestSection(sections)])
  {
    if sections != [] {
      var s := sections[0];
      assert WellFormedSection(s);
      if IsTestSection(s) {
        assert SectionLines(sections)[0] == s.header;
      } else {
        var clear := [s.header] + s.body;
        KeptLinesAppendClear(clear, SectionLines(sections[1..]));
        KeptSections(sections[1..]);
        assert sections[..FirstTestSection(sections)] == [s] + sections[1..][..FirstTestSection(sections[1..])];
      }
    }
  }

  /** Every input, read as its own sections, is filtered this way. */
  lemma KeptLinesOfSections(lines: seq<string>)
    ensures var d := Sections(lines);
      KeptLines(lines) == d.prelude + SectionLines(d.sections[..FirstTestSection(d.sections)])
  {
    KeptLinesBySection(Sections(lines));
  }

  // ---------------------------------------------------------------------
  // The filter as evidently intended: `skip` follows the most recent file
  // header, so only test sections are dropped.

  /** The corrected filter: each header sets `skip` anew. */
  function DropTestLines(lines: seq<string>, skip: bool): seq<string> {
    if lines == [] then []
    else
      var skip' := if IsFileHeader(lines[0]) then Contains(lines[0], TestMarker) else skip;
      (if skip' then [] else [lines[0]]) + DropTestLines(lines[1..], skip')
  }

  function DropTestSections(lines: seq<string>): seq<string> {
    DropTestLines(lines, false)
  }

  lemma {:induction false} DropTestLinesNoHeaders(body: seq<string>, rest: seq<string>, skip: bool)
    requires NoHeaders(body)
    ensures DropTestLines(body + rest, skip) == (if skip then [] else body) + DropTestLines(rest, skip)
    decreases |body|
  {
    if body == [] {
      assert body + rest == rest;
    } else {
      assert (body + rest)[0] == body[0] && !IsFileHeader(body[0]);
      assert (body + rest)[1..] == body[1..] + rest;
      calc {
        DropTestLines(body + rest, skip);
        (if skip then [] else [body[0]]) + DropTestLines(body[1..] + rest, skip);
        { DropTestLinesNoHeaders(body[1..], rest, skip); }
        (if skip then [] else [body[0]]) + ((if skip then [] else body[1..]) + DropTestLines(rest, skip));
        { assert [body[0]] + body[1..] == body; }
        (if skip then [] else body) + DropTestLines(rest, skip);
      }
    }
  }

  lemma SectionLinesCons(s: Section, rest: seq<Section>)
    ensures SectionLines([s] + rest) == [s.header] + s.body + SectionLines(rest)
  {
  }

  lemma {:induction false} DropTestLinesSections(sections: seq<Section>, skip: bool)
    requires forall i :: 0 <= i < |sections| ==> WellFormedSection(sections[i])
    ensures DropTestLines(SectionLines(sections), skip) == SectionLines(NonTestSections(sections))
  {
    if sections != [] {
      var s := sections[0];
      assert WellFormedSection(s);
      var tail := SectionLines(sections[1..]);
      var skip' := IsTestSection(s);
      calc {
        DropTestLines(SectionLines(sections), skip);
        { assert SectionLines(sections) == [s.header] + (s.body + tail); }
        (if skip' then [] else [s.header]) + DropTestLines(s.body + tail, skip');
        { DropTestLinesNoHeaders(s.body, tail, skip'); }
        (if skip' then [] else [s.header] + s.body) + DropTestLines(tail, skip');
        { DropTestLinesSections(sections[1..], skip'); }
        (if skip' then [] else [s.header] + s.body) + SectionLines(NonTestSections(sections[1..]));
        { if skip' {
            assert [] + NonTestSections(sections[1..]) == NonTestSections(sections[1..]);
          } else {
            SectionLinesCons(s, NonTestSections(sections[1..]));
          }
        }
        SectionLines((if skip' then [] else [s]) + NonTestSections(sections[1..]));
        SectionLines(NonTestSections(sections));
      }
    }
  }

  /**
   * The corrected filter keeps the prelude and exactly the sections whose
   * header does not mention the test marker, in their original order and
   * each one whole.
   */
  lemma DropTestSectionsBySection(d: Diff)
    requires WellFormed(d)
    ensures DropTestSections(DiffLines(d)) == d.prelude + SectionLines(NonTestSections(d.sections))
  {
    DropTestLinesNoHeaders(d.prelude, SectionLines(d.sections), false);
    DropTestLinesSections(d.sections, false);
  }

  /**
   * A test section followed by a non-test section: the filter as written
   * keeps nothing, the corrected one keeps the non-test section whole.
   */
  lemma TestThenSource(h1: string, b1: string, h2: string, b2: string)
    requires IsTestHeader(h1) && !IsFileHeader(b1)
    requires IsFileHeader(h2) && !Contains(h2, TestMarker) && !IsFileHeader(b2)
    ensures KeptLines([h1, b1, h2, b2]) == []
    ensures DropTestSections([h1, b1, h2, b2]) == [h2, b2]
  {
    var lines := [h1, b1, h2, b2];
    assert lines[1..] == [b1, h2, b2] && lines[1..][1..] == [h2, b2];
    assert [h2, b2][1..] == [b2] && [b2][1..] == [];
    assert DropTestLines([b2], false) == [b2];
    assert DropTestLines([h2, b2], true) == [h2, b2];
    assert DropTestLines([b1, h2, b2], true) == [h2, b2];
  }

  /** The same on a concrete diff. */
  lemma TruncationCounterexample()
    ensures var lines := ["diff --git a/test/x.py b/test/x.py", "+t",
                          "diff --git a/src/y.py b/src/y.py", "+s"];
      KeptLines(lines) == [] &&
      DropTestSections(lines) == ["diff --git a/src/y.py b/src/y.py", "+s"]
  {
    TestHeaderExample();
    SourceHeaderExample();
    TestThenSource("diff --git a/test/x.py b/test/x.py", "+t",
                   "diff --git a/src/y.py b/src/y.py", "+s");
  }

  lemma TestHeaderExample()
    ensures IsTestHeader("diff --git a/test/x.py b/test/x.py")
  {
    var h := "diff --git a/test/x.py b/test/x.py";
    assert StartsWith(h, FileHeader);
    assert StartsWith(h[13..], TestMarker);
    ContainsAt(h, TestMarker, 13);
  }

  lemma SourceHeaderExample()
    ensures IsFileHeader("diff --git a/src/y.py b/src/y.py")
    ensures !Contains("diff --git a/src/y.py b/src/y.py", TestMarker)
  {
    var h := "diff --git a/src/y.py b/src/y.py";
    assert StartsWith(h, FileHeader);
    assert TestMarker[1] == 'e';
    assert 'e' !in h;
    NotContainsMissingChar(h, TestMarker, 1);
  }
}
