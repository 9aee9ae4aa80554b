/** A second, section-by-section reading of `parse` (lib/diff_parser.rb):
    the lines are cut into file sections at each `diff --git` line, every
    section is run on its own from fresh variables, and the sections' lines
    are committed into the map in order. `ParseBySections` proves it is the
    same function as the line-by-line loop. */
module DiffSections {
  import opened Wrappers
  import opened Patterns
  import opened DiffParser

  /** The lines before the first section start, then one group per section
      start, running from it up to the next one. */
  function Sections(lines: seq<string>): (r: seq<seq<string>>)
    ensures |r| >= 1
  {
    if lines == [] then [[]]
    else
      var prev := Sections(lines[..|lines| - 1]);
      var line := lines[|lines| - 1];
      if IsFileStart(line) then prev + [[line]] else AddToLast(prev, line)
  }

  function AddToLast(ss: seq<seq<string>>, line: string): (r: seq<seq<string>>)
    requires |ss| >= 1
    ensures |r| == |ss|
  {
    ss[..|ss| - 1] + [ss[|ss| - 1] + [line]]
  }

  /** `Sections` read from the last line. */
  lemma SectionsSnoc(lines: seq<string>, line: string)
    ensures Sections(lines + [line]) ==
      if IsFileStart(line) then Sections(lines) + [[line]] else AddToLast(Sections(lines), line)
  {
    assert (lines + [line])[..|lines|] == lines;
  }

  function Flatten(ss: seq<seq<string>>): seq<string> {
    if ss == [] then [] else Flatten(ss[..|ss| - 1]) + ss[|ss| - 1]
  }

  /** A section start opens every group but the first, and appears nowhere
      else. */
  predicate WellCut(ss: seq<seq<string>>) {
    && |ss| >= 1
    && (forall k :: 0 <= k < |ss[0]| ==> !IsFileStart(ss[0][k]))
    && (forall j :: 1 <= j < |ss| ==> ss[j] != [] && IsFileStart(ss[j][0]))
    && (forall j, k :: 1 <= j < |ss| && 1 <= k < |ss[j]| ==> !IsFileStart(ss[j][k]))
  }

  /** Cutting loses, adds and reorders no line. */
  lemma {:induction false} SectionsFlatten(lines: seq<string>)
    ensures Flatten(Sections(lines)) == lines
  {
    if lines != [] {
      var pre, line := lines[..|lines| - 1], lines[|lines| - 1];
      SectionsFlatten(pre);
      FlattenAddLine(Sections(pre), line);
      assert Sections(lines) == if IsFileStart(line) then Sections(pre) + [[line]] else AddToLast(Sections(pre), line);
      assert lines == pre + [line];
    }
  }

  lemma FlattenAddLine(prev: seq<seq<string>>, line: string)
    requires |prev| >= 1
    ensures Flatten(prev + [[line]]) == Flatten(prev) + [line]
    ensures Flatten(AddToLast(prev, line)) == Flatten(prev) + [line]
  {
    var n := |prev|;
    assert (prev + [[line]])[..n] == prev;
    var r := prev[..n - 1] + [prev[n - 1] + [line]];
    assert r[..n - 1] == prev[..n - 1];
    assert Flatten(prev) == Flatten(prev[..n - 1]) + prev[n - 1];
  }

  /** The cuts fall exactly at the section starts. */
  lemma {:induction false} SectionsWellCut(lines: seq<string>)
    ensures WellCut(Sections(lines))
  {
    if lines != [] {
      var pre, line := lines[..|lines| - 1], lines[|lines| - 1];
      SectionsWellCut(pre);
      var prev := Sections(pre);
      if IsFileStart(line) {
        WellCutNewSection(prev, line);
      } else {
        WellCutExtend(prev, line);
      }
    }
  }

  lemma WellCutNewSection(prev: seq<seq<string>>, line: string)
    requires WellCut(prev) && IsFileStart(line)
    ensures WellCut(prev + [[line]])
  {
  }

  lemma WellCutExtend(prev: seq<seq<string>>, line: string)
    requires WellCut(prev) && !IsFileStart(line)
    ensures WellCut(AddToLast(prev, line))
  {
    var n := |prev|;
    var r := prev[..n - 1] + [prev[n - 1] + [line]];
    assert forall j :: 0 <= j < n - 1 ==> r[j] == prev[j];
    assert r[n - 1] == prev[n - 1] + [line];
  }

  /** The section variables after running over `lines` from `s`. */
  function RunSection(s: Section, lines: seq<string>): Result<Section, ParseError> {
    if lines == [] then Success(s)
    else
      match RunSection(s, lines[..|lines| - 1])
      case Failure(e) => Failure(e)
      case Success(s') => SectionStep(s', lines[|lines| - 1])
  }

  /** Every section run from fresh variables, committed in order. */
  function Assemble(ss: seq<seq<string>>): Result<DiffMap, ParseError> {
    if ss == [] then Success(map[])
    else
      match Assemble(ss[..|ss| - 1])
      case Failure(e) => Failure(e)
      case Success(m) =>
        match RunSection(Fresh, ss[|ss| - 1])
        case Failure(e) => Failure(e)
        case Success(s) => Success(Commit(m, s))
  }

  /** The loop's state with the last section still pending. */
  function Pending(ss: seq<seq<string>>): Result<ScanState, ParseError>
    requires |ss| >= 1
  {
    match Assemble(ss[..|ss| - 1])
    case Failure(e) => Failure(e)
    case Success(m) =>
      match RunSection(Fresh, ss[|ss| - 1])
      case Failure(e) => Failure(e)
      case Success(s) => Success(ScanState(s, m))
  }

  /** A section-start line changes nothing in fresh variables. */
  lemma SectionStartIsInert(line: string)
    requires IsFileStart(line)
    ensures SectionStep(Fresh, line) == Success(Fresh)
  {
    ClassificationPrecedence(line);
  }

  lemma {:induction false} ScanIsPending(lines: seq<string>)
    ensures Scan(lines) == Pending(Sections(lines))
  {
    if lines != [] {
      var pre, line := lines[..|lines| - 1], lines[|lines| - 1];
      ScanIsPending(pre);
      if IsFileStart(line) {
        PendingNewSection(Sections(pre), line);
      } else {
        PendingExtend(Sections(pre), line);
      }
    }
  }

  /** A section start commits the pending section and opens a fresh one. */
  lemma PendingNewSection(prev: seq<seq<string>>, line: string)
    requires |prev| >= 1 && IsFileStart(line)
    ensures Pending(prev + [[line]]) ==
      match Pending(prev)
      case Failure(e) => Failure(e)
      case Success(st) => Step(st, line)
  {
    SectionStartIsInert(line);
    assert (prev + [[line]])[..|prev|] == prev;
    assert [line][..0] == [];
    assert RunSection(Fresh, [line]) == Success(Fresh);
    assert Assemble(prev) ==
      match Pending(prev)
      case Failure(e) => Failure(e)
      case Success(st) => Success(Commit(st.diffMap, st.section));
  }

  /** Any other line continues the pending section. */
  lemma PendingExtend(prev: seq<seq<string>>, line: string)
    requires |prev| >= 1 && !IsFileStart(line)
    ensures Pending(AddToLast(prev, line)) ==
      match Pending(prev)
      case Failure(e) => Failure(e)
      case Success(st) => Step(st, line)
  {
    var n := |prev|;
    var r := prev[..n - 1] + [prev[n - 1] + [line]];
    assert r[..n - 1] == prev[..n - 1];
    assert (prev[n - 1] + [line])[..|prev[n - 1]|] == prev[n - 1];
  }

  /** `parse` is the section-by-section reading: each section's lines depend
      only on that section, and the map is built by committing the sections
      one after the other. */
  lemma ParseBySections(lines: seq<string>)
    ensures Parse(lines) == Assemble(Sections(lines))
  {
    ScanIsPending(lines);
  }

  /** The outcome of parsing one diff after another: the first error, else
      the second map written over the first. */
  function Combine(a: Result<DiffMap, ParseError>, b: Result<DiffMap, ParseError>): Result<DiffMap, ParseError> {
    match a
    case Failure(e) => Failure(e)
    case Success(ma) =>
      match b
      case Failure(e) => Failure(e)
      case Success(mb) => Success(ma + mb)
  }

  /** Committing sections one after the other distributes over the map
      union: later sections overwrite earlier ones key by key. */
  lemma {:induction false} AssembleAppend(ss: seq<seq<string>>, tt: seq<seq<string>>)
    ensures Assemble(ss + tt) == Combine(Assemble(ss), Assemble(tt))
    decreases |tt|
  {
    if tt == [] {
      assert ss + tt == ss;
      if Assemble(ss).Success? {
        var m := Assemble(ss).value;
        assert m + map[] == m;
      }
    } else {
      var n := |tt|;
      assert (ss + tt)[..|ss + tt| - 1] == ss + tt[..n - 1];
      assert (ss + tt)[|ss + tt| - 1] == tt[n - 1];
      AssembleAppend(ss, tt[..n - 1]);
      if Assemble(ss).Success? && Assemble(tt[..n - 1]).Success? && RunSection(Fresh, tt[n - 1]).Success? {
        var ma, mb, sec := Assemble(ss).value, Assemble(tt[..n - 1]).value, RunSection(Fresh, tt[n - 1]).value;
        assert Commit(ma + mb, sec) == ma + Commit(mb, sec);
      }
    }
  }

  /** A diff that opens with a section start is cut into an empty first
      group followed by its sections, and appending it to other lines just
      appends those sections. */
  lemma {:induction false} SectionsAppend(a: seq<string>, b: seq<string>)
    requires b != [] && IsFileStart(b[0])
    ensures |Sections(b)| >= 2
    ensures Sections(a + b) == Sections(a) + Sections(b)[1..]
    decreases |b|
  {
    var n := |b|;
    var b', x := b[..n - 1], b[n - 1];
    assert b == b' + [x];
    assert a + b == (a + b') + [x];
    SectionsSnoc(a + b', x);
    SectionsSnoc(b', x);
    if n == 1 {
      assert b' == [] && a + b' == a;
    } else {
      SectionsAppend(a, b');
      if !IsFileStart(x) {
        AddToLastAppend(Sections(a), Sections(b')[1..], x);
        AddToLastTail(Sections(b'), x);
      }
    }
  }

  lemma AddToLastAppend(p: seq<seq<string>>, q: seq<seq<string>>, line: string)
    requires |q| >= 1
    ensures AddToLast(p + q, line) == p + AddToLast(q, line)
  {
    assert (p + q)[..|p + q| - 1] == p + q[..|q| - 1];
  }

  lemma AddToLastTail(q: seq<seq<string>>, line: string)
    requires |q| >= 2
    ensures AddToLast(q, line)[1..] == AddToLast(q[1..], line)
  {
    assert q[1..][..|q| - 2] == q[1..|q| - 1];
  }

  /** An empty leading group commits nothing. */
  lemma AssembleLeadingEmpty(rest: seq<seq<string>>)
    ensures Assemble([[]] + rest) == Assemble(rest)
  {
    AssembleAppend([[]], rest);
    assert Assemble([[]]) == Success(map[]);
    if Assemble(rest).Success? {
      var m := Assemble(rest).value;
      assert map[] + m == m;
    }
  }

  /** Parsing a diff followed by another one that opens with a section start
      is parsing each on its own and merging the maps, the second winning on
      a shared file name. */
  lemma ParseConcat(a: seq<string>, b: seq<string>)
    requires b != [] && IsFileStart(b[0])
    ensures Parse(a + b) == Combine(Parse(a), Parse(b))
  {
    ParseBySections(a + b);
    ParseBySections(a);
    ParseBySections(b);
    SectionsAppend(a, b);
    SectionsAppend([], b);
    assert [] + b == b;
    var rest := Sections(b)[1..];
    assert Sections(b) == [[]] + rest;
    AssembleAppend(Sections(a), rest);
    AssembleLeadingEmpty(rest);
  }
}
