/** `PullParser::DiffParser` (lib/diff_parser.rb): the helpers that read file
    names off marker lines and classify them, `is_interesting?`, and `parse`,
    the single forward pass over the lines of a unified diff. */
module DiffParser {
  import opened Wrappers
  import opened RubyText
  import opened Patterns

  /** What `parse` can raise: `get_file` on a marker line without a second
      field indexes `nil` (a `NoMethodError` in Ruby). */
  datatype ParseError = MissingPathField(line: string)

  /** The result of `parse`: file name (possibly `nil`) to the recorded lines,
      in the order they were met, each with its line terminator. */
  type DiffMap = map<Option<string>, seq<string>>

  /** `get_file`: the second whitespace-separated field of a marker line
      without its two-character `a/`/`b/` tag; `nil` for `/dev/null`, and also
      for a one-character field, where Ruby's `field[2..-1]` is `nil`. */
  function GetFile(line: string): (r: Result<Option<string>, ParseError>)
    ensures r.Failure? <==> |Fields(line)| < 2
    ensures r.Success? && r.value.Some? ==> NoSpace(r.value.value)
  {
    var fields := Fields(line);
    if |fields| < 2 then Failure(MissingPathField(line))
    else if fields[1] == "/dev/null" then Success(None)
    else if |fields[1]| < 2 then Success(None)
    else FieldsShape(line); Success(Some(fields[1][2..]))
  }

  /** `is_file_in_spec_dir?`. */
  predicate InSpecDir(name: Option<string>) {
    name.Some? && IsSpecDirName(name.value)
  }

  /** `is_gem_file?`. */
  predicate IsGemFile(name: Option<string>) {
    name.Some? && (IsGemfileName(name.value) || IsGemspecName(name.value))
  }

  /** `get_current_file`: the old name unless it is `nil`, else the new one. */
  function CurrentFile(oldFile: Option<string>, newFile: Option<string>): (r: Option<string>)
    ensures oldFile.Some? ==> r == oldFile
    ensures oldFile.None? ==> r == newFile
    ensures r.None? <==> oldFile.None? && newFile.None?
  {
    if oldFile.None? then newFile else oldFile
  }

  /** The fields of a marker line written from a marker, whitespace and a
      path token are the marker and the token. */
  lemma MarkerLineFields(marker: string, sep: string, token: string)
    requires marker != [] && NoSpace(marker)
    requires sep != [] && AllSpace(sep)
    requires token != [] && NoSpace(token)
    ensures Fields(marker + sep + token) == [marker, token]
  {
    FieldsOfWord(token, []);
    assert token + [] == token;
    FieldsSkipSpaces(sep, token);
    FieldsOfWord(marker, sep + token);
    assert marker + sep + token == marker + (sep + token);
  }

  /** `get_file` gives back the path a marker line was written from: the
      `a/path` or `b/path` token loses its tag and nothing else. */
  lemma GetFileRecoversPath(marker: string, sep: string, tag: string, path: string)
    requires marker != [] && NoSpace(marker)
    requires sep != [] && AllSpace(sep)
    requires |tag| == 2 && NoSpace(tag + path)
    requires tag + path != "/dev/null"
    ensures GetFile(marker + sep + (tag + path)) == Success(Some(path))
  {
    MarkerLineFields(marker, sep, tag + path);
    assert (tag + path)[2..] == path;
  }

  /** The `/dev/null` token stands for a missing file. */
  lemma GetFileDevNull(marker: string, sep: string)
    requires marker != [] && NoSpace(marker)
    requires sep != [] && AllSpace(sep)
    ensures GetFile(marker + sep + "/dev/null") == Success(None)
  {
    MarkerLineFields(marker, sep, "/dev/null");
  }

  /** Trailing whitespace, such as the line's own newline, changes no name. */
  lemma GetFileTrailingSpace(line: string, tail: string)
    requires AllSpace(tail)
    requires GetFile(line).Success?
    ensures GetFile(line + tail) == GetFile(line)
  {
    FieldsOfTrailingSpace(line, tail);
  }

  /** A marker with nothing but whitespace after it raises. */
  lemma GetFileWithoutPath(marker: string, tail: string)
    requires marker != [] && NoSpace(marker)
    requires AllSpace(tail)
    ensures GetFile(marker + tail).Failure?
  {
    FieldsOfSpaces(tail);
    FieldsOfWord(marker, []);
    assert marker + [] == marker;
    FieldsOfTrailingSpace(marker, tail);
  }

  /** The expectations of the test suite for `get_file`: a tagged path
      loses its tag. */
  lemma GetFileTaggedExample()
    ensures GetFile("+++ a/path/to/file") == Success(Some("path/to/file"))
  {
    GetFileRecoversPath("+++", " ", "a/", "path/to/file");
    assert "+++ a/path/to/file" == "+++" + " " + ("a/" + "path/to/file");
  }

  /** An untagged absolute path still loses its first two characters. */
  lemma GetFileUntaggedExample()
    ensures GetFile("--- /path/to/file") == Success(Some("ath/to/file"))
  {
    GetFileRecoversPath("---", " ", "/p", "ath/to/file");
    assert "--- /path/to/file" == "---" + " " + ("/p" + "ath/to/file");
  }

  lemma GetFileDevNullExample()
    ensures GetFile("+ /dev/null") == Success(None)
  {
    GetFileDevNull("+", " ");
    assert "+ /dev/null" == "+" + " " + "/dev/null";
  }

  /** A line with a single field raises. */
  lemma GetFileSingleFieldExample()
    ensures GetFile("/path/to/file").Failure?
  {
    GetFileWithoutPath("/path/to/file", "");
    assert "/path/to/file" + "" == "/path/to/file";
  }

  /** Index of the first `/` in `p`, or `|p|` when there is none. */
  function SlashIndex(p: string): (k: nat)
    ensures k <= |p|
    ensures forall i :: 0 <= i < k ==> p[i] != '/'
    ensures k < |p| ==> p[k] == '/'
  {
    if p == [] || p[0] == '/' then 0 else 1 + SlashIndex(p[1..])
  }

  /** A file is in the spec directory exactly when the first segment of its
      path is `spec` and more path follows it. */
  lemma InSpecDirIffFirstSegment(p: string)
    ensures InSpecDir(Some(p)) <==> SlashIndex(p) < |p| && p[..SlashIndex(p)] == "spec"
  {
    var k := SlashIndex(p);
    if InSpecDir(Some(p)) {
      assert p[4] == '/' && p[..4] == "spec";
      assert k == 4;
    }
    if k < |p| && p[..k] == "spec" {
      assert p[..5] == p[..k] + [p[k]];
    }
  }

  /** For a name read off a marker line, which has no whitespace, `is_gem_file?`
      accepts exactly `Gemfile` and `.gemspec`. */
  lemma GemFileIffExactName(name: Option<string>)
    requires name.Some? ==> NoSpace(name.value)
    ensures IsGemFile(name) <==> name == Some("Gemfile") || name == Some(".gemspec")
  {
    if name.Some? && (name.value == "Gemfile\n" || name.value == ".gemspec\n") {
      assert IsSpace(name.value[|name.value| - 1]);
    }
  }

  /** The expectations of the test suite for the file-name helpers. */
  lemma FileNameExamples()
    ensures IsGemFile(Some("Gemfile")) && IsGemFile(Some(".gemspec"))
    ensures !IsGemFile(Some("HolaGemfile")) && !IsGemFile(Some(".gemspecification")) && !IsGemFile(None)
    ensures InSpecDir(Some("spec/bla/foo"))
    ensures !InSpecDir(Some("specification/baz")) && !InSpecDir(Some("/spec/foo/bar_spec"))
    ensures !InSpecDir(Some("foo/bar/spec/hello")) && !InSpecDir(None)
    ensures CurrentFile(Some("hello"), Some("hello")) == Some("hello")
    ensures CurrentFile(Some("hello"), None) == Some("hello")
    ensures CurrentFile(None, Some("hello")) == Some("hello")
    ensures CurrentFile(None, None) == None
  {
    assert "specification/baz"[4] != "spec/"[4];
    assert "/spec/foo/bar_spec"[0] != "spec/"[0];
    assert "foo/bar/spec/hello"[0] != "spec/"[0];
  }

  /** `is_interesting?`: tries the patterns in order and stops at the first
      that matches. */
  method IsInteresting(line: string) returns (r: bool)
    ensures r == Interesting(line)
  {
    for k := 0 to |InterestingTokens|
      invariant forall j :: 0 <= j < k ==> !ContainsWord(line, InterestingTokens[j])
    {
      if ContainsWord(line, InterestingTokens[k]) {
        return true;
      }
    }
    return false;
  }

  /** The parse-local variables that describe the current file section:
      `old_file`, `new_file`, `file`, `spec_file`, `gem_file` and the pending
      `interesting_mods`. */
  datatype Section = Section(
    oldFile: Option<string>,
    newFile: Option<string>,
    file: Option<string>,
    specFile: bool,
    gemFile: bool,
    mods: seq<string>)

  /** Their values at the start of `parse` and after every section start. */
  const Fresh: Section := Section(Some(""), Some(""), Some(""), false, false, [])

  /** All of `parse`'s state: the current section and `diff_map`. */
  datatype ScanState = ScanState(section: Section, diffMap: DiffMap)

  /** Records a section's pending lines under its file name, if there are any. */
  function Commit(m: DiffMap, s: Section): DiffMap {
    if |s.mods| > 0 then m[s.file := s.mods] else m
  }

  /** What the `+++` line does once `new_file` is known. */
  function Resolve(s: Section, newFile: Option<string>): Section {
    s.(newFile := newFile,
       file := CurrentFile(s.oldFile, newFile),
       specFile := InSpecDir(newFile) || (s.oldFile != newFile && InSpecDir(s.oldFile)),
       gemFile := s.gemFile || IsGemFile(s.oldFile) || IsGemFile(newFile))
  }

  /** One line inside a section: skipped in a spec section, a `---` or `+++`
      marker sets a name, a modified line is recorded in a gem section or when
      it is interesting, and anything else is ignored. */
  function SectionStep(s: Section, line: string): Result<Section, ParseError> {
    if s.specFile then Success(s)
    else if IsFileDel(line) then
      match GetFile(line)
      case Failure(e) => Failure(e)
      case Success(p) => Success(s.(oldFile := p))
    else if IsFileAdd(line) then
      match GetFile(line)
      case Failure(e) => Failure(e)
      case Success(p) => Success(Resolve(s, p))
    else if IsModifiedLine(line) && (s.gemFile || Interesting(line)) then
      Success(s.(mods := s.mods + [line]))
    else Success(s)
  }

  /** One iteration of `parse`'s loop: a section start commits the pending
      lines and resets the section, then the line is handled in the section. */
  function Step(st: ScanState, line: string): Result<ScanState, ParseError> {
    var st' := if IsFileStart(line) then ScanState(Fresh, Commit(st.diffMap, st.section)) else st;
    match SectionStep(st'.section, line)
    case Failure(e) => Failure(e)
    case Success(s) => Success(ScanState(s, st'.diffMap))
  }

  /** The state after the loop has run over `lines`, or what it raised. */
  function Scan(lines: seq<string>): Result<ScanState, ParseError> {
    if lines == [] then Success(ScanState(Fresh, map[]))
    else
      match Scan(lines[..|lines| - 1])
      case Failure(e) => Failure(e)
      case Success(st) => Step(st, lines[|lines| - 1])
  }

  /** `parse` over the lines of its input: the loop, then the commit of the
      last section. */
  function Parse(lines: seq<string>): Result<DiffMap, ParseError> {
    match Scan(lines)
    case Failure(e) => Failure(e)
    case Success(st) => Success(Commit(st.diffMap, st.section))
  }

  /** Once a line has raised, the rest of the input is never looked at. */
  lemma {:induction false} ScanFailurePersists(lines: seq<string>, n: nat)
    requires n <= |lines|
    requires Scan(lines[..n]).Failure?
    ensures Scan(lines) == Scan(lines[..n])
    decreases |lines| - n
  {
    if n < |lines| {
      assert lines[..n + 1][..n] == lines[..n];
      ScanFailurePersists(lines, n + 1);
    } else {
      assert lines[..n] == lines;
    }
  }

  /** `parse(data)`. */
  method ParseDiff(data: string) returns (r: Result<DiffMap, ParseError>)
    ensures r == Parse(Lines(data))
  {
    var lines := Lines(data);
    var oldFile: Option<string> := Some("");
    var newFile: Option<string> := Some("");
    var specFile := false;
    var gemFile := false;
    var file: Option<string> := Some("");
    var diffMap: DiffMap := map[];
    var mods: seq<string> := [];

    for i := 0 to |lines|
      invariant Scan(lines[..i]) == Success(ScanState(Section(oldFile, newFile, file, specFile, gemFile, mods), diffMap))
    {
      var line := lines[i];
      assert lines[..i + 1][..i] == lines[..i];
      if IsFileStart(line) {
        if |mods| > 0 {
          diffMap := diffMap[file := mods];
        }
        specFile := false;
        gemFile := false;
        oldFile := Some("");
        newFile := Some("");
        file := Some("");
        mods := [];
      }

      if specFile {
        continue;
      }

      if IsFileDel(line) {
        var name := GetFile(line);
        if name.Failure? {
          ScanFailurePersists(lines, i + 1);
          assert lines[..|lines|] == lines;
          return Failure(name.error);
        }
        oldFile := name.value;
        continue;
      }

      if IsFileAdd(line) {
        var name := GetFile(line);
        if name.Failure? {
          ScanFailurePersists(lines, i + 1);
          assert lines[..|lines|] == lines;
          return Failure(name.error);
        }
        newFile := name.value;
        file := CurrentFile(oldFile, newFile);
        specFile := InSpecDir(newFile);
        if oldFile != newFile {
          specFile := specFile || InSpecDir(oldFile);
        }
        if IsGemFile(oldFile) || IsGemFile(newFile) {
          gemFile := true;
        }
        continue;
      }

      if IsModifiedLine(line) {
        if gemFile {
          mods := mods + [line];
          continue;
        }
        var interesting := IsInteresting(line);
        if interesting {
          mods := mods + [line];
        }
      }
    }
    assert lines[..|lines|] == lines;

    if |mods| > 0 {
      diffMap := diffMap[file := mods];
    }
    return Success(diffMap);
  }
}
