/** What `parse` (lib/diff_parser.rb) promises about whole diffs: which
    lines it records and under which name, that a spec section records
    nothing, that a gem section records every change, where it can raise,
    and what it gives for a diff without changed lines. */
module DiffProperties {
  import opened Wrappers
  import opened RubyText
  import opened Patterns
  import opened DiffParser
  import opened DiffSections

  /** A line `parse` may record: it carries a `+`/`-` sigil and is not a
      `---`/`+++` marker. */
  predicate Recordable(line: string) {
    IsModifiedLine(line) && !IsFileDel(line) && !IsFileAdd(line)
  }

  /** The lines of a section body without markers that a section records:
      its modified lines, every one of them in a gem section and only the
      interesting ones elsewhere, in their order. */
  function Kept(gem: bool, lines: seq<string>): (r: seq<string>)
    ensures |r| <= |lines|
    ensures forall l :: l in r ==> l in lines && IsModifiedLine(l) && (gem || Interesting(l))
  {
    if lines == [] then []
    else
      var pre, line := lines[..|lines| - 1], lines[|lines| - 1];
      assert lines == pre + [line];
      Kept(gem, pre) + if IsModifiedLine(line) && (gem || Interesting(line)) then [line] else []
  }

  /** In a gem section every modified line is kept. */
  lemma {:induction false} KeptInGemSection(lines: seq<string>, l: string)
    requires l in lines && IsModifiedLine(l)
    ensures l in Kept(true, lines)
  {
    var pre, line := lines[..|lines| - 1], lines[|lines| - 1];
    assert lines == pre + [line];
    if l in pre {
      KeptInGemSection(pre, l);
    }
  }

  /** Elsewhere a modified line is kept exactly when it is interesting. */
  lemma {:induction false} KeptOutsideGemSection(lines: seq<string>, l: string)
    requires l in lines && IsModifiedLine(l)
    ensures l in Kept(false, lines) <==> Interesting(l)
  {
    var pre, line := lines[..|lines| - 1], lines[|lines| - 1];
    assert lines == pre + [line];
    if l in pre {
      KeptOutsideGemSection(pre, l);
    }
  }

  /** Splitting a section's lines: run the first part, then the rest. */
  lemma {:induction false} RunSectionAppend(s: Section, a: seq<string>, b: seq<string>)
    ensures RunSection(s, a + b) ==
      match RunSection(s, a)
      case Failure(e) => Failure(e)
      case Success(s') => RunSection(s', b)
    decreases |b|
  {
    if b == [] {
      assert a + b == a;
    } else {
      var b', x := b[..|b| - 1], b[|b| - 1];
      assert a + b == (a + b') + [x];
      assert (a + b)[..|a + b| - 1] == a + b';
      RunSectionAppend(s, a, b');
    }
  }

  /** Once a section is known to be under `spec/`, its remaining lines change
      nothing: not the names, not the flags, not the pending lines. */
  lemma {:induction false} SpecSectionStays(s: Section, lines: seq<string>)
    requires s.specFile
    ensures RunSection(s, lines) == Success(s)
  {
    if lines != [] {
      SpecSectionStays(s, lines[..|lines| - 1]);
    }
  }

  /** Inside a section the gem flag is only ever set: a later `+++` line
      naming other files does not clear it. */
  lemma {:induction false} GemFlagSticky(s: Section, lines: seq<string>)
    requires s.gemFile
    requires RunSection(s, lines).Success?
    ensures RunSection(s, lines).value.gemFile
  {
    if lines != [] {
      GemFlagSticky(s, lines[..|lines| - 1]);
    }
  }

  /** A section body without markers appends exactly its kept lines. */
  lemma {:induction false} SectionRecords(s: Section, body: seq<string>)
    requires !s.specFile
    requires forall i :: 0 <= i < |body| ==> !IsFileDel(body[i]) && !IsFileAdd(body[i])
    ensures RunSection(s, body) == Success(s.(mods := s.mods + Kept(s.gemFile, body)))
  {
    if body == [] {
      assert s.mods + [] == s.mods;
    } else {
      var pre, line := body[..|body| - 1], body[|body| - 1];
      SectionRecords(s, pre);
      var s' := s.(mods := s.mods + Kept(s.gemFile, pre));
      var extra := if IsModifiedLine(line) && (s.gemFile || Interesting(line)) then [line] else [];
      assert body == pre + [line];
      assert RunSection(s, body) == SectionStep(s', line);
      assert !IsFileDel(line) && !IsFileAdd(line);
      if extra == [] {
        assert s'.mods + extra == s'.mods;
      }
      assert SectionStep(s', line) == Success(s'.(mods := s'.mods + extra));
      assert Kept(s.gemFile, body) == Kept(s.gemFile, pre) + extra;
      assert s.mods + Kept(s.gemFile, pre) + extra == s.mods + (Kept(s.gemFile, pre) + extra);
    }
  }

  /** Lines without a section start stay in the current section: the loop
      runs the section over them and the map is left alone. */
  lemma {:induction false} ScanWithinSection(pre: seq<string>, body: seq<string>)
    requires forall i :: 0 <= i < |body| ==> !IsFileStart(body[i])
    ensures Scan(pre + body) ==
      match Scan(pre)
      case Failure(e) => Failure(e)
      case Success(st) =>
        match RunSection(st.section, body)
        case Failure(e) => Failure(e)
        case Success(s) => Success(ScanState(s, st.diffMap))
    decreases |body|
  {
    if body == [] {
      assert pre + body == pre;
    } else {
      var b', x := body[..|body| - 1], body[|body| - 1];
      assert pre + body == (pre + b') + [x];
      assert (pre + body)[..|pre + body| - 1] == pre + b';
      ScanWithinSection(pre, b');
    }
  }

  /** A file name a marker line can carry: whitespace would split it. */
  predicate PlainName(name: Option<string>) {
    name.Some? ==> NoSpace(name.value)
  }

  /** The marker line git writes for a name: the tagged path, or
      `/dev/null` for a file that does not exist on that side. */
  function MarkerLine(marker: string, tag: string, name: Option<string>): string {
    marker + " " + (if name.Some? then tag + name.value else "/dev/null") + "\n"
  }

  /** `get_file` reads the name back off the marker line written for it. */
  lemma MarkerLineName(marker: string, tag: string, name: Option<string>)
    requires marker != [] && NoSpace(marker)
    requires |tag| == 2 && NoSpace(tag) && tag[0] != '/'
    requires PlainName(name)
    ensures GetFile(MarkerLine(marker, tag, name)) == Success(name)
  {
    if name.Some? {
      var token := tag + name.value;
      assert NoSpace(token) by {
        assert forall i :: 0 <= i < |token| ==> token[i] == if i < 2 then tag[i] else name.value[i - 2];
      }
      assert token[0] != "/dev/null"[0];
      GetFileRecoversPath(marker, " ", tag, name.value);
      GetFileTrailingSpace(marker + " " + token, "\n");
    } else {
      GetFileDevNull(marker, " ");
      GetFileTrailingSpace(marker + " " + "/dev/null", "\n");
    }
  }

  /** The first three lines of a section: the section start, then a `---`
      and a `+++` marker line naming `oldFile` and `newFile`. */
  predicate Header(start: string, del: string, add: string, oldFile: Option<string>, newFile: Option<string>) {
    && IsFileStart(start)
    && IsFileDel(del) && GetFile(del) == Success(oldFile)
    && IsFileAdd(add) && GetFile(add) == Success(newFile)
  }

  /** The marker lines git writes form such a header. */
  lemma GitHeader(start: string, oldFile: Option<string>, newFile: Option<string>)
    requires IsFileStart(start)
    requires PlainName(oldFile) && PlainName(newFile)
    ensures Header(start, MarkerLine("---", "a/", oldFile), MarkerLine("+++", "b/", newFile), oldFile, newFile)
  {
    MarkerLineName("---", "a/", oldFile);
    MarkerLineName("+++", "b/", newFile);
  }

  /** Git's extended header lines between the section start and the
      markers (`index 83db48f..bf269f4 100644`, `new file mode 100644`,
      `similarity index 90%`, ...): no section start and no `+`/`-` sigil. */
  predicate ExtendedHeader(ext: seq<string>) {
    forall i :: 0 <= i < |ext| ==> QuietLine(ext[i])
  }

  /** A line that is no section start, no marker and no changed line. */
  predicate QuietLine(line: string) {
    !IsFileStart(line) && !IsModifiedLine(line)
  }

  /** The lines a section opens with. */
  function SectionHead(start: string, ext: seq<string>, del: string, add: string): seq<string> {
    [start] + ext + [del, add]
  }

  /** Git's extended header lines, hunk headers and context lines are
      quiet lines. */
  lemma GitLineExamples()
    ensures QuietLine("index 83db48f..bf269f4 100644\n")
    ensures QuietLine("new file mode 100644\n")
    ensures QuietLine("deleted file mode 100644\n")
    ensures QuietLine("similarity index 90%\n")
    ensures QuietLine("@@ -1,2 +1,3 @@\n")
    ensures QuietLine(" source 'https://rubygems.org'\n")
  {
    assert "deleted file mode 100644\n"[1] != "diff --git"[1];
    assert "similarity index 90%\n"[0] != "diff --git"[0];
  }

  /** Extended header lines fall through every branch of the loop. */
  lemma {:induction false} ExtendedHeaderIsInert(s: Section, ext: seq<string>)
    requires ExtendedHeader(ext)
    ensures RunSection(s, ext) == Success(s)
  {
    if ext != [] {
      var pre, line := ext[..|ext| - 1], ext[|ext| - 1];
      ExtendedHeaderIsInert(s, pre);
      ClassificationPrecedence(line);
    }
  }

  /** The two marker lines set both names, the resolved key and both flags. */
  lemma MarkersResolve(del: string, add: string, oldFile: Option<string>, newFile: Option<string>)
    requires IsFileDel(del) && GetFile(del) == Success(oldFile)
    requires IsFileAdd(add) && GetFile(add) == Success(newFile)
    ensures RunSection(Fresh, [del, add]) == Success(Resolve(Fresh.(oldFile := oldFile), newFile))
  {
    ClassificationPrecedence(add);
    var s := Fresh.(oldFile := oldFile);
    assert [del][..0] == [];
    assert RunSection(Fresh, [del]) == SectionStep(Fresh, del) == Success(s);
    assert [del, add][..1] == [del];
    assert SectionStep(s, add) == Success(Resolve(s, newFile));
  }

  /** The section variables once the head of a section has been read: the
      names, the resolved key and both flags, and nothing committed. */
  lemma ScanHeader(start: string, ext: seq<string>, del: string, add: string, oldFile: Option<string>, newFile: Option<string>)
    requires Header(start, del, add, oldFile, newFile)
    requires ExtendedHeader(ext)
    ensures Scan(SectionHead(start, ext, del, add)) == Success(ScanState(Resolve(Fresh.(oldFile := oldFile), newFile), map[]))
  {
    SectionStartIsInert(start);
    ClassificationPrecedence(del);
    ClassificationPrecedence(add);
    assert [start][..0] == [];
    assert Scan([start]) == Success(ScanState(Fresh, map[]));
    var rest := ext + [del, add];
    assert SectionHead(start, ext, del, add) == [start] + rest;
    ExtendedHeaderIsInert(Fresh, ext);
    MarkersResolve(del, add, oldFile, newFile);
    RunSectionAppend(Fresh, ext, [del, add]);
    ScanWithinSection([start], rest);
  }

  /** The keys and values `parse` gives for one section: the section's name
      with its recorded lines, or nothing when it recorded none. */
  function SectionMap(file: Option<string>, mods: seq<string>): (m: DiffMap)
    ensures file in m <==> |mods| > 0
    ensures forall k :: k in m ==> k == file && m[k] == mods
  {
    if |mods| > 0 then map[file := mods] else map[]
  }

  /** A section body: hunk headers, context lines and changed lines, but no
      section start and no marker line. */
  predicate PlainBody(body: seq<string>) {
    forall i :: 0 <= i < |body| ==> !IsFileStart(body[i]) && !IsFileDel(body[i]) && !IsFileAdd(body[i])
  }

  /** The state after a section body that follows the marker lines. */
  lemma ScanBody(header: seq<string>, s: Section, body: seq<string>)
    requires Scan(header) == Success(ScanState(s, map[]))
    requires PlainBody(body)
    ensures Scan(header + body) ==
      Success(ScanState(if s.specFile then s else s.(mods := s.mods + Kept(s.gemFile, body)), map[]))
  {
    ScanWithinSection(header, body);
    if s.specFile {
      SpecSectionStays(s, body);
    } else {
      SectionRecords(s, body);
    }
  }

  /** A whole section as git writes it. It is filed under the old name
      unless that is `nil`; it is a spec section when either name is under
      `spec/` (so the `old_file.eql? new_file` guard changes nothing); a spec
      section records nothing; a gem section records every modified line and
      any other section its interesting modified lines. */
  lemma ParseFileSection(start: string, ext: seq<string>, del: string, add: string, oldFile: Option<string>, newFile: Option<string>, body: seq<string>)
    requires Header(start, del, add, oldFile, newFile)
    requires ExtendedHeader(ext)
    requires PlainBody(body)
    ensures Parse(SectionHead(start, ext, del, add) + body) ==
      Success(SectionMap(CurrentFile(oldFile, newFile),
        if InSpecDir(oldFile) || InSpecDir(newFile) then []
        else Kept(IsGemFile(oldFile) || IsGemFile(newFile), body)))
  {
    ScanHeader(start, ext, del, add, oldFile, newFile);
    var s := Resolve(Fresh.(oldFile := oldFile), newFile);
    ScanBody(SectionHead(start, ext, del, add), s, body);
    assert s.mods + Kept(s.gemFile, body) == Kept(s.gemFile, body);
  }

  /** A `Gemfile` or `.gemspec` section outside `spec/` records, under its
      name, the changed lines of its body in order, every one of them. */
  lemma GemSectionRecordsEveryChange(start: string, ext: seq<string>, del: string, add: string, oldFile: Option<string>, newFile: Option<string>, body: seq<string>)
    requires Header(start, del, add, oldFile, newFile)
    requires ExtendedHeader(ext)
    requires !InSpecDir(oldFile) && !InSpecDir(newFile)
    requires IsGemFile(oldFile) || IsGemFile(newFile)
    requires PlainBody(body)
    ensures Parse(SectionHead(start, ext, del, add) + body) == Success(SectionMap(CurrentFile(oldFile, newFile), Kept(true, body)))
    ensures forall l :: l in body && IsModifiedLine(l) ==>
      var m := Parse(SectionHead(start, ext, del, add) + body).value;
      CurrentFile(oldFile, newFile) in m && l in m[CurrentFile(oldFile, newFile)]
  {
    ParseFileSection(start, ext, del, add, oldFile, newFile, body);
    forall l | l in body && IsModifiedLine(l)
      ensures l in Kept(true, body)
    {
      KeptInGemSection(body, l);
    }
  }

  /** A spec section added after a diff changes nothing in its result. */
  lemma SpecSectionAddsNothing(a: seq<string>, start: string, ext: seq<string>, del: string, add: string, oldFile: Option<string>, newFile: Option<string>, body: seq<string>)
    requires Header(start, del, add, oldFile, newFile)
    requires ExtendedHeader(ext)
    requires InSpecDir(oldFile) || InSpecDir(newFile)
    requires PlainBody(body)
    ensures Parse(a + (SectionHead(start, ext, del, add) + body)) == Parse(a)
  {
    ParseFileSection(start, ext, del, add, oldFile, newFile, body);
    ParseConcat(a, SectionHead(start, ext, del, add) + body);
    if Parse(a).Success? {
      var m := Parse(a).value;
      assert m + map[] == m;
    }
  }

  /** A removed line `--` is printed as `---`, which reads as a marker
      without a name: outside a spec section `parse` raises on it. */
  lemma RemovedDoubleDashRaises(start: string, ext: seq<string>, del: string, add: string, oldFile: Option<string>, newFile: Option<string>)
    requires Header(start, del, add, oldFile, newFile)
    requires ExtendedHeader(ext)
    requires !InSpecDir(oldFile) && !InSpecDir(newFile)
    ensures Parse(SectionHead(start, ext, del, add) + ["---\n"]) == Failure(MissingPathField("---\n"))
  {
    ScanHeader(start, ext, del, add, oldFile, newFile);
    ScanWithinSection(SectionHead(start, ext, del, add), ["---\n"]);
    GetFileWithoutPath("---", "\n");
    assert "---\n" == "---" + "\n";
    assert ["---\n"][..0] == [];
  }

  /** Every name in the map has recorded lines, and every recorded line is a
      modified line of the input that is not a marker. */
  predicate Sound(lines: seq<string>, st: ScanState) {
    && (forall l :: l in st.section.mods ==> l in lines && Recordable(l))
    && (forall k :: k in st.diffMap ==> |st.diffMap[k]| > 0)
    && (forall k, l :: k in st.diffMap && l in st.diffMap[k] ==> l in lines && Recordable(l))
  }

  lemma {:induction false} ScanSound(lines: seq<string>)
    requires Scan(lines).Success?
    ensures Sound(lines, Scan(lines).value)
  {
    if lines != [] {
      var pre, line := lines[..|lines| - 1], lines[|lines| - 1];
      assert lines == pre + [line];
      ScanSound(pre);
      ClassificationPrecedence(line);
    }
  }

  /** What `parse` returns: names with at least one recorded line each, and
      only modified lines of the input that are not `---`/`+++` markers. */
  lemma ParseSound(lines: seq<string>)
    requires Parse(lines).Success?
    ensures forall k :: k in Parse(lines).value ==> |Parse(lines).value[k]| > 0
    ensures forall k, l :: k in Parse(lines).value && l in Parse(lines).value[k] ==> l in lines && Recordable(l)
  {
    ScanSound(lines);
  }

  /** `parse` raises only on a `---`/`+++` marker line of the input that has
      no second field. */
  lemma {:induction false} ParseFailure(lines: seq<string>, l: string)
    requires Parse(lines) == Failure(MissingPathField(l))
    ensures l in lines && (IsFileDel(l) || IsFileAdd(l)) && |Fields(l)| < 2
  {
    ScanFailure(lines, l);
  }

  lemma {:induction false} ScanFailure(lines: seq<string>, l: string)
    requires Scan(lines) == Failure(MissingPathField(l))
    ensures l in lines && (IsFileDel(l) || IsFileAdd(l)) && |Fields(l)| < 2
  {
    var pre, line := lines[..|lines| - 1], lines[|lines| - 1];
    assert lines == pre + [line];
    if Scan(pre).Failure? {
      ScanFailure(pre, l);
    }
  }

  /** Hence a diff whose marker lines all carry a name never raises. */
  lemma ParseSucceeds(lines: seq<string>)
    requires forall i :: 0 <= i < |lines| && (IsFileDel(lines[i]) || IsFileAdd(lines[i])) ==> |Fields(lines[i])| >= 2
    ensures Parse(lines).Success?
  {
    if Parse(lines).Failure? {
      ParseFailure(lines, Parse(lines).error.line);
    }
  }

  /** A diff without modified lines gives the empty map; in particular so
      does the empty diff. */
  lemma ParseWithoutChangedLines(lines: seq<string>)
    requires forall i :: 0 <= i < |lines| ==> !IsModifiedLine(lines[i])
    ensures Parse(lines) == Success(map[])
  {
    ScanWithoutChangedLines(lines);
  }

  lemma {:induction false} ScanWithoutChangedLines(lines: seq<string>)
    requires forall i :: 0 <= i < |lines| ==> !IsModifiedLine(lines[i])
    ensures Scan(lines).Success?
    ensures Scan(lines).value.section.mods == [] && Scan(lines).value.diffMap == map[]
  {
    if lines != [] {
      var pre, line := lines[..|lines| - 1], lines[|lines| - 1];
      ScanWithoutChangedLines(pre);
      ClassificationPrecedence(line);
    }
  }
}
