# Diff scanner of `PullParser::DiffParser`, modelled in Dafny

`PullParser::DiffParser` (lib/diff_parser.rb) reads the text of a unified
diff, as git writes it, and collects "interesting" changed lines per file:

- `parse` makes one pass over the lines;
- `---`/`+++` marker lines name the old and the new file of a section (`get_file`);
- a section under `spec/` is skipped (`is_file_in_spec_dir?`);
- in a `Gemfile` or `.gemspec` section every changed line is kept (`is_gem_file?`);
- elsewhere a changed line is kept only when it holds one of five tokens as a whitespace-delimited word (`is_interesting?`);
- the result maps each file name (`get_current_file`) to its kept lines, in order.

The model has six files:

- `wrappers.dfy` — `Option` and `Result`.
- `text.dfy` (module `RubyText`) — the Ruby String behaviour the scanner relies on:
  - `\s`;
  - `each_line`, which keeps each line's `\n`;
  - `split(' ')`, which splits on runs of whitespace and drops empty fields.
- `patterns.dfy` (module `Patterns`) — the nine `REGEX_*` constants, each written as a predicate on one line of text.
- `diff_parser.dfy` (module `DiffParser`):
  - `get_file`, `is_file_in_spec_dir?`, `is_gem_file?` and `get_current_file` as functions;
  - `is_interesting?` as a method with its early-return loop;
  - `parse` as the method `ParseDiff`. It keeps the same local variables as the Ruby loop and is proved equal to the functional specification `Parse`, a left fold of `Step` over the lines.
- `sections.dfy` (module `DiffSections`) — a second definition of `parse`. It cuts the diff at each `diff --git` line, runs every section from fresh variables and commits the sections in order. It is proved equal to `Parse`, and from that comes how `parse` behaves on two diffs put one after the other.
- `properties.dfy` (module `DiffProperties`) — what `parse` promises about whole diffs:
  - which section a line belongs to;
  - what a spec section, a gem section and an ordinary section record;
  - when it raises;
  - that every recorded line is a changed line of the input.

Modelling decisions:

- Result map keys are `Option<string>`:
  - `file` starts as `""`;
  - `get_current_file(nil, nil)` is `nil`, so `nil` is a possible key.
- `get_file` on a marker line without a second field raises in Ruby (`nil[2..-1]`). The model returns `Failure(MissingPathField(line))`, and `parse` passes that failure on.
- A one-character second field gives `nil`, because `"x"[2..-1]` is `nil` in Ruby.
- `^Gemfile$` also accepts `"Gemfile\n"`, because Ruby's `$` also matches before a final newline. The same holds for `.gemspec`.
- Three behaviours of the code that a reader of its comments might not expect, all followed by the model:
  - `get_file` raises on a `---`/`+++` line that has no second field, because it slices `nil` (lib/diff_parser.rb:126-131).
  - Only the exact names `Gemfile` and `.gemspec` are gem files (lib/diff_parser.rb:20-21, 151-160), so `foo.gemspec` is not one.
  - A section with `/dev/null` on both sides is accepted, and its lines are filed under the key `nil` (lib/diff_parser.rb:166-171).

## Model

| member | source | states |
|---|---|---|
| RubyText.IsSpace | lib/diff_parser.rb:16-27 | defines Ruby's `\s` in the patterns, which is also the separator set of `split(' ')` at line 126: space, `\t`, `\n`, `\v`, `\f`, `\r` (Ruby counts `\v` as `\s` from version 2.2 on) |
| RubyText.Lines | lib/diff_parser.rb:48 | defines `each_line`: the text cut after every `\n`, each line keeping its `\n`, the last line without one when the text does not end in `\n` |
| RubyText.Fields | lib/diff_parser.rb:126 | defines `split(' ')`: the maximal runs of non-whitespace characters, in order, leading and trailing whitespace dropped |
| RubyText.LinesRoundTrip | lib/diff_parser.rb:48 | joining the lines `each_line` yields gives back the input text |
| RubyText.LinesShape | lib/diff_parser.rb:48 | every line is non-empty and has no newline before its end; every line but the last ends in `\n` |
| RubyText.FieldsShape | lib/diff_parser.rb:126 | every field of `split(' ')` is non-empty and holds no whitespace |
| RubyText.FieldsOfJoinSpaced | lib/diff_parser.rb:126 | splitting words joined by spaces gives the same words back |
| RubyText.FieldsOfTrailingSpace | lib/diff_parser.rb:126 | trailing whitespace, such as a line's `\n`, adds no field |
| Patterns.IsFileStart | lib/diff_parser.rb:16 | defines `/^diff --git\s/`: the line starts with `diff --git` followed by a whitespace character |
| Patterns.IsFileDel | lib/diff_parser.rb:17 | defines `/^-{3}\s/`: the line starts with `---` followed by a whitespace character |
| Patterns.IsFileAdd | lib/diff_parser.rb:18 | defines `/^\+{3}\s/`: the line starts with `+++` followed by a whitespace character |
| Patterns.IsSpecDirName | lib/diff_parser.rb:19 | defines `/^spec\//`: the name starts with `spec/` |
| Patterns.IsGemfileName | lib/diff_parser.rb:20 | defines `/^Gemfile$/`: the name is `Gemfile`, optionally followed by one final `\n` |
| Patterns.IsGemspecName | lib/diff_parser.rb:21 | defines `/^\.gemspec$/`: the name is `.gemspec`, optionally followed by one final `\n` |
| Patterns.IsModifiedLine | lib/diff_parser.rb:22 | defines `/^[+-]{1}/`: the first character is `+` or `-` |
| Patterns.ContainsWord | lib/diff_parser.rb:23-27 | defines `/(^|\s)t(\s|$)/`: the token occurs with start of line or whitespace before it and whitespace or end of line after it |
| Patterns.Interesting | lib/diff_parser.rb:23-27 | defines the array of five patterns: one of `/dev/null`, `%x`, `raise`, `.write`, `exec` occurs as such a word |
| Patterns.ClassificationPrecedence | lib/diff_parser.rb:16-22 | a section-start line is no marker and no changed line; a `---` or `+++` marker also has the `+`/`-` sigil of a changed line, and no line is both markers |
| Patterns.WordIsInteresting | lib/diff_parser.rb:23-27 | each of the five tokens is interesting with start of line or whitespace before it and whitespace or end of line after it |
| Patterns.ContainsWordIffField | lib/diff_parser.rb:23-27 | the whole-word pattern for a token `t` matches exactly when `t` is one of the whitespace-separated fields of the line |
| Patterns.InterestingIffTokenWord | lib/diff_parser.rb:23-27 | a line is interesting exactly when one of `/dev/null`, `%x`, `raise`, `.write`, `exec` is one of its fields |
| Patterns.NotInteresting | lib/diff_parser.rb:23-27 | a line of words none of which is a token is not interesting, with or without its `\n` |
| Patterns.DevNullSpaceExampleIsInteresting | spec/diff_parser_spec.rb:23 | `hello, world - this is /dev/null ` is interesting |
| Patterns.DevNullEndExampleIsInteresting | spec/diff_parser_spec.rb:24 | `hello, world - this is /dev/null` is interesting |
| Patterns.ShellMidExampleIsInteresting | spec/diff_parser_spec.rb:26 | `we execute like this - %x ("ls")` is interesting |
| Patterns.ShellStartExampleIsInteresting | spec/diff_parser_spec.rb:27 | `%x ("ls") should list all files` is interesting |
| Patterns.RaiseStartExampleIsInteresting | spec/diff_parser_spec.rb:29 | `raise a ruckus!!!` is interesting |
| Patterns.RaiseEndExampleIsInteresting | spec/diff_parser_spec.rb:30 | `Does this even get a raise` is interesting |
| Patterns.WriteExampleIsInteresting | spec/diff_parser_spec.rb:32 | `go to the .write function` is interesting |
| Patterns.ExecExampleIsInteresting | spec/diff_parser_spec.rb:33 | `fork and exec and multiply` is interesting |
| Patterns.PraiseExampleIsNotInteresting | spec/diff_parser_spec.rb:37 | `does that deserve praise?` is not interesting |
| Patterns.PlainExampleIsNotInteresting | spec/diff_parser_spec.rb:38 | `hello, world - bye, bye!` is not interesting |
| Patterns.GluedShellExampleIsNotInteresting | spec/diff_parser_spec.rb:39 | `Random nonsense? %x(%y%z)` is not interesting |
| Patterns.GluedWriteExampleIsNotInteresting | spec/diff_parser_spec.rb:40 | `Is this.write even correct?` is not interesting |
| Patterns.SigilGluedTokenNotInteresting | lib/diff_parser.rb:93-101 | the changed line `+raise ArgumentError` with its `\n` is not interesting, because its sigil touches the token |
| Patterns.ClassifierExamples | spec/diff_parser_spec.rb:84-123 | the expected answers for the section-start, `+++`, `---` and changed-line tests |
| DiffParser.GetFile | lib/diff_parser.rb:125-132 | `get_file` fails exactly when the line has fewer than two fields; a name it returns holds no whitespace |
| DiffParser.MarkerLineFields | lib/diff_parser.rb:126 | a marker, whitespace and a token split into exactly the marker and the token |
| DiffParser.GetFileRecoversPath | lib/diff_parser.rb:125-132 | the name is the second field without its two-character `a/`/`b/` tag |
| DiffParser.GetFileDevNull | lib/diff_parser.rb:127-129 | the field `/dev/null` gives `nil` |
| DiffParser.GetFileTrailingSpace | lib/diff_parser.rb:126 | trailing whitespace on a marker line does not change the name |
| DiffParser.GetFileWithoutPath | lib/diff_parser.rb:126-131 | a marker with only whitespace after it raises |
| DiffParser.GetFileTaggedExample | spec/diff_parser_spec.rb:76 | `+++ a/path/to/file` gives `path/to/file` |
| DiffParser.GetFileUntaggedExample | spec/diff_parser_spec.rb:77 | `--- /path/to/file` gives `ath/to/file`, not `/path/to/file` |
| DiffParser.GetFileDevNullExample | spec/diff_parser_spec.rb:78 | `+ /dev/null` gives `nil` |
| DiffParser.GetFileSingleFieldExample | spec/diff_parser_spec.rb:80 | `/path/to/file` raises |
| DiffParser.InSpecDir | lib/diff_parser.rb:136-144 | defines `is_file_in_spec_dir?`: false for `nil`, else whether the name starts with `spec/` |
| DiffParser.IsGemFile | lib/diff_parser.rb:151-160 | defines `is_gem_file?`: false for `nil`, else whether the name matches the `Gemfile` or the `.gemspec` pattern |
| DiffParser.CurrentFile | lib/diff_parser.rb:166-171 | the old name unless it is `nil`, else the new one; `nil` exactly when both are `nil` |
| DiffParser.InSpecDirIffFirstSegment | lib/diff_parser.rb:136-144 | a name is in the spec directory exactly when its first path segment is `spec` and a `/` follows it |
| DiffParser.GemFileIffExactName | lib/diff_parser.rb:151-160 | for a name read off a marker line, `is_gem_file?` holds exactly for `Gemfile` and `.gemspec` |
| DiffParser.FileNameExamples | spec/diff_parser_spec.rb:44-72 | the tests' expected answers for `get_current_file`, `is_gem_file?` and `is_file_in_spec_dir?` |
| DiffParser.IsInteresting | lib/diff_parser.rb:176-184 | the early-return loop over the five patterns answers exactly `Interesting` |
| DiffParser.Fresh | lib/diff_parser.rb:39-58 | defines the values of `old_file`, `new_file`, `file`, `spec_file`, `gem_file` and `interesting_mods` at the start of `parse` (lines 39-46) and after each `diff --git` line (lines 53-58) |
| DiffParser.Commit | lib/diff_parser.rb:50-52 | defines the commit of a section: its pending lines are stored under its file name when there is at least one, overwriting an earlier entry |
| DiffParser.Resolve | lib/diff_parser.rb:71-91 | defines what a `+++` line sets: the new name, the current file, the spec flag (new name in `spec/`, or the old one when the names differ) and the sticky gem flag |
| DiffParser.SectionStep | lib/diff_parser.rb:61-102 | defines one line inside a section: skipped in a spec section; a `---` line sets the old name; a `+++` line resolves; a changed line is kept in a gem section or when interesting; a `get_file` failure is passed on |
| DiffParser.Step | lib/diff_parser.rb:48-103 | defines one loop iteration: a `diff --git` line commits the section and resets the variables before the line is handled |
| DiffParser.Scan | lib/diff_parser.rb:48-103 | defines the loop: `Step` applied to each line in order from the initial variables, stopping at the first failure |
| DiffParser.Parse | lib/diff_parser.rb:38-112 | defines `parse`: the loop followed by the commit of the last section |
| DiffParser.ScanFailurePersists | lib/diff_parser.rb:48-103 | once a line has raised, later lines do not change the outcome |
| DiffParser.ParseDiff | lib/diff_parser.rb:38-112 | the imperative loop returns exactly `Parse` of the lines of its input |
| DiffSections.SectionsFlatten | lib/diff_parser.rb:49-59 | cutting the lines at section starts loses, adds and reorders no line |
| DiffSections.SectionsWellCut | lib/diff_parser.rb:49-59 | every group but the first opens with a section start, and no other line of a group is one |
| DiffSections.SectionStartIsInert | lib/diff_parser.rb:49-69 | a section-start line leaves fresh section variables unchanged |
| DiffSections.ScanIsPending | lib/diff_parser.rb:48-103 | after any prefix, the loop's state is the earlier sections committed plus the current one run from fresh variables |
| DiffSections.ParseBySections | lib/diff_parser.rb:38-112 | `parse` is the section-by-section reading: each section's lines depend only on that section |
| DiffSections.AssembleAppend | lib/diff_parser.rb:50-51 | committing sections one after another merges the maps, a later section overwriting a shared name |
| DiffSections.SectionsAppend | lib/diff_parser.rb:49-59 | a diff that opens with a section start adds its own sections after those of what precedes it |
| DiffSections.ParseConcat | lib/diff_parser.rb:45-111 | parsing two diffs one after the other gives the first error, else the second map written over the first |
| DiffProperties.Kept | lib/diff_parser.rb:93-101 | the kept lines of a body are changed lines of that body, and interesting ones unless in a gem section |
| DiffProperties.KeptInGemSection | lib/diff_parser.rb:94-97 | in a gem section every changed line of the body, whatever else the body holds, is kept |
| DiffProperties.KeptOutsideGemSection | lib/diff_parser.rb:99-101 | elsewhere a changed line is kept exactly when it is interesting |
| DiffProperties.RunSectionAppend | lib/diff_parser.rb:61-102 | running a section over two runs of lines is running it over the first, then the second |
| DiffProperties.SpecSectionStays | lib/diff_parser.rb:61-63 | once the spec flag is set, later lines of the section change no variable |
| DiffProperties.GemFlagSticky | lib/diff_parser.rb:85-88 | once a section's gem flag is set, no later line of the section clears it |
| DiffProperties.SectionRecords | lib/diff_parser.rb:93-102 | a body without markers appends exactly its kept lines to the pending ones |
| DiffProperties.ScanWithinSection | lib/diff_parser.rb:49-59 | lines without a section start leave the map alone: commits happen only at `diff --git` |
| DiffProperties.MarkerLineName | lib/diff_parser.rb:125-132 | `get_file` reads back the name a git marker line was written for, `nil` for `/dev/null` |
| DiffProperties.GitHeader | lib/diff_parser.rb:65-91 | git's `--- a/…` and `+++ b/…` lines are a `---` marker and a `+++` marker naming the two files |
| DiffProperties.GitLineExamples | lib/diff_parser.rb:16-22 | git's `index`, `new file mode`, `deleted file mode` and `similarity index` lines, a hunk header and a context line are neither a section start, nor a marker, nor a changed line |
| DiffProperties.ExtendedHeaderIsInert | lib/diff_parser.rb:61-102 | lines that are neither markers nor changed lines leave the section variables unchanged |
| DiffProperties.MarkersResolve | lib/diff_parser.rb:65-91 | from fresh variables a `---` then a `+++` line set the old name, then resolve the section with the new one |
| DiffProperties.ScanHeader | lib/diff_parser.rb:49-91 | a `diff --git` line, any extended header lines (`index`, `new file mode`, `similarity`…), then the two markers leave the section with both names, the resolved key and both flags, and nothing committed |
| DiffProperties.SectionMap | lib/diff_parser.rb:107-109 | a section's name is in the map exactly when it kept a line, and maps to those lines |
| DiffProperties.ParseFileSection | lib/diff_parser.rb:71-97 | a section (start line, extended header lines, markers, a body of hunk headers, context and changed lines) is filed under the old name unless that is `nil`; it records nothing when either name is under `spec/`; it records every changed line when either name is a gem file; otherwise it records its interesting changed lines |
| DiffProperties.GemSectionRecordsEveryChange | lib/diff_parser.rb:85-97 | a `Gemfile`/`.gemspec` section outside `spec/` records exactly its body's changed lines in order, so every changed line of the body is in its entry, hunk headers and context lines around them |
| DiffProperties.SpecSectionAddsNothing | lib/diff_parser.rb:61-82 | a spec section, extended header lines included, added after any diff does not change the result |
| DiffProperties.RemovedDoubleDashRaises | lib/diff_parser.rb:65-68 | a removed line `--`, printed as `---`, makes `parse` raise in a section outside `spec/`, whatever extended header lines precede its markers |
| DiffProperties.ScanSound | lib/diff_parser.rb:48-103 | during the loop every pending and committed line is a changed, non-marker input line, and every committed entry is non-empty |
| DiffProperties.ParseSound | lib/diff_parser.rb:93-111 | every name in the result has lines, and each is a changed input line that is not a `---`/`+++` marker |
| DiffProperties.ParseFailure | lib/diff_parser.rb:65-73 | `parse` raises only on an input `---`/`+++` line that has fewer than two fields |
| DiffProperties.ScanFailure | lib/diff_parser.rb:65-73 | the loop fails only on such a line |
| DiffProperties.ParseSucceeds | lib/diff_parser.rb:65-73 | a diff whose marker lines all have a second field does not raise |
| DiffProperties.ScanWithoutChangedLines | lib/diff_parser.rb:93-102 | without changed lines nothing becomes pending and nothing is committed |
| DiffProperties.ParseWithoutChangedLines | lib/diff_parser.rb:105-111 | a diff without changed lines, the empty diff among them, gives the empty map |

Some of these lemmas describe behaviour of the code that the authors may not have intended:

- `ParseFileSection`: whether the section is a spec section does not depend on the `unless old_file.eql? new_file` guard (lib/diff_parser.rb:79-82). If the names are equal, `in_spec(new)` already covers `in_spec(old)`.
- `RemovedDoubleDashRaises`: a removed line starting with `-- ` (an SQL or Lua comment, say) is printed as `--- …`. The scanner reads it as a marker line and renames the section's old file. A removed line consisting of `--` alone makes `parse` raise.
- `SigilGluedTokenNotInteresting`: `is_interesting?` sees the whole line, sigil included. So a token at the start of a changed line (`+raise …`) does not count.

## Left out

- Line anchors: the model treats every string as one line. `^` and `$` are modelled for text that `each_line` yields, and `split(' ')` yields no newline inside a line. So Ruby's behaviour on text that has newlines in the middle is not modelled.
- `String#scan` counts: every anchored pattern is tested for `size == 1`. On a single line such a pattern matches at most once, so the model tests whether it matches at all.
- Regular expressions: there is no general Ruby regex engine. Each of the nine patterns is a hand-written predicate.
- Object identity: `diff_map[file] = interesting_mods` stores the array itself. The variable is then bound to a fresh array and never mutated again, so the model uses values and does not model aliasing.
- Text encoding: text is a sequence of characters, with no byte encoding and no normalisation.
- `each_line`: only the default separator `\n` is modelled.
- I/O: fetching pull requests and diffs over HTTP (lib/http.rb), the JSON pull-request list and the reporting (lib/github_pull_parser.rb, lib/pull_parser.rb) are not part of this model. They are I/O around `parse`.
- Whole diffs: the end-to-end lemmas describe sections in the shape git writes: a `diff --git` line, extended header lines (`index`, mode and `similarity` lines), a `---` and a `+++` marker, then a body of hunk headers, context and changed lines without markers. A section with several `---`/`+++` pairs, or markers in its body, is covered only by the general lemmas: `ParseSound`, `ParseFailure`, `ParseConcat` and `ParseWithoutChangedLines`.
- Key order: a Ruby `Hash` remembers insertion order, and a key written a second time keeps its first place (lib/diff_parser.rb:51, 108). The reporting code prints the map in that order (lib/pull_parser.rb:68, lib/github_pull_parser.rb:73). `DiffMap` is a Dafny `map`, which has no order, so the model says nothing about the order of the keys; `ParseConcat`'s `ma + mb` states only which lines each key holds.
