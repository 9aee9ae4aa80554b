/** The regular expressions of the diff parser (lib/diff_parser.rb, the
    `REGEX_*` constants), each written out as a predicate on a single line of
    text. Ruby's `^` and `$` are line anchors; on a string whose only newline
    is its last character `^` can only match at the start, and `$` matches at
    the end or just before that newline. */
module Patterns {
  import opened RubyText

  /** `REGEX_FILE_START = /^diff --git\s/`: the line that opens a file section. */
  predicate IsFileStart(line: string) {
    |line| > 10 && "diff --git" <= line && IsSpace(line[10])
  }

  /** `REGEX_FILE_DEL = /^-{3}\s/`: the old-file marker line `--- a/path`. */
  predicate IsFileDel(line: string) {
    |line| > 3 && "---" <= line && IsSpace(line[3])
  }

  /** `REGEX_FILE_ADD = /^\+{3}\s/`: the new-file marker line `+++ b/path`. */
  predicate IsFileAdd(line: string) {
    |line| > 3 && "+++" <= line && IsSpace(line[3])
  }

  /** `REGEX_LINE_MODIFIED = /^[+-]{1}/`: only the first character is looked at. */
  predicate IsModifiedLine(line: string) {
    |line| > 0 && (line[0] == '+' || line[0] == '-')
  }

  /** `REGEX_SPEC_DIR = /^spec\//`. */
  predicate IsSpecDirName(name: string) {
    "spec/" <= name
  }

  /** `REGEX_GEMFILE = /^Gemfile$/` (`$` also matches before a final newline). */
  predicate IsGemfileName(name: string) {
    name == "Gemfile" || name == "Gemfile\n"
  }

  /** `REGEX_GEMSPEC = /^\.gemspec$/`. */
  predicate IsGemspecName(name: string) {
    name == ".gemspec" || name == ".gemspec\n"
  }

  /** The tokens of `REGEX_INTERESTING_ARRAY`, in the order they are tried. */
  const InterestingTokens: seq<string> := ["/dev/null", "%x", "raise", ".write", "exec"]

  /** `t` occurs in `s` at `i` with start-of-line or whitespace before it and
      whitespace or end-of-line after it: a match of `/(^|\s)t(\s|$)/`. Since
      a newline is itself whitespace, the line anchors add nothing here. */
  predicate WordAt(s: string, t: string, i: int) {
    0 <= i && i + |t| <= |s| && s[i..i + |t|] == t
    && (i == 0 || IsSpace(s[i - 1]))
    && (i + |t| == |s| || IsSpace(s[i + |t|]))
  }

  /** `s.scan(/(^|\s)t(\s|$)/).size > 0`. */
  predicate ContainsWord(s: string, t: string) {
    exists i | 0 <= i <= |s| - |t| :: WordAt(s, t, i)
  }

  /** Some pattern of `REGEX_INTERESTING_ARRAY` matches `s`. */
  predicate Interesting(s: string) {
    exists j | 0 <= j < |InterestingTokens| :: ContainsWord(s, InterestingTokens[j])
  }

  /** The precedence the parser relies on: a section start is none of the
      other kinds, and a marker line would also pass as a modified line, which
      is why the markers are tested first. */
  lemma ClassificationPrecedence(line: string)
    ensures IsFileStart(line) ==> !IsFileDel(line) && !IsFileAdd(line) && !IsModifiedLine(line)
    ensures IsFileDel(line) ==> IsModifiedLine(line) && !IsFileAdd(line)
    ensures IsFileAdd(line) ==> IsModifiedLine(line) && !IsFileDel(line)
  {
    if IsFileStart(line) {
      assert line[0] == "diff --git"[0];
    }
    if IsFileDel(line) {
      assert line[0] == "---"[0];
    }
    if IsFileAdd(line) {
      assert line[0] == "+++"[0];
    }
  }

  /** An interesting token standing as a word of its own, between
      whitespace or line ends, makes the line interesting, wherever it is. */
  lemma WordIsInteresting(pre: string, j: nat, post: string)
    requires j < |InterestingTokens|
    requires pre == [] || IsSpace(pre[|pre| - 1])
    requires post == [] || IsSpace(post[0])
    ensures Interesting(pre + InterestingTokens[j] + post)
  {
    var t := InterestingTokens[j];
    var s := pre + t + post;
    var i := |pre|;
    assert s[i..i + |t|] == t;
    assert i > 0 ==> s[i - 1] == pre[|pre| - 1];
    assert i + |t| < |s| ==> s[i + |t|] == post[0];
    assert WordAt(s, t, i);
    assert ContainsWord(s, t);
  }

  /** A word-bounded occurrence of a whitespace-free token is exactly a
      whitespace-separated field of the line equal to it. */
  lemma {:induction false} ContainsWordIffField(s: string, t: string)
    requires t != [] && NoSpace(t)
    ensures ContainsWord(s, t) <==> t in Fields(s)
    decreases |s|
  {
    if s == [] {
    } else if IsSpace(s[0]) {
      ContainsWordIffField(s[1..], t);
      ContainsWordAfterSpace(s, t);
    } else {
      var k := TokenLen(s);
      assert Fields(s) == [s[..k]] + Fields(s[k..]);
      ContainsWordIffField(s[k..], t);
      ContainsWordAfterToken(s, t, k);
    }
  }

  /** Looking at `s` from `d` on: a match there is a match in `s[d..]`, given
      the left boundary is still whitespace or the start. */
  lemma WordAtSuffix(s: string, t: string, d: nat, i: nat)
    requires d <= |s|
    ensures WordAt(s, t, d + i) <==> WordAt(s[d..], t, i) && (i > 0 || d == 0 || IsSpace(s[d - 1]))
  {
    if d + i + |t| <= |s| {
      assert s[d..][i..i + |t|] == s[d + i..d + i + |t|];
    }
  }

  lemma ContainsWordAfterSpace(s: string, t: string)
    requires s != [] && IsSpace(s[0])
    requires t != [] && NoSpace(t)
    ensures ContainsWord(s, t) <==> ContainsWord(s[1..], t)
  {
    if ContainsWord(s, t) {
      var i :| 0 <= i <= |s| - |t| && WordAt(s, t, i);
      assert s[i] == s[i..i + |t|][0] == t[0];
      WordAtSuffix(s, t, 1, i - 1);
    }
    if ContainsWord(s[1..], t) {
      var i :| 0 <= i <= |s[1..]| - |t| && WordAt(s[1..], t, i);
      WordAtSuffix(s, t, 1, i);
    }
  }

  lemma ContainsWordAfterToken(s: string, t: string, k: nat)
    requires s != [] && !IsSpace(s[0]) && k == TokenLen(s)
    requires t != [] && NoSpace(t)
    ensures ContainsWord(s, t) <==> t == s[..k] || ContainsWord(s[k..], t)
  {
    if ContainsWord(s, t) {
      var i :| 0 <= i <= |s| - |t| && WordAt(s, t, i);
      if i == 0 {
        WordIsLeadingToken(s, t, k);
      } else {
        assert i > k;
        WordAtSuffix(s, t, k, i - k);
      }
    }
    if t == s[..k] {
      assert s[0..|t|] == t;
      assert WordAt(s, t, 0);
    }
    if ContainsWord(s[k..], t) {
      var i :| 0 <= i <= |s[k..]| - |t| && WordAt(s[k..], t, i);
      assert i > 0 by {
        assert s[k..][i] == s[k..][i..i + |t|][0] == t[0];
      }
      WordAtSuffix(s, t, k, i);
    }
  }

  lemma WordIsLeadingToken(s: string, t: string, k: nat)
    requires t != [] && NoSpace(t)
    requires k == TokenLen(s)
    requires WordAt(s, t, 0)
    ensures t == s[..k]
  {
  }

  /** `is_interesting?(line)` holds exactly when one of the line's
      whitespace-separated words is one of the five tokens. */
  lemma InterestingIffTokenWord(s: string)
    ensures Interesting(s) <==> exists j | 0 <= j < |InterestingTokens| :: InterestingTokens[j] in Fields(s)
  {
    forall j | 0 <= j < |InterestingTokens|
      ensures ContainsWord(s, InterestingTokens[j]) <==> InterestingTokens[j] in Fields(s)
    {
      ContainsWordIffField(s, InterestingTokens[j]);
    }
  }

  /** A token standing as a word at position `i` makes the line
      interesting: the form in which the accepted test lines are checked. */
  lemma WordAtIsInteresting(line: string, j: nat, i: nat)
    requires j < |InterestingTokens| && WordAt(line, InterestingTokens[j], i)
    ensures Interesting(line)
  {
  }

  /** Accepted by the test suite. */
  lemma DevNullSpaceExampleIsInteresting()
    ensures Interesting("hello, world - this is /dev/null ")
  {
    WordAtIsInteresting("hello, world - this is /dev/null ", 0, 23);
  }

  /** Accepted by the test suite. */
  lemma DevNullEndExampleIsInteresting()
    ensures Interesting("hello, world - this is /dev/null")
  {
    WordAtIsInteresting("hello, world - this is /dev/null", 0, 23);
  }

  /** Accepted by the test suite. */
  lemma ShellMidExampleIsInteresting()
    ensures Interesting("we execute like this - %x (\"ls\")")
  {
    WordAtIsInteresting("we execute like this - %x (\"ls\")", 1, 23);
  }

  /** Accepted by the test suite. */
  lemma ShellStartExampleIsInteresting()
    ensures Interesting("%x (\"ls\") should list all files")
  {
    WordAtIsInteresting("%x (\"ls\") should list all files", 1, 0);
  }

  /** Accepted by the test suite. */
  lemma RaiseStartExampleIsInteresting()
    ensures Interesting("raise a ruckus!!!")
  {
    WordAtIsInteresting("raise a ruckus!!!", 2, 0);
  }

  /** Accepted by the test suite. */
  lemma RaiseEndExampleIsInteresting()
    ensures Interesting("Does this even get a raise")
  {
    WordAtIsInteresting("Does this even get a raise", 2, 21);
  }

  /** Accepted by the test suite. */
  lemma WriteExampleIsInteresting()
    ensures Interesting("go to the .write function")
  {
    WordAtIsInteresting("go to the .write function", 3, 10);
  }

  /** Accepted by the test suite. */
  lemma ExecExampleIsInteresting()
    ensures Interesting("fork and exec and multiply")
  {
    WordAtIsInteresting("fork and exec and multiply", 4, 9);
  }

  /** Rejected by the test suite: `praise?` holds `raise` only inside a longer word. */
  lemma PraiseExampleIsNotInteresting()
    ensures !Interesting("does that deserve praise?")
  {
    var ws := ["does", "that", "deserve", "praise?"];
    assert JoinSpaced(ws) == "does that deserve praise?";
    NotInteresting(JoinSpaced(ws), ws);
  }

  /** Rejected by the test suite: ordinary text without a token. */
  lemma PlainExampleIsNotInteresting()
    ensures !Interesting("hello, world - bye, bye!")
  {
    var ws := ["hello,", "world", "-", "bye,", "bye!"];
    assert JoinSpaced(ws) == "hello, world - bye, bye!";
    NotInteresting(JoinSpaced(ws), ws);
  }

  /** Rejected by the test suite: `%x` glued to other characters. */
  lemma GluedShellExampleIsNotInteresting()
    ensures !Interesting("Random nonsense? %x(%y%z)")
  {
    var ws := ["Random", "nonsense?", "%x(%y%z)"];
    assert JoinSpaced(ws) == "Random nonsense? %x(%y%z)";
    NotInteresting(JoinSpaced(ws), ws);
  }

  /** Rejected by the test suite: `.write` glued to `this`. */
  lemma GluedWriteExampleIsNotInteresting()
    ensures !Interesting("Is this.write even correct?")
  {
    var ws := ["Is", "this.write", "even", "correct?"];
    assert JoinSpaced(ws) == "Is this.write even correct?";
    NotInteresting(JoinSpaced(ws), ws);
  }

  /** The patterns see the whole diff line, sigil included: a token written
      right after the `+` of an added line is glued to it, so that line is not
      interesting. */
  lemma SigilGluedTokenNotInteresting()
    ensures !Interesting("+raise ArgumentError\n")
  {
    var ws := ["+raise", "ArgumentError"];
    assert JoinSpaced(ws) + "\n" == "+raise ArgumentError\n";
    NotInteresting(JoinSpaced(ws) + "\n", ws);
  }

  /** A line whose words are all different from the tokens is not interesting. */
  lemma NotInteresting(s: string, ws: seq<string>)
    requires forall j :: 0 <= j < |ws| ==> ws[j] != [] && NoSpace(ws[j])
    requires s == JoinSpaced(ws) || s == JoinSpaced(ws) + "\n"
    requires forall j :: 0 <= j < |InterestingTokens| ==> InterestingTokens[j] !in ws
    ensures !Interesting(s)
  {
    FieldsOfJoinSpaced(ws);
    if s != JoinSpaced(ws) {
      var u := JoinSpaced(ws);
      FieldsOfTrailingSpace(u, "\n");
    }
    InterestingIffTokenWord(s);
  }

  /** The verdicts the test suite expects of the section-start, marker and
      modified-line patterns. */
  lemma ClassifierExamples()
    ensures IsFileStart("diff --git a/file b/file")
    ensures IsFileStart("diff --git bla foo bar")
    ensures !IsFileStart(" diff --git a/foo b/foo")
    ensures !IsFileStart("diff -git a/bar b/bar")
    ensures IsFileAdd("+++ /a/file")
    ensures IsFileAdd("+++    /another/file")
    ensures !IsFileAdd("--- not/a/file/start")
    ensures !IsFileAdd("+ a/modified/line")
    ensures IsFileDel("--- deleted/file")
    ensures IsFileDel("---     another/deletion")
    ensures !IsFileDel("-- this/should/be/false")
    ensures !IsFileDel("-+/random/string")
    ensures IsModifiedLine("+ Text") && IsModifiedLine("- Text")
    ensures IsModifiedLine("+  Text") && IsModifiedLine("-  Text")
    ensures IsModifiedLine("+Text") && IsModifiedLine("-Text")
    ensures !IsModifiedLine("T+E-X-T") && !IsModifiedLine("/is/false")
  {
    assert "--- not/a/file/start"[0] != "+++"[0];
    assert " diff --git a/foo b/foo"[0] != "diff --git"[0];
    assert "diff -git a/bar b/bar"[6] != "diff --git"[6];
    assert "-+/random/string"[1] != "---"[1];
  }
}
