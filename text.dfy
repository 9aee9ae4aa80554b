/** The few pieces of Ruby's String behaviour that the diff scanner relies on:
    the `\s` character class, `String#each_line` (which keeps each line's
    terminating newline) and the whitespace form of `String#split(' ')`. */
module RubyText {

  /** Ruby's `\s`: space, tab, line feed, vertical tab, form feed, carriage
      return (vertical tab from Ruby 2.2 on). The same six characters separate
      fields in `split(' ')`. */
  predicate IsSpace(c: char) {
    c == ' ' || c == '\t' || c == '\n' || c == '\U{B}' || c == '\U{C}' || c == '\r'
  }

  predicate NoSpace(s: string) {
    forall i :: 0 <= i < |s| ==> !IsSpace(s[i])
  }

  predicate AllSpace(s: string) {
    forall i :: 0 <= i < |s| ==> IsSpace(s[i])
  }

  /** A string whose only newline, if any, is its last character: what
      `each_line` yields. */
  predicate SingleLine(s: string) {
    forall i :: 0 <= i < |s| - 1 ==> s[i] != '\n'
  }

  /** Length of the first line of `s`, its newline included. */
  function LineLen(s: string): (k: nat)
    requires s != []
    ensures 1 <= k <= |s|
    ensures forall i :: 0 <= i < k - 1 ==> s[i] != '\n'
    ensures k < |s| ==> s[k - 1] == '\n'
    decreases |s|
  {
    if s[0] == '\n' || |s| == 1 then 1 else 1 + LineLen(s[1..])
  }

  /** `s.each_line`: the lines of `s`, each keeping its `\n`; a last line
      without a terminator is kept as it is, and "" has no lines. */
  function Lines(s: string): seq<string>
    decreases |s|
  {
    if s == [] then [] else var k := LineLen(s); [s[..k]] + Lines(s[k..])
  }

  function Concat(ls: seq<string>): string {
    if ls == [] then [] else ls[0] + Concat(ls[1..])
  }

  /** Joining the lines back together gives the text again. */
  lemma {:induction false} LinesRoundTrip(s: string)
    ensures Concat(Lines(s)) == s
    decreases |s|
  {
    if s != [] {
      var k := LineLen(s);
      LinesRoundTrip(s[k..]);
      assert s[..k] + s[k..] == s;
    }
  }

  /** Every line is non-empty and single-line, and every line but the last
      ends in a newline. */
  lemma {:induction false} LinesShape(s: string)
    ensures forall j :: 0 <= j < |Lines(s)| ==> Lines(s)[j] != [] && SingleLine(Lines(s)[j])
    ensures forall j :: 0 <= j < |Lines(s)| - 1 ==> Lines(s)[j][|Lines(s)[j]| - 1] == '\n'
    decreases |s|
  {
    if s != [] {
      var k := LineLen(s);
      LinesShape(s[k..]);
      var rest := Lines(s[k..]);
      assert Lines(s) == [s[..k]] + rest;
      if k == |s| {
        assert s[k..] == [];
        assert rest == [];
      }
    }
  }

  /** Length of the leading run of non-space characters. */
  function TokenLen(s: string): (k: nat)
    ensures k <= |s|
    ensures NoSpace(s[..k])
    ensures k < |s| ==> IsSpace(s[k])
    decreases |s|
  {
    if s == [] || IsSpace(s[0]) then 0 else 1 + TokenLen(s[1..])
  }

  /** `s.split(' ')`: the maximal runs of non-space characters, in order;
      leading and trailing whitespace produce no fields. */
  function Fields(s: string): seq<string>
    decreases |s|
  {
    if s == [] then []
    else if IsSpace(s[0]) then Fields(s[1..])
    else var k := TokenLen(s); [s[..k]] + Fields(s[k..])
  }

  /** The words joined by single spaces: the inverse of `Fields`. */
  function JoinSpaced(ws: seq<string>): string {
    if ws == [] then [] else if |ws| == 1 then ws[0] else ws[0] + " " + JoinSpaced(ws[1..])
  }

  /** Every field is non-empty and contains no whitespace. */
  lemma {:induction false} FieldsShape(s: string)
    ensures forall j :: 0 <= j < |Fields(s)| ==> Fields(s)[j] != [] && NoSpace(Fields(s)[j])
    decreases |s|
  {
    if s != [] {
      if IsSpace(s[0]) {
        FieldsShape(s[1..]);
      } else {
        var k := TokenLen(s);
        FieldsShape(s[k..]);
      }
    }
  }

  lemma {:induction false} FieldsOfSpaces(s: string)
    requires AllSpace(s)
    ensures Fields(s) == []
    decreases |s|
  {
    if s != [] {
      FieldsOfSpaces(s[1..]);
    }
  }

  lemma {:induction false} FieldsSkipSpaces(sp: string, s: string)
    requires AllSpace(sp)
    ensures Fields(sp + s) == Fields(s)
    decreases |sp|
  {
    if sp != [] {
      assert (sp + s)[1..] == sp[1..] + s;
      assert (sp + s)[0] == sp[0];
      FieldsSkipSpaces(sp[1..], s);
    } else {
      assert sp + s == s;
    }
  }

  /** A word followed by whitespace (or nothing) is the first field. */
  lemma FieldsOfWord(w: string, rest: string)
    requires w != [] && NoSpace(w)
    requires rest == [] || IsSpace(rest[0])
    ensures Fields(w + rest) == [w] + Fields(rest)
  {
    var s := w + rest;
    TokenLenOfWord(w, rest);
    assert s[..|w|] == w && s[|w|..] == rest;
  }

  lemma {:induction false} TokenLenOfWord(w: string, rest: string)
    requires NoSpace(w)
    requires rest == [] || IsSpace(rest[0])
    ensures TokenLen(w + rest) == |w|
    decreases |w|
  {
    if w != [] {
      assert (w + rest)[1..] == w[1..] + rest;
      TokenLenOfWord(w[1..], rest);
    } else {
      assert w + rest == rest;
    }
  }

  /** Splitting words joined by spaces gives the words back. */
  lemma {:induction false} FieldsOfJoinSpaced(ws: seq<string>)
    requires forall j :: 0 <= j < |ws| ==> ws[j] != [] && NoSpace(ws[j])
    ensures Fields(JoinSpaced(ws)) == ws
    decreases |ws|
  {
    if ws == [] {
    } else if |ws| == 1 {
      FieldsOfWord(ws[0], []);
      assert ws[0] + [] == ws[0];
    } else {
      var tail := JoinSpaced(ws[1..]);
      FieldsOfJoinSpaced(ws[1..]);
      FieldsOfWord(ws[0], " " + tail);
      FieldsSkipSpaces(" ", tail);
      assert ws[0] + " " + tail == ws[0] + (" " + tail);
      assert ws == [ws[0]] + ws[1..];
    }
  }

  /** Trailing whitespace adds no field. */
  lemma {:induction false} FieldsOfTrailingSpace(s: string, sp: string)
    requires AllSpace(sp)
    ensures Fields(s + sp) == Fields(s)
    decreases |s|
  {
    if s == [] {
      assert s + sp == sp;
      FieldsOfSpaces(sp);
    } else if IsSpace(s[0]) {
      assert (s + sp)[1..] == s[1..] + sp;
      FieldsOfTrailingSpace(s[1..], sp);
    } else {
      var k := TokenLen(s);
      TokenLenOfWordAndSpace(s, sp, k);
      assert (s + sp)[..k] == s[..k] && (s + sp)[k..] == s[k..] + sp;
      FieldsOfTrailingSpace(s[k..], sp);
    }
  }

  lemma TokenLenOfWordAndSpace(s: string, sp: string, k: nat)
    requires s != [] && k == TokenLen(s)
    requires AllSpace(sp)
    ensures TokenLen(s + sp) == k
  {
    TokenLenOfWord(s[..k], s[k..] + sp);
    assert s[..k] + (s[k..] + sp) == s + sp;
  }
}
